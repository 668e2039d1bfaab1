# Verified model of RobotServer

RobotServer is a server for GPS watches. Devices upload files in 1024-byte packets and fetch
commands with a heartbeat; phones post commands and poll for reports; Redis holds everything in
one flat map of strings; uploads trigger a replication by UDP multicast; connections are served by
a pool of worker threads. This project models those parts in Dafny and proves what they promise,
and where the code does not keep a promise, exactly when it does.

Check it with `dafny verify dfyconfig.toml`.

## What is modelled, and the main results

**Block transfer.** `Packetiser` cuts a file into packets (`takeDataPacket`), `BlockReceive` and
`BlockClient` are the loop of `apolloParsePacket` with the two branches that touch a connection's block
buffers, `BlockMixed` and `BlockTrace` what other packets do to uploads, `Multicast` and `Replication`
the UDP receiver and sender.
- Formats (`Wire`): every packet is also given byte by byte, in the protocol's own numbers, and sender and
  receivers are proved to agree with that (`PacketLayout`, `StreamLayout`, `PacketRead`, `DatagramRead`,
  `DownloadAnswered`, `CommandSent`, `HeartbeatSent`).
- Upload (`UploadSavedOnce`): for every file of 1 to 32768 bytes and every way of cutting its
  stream into arrivals, a fresh connection saves the file exactly once, whole, under the sender's
  number, in the callback that receives the final byte.
- Afterwards (`NothingElseIsSaved`, `SavesAfterUpload`): the packet index is not reset after the last
  packet, so a second upload on the same connection is never saved. Whatever arrives, the first file is
  saved again, once for each arrival until the room left in the packet buffer is used up.
- The packet buffer is not cleared after a packet of another kind. What is left there can be taken for
  the header of the next packet, and then a file is saved before that header has come: `EarlyRead` says
  exactly when, `FalseSave` is one arriving byte that overwrites a device's file with zeros. An upload after
  other packets is still saved whole, last of all, and it is the only save if and only if no arrival
  ends in front of such leftovers (`UploadAfterOthers`).
- A download is put together in the block buffer of its connection. Between two packets of an upload it
  overwrites the blocks received so far, and the file saved begins with the packets of the file sent
  (`DownloadBetween`, with the exact condition for it to be the uploaded one).
- Any arrivals whatever (`UploadProvenance`): the passes of the loop form a log, later ones ending later,
  that determines buffer, saves and downloads; each byte of a saved file is the arrived byte, or the byte
  of a downloaded file's packets, that the latest pass writing there stored, or zero; and a packet is
  placed before its header has come only after a packet of another kind.
- Multicast, any packets whatever (`Provenance`, `SavedFile`): in every run each buffer byte is
  zero or the one the latest accepted packet put there since the last clear, and files are written
  exactly at accepted last packets.
- Multicast, one transfer over whatever the buffer held (`LossyDelivery`, `WholeDelivery`): order,
  duplicates and noise before the last packet make no difference. If every packet arrives the file is
  the sender's; in general it is so if and only if every block that did not arrive already had its
  bytes in the buffer (all zero, when the buffer is clear: `ClearDelivery`).
- The buffer is cleared only by a last packet, so the promise fails: when a transfer is cut off, its
  bytes fill the blocks the next device's transfer loses, in that device's file (`CutOffTransfer`, with
  the witness `ForeignBlock`). A repeated last packet overwrites the saved file with zeros (`RepeatedLast`).
- Replication as a whole (`ReplicaRoundTrip`): the replica is whole, and it lands under the path
  the sender read if and only if the device number is BCD.

**Work queue.** `WorkQueue` is a step system over any number of workers and clients with a mutex, a
condition variable and spurious wake-ups; `JobList` is the intrusive list on the heap.
- No lost wake-up, conservation of jobs, no missed broadcast (`NoLostWakeup`, `JobsConserved`,
  `NoMissedBroadcast`) in every reachable state; the list is last in, first out (`LastInFirstOut`).
- Progress: every run is bounded but for new calls and spurious wake-ups (`RunsAreBounded`), and when
  nothing moves any more and no worker has left, every job has been finished or dropped by a shutdown
  (`NoJobLeftBehind`).
- The comment in `workqueue_shutdown` says that all workers will terminate. The code does not do
  that: a worker leaving through the terminate break keeps the mutex (`MutexLost`). After a shutdown
  exactly one worker leaves, so all leave if and only if there is only one (`ShutdownStopsOne`). With the
  mutex released at the break all would (`ShutdownStopsAll`).
- The call to shut down returns once it has locked the mutex (`LockedShutdownReturns`). Until then it may
  hang for ever: from every reachable state in which none has been called yet, with any number of workers
  (`ShutdownMayHang`).

**Commands and the store.** `Commands` has the texts and replies, `Store`, `Server` and `Routing` the
handlers over the flat map, `MailboxRace` the handlers with `get` and `del` as separate calls.
- Round trips (`CommandRoundTrip`, `BoundCommandRoundTrip`, `NumberIntact`): every stored command comes
  back as itself, with the number intact if and only if it is BCD or not sent; a heartbeat's report
  comes back from the bound phone's poll (`BoundReportRoundTrip`).
- The flat map refines four tables (`CommandRefines`, `HeartRefines`, `LocateRefines`, `PollRefines`,
  `LoadRefines`, `RunRefines`), so commands and reports reach only devices and phones bound to each other.
- Runs over the flat store, from any store, of packets of any length, of the threads they start and of new
  bindings: a bound device's heartbeat gets exactly the latest command put in its mailbox by a phone
  bound to it, or by the server (`HeartDeliversLatest`); a poll returns the latest report or location of
  the devices bound to the phone (`PollReturnsLatest`). Unbound devices get the time, unbound phones are
  refused (`UnboundNeverServed`), but polls never are: one of a phone that is never bound returns what
  its slot held at first (`UnboundPollUnchanged`).
- Redis outlives the server, and loading the list of bindings deletes nothing. Loading a one-to-one
  list over mutually inverse bindings keeps them so if and only if no old binding is replaced by half
  (`LoadedInverse`); then each pair on the list, and each old pair of which neither is on it, is served as if
  it were alone (`PairsAreServed`). Otherwise the old phone is still heard (`OldPhoneStillHeard`) or the
  old device still seen (`OldDeviceStillSeen`).
- No run makes the piece array of `Separation` overflow (`MailboxAlwaysFits`).
- With `get` and `del` apart (`DeliveredOnceInOrder`, `CommandFate`): deliveries are in order and never
  repeated. A command posted between the get and the del is lost in every continuation; one posted at
  any other time is lost exactly when the next step is another post.

**Smaller parts.** `HttpReply` (the AssistNow reply loop hands over exactly the payload however the
reply is cut into reads, `ReplyDelivered`; see section 6.2 of RFC 9112 for Content-Length), `Separation` and `DecimalText` (split, join,
`%d`, `atoi`), `HexText`, `ConnectionPool` (no connection is lent twice) and `Observer` (the list of
observers and its notification).

A byte is an int from 0 to 255, read through `Signed` where the C code reads a signed `char`. Where the
source has a loop over a buffer, a method with that loop is proved equal to a function on sequences,
and the theorems are about the function. Calls out of the program appear as parameters: the content
of a file, the result of a read, the latest location in the database, the outcome of opening a
connection.

## Model

| member | source | states |
|---|---|---|
| HexText.HexToString | ApolloUtil.c:13-22 | the buffer receives the hexadecimal text of the bytes, and nothing beyond it changes |
| HexText.StringToHex | ApolloSyner.c:65-68 | the decoding loop returns the byte of each pair of characters and overwrites every non-digit by '0' |
| HexText.TextDigitAt | ApolloUtil.c:16-20 | which hexadecimal digit stands where |
| HexText.TextInjective | ApolloUtil.c:13-22 | different numbers have different texts |
| HexText.FromTextOfText | ApolloUtil.h:8-12 | decoding a printed number zeroes exactly its letter nibbles, so it returns the number if and only if the number is BCD |
| HexText.TextDigits | ApolloUtil.h:8-12 | the text has only decimal digits if and only if the number is BCD |
| Packetiser.TakeDataPacket | ApolloUtil.c:167-220 | the output buffer holds the stream of packets of what was read of the file, nothing beyond it changes, and the length is returned |
| Packetiser.PacketLayout | ApolloUtil.c:171-216 | every byte of a packet, in the protocol's own numbers |
| Packetiser.StreamLayout | ApolloUtil.c:182-219 | the stream has such a packet every 1024 bytes, and nothing else |
| Packetiser.StreamLength | ApolloUtil.c:182-219 | the stream has size + 32 * ceil(size / 992) bytes |
| Packetiser.FitsBuffer | ApolloProtocol.h:67-70 | the stream fits the block buffer if and only if the file has at most 31744 bytes |
| Packetiser.PacketAt | ApolloUtil.c:188-217 | packet k starts at k * 1024, and only the last packet ends the stream |
| Packetiser.PayloadsGiveBlob | ApolloUtil.c:198-216 | the payloads, concatenated, are the file |
| Packetiser.TakeDataPacketFlag | ApolloUtil.c:222-228 | byte 20 of each 1024-byte chunk becomes the flag and no other byte changes |
| Packetiser.StampPackets | ApolloUtil.c:222-228 | stamping a packetised file gives exactly the packets with that flag |
| Packetiser.SendLoop | ApolloSyner.c:73-83 | the loop ends, and what it sends, concatenated, is the buffer |
| Packetiser.ChunksArePackets | ApolloProtocol.c:500-517 | the send loops hand over exactly one packet per call |
| BlockFormat.CopyPayload | ApolloProtocol.c:633-635 | the copy loop stores the payload at the packet's block and changes no other byte |
| BlockFormat.NamesDiffer | ApolloUtil.c:28-47 | no two devices, and not the two kinds of data of one device, share a file name |
| BlockReceive.PacketRead | ApolloProtocol.c:619-669 | what a packet does whose first read brings its header, in the protocol's own numbers and for every value of its fields |
| BlockReceive.PartialPacket | ApolloProtocol.c:621-647 | with anything left behind it, a packet of which only a part has come meets the save condition exactly when it is last and complete, or early |
| BlockReceive.TransferRead | ApolloProtocol.c:619-672 | over any leftovers, each read leads from the state after c bytes to the state after c + n, saving exactly at the last byte and where the packet is early |
| BlockReceive.TransferServe | ApolloProtocol.c:531-690 | over any leftovers, the state depends only on how many bytes have arrived, not on how they were cut |
| BlockReceive.SavesInAll | ApolloProtocol.c:647-669 | a complete upload has been saved, last of all, and alone if and only if no arrival ended early |
| BlockReceive.UploadSavedOnce | ApolloProtocol.c:619-672 | the upload round trip: after any arrivals that begin the stream the saves are the whole file once, or none, by whether the stream is complete |
| BlockReceive.StuckRead | ApolloProtocol.c:641-669 | every later read saves the old file again |
| BlockReceive.NothingElseIsSaved | ApolloProtocol.c:641-669 | for all later arrivals the saves are the first file again, once for each non-empty arrival that finds room in the packet buffer |
| BlockReceive.SavesAfterUpload | ApolloProtocol.c:641-669 | everything a connection saves that has received a whole upload and then anything at all |
| BlockMixed.EarlyRead | ApolloProtocol.c:641-647 | exactly when a read saves although the header has not come; the low byte of the length is then a leftover |
| BlockMixed.FalseSave | ApolloProtocol.c:619-669 | a heartbeat and one more byte after which a device's file is overwritten with zeros |
| BlockMixed.OtherPacket | ApolloProtocol.c:543-680 | a packet of another kind saves nothing, stays in the packet buffer, and if it is a download request overwrites the front of the block buffer |
| BlockMixed.DownloadAnswered | ApolloProtocol.c:485-512 | a request, byte by byte: which file is read, what is sent, and what the block buffer then holds |
| BlockMixed.UploadAfterOthers | ApolloProtocol.c:531-690 | an upload after other packets is saved whole, last of all, and alone if and only if no arrival ends where leftovers make the first packet early |
| BlockMixed.RestOfUpload | ApolloProtocol.c:619-672 | packets k and later over any buffers: the file saved has in front what the block buffer held |
| BlockMixed.DownloadBetween | ApolloProtocol.c:498-512 | a download between two packets of an upload: what is saved, and exactly when it is the uploaded file |
| BlockTrace.EarlyNeedsOther | ApolloProtocol.c:619-647 | a packet is placed before its header has come only after a packet of another kind |
| BlockTrace.UploadProvenance | ApolloProtocol.c:531-680 | for any arrivals at all: a log of passes, ordered by where they end in the input, gives buffer, saves and downloads, and traces every buffer byte to the arrived or sent byte last stored there |
| BlockClient.Client.constructor | server.c:203-208 | a new connection has a zeroed block state |
| BlockClient.Client.OnRead | server.c:127-127 | a callback changes the state as the specification of a callback says, and answers each save |
| BlockClient.DeviceBlockDataSendPacket | ApolloProtocol.c:478-519 | a request of the right length is answered with the packets of the file byte 13 names, which then fill the front of the block buffer; any other is refused |
| BlockClient.Client.ApolloParsePacket | ApolloProtocol.c:531-690 | the loop ends in the state the specification of draining the input says, with one "SETOK%" per save |
| BlockClient.Client.Step | ApolloProtocol.c:543-680 | one pass of the loop does what the specification of one pass says |
| BlockClient.Client.SaveLast | ApolloProtocol.c:648-668 | the file, the answer and the replication request of a finished upload |
| Multicast.BadHeaderIgnored | ApolloSyner.c:144-147 | an empty or failed receive, and a datagram that does not begin with 0x56, change nothing |
| Multicast.DatagramRead | ApolloSyner.c:138-184 | what a block packet does, in the protocol's own numbers and for every value of its fields |
| Multicast.Provenance | ApolloSyner.c:130-186 | in every run every buffer byte is zero or comes from the latest accepted packet since the last clear |
| Multicast.SavedFile | ApolloSyner.c:162-182 | in every run a file is written exactly at an accepted last packet, and each of its bytes is explained |
| Multicast.BodyRun | ApolloSyner.c:130-184 | for any order, losses, duplicates and noise, and any buffer before, exactly the blocks received lie over it |
| Multicast.FirstTakesOver | ApolloSyner.c:148-150 | a run that starts with packet 0 does not depend on the owner before |
| Multicast.LossyDelivery | ApolloSyner.c:148-182 | exactly one file is written, at the path the flag selects: the sender's blocks that arrived over what the buffer held; it is the sender's file if and only if the missing blocks were there already |
| Multicast.WholeDelivery | ApolloSyner.c:130-184 | if nothing is missing the file written is the sender's, in whatever order it came and whatever the buffer held |
| Multicast.ClearDelivery | ApolloSyner.c:97-97 | from a clear buffer exactly the missing blocks are zero, and the file is the sender's if and only if they were zero in it |
| Multicast.CutOffTransfer | ApolloSyner.c:148-182 | after a transfer that was cut off, the blocks the next one loses are filled with the first sender's bytes |
| Multicast.ForeignBlock | ApolloSyner.c:148-182 | two senders and three blocks for which that happens |
| Multicast.RepeatedLast | ApolloSyner.c:162-182 | a repeated last packet rewrites the file with zeros and its own block; the file survives if and only if its other blocks were zero |
| Multicast.OwnedByAnother | ApolloSyner.c:148-154 | while another device owns the loop, later packets of a sender have no effect |
| Replication.ApolloStrcmp | ApolloUtil.c:295-304 | true exactly when the first bytes agree |
| Replication.SynerLoop.constructor | ApolloSyner.c:97-98 | buffer and owner start zeroed |
| Replication.SynerLoop.Pass | ApolloSyner.c:131-184 | one pass of the loop does what the specification of one datagram says |
| Replication.ApolloSynerAction | ApolloSyner.c:61-83 | the sender reads the agps file of the text it is given and sends that file's packets with the flag, one per call |
| Replication.ReplicaRoundTrip | ApolloSyner.c:61-83 | whatever the receiver's buffer held, the replica is whole, and under the sender's path if and only if the number is BCD |
| WorkQueue.NextInv | workqueue.c:21-107 | every step of every thread keeps the whole invariant, spurious wake-ups included |
| WorkQueue.JobsConserved | workqueue.c:38-107 | in every reachable state each call to add a job is accounted for exactly once: being added, waiting, held, executed, or cleared by a shutdown |
| WorkQueue.LastInFirstOut | workqueue.c:38-41 | whatever is added and taken in between, the first worker to come down to a job takes it, and leaves what waited before it |
| WorkQueue.EmptiedByShutdown | workqueue.c:94-98 | from clearing the list until it gives up the mutex a shutdown keeps the list empty |
| WorkQueue.DroppedByShutdown | workqueue.c:94-96 | jobs are dropped only by a shutdown |
| WorkQueue.NoLostWakeup | workqueue.c:25-45 | while a worker sleeps, waiting jobs are at most the workers heading for the list, one more between push and signal |
| WorkQueue.NoJobStranded | workqueue.c:25-33 | a waiting job has a worker on its way or about to be woken, unless none sleeps |
| WorkQueue.NoMissedBroadcast | workqueue.c:28-36 | after the broadcast every worker is told to terminate, none sleeps or will sleep, and none takes another job |
| WorkQueue.MutexLost | workqueue.c:35-36 | once a worker has left through the break nothing is ever added, taken, started or dropped again |
| WorkQueue.AtMostOneExits | workqueue.c:35-52 | in every run at most one worker exits |
| WorkQueue.RunsAreBounded | workqueue.c:21-107 | from every reachable state the number of steps is limited, but for a fixed grant for each new call and spurious wake-up |
| WorkQueue.Settles | workqueue.c:21-107 | the threads' own actions lead from every reachable state to one where nothing moves |
| WorkQueue.HaltedIsQuiet | workqueue.c:21-107 | when nothing moves and no worker has left with the mutex, all calls have returned and all workers sleep or have left |
| WorkQueue.NoJobLeftBehind | workqueue.c:38-107 | when nothing moves and no worker has left, no job waits, and each has been executed or cleared as often as it was given to the queue |
| WorkQueue.ShutdownStopsOne | workqueue.c:84-99 | a run with a shutdown in it, continued until nothing moves, ends with exactly one worker gone; all are gone if and only if there is only one |
| WorkQueue.ShutdownStopsAll | workqueue.c:84-99 | with the mutex released at the break, such a run ends with all workers gone and all calls returned |
| WorkQueue.LockedShutdownReturns | workqueue.c:94-99 | a shutdown that has locked the mutex always returns, and has then broadcast |
| WorkQueue.ShutdownMayHang | workqueue.c:84-99 | from every reachable state before a shutdown, for any number of workers and any client, a run leads to where its shutdown waits for the mutex in every continuation |
| JobList.LlRemove | workqueue.c:14-19 | what the macro does to the links, wherever the item is |
| JobList.WaitingJobs.Add | workqueue.c:8-12 | a push; every prev stays null |
| JobList.WaitingJobs.Remove | workqueue.c:14-19 | removing the head pops it; removing any other item cuts the list after it and leaves it in |
| JobList.WaitingJobs.Take | workqueue.c:38-41 | a worker pops the head, or gets nothing from an empty list |
| JobList.AddThenTake | workqueue.c:101-107 | last added, first taken |
| Observer.SingleList.Insert | DesignPattern/Observer.c:169-184 | the new observer comes first and the rest is unchanged |
| Observer.SingleList.Remove | DesignPattern/Observer.c:187-202 | every occurrence is removed and the order of the others kept |
| Observer.WithoutMembers | DesignPattern/Observer.c:187-202 | removal takes all occurrences of one observer and none of any other |
| Observer.AttachDetach | DesignPattern/Observer.c:252-260 | detaching undoes attaching for an observer that was not attached |
| Observer.DataSubject.Attach | DesignPattern/Observer.c:252-255 | attaching puts the observer in front |
| Observer.DataSubject.Detach | DesignPattern/Observer.c:257-260 | detaching removes every occurrence |
| Observer.DataSubject.Notify | DesignPattern/Observer.c:204-273 | every entry is updated once, in list order; attached observers then hold the subject's state and no other object changes |
| DecimalText.AtoiOfPrinted | ApolloProtocol.c:118-118 | atoi undoes "%d" for every number, whatever non-digit follows |
| DecimalText.AtoiSpace | ApolloProtocol.c:118-118 | atoi passes over white space |
| DecimalText.AtoiPlus | ApolloProtocol.c:118-118 | atoi accepts a plus sign |
| DecimalText.AtoiNothing | ApolloProtocol.c:210-210 | atoi reads zero where no number begins |
| DecimalText.PrintInjective | ApolloProtocol.c:176-176 | different numbers are printed differently |
| DecimalText.DigitAt | ApolloProtocol.c:176-176 | which decimal digit stands where |
| DecimalText.DigitCount | ApolloProtocol.c:117-117 | a number has at most k digits exactly when it is below the k-th power of ten |
| Separation.Separate | ApolloUtil.c:231-262 | the table receives the pieces; every write stays inside the piece array and the table |
| Separation.SplitJoin | ApolloUtil.c:238-255 | joining the pieces gives the string, no piece contains the separator, and there is one piece more than separators |
| Separation.JoinSplit | ApolloUtil.c:238-255 | splitting joined pieces gives the pieces |
| Commands.StoredCommands | ApolloProtocol.c:18-67 | exactly which commands are stored, and that the high nibble 4 marks the settings among them |
| Commands.StoredLayout | ApolloProtocol.c:218-242 | the stored texts, in the protocol's own numbers |
| Commands.ReplyLayout | ApolloProtocol.c:549-564 | the replies, byte by byte |
| Commands.ReplyChoice | ApolloProtocol.c:549-572 | which results of a heartbeat are answered with a setting, with the time, or not at all |
| Commands.NumberDelivered | ApolloProtocol.c:117-121 | a short text is a command if it reads as 0 to 254, and an error otherwise |
| Commands.PiecesDelivered | ApolloProtocol.c:122-157 | what any longer text does to each byte of the reply buffer, piece by piece |
| Commands.LengthTells | ApolloProtocol.c:117-117 | a stored text is shorter than 4 characters exactly when it is a single command |
| Commands.SettingDelivered | ApolloProtocol.c:122-157 | a setting comes back with its command, its signed index byte and its number |
| Commands.SingleDelivered | ApolloProtocol.c:117-121 | a single command comes back as itself and not as a setting |
| Commands.CommandRoundTrip | ApolloProtocol.c:111-157 | what a phone stores is what the heartbeat answers, letter nibbles of a number zeroed |
| Commands.NumberIntact | ApolloProtocol.c:139-147 | the answer is the one for the number sent if and only if no number is sent or it is BCD |
| Store.ReportComplete | ApolloProtocol.c:103-105 | a heartbeat's report determines the device information and the time stamp it was made from |
| Store.KeysDiffer | ApolloProtocol.c:82-107 | the keys of bindings, mailboxes and user slots are injective and disjoint |
| Store.PhoneDigits | ApolloProtocol.c:208-210 | the phone of a packet with decimal digits in bytes 1 to 4 is the number with these eight digits |
| Store.CommandSent | ApolloProtocol.c:208-222 | phone, command, index and number of a command are read where they were put |
| Store.HeartbeatSent | ApolloProtocol.c:76-105 | the device of a heartbeat, and the report made from its information and its time stamp, low byte first |
| Store.WrongLength | ApolloProtocol.c:71-80 | which lengths each handler accepts |
| Store.PhoneIsUser | ApolloProtocol.c:208-210 | the phone number read from any packet is a user number of at most eight digits |
| Store.CommandRefines | ApolloProtocol.c:198-246 | a phone command on the flat map is the command on the tables |
| Store.HeartRefines | ApolloProtocol.c:71-161 | a heartbeat on the flat map is the heartbeat on the tables, with the same result and reply buffer |
| Store.LocateRefines | ApolloProtocol.c:271-312 | a location goes to the slot of the user bound to the device, and to no other place |
| Store.PollRefines | ApolloProtocol.c:166-183 | a poll reads exactly the phone's own slot |
| Routing.LoadRefines | ApolloSqlOperator.c:485-501 | loading rows into the flat map is loading them into the tables |
| Routing.LoadedBindings | ApolloSqlOperator.c:485-501 | over whatever the store held, the flat bindings are the list's, and the old ones where the list names no other |
| Routing.BoundCommandRoundTrip | ApolloProtocol.c:198-246 | over any store, from the bytes a phone sends: the mailbox text, and the reply to the bound device's heartbeat, which empties the mailbox |
| Routing.BoundReportRoundTrip | ApolloProtocol.c:103-109 | over any store, from the bytes a device sends: the bound phone's poll returns the report made of them |
| Routing.BoundLocationRoundTrip | ApolloProtocol.c:269-312 | the same for a location packet and its text |
| Routing.CommandReachesOnlyItsDevice | ApolloProtocol.c:208-242 | a command changes nothing for the heartbeat of any other device |
| Routing.RunRefines | ApolloProtocol.c:71-325 | every run of packets of any length, thread ends and new bindings over the flat store is the run over the tables |
| Routing.LoadedInverse | ApolloSqlOperator.c:485-501 | loading a one-to-one list over mutually inverse bindings keeps them so if and only if no old binding is replaced by half |
| Routing.OldPhoneStillHeard | ApolloSqlOperator.c:488-499 | if an old binding's device is on the list and its user is not, the old phone's commands still reach the device |
| Routing.OldDeviceStillSeen | ApolloSqlOperator.c:488-499 | if its user is on the list and its device is not, the old device's reports still reach the user |
| Routing.HeartDeliversLatest | ApolloProtocol.c:111-157 | from any store and after any run, a bound device's heartbeat gets exactly the latest command from a phone bound to it, or the server, since its previous one |
| Routing.PollReturnsLatest | ApolloProtocol.c:174-182 | from any store and after any run, a poll returns the latest report or location of a device bound to the phone, or what the slot held at first |
| Routing.UnboundNeverServed | ApolloProtocol.c:82-90 | after any run, an unbound device gets just the time, an unbound phone is refused, and neither changes the store |
| Routing.UnboundPollUnchanged | ApolloProtocol.c:166-183 | the poll of a phone that is never bound returns after any run what it returned before |
| Routing.PairsAreServed | ApolloSqlOperator.c:485-501 | after loading over old bindings none of which is replaced by half, every pair served lives as if it were alone |
| Server.MailboxAlwaysFits | ApolloUtil.c:235-255 | no run puts a text in a mailbox whose pieces overflow the piece array |
| Server.Server.GetValue | ApolloRedis.c:32-56 | the copying loop returns the value, cut at its limit, or nothing |
| Server.Server.PhoneCommandPacket | ApolloProtocol.c:198-246 | the handler changes the store and returns as its specification says |
| Server.Server.DeviceHeartPacket | ApolloProtocol.c:71-161 | the handler changes store and reply buffer and returns as its specification says |
| Server.Server.DeviceLocationPacket | ApolloProtocol.c:254-325 | the handler changes the store and returns as its specification says |
| Server.Server.PhoneHeaderPacket | ApolloProtocol.c:166-183 | the poll returns the slot's text and its length |
| Server.Server.InitRelationships | ApolloSqlOperator.c:485-501 | the loop stores both bindings of every row |
| MailboxRace.DeliveredOnceInOrder | ApolloProtocol.c:113-149 | with get and del apart, delivered commands are posted ones in posting order, none twice |
| MailboxRace.CommandFate | ApolloProtocol.c:113-149 | in every continuation: a command posted between get and del is never delivered; one posted otherwise is delivered exactly if fetched next and deleted later, and lost exactly if another post comes next |
| MailboxRace.DeadStaysDead | ApolloProtocol.c:113-149 | a command lost unread is delivered in no continuation |
| MailboxRace.FetchedFate | ApolloProtocol.c:113-149 | a fetched command is delivered exactly if the handler comes to delete it |
| MailboxRace.CommandLost | ApolloProtocol.c:120-120 | a run in which a command is lost unread |
| HttpReply.ReadReply | anolclient_china.c:394-477 | the function's loop and conclusion, for every sequence of read results |
| HttpReply.ParsePayload | anolclient_china.c:420-430 | once cut off, the header is not parsed again, even if the payload contains its terminator |
| HttpReply.ScanPrinted | anolclient_china.c:425-425 | the length field as a server writes it is read as the number it shows, modulo 2^32 |
| HttpReply.ScanSigned | anolclient_china.c:425-425 | a signed length field, a negative one wrapping around |
| HttpReply.AnyFragmentation | anolclient_china.c:394-460 | for every cut of a well-formed reply the outcome is the same function of header and payload |
| HttpReply.ReplyDelivered | anolclient_china.c:394-460 | from the bytes a server writes, however cut: exactly the payload for application/ubx if there is room, the error of its kind otherwise |
| HttpReply.OverrunRejected | anolclient_china.c:444-476 | a read that brings bytes beyond the reply makes the loop reject it |
| HttpReply.StopsShort | anolclient_china.c:401-408 | a reply that stops short, by close, error or silence, is never handed over |
| ConnectionPool.GetConnection | ApolloSqlOperator.c:41-70 | the loop does what the specification of the scan says |
| ConnectionPool.ReturnConnection | ApolloSqlOperator.c:72-91 | the loop does what the specification of the search says |
| ConnectionPool.GetEffect | ApolloSqlOperator.c:46-69 | the scan reopens closed entries up to the first free one and hands that one out; it fails exactly when none is free |
| ConnectionPool.ReturnEffect | ApolloSqlOperator.c:77-88 | how each of the three endings of a return comes about |
| ConnectionPool.BorrowInv | ApolloSqlOperator.c:41-70 | a get keeps the invariant and hands out a connection nobody holds |
| ConnectionPool.GiveBackInv | ApolloSqlOperator.c:72-91 | a return by the holder keeps the invariant |
| ConnectionPool.NeverLentTwice | ApolloSqlOperator.c:41-91 | in every run no connection is lent while it is lent |
| ConnectionPool.RetrySucceeds | ApolloSqlOperator.c:46-69 | a failed get found no entry free; trying again succeeds if and only if the first reopened one |
| ConnectionPool.GiveBackWorks | ApolloSqlOperator.c:77-84 | a held connection can be given back if and only if no entry before its own is closed |

## Left out

- Sockets, libevent, thread creation, file access, Redis, MySQL and curl: their results are parameters; Redis always answers, so the -2 returns for a failed `set` do not occur, and the command string that `sprintf` builds for Redis is not modelled.
- Stores and loads outside a buffer: when a packet's index or length field points outside the block buffer or the frame, C has no defined behaviour; the model drops the access and clips the file length. None of this occurs for packets of `takeDataPacket`.
- Packetiser.TakeDataPacket: takes what `read_dat` returned, at most 32768 bytes, and an output buffer with room for the packets; a 32 KiB buffer has room if and only if there are at most 31744 bytes (`FitsBuffer`), so the two senders are modelled for such files only. An unreadable file is not modelled.
- BlockClient.Client.Step: the branches that do not touch the block buffers are modelled handler by handler in `Server`, and leave a connection as it is here.
- Replication.ApolloSynerAction: files of more than 31744 bytes, whose packets overflow the buffer (`FitsBuffer`).
- BlockClient.DeviceBlockDataSendPacket: the same.
- File names: the char arrays that hold them are not bounded.
- Overflow in `atoi`: no text of the protocol has enough digits for it.
- HttpReply.AnyFragmentation: the part of the reply buffer not yet read is taken to be zero, as `strstr` needs it; a header without Content-Length, where C passes a null pointer on, is treated as one without a length, and lengths beyond an int are kept.
- Connecting to the AssistNow server, sending the request and the user data.
- WorkQueue.JobsConserved: job functions are single steps that may take forever; each write of a `terminate` flag is one atomic step; freeing workers and jobs is left out, and so is a signal handler interrupting a thread that holds the mutex.
- The connection pool is compiled out by the current setting of CONNECTIONPOOL_SELECT; a return without a match keeps the lock, which the model reports as an ending and does not follow further.
- Observer.SingleList.Remove: freeing the removed observer and node is left out, and detaching a null pointer, which would remove the sentinel.
- MailboxRace.DeliveredOnceInOrder: one device, at most one of its heartbeats being handled at a time; the tables of different devices are independent (`CommandReachesOnlyItsDevice`).
- The thread started for a fall alarm, and the time written into a reply that carries only the time.
- The texts made from location packets and from the answers of the location service (they are parameters), LBS and WiFi requests, user registration and passwords, and the keys of user names.
- `deviceBlockDataRecvPacket` (an unused older copy), the string search in curljson.c (it never succeeds and is never called), `apollo_atoi`, logging, and DesignPattern/concreteHandle.c.
