/** The multithreaded work queue as a step system: any number of worker threads running
    worker_function, any number of client threads calling workqueue_add_job and workqueue_shutdown. */
module WorkQueue {
  import opened Options

  type Job = nat

  /** Where a worker stands in worker_function. */
  datatype WorkerPc =
    | AtLock                        // about to lock the mutex, at the top of the loop
    | AtCheck                       // holds the mutex, about to test for waiting jobs
    | AtEmptyCheck                  // saw no jobs, about to test `terminate`
    | AtWait                        // about to wait on the condition variable
    | Asleep                        // in pthread_cond_wait, mutex released
    | Woken                         // woken, must take the mutex again before it can return
    | AtTerminate                   // past the waiting loop, about to test `terminate`
    | AtTake                        // about to take the head job
    | AtUnlock(taken: Option<Job>)  // about to unlock the mutex
    | Running(job: Job)             // executing a job
    | Exited                        // left through the terminate break

  /** Where a client stands in workqueue_add_job or workqueue_shutdown. */
  datatype ClientPc =
    | Idle
    | AddLock(job: Job)
    | AddPush(job: Job)
    | AddSignal
    | AddUnlock
    | ShutMark(left: nat)           // this many workers still to be marked, last created first
    | ShutLock
    | ShutClear
    | ShutBroadcast
    | ShutUnlock

  datatype Owner = Free | Worker(w: nat) | Client(c: nat)

  /** The queue, its threads, and four history variables: jobs added, finished and dropped, and
      whether a shutdown has broadcast. */
  datatype State = State(
    workers: seq<WorkerPc>, terminate: seq<bool>, clients: seq<ClientPc>, owner: Owner,
    waiting: seq<Job>, listed: bool,
    added: seq<Job>, finished: seq<Job>, dropped: seq<Job>, broadcast: bool)

  datatype Step =
    | Work(w: nat)                  // the next action of worker w
    | Spurious(w: nat)              // a wake-up nobody asked for
    | Act(c: nat, wake: nat)        // the next action of client c; a signal wakes worker `wake`
    | CallAdd(c: nat, job: Job)
    | CallShutdown(c: nat)

  predicate Enabled(s: State, step: Step)
    requires |s.terminate| == |s.workers|
  {
    match step
    case Work(w) =>
      w < |s.workers| && (match s.workers[w]
        case AtLock => s.owner == Free
        case Woken => s.owner == Free
        case Asleep => false
        case Exited => false
        case _ => true)
    case Spurious(w) => w < |s.workers| && s.workers[w] == Asleep
    case Act(c, wake) =>
      c < |s.clients| && (match s.clients[c]
        case Idle => false
        case AddLock(_) => s.owner == Free
        case ShutLock => s.owner == Free
        case AddSignal => Asleep in s.workers ==> wake < |s.workers| && s.workers[wake] == Asleep
        case ShutMark(left) => left <= |s.workers|
        case _ => true)
    case CallAdd(c, _) => c < |s.clients| && s.clients[c] == Idle
    case CallShutdown(c) => c < |s.clients| && s.clients[c] == Idle
  }

  /** `release` tells whether leaving through the terminate break unlocks the mutex. The code does not. */
  function Next(release: bool, s: State, step: Step): State
    requires |s.terminate| == |s.workers| && Enabled(s, step)
  {
    match step
    case Work(w) => WorkerNext(release, s, w)
    case Spurious(w) => s.(workers := s.workers[w := Woken])
    case Act(c, wake) => ClientNext(s, c, wake)
    case CallAdd(c, job) => s.(clients := s.clients[c := AddLock(job)])
    case CallShutdown(c) => s.(clients := s.clients[c := ShutMark(if s.listed then |s.workers| else 0)])
  }

  function WorkerNext(release: bool, s: State, w: nat): State
    requires |s.terminate| == |s.workers| && Enabled(s, Work(w))
  {
    match s.workers[w]
    case AtLock => s.(workers := s.workers[w := AtCheck], owner := Worker(w))
    case Woken => s.(workers := s.workers[w := AtCheck], owner := Worker(w))
    case AtCheck => s.(workers := s.workers[w := if s.waiting == [] then AtEmptyCheck else AtTerminate])
    case AtEmptyCheck => s.(workers := s.workers[w := if s.terminate[w] then AtTerminate else AtWait])
    case AtWait => s.(workers := s.workers[w := Asleep], owner := Free)
    case AtTerminate =>
      if !s.terminate[w] then s.(workers := s.workers[w := AtTake])
      else s.(workers := s.workers[w := Exited], owner := if release then Free else s.owner)
    case AtTake =>
      if s.waiting == [] then s.(workers := s.workers[w := AtUnlock(None)])
      else s.(workers := s.workers[w := AtUnlock(Some(s.waiting[0]))], waiting := s.waiting[1..])
    case AtUnlock(taken) =>
      s.(workers := s.workers[w := if taken.None? then AtLock else Running(taken.value)], owner := Free)
    case Running(job) => s.(workers := s.workers[w := AtLock], finished := [job] + s.finished)
    case _ => s
  }

  function ClientNext(s: State, c: nat, wake: nat): State
    requires |s.terminate| == |s.workers| && Enabled(s, Act(c, wake))
  {
    match s.clients[c]
    case AddLock(job) => s.(clients := s.clients[c := AddPush(job)], owner := Client(c))
    case AddPush(job) =>
      s.(clients := s.clients[c := AddSignal], waiting := [job] + s.waiting, added := [job] + s.added)
    case AddSignal =>
      s.(clients := s.clients[c := AddUnlock],
         workers := if Asleep in s.workers then s.workers[wake := Woken] else s.workers)
    case AddUnlock => s.(clients := s.clients[c := Idle], owner := Free)
    case ShutMark(left) =>
      if left == 0 then s.(clients := s.clients[c := ShutLock])
      else s.(clients := s.clients[c := ShutMark(left - 1)], terminate := s.terminate[left - 1 := true])
    case ShutLock => s.(clients := s.clients[c := ShutClear], owner := Client(c))
    case ShutClear =>
      s.(clients := s.clients[c := ShutBroadcast], listed := false,
         waiting := [], dropped := s.waiting + s.dropped)
    case ShutBroadcast =>
      s.(clients := s.clients[c := ShutUnlock], workers := WakeAll(s.workers), broadcast := true)
    case ShutUnlock => s.(clients := s.clients[c := Idle], owner := Free)
    case _ => s
  }

  function WakeAll(ws: seq<WorkerPc>): (r: seq<WorkerPc>)
    ensures |r| == |ws|
    ensures forall i :: 0 <= i < |ws| ==> r[i] == if ws[i] == Asleep then Woken else ws[i]
  {
    seq(|ws|, i requires 0 <= i < |ws| => if ws[i] == Asleep then Woken else ws[i])
  }

  /** workqueue_init with at least one worker, and some clients. */
  predicate Init(s: State) {
    && |s.workers| >= 1 && (forall w :: 0 <= w < |s.workers| ==> s.workers[w] == AtLock)
    && |s.terminate| == |s.workers| && (forall w :: 0 <= w < |s.workers| ==> !s.terminate[w])
    && (forall c :: 0 <= c < |s.clients| ==> s.clients[c] == Idle)
    && s.owner == Free && s.waiting == [] && s.listed && !s.broadcast
    && s.added == s.finished == s.dropped == []
  }

  // ---------- The invariant ----------

  predicate WorkerHolds(release: bool, pc: WorkerPc) {
    match pc
    case AtLock => false
    case Asleep => false
    case Woken => false
    case Running(_) => false
    case Exited => !release
    case _ => true
  }

  predicate ClientHolds(pc: ClientPc) {
    pc.AddPush? || pc.AddSignal? || pc.AddUnlock? || pc.ShutClear? || pc.ShutBroadcast? || pc.ShutUnlock?
  }

  /** Mutual exclusion: the mutex is owned by exactly the thread whose position says so. */
  ghost predicate Exclusive(release: bool, s: State) {
    && |s.terminate| == |s.workers|
    && (forall w :: 0 <= w < |s.workers| ==> (WorkerHolds(release, s.workers[w]) <==> s.owner == Worker(w)))
    && (forall c :: 0 <= c < |s.clients| ==> (ClientHolds(s.clients[c]) <==> s.owner == Client(c)))
    && (s.owner.Worker? ==> s.owner.w < |s.workers|)
    && (s.owner.Client? ==> s.owner.c < |s.clients|)
  }

  /** What a worker holding the mutex knows about the list. */
  predicate Knows(pc: WorkerPc, terminate: bool, waiting: seq<Job>) {
    match pc
    case AtEmptyCheck => waiting == []
    case AtWait => waiting == []
    case AtTerminate => waiting != [] || terminate
    case AtTake => waiting != []
    case AtUnlock(taken) => taken.Some?
    case Exited => terminate
    case _ => true
  }

  ghost predicate Informed(s: State)
    requires |s.terminate| == |s.workers|
  {
    forall w :: 0 <= w < |s.workers| ==> Knows(s.workers[w], s.terminate[w], s.waiting)
  }

  /** All flags from `left` up are set. */
  ghost predicate MarkedFrom(s: State, left: nat) {
    forall w :: left <= w < |s.terminate| ==> s.terminate[w]
  }

  predicate PastMarking(pc: ClientPc) {
    pc.ShutLock? || pc.ShutClear? || pc.ShutBroadcast? || pc.ShutUnlock?
  }

  ghost predicate Marked(s: State) {
    && (!s.listed ==> MarkedFrom(s, 0))
    && (forall c :: 0 <= c < |s.clients| && PastMarking(s.clients[c]) ==> MarkedFrom(s, 0))
    && (forall c :: 0 <= c < |s.clients| && (s.clients[c].ShutBroadcast? || s.clients[c].ShutUnlock?) ==> !s.listed)
    && (forall c :: 0 <= c < |s.clients| && s.clients[c].ShutMark? ==>
          s.clients[c].left <= |s.workers| && (s.listed ==> MarkedFrom(s, s.clients[c].left)))
  }

  /** After the broadcast nobody sleeps, is about to sleep, or is taking a job. */
  ghost predicate WindingDown(s: State) {
    forall w :: 0 <= w < |s.workers| ==>
      s.workers[w] != Asleep && s.workers[w] != AtWait && s.workers[w] != AtTake && !s.workers[w].AtUnlock?
  }

  /** Properties of a worker's position that are counted over all workers. */
  datatype Kind = Heading | Holding(job: Job)

  predicate Is(kind: Kind, pc: WorkerPc) {
    match kind
    // awake, and going to look at the list before it can sleep
    case Heading => pc.AtLock? || pc.Woken? || pc.AtCheck? || pc.AtTerminate? || pc.AtTake?
    // has taken the job and not finished it
    case Holding(job) => pc == AtUnlock(Some(job)) || pc == Running(job)
  }

  function One(kind: Kind, pc: WorkerPc): nat {
    if Is(kind, pc) then 1 else 0
  }

  function Count(kind: Kind, ws: seq<WorkerPc>): nat {
    if ws == [] then 0 else One(kind, ws[0]) + Count(kind, ws[1..])
  }

  /** Every addition of a job is accounted for in exactly one place. */
  ghost predicate Conserved(s: State) {
    forall j: Job :: Times(s.added, j) ==
      Times(s.waiting, j) + Count(Holding(j), s.workers) + Times(s.finished, j) + Times(s.dropped, j)
  }

  function Times(jobs: seq<Job>, j: Job): nat {
    if jobs == [] then 0 else (if jobs[0] == j then 1 else 0) + Times(jobs[1..], j)
  }

  /** A client that has pushed a job and not yet signalled. */
  function Unsignalled(s: State): nat {
    if s.owner.Client? && s.owner.c < |s.clients| && s.clients[s.owner.c].AddSignal? then 1 else 0
  }

  /** No lost wake-up. */
  ghost predicate NoneLost(s: State) {
    Asleep in s.workers && Exited !in s.workers ==> |s.waiting| <= Count(Heading, s.workers) + Unsignalled(s)
  }

  ghost predicate Inv(release: bool, s: State) {
    && Exclusive(release, s)
    && Informed(s)
    && Marked(s)
    && (s.broadcast ==> MarkedFrom(s, 0) && WindingDown(s) && !s.listed)
    && Conserved(s)
    && NoneLost(s)
  }

  // ---------- Counting over the workers ----------

  lemma {:induction false} CountUpdate(kind: Kind, ws: seq<WorkerPc>, w: nat, pc: WorkerPc)
    requires w < |ws|
    ensures Count(kind, ws[w := pc]) + One(kind, ws[w]) == Count(kind, ws) + One(kind, pc)
  {
    hide One;
    if w == 0 {
      assert ws[w := pc][1..] == ws[1..];
    } else {
      CountUpdate(kind, ws[1..], w - 1, pc);
      assert ws[w := pc][1..] == ws[1..][w - 1 := pc];
    }
  }

  lemma {:induction false} HoldingWakeAll(j: Job, ws: seq<WorkerPc>)
    ensures Count(Holding(j), WakeAll(ws)) == Count(Holding(j), ws)
  {
    if ws != [] {
      HoldingWakeAll(j, ws[1..]);
      assert WakeAll(ws)[1..] == WakeAll(ws[1..]);
    }
  }

  lemma {:induction false} HoldingNothing(j: Job, ws: seq<WorkerPc>)
    requires forall w :: 0 <= w < |ws| ==> ws[w] == AtLock
    ensures Count(Holding(j), ws) == 0
  {
    if ws != [] {
      HoldingNothing(j, ws[1..]);
    }
  }

  // ---------- Every step keeps the invariant ----------

  lemma InitInv(release: bool, s: State)
    requires Init(s)
    ensures Inv(release, s)
  {
    forall j: Job ensures Count(Holding(j), s.workers) == 0 {
      HoldingNothing(j, s.workers);
    }
  }

  /** One worker moves: taking the free mutex, giving it up, or neither. */
  lemma ExclusiveMove(release: bool, s: State, t: State, w: nat)
    requires Exclusive(release, s) && w < |s.workers| == |t.terminate| == |t.workers|
    requires t.workers == s.workers[w := t.workers[w]] && t.clients == s.clients
    requires var before, after := WorkerHolds(release, s.workers[w]), WorkerHolds(release, t.workers[w]);
      || (t.owner == s.owner && before == after)
      || (s.owner == Free && t.owner == Worker(w) && after)
      || (s.owner == Worker(w) && t.owner == Free && !after)
    ensures Exclusive(release, t)
  {
    hide WorkerHolds;
  }

  /** What one action of worker w can change. */
  lemma WorkFrame(release: bool, s: State, w: nat)
    requires |s.terminate| == |s.workers| && Enabled(s, Work(w))
    ensures var t := WorkerNext(release, s, w);
      && |t.workers| == |s.workers| && t.workers == s.workers[w := t.workers[w]]
      && t == s.(workers := t.workers, owner := t.owner, waiting := t.waiting, finished := t.finished)
    ensures var t := WorkerNext(release, s, w);
      var before, after := WorkerHolds(release, s.workers[w]), WorkerHolds(release, t.workers[w]);
      t.owner == (if before == after then s.owner else if after then Worker(w) else Free)
      && (!before && after ==> s.owner == Free)
    ensures var t := WorkerNext(release, s, w);
      t.waiting == (if s.workers[w] == AtTake && s.waiting != [] then s.waiting[1..] else s.waiting)
  {
  }

  lemma WorkExclusive(release: bool, s: State, w: nat)
    requires Exclusive(release, s) && Enabled(s, Work(w))
    ensures Exclusive(release, WorkerNext(release, s, w))
  {
    hide WorkerNext, WorkerHolds;
    WorkFrame(release, s, w);
    ExclusiveMove(release, s, WorkerNext(release, s, w), w);
  }

  lemma WorkInformed(release: bool, s: State, w: nat)
    requires Exclusive(release, s) && Informed(s) && Enabled(s, Work(w))
    ensures Informed(WorkerNext(release, s, w))
  {
  }

  lemma WorkMarked(release: bool, s: State, w: nat)
    requires |s.terminate| == |s.workers| && Marked(s) && Enabled(s, Work(w))
    requires s.broadcast ==> MarkedFrom(s, 0) && WindingDown(s) && !s.listed
    ensures var t := WorkerNext(release, s, w);
      Marked(t) && (t.broadcast ==> MarkedFrom(t, 0) && WindingDown(t) && !t.listed)
  {
    WorkFrame(release, s, w);
    assert s.broadcast ==> s.terminate[w] && WorkerNext(release, s, w).workers[w] != AtWait;
  }

  /** One action moves a job from place to place and creates or loses none. */
  lemma WorkJob(release: bool, s: State, w: nat, j: Job)
    requires |s.terminate| == |s.workers| && Enabled(s, Work(w)) && Knows(s.workers[w], s.terminate[w], s.waiting)
    ensures var t := WorkerNext(release, s, w);
      Times(t.waiting, j) + One(Holding(j), t.workers[w]) + Times(t.finished, j) ==
      Times(s.waiting, j) + One(Holding(j), s.workers[w]) + Times(s.finished, j)
  {
  }

  lemma WorkConserved(release: bool, s: State, w: nat)
    requires |s.terminate| == |s.workers| && Informed(s) && Conserved(s) && Enabled(s, Work(w))
    ensures Conserved(WorkerNext(release, s, w))
  {
    hide WorkerNext, One;
    var t := WorkerNext(release, s, w);
    WorkFrame(release, s, w);
    forall j: Job
      ensures Times(t.added, j) ==
              Times(t.waiting, j) + Count(Holding(j), t.workers) + Times(t.finished, j) + Times(t.dropped, j)
    {
      CountUpdate(Holding(j), s.workers, w, t.workers[w]);
      WorkJob(release, s, w, j);
    }
  }

  /** One action never loses a worker that was heading for the list without taking a job, unless the
      list is empty or the worker leaves; and a worker falls asleep only on an empty list. */
  lemma WorkHeading(release: bool, s: State, w: nat)
    requires |s.terminate| == |s.workers| && Enabled(s, Work(w)) && Knows(s.workers[w], s.terminate[w], s.waiting)
    ensures var t := WorkerNext(release, s, w);
      && s.workers[w] != Asleep && s.workers[w] != Exited
      && (t.workers[w] == Asleep ==> t.waiting == [])
      && (t.waiting == [] || t.workers[w] == Exited ||
          |t.waiting| + One(Heading, s.workers[w]) <= |s.waiting| + One(Heading, t.workers[w]))
  {
  }

  lemma WorkNoneLost(release: bool, s: State, w: nat)
    requires Exclusive(release, s) && Informed(s) && NoneLost(s) && Enabled(s, Work(w))
    ensures NoneLost(WorkerNext(release, s, w))
  {
    hide WorkerNext, One;
    WorkFrame(release, s, w);
    WorkHeading(release, s, w);
    var t := WorkerNext(release, s, w);
    CountUpdate(Heading, s.workers, w, t.workers[w]);
    if Asleep in t.workers && Exited !in t.workers && t.waiting != [] {
      forall v | 0 <= v < |s.workers| ensures s.workers[v] != Exited {
        assert v != w ==> t.workers[v] == s.workers[v];
      }
      var v :| 0 <= v < |t.workers| && t.workers[v] == Asleep;
      assert v != w && s.workers[v] == Asleep;
      assert Unsignalled(t) == Unsignalled(s);
    }
  }

  /** What one action of client c can change. */
  lemma ActFrame(s: State, c: nat, wake: nat)
    requires |s.terminate| == |s.workers| && Enabled(s, Act(c, wake))
    ensures var t := ClientNext(s, c, wake);
      var before, after := ClientHolds(s.clients[c]), ClientHolds(t.clients[c]);
      && |t.clients| == |s.clients| && t.clients == s.clients[c := t.clients[c]]
      && |t.workers| == |s.workers| == |t.terminate|
      && (forall w :: 0 <= w < |s.workers| ==>
            t.workers[w] == s.workers[w] || (s.workers[w] == Asleep && t.workers[w] == Woken))
      && t.owner == (if before == after then s.owner else if after then Client(c) else Free)
      && (!before && after ==> s.owner == Free)
      && t.finished == s.finished
      && (forall w :: 0 <= w < |s.workers| && s.terminate[w] ==> t.terminate[w])
    ensures var t := ClientNext(s, c, wake);
      && (t.waiting == s.waiting || (ClientHolds(s.clients[c]) && (t.waiting == [] || |t.waiting| == |s.waiting| + 1)))
  {
  }

  lemma ActExclusive(release: bool, s: State, c: nat, wake: nat)
    requires Exclusive(release, s) && Enabled(s, Act(c, wake))
    ensures Exclusive(release, ClientNext(s, c, wake))
  {
    hide ClientNext, ClientHolds;
    ActFrame(s, c, wake);
  }

  lemma ActInformed(release: bool, s: State, c: nat, wake: nat)
    requires Exclusive(release, s) && Informed(s) && Enabled(s, Act(c, wake))
    ensures Informed(ClientNext(s, c, wake))
  {
    hide ClientNext, ClientHolds;
    ActFrame(s, c, wake);
    var t := ClientNext(s, c, wake);
    forall w | 0 <= w < |t.workers| ensures Knows(t.workers[w], t.terminate[w], t.waiting) {
      assert Knows(s.workers[w], s.terminate[w], s.waiting);
      if t.waiting != s.waiting {
        assert s.owner == Client(c) && !WorkerHolds(release, s.workers[w]);
      }
    }
  }

  lemma ActMarked(s: State, c: nat, wake: nat)
    requires |s.terminate| == |s.workers| && Marked(s) && Enabled(s, Act(c, wake))
    ensures Marked(ClientNext(s, c, wake))
  {
    ActFrame(s, c, wake);
    var t := ClientNext(s, c, wake);
    forall d | 0 <= d < |t.clients| && PastMarking(t.clients[d]) ensures MarkedFrom(t, 0) {
      assert d != c ==> PastMarking(s.clients[d]);
    }
    forall d | 0 <= d < |t.clients| && t.clients[d].ShutMark?
      ensures t.clients[d].left <= |t.workers| && (t.listed ==> MarkedFrom(t, t.clients[d].left))
    {
      assert s.clients[d].ShutMark?;
    }
  }

  lemma ActBroadcast(release: bool, s: State, c: nat, wake: nat)
    requires Exclusive(release, s) && Marked(s) && Enabled(s, Act(c, wake))
    requires s.broadcast ==> MarkedFrom(s, 0) && WindingDown(s) && !s.listed
    ensures var t := ClientNext(s, c, wake);
      t.broadcast ==> MarkedFrom(t, 0) && WindingDown(t) && !t.listed
  {
    ActFrame(s, c, wake);
    if s.clients[c] == ShutBroadcast {
      assert s.owner == Client(c);
      assert forall w :: 0 <= w < |s.workers| ==> !WorkerHolds(release, s.workers[w]);
    }
  }

  lemma ActConserved(s: State, c: nat, wake: nat)
    requires |s.terminate| == |s.workers| && Conserved(s) && Enabled(s, Act(c, wake))
    ensures Conserved(ClientNext(s, c, wake))
  {
    var t := ClientNext(s, c, wake);
    forall j: Job
      ensures Times(t.added, j) ==
              Times(t.waiting, j) + Count(Holding(j), t.workers) + Times(t.finished, j) + Times(t.dropped, j)
    {
      if s.clients[c] == ShutClear {
        TimesJoin(s.waiting, s.dropped, j);
      } else if s.clients[c] == ShutBroadcast {
        HoldingWakeAll(j, s.workers);
      } else if s.clients[c] == AddSignal && Asleep in s.workers {
        CountUpdate(Holding(j), s.workers, wake, Woken);
      }
    }
  }

  lemma {:induction false} TimesJoin(a: seq<Job>, b: seq<Job>, j: Job)
    ensures Times(a + b, j) == Times(a, j) + Times(b, j)
  {
    if a == [] {
      assert a + b == b;
    } else {
      TimesJoin(a[1..], b, j);
      assert (a + b)[1..] == a[1..] + b;
    }
  }

  lemma ActNoneLost(release: bool, s: State, c: nat, wake: nat)
    requires Exclusive(release, s) && NoneLost(s) && Enabled(s, Act(c, wake))
    ensures NoneLost(ClientNext(s, c, wake))
  {
    ActFrame(s, c, wake);
    var t := ClientNext(s, c, wake);
    if Asleep in t.workers && Exited !in t.workers && t.waiting != [] {
      var v :| 0 <= v < |t.workers| && t.workers[v] == Asleep;
      assert s.workers[v] == Asleep;
      forall w | 0 <= w < |s.workers| ensures s.workers[w] != Exited {
        assert t.workers[w] != Exited;
      }
      assert ClientHolds(s.clients[c]) <==> s.owner == Client(c);
      if s.clients[c] == AddSignal {
        CountUpdate(Heading, s.workers, wake, Woken);
      }
    }
  }

  lemma WakeInv(release: bool, s: State, w: nat)
    requires Inv(release, s) && Enabled(s, Spurious(w))
    ensures Inv(release, Next(release, s, Spurious(w)))
  {
    hide WorkerNext, ClientNext, Count, One;
    var t := Next(release, s, Spurious(w));
    forall j: Job ensures Count(Holding(j), t.workers) == Count(Holding(j), s.workers) {
      WakeCount(Holding(j), s.workers, w);
    }
    WakeCount(Heading, s.workers, w);
    assert forall v :: 0 <= v < |s.workers| && v != w ==> t.workers[v] == s.workers[v];
  }

  lemma WakeCount(kind: Kind, ws: seq<WorkerPc>, w: nat)
    requires w < |ws| && ws[w] == Asleep
    ensures Count(kind, ws[w := Woken]) == Count(kind, ws) + if kind == Heading then 1 else 0
  {
    CountUpdate(kind, ws, w, Woken);
  }

  lemma CallInv(release: bool, s: State, step: Step)
    requires Inv(release, s) && Enabled(s, step) && (step.CallAdd? || step.CallShutdown?)
    ensures Inv(release, Next(release, s, step))
  {
    hide WorkerNext, ClientNext, Knows, WorkerHolds, Count;
  }

  lemma NextInv(release: bool, s: State, step: Step)
    requires Inv(release, s) && Enabled(s, step)
    ensures Inv(release, Next(release, s, step))
  {
    hide WorkerNext, ClientNext, Exclusive, Informed, Marked, Conserved, NoneLost, MarkedFrom, WindingDown;
    InvSizes(release, s);
    match step {
      case Work(w) =>
        WorkExclusive(release, s, w);
        WorkInformed(release, s, w);
        WorkMarked(release, s, w);
        WorkConserved(release, s, w);
        WorkNoneLost(release, s, w);
      case Act(c, wake) =>
        ActExclusive(release, s, c, wake);
        ActInformed(release, s, c, wake);
        ActMarked(s, c, wake);
        ActBroadcast(release, s, c, wake);
        ActConserved(s, c, wake);
        ActNoneLost(release, s, c, wake);
      case Spurious(w) => WakeInv(release, s, w);
      case _ => CallInv(release, s, step);
    }
  }

  lemma InvSizes(release: bool, s: State)
    requires Inv(release, s)
    ensures |s.terminate| == |s.workers|
  {
  }

  // ---------- Every run ----------

  /** `steps`, one after the other, lead from s to t. */
  ghost predicate Run(release: bool, s: State, steps: seq<Step>, t: State)
    decreases |steps|
  {
    if steps == [] then s == t
    else |s.terminate| == |s.workers| && Enabled(s, steps[0]) && Run(release, Next(release, s, steps[0]), steps[1..], t)
  }

  lemma {:induction false} RunInv(release: bool, s: State, steps: seq<Step>, t: State)
    requires Inv(release, s) && Run(release, s, steps, t)
    ensures Inv(release, t)
    decreases |steps|
  {
    hide Inv, Next, Enabled;
    if steps != [] {
      NextInv(release, s, steps[0]);
      RunInv(release, Next(release, s, steps[0]), steps[1..], t);
    }
  }

  /** How often a job is given to workqueue_add_job in a run. */
  function CallsFor(steps: seq<Step>, j: Job): nat {
    if steps == [] then 0 else (if steps[0].CallAdd? && steps[0].job == j then 1 else 0) + CallsFor(steps[1..], j)
  }

  /** How many clients are adding the job and have not yet put it on the list. */
  function Adding(cs: seq<ClientPc>, j: Job): nat {
    if cs == [] then 0 else (if cs[0] == AddLock(j) || cs[0] == AddPush(j) then 1 else 0) + Adding(cs[1..], j)
  }

  /** How often a worker is executing the job when it makes its next action: the times it is run to its end. */
  ghost function Executions(release: bool, s: State, steps: seq<Step>, j: Job): nat
    decreases |steps|
  {
    if steps == [] || |s.terminate| != |s.workers| || !Enabled(s, steps[0]) then 0
    else
      (if steps[0].Work? && s.workers[steps[0].w] == Running(j) then 1 else 0) +
      Executions(release, Next(release, s, steps[0]), steps[1..], j)
  }

  /** How often the job is waiting when a shutdown clears the list. */
  ghost function Cleared(release: bool, s: State, steps: seq<Step>, j: Job): nat
    decreases |steps|
  {
    if steps == [] || |s.terminate| != |s.workers| || !Enabled(s, steps[0]) then 0
    else
      (if steps[0].Act? && s.clients[steps[0].c] == ShutClear then Times(s.waiting, j) else 0) +
      Cleared(release, Next(release, s, steps[0]), steps[1..], j)
  }

  lemma {:induction false} AddingUpdate(cs: seq<ClientPc>, c: nat, pc: ClientPc, j: Job)
    requires c < |cs|
    ensures Adding(cs[c := pc], j) + Adding([cs[c]], j) == Adding(cs, j) + Adding([pc], j)
  {
    if c == 0 {
      assert cs[c := pc][1..] == cs[1..];
    } else {
      AddingUpdate(cs[1..], c - 1, pc, j);
      assert cs[c := pc][1..] == cs[1..][c - 1 := pc];
    }
  }

  lemma ActAdded(s: State, c: nat, wake: nat, j: Job)
    requires |s.terminate| == |s.workers| && Enabled(s, Act(c, wake))
    ensures var t := ClientNext(s, c, wake);
      && |t.clients| == |s.clients| && t.clients == s.clients[c := t.clients[c]]
      && Times(t.added, j) + Adding([t.clients[c]], j) == Times(s.added, j) + Adding([s.clients[c]], j)
  {
  }

  lemma AddedStep(release: bool, s: State, step: Step, j: Job)
    requires |s.terminate| == |s.workers| && Enabled(s, step)
    ensures var t := Next(release, s, step);
      Times(t.added, j) + Adding(t.clients, j) == Times(s.added, j) + Adding(s.clients, j) + CallsFor([step], j)
  {
    hide WorkerNext, ClientNext;
    var t := Next(release, s, step);
    match step {
      case Work(w) => WorkFrame(release, s, w);
      case Act(c, wake) =>
        ActAdded(s, c, wake, j);
        AddingUpdate(s.clients, c, t.clients[c], j);
      case CallAdd(c, _) => AddingUpdate(s.clients, c, t.clients[c], j);
      case CallShutdown(c) => AddingUpdate(s.clients, c, t.clients[c], j);
      case Spurious(_) =>
    }
  }

  lemma {:induction false} AddedByCalls(release: bool, s: State, steps: seq<Step>, t: State, j: Job)
    requires Run(release, s, steps, t)
    ensures Times(t.added, j) + Adding(t.clients, j) == Times(s.added, j) + Adding(s.clients, j) + CallsFor(steps, j)
    decreases |steps|
  {
    hide Next, Enabled, Times, Adding;
    if steps != [] {
      AddedStep(release, s, steps[0], j);
      assert [steps[0]][1..] == [];
      AddedByCalls(release, Next(release, s, steps[0]), steps[1..], t, j);
    }
  }

  lemma DoneStep(release: bool, s: State, step: Step, j: Job)
    requires |s.terminate| == |s.workers| && Enabled(s, step)
    ensures var t := Next(release, s, step);
      && Times(t.finished, j) == Times(s.finished, j) + (if step.Work? && s.workers[step.w] == Running(j) then 1 else 0)
      && Times(t.dropped, j) == Times(s.dropped, j) +
           (if step.Act? && s.clients[step.c] == ShutClear then Times(s.waiting, j) else 0)
  {
    TimesJoin(s.waiting, s.dropped, j);
  }

  lemma {:induction false} DoneInRun(release: bool, s: State, steps: seq<Step>, t: State, j: Job)
    requires Run(release, s, steps, t)
    ensures Times(t.finished, j) == Times(s.finished, j) + Executions(release, s, steps, j)
    ensures Times(t.dropped, j) == Times(s.dropped, j) + Cleared(release, s, steps, j)
    decreases |steps|
  {
    hide Next, Enabled, Times;
    if steps != [] {
      DoneStep(release, s, steps[0], j);
      DoneInRun(release, Next(release, s, steps[0]), steps[1..], t, j);
    }
  }

  lemma {:induction false} NobodyAdding(cs: seq<ClientPc>, j: Job)
    requires forall c :: 0 <= c < |cs| ==> cs[c] == Idle
    ensures Adding(cs, j) == 0
  {
    if cs != [] {
      NobodyAdding(cs[1..], j);
    }
  }

  /** No job is run twice and none vanishes: in every reachable state a job has been given to
      workqueue_add_job as often as it is being added, is waiting, is held by a worker, has been executed, or
      was waiting when a shutdown cleared the list, taken together. */
  lemma JobsConserved(release: bool, s: State, steps: seq<Step>, t: State, j: Job)
    requires Init(s) && Run(release, s, steps, t)
    ensures CallsFor(steps, j) ==
            Adding(t.clients, j) + Times(t.waiting, j) + Count(Holding(j), t.workers)
            + Executions(release, s, steps, j) + Cleared(release, s, steps, j)
  {
    hide Next, Enabled, Run;
    InitInv(release, s);
    RunInv(release, s, steps, t);
    AddedByCalls(release, s, steps, t, j);
    DoneInRun(release, s, steps, t, j);
    NobodyAdding(s.clients, j);
  }

  // ---------- Last in, first out ----------

  /** A run in which at least n jobs are waiting all the time. */
  ghost predicate Keeps(release: bool, s: State, steps: seq<Step>, t: State, n: nat)
    decreases |steps|
  {
    && |s.waiting| >= n
    && if steps == [] then s == t
       else |s.terminate| == |s.workers| && Enabled(s, steps[0])
            && Keeps(release, Next(release, s, steps[0]), steps[1..], t, n)
  }

  /** The n jobs that have waited longest, in their order on the list. */
  function Oldest(waiting: seq<Job>, n: nat): seq<Job>
    requires n <= |waiting|
  {
    waiting[|waiting| - n..]
  }

  lemma OldestStep(release: bool, s: State, step: Step, n: nat)
    requires |s.terminate| == |s.workers| && Enabled(s, step)
    requires n <= |s.waiting| && n <= |Next(release, s, step).waiting|
    ensures Oldest(Next(release, s, step).waiting, n) == Oldest(s.waiting, n)
  {
    hide WorkerNext;
    match step {
      case Work(w) => WorkFrame(release, s, w);
      case _ =>
    }
  }

  lemma {:induction false} OldestStay(release: bool, s: State, steps: seq<Step>, t: State, n: nat)
    requires Keeps(release, s, steps, t, n)
    ensures n <= |s.waiting| && n <= |t.waiting| && Oldest(t.waiting, n) == Oldest(s.waiting, n)
    decreases |steps|
  {
    hide Next, Enabled, Oldest;
    if steps != [] {
      OldestStay(release, Next(release, s, steps[0]), steps[1..], t, n);
      OldestStep(release, s, steps[0], n);
    }
  }

  /** Adding a job makes it wait; and whatever is added and taken in the meantime, when a worker takes a job
      and is the first to come down to it, it takes this one, and leaves the list as it was before. */
  lemma LastInFirstOut(release: bool, m: State, c: nat, wake: nat, steps: seq<Step>, t: State, w: nat)
    requires |m.terminate| == |m.workers| && Enabled(m, Act(c, wake)) && m.clients[c].AddPush?
    requires Keeps(release, Next(release, m, Act(c, wake)), steps, t, |m.waiting| + 1)
    requires |t.waiting| == |m.waiting| + 1
    requires |t.terminate| == |t.workers| && Enabled(t, Work(w)) && t.workers[w] == AtTake
    ensures var u := Next(release, t, Work(w));
      u.workers[w] == AtUnlock(Some(m.clients[c].job)) && u.waiting == m.waiting
  {
    var m1, n := Next(release, m, Act(c, wake)), |m.waiting| + 1;
    OldestStay(release, m1, steps, t, n);
    assert Oldest(m1.waiting, n) == m1.waiting && Oldest(t.waiting, n) == t.waiting;
    assert m1.waiting[1..] == m.waiting;
  }

  ghost predicate Emptied(s: State) {
    forall c :: 0 <= c < |s.clients| && (s.clients[c] == ShutBroadcast || s.clients[c] == ShutUnlock) ==>
      s.waiting == []
  }

  lemma ActEmptied(s: State, c: nat, wake: nat)
    requires |s.terminate| == |s.workers| && Enabled(s, Act(c, wake)) && Emptied(s)
    ensures var t := ClientNext(s, c, wake);
      t.clients[c] == ShutBroadcast || t.clients[c] == ShutUnlock ==> t.waiting == []
  {
  }

  lemma EmptiedStep(release: bool, s: State, step: Step)
    requires Exclusive(release, s) && Enabled(s, step) && Emptied(s)
    ensures Emptied(Next(release, s, step))
  {
    hide WorkerNext, ClientNext;
    var t := Next(release, s, step);
    match step {
      case Work(w) => WorkFrame(release, s, w);
      case Act(c, wake) =>
        ActFrame(s, c, wake);
        ActEmptied(s, c, wake);
        forall d | 0 <= d < |t.clients| && d != c && (t.clients[d] == ShutBroadcast || t.clients[d] == ShutUnlock)
          ensures t.waiting == []
        {
          assert ClientHolds(s.clients[d]) && s.owner == Client(d) && !ClientHolds(s.clients[c]);
        }
      case _ =>
    }
  }

  lemma {:induction false} RunEmptied(release: bool, s: State, steps: seq<Step>, t: State)
    requires Inv(release, s) && Run(release, s, steps, t) && Emptied(s)
    ensures Emptied(t)
    decreases |steps|
  {
    hide Next, Enabled, Emptied, Inv;
    if steps != [] {
      InvParts(release, s);
      NextInv(release, s, steps[0]);
      EmptiedStep(release, s, steps[0]);
      RunEmptied(release, Next(release, s, steps[0]), steps[1..], t);
    }
  }

  /** A shutdown leaves no job waiting: from clearing the list until it gives up the mutex the list is empty. */
  lemma EmptiedByShutdown(release: bool, s: State, steps: seq<Step>, t: State, c: nat)
    requires Init(s) && Run(release, s, steps, t)
    requires c < |t.clients| && (t.clients[c] == ShutBroadcast || t.clients[c] == ShutUnlock)
    ensures t.waiting == []
  {
    hide Next, Enabled, Inv, Run;
    InitInv(release, s);
    RunEmptied(release, s, steps, t);
  }

  /** Jobs are dropped only by a shutdown. */
  lemma {:induction false} DroppedByShutdown(release: bool, s: State, steps: seq<Step>, t: State)
    requires Run(release, s, steps, t) && (s.listed ==> s.dropped == [])
    ensures t.listed ==> t.dropped == []
    decreases |steps|
  {
    if steps != [] {
      var m := Next(release, s, steps[0]);
      assert m.listed ==> m.dropped == [];
      hide Next, Enabled;
      DroppedByShutdown(release, m, steps[1..], t);
    }
  }

  /** No lost wake-up: in every reachable state in which no worker has left (before any shutdown, at
      least), while a worker sleeps there are at most as many waiting jobs as workers awake and heading
      for the list, one more while a client is between adding a job and signalling. */
  lemma NoLostWakeup(release: bool, s: State, steps: seq<Step>, t: State)
    requires Init(s) && Run(release, s, steps, t)
    requires Asleep in t.workers
    requires Exited !in t.workers || true !in t.terminate
    ensures |t.waiting| <= Count(Heading, t.workers) + Unsignalled(t)
  {
    hide Next, Enabled;
    InitInv(release, s);
    RunInv(release, s, steps, t);
    if Exited in t.workers {
      var w :| 0 <= w < |t.workers| && t.workers[w] == Exited;
      assert Knows(t.workers[w], t.terminate[w], t.waiting);
    }
  }

  lemma {:induction false} Counted(kind: Kind, ws: seq<WorkerPc>) returns (w: nat)
    requires Count(kind, ws) > 0
    ensures w < |ws| && Is(kind, ws[w])
  {
    if Is(kind, ws[0]) {
      w := 0;
    } else {
      w := Counted(kind, ws[1..]);
      w := w + 1;
    }
  }

  /** No job is stranded: before any worker has left, a waiting job always has an awake worker on its way
      to the list or a client about to wake one, unless no worker sleeps at all (all are busy). */
  lemma NoJobStranded(release: bool, s: State, steps: seq<Step>, t: State)
    requires Init(s) && Run(release, s, steps, t)
    requires t.waiting != [] && Exited !in t.workers
    ensures || Asleep !in t.workers
            || (exists w :: 0 <= w < |t.workers| && Is(Heading, t.workers[w]))
            || (exists c :: 0 <= c < |t.clients| && t.clients[c] == AddSignal)
  {
    hide Next, Enabled, Is;
    if Asleep in t.workers {
      NoLostWakeup(release, s, steps, t);
      if Count(Heading, t.workers) > 0 {
        var w := Counted(Heading, t.workers);
      } else {
        assert t.clients[t.owner.c] == AddSignal;
      }
    }
  }

  /** No broadcast is missed: after a shutdown's broadcast, whatever the interleaving, every worker has
      been told to terminate, none sleeps or will sleep again, and none takes another job. */
  lemma NoMissedBroadcast(release: bool, s: State, steps: seq<Step>, t: State)
    requires Init(s) && Run(release, s, steps, t) && t.broadcast
    ensures MarkedFrom(t, 0) && WindingDown(t)
  {
    hide Next, Enabled;
    InitInv(release, s);
    RunInv(release, s, steps, t);
  }

  // ---------- The terminate break keeps the mutex ----------

  /** What one step leaves alone once worker w has left through the break. */
  ghost predicate Frozen(s: State, t: State, w: nat) {
    && Exclusive(false, t) && |t.workers| == |s.workers| && |t.clients| == |s.clients|
    && w < |t.workers| && t.workers[w] == Exited
    && t.waiting == s.waiting && t.added == s.added && t.dropped == s.dropped && t.broadcast == s.broadcast
    && (forall v :: 0 <= v < |s.workers| && t.workers[v].Running? ==> t.workers[v] == s.workers[v])
    && (forall c :: 0 <= c < |s.clients| && s.clients[c] == ShutLock ==> t.clients[c] == ShutLock)
  }

  lemma AfterExitWork(s: State, w: nat, v: nat)
    requires Exclusive(false, s) && w < |s.workers| && s.workers[w] == Exited && Enabled(s, Work(v))
    ensures Frozen(s, WorkerNext(false, s, v), w)
  {
    assert WorkerHolds(false, s.workers[w]) && s.owner == Worker(w);
    WorkExclusive(false, s, v);
    WorkFrame(false, s, v);
    assert v != w && !WorkerHolds(false, s.workers[v]);
  }

  lemma AfterExitAct(s: State, w: nat, c: nat, wake: nat)
    requires Exclusive(false, s) && w < |s.workers| && s.workers[w] == Exited && Enabled(s, Act(c, wake))
    ensures Frozen(s, ClientNext(s, c, wake), w)
  {
    assert WorkerHolds(false, s.workers[w]) && s.owner == Worker(w);
    ActExclusive(false, s, c, wake);
    ActFrame(s, c, wake);
    assert !ClientHolds(s.clients[c]);
  }

  lemma AfterExitStep(s: State, w: nat, step: Step)
    requires Exclusive(false, s) && w < |s.workers| && s.workers[w] == Exited && Enabled(s, step)
    ensures Frozen(s, Next(false, s, step), w)
  {
    hide WorkerNext, ClientNext;
    match step {
      case Work(v) => AfterExitWork(s, w, v);
      case Act(c, wake) => AfterExitAct(s, w, c, wake);
      case _ =>
    }
  }

  /** Once a worker has left through the break, the mutex is never free again: no other worker ever
      leaves, no job is added, taken, started or dropped, and a shutdown that has not yet locked the
      mutex never gets further. */
  lemma {:induction false} MutexLost(s: State, w: nat, steps: seq<Step>, t: State)
    requires Exclusive(false, s) && w < |s.workers| && s.workers[w] == Exited && Run(false, s, steps, t)
    ensures Exclusive(false, t) && |t.workers| == |s.workers| && |t.clients| == |s.clients|
    ensures t.owner == Worker(w) && forall v :: 0 <= v < |t.workers| && t.workers[v] == Exited ==> v == w
    ensures t.waiting == s.waiting && t.added == s.added && t.dropped == s.dropped && t.broadcast == s.broadcast
    ensures forall v :: 0 <= v < |s.workers| && t.workers[v].Running? ==> t.workers[v] == s.workers[v]
    ensures forall c :: 0 <= c < |s.clients| && s.clients[c] == ShutLock ==> t.clients[c] == ShutLock
    decreases |steps|
  {
    if steps == [] {
      assert WorkerHolds(false, s.workers[w]);
    } else {
      hide Next, Enabled;
      AfterExitStep(s, w, steps[0]);
      MutexLost(Next(false, s, steps[0]), w, steps[1..], t);
    }
  }

  /** So in every run of the code at most one worker ever exits. */
  lemma AtMostOneExits(s: State, steps: seq<Step>, t: State, v: nat, w: nat)
    requires Init(s) && Run(false, s, steps, t)
    requires v < |t.workers| && w < |t.workers| && t.workers[v] == Exited && t.workers[w] == Exited
    ensures v == w
  {
    hide Next, Enabled;
    InitInv(false, s);
    RunInv(false, s, steps, t);
    assert WorkerHolds(false, t.workers[v]) && WorkerHolds(false, t.workers[w]);
  }

  // ---------- Progress: every run is bounded ----------

  /** A worker or client acts on its own: no new call, no wake-up nobody asked for. */
  predicate IsOwn(step: Step) {
    step.Work? || step.Act?
  }

  /** No thread can act until somebody makes a new call or a sleeper wakes for no reason. */
  ghost predicate Halted(s: State) {
    |s.terminate| == |s.workers| && forall step: Step :: Enabled(s, step) ==> !IsOwn(step)
  }

  /** How many more actions a worker can take before it sleeps or leaves, jobs still waiting apart. */
  function WorkLeft(pc: WorkerPc): nat {
    match pc
    case Exited => 0
    case Asleep => 0
    case AtWait => 1
    case AtTake => 1
    case AtTerminate => 2
    case AtEmptyCheck => 3
    case AtCheck => 4
    case Running(_) => 6
    case AtUnlock(_) => 7
    case _ => 5
  }

  /** How many more actions a client's call can cause, with n workers to be told and woken. */
  function ActLeft(n: nat, pc: ClientPc): nat {
    match pc
    case Idle => 0
    case AddUnlock => 1
    case AddSignal => 7
    case AddPush(_) => 15
    case AddLock(_) => 16
    case ShutUnlock => 1
    case ShutBroadcast => 5 * n + 2
    case ShutClear => 5 * n + 3
    case ShutLock => 5 * n + 4
    case ShutMark(left) => 5 * n + 5 + left
  }

  function WorkTotal(ws: seq<WorkerPc>): nat {
    if ws == [] then 0 else WorkLeft(ws[0]) + WorkTotal(ws[1..])
  }

  function ActTotal(n: nat, cs: seq<ClientPc>): nat {
    if cs == [] then 0 else ActLeft(n, cs[0]) + ActTotal(n, cs[1..])
  }

  function Left(s: State): nat {
    WorkTotal(s.workers) + 7 * |s.waiting| + ActTotal(|s.workers|, s.clients)
  }

  /** What a step that is not a thread's own can add to that. */
  function Grant(n: nat, step: Step): nat {
    match step
    case Spurious(_) => 5
    case CallAdd(_, _) => 16
    case CallShutdown(_) => 6 * n + 5
    case _ => 0
  }

  /** The most actions a run with these outside steps can have, itself included. */
  function Granted(n: nat, steps: seq<Step>): nat {
    if steps == [] then 0
    else (if IsOwn(steps[0]) then 0 else Grant(n, steps[0]) + 1) + Granted(n, steps[1..])
  }

  lemma {:induction false} WorkTotalUpdate(ws: seq<WorkerPc>, w: nat, pc: WorkerPc)
    requires w < |ws|
    ensures WorkTotal(ws[w := pc]) + WorkLeft(ws[w]) == WorkTotal(ws) + WorkLeft(pc)
  {
    hide WorkLeft;
    if w == 0 {
      assert ws[w := pc][1..] == ws[1..];
    } else {
      WorkTotalUpdate(ws[1..], w - 1, pc);
      assert ws[w := pc][1..] == ws[1..][w - 1 := pc];
    }
  }

  lemma {:induction false} ActTotalUpdate(n: nat, cs: seq<ClientPc>, c: nat, pc: ClientPc)
    requires c < |cs|
    ensures ActTotal(n, cs[c := pc]) + ActLeft(n, cs[c]) == ActTotal(n, cs) + ActLeft(n, pc)
  {
    hide ActLeft;
    if c == 0 {
      assert cs[c := pc][1..] == cs[1..];
    } else {
      ActTotalUpdate(n, cs[1..], c - 1, pc);
      assert cs[c := pc][1..] == cs[1..][c - 1 := pc];
    }
  }

  lemma {:induction false} WakeAllTotal(ws: seq<WorkerPc>)
    ensures WorkTotal(WakeAll(ws)) <= WorkTotal(ws) + 5 * |ws|
  {
    if ws != [] {
      WakeAllTotal(ws[1..]);
      assert WakeAll(ws)[1..] == WakeAll(ws[1..]);
    }
  }

  lemma WorkLeftAlone(release: bool, s: State, w: nat)
    requires |s.terminate| == |s.workers| && Enabled(s, Work(w)) && Knows(s.workers[w], s.terminate[w], s.waiting)
    ensures var t := WorkerNext(release, s, w);
      7 * |t.waiting| + WorkLeft(t.workers[w]) < 7 * |s.waiting| + WorkLeft(s.workers[w])
  {
  }

  lemma WorkStepLeft(release: bool, s: State, w: nat)
    requires |s.terminate| == |s.workers| && Informed(s) && Enabled(s, Work(w))
    ensures var t := WorkerNext(release, s, w);
      |t.workers| == |s.workers| && Left(t) < Left(s)
  {
    hide WorkerNext, WorkLeft, WorkTotal, ActTotal, Knows;
    var t := WorkerNext(release, s, w);
    WorkFrame(release, s, w);
    WorkLeftAlone(release, s, w);
    WorkTotalUpdate(s.workers, w, t.workers[w]);
  }

  /** An action that wakes nobody. */
  lemma ActLeftAlone(s: State, c: nat, wake: nat)
    requires |s.terminate| == |s.workers| && Enabled(s, Act(c, wake))
    requires s.clients[c] != ShutBroadcast && s.clients[c] != AddSignal
    ensures var t := ClientNext(s, c, wake);
      && t.workers == s.workers
      && 7 * |t.waiting| + ActLeft(|s.workers|, t.clients[c]) < 7 * |s.waiting| + ActLeft(|s.workers|, s.clients[c])
  {
  }

  lemma ActStepLeft(s: State, c: nat, wake: nat)
    requires |s.terminate| == |s.workers| && Enabled(s, Act(c, wake))
    ensures var t := ClientNext(s, c, wake);
      |t.workers| == |s.workers| && Left(t) < Left(s)
  {
    hide WorkTotal, ActTotal;
    var t := ClientNext(s, c, wake);
    ActTotalUpdate(|s.workers|, s.clients, c, t.clients[c]);
    if s.clients[c] == ShutBroadcast {
      WakeAllTotal(s.workers);
    } else if s.clients[c] == AddSignal {
      if Asleep in s.workers {
        WorkTotalUpdate(s.workers, wake, Woken);
      }
    } else {
      ActFrame(s, c, wake);
      ActLeftAlone(s, c, wake);
      hide ClientNext, ActLeft, Enabled;
    }
  }

  /** Every action of a thread brings the end nearer; nothing else takes it further away than granted. */
  lemma StepLeft(release: bool, s: State, step: Step)
    requires |s.terminate| == |s.workers| && Informed(s) && Enabled(s, step)
    ensures var t := Next(release, s, step);
      && |t.workers| == |s.workers|
      && if IsOwn(step) then Left(t) < Left(s) else Left(t) <= Left(s) + Grant(|s.workers|, step)
  {
    hide WorkerNext, ClientNext, Informed, WorkTotal, ActTotal;
    var n := |s.workers|;
    match step {
      case Work(w) => WorkStepLeft(release, s, w);
      case Act(c, wake) => ActStepLeft(s, c, wake);
      case CallAdd(c, job) => ActTotalUpdate(n, s.clients, c, AddLock(job));
      case CallShutdown(c) => ActTotalUpdate(n, s.clients, c, ShutMark(if s.listed then n else 0));
      case Spurious(w) => WorkTotalUpdate(s.workers, w, Woken);
    }
  }

  lemma {:induction false} RunLeft(release: bool, s: State, steps: seq<Step>, t: State)
    requires Inv(release, s) && Run(release, s, steps, t)
    ensures |t.workers| == |s.workers|
    ensures Left(t) + |steps| <= Left(s) + Granted(|s.workers|, steps)
    decreases |steps|
  {
    hide Inv, Next, Enabled;
    if steps != [] {
      InvParts(release, s);
      NextInv(release, s, steps[0]);
      StepLeft(release, s, steps[0]);
      RunLeft(release, Next(release, s, steps[0]), steps[1..], t);
    }
  }

  lemma InvParts(release: bool, s: State)
    requires Inv(release, s)
    ensures |s.terminate| == |s.workers| && Informed(s) && Exclusive(release, s)
  {
  }

  /** Every run is bounded: from any reachable state, the number of steps is limited by what is left there,
      plus a fixed grant for each new call and each wake-up nobody asked for. */
  lemma RunsAreBounded(release: bool, s: State, before: seq<Step>, m: State, after: seq<Step>, t: State)
    requires Init(s) && Run(release, s, before, m) && Run(release, m, after, t)
    ensures |after| <= Left(m) + Granted(|m.workers|, after)
  {
    hide Inv, Next, Enabled;
    InitInv(release, s);
    RunInv(release, s, before, m);
    RunLeft(release, m, after, t);
  }

  /** And every run can be continued, by the threads' own actions alone, until nothing moves. */
  lemma {:induction false} Settles(release: bool, s: State) returns (more: seq<Step>, t: State)
    requires Inv(release, s)
    ensures Run(release, s, more, t) && Halted(t)
    ensures forall i :: 0 <= i < |more| ==> IsOwn(more[i])
    decreases Left(s)
  {
    hide Inv, Next, Enabled, IsOwn;
    InvParts(release, s);
    more, t := [], s;
    if !Halted(s) {
      var step: Step :| Enabled(s, step) && IsOwn(step);
      NextInv(release, s, step);
      StepLeft(release, s, step);
      more, t := Settles(release, Next(release, s, step));
      assert ([step] + more)[1..] == more;
      more := [step] + more;
    }
  }

  /** Every call has returned and every worker sleeps or has left. */
  ghost predicate Quiet(s: State) {
    && s.owner == Free
    && (forall c :: 0 <= c < |s.clients| ==> s.clients[c] == Idle)
    && (forall w :: 0 <= w < |s.workers| ==> s.workers[w] == Asleep || s.workers[w] == Exited)
  }

  /** Until all is quiet, or a worker has left with the mutex, some thread can act. */
  lemma SomeoneCanAct(release: bool, s: State) returns (step: Step)
    requires Inv(release, s) && (release || Exited !in s.workers) && !Quiet(s)
    ensures Enabled(s, step) && IsOwn(step)
  {
    hide Informed, Conserved, NoneLost, Count, Times, WindingDown;
    if s.owner.Worker? {
      assert WorkerHolds(release, s.workers[s.owner.w]);
      step := Work(s.owner.w);
    } else if s.owner.Client? {
      assert ClientHolds(s.clients[s.owner.c]);
      step := Act(s.owner.c, if Asleep in s.workers then Sleeper(s.workers) else 0);
    } else if w :| 0 <= w < |s.workers| && s.workers[w] != Asleep && s.workers[w] != Exited {
      step := Work(w);
    } else {
      var c :| 0 <= c < |s.clients| && s.clients[c] != Idle;
      step := Act(c, 0);
    }
  }

  /** So when nothing moves, all is quiet. */
  lemma HaltedIsQuiet(release: bool, s: State)
    requires Inv(release, s) && (release || Exited !in s.workers) && Halted(s)
    ensures Quiet(s)
  {
    hide Inv, Enabled, Quiet;
    InvParts(release, s);
    if !Quiet(s) {
      var step := SomeoneCanAct(release, s);
    }
  }

  function Sleeper(ws: seq<WorkerPc>): (w: nat)
    requires Asleep in ws
    ensures w < |ws| && ws[w] == Asleep
  {
    if ws[0] == Asleep then 0 else Sleeper(ws[1..]) + 1
  }

  lemma {:induction false} RestingCount(kind: Kind, ws: seq<WorkerPc>)
    requires forall w :: 0 <= w < |ws| ==> ws[w] == Asleep || ws[w] == Exited
    ensures Count(kind, ws) == 0
  {
    if ws != [] {
      RestingCount(kind, ws[1..]);
    }
  }

  /** No job is left behind: while no worker has left, as long as a job waits or is held some thread can
      act; so when nothing moves, every job given to workqueue_add_job has been executed, or cleared away by a
      shutdown, as often as it was given. With RunsAreBounded, this is how every run without further calls ends. */
  lemma NoJobLeftBehind(release: bool, s: State, steps: seq<Step>, t: State)
    requires Init(s) && Run(release, s, steps, t) && Exited !in t.workers && Halted(t)
    ensures t.waiting == []
    ensures forall j: Job :: CallsFor(steps, j) == Executions(release, s, steps, j) + Cleared(release, s, steps, j)
  {
    hide Inv, Next, Enabled;
    InitInv(release, s);
    RunInv(release, s, steps, t);
    RunLeft(release, s, steps, t);
    HaltedIsQuiet(release, t);
    assert t.workers[0] == Asleep;
    RestingCount(Heading, t.workers);
    NoLostWakeup(release, s, steps, t);
    forall j: Job
      ensures CallsFor(steps, j) == Executions(release, s, steps, j) + Cleared(release, s, steps, j)
    {
      NobodyAdding(t.clients, j);
      RestingCount(Holding(j), t.workers);
      JobsConserved(release, s, steps, t, j);
    }
  }

  // ---------- How a shutdown ends ----------

  predicate InShutdown(pc: ClientPc) {
    pc.ShutMark? || pc.ShutLock? || pc.ShutClear? || pc.ShutBroadcast? || pc.ShutUnlock?
  }

  /** A shutdown has been called: it has broadcast, or it is still under way. */
  ghost predicate Called(s: State) {
    s.broadcast || exists c :: 0 <= c < |s.clients| && InShutdown(s.clients[c])
  }

  ghost predicate Announced(s: State) {
    forall c :: 0 <= c < |s.clients| && s.clients[c] == ShutUnlock ==> s.broadcast
  }

  lemma ActCalled(s: State, c: nat, wake: nat)
    requires |s.terminate| == |s.workers| && Enabled(s, Act(c, wake)) && Announced(s)
    ensures var t := ClientNext(s, c, wake);
      Announced(t) && (Called(s) ==> Called(t))
  {
    var t := ClientNext(s, c, wake);
    if Called(s) && !s.broadcast {
      var d :| 0 <= d < |s.clients| && InShutdown(s.clients[d]);
      assert t.broadcast || InShutdown(t.clients[d]);
    }
  }

  lemma CalledStep(release: bool, s: State, step: Step)
    requires |s.terminate| == |s.workers| && Enabled(s, step) && Announced(s)
    ensures var t := Next(release, s, step);
      Announced(t) && (Called(s) || step.CallShutdown? ==> Called(t))
  {
    hide WorkerNext, ClientNext;
    var t := Next(release, s, step);
    match step {
      case Work(w) => WorkFrame(release, s, w);
      case Act(c, wake) => ActCalled(s, c, wake);
      case CallShutdown(c) => assert InShutdown(t.clients[c]);
      case CallAdd(c, _) =>
        if Called(s) && !s.broadcast {
          var d :| 0 <= d < |s.clients| && InShutdown(s.clients[d]);
          assert t.clients[d] == s.clients[d];
        }
      case Spurious(_) =>
    }
  }

  lemma {:induction false} RunCalled(release: bool, s: State, steps: seq<Step>, t: State)
    requires Announced(s) && Run(release, s, steps, t)
    requires Called(s) || exists i :: 0 <= i < |steps| && steps[i].CallShutdown?
    ensures Called(t)
    decreases |steps|
  {
    hide Next, Enabled, Announced, Called;
    if steps != [] {
      CalledStep(release, s, steps[0]);
      RunCalled(release, Next(release, s, steps[0]), steps[1..], t);
    }
  }

  ghost predicate OnlyLeft(s: State, w: nat) {
    w < |s.workers| && forall v :: 0 <= v < |s.workers| ==> (s.workers[v] == Exited <==> v == w)
  }

  /** Exactly one worker has left. */
  ghost predicate OneLeft(s: State) {
    exists w: nat :: OnlyLeft(s, w)
  }

  /** Once a shutdown has been called, something moves until a worker has left; if leaving released the
      mutex, until all have. */
  lemma SomeoneLeaves(release: bool, s: State, steps: seq<Step>, t: State)
    requires Init(s) && Run(release, s, steps, t) && Halted(t)
    requires exists i :: 0 <= i < |steps| && steps[i].CallShutdown?
    ensures release ==> t.broadcast && forall w :: 0 <= w < |t.workers| ==> t.workers[w] == Exited
    ensures Exited in t.workers
  {
    hide Inv, Next, Enabled, Halted;
    InitInv(release, s);
    RunInv(release, s, steps, t);
    RunLeft(release, s, steps, t);
    RunCalled(release, s, steps, t);
    if release || Exited !in t.workers {
      HaltedIsQuiet(release, t);
      assert t.broadcast;
      NoMissedBroadcast(release, s, steps, t);
      assert t.workers[0] == Exited;
    }
  }

  /** What a shutdown achieves. Every run in which one is called, continued until nothing moves (which by
      RunsAreBounded it does unless calls and spurious wake-ups go on for ever), ends with exactly one
      worker gone. So the promise that all workers terminate is kept if and only if there is only one. */
  lemma ShutdownStopsOne(s: State, steps: seq<Step>, t: State)
    requires Init(s) && Run(false, s, steps, t) && Halted(t)
    requires exists i :: 0 <= i < |steps| && steps[i].CallShutdown?
    ensures OneLeft(t)
    ensures (forall w :: 0 <= w < |t.workers| ==> t.workers[w] == Exited) <==> |s.workers| == 1
  {
    hide Next, Enabled, Halted, Run, Init;
    SomeoneLeaves(false, s, steps, t);
    RunSize(false, s, steps, t);
    var w :| 0 <= w < |t.workers| && t.workers[w] == Exited;
    forall v | 0 <= v < |t.workers| && t.workers[v] == Exited ensures v == w {
      AtMostOneExits(s, steps, t, v, w);
    }
    assert OnlyLeft(t, w);
    if |t.workers| > 1 {
      var v := if w == 0 then 1 else 0;
      assert t.workers[v] != Exited;
    }
  }

  lemma RunSize(release: bool, s: State, steps: seq<Step>, t: State)
    requires Init(s) && Run(release, s, steps, t)
    ensures |t.workers| == |s.workers| && |s.workers| >= 1
  {
    hide Inv, Next, Enabled;
    InitInv(release, s);
    RunLeft(release, s, steps, t);
  }

  /** With the mutex released at the break the promise would be kept, for any number of workers: every such
      run ends with all workers gone and all calls returned. */
  lemma ShutdownStopsAll(s: State, steps: seq<Step>, t: State)
    requires Init(s) && Run(true, s, steps, t) && Halted(t)
    requires exists i :: 0 <= i < |steps| && steps[i].CallShutdown?
    ensures forall w :: 0 <= w < |t.workers| ==> t.workers[w] == Exited
    ensures forall c :: 0 <= c < |t.clients| ==> t.clients[c] == Idle
  {
    hide Inv, Next, Enabled, Halted;
    SomeoneLeaves(true, s, steps, t);
    InitInv(true, s);
    RunInv(true, s, steps, t);
    HaltedIsQuiet(true, t);
  }

  /** Client c is in a shutdown that has locked the mutex, or that shutdown has returned. */
  ghost predicate PastLock(s: State, c: nat) {
    c < |s.clients| && (
      || s.clients[c] == ShutClear
      || s.clients[c] == ShutBroadcast
      || (s.clients[c] == ShutUnlock && s.broadcast)
      || (s.clients[c] == Idle && s.broadcast))
  }

  /** The step is not a new call by client c. */
  predicate NoCallBy(c: nat, step: Step) {
    !(step.CallAdd? && step.c == c) && !(step.CallShutdown? && step.c == c)
  }

  lemma PastLockStep(release: bool, s: State, step: Step, c: nat)
    requires |s.terminate| == |s.workers| && Enabled(s, step) && PastLock(s, c) && NoCallBy(c, step)
    ensures PastLock(Next(release, s, step), c)
  {
    hide WorkerNext;
    match step {
      case Work(w) => WorkFrame(release, s, w);
      case _ =>
    }
  }

  lemma {:induction false} RunPastLock(release: bool, s: State, steps: seq<Step>, t: State, c: nat)
    requires Run(release, s, steps, t) && PastLock(s, c)
    requires forall i :: 0 <= i < |steps| ==> NoCallBy(c, steps[i])
    ensures PastLock(t, c)
    decreases |steps|
  {
    hide Next, Enabled, PastLock, NoCallBy;
    if steps != [] {
      PastLockStep(release, s, steps[0], c);
      RunPastLock(release, Next(release, s, steps[0]), steps[1..], t, c);
    }
  }

  /** A shutdown that has locked the mutex always returns, and has then broadcast, whatever the others do:
      until it does its own next action is possible. */
  lemma LockedShutdownReturns(release: bool, s: State, before: seq<Step>, m: State, after: seq<Step>, t: State, c: nat)
    requires Init(s) && Run(release, s, before, m) && c < |m.clients| && m.clients[c] == ShutClear
    requires Run(release, m, after, t) && forall i :: 0 <= i < |after| ==> NoCallBy(c, after[i])
    ensures c < |t.clients| && |t.terminate| == |t.workers|
    ensures (t.clients[c] == Idle && t.broadcast) || Enabled(t, Act(c, 0))
    ensures Halted(t) ==> t.clients[c] == Idle && t.broadcast
  {
    hide Inv, Next, Run, NoCallBy;
    InitInv(release, s);
    RunInv(release, s, before, m);
    RunInv(release, m, after, t);
    InvParts(release, t);
    RunPastLock(release, m, after, t, c);
    assert IsOwn(Act(c, 0));
  }

  // ---------- A shutdown may hang ----------

  lemma {:induction false} RunJoin(release: bool, s: State, first: seq<Step>, m: State, second: seq<Step>, t: State)
    requires Run(release, s, first, m) && Run(release, m, second, t)
    ensures Run(release, s, first + second, t)
    decreases |first|
  {
    hide Next, Enabled;
    if first == [] {
      assert first + second == second;
    } else {
      RunJoin(release, Next(release, s, first[0]), first[1..], m, second, t);
      assert (first + second)[1..] == first[1..] + second;
    }
  }

  lemma RunOne(release: bool, s: State, step: Step)
    requires |s.terminate| == |s.workers| && Enabled(s, step)
    ensures Run(release, s, [step], Next(release, s, step))
  {
    assert [step][1..] == [];
  }

  /** No shutdown has been called. */
  ghost predicate NotCalled(s: State) {
    && s.listed && !s.broadcast
    && (forall w :: 0 <= w < |s.terminate| ==> !s.terminate[w])
    && (forall c :: 0 <= c < |s.clients| ==> !InShutdown(s.clients[c]))
  }

  predicate NoShutdown(steps: seq<Step>) {
    forall i :: 0 <= i < |steps| ==> !steps[i].CallShutdown?
  }

  lemma NotCalledStep(s: State, step: Step)
    requires |s.terminate| == |s.workers| && Enabled(s, step) && NotCalled(s) && !step.CallShutdown?
    ensures var t := Next(false, s, step); NotCalled(t) && |t.clients| == |s.clients|
  {
    hide WorkerNext;
    match step {
      case Work(w) => WorkFrame(false, s, w);
      case _ =>
    }
  }

  lemma {:induction false} RunNotCalled(s: State, steps: seq<Step>, t: State)
    requires Run(false, s, steps, t) && NotCalled(s) && NoShutdown(steps)
    ensures NotCalled(t) && |t.clients| == |s.clients|
    decreases |steps|
  {
    hide Next, Enabled, NotCalled;
    if steps != [] {
      NotCalledStep(s, steps[0]);
      RunNotCalled(Next(false, s, steps[0]), steps[1..], t);
    }
  }

  /** All workers sleep, all clients are idle, and there is nothing to do. */
  ghost predicate AllAsleep(s: State) {
    && |s.terminate| == |s.workers| >= 1 && s.owner == Free && s.waiting == [] && s.listed && !s.broadcast
    && (forall w :: 0 <= w < |s.workers| ==> s.workers[w] == Asleep)
    && (forall c :: 0 <= c < |s.clients| ==> s.clients[c] == Idle)
  }

  /** Before a shutdown is called the threads' own actions can put all workers to sleep. */
  lemma FallAsleep(s: State) returns (steps: seq<Step>, t: State)
    requires Inv(false, s) && NotCalled(s) && |s.workers| >= 1
    ensures Run(false, s, steps, t) && AllAsleep(t) && |t.clients| == |s.clients|
  {
    hide Next, Enabled, Halted, Run, NotCalled, Inv;
    steps, t := Settles(false, s);
    RunNotCalled(s, steps, t);
    RunInv(false, s, steps, t);
    RunLeft(false, s, steps, t);
    InvParts(false, t);
    NobodyLeft(t);
    HaltedIsQuiet(false, t);
    assert t.workers[0] == Asleep;
    RestingCount(Heading, t.workers);
    NothingWaits(t);
  }

  lemma NobodyLeft(s: State)
    requires Inv(false, s) && NotCalled(s)
    ensures Exited !in s.workers && s.listed && !s.broadcast
  {
    forall w | 0 <= w < |s.workers| ensures s.workers[w] != Exited {
      assert Knows(s.workers[w], s.terminate[w], s.waiting);
    }
  }

  lemma NothingWaits(s: State)
    requires Inv(false, s) && Exited !in s.workers && Asleep in s.workers && Count(Heading, s.workers) == 0
    requires s.owner == Free
    ensures s.waiting == []
  {
    hide Count;
  }

  /** Client c marks the workers while worker 0, holding the mutex, has seen an empty list. */
  ghost predicate Marking(s: State, c: nat, left: nat) {
    && |s.terminate| == |s.workers| >= 1 && left <= |s.workers|
    && s.workers[0] == AtEmptyCheck && s.owner == Worker(0)
    && c < |s.clients| && s.clients[c] == ShutMark(left) && !s.broadcast
    && (left == 0 ==> s.terminate[0])
  }

  lemma {:induction false} MarkRun(s: State, c: nat, left: nat) returns (steps: seq<Step>, t: State)
    requires Marking(s, c, left)
    ensures Run(false, s, steps, t) && Marking(t, c, 0)
    decreases left
  {
    if left == 0 {
      steps, t := [], s;
    } else {
      var m := Next(false, s, Act(c, 0));
      RunOne(false, s, Act(c, 0));
      hide Run;
      var rest;
      rest, t := MarkRun(m, c, left - 1);
      RunJoin(false, s, [Act(c, 0)], m, rest, t);
      steps := [Act(c, 0)] + rest;
    }
  }

  /** Worker 0 wakes for no reason and finds no job; client c calls for a shutdown. */
  lemma HangStart(s: State, c: nat) returns (steps: seq<Step>, t: State)
    requires AllAsleep(s) && c < |s.clients|
    ensures Run(false, s, steps, t) && Marking(t, c, |t.workers|)
  {
    var s1 := Next(false, s, Spurious(0));
    var s2 := Next(false, s1, Work(0));
    var s3 := Next(false, s2, Work(0));
    t := Next(false, s3, CallShutdown(c));
    RunOne(false, s, Spurious(0));
    RunOne(false, s1, Work(0));
    RunOne(false, s2, Work(0));
    RunOne(false, s3, CallShutdown(c));
    hide Run, Next, Enabled;
    RunJoin(false, s, [Spurious(0)], s1, [Work(0)], s2);
    RunJoin(false, s, [Spurious(0)] + [Work(0)], s2, [Work(0)], s3);
    RunJoin(false, s, [Spurious(0)] + [Work(0)] + [Work(0)], s3, [CallShutdown(c)], t);
    steps := [Spurious(0)] + [Work(0)] + [Work(0)] + [CallShutdown(c)];
  }

  /** The worker reads its flag and leaves before client c has locked the mutex. */
  lemma HangEnd(s: State, c: nat) returns (steps: seq<Step>, t: State)
    requires Marking(s, c, 0)
    ensures Run(false, s, steps, t) && !t.broadcast
    ensures |t.workers| >= 1 && t.workers[0] == Exited && c < |t.clients| && t.clients[c] == ShutLock
  {
    var s1 := Next(false, s, Act(c, 0));
    var s2 := Next(false, s1, Work(0));
    t := Next(false, s2, Work(0));
    RunOne(false, s, Act(c, 0));
    RunOne(false, s1, Work(0));
    RunOne(false, s2, Work(0));
    hide Run, Next, Enabled;
    RunJoin(false, s, [Act(c, 0)], s1, [Work(0)], s2);
    RunJoin(false, s, [Act(c, 0)] + [Work(0)], s2, [Work(0)], t);
    steps := [Act(c, 0)] + [Work(0)] + [Work(0)];
  }

  /** The call to shut down may itself never return. As long as none has been called, whatever has happened so
      far and with any number of workers and clients, things can go on so that a client calls for a shutdown
      and is still waiting for the mutex in every continuation. */
  lemma ShutdownMayHang(s: State, before: seq<Step>, m: State, c: nat) returns (more: seq<Step>, t: State)
    requires Init(s) && Run(false, s, before, m) && NoShutdown(before) && c < |m.clients|
    ensures Run(false, m, more, t)
    ensures forall rest: seq<Step>, u: State :: Run(false, t, rest, u) ==>
              c < |u.clients| && u.clients[c] == ShutLock && !u.broadcast
  {
    InitNotCalled(s);
    hide Run, Next, Enabled, Init, Inv, Marking, AllAsleep, NotCalled, NoShutdown;
    InitInv(false, s);
    RunInv(false, s, before, m);
    RunNotCalled(s, before, m);
    RunSize(false, s, before, m);
    var a, m1 := FallAsleep(m);
    var b, m2 := HangStart(m1, c);
    var d, m3 := MarkRun(m2, c, |m2.workers|);
    var e;
    e, t := HangEnd(m3, c);
    RunJoin(false, m, a, m1, b, m2);
    RunJoin(false, m, a + b, m2, d, m3);
    RunJoin(false, m, a + b + d, m3, e, t);
    more := a + b + d + e;
    RunInv(false, m, more, t);
    InvParts(false, t);
    forall rest: seq<Step>, u: State | Run(false, t, rest, u)
      ensures c < |u.clients| && u.clients[c] == ShutLock && !u.broadcast
    {
      MutexLost(t, 0, rest, u);
    }
  }

  lemma InitNotCalled(s: State)
    requires Init(s)
    ensures NotCalled(s)
  {
  }
}
