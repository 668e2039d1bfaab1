/** The bounded MySQL connection pool (the variant selected by TYPE_APOLLO_MYSQL_CONNECTIONPOOL). */
module ConnectionPool {
  import opened Options

  datatype Status = Closed | On | Off

  /** A queue entry; connections are known by their thread ids, and None is a null pointer. */
  datatype Slot = Slot(conn: Option<nat>, status: Status)

  /** What trying to open a connection for a slot gave. */
  datatype Open = Failed | Opened(id: nat)

  /** The scan of get_connection_from_pool from entry i on; opens[i] is the outcome if entry i is tried. */
  function GetFrom(slots: seq<Slot>, opens: seq<Open>, i: nat): (r: (seq<Slot>, Option<nat>))
    requires i <= |slots| == |opens|
    ensures |r.0| == |slots|
    decreases |slots| - i
  {
    if i == |slots| then (slots, None)
    else
      match slots[i].status
      case Off => (slots[i := slots[i].(status := On)], slots[i].conn)
      case Closed =>
        GetFrom(slots[i := if opens[i].Failed? then Slot(None, Closed) else Slot(Some(opens[i].id), Off)], opens, i + 1)
      case On => GetFrom(slots, opens, i + 1)
  }

  function Get(slots: seq<Slot>, opens: seq<Open>): (seq<Slot>, Option<nat>)
    requires |slots| == |opens|
  {
    GetFrom(slots, opens, 0)
  }

  /** How return_connection_to_pool ends: normally; without a match, keeping the lock; or by following the
      null pointer of an entry that was never opened. */
  datatype Returned = Done | NoExist | NullDeref

  function ReturnFrom(slots: seq<Slot>, id: nat, i: nat): (r: (seq<Slot>, Returned))
    requires i <= |slots|
    ensures |r.0| == |slots|
    decreases |slots| - i
  {
    if i == |slots| then (slots, NoExist)
    else if slots[i].conn == None then (slots, NullDeref)
    else if slots[i].conn == Some(id) then (slots[i := slots[i].(status := Off)], Done)
    else ReturnFrom(slots, id, i + 1)
  }

  // ---------- The pool and its borrowers ----------

  /** The entries, and the connections that borrowers hold. */
  datatype Pool = Pool(slots: seq<Slot>, lent: set<nat>)

  ghost predicate Inv(p: Pool) {
    && (forall i :: 0 <= i < |p.slots| ==> (p.slots[i].conn == None <==> p.slots[i].status == Closed))
    && (forall i, j :: 0 <= i < j < |p.slots| && p.slots[i].conn.Some? ==> p.slots[i].conn != p.slots[j].conn)
    && (forall i :: 0 <= i < |p.slots| && p.slots[i].status == On ==> p.slots[i].conn.value in p.lent)
    && (forall id :: id in p.lent ==> exists i :: 0 <= i < |p.slots| && p.slots[i] == Slot(Some(id), On))
  }

  /** New connections get thread ids that are not in use and differ from each other. */
  ghost predicate Fresh(slots: seq<Slot>, opens: seq<Open>) {
    && |slots| == |opens|
    && (forall i, j :: 0 <= i < |opens| && 0 <= j < |slots| && opens[i].Opened? ==> slots[j].conn != Some(opens[i].id))
    && (forall i, j :: 0 <= i < j < |opens| && opens[i].Opened? ==> opens[i] != opens[j])
  }

  datatype Event = Borrow(opens: seq<Open>) | GiveBack(id: nat)

  /** A borrower takes a connection, or gives back one that is held. */
  ghost predicate Allowed(p: Pool, e: Event) {
    match e
    case Borrow(opens) => Fresh(p.slots, opens)
    case GiveBack(id) => id in p.lent && ReturnFrom(p.slots, id, 0).1 == Done
  }

  function Next(p: Pool, e: Event): Pool
    requires e.Borrow? ==> |e.opens| == |p.slots|
  {
    match e
    case Borrow(opens) =>
      var (slots, conn) := Get(p.slots, opens);
      Pool(slots, if conn.Some? then p.lent + {conn.value} else p.lent)
    case GiveBack(id) => Pool(ReturnFrom(p.slots, id, 0).0, p.lent - {id})
  }

  /** A closed entry after the scan has tried to open it. */
  function Reopened(slot: Slot, open: Open): Slot {
    if slot.status != Closed then slot else if open.Failed? then Slot(None, Closed) else Slot(Some(open.id), Off)
  }

  /** The first entry from i on that was off before the scan. */
  predicate FirstOff(slots: seq<Slot>, i: nat, found: nat) {
    i <= found < |slots| && slots[found].status == Off && forall k :: i <= k < found ==> slots[k].status != Off
  }

  /** Entries from i up to `end` have been tried, and entry `end`, if there is one, handed out. */
  predicate Scanned(slots: seq<Slot>, opens: seq<Open>, i: nat, end: nat, after: seq<Slot>) {
    && |slots| == |opens| == |after|
    && forall k :: 0 <= k < |slots| ==>
         after[k] == if k == end then slots[k].(status := On)
                     else if i <= k < end then Reopened(slots[k], opens[k])
                     else slots[k]
  }

  /** The scan reopens closed entries up to the first one that was off and hands that one out; it comes back
      empty-handed exactly when none was off, having then tried to reopen every closed entry. */
  lemma {:induction false} GetEffect(slots: seq<Slot>, opens: seq<Open>, i: nat) returns (end: nat)
    requires i <= |slots| == |opens|
    ensures FirstOff(slots, i, end) || (end == |slots| && forall k :: i <= k < |slots| ==> slots[k].status != Off)
    ensures var (after, conn) := GetFrom(slots, opens, i);
      && Scanned(slots, opens, i, end, after)
      && conn == if end < |slots| then slots[end].conn else None
    decreases |slots| - i
  {
    end := i;
    if i < |slots| {
      match slots[i].status {
        case Off =>
        case Closed =>
          var next := slots[i := Reopened(slots[i], opens[i])];
          end := GetEffect(next, opens, i + 1);
          assert forall k :: i < k < |slots| ==> next[k] == slots[k];
        case On => end := GetEffect(slots, opens, i + 1);
      }
    }
  }

  /** Giving back ends normally exactly when a matching entry comes before every entry that is not open. */
  lemma {:induction false} ReturnEffect(slots: seq<Slot>, id: nat, i: nat) returns (end: nat)
    requires i <= |slots|
    ensures i <= end <= |slots| && forall k :: i <= k < end ==> slots[k].conn.Some? && slots[k].conn != Some(id)
    ensures end < |slots| ==> slots[end].conn == None || slots[end].conn == Some(id)
    ensures ReturnFrom(slots, id, i) ==
            if end == |slots| then (slots, NoExist)
            else if slots[end].conn == None then (slots, NullDeref)
            else (slots[end := slots[end].(status := Off)], Done)
    decreases |slots| - i
  {
    end := i;
    if i < |slots| && slots[i].conn.Some? && slots[i].conn != Some(id) {
      end := ReturnEffect(slots, id, i + 1);
    }
  }

  /** The scan keeps the thread ids distinct. */
  lemma ScanDistinct(p: Pool, opens: seq<Open>, end: nat, after: seq<Slot>)
    requires Inv(p) && Fresh(p.slots, opens) && Scanned(p.slots, opens, 0, end, after)
    ensures forall i, j :: 0 <= i < j < |after| && after[i].conn.Some? ==> after[i].conn != after[j].conn
  {
    forall i, j | 0 <= i < j < |after| && after[i].conn.Some? ensures after[i].conn != after[j].conn {
      assert after[i].conn == p.slots[i].conn || (opens[i].Opened? && after[i].conn == Some(opens[i].id));
      assert after[j].conn == p.slots[j].conn || (opens[j].Opened? && after[j].conn == Some(opens[j].id));
    }
  }

  /** A borrowed connection was free before and is nobody else's. */
  lemma BorrowInv(p: Pool, opens: seq<Open>)
    requires Inv(p) && Fresh(p.slots, opens)
    ensures Inv(Next(p, Borrow(opens)))
    ensures var conn := Get(p.slots, opens).1; conn.Some? ==> conn.value !in p.lent
  {
    hide GetFrom;
    var end := GetEffect(p.slots, opens, 0);
    var q := Next(p, Borrow(opens));
    var conn := Get(p.slots, opens).1;
    ScanDistinct(p, opens, end, q.slots);
    hide Fresh;
    forall id | id in p.lent ensures conn != Some(id) {
      var j :| 0 <= j < |p.slots| && p.slots[j] == Slot(Some(id), On);
      assert end < |p.slots| ==> j != end && p.slots[end].conn.Some?;
    }
    forall id | id in q.lent ensures exists i :: 0 <= i < |q.slots| && q.slots[i] == Slot(Some(id), On) {
      if id in p.lent {
        var i :| 0 <= i < |p.slots| && p.slots[i] == Slot(Some(id), On);
        assert q.slots[i] == p.slots[i];
      } else {
        assert q.slots[end] == Slot(Some(id), On);
      }
    }
  }

  lemma GiveBackInv(p: Pool, id: nat)
    requires Inv(p) && Allowed(p, GiveBack(id))
    ensures Inv(Next(p, GiveBack(id)))
  {
    var end := ReturnEffect(p.slots, id, 0);
    var q := Next(p, GiveBack(id));
    forall other | other in q.lent ensures exists i :: 0 <= i < |q.slots| && q.slots[i] == Slot(Some(other), On) {
      var i :| 0 <= i < |p.slots| && p.slots[i] == Slot(Some(other), On);
      assert q.slots[i] == p.slots[i];
    }
  }

  /** init_mysql_pool: every entry is tried once. */
  lemma InitInv(opens: seq<Open>)
    requires forall i, j :: 0 <= i < j < |opens| && opens[i].Opened? ==> opens[i] != opens[j]
    ensures Inv(Pool(seq(|opens|, i requires 0 <= i < |opens| => Reopened(Slot(None, Closed), opens[i])), {}))
  {
    var slots := seq(|opens|, i requires 0 <= i < |opens| => Reopened(Slot(None, Closed), opens[i]));
    forall i, j | 0 <= i < j < |slots| && slots[i].conn.Some? ensures slots[i].conn != slots[j].conn {
      assert opens[i].Opened? && opens[i] != opens[j];
    }
  }

  /** A run of the pool: each event is allowed where it happens. */
  ghost predicate Run(p: Pool, events: seq<Event>, q: Pool)
    decreases |events|
  {
    if events == [] then p == q
    else Allowed(p, events[0]) && Run(Next(p, events[0]), events[1..], q)
  }

  lemma {:induction false} RunInv(p: Pool, events: seq<Event>, q: Pool)
    requires Inv(p) && Run(p, events, q)
    ensures Inv(q) && |q.slots| == |p.slots|
    decreases |events|
  {
    if events != [] {
      match events[0] {
        case Borrow(opens) => BorrowInv(p, opens);
        case GiveBack(id) => GiveBackInv(p, id);
      }
      RunInv(Next(p, events[0]), events[1..], q);
    }
  }

  /** In every run with distinct thread ids and borrowers who return only what they hold, no connection is
      lent while it is lent. */
  lemma NeverLentTwice(p: Pool, events: seq<Event>, q: Pool, opens: seq<Open>)
    requires Inv(p) && Run(p, events, q) && Fresh(q.slots, opens)
    ensures var conn := Get(q.slots, opens).1; conn.Some? ==> conn.value !in q.lent
  {
    RunInv(p, events, q);
    BorrowInv(q, opens);
  }

  /** A get comes back empty-handed only if no entry was free; the entries it reopened are then free, so
      trying again at once succeeds if there are any. */
  lemma RetrySucceeds(p: Pool, opens: seq<Open>, again: seq<Open>)
    requires Inv(p) && Fresh(p.slots, opens) && |again| == |p.slots| && Get(p.slots, opens).1 == None
    ensures forall k :: 0 <= k < |p.slots| ==> p.slots[k].status != Off
    ensures (exists k :: 0 <= k < |p.slots| && p.slots[k].status == Closed && opens[k].Opened?) <==>
            Get(Get(p.slots, opens).0, again).1.Some?
  {
    var end := GetEffect(p.slots, opens, 0);
    var after := Get(p.slots, opens).0;
    BorrowInv(p, opens);
    var end2 := GetEffect(after, again, 0);
    assert end == |p.slots|;
    if k :| 0 <= k < |p.slots| && p.slots[k].status == Closed && opens[k].Opened? {
      assert after[k].status == Off;
    }
    if end2 < |after| {
      assert p.slots[end2].status == Closed && opens[end2].Opened?;
    }
  }

  /** A held connection cannot always be given back: it can if and only if no entry before its own is
      closed; otherwise the search runs into that entry's null pointer. */
  lemma GiveBackWorks(p: Pool, id: nat, own: nat)
    requires Inv(p) && own < |p.slots| && p.slots[own] == Slot(Some(id), On)
    ensures ReturnFrom(p.slots, id, 0).1 ==
            if forall k :: 0 <= k < own ==> p.slots[k].status != Closed then Done else NullDeref
  {
    var end := ReturnEffect(p.slots, id, 0);
    if end < own {
      assert p.slots[end].conn == None;
    }
  }

  // ---------- The two functions as code ----------

  method GetConnection(queue: array<Slot>, opens: seq<Open>) returns (conn: Option<nat>)
    requires |opens| == queue.Length
    modifies queue
    ensures (queue[..], conn) == Get(old(queue[..]), opens)
  {
    var i := 0;
    while i < queue.Length
      invariant 0 <= i <= queue.Length
      invariant GetFrom(queue[..], opens, i) == Get(old(queue[..]), opens)
    {
      if queue[i].status == Off {
        queue[i] := queue[i].(status := On);
        return queue[i].conn;
      } else if queue[i].status == Closed {
        queue[i] := if opens[i].Failed? then Slot(None, Closed) else Slot(Some(opens[i].id), Off);
      }
      i := i + 1;
    }
    return None;
  }

  method ReturnConnection(queue: array<Slot>, id: nat) returns (result: Returned)
    modifies queue
    ensures (queue[..], result) == ReturnFrom(old(queue[..]), id, 0)
  {
    var i := 0;
    while i < queue.Length
      invariant 0 <= i <= queue.Length && queue[..] == old(queue[..])
      invariant ReturnFrom(queue[..], id, i) == ReturnFrom(old(queue[..]), id, 0)
    {
      if queue[i].conn == None { return NullDeref; }
      if queue[i].conn == Some(id) {
        queue[i] := queue[i].(status := Off);
        return Done;
      }
      i := i + 1;
    }
    return NoExist;
  }
}
