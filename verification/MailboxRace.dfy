/** One device's mailbox when fetching and deleting are separate Redis calls, so that a phone can post in
    between. At most one heartbeat of the device is being handled at a time. */
module MailboxRace {
  import opened Options

  /** The heartbeat handler: idle, or between the get and the del, holding the command it fetched. */
  datatype Handler = Idle | Fetched(i: nat)

  /** Commands are known by their position in the order of posting. */
  datatype State = State(posted: nat, box: Option<nat>, handler: Handler, delivered: seq<nat>)

  datatype Step = Post | Fetch | Delete

  const START := State(0, None, Idle, [])

  predicate Enabled(s: State, step: Step) {
    match step
    case Post => true
    case Fetch => s.handler == Idle
    case Delete => s.handler.Fetched?
  }

  function Next(s: State, step: Step): State
    requires Enabled(s, step)
  {
    match step
    case Post => s.(posted := s.posted + 1, box := Some(s.posted))
    case Fetch => if s.box.Some? then s.(handler := Fetched(s.box.value)) else s
    case Delete => s.(box := None, handler := Idle, delivered := s.delivered + [s.handler.i])
  }

  ghost predicate Run(s: State, steps: seq<Step>, t: State)
    decreases |steps|
  {
    if steps == [] then s == t
    else Enabled(s, steps[0]) && Run(Next(s, steps[0]), steps[1..], t)
  }

  /** A later delivery is of a later command. */
  ghost predicate Increasing(d: seq<nat>) {
    forall i, j :: 0 <= i < j < |d| ==> d[i] < d[j]
  }

  /** k is beyond every delivery so far. */
  predicate Beyond(k: nat, d: seq<nat>) {
    forall i :: 0 <= i < |d| ==> d[i] < k
  }

  ghost predicate Inv(s: State) {
    && Increasing(s.delivered) && Beyond(s.posted, s.delivered)
    && (s.box.Some? ==> s.box.value + 1 == s.posted && Beyond(s.box.value, s.delivered))
    && (s.handler.Fetched? ==>
          s.box.Some? && s.handler.i <= s.box.value && Beyond(s.handler.i, s.delivered))
  }

  lemma {:induction false} RunInv(s: State, steps: seq<Step>, t: State)
    requires Inv(s) && Run(s, steps, t)
    ensures Inv(t)
    decreases |steps|
  {
    if steps != [] {
      RunInv(Next(s, steps[0]), steps[1..], t);
    }
  }

  /** In every interleaving the delivered commands are posted ones, in the order they were posted, and no
      command is delivered twice. */
  lemma DeliveredOnceInOrder(steps: seq<Step>, t: State)
    requires Run(START, steps, t)
    ensures forall i :: 0 <= i < |t.delivered| ==> t.delivered[i] < t.posted
    ensures forall i, j :: 0 <= i < j < |t.delivered| ==> t.delivered[i] < t.delivered[j]
  {
    RunInv(START, steps, t);
  }

  /** Command k can still be delivered. */
  predicate Alive(s: State, k: nat) {
    s.box == Some(k) || s.handler == Fetched(k)
  }

  /** A dead command stays dead: in no continuation is it delivered. */
  lemma {:induction false} DeadStaysDead(s: State, steps: seq<Step>, t: State, k: nat)
    requires Inv(s) && k < s.posted && !Alive(s, k) && k !in s.delivered && Run(s, steps, t)
    ensures !Alive(t, k) && k !in t.delivered
    decreases |steps|
  {
    if steps != [] {
      DeadStaysDead(Next(s, steps[0]), steps[1..], t, k);
    }
  }

  /** A delivered command has left the mailbox for good. */
  lemma {:induction false} DeliveredStays(s: State, steps: seq<Step>, t: State, k: nat)
    requires Inv(s) && k in s.delivered && Run(s, steps, t)
    ensures k in t.delivered && !Alive(t, k)
    decreases |steps|
  {
    if steps != [] {
      DeliveredStays(Next(s, steps[0]), steps[1..], t, k);
    }
  }

  /** A fetched command is delivered when, and only when, the handler comes to delete it. */
  lemma {:induction false} FetchedFate(s: State, steps: seq<Step>, t: State, k: nat)
    requires Inv(s) && s.handler == Fetched(k) && Run(s, steps, t)
    ensures Delete in steps ==> k in t.delivered && !Alive(t, k)
    ensures Delete !in steps ==> t.handler == Fetched(k) && t.delivered == s.delivered
    decreases |steps|
  {
    if steps != [] {
      if steps[0] == Delete {
        DeliveredStays(Next(s, Delete), steps[1..], t, k);
      } else {
        FetchedFate(Next(s, steps[0]), steps[1..], t, k);
      }
    }
  }

  /** The fate of a command is settled by when it is posted and by what happens next. Posted while a
      heartbeat is between its get and its del, it is never delivered, in any continuation, and lost with
      the next step. Posted while none is, it is delivered exactly when the next step is a fetch and a
      delete follows, and lost exactly when the next step is another post. */
  lemma CommandFate(before: seq<Step>, s: State, after: seq<Step>, t: State)
    requires Run(START, before, s) && Run(Next(s, Post), after, t)
    ensures s.posted in t.delivered <==> s.handler == Idle && after != [] && after[0] == Fetch && Delete in after
    ensures s.posted !in t.delivered && !Alive(t, s.posted) <==>
            after != [] && (s.handler.Fetched? || after[0] == Post)
  {
    RunInv(START, before, s);
    var k, m := s.posted, Next(s, Post);
    if after != [] {
      var n := Next(m, after[0]);
      if s.handler.Fetched? || after[0] == Post {
        DeadStaysDead(n, after[1..], t, k);
      } else {
        FetchedFate(n, after[1..], t, k);
      }
    }
  }

  /** It does happen: the second of two commands is deleted unread. */
  lemma CommandLost()
    ensures Run(START, [Post, Fetch, Post, Delete], State(2, None, Idle, [0]))
  {
    var s1, s2, s3 := State(1, Some(0), Idle, []), State(1, Some(0), Fetched(0), []), State(2, Some(1), Fetched(0), []);
    var end := State(2, None, Idle, [0]);
    assert Run(s3, [Delete], end);
    assert [Post, Delete][1..] == [Delete];
    assert Run(s2, [Post, Delete], end);
    assert [Fetch, Post, Delete][1..] == [Post, Delete];
    assert Run(s1, [Fetch, Post, Delete], end);
    assert [Post, Fetch, Post, Delete][1..] == [Fetch, Post, Delete];
  }
}
