/** The intrusive list of waiting jobs: LL_ADD and LL_REMOVE on linked nodes. */
module JobList {
  class Job {
    var prev: Job?
    var next: Job?

    constructor ()
      ensures prev == null && next == null
    {
      prev, next := null, null;
    }
  }

  /** The LL_REMOVE macro, on any links whatever; `head` is the variable `list`. */
  method LlRemove(item: Job, head: Job?) returns (list: Job?)
    modifies item, if item.prev != null then {item.prev} else {}, if item.next != null then {item.next} else {}
    ensures item.prev == null && item.next == null
    ensures list == if head == item then old(item.next) else head
    ensures old(item.prev) != null && old(item.prev) != item ==> old(item.prev).next == old(item.next)
    ensures old(item.next) != null && old(item.next) != item ==> old(item.next).prev == old(item.prev)
    ensures old(item.next) != null && old(item.next) != item && old(item.next) != old(item.prev) ==>
              old(item.next).next == old(item.next.next)
    ensures old(item.prev) != null && old(item.prev) != item && old(item.next) != old(item.prev) ==>
              old(item.prev).prev == old(item.prev.prev)
  {
    list := head;
    if item.prev != null { item.prev.next := item.next; }
    if item.next != null { item.next.prev := item.prev; }
    if list == item { list := item.next; }
    item.prev := null;
    item.next := null;
  }

  /** The list head of a work queue. LL_ADD never sets the old head's `prev`, so every `prev` is null. */
  class WaitingJobs {
    var head: Job?
    ghost var jobs: seq<Job>

    ghost predicate Valid()
      reads this, jobs
    {
      && head == (if jobs == [] then null else jobs[0])
      && (forall i, j :: 0 <= i < j < |jobs| ==> jobs[i] != jobs[j])
      && (forall i :: 0 <= i < |jobs| ==> jobs[i].prev == null)
      && (forall i {:trigger Follower(jobs, i)} :: 0 <= i < |jobs| ==> jobs[i].next == Follower(jobs, i))
    }

    static function Follower(jobs: seq<Job>, i: nat): Job? {
      if i + 1 < |jobs| then jobs[i + 1] else null
    }

    constructor ()
      ensures Valid() && jobs == []
    {
      head, jobs := null, [];
    }

    /** LL_ADD: push on the front. */
    method Add(item: Job)
      requires Valid() && item !in jobs
      modifies this, item
      ensures Valid() && jobs == [item] + old(jobs)
    {
      item.prev := null;
      item.next := head;
      head := item;
      jobs := [item] + jobs;
      forall i | 0 <= i < |jobs|
        ensures jobs[i].prev == null && jobs[i].next == Follower(jobs, i)
      {
        assert i > 0 ==> jobs[i] == old(jobs)[i - 1] && old(jobs)[i - 1].next == Follower(old(jobs), i - 1);
      }
    }

    /** LL_REMOVE, for an item anywhere in the list: the head is popped, but removing any other item cuts
        the list off after it and leaves it in place, because its `prev` is null. */
    method Remove(item: Job)
      requires Valid() && item in jobs
      modifies this, jobs
      ensures Valid()
      ensures item.prev == null && item.next == null
      ensures forall i :: 0 <= i < |old(jobs)| && old(jobs)[i] == item ==>
                jobs == if i == 0 then old(jobs)[1..] else old(jobs)[..i + 1]
      ensures item in jobs <==> item != old(jobs)[0]
    {
      ghost var at :| 0 <= at < |jobs| && jobs[at] == item;
      assert jobs[at].next == Follower(jobs, at);
      head := LlRemove(item, head);
      jobs := if at == 0 then jobs[1..] else jobs[..at + 1];
      assert at > 0 ==> jobs[at] == item;
      forall i | 0 <= i < |jobs|
        ensures jobs[i].prev == null && jobs[i].next == Follower(jobs, i)
      {
        var before := if at == 0 then i + 1 else i;
        assert jobs[i] == old(jobs)[before] && old(jobs[before].next) == Follower(old(jobs), before);
      }
    }

    /** What a worker does while it holds the mutex: pop the head, if there is one. */
    method Take() returns (job: Job?)
      requires Valid()
      modifies this, jobs
      ensures Valid()
      ensures old(jobs) == [] ==> job == null && jobs == []
      ensures old(jobs) != [] ==> job == old(jobs)[0] && jobs == old(jobs)[1..]
    {
      job := head;
      if job != null {
        Remove(job);
      }
    }
  }

  /** Last added, first taken. */
  method AddThenTake(list: WaitingJobs, item: Job) returns (job: Job?)
    requires list.Valid() && item !in list.jobs
    modifies list, list.jobs, item
    ensures list.Valid() && list.jobs == old(list.jobs) && job == item
  {
    list.Add(item);
    job := list.Take();
  }
}
