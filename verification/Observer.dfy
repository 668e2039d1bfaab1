/** The observer list: a linked list behind a sentinel node, and a subject that notifies along it. */
module Observer {
  /** An observer keeps the state it was last told. */
  class Observer {
    var st: string

    constructor ()
      ensures st == ""
    {
      st := "";
    }
  }

  class Node {
    var data: Observer?
    var next: Node?

    constructor (data: Observer?, next: Node?)
      ensures this.data == data && this.next == next
    {
      this.data, this.next := data, next;
    }
  }

  /** s without the occurrences of x. */
  function Without<T(==)>(s: seq<T>, x: T): seq<T> {
    if s == [] then [] else Without(s[..|s| - 1], x) + if s[|s| - 1] == x then [] else [s[|s| - 1]]
  }

  /** How often y occurs in s. */
  function Times<T(==)>(s: seq<T>, y: T): nat {
    if s == [] then 0 else Times(s[..|s| - 1], y) + if s[|s| - 1] == y then 1 else 0
  }

  lemma TimesNext<T>(s: seq<T>, last: T, y: T)
    ensures Times(s + [last], y) == Times(s, y) + if last == y then 1 else 0
  {
    assert (s + [last])[..|s|] == s;
  }

  /** Detaching removes every occurrence of one observer, and no other observer. */
  lemma {:induction false} WithoutMembers<T>(s: seq<T>, x: T, y: T)
    ensures Times(Without(s, x), y) == if y == x then 0 else Times(s, y)
  {
    if s != [] {
      var front, last := s[..|s| - 1], s[|s| - 1];
      WithoutMembers(front, x, y);
      TimesNext(Without(front, x), last, y);
      assert Without(front, x) + [] == Without(front, x);
    }
  }

  /** Detaching what was just attached restores the list, if it was not attached before. */
  lemma {:induction false} AttachDetach<T>(s: seq<T>, x: T)
    ensures Without([x] + s, x) == Without(s, x)
    ensures x !in s ==> Without([x] + s, x) == s
  {
    var t := [x] + s;
    if s == [] {
      assert t[..|t| - 1] == [];
    } else {
      assert t[..|t| - 1] == [x] + s[..|s| - 1];
      AttachDetach(s[..|s| - 1], x);
    }
  }

  /** s without its entry k. */
  function Drop<T>(s: seq<T>, k: nat): (r: seq<T>)
    requires k < |s|
    ensures |r| == |s| - 1
    ensures forall i :: 0 <= i < |r| ==> r[i] == if i < k then s[i] else s[i + 1]
  {
    s[..k] + s[k + 1..]
  }

  ghost predicate Distinct<T>(s: seq<T>) {
    forall i, j :: 0 <= i < j < |s| ==> s[i] != s[j]
  }

  lemma DropDistinct<T>(s: seq<T>, k: nat)
    requires k < |s| && Distinct(s)
    ensures Distinct(Drop(s, k))
  {
  }

  /** After `done` entries of `all` have been looked at for x, the list is `now` and `kept` entries stay. */
  predicate Scanned<T(==)>(all: seq<T>, done: nat, now: seq<T>, kept: nat, x: T) {
    done <= |all| && kept <= |now| && now[..kept] == Without(all[..done], x) && now[kept..] == all[done..]
  }

  lemma ScanStart<T>(all: seq<T>, x: T)
    ensures Scanned(all, 0, all, 0, x)
  {
  }

  lemma ScanStep<T>(all: seq<T>, done: nat, now: seq<T>, kept: nat, x: T)
    requires Scanned(all, done, now, kept, x) && kept < |now|
    ensures done < |all| && now[kept] == all[done]
    ensures if now[kept] == x then Scanned(all, done + 1, Drop(now, kept), kept, x)
            else Scanned(all, done + 1, now, kept + 1, x)
  {
    assert |now[kept..]| == |all[done..]| && now[kept..][0] == all[done..][0];
    assert all[..done + 1][..done] == all[..done];
    assert now[kept + 1..] == now[kept..][1..] == all[done..][1..] == all[done + 1..];
    assert now[..kept + 1] == now[..kept] + [now[kept]];
  }

  lemma ScanEnd<T>(all: seq<T>, done: nat, now: seq<T>, x: T)
    requires Scanned(all, done, now, |now|, x)
    ensures now == Without(all, x)
  {
    assert |now[|now|..]| == |all[done..]|;
    assert now[..|now|] == now && all[..done] == all;
  }

  class SingleList {
    /** The list's nodes; the first is the sentinel, which carries no observer. */
    ghost var spine: seq<Node>
    const head: Node
    /** The observers in the list, first to last. */
    ghost var contents: seq<Observer>

    ghost predicate Valid()
      reads this, spine
    {
      |spine| == |contents| + 1 && spine[0] == head && Linked(spine) && Carries(spine, contents)
    }

    static ghost predicate Linked(spine: seq<Node>)
      reads spine
    {
      && Distinct(spine)
      && (forall i {:trigger Follower(spine, i)} :: 0 <= i < |spine| ==> spine[i].next == Follower(spine, i))
    }

    static function Follower(spine: seq<Node>, i: nat): Node? {
      if i + 1 < |spine| then spine[i + 1] else null
    }

    static ghost predicate Carries(spine: seq<Node>, contents: seq<Observer>)
      requires |spine| == |contents| + 1
      reads spine
    {
      spine[0].data == null && forall i :: 1 <= i < |spine| ==> spine[i].data == contents[i - 1]
    }

    constructor ()
      ensures Valid() && contents == [] && fresh(head) && spine == [head]
    {
      head := new Node(null, null);
      new;
      spine, contents := [head], [];
    }

    /** singleListInsert: right behind the sentinel. */
    method Insert(data: Observer)
      requires Valid()
      modifies this, head
      ensures Valid() && contents == [data] + old(contents)
      ensures |spine| > 1 && fresh(spine[1]) && spine[..1] + spine[2..] == old(spine)
    {
      assert head.next == Follower(spine, 0);
      ghost var before, kept := spine, contents;
      var node := new Node(data, head.next);
      head.next := node;
      spine, contents := [head, node] + spine[1..], [data] + contents;
      assert Linked(spine) by {
        hide Carries;
        forall i | 0 <= i < |spine| ensures spine[i].next == Follower(spine, i) {
          assert i > 1 ==> spine[i] == before[i - 1] && old(before[i - 1].next) == Follower(before, i - 1);
        }
      }
      assert Carries(spine, contents) by {
        hide Linked, Distinct;
        forall i | 1 <= i < |spine| ensures spine[i].data == contents[i - 1] {
          assert i > 1 ==> spine[i] == before[i - 1] && old(before[i - 1].data) == kept[i - 2];
        }
      }
      hide Linked, Carries;
      assert before == [head] + before[1..];
      assert spine[..1] == [head] && spine[2..] == before[1..];
    }

    /** singleListRemove. The loop's link starts at the list head; the sentinel carries no observer, so the
        first pass always steps to the link inside the sentinel, where this loop begins. */
    method Remove(data: Observer)
      requires Valid()
      modifies this, spine
      ensures Valid() && contents == Without(old(contents), data)
      ensures forall node :: node in spine ==> node in old(spine)
    {
      hide Scanned, Linked, Carries, Without;
      var p := head;
      ghost var kept, done := 0, 0;
      assert Scanned(contents, 0, contents, 0, data) by { ScanStart(contents, data); }
      assert p.next == Follower(spine, 0) by { NextOf(0); }
      while p.next != null
        invariant Valid() && forall i :: 0 <= i < |spine| ==> spine[i] in old(spine)
        invariant kept <= |contents| && p == spine[kept] && p.next == Follower(spine, kept)
        invariant Scanned(old(contents), done, contents, kept, data)
        decreases |contents| - kept
      {
        ScanStep(old(contents), done, contents, kept, data);
        NextOf(kept + 1);
        var node := p.next;
        if node.data == data {
          Unlink(p, kept);
        } else {
          p := node;
          kept := kept + 1;
        }
        done := done + 1;
      }
      ScanEnd(old(contents), done, contents, data);
    }

    lemma NextOf(i: nat)
      requires Valid() && i < |spine|
      ensures spine[i].next == Follower(spine, i)
      ensures spine[i].data == if i == 0 then null else contents[i - 1]
    {
    }

    /** The assignment through the link: node k + 1 drops out. */
    method Unlink(p: Node, ghost k: nat)
      requires Valid() && k < |contents| && p == spine[k] && p.next == spine[k + 1]
      modifies this, p
      ensures Valid() && p.next == Follower(spine, k)
      ensures spine == Drop(old(spine), k + 1) && contents == Drop(old(contents), k)
    {
      hide Distinct;
      ghost var before, kept := spine, contents;
      assert p.next.next == Follower(before, k + 1);
      p.next := p.next.next;
      spine, contents := Drop(before, k + 1), Drop(kept, k);
      assert Carries(spine, contents) by {
        hide Linked;
        forall i | 1 <= i < |spine| ensures spine[i].data == contents[i - 1] {
          ghost var b := if i <= k then i else i + 1;
          assert spine[i] == before[b] && old(before[b].data) == kept[b - 1];
        }
      }
      assert Linked(spine) by {
        hide Carries;
        DropDistinct(before, k + 1);
        forall i | 0 <= i < |spine| ensures spine[i].next == Follower(spine, i) {
          if i != k {
            ghost var b := if i <= k then i else i + 1;
            Differ(before, b, k);
            assert old(before[b].next) == Follower(before, b);
          }
        }
      }
      assert spine[k] == p && spine[k].next == Follower(spine, k);
    }

    static lemma Differ(s: seq<Node>, i: nat, j: nat)
      requires Distinct(s) && i < |s| && j < |s| && i != j
      ensures s[i] != s[j]
    {
    }
  }

  class DataSubject {
    const obvs: SingleList
    var st: string

    constructor ()
      ensures obvs.Valid() && obvs.contents == [] && fresh(obvs) && fresh(obvs.head) && obvs.spine == [obvs.head]
    {
      obvs := new SingleList();
      st := "";
    }

    method Attach(obv: Observer)
      requires obvs.Valid()
      modifies obvs, obvs.head
      ensures obvs.Valid() && obvs.contents == [obv] + old(obvs.contents)
    {
      obvs.Insert(obv);
    }

    method Detach(obv: Observer)
      requires obvs.Valid()
      modifies obvs, obvs.spine
      ensures obvs.Valid() && obvs.contents == Without(old(obvs.contents), obv)
    {
      obvs.Remove(obv);
    }

    /** Walk the list and hand every entry the subject's state; `told` is the order of the updates. */
    method Notify() returns (told: seq<Observer>)
      requires obvs.Valid()
      modifies obvs.contents
      ensures obvs.Valid() && st == old(st)
      ensures told == obvs.contents
      ensures forall o :: o in obvs.contents ==> o.st == st
    {
      told := [];
      assert obvs.head.next == SingleList.Follower(obvs.spine, 0);
      var p := obvs.head.next;
      while p != null
        invariant obvs.Valid() && |told| <= |obvs.contents| && told == obvs.contents[..|told|]
        invariant p == SingleList.Follower(obvs.spine, |told|)
        invariant forall o :: o in told ==> o.st == st
        decreases |obvs.contents| - |told|
      {
        p.data.st := st;
        told := told + [p.data];
        p := p.next;
      }
    }
  }
}
