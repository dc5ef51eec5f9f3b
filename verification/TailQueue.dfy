/** The TAILQ macros of `queue.h`: an intrusive list whose back links are addresses of forward links. */
module TailQueue {
  import opened Selecting

  /** The address of a variable that points at an element: a head's first field or an element's next field. */
  datatype Slot = Wild | FirstOf(head: Head) | NextOf(elm: Node)

  /** A record with its queue links; once freed, nothing may look at it. */
  class Node {
    var next: Node?
    var prev: Slot
    ghost var freed: bool

    constructor ()
      ensures !freed
    {
      next, prev, freed := null, Wild, false;
    }

    function Next(): Node?
      requires !freed
      reads this
    {
      next
    }

    /** free() */
    ghost method Free()
      requires !freed
      modifies this`freed
      ensures freed
    {
      freed := true;
    }
  }

  ghost function SlotObject(s: Slot): set<object> {
    match s
    case Wild => {}
    case FirstOf(h) => {h}
    case NextOf(n) => {n}
  }

  /** *slot */
  function Load(s: Slot): Node?
    requires !s.Wild?
    reads SlotObject(s)
  {
    match s
    case FirstOf(h) => h.first
    case NextOf(n) => n.next
  }

  /** ((struct headname *) slot)->tqh_last: a head and an entry both keep a slot right after the variable. */
  function SecondField(s: Slot): Slot
    requires !s.Wild?
    reads SlotObject(s)
  {
    match s
    case FirstOf(h) => h.last
    case NextOf(n) => n.prev
  }

  function NodeAt(s: seq<Node>, i: nat): Node? {
    if i < |s| then s[i] else null
  }

  /** The variable that points at position `i`. */
  function SlotFor(h: Head, s: seq<Node>, i: nat): Slot
    requires i <= |s|
  {
    if i == 0 then FirstOf(h) else NextOf(s[i - 1])
  }

  /** The links of `h` and of the elements of `s` make the queue `s`. */
  ghost predicate Linked(h: Head, s: seq<Node>)
    reads h, s
  {
    && AllDistinct(s) && NoneFreed(s)
    && h.first == NodeAt(s, 0)
    && h.last == SlotFor(h, s, |s|)
    && (forall i {:trigger s[i].next} :: 0 <= i < |s| ==> s[i].next == NodeAt(s, i + 1))
    && (forall i {:trigger s[i].prev} :: 0 <= i < |s| ==> s[i].prev == SlotFor(h, s, i))
  }

  ghost predicate AllDistinct(s: seq<Node>) {
    forall i, j :: 0 <= i < j < |s| ==> s[i] != s[j]
  }

  ghost predicate NoneFreed(s: seq<Node>)
    reads s
  {
    forall i {:trigger s[i].freed} :: 0 <= i < |s| ==> !s[i].freed
  }

  ghost predicate Apart(s: seq<Node>, t: seq<Node>) {
    forall i, j :: 0 <= i < |s| && 0 <= j < |t| ==> s[i] != t[j]
  }

  lemma SplicedDistinct(s: seq<Node>, i: nat, elm: Node)
    requires AllDistinct(s) && NoneFreed(s) && elm !in s && !elm.freed && i <= |s|
    ensures AllDistinct(s[..i] + [elm] + s[i..]) && NoneFreed(s[..i] + [elm] + s[i..])
  {
  }

  /** The links that must change, and the only ones, for `elm` to stand before position `i`. */
  lemma Spliced(h: Head, s: seq<Node>, i: nat, elm: Node)
    requires AllDistinct(s) && NoneFreed(s) && elm !in s && !elm.freed && i <= |s|
    requires h.first == if i == 0 then elm else s[0]
    requires h.last == if i == |s| then NextOf(elm) else SlotFor(h, s, |s|)
    requires elm.next == NodeAt(s, i) && elm.prev == SlotFor(h, s, i)
    requires forall k {:trigger s[k].next} :: 0 <= k < |s| ==> s[k].next == if k + 1 == i then elm else NodeAt(s, k + 1)
    requires forall k {:trigger s[k].prev} :: 0 <= k < |s| ==>
               s[k].prev == if k == i then NextOf(elm) else SlotFor(h, s, k)
    ensures Linked(h, s[..i] + [elm] + s[i..])
  {
    var t := s[..i] + [elm] + s[i..];
    SplicedDistinct(s, i, elm);
    forall k | 0 <= k < |t| ensures t[k].next == NodeAt(t, k + 1) {
      if k < i {
        assert t[k] == s[k];
      } else if k > i {
        assert t[k] == s[k - 1];
      }
    }
    forall k | 0 <= k < |t| ensures t[k].prev == SlotFor(h, t, k) {
      if k < i {
        assert t[k] == s[k];
      } else if k > i {
        assert t[k] == s[k - 1];
      }
    }
  }

  /** The links that must change for position `i` to be left out. */
  lemma Unspliced(h: Head, s: seq<Node>, i: nat)
    requires AllDistinct(s) && NoneFreed(s) && i < |s|
    requires h.first == if i == 0 then NodeAt(s, 1) else s[0]
    requires h.last == if i == |s| - 1 then SlotFor(h, s, i) else SlotFor(h, s, |s|)
    requires forall k {:trigger s[k].next} :: 0 <= k < |s| && k != i ==>
               s[k].next == if k + 1 == i then NodeAt(s, i + 1) else NodeAt(s, k + 1)
    requires forall k {:trigger s[k].prev} :: 0 <= k < |s| && k != i ==>
               s[k].prev == if k == i + 1 then SlotFor(h, s, i) else SlotFor(h, s, k)
    ensures Linked(h, s[..i] + s[i + 1..])
  {
    var t := s[..i] + s[i + 1..];
    forall k | 0 <= k < |t| ensures t[k].next == NodeAt(t, k + 1) {
      assert t[k] == if k < i then s[k] else s[k + 1];
    }
    forall k | 0 <= k < |t| ensures t[k].prev == SlotFor(h, t, k) {
      assert t[k] == if k < i then s[k] else s[k + 1];
    }
  }

  lemma JoinedDistinct(s: seq<Node>, t: seq<Node>)
    requires AllDistinct(s) && NoneFreed(s) && AllDistinct(t) && NoneFreed(t) && Apart(s, t)
    ensures AllDistinct(s + t) && NoneFreed(s + t)
  {
  }

  /** The forward links, where `t` stands behind `s`. */
  ghost predicate JoinedNext(s: seq<Node>, t: seq<Node>)
    requires t != []
    reads s, t
  {
    && (forall k {:trigger s[k].next} :: 0 <= k < |s| ==> s[k].next == if k + 1 == |s| then t[0] else s[k + 1])
    && (forall k {:trigger t[k].next} :: 0 <= k < |t| ==> t[k].next == NodeAt(t, k + 1))
  }

  lemma JoinedForward(s: seq<Node>, t: seq<Node>, k: nat)
    requires t != [] && JoinedNext(s, t) && k < |s + t|
    ensures (s + t)[k].next == NodeAt(s + t, k + 1)
  {
    assert (s + t)[k] == if k < |s| then s[k] else t[k - |s|];
  }

  /** The back links, where `t` stands behind `s`. */
  ghost predicate JoinedPrev(h: Head, s: seq<Node>, t: seq<Node>)
    reads s, t
  {
    && (forall k {:trigger s[k].prev} :: 0 <= k < |s| ==> s[k].prev == SlotFor(h, s, k))
    && (forall k {:trigger t[k].prev} :: 0 <= k < |t| ==>
          t[k].prev == if k == 0 then SlotFor(h, s, |s|) else NextOf(t[k - 1]))
  }

  lemma JoinedBackward(h: Head, s: seq<Node>, t: seq<Node>, k: nat)
    requires JoinedPrev(h, s, t) && k < |s + t|
    ensures (s + t)[k].prev == SlotFor(h, s + t, k)
  {
    assert (s + t)[k] == if k < |s| then s[k] else t[k - |s|];
  }

  lemma JoinedEnds(h: Head, s: seq<Node>, t: seq<Node>)
    requires t != []
    requires h.first == if s == [] then t[0] else s[0]
    requires h.last == NextOf(t[|t| - 1])
    ensures h.first == NodeAt(s + t, 0) && h.last == SlotFor(h, s + t, |s + t|)
  {
  }

  /** The links that must change for `t` to stand behind `s`. */
  lemma Joined(h: Head, s: seq<Node>, t: seq<Node>)
    requires AllDistinct(s) && NoneFreed(s) && AllDistinct(t) && NoneFreed(t) && t != []
    requires Apart(s, t)
    requires h.first == if s == [] then t[0] else s[0]
    requires h.last == NextOf(t[|t| - 1])
    requires JoinedNext(s, t) && JoinedPrev(h, s, t)
    ensures Linked(h, s + t)
  {
    JoinedDistinct(s, t);
    JoinedEnds(h, s, t);
    forall k | 0 <= k < |s + t| ensures (s + t)[k].next == NodeAt(s + t, k + 1) {
      JoinedForward(s, t, k);
    }
    forall k | 0 <= k < |s + t| ensures (s + t)[k].prev == SlotFor(h, s + t, k) {
      JoinedBackward(h, s, t, k);
    }
  }

  class Head {
    var first: Node?
    var last: Slot
    ghost var elems: seq<Node>

    ghost predicate Valid()
      reads this, elems
    {
      Linked(this, elems)
    }

    /** TAILQ_INIT */
    constructor ()
      ensures Valid() && elems == []
    {
      first, last, elems := null, Wild, [];
      new;
      last := FirstOf(this);
    }

    method InsertHead(elm: Node)
      requires Valid() && elm !in elems && !elm.freed
      modifies this, elems, elm
      ensures Valid() && elems == [elm] + old(elems)
    {
      elm.next := first;
      if elm.next != null {
        first.prev := NextOf(elm);
      } else {
        last := NextOf(elm);
      }
      first := elm;
      elm.prev := FirstOf(this);
      Spliced(this, elems, 0, elm);
      assert elems[..0] + [elm] + elems[0..] == [elm] + elems;
      elems := [elm] + elems;
    }

    method InsertTail(elm: Node)
      requires Valid() && elm !in elems && !elm.freed
      modifies this, elems, elm
      ensures Valid() && elems == old(elems) + [elm]
    {
      elm.next := null;
      elm.prev := last;
      match last {
        case FirstOf(h) => h.first := elm;
        case NextOf(n) => n.next := elm;
      }
      last := NextOf(elm);
      Spliced(this, elems, |elems|, elm);
      assert elems[..|elems|] + [elm] + elems[|elems|..] == elems + [elm];
      elems := elems + [elm];
    }

    method InsertAfter(listelm: Node, elm: Node, ghost i: nat)
      requires Valid() && elm !in elems && !elm.freed
      requires i < |elems| && elems[i] == listelm
      modifies this, elems, elm
      ensures Valid() && elems == old(elems[..i + 1] + [elm] + elems[i + 1..])
    {
      elm.next := listelm.next;
      if elm.next != null {
        elm.next.prev := NextOf(elm);
      } else {
        last := NextOf(elm);
      }
      listelm.next := elm;
      elm.prev := NextOf(listelm);
      Spliced(this, elems, i + 1, elm);
      elems := elems[..i + 1] + [elm] + elems[i + 1..];
    }

    method InsertBefore(listelm: Node, elm: Node, ghost i: nat)
      requires Valid() && elm !in elems && !elm.freed
      requires i < |elems| && elems[i] == listelm
      modifies this, elems, elm
      ensures Valid() && elems == old(elems[..i] + [elm] + elems[i..])
    {
      elm.prev := listelm.prev;
      elm.next := listelm;
      match listelm.prev {
        case FirstOf(h) => h.first := elm;
        case NextOf(n) => n.next := elm;
      }
      listelm.prev := NextOf(elm);
      Spliced(this, elems, i, elm);
      elems := elems[..i] + [elm] + elems[i..];
    }

    method Remove(elm: Node, ghost i: nat)
      requires Valid()
      requires i < |elems| && elems[i] == elm
      modifies this, elems
      ensures Valid() && elems == old(elems[..i] + elems[i + 1..])
      ensures elm.next == old(elm.next) && elm !in elems
      ensures forall x :: x in old(elems) ==> x.freed == old(x.freed)
    {
      if elm.next != null {
        elm.next.prev := elm.prev;
      } else {
        last := elm.prev;
      }
      match elm.prev {
        case FirstOf(h) => h.first := elm.next;
        case NextOf(n) => n.next := elm.next;
      }
      Unspliced(this, elems, i);
      assert elm !in elems[..i] && elm !in elems[i + 1..];
      elems := elems[..i] + elems[i + 1..];
    }

    /** Moves all of `other` behind this queue. */
    method Concat(other: Head)
      requires Valid() && other.Valid() && this != other
      requires Apart(elems, other.elems)
      modifies this, other, elems, other.elems
      ensures Valid() && other.Valid()
      ensures elems == old(elems + other.elems) && other.elems == []
    {
      if other.first != null {
        match last {
          case FirstOf(h) => h.first := other.first;
          case NextOf(n) => n.next := other.first;
        }
        other.first.prev := last;
        last := other.last;
        Joined(this, elems, other.elems);
        elems := elems + other.elems;
        other.first, other.last, other.elems := null, FirstOf(other), [];
      }
    }

    method Swap(other: Head)
      requires Valid() && other.Valid() && this != other
      requires Apart(elems, other.elems)
      modifies this, other, elems, other.elems
      ensures Valid() && other.Valid()
      ensures elems == old(other.elems) && other.elems == old(elems)
    {
      var swapFirst, swapLast := first, last;
      first, last := other.first, other.last;
      other.first, other.last := swapFirst, swapLast;
      swapFirst := first;
      if swapFirst != null {
        swapFirst.prev := FirstOf(this);
      } else {
        last := FirstOf(this);
      }
      swapFirst := other.first;
      if swapFirst != null {
        swapFirst.prev := FirstOf(other);
      } else {
        other.last := FirstOf(other);
      }
      elems, other.elems := other.elems, elems;
    }

    /** TAILQ_LAST */
    function Last(): (n: Node?)
      requires Valid()
      reads this, elems
      ensures n == if elems == [] then null else elems[|elems| - 1]
    {
      Load(SecondField(last))
    }

    /** TAILQ_PREV */
    function Prev(elm: Node, ghost i: nat): (n: Node?)
      requires Valid()
      requires i < |elems| && elems[i] == elm
      reads this, elems
      ensures n == if i == 0 then null else elems[i - 1]
    {
      Load(SecondField(elm.prev))
    }

    /** TAILQ_FOREACH */
    method Forward() returns (visited: seq<Node>)
      requires Valid()
      ensures visited == elems
    {
      visited := [];
      var item := first;
      while item != null
        invariant visited <= elems && item == NodeAt(elems, |visited|)
        decreases |elems| - |visited|
      {
        visited := visited + [item];
        item := item.Next();
      }
    }

    /** TAILQ_FOREACH_REVERSE */
    method Backward() returns (visited: seq<Node>)
      requires Valid()
      ensures |visited| == |elems|
      ensures forall i :: 0 <= i < |elems| ==> visited[i] == elems[|elems| - 1 - i]
    {
      visited := [];
      var item := Last();
      ghost var left := |elems|;
      while item != null
        invariant 0 <= left <= |elems| && |visited| + left == |elems|
        invariant item == if left == 0 then null else elems[left - 1]
        invariant forall i :: 0 <= i < |visited| ==> visited[i] == elems[|elems| - 1 - i]
        decreases left
      {
        visited := visited + [item];
        item := Prev(item, left - 1);
        left := left - 1;
      }
    }
  }

  /** The links alone determine the queue. */
  lemma {:induction false} LinksDetermineQueue(h: Head, s: seq<Node>, t: seq<Node>, n: nat)
    requires Linked(h, s) && Linked(h, t) && n <= |s|
    ensures n <= |t| && s[..n] == t[..n]
  {
    if n > 0 {
      LinksDetermineQueue(h, s, t, n - 1);
      if n > 1 {
        assert s[n - 2] == s[..n - 1][n - 2] == t[n - 2];
        assert s[n - 2].next == t[n - 2].next;
      }
    }
  }

  // ---- the reaper of aesdsocket.c ----

  ghost predicate AllFreed(s: seq<Node>)
    reads s
  {
    forall i {:trigger s[i].freed} :: 0 <= i < |s| ==> s[i].freed
  }

  /** One turn of the loop, at position `i` of the queue: take the successor, then remove and free. */
  method Visit(h: Head, item: Node, finished: bool, ghost i: nat, ghost nodes: set<Node>, ghost gone: seq<Node>)
    returns (tmp: Node?)
    requires h.Valid() && i < |h.elems| && h.elems[i] == item
    requires forall x :: x in h.elems ==> x in nodes
    requires AllFreed(gone)
    modifies h, nodes
    ensures h.Valid() && h.elems == old(if finished then h.elems[..i] + h.elems[i + 1..] else h.elems)
    ensures tmp == old(NodeAt(h.elems, i + 1))
    ensures AllFreed(if finished then gone + [item] else gone)
  {
    tmp := item.Next();
    if finished {
      h.Remove(item, i);
      item.Free();
    }
  }

  /** The same turn, as a step of the pass over the queue `s` that the reaper started with. */
  method Turn(h: Head, item: Node, finished: bool, ghost s: seq<Node>, ghost flags: seq<bool>, ghost k: nat,
              ghost nodes: set<Node>)
    returns (tmp: Node?)
    requires k < |s| == |flags| && item == s[k] && finished == flags[k]
    requires h.Valid() && h.elems == After(s, flags, k)
    requires forall x :: x in s ==> x in nodes
    requires AllFreed(Select(s, flags, true, k))
    modifies h, nodes
    ensures h.Valid() && h.elems == After(s, flags, k + 1)
    ensures tmp == NodeAt(s, k + 1)
    ensures AllFreed(Select(s, flags, true, k + 1))
  {
    AfterStep(s, flags, k);
    AfterFrom(s, flags, k);
    ghost var gone := Select(s, flags, true, k);
    tmp := Visit(h, item, finished, |Select(s, flags, false, k)|, nodes, gone);
    assert Select(s, flags, true, k + 1) == if finished then gone + [item] else gone;
  }

  /**
   * The reaper: TAILQ_FOREACH_SAFE removing and freeing the records of finished threads on the
   * way. Workers may finish while it runs: finished[i] is what record i's flag says when the
   * loop comes to it. No record is looked at after it is freed.
   */
  method Reap(h: Head, finished: seq<bool>, ghost nodes: set<Node>) returns (reaped: seq<Node>)
    requires h.Valid() && |finished| == |h.elems|
    requires forall x :: x in h.elems ==> x in nodes
    modifies h, nodes
    ensures h.Valid()
    ensures h.elems == Select(old(h.elems), finished, false, |finished|)
    ensures reaped == Select(old(h.elems), finished, true, |finished|)
    ensures AllFreed(reaped)
  {
    ghost var s := h.elems;
    reaped := [];
    var k := 0;
    var item := h.first;
    AfterEnds(s, finished);
    while item != null
      invariant k <= |s| && item == NodeAt(s, k)
      invariant h.Valid()
      invariant h.elems == After(s, finished, k)
      invariant reaped == Select(s, finished, true, k)
      invariant AllFreed(Select(s, finished, true, k))
      decreases |s| - k
    {
      var node: Node, flag := item, finished[k];
      item := Turn(h, node, flag, s, finished, k, nodes);
      if flag {
        reaped := reaped + [node];
      }
      k := k + 1;
    }
    assert k == |s|;
  }
}
