/** The QSIMPLEQ macros of qemu-queue.h: forward links only, and the address of the last next pointer. */
module SimpleQueue {
  import opened Links
  import opened Sequences

  type Loc = Links.Loc<Head, Node>

  class Node {
    var next: Node?

    constructor ()
      ensures next == null
    {
      next := null;
    }
  }

  class Head {
    var first: Node?
    var last: Loc

    constructor ()
      ensures IsQueue(this, [])
    {
      first := null;
      last := FirstOf(this);
    }
  }

  /** `*l = n` */
  method Store(l: Loc, n: Node?)
    modifies if l.FirstOf? then {l.head} else {}, if l.NextOf? then {l.node} else {}
    ensures l.FirstOf? ==> l.head.first == n && l.head.last == old(l.head.last)
    ensures l.NextOf? ==> l.node.next == n
  {
    match l
    case FirstOf(h) => h.first := n;
    case NextOf(m) => m.next := n;
  }

  function NodeAt(s: seq<Node>, i: nat): Node? {
    if i < |s| then s[i] else null
  }

  ghost predicate Linked(s: seq<Node>, i: nat)
    requires i < |s|
    reads s
  {
    s[i].next == NodeAt(s, i + 1)
  }

  /** The pointers under `head` spell out exactly `s`, and the last pointer is on the last next field. */
  ghost predicate IsQueue(head: Head, s: seq<Node>)
    reads head, s
  {
    && Distinct(s)
    && head.first == NodeAt(s, 0)
    && head.last == LocAt(head, s, |s|)
    && forall i :: 0 <= i < |s| ==> Linked(s, i)
  }

  /** QSIMPLEQ_INIT */
  method Init(head: Head)
    modifies head
    ensures IsQueue(head, [])
  {
    head.first := null;
    head.last := FirstOf(head);
  }

  /** QSIMPLEQ_LAST: the element whose next field is the last pointer. */
  method Last(head: Head, ghost s: seq<Node>) returns (last: Node?)
    requires IsQueue(head, s)
    ensures last == if s == [] then null else s[|s| - 1]
  {
    if head.first == null { return null; }
    match head.last
    case FirstOf(_) => assert false;
    case NextOf(n) => last := n;
  }

  /** QSIMPLEQ_INSERT_HEAD */
  method InsertHead(head: Head, elm: Node, ghost s: seq<Node>)
    requires IsQueue(head, s) && elm !in s
    modifies head, elm
    ensures IsQueue(head, [elm] + s)
  {
    elm.next := head.first;
    if elm.next == null { head.last := NextOf(elm); }
    head.first := elm;
    ghost var t := [elm] + s;
    forall i | 0 <= i < |t| ensures Linked(t, i) {
      if i > 0 { assert old(Linked(s, i - 1)); }
    }
  }

  /** QSIMPLEQ_INSERT_TAIL */
  method InsertTail(head: Head, elm: Node, ghost s: seq<Node>)
    requires IsQueue(head, s) && elm !in s
    modifies head, elm, if s == [] then {} else {s[|s| - 1]}
    ensures IsQueue(head, s + [elm])
  {
    elm.next := null;
    Store(head.last, elm);
    head.last := NextOf(elm);
    ghost var t := s + [elm];
    forall i | 0 <= i < |t| ensures Linked(t, i) {
      if i < |s| { assert old(Linked(s, i)); }
    }
  }

  /** QSIMPLEQ_INSERT_AFTER */
  method InsertAfter(head: Head, listelm: Node, elm: Node, ghost s: seq<Node>, ghost k: nat)
    requires IsQueue(head, s) && elm !in s && k < |s| && s[k] == listelm
    modifies head, elm, listelm
    ensures IsQueue(head, s[..k + 1] + [elm] + s[k + 1..])
  {
    assert Linked(s, k);
    elm.next := listelm.next;
    if elm.next == null { head.last := NextOf(elm); }
    listelm.next := elm;
    ghost var t := s[..k + 1] + [elm] + s[k + 1..];
    forall i | 0 <= i < |t| ensures Linked(t, i) {
      if i <= k { assert old(Linked(s, i)); }
      if i > k + 1 { assert old(Linked(s, i - 1)); }
    }
  }

  /** QSIMPLEQ_REMOVE_HEAD */
  method RemoveHead(head: Head, ghost s: seq<Node>)
    requires IsQueue(head, s) && s != []
    modifies head
    ensures IsQueue(head, s[1..])
  {
    assert Linked(s, 0);
    head.first := head.first.next;
    if head.first == null { head.last := FirstOf(head); }
    ghost var t := s[1..];
    forall i | 0 <= i < |t| ensures Linked(t, i) {
      assert old(Linked(s, i + 1));
    }
  }

  /** QSIMPLEQ_REMOVE: walks to the element before `elm`. The walk ends because `elm` is in the queue. */
  method Remove(head: Head, elm: Node, ghost s: seq<Node>, ghost k: nat)
    requires IsQueue(head, s) && k < |s| && s[k] == elm
    modifies head, if k > 0 then {s[k - 1]} else {}
    ensures IsQueue(head, s[..k] + s[k + 1..])
  {
    if head.first == elm {
      RemoveHead(head, s);
      assert s[..k] + s[k + 1..] == s[1..];
      return;
    }
    var curelm := head.first;
    ghost var i := 0;
    while curelm.next != elm
      invariant 0 <= i < k && curelm == s[i]
      decreases k - i
    {
      assert Linked(s, i);
      curelm := curelm.next;
      i := i + 1;
    }
    assert Linked(s, i) && Linked(s, k);
    curelm.next := curelm.next.next;
    if curelm.next == null { head.last := NextOf(curelm); }
    ghost var t := s[..k] + s[k + 1..];
    forall j | 0 <= j < |t| ensures Linked(t, j) {
      if j < k { assert old(Linked(s, j)); }
      if j >= k { assert old(Linked(s, j + 1)); }
    }
  }

  /** QSIMPLEQ_CONCAT */
  method Concat(head1: Head, head2: Head, ghost s1: seq<Node>, ghost s2: seq<Node>)
    requires IsQueue(head1, s1) && IsQueue(head2, s2) && head1 != head2
    requires forall i, j :: 0 <= i < |s1| && 0 <= j < |s2| ==> s1[i] != s2[j]
    modifies head1, head2, if s1 == [] then {} else {s1[|s1| - 1]}
    ensures IsQueue(head1, s1 + s2) && IsQueue(head2, [])
  {
    ghost var t := s1 + s2;
    if head2.first != null {
      Store(head1.last, head2.first);
      head1.last := head2.last;
      Init(head2);
    }
    forall i | 0 <= i < |t| ensures Linked(t, i) {
      if i < |s1| { assert old(Linked(s1, i)); } else { assert old(Linked(s2, i - |s1|)); }
    }
  }
}
