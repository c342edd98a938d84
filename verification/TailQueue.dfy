/** The QTAILQ macros of qemu-queue.h. A back link is the address of the pointer that points at the
    element: the head's first pointer, or the next pointer of the element before it. */
module TailQueue {
  import opened Links
  import opened Sequences

  type Loc = Links.Loc<Head, Node>

  class Node {
    var next: Node?
    var prev: Loc

    constructor (prev: Loc)
      ensures this.next == null && this.prev == prev
    {
      this.next, this.prev := null, prev;
    }
  }

  class Head {
    var first: Node?
    var last: Loc

    /** QTAILQ_INIT */
    constructor ()
      ensures IsQueue(this, [])
    {
      first := null;
      last := FirstOf(this);
    }
  }

  function Owner(l: Loc): object {
    match l case FirstOf(h) => h case NextOf(n) => n
  }

  /** `*l` */
  function Load(l: Loc): Node?
    reads Owner(l)
  {
    match l case FirstOf(h) => h.first case NextOf(n) => n.next
  }

  /** `*l = n` */
  method Store(l: Loc, n: Node?)
    modifies if l.FirstOf? then {l.head} else {}, if l.NextOf? then {l.node} else {}
    ensures l.FirstOf? ==> l.head.first == n && l.head.last == old(l.head.last)
    ensures l.NextOf? ==> l.node.next == n && l.node.prev == old(l.node.prev)
  {
    match l
    case FirstOf(h) => h.first := n;
    case NextOf(m) => m.next := n;
  }

  function NodeAt(s: seq<Node>, i: nat): Node? {
    if i < |s| then s[i] else null
  }

  /** Element `i` points forward at the next element, and back at the pointer that points at it. */
  ghost predicate Linked(head: Head, s: seq<Node>, i: nat)
    requires i < |s|
    reads s
  {
    s[i].next == NodeAt(s, i + 1) && s[i].prev == LocAt(head, s, i)
  }

  /** The pointers under `head` spell out exactly `s`: forward links, back links and the last pointer. */
  ghost predicate IsQueue(head: Head, s: seq<Node>)
    reads head, s
  {
    && Distinct(s)
    && head.first == NodeAt(s, 0)
    && head.last == LocAt(head, s, |s|)
    && forall i :: 0 <= i < |s| ==> Linked(head, s, i)
  }

  // ----- Access -----

  /** What casting the address of a next pointer to a queue head and reading its second word finds:
      the word after it, which is the head's last pointer or the element's back link. */
  function SecondWord(l: Loc): Loc
    reads Owner(l)
  {
    match l case FirstOf(h) => h.last case NextOf(n) => n.prev
  }

  /** QTAILQ_LAST */
  ghost function Last(head: Head): Node?
    reads head, Owner(head.last), Owner(SecondWord(head.last))
  {
    Load(SecondWord(head.last))
  }

  /** QTAILQ_PREV */
  ghost function Prev(elm: Node): Node?
    reads elm, Owner(elm.prev), Owner(SecondWord(elm.prev))
  {
    Load(SecondWord(elm.prev))
  }

  /** Every pointer of the queue points at the element at its position, the last one at nothing. */
  lemma LoadAt(head: Head, s: seq<Node>, i: nat)
    requires IsQueue(head, s) && i <= |s|
    ensures Load(LocAt(head, s, i)) == NodeAt(s, i)
  {
    if i > 0 { assert Linked(head, s, i - 1); }
  }

  /** The punned access really finds the last element, or nothing in an empty queue. */
  lemma LastIsLast(head: Head, s: seq<Node>)
    requires IsQueue(head, s)
    ensures Last(head) == if s == [] then null else s[|s| - 1]
  {
    if s != [] {
      assert Linked(head, s, |s| - 1);
      LoadAt(head, s, |s| - 1);
    }
  }

  /** The punned access really finds the element before. Before the first there is nothing: there it reads
      the head's last pointer, which points at the null that ends the queue. */
  lemma PrevIsBefore(head: Head, s: seq<Node>, i: nat)
    requires IsQueue(head, s) && i < |s|
    ensures Prev(s[i]) == if i == 0 then null else s[i - 1]
  {
    assert Linked(head, s, i);
    if i == 0 {
      LoadAt(head, s, |s|);
    } else {
      assert Linked(head, s, i - 1);
      LoadAt(head, s, i - 1);
    }
  }

  /** The pointers determine the contents. */
  lemma {:induction false} ContentsAgree(head: Head, s: seq<Node>, t: seq<Node>, i: nat)
    requires IsQueue(head, s) && IsQueue(head, t) && i <= |s| && i <= |t|
    ensures s[..i] == t[..i] && NodeAt(s, i) == NodeAt(t, i)
  {
    if i > 0 {
      ContentsAgree(head, s, t, i - 1);
      assert Linked(head, s, i - 1) && Linked(head, t, i - 1);
      assert s[..i] == s[..i - 1] + [s[i - 1]] && t[..i] == t[..i - 1] + [t[i - 1]];
    }
  }

  lemma ContentsAreUnique(head: Head, s: seq<Node>, t: seq<Node>)
    requires IsQueue(head, s) && IsQueue(head, t)
    ensures s == t
  {
    var n := if |s| < |t| then |s| else |t|;
    ContentsAgree(head, s, t, n);
  }

  // ----- Updates -----

  /** QTAILQ_INSERT_HEAD */
  method InsertHead(head: Head, elm: Node, ghost s: seq<Node>)
    requires IsQueue(head, s) && elm !in s
    modifies head, elm, if s == [] then {} else {s[0]}
    ensures IsQueue(head, [elm] + s)
  {
    assert s != [] ==> Linked(head, s, 0);
    elm.next := head.first;
    if head.first != null {
      head.first.prev := NextOf(elm);
    } else {
      head.last := NextOf(elm);
    }
    head.first := elm;
    elm.prev := FirstOf(head);
    ghost var t := [elm] + s;
    forall i | 0 <= i < |t| ensures Linked(head, t, i) {
      if i > 0 { assert old(Linked(head, s, i - 1)); }
    }
  }

  /** QTAILQ_INSERT_TAIL */
  method InsertTail(head: Head, elm: Node, ghost s: seq<Node>)
    requires IsQueue(head, s) && elm !in s
    modifies head, elm, if s == [] then {} else {s[|s| - 1]}
    ensures IsQueue(head, s + [elm])
  {
    elm.next := null;
    elm.prev := head.last;
    Store(head.last, elm);
    head.last := NextOf(elm);
    ghost var t := s + [elm];
    forall i | 0 <= i < |t| ensures Linked(head, t, i) {
      if i < |s| { assert old(Linked(head, s, i)); }
    }
  }

  /** QTAILQ_INSERT_AFTER */
  method InsertAfter(head: Head, listelm: Node, elm: Node, ghost s: seq<Node>, ghost k: nat)
    requires IsQueue(head, s) && elm !in s && k < |s| && s[k] == listelm
    modifies head, elm, listelm, if k + 1 < |s| then {s[k + 1]} else {}
    ensures IsQueue(head, s[..k + 1] + [elm] + s[k + 1..])
  {
    assert Linked(head, s, k) && (k + 1 < |s| ==> Linked(head, s, k + 1));
    elm.next := listelm.next;
    if elm.next != null {
      elm.next.prev := NextOf(elm);
    } else {
      head.last := NextOf(elm);
    }
    listelm.next := elm;
    elm.prev := NextOf(listelm);
    ghost var t := s[..k + 1] + [elm] + s[k + 1..];
    forall i | 0 <= i < |t| ensures Linked(head, t, i) {
      if i <= k { assert old(Linked(head, s, i)); }
      if i > k + 1 { assert old(Linked(head, s, i - 1)); }
    }
  }

  /** QTAILQ_INSERT_BEFORE: the head is not needed, the back link finds it. */
  method InsertBefore(ghost head: Head, listelm: Node, elm: Node, ghost s: seq<Node>, ghost k: nat)
    requires IsQueue(head, s) && elm !in s && k < |s| && s[k] == listelm
    modifies head, elm, listelm, if k > 0 then {s[k - 1]} else {}
    ensures IsQueue(head, s[..k] + [elm] + s[k..])
  {
    assert Linked(head, s, k) && (k > 0 ==> Linked(head, s, k - 1));
    elm.prev := listelm.prev;
    elm.next := listelm;
    Store(listelm.prev, elm);
    listelm.prev := NextOf(elm);
    ghost var t := s[..k] + [elm] + s[k..];
    forall i | 0 <= i < |t| ensures Linked(head, t, i) {
      if i < k { assert old(Linked(head, s, i)); }
      if i > k { assert old(Linked(head, s, i - 1)); }
    }
  }

  /** QTAILQ_REMOVE: the removed element keeps its forward link. */
  method Remove(head: Head, elm: Node, ghost s: seq<Node>, ghost k: nat)
    requires IsQueue(head, s) && k < |s| && s[k] == elm
    modifies head, if k > 0 then {s[k - 1]} else {}, if k + 1 < |s| then {s[k + 1]} else {}
    ensures IsQueue(head, s[..k] + s[k + 1..])
    ensures elm.next == NodeAt(s, k + 1)
  {
    assert Linked(head, s, k) && (k > 0 ==> Linked(head, s, k - 1)) && (k + 1 < |s| ==> Linked(head, s, k + 1));
    if elm.next != null {
      elm.next.prev := elm.prev;
    } else {
      head.last := elm.prev;
    }
    Store(elm.prev, elm.next);
    ghost var t := s[..k] + s[k + 1..];
    forall i | 0 <= i < |t| ensures Linked(head, t, i) {
      if i < k { assert old(Linked(head, s, i)); }
      if i >= k { assert old(Linked(head, s, i + 1)); }
    }
  }

  // ----- Traversals -----

  function Reverse<T>(s: seq<T>): (r: seq<T>)
    ensures |r| == |s|
  {
    if s == [] then [] else [s[|s| - 1]] + Reverse(s[..|s| - 1])
  }

  lemma {:induction false} ReverseAt<T>(s: seq<T>, i: nat)
    requires i < |s|
    ensures Reverse(s)[i] == s[|s| - 1 - i]
  {
    if i > 0 { ReverseAt(s[..|s| - 1], i - 1); }
  }

  /** QTAILQ_FOREACH visits the queue in order. */
  method Foreach(head: Head, ghost s: seq<Node>) returns (visited: seq<Node>)
    requires IsQueue(head, s)
    ensures visited == s
  {
    visited := [];
    var v := head.first;
    while v != null
      invariant |visited| <= |s| && visited == s[..|visited|] && v == NodeAt(s, |visited|)
      decreases |s| - |visited|
    {
      assert Linked(head, s, |visited|);
      visited := visited + [v];
      v := v.next;
    }
  }

  /** QTAILQ_FOREACH_REVERSE visits it backwards. */
  method ForeachReverse(head: Head, ghost s: seq<Node>) returns (visited: seq<Node>)
    requires IsQueue(head, s)
    ensures visited == Reverse(s)
  {
    visited := [];
    LastIsLast(head, s);
    var v := Load(SecondWord(head.last));
    ghost var i := |s|;
    assert s[..i] == s;
    while v != null
      invariant 0 <= i <= |s| && v == (if i == 0 then null else s[i - 1])
      invariant visited + Reverse(s[..i]) == Reverse(s)
      decreases i
    {
      PrevIsBefore(head, s, i - 1);
      assert s[..i][..i - 1] == s[..i - 1];
      visited := visited + [v];
      v := Load(SecondWord(v.prev));
      i := i - 1;
    }
  }

  function Without(s: seq<Node>, drop: set<Node>): seq<Node> {
    if s == [] then []
    else if s[0] in drop then Without(s[1..], drop)
    else [s[0]] + Without(s[1..], drop)
  }

  lemma SplitAt(kept: seq<Node>, rest: seq<Node>)
    requires rest != []
    ensures var q := kept + rest;
      && q[|kept|] == rest[0] && q[..|kept|] + q[|kept| + 1..] == kept + rest[1..]
      && q == kept + [rest[0]] + rest[1..]
      && NodeAt(q, |kept| + 1) == NodeAt(rest[1..], 0)
  {
    var q := kept + rest;
    assert q[..|kept|] == kept && q[|kept| + 1..] == rest[1..];
  }

  lemma KeptGrows(kept: seq<Node>, rest: seq<Node>, drop: set<Node>)
    requires rest != []
    ensures kept + Without(rest, drop)
         == (if rest[0] in drop then kept else kept + [rest[0]]) + Without(rest[1..], drop)
  {
    var w := Without(rest[1..], drop);
    assert kept + ([rest[0]] + w) == kept + [rest[0]] + w;
  }

  ghost predicate Within(q: seq<Node>, all: set<Node>) {
    forall i :: 0 <= i < |q| ==> q[i] in all
  }

  lemma WithinRemoved(q: seq<Node>, k: nat, all: set<Node>)
    requires Within(q, all) && k < |q|
    ensures Within(q[..k] + q[k + 1..], all)
  {}

  /** QTAILQ_FOREACH_SAFE with a body that removes the elements in `drop`. */
  method ForeachSafeRemove(head: Head, drop: set<Node>, ghost s: seq<Node>, ghost all: set<Node>)
    requires IsQueue(head, s) && Within(s, all)
    modifies head, all
    ensures IsQueue(head, Without(s, drop))
  {
    var v := head.first;
    ghost var kept: seq<Node>, rest: seq<Node> := [], s;
    ghost var goal := Without(s, drop);
    assert kept + rest == s && kept + Without(rest, drop) == goal;
    while v != null
      invariant Visiting(head, v, kept, rest, all) && kept + Without(rest, drop) == goal
      decreases |rest|
    {
      KeptGrows(kept, rest, drop);
      v, kept := VisitOne(head, v, drop, kept, rest, all);
      rest := rest[1..];
    }
    AllVisited(head, kept, rest, drop, all);
  }

  /** The queue is what was kept so far and the rest, which begins at `v`. */
  ghost predicate Visiting(head: Head, v: Node?, kept: seq<Node>, rest: seq<Node>, all: set<Node>)
    reads head, kept + rest
  {
    IsQueue(head, kept + rest) && Within(kept + rest, all) && v == NodeAt(rest, 0)
  }

  lemma AllVisited(head: Head, kept: seq<Node>, rest: seq<Node>, drop: set<Node>, all: set<Node>)
    requires Visiting(head, null, kept, rest, all)
    ensures IsQueue(head, kept + Without(rest, drop))
  {
    assert rest == [];
  }

  /** One turn of it: the next pointer is saved before the body removes the element or not. */
  method VisitOne(head: Head, v: Node, drop: set<Node>, ghost before: seq<Node>, ghost rest: seq<Node>,
                  ghost all: set<Node>)
    returns (next: Node?, ghost kept: seq<Node>)
    requires Visiting(head, v, before, rest, all)
    modifies head, all
    ensures rest != [] && kept == if v in drop then before else before + [v]
    ensures Visiting(head, next, kept, rest[1..], all)
  {
    ghost var q := before + rest;
    SplitAt(before, rest);
    assert Linked(head, q, |before|);
    next := v.next;
    kept := before;
    if v in drop {
      WithinRemoved(q, |before|, all);
      Remove(head, v, q, |before|);
    } else {
      kept := before + [v];
    }
  }
}
