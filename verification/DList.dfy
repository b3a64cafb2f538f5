// The doubly linked list of real nodes, as its writer updates it and iterates over it.
module DList {
  import opened Chains

  // RcuDlistHead: an element, or the head of a list. A fresh one is an empty list (rcuDlistInit).
  class DNode {
    var next: DNode
    var prev: DNode

    constructor ()
      ensures next == this && prev == this && Ring(this, [])
    {
      next := this;
      prev := this;
      new;
      assert LinkAt(this, [], 0);
    }
  }

  // Position i of the ring: the head stands before the first and behind the last element.
  function At(l: DNode, c: seq<DNode>, i: int): DNode {
    if 0 <= i < |c| then c[i] else l
  }

  ghost predicate LinkAt(l: DNode, c: seq<DNode>, i: int)
    reads l, c
  {
    At(l, c, i - 1).next == At(l, c, i) && At(l, c, i).prev == At(l, c, i - 1)
  }

  // The list behind head l is exactly c, read forward by next and backward by prev.
  ghost predicate Ring(l: DNode, c: seq<DNode>)
    reads l, c
  {
    l !in c && Distinct(c) && forall i :: 0 <= i <= |c| ==> LinkAt(l, c, i)
  }

  // rcuDlistEmpty
  method Empty(l: DNode, ghost c: seq<DNode>) returns (empty: bool)
    requires Ring(l, c)
    ensures empty <==> c == []
  {
    assert LinkAt(l, c, 0);
    return l.next == l;
  }

  // rcuDlistAddBetween
  method AddBetween(prev: DNode, next: DNode, newElem: DNode, ghost l: DNode, ghost c: seq<DNode>, ghost i: nat)
    requires Ring(l, c) && i <= |c| && prev == At(l, c, i - 1) && next == At(l, c, i)
    requires newElem != l && newElem !in c
    modifies prev`next, next`prev, newElem
    ensures Ring(l, Inserted(c, i, newElem))
  {
    newElem.next := next;
    newElem.prev := prev;
    prev.next := newElem;
    next.prev := newElem;
    ghost var d := Inserted(c, i, newElem);
    forall j | 0 <= j <= |d| ensures LinkAt(l, d, j) {
      assert j < i ==> old(LinkAt(l, c, j));
      assert j > i + 1 ==> old(LinkAt(l, c, j - 1));
    }
  }

  // rcuDlistRemoveBetween: the removed element keeps both its links.
  method RemoveBetween(prev: DNode, next: DNode, ghost l: DNode, ghost c: seq<DNode>, ghost i: nat)
    requires Ring(l, c) && i < |c| && prev == At(l, c, i - 1) && next == At(l, c, i + 1)
    modifies prev`next, next`prev
    ensures Ring(l, Without(c, i)) && c[i].next == old(c[i].next) && c[i].prev == old(c[i].prev)
  {
    prev.next := next;
    next.prev := prev;
    ghost var d := Without(c, i);
    forall j | 0 <= j <= |d| ensures LinkAt(l, d, j) {
      assert j < i ==> old(LinkAt(l, c, j));
      assert j > i ==> old(LinkAt(l, c, j + 1));
    }
  }

  // rcuDlistInsertAfter: behind position i - 1
  method InsertAfter(pos: DNode, newElem: DNode, ghost l: DNode, ghost c: seq<DNode>, ghost i: nat)
    requires Ring(l, c) && i <= |c| && pos == At(l, c, i - 1) && newElem != l && newElem !in c
    modifies l, c, newElem
    ensures Ring(l, Inserted(c, i, newElem))
  {
    assert LinkAt(l, c, i);
    AddBetween(pos, pos.next, newElem, l, c, i);
  }

  // rcuDlistInsertBefore: in front of position i
  method InsertBefore(pos: DNode, newElem: DNode, ghost l: DNode, ghost c: seq<DNode>, ghost i: nat)
    requires Ring(l, c) && i <= |c| && pos == At(l, c, i) && newElem != l && newElem !in c
    modifies l, c, newElem
    ensures Ring(l, Inserted(c, i, newElem))
  {
    assert LinkAt(l, c, i);
    AddBetween(pos.prev, pos, newElem, l, c, i);
  }

  // rcuDlistAppend
  method Append(l: DNode, newElem: DNode, ghost c: seq<DNode>)
    requires Ring(l, c) && newElem != l && newElem !in c
    modifies l, c, newElem
    ensures Ring(l, c + [newElem])
  {
    InsertBefore(l, newElem, l, c, |c|);
    assert Inserted(c, |c|, newElem) == c + [newElem];
  }

  // rcuDlistPrepend
  method Prepend(l: DNode, newElem: DNode, ghost c: seq<DNode>)
    requires Ring(l, c) && newElem != l && newElem !in c
    modifies l, c, newElem
    ensures Ring(l, [newElem] + c)
  {
    InsertAfter(l, newElem, l, c, 0);
    assert Inserted(c, 0, newElem) == [newElem] + c;
  }

  // rcuDlistRemove
  method Remove(elem: DNode, ghost l: DNode, ghost c: seq<DNode>, ghost i: nat)
    requires Ring(l, c) && i < |c| && elem == c[i]
    modifies l, c
    ensures Ring(l, Without(c, i)) && elem.next == old(elem.next) && elem.prev == old(elem.prev)
  {
    assert LinkAt(l, c, i) && LinkAt(l, c, i + 1);
    RemoveBetween(elem.prev, elem.next, l, c, i);
  }

  // ----- reading -----

  // RcuDlistIter and RcuDlistRIter
  class Iter {
    var pos: DNode

    // rcuDlistBegin
    constructor Begin(l: DNode)
      ensures pos == l.next
    {
      pos := l.next;
    }

    // rcuDlistRBegin
    constructor RBegin(l: DNode)
      ensures pos == l.prev
    {
      pos := l.prev;
    }

    predicate IsEnd(l: DNode)
      reads this
    {
      pos == l
    }

    method Advance()
      modifies this
      ensures pos == old(pos.next)
    {
      pos := pos.next;
    }

    method RAdvance()
      modifies this
      ensures pos == old(pos.prev)
    {
      pos := pos.prev;
    }
  }

  // A forward pass meets the elements in list order ...
  method ReadForward(l: DNode, ghost c: seq<DNode>) returns (visited: seq<DNode>)
    requires Ring(l, c)
    ensures visited == c
  {
    assert LinkAt(l, c, 0);
    var it := new Iter.Begin(l);
    visited := [];
    while !it.IsEnd(l)
      invariant |visited| <= |c| && visited == c[..|visited|] && it.pos == At(l, c, |visited|)
      decreases |c| - |visited|
    {
      assert LinkAt(l, c, |visited| + 1);
      visited := visited + [it.pos];
      it.Advance();
    }
  }

  // ... and a reverse pass in exactly the reverse order.
  method ReadBackward(l: DNode, ghost c: seq<DNode>) returns (visited: seq<DNode>)
    requires Ring(l, c)
    ensures visited == Reversed(c)
  {
    assert LinkAt(l, c, |c|);
    var it := new Iter.RBegin(l);
    visited := [];
    ghost var i := |c|;
    assert c[i..] == [];
    while !it.IsEnd(l)
      invariant 0 <= i <= |c| && visited == Reversed(c[i..]) && it.pos == At(l, c, i - 1)
      decreases i
    {
      assert LinkAt(l, c, i - 1) && c[i - 1..] == [c[i - 1]] + c[i..];
      visited, i := visited + [it.pos], i - 1;
      it.RAdvance();
    }
    assert c[0..] == c;
  }

  // ----- erasing while iterating -----

  // The elements of c that are not chosen, in order.
  function Complement<T>(c: seq<T>, chosen: T -> bool): seq<T> {
    if c == [] then [] else (if chosen(c[0]) then [] else [c[0]]) + Complement(c[1..], chosen)
  }

  lemma {:induction false} ComplementConcat<T>(a: seq<T>, b: seq<T>, chosen: T -> bool)
    ensures Complement(a + b, chosen) == Complement(a, chosen) + Complement(b, chosen)
  {
    if a == [] {
      assert a + b == b;
    } else {
      assert (a + b)[1..] == a[1..] + b;
      ComplementConcat(a[1..], b, chosen);
    }
  }

  lemma {:induction false} ComplementMember<T>(c: seq<T>, chosen: T -> bool, x: T)
    ensures x in Complement(c, chosen) <==> x in c && !chosen(x)
  {
    if c != [] {
      ComplementMember(c[1..], chosen, x);
      assert c == [c[0]] + c[1..];
    }
  }

  // RcuDlistSafeIter: remembers the following element before the current one can go.
  class SafeIter {
    var pos: DNode
    var next: DNode

    // rcuDlistSafeBegin
    constructor (l: DNode)
      ensures pos == l.next && next == l.next.next
    {
      pos := l.next;
      next := l.next.next;
    }

    predicate IsEnd(l: DNode)
      reads this
    {
      pos == l
    }

    // rcuDlistSafeAdvance
    method Advance()
      modifies this
      ensures pos == old(next) && next == old(next).next
    {
      pos := next;
      next := pos.next;
    }

    // rcuDlistSafeRemoveIt
    method RemoveIt(ghost l: DNode, ghost c: seq<DNode>, ghost i: nat)
      requires Ring(l, c) && i < |c| && pos == c[i]
      modifies l, c
      ensures Ring(l, Without(c, i)) && pos.next == old(pos.next) && pos.prev == old(pos.prev)
    {
      Remove(pos, l, c, i);
    }
  }

  // RcuDlistSafeRIter
  class SafeRIter {
    var pos: DNode
    var prev: DNode

    // rcuDlistSafeRBegin
    constructor (l: DNode)
      ensures pos == l.prev && prev == l.prev.prev
    {
      pos := l.prev;
      prev := l.prev.prev;
    }

    predicate IsEnd(l: DNode)
      reads this
    {
      pos == l
    }

    // rcuDlistSafeRAdvance
    method Advance()
      modifies this
      ensures pos == old(prev) && prev == old(prev).prev
    {
      pos := prev;
      prev := pos.prev;
    }

    // rcuDlistSafeRRemoveIt
    method RemoveIt(ghost l: DNode, ghost c: seq<DNode>, ghost i: nat)
      requires Ring(l, c) && i < |c| && pos == c[i]
      modifies l, c
      ensures Ring(l, Without(c, i)) && pos.next == old(pos.next) && pos.prev == old(pos.prev)
    {
      Remove(pos, l, c, i);
    }
  }

  lemma RingAt(l: DNode, c: seq<DNode>, i: nat)
    requires Ring(l, c) && i <= |c|
    ensures LinkAt(l, c, i)
  {
  }

  lemma Shift<T>(a: seq<T>, b: seq<T>)
    requires b != []
    ensures (a + [b[0]]) + b[1..] == a + b
  {
  }

  lemma RingStart(l: DNode, c: seq<DNode>)
    requires Ring(l, c)
    ensures l.next == (if c == [] then l else c[0]) && (c != [] ==> l.next.next == At(l, c, 1))
    ensures l.prev == At(l, c, |c| - 1) && (c != [] ==> l.prev.prev == At(l, c, |c| - 2))
  {
    RingAt(l, c, 0);
    RingAt(l, c, |c|);
    if c != [] {
      RingAt(l, c, 1);
      RingAt(l, c, |c| - 1);
    }
  }

  // One turn of a safe forward pass: kept is behind the iterator, rest still before it.
  method EraseStep(it: SafeIter, l: DNode, chosen: DNode -> bool, ghost kept: seq<DNode>, ghost rest: seq<DNode>)
    returns (ghost kept': seq<DNode>)
    requires rest != [] && Ring(l, kept + rest) && it.pos == rest[0] && it.next == At(l, rest, 1)
    modifies it, l, kept + rest
    ensures kept' == kept + Complement([rest[0]], chosen) && Ring(l, kept' + rest[1..])
    ensures it.pos == (if |rest| > 1 then rest[1] else l) && (|rest| > 1 ==> it.next == At(l, rest[1..], 1))
  {
    hide Ring;
    kept' := kept;
    ghost var d := kept + rest;
    assert d[|kept|] == rest[0];
    if chosen(it.pos) {
      it.RemoveIt(l, d, |kept|);
      assert Without(d, |kept|) == kept + rest[1..];
    } else {
      kept' := kept + [rest[0]];
      assert d == kept' + rest[1..];
    }
    if |rest| > 1 { RingAt(l, kept' + rest[1..], |kept'| + 1); }
    it.Advance();
  }

  // A whole safe pass that removes the chosen elements.
  method EraseForward(l: DNode, chosen: DNode -> bool, ghost c: seq<DNode>)
    requires Ring(l, c)
    modifies l, c
    ensures Ring(l, Complement(c, chosen))
  {
    hide Ring, LinkAt, Distinct, At;
    RingStart(l, c);
    var it := new SafeIter(l);
    ghost var done, kept, rest := [], [], c;
    assert kept + rest == c && done + rest == c && Complement(done, chosen) == [];
    hide Complement;
    while !it.IsEnd(l)
      invariant done + rest == c && kept == Complement(done, chosen) && Ring(l, kept + rest)
      invariant it.pos == (if rest == [] then l else rest[0]) && (rest != [] ==> it.next == At(l, rest, 1))
      decreases |rest|
    {
      StaysInList(kept, done, rest, c, chosen);
      Shift(done, rest);
      ComplementConcat(done, [rest[0]], chosen);
      kept := EraseStep(it, l, chosen, kept, rest);
      done, rest := done + [rest[0]], rest[1..];
    }
    EndOfList(l, rest, kept + rest);
    assert kept + [] == kept && done + [] == done;
  }

  method EraseStepBackward(it: SafeRIter, l: DNode, chosen: DNode -> bool, ghost rest: seq<DNode>,
                           ghost kept: seq<DNode>)
    returns (ghost kept': seq<DNode>)
    requires rest != [] && Ring(l, rest + kept) && it.pos == Last(rest) && it.prev == At(l, rest, |rest| - 2)
    modifies it, l, rest + kept
    ensures kept' == Complement([Last(rest)], chosen) + kept && Ring(l, rest[..|rest| - 1] + kept')
    ensures it.pos == At(l, rest, |rest| - 2) && (|rest| > 1 ==> it.prev == At(l, rest, |rest| - 3))
  {
    hide Ring;
    kept' := kept;
    ghost var d, i := rest + kept, |rest| - 1;
    assert d[i] == rest[i];
    if chosen(it.pos) {
      it.RemoveIt(l, d, i);
      assert Without(d, i) == rest[..i] + kept;
    } else {
      kept' := [rest[i]] + kept;
      assert d == rest[..i] + kept';
    }
    if i > 0 { RingAt(l, rest[..i] + kept', i - 1); }
    it.Advance();
  }

  method EraseBackward(l: DNode, chosen: DNode -> bool, ghost c: seq<DNode>)
    requires Ring(l, c)
    modifies l, c
    ensures Ring(l, Complement(c, chosen))
  {
    hide Ring, LinkAt;
    RingStart(l, c);
    var it := new SafeRIter(l);
    ghost var rest, kept, done := c, [], [];
    assert rest + kept == c && rest + done == c;
    while !it.IsEnd(l)
      invariant rest + done == c && kept == Complement(done, chosen) && Ring(l, rest + kept)
      invariant it.pos == At(l, rest, |rest| - 1) && (rest != [] ==> it.prev == At(l, rest, |rest| - 2))
      decreases |rest|
    {
      StaysInList(kept, done, rest, c, chosen);
      ComplementConcat([Last(rest)], done, chosen);
      kept := EraseStepBackward(it, l, chosen, rest, kept);
      rest, done := rest[..|rest| - 1], [Last(rest)] + done;
    }
    EndOfList(l, rest, rest + kept);
    assert [] + kept == kept && [] + done == done;
  }

  // The nodes a pass can still touch are nodes of the original list.
  lemma StaysInList(kept: seq<DNode>, done: seq<DNode>, rest: seq<DNode>, c: seq<DNode>, chosen: DNode -> bool)
    requires kept == Complement(done, chosen) && (c == done + rest || c == rest + done)
    ensures forall j {:trigger (kept + rest)[j]} :: 0 <= j < |kept + rest| ==> (kept + rest)[j] in c
    ensures forall j {:trigger (rest + kept)[j]} :: 0 <= j < |rest + kept| ==> (rest + kept)[j] in c
  {
    forall x | x in kept ensures x in c { ComplementMember(done, chosen, x); }
  }

  // An iterator on the head is past the last element.
  lemma EndOfList(l: DNode, rest: seq<DNode>, d: seq<DNode>)
    requires Ring(l, d) && (forall x :: x in rest ==> x in d) && (rest != [] ==> rest[0] == l || Last(rest) == l)
    ensures rest == []
  {
  }
}
