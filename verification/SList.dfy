// Singly linked lists of real nodes, updated in place.
module SList {
  import opened Chains

  // A node of the table; a bucket's list head is one too, and then only its next is used.
  class RNode {
    var hash: nat
    var next: RNode?

    constructor (hash: nat)
      ensures this.hash == hash && next == null
    {
      this.hash := hash;
      next := null;
    }
  }

  function Succ(c: seq<RNode>, i: nat): RNode?
    requires i < |c|
  {
    if i + 1 < |c| then c[i + 1] else null
  }

  function First(c: seq<RNode>): RNode? {
    if c == [] then null else c[0]
  }

  // Every node of c points to its successor, the last one to null.
  ghost predicate Runs(c: seq<RNode>)
    reads c
  {
    forall i {:trigger c[i].next} :: 0 <= i < |c| ==> c[i].next == Succ(c, i)
  }

  // The list behind head is exactly c.
  ghost predicate List(head: RNode, c: seq<RNode>)
    reads head, c
  {
    head !in c && Distinct(c) && head.next == First(c) && Runs(c)
  }

  // rcuSlistFindIf
  method FindIf(list: RNode, predict: RNode -> bool, ghost c: seq<RNode>) returns (p: RNode?, ghost i: nat)
    requires List(list, c)
    ensures i <= |c| && p == (if i < |c| then c[i] else null)
    ensures forall j :: 0 <= j < i ==> !predict(c[j])
    ensures p != null ==> predict(p)
  {
    p, i := list.next, 0;
    while p != null
      invariant i <= |c| && p == (if i < |c| then c[i] else null)
      invariant forall j :: 0 <= j < i ==> !predict(c[j])
      decreases |c| - i
    {
      if predict(p) {
        return;
      }
      p, i := p.next, i + 1;
    }
  }

  // The list itself, or its element i - 1
  function Position(list: RNode, c: seq<RNode>, i: nat): RNode
    requires i <= |c|
  {
    if i == 0 then list else c[i - 1]
  }

  // rcuSlistInsertAfter: pos may be the list itself or any element
  method InsertAfter(pos: RNode, newElem: RNode, ghost list: RNode, ghost c: seq<RNode>, ghost i: nat)
    requires List(list, c) && i <= |c| && pos == Position(list, c, i) && newElem != list && newElem !in c
    modifies pos`next, newElem`next
    ensures List(list, Inserted(c, i, newElem))
  {
    var pNext := pos.next;
    newElem.next := pNext;
    pos.next := newElem;
    ghost var d := Inserted(c, i, newElem);
    forall x | 0 <= x < |d| ensures d[x].next == Succ(d, x) {
      assert d[x] == if x < i then c[x] else if x == i then newElem else c[x - 1];
    }
  }

  // rcuSlistAppendToTail: the walk may start at the list itself or at any element
  method AppendToTail(pos: RNode, newElem: RNode, ghost list: RNode, ghost c: seq<RNode>, ghost start: nat)
    requires List(list, c) && start <= |c| && pos == Position(list, c, start) && newElem != list && newElem !in c
    modifies list`next, newElem`next, c
    ensures List(list, c + [newElem]) && forall n :: n in c ==> n.hash == old(n.hash)
  {
    var p := pos;
    var pNext := p.next;
    ghost var i := start;
    while pNext != null
      invariant i <= |c| && p == Position(list, c, i)
      invariant pNext == (if i < |c| then c[i] else null)
      decreases |c| - i
    {
      p, i := pNext, i + 1;
      pNext := p.next;
    }
    newElem.next := null;
    p.next := newElem;
    forall x | 0 <= x < |c| ensures c[x].next == Succ(c + [newElem], x) {
      assert x + 1 < |c| ==> c[x] != p;
    }
  }

  lemma PathEnds(list: RNode, c: seq<RNode>, path: seq<RNode>)
    requires List(list, c) && path != [] && list.next == path[0]
    requires forall j :: 0 <= j < |path| - 1 ==> path[j].next == path[j + 1]
    ensures Last(path) in c && (path[0] == Last(path) ==> |path| == 1)
  {
    PathIsPrefix(list, c, path, |path| - 1);
  }

  // rcuSlistPrependIfNoMatch. An element that is linked already is not recognised unless it is
  // equivalent to itself.
  method PrependIfNoMatch(list: RNode, newElem: RNode, equiv: (RNode, RNode) -> bool, ghost c: seq<RNode>)
    returns (inserted: bool)
    requires List(list, c) && newElem != list
    modifies list`next, newElem`next
    ensures inserted <==> forall n :: n in c ==> !equiv(n, newElem)
    ensures inserted ==> (List(list, [newElem] + c) <==> newElem !in c)
    ensures inserted ==> list.next == newElem && newElem.next == old(list.next)
    ensures !inserted ==> list.next == old(list.next) && newElem.next == old(newElem.next)
  {
    var pFirst := list.next;
    var p := pFirst;
    ghost var i := 0;
    while p != null
      invariant i <= |c| && p == (if i < |c| then c[i] else null)
      invariant forall j :: 0 <= j < i ==> !equiv(c[j], newElem)
      decreases |c| - i
    {
      if equiv(p, newElem) {
        return false;
      }
      p, i := p.next, i + 1;
    }
    newElem.next := pFirst;
    list.next := newElem;
    if newElem in c {
      NotTwice(newElem, c);
    } else {
      ghost var d := [newElem] + c;
      forall x | 0 <= x < |d| ensures d[x].next == Succ(d, x) {
        assert x > 0 ==> d[x] == c[x - 1] && c[x - 1].next == old(c[x - 1].next) == Succ(c, x - 1);
      }
    }
    return true;
  }

  lemma NotTwice(x: RNode, c: seq<RNode>)
    requires x in c
    ensures !Distinct([x] + c)
  {
    var k :| 0 <= k < |c| && c[k] == x;
    assert ([x] + c)[0] == ([x] + c)[k + 1];
  }

  // Nodes that follow each other from the list head on are how any list behind it begins.
  lemma {:induction false} PathIsPrefix(list: RNode, c: seq<RNode>, path: seq<RNode>, k: nat)
    requires List(list, c) && k < |path| && list.next == path[0]
    requires forall j :: 0 <= j < |path| - 1 ==> path[j].next == path[j + 1]
    ensures k < |c| && forall j :: 0 <= j <= k ==> c[j] == path[j]
  {
    if k > 0 {
      PathIsPrefix(list, c, path, k - 1);
      assert c[k - 1].next == Succ(c, k - 1) && path[k - 1].next == path[k];
    }
  }

  // What rcuSlistAppendIfNoMatch tests: the list head and every element but the last.
  ghost predicate AppendTests(list: RNode, newElem: RNode, equiv: (RNode, RNode) -> bool, c: seq<RNode>) {
    c != [] && (equiv(list, newElem) || exists j :: 0 <= j < |c| - 1 && equiv(c[j], newElem))
  }

  // rcuSlistAppendIfNoMatch. Nothing keeps the caller from passing an element that is linked
  // already: the last one is never tested, and appending it again makes it point to itself.
  method AppendIfNoMatch(list: RNode, newElem: RNode, equiv: (RNode, RNode) -> bool, ghost c: seq<RNode>)
    returns (inserted: bool)
    requires List(list, c) && newElem != list
    modifies list`next, newElem`next, c
    ensures inserted <==> !AppendTests(list, newElem, equiv, c)
    ensures inserted ==> (List(list, c + [newElem]) <==> newElem !in c)
    ensures inserted ==> Position(list, c, |c|).next == newElem
    ensures inserted ==> newElem.next == if c != [] && newElem == Last(c) then newElem else null
    ensures inserted ==> forall n :: n in c && n != newElem && n != Last(c) ==> n.next == old(n.next)
    ensures inserted && c != [] ==> list.next == old(list.next)
    ensures !inserted ==> List(list, c) && newElem.next == old(newElem.next)
    ensures forall n :: n in c ==> n.hash == old(n.hash)
  {
    var p := list;
    var pNext := p.next;
    ghost var i := 0;
    while pNext != null
      invariant i <= |c| && p == Position(list, c, i)
      invariant pNext == (if i < |c| then c[i] else null)
      invariant i > 0 ==> !equiv(list, newElem)
      invariant forall j :: 0 <= j < i - 1 ==> !equiv(c[j], newElem)
      decreases |c| - i
    {
      if equiv(p, newElem) {
        assert i > 0 ==> c[i - 1] == p;
        return false;
      }
      p, i := pNext, i + 1;
      pNext := p.next;
    }
    newElem.next := null;
    p.next := newElem;
    assert newElem in c ==> !Distinct(c + [newElem]) by {
      if newElem in c {
        var k :| 0 <= k < |c| && c[k] == newElem;
        assert (c + [newElem])[k] == (c + [newElem])[|c|];
      }
    }
    if newElem !in c {
      forall x | 0 <= x < |c| ensures c[x].next == Succ(c + [newElem], x) {
        assert x + 1 < |c| ==> c[x] != p;
      }
    }
    return true;
  }

  // A node that points to itself is on no list.
  lemma SelfLinked(list: RNode, c: seq<RNode>, x: RNode)
    requires x.next == x && x in c
    ensures !List(list, c)
  {
    var i :| 0 <= i < |c| && c[i] == x;
    assert Runs(c) ==> c[i].next == Succ(c, i);
  }

  // Its documentation promises an insertion exactly when no element matches. That is what it does
  // if and only if the list is empty, or an element before the last one matches, or the list head
  // passes the test just as the last element does.
  lemma AppendAsDocumented(list: RNode, newElem: RNode, equiv: (RNode, RNode) -> bool, c: seq<RNode>)
    ensures (!AppendTests(list, newElem, equiv, c) <==> forall n :: n in c ==> !equiv(n, newElem))
            <==> (c == [] || (exists j :: 0 <= j < |c| - 1 && equiv(c[j], newElem))
                || (equiv(list, newElem) <==> equiv(Last(c), newElem)))
  {
    assert forall j :: 0 <= j < |c| ==> c[j] in c;
  }

  // An input on which it fails: one element, equivalent to the new one, and a head that is not.
  // The duplicate is appended.
  method AppendDuplicate()
    returns (list: RNode, x: RNode, newElem: RNode, ghost equiv: (RNode, RNode) -> bool, inserted: bool)
    ensures fresh(list) && fresh(x) && fresh(newElem) && x != newElem
    ensures equiv(x, newElem) && !equiv(list, newElem)
    ensures inserted && List(list, [x, newElem])
  {
    list := new RNode(0);
    x := new RNode(7);
    newElem := new RNode(7);
    list.next := x;
    var l := list;
    var sameValue := (a: RNode, b: RNode) => a != l && b != l;
    equiv := sameValue;
    inserted := AppendIfNoMatch(list, newElem, sameValue, [x]);
    assert [x] + [newElem] == [x, newElem];
  }

  // And the same call again with the element it just appended: the last element points to itself.
  method AppendTwice() returns (list: RNode, x: RNode, inserted: bool)
    ensures fresh(list) && fresh(x) && inserted && list.next == x && x.next == x
    ensures forall c :: x in c ==> !List(list, c)
  {
    list := new RNode(0);
    x := new RNode(7);
    var l := list;
    var sameValue := (a: RNode, b: RNode) => a != l && b != l;
    inserted := AppendIfNoMatch(list, x, sameValue, []);
    assert [] + [x] == [x];
    inserted := AppendIfNoMatch(list, x, sameValue, [x]);
    forall c | x in c ensures !List(list, c) {
      SelfLinked(list, c, x);
    }
  }

  // Storing element i's successor into its predecessor takes element i out of the list.
  lemma UnlinkedRuns(list: RNode, c: seq<RNode>, i: nat)
    requires i < |c| && list !in c && Distinct(c)
    requires list.next == if i == 0 then Succ(c, i) else c[0]
    requires forall x :: 0 <= x < |c| ==> c[x].next == if x + 1 == i then Succ(c, i) else Succ(c, x)
    ensures List(list, Without(c, i))
  {
    var c' := Without(c, i);
    forall x | 0 <= x < |c'| ensures c'[x].next == Succ(c', x) {
      assert c'[x] == c[if x < i then x else x + 1];
    }
  }

  // rcuSlistRemoveIf: the removed node keeps its own next, for the readers that are on it.
  method RemoveIf(list: RNode, predict: RNode -> bool, ghost c: seq<RNode>) returns (p: RNode?, ghost i: nat)
    requires List(list, c)
    modifies list`next, c
    ensures i <= |c| && p == (if i < |c| then c[i] else null) && forall n :: n in c ==> n.hash == old(n.hash)
    ensures forall j :: 0 <= j < i ==> !predict(c[j])
    ensures p != null ==> predict(p) && p.next == old(p.next) && List(list, Without(c, i))
    ensures p == null ==> List(list, c)
  {
    var pLast := list;
    p, i := pLast.next, 0;
    while p != null
      invariant i <= |c| && p == (if i < |c| then c[i] else null)
      invariant pLast == (if i == 0 then list else c[i - 1])
      invariant forall j :: 0 <= j < i ==> !predict(c[j])
      invariant List(list, c) && list.next == old(list.next)
      invariant forall n :: n in c ==> n.next == old(n.next) && n.hash == old(n.hash)
      decreases |c| - i
    {
      if predict(p) {
        pLast.next := p.next;
        break;
      }
      pLast := p;
      p, i := p.next, i + 1;
    }
    if p != null {
      UnlinkedRuns(list, c, i);
    }
  }

  // rcuSlistRemove: unlinks the given node if it is there.
  method Remove(list: RNode, head: RNode, ghost c: seq<RNode>) returns (p: RNode?, ghost i: nat)
    requires List(list, c)
    modifies list`next, c
    ensures i <= |c| && p == (if i < |c| then c[i] else null) && forall n :: n in c ==> n.hash == old(n.hash)
    ensures p != null <==> head in c
    ensures p != null ==> p == head && p.next == old(p.next) && List(list, Without(c, i))
    ensures p == null ==> List(list, c)
  {
    var pLast := list;
    p, i := pLast.next, 0;
    while p != null
      invariant i <= |c| && p == (if i < |c| then c[i] else null)
      invariant pLast == (if i == 0 then list else c[i - 1])
      invariant head !in c[..i]
      invariant List(list, c) && list.next == old(list.next)
      invariant forall n :: n in c ==> n.next == old(n.next) && n.hash == old(n.hash)
      decreases |c| - i
    {
      if p == head {
        pLast.next := p.next;
        break;
      }
      pLast := p;
      p, i := p.next, i + 1;
    }
    assert c[..|c|] == c;
    if p != null {
      UnlinkedRuns(list, c, i);
    }
  }
}
