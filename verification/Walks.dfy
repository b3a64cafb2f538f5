// A heap of `next` links, and the sequence of links a reader meets when it follows them.
module Walks {

  import opened Chains

  type Link = nat

  datatype Ptr = Null | To(link: Link)

  // Following `next` from p passes exactly the links of path, in order, and arrives at q.
  predicate Seg(next: map<Link, Ptr>, p: Ptr, path: seq<Link>, q: Ptr)
    decreases |path|
  {
    if path == [] then p == q
    else p == To(path[0]) && path[0] in next && Seg(next, next[path[0]], path[1..], q)
  }

  // A reader at p can still arrive at link n.
  ghost predicate Reaches(next: map<Link, Ptr>, p: Ptr, n: Link) {
    exists path, q :: Seg(next, p, path, q) && n in path
  }

  predicate Closed(next: map<Link, Ptr>, p: Ptr) {
    p.To? ==> p.link in next
  }

  ghost function PtrWalk(W: map<Link, seq<Link>>, p: Ptr): seq<Link> {
    if p.To? && p.link in W then W[p.link] else []
  }

  // W's walk from l is l itself and then W's walk from the successor of l.
  ghost predicate WalkAt(next: map<Link, Ptr>, W: map<Link, seq<Link>>, l: Link) {
    l in next && l in W && Closed(next, next[l]) && W[l] == [l] + PtrWalk(W, next[l])
  }

  // W gives for every link the complete walk that starts there. Such a W exists exactly when
  // no link dangles and the heap has no cycle.
  ghost predicate WalkMap(next: map<Link, Ptr>, W: map<Link, seq<Link>>) {
    && W.Keys == next.Keys
    && forall l {:trigger WalkAt(next, W, l)} :: l in next ==> WalkAt(next, W, l)
  }

  // The walks that remain behind a list head.
  ghost function Chain(W: map<Link, seq<Link>>, h: Link): seq<Link> {
    if h in W && W[h] != [] then W[h][1..] else []
  }

  function Upto(s: seq<Link>, a: Link): (r: seq<Link>) {
    if s == [] then [] else if s[0] == a then [a] else [s[0]] + Upto(s[1..], a)
  }

  lemma {:induction false} WalkSuffix(next: map<Link, Ptr>, W: map<Link, seq<Link>>, l: Link, i: nat)
    requires WalkMap(next, W) && l in next && i < |W[l]|
    ensures W[l][i] in next && W[W[l][i]] == W[l][i..]
    decreases i
  {
    assert WalkAt(next, W, l);
    if i > 0 {
      assert W[l][1..] == W[next[l].link];
      WalkSuffix(next, W, next[l].link, i - 1);
    }
  }

  lemma EmptyWalk(next: map<Link, Ptr>, W: map<Link, seq<Link>>, p: Ptr)
    requires WalkMap(next, W) && Closed(next, p)
    ensures PtrWalk(W, p) == [] <==> p == Null
    ensures p.To? ==> PtrWalk(W, p)[0] == p.link
  {
    if p.To? {
      assert WalkAt(next, W, p.link);
    }
  }

  // A walk never meets a link twice: the heap is acyclic.
  lemma WalkDistinct(next: map<Link, Ptr>, W: map<Link, seq<Link>>, l: Link)
    requires WalkMap(next, W) && l in next
    ensures Distinct(W[l])
  {
    forall i, j | 0 <= i < j < |W[l]|
      ensures W[l][i] != W[l][j]
    {
      WalkSuffix(next, W, l, i);
      WalkSuffix(next, W, l, j);
      assert |W[l][i..]| != |W[l][j..]|;
    }
  }

  lemma {:induction false} WalksUnique(next: map<Link, Ptr>, W: map<Link, seq<Link>>, V: map<Link, seq<Link>>, l: Link)
    requires WalkMap(next, W) && WalkMap(next, V) && l in next
    ensures W[l] == V[l]
    decreases |W[l]|
  {
    assert WalkAt(next, W, l) && WalkAt(next, V, l);
    if next[l].To? {
      WalksUnique(next, W, V, next[l].link);
    }
  }

  lemma {:induction false} SegWalk(next: map<Link, Ptr>, W: map<Link, seq<Link>>, p: Ptr, path: seq<Link>, q: Ptr)
    requires WalkMap(next, W) && Seg(next, p, path, q) && Closed(next, p)
    ensures PtrWalk(W, p) == path + PtrWalk(W, q)
    ensures Closed(next, q)
    decreases |path|
  {
    if path == [] {
      assert path + PtrWalk(W, q) == PtrWalk(W, p);
    } else {
      assert WalkAt(next, W, path[0]);
      SegWalk(next, W, next[path[0]], path[1..], q);
      assert path == [path[0]] + path[1..];
    }
  }

  lemma {:induction false} WalkSeg(next: map<Link, Ptr>, W: map<Link, seq<Link>>, p: Ptr, i: nat) returns (q: Ptr)
    requires WalkMap(next, W) && Closed(next, p) && i <= |PtrWalk(W, p)|
    ensures Seg(next, p, PtrWalk(W, p)[..i], q)
    ensures Closed(next, q) && PtrWalk(W, q) == PtrWalk(W, p)[i..]
    decreases i
  {
    var w := PtrWalk(W, p);
    if i == 0 {
      q := p;
    } else {
      assert WalkAt(next, W, p.link);
      assert PtrWalk(W, next[p.link]) == w[1..];
      q := WalkSeg(next, W, next[p.link], i - 1);
      assert w[..i][1..] == w[1..][..i - 1];
      assert w[i..] == w[1..][i - 1..];
    }
  }

  lemma ReachesIsWalk(next: map<Link, Ptr>, W: map<Link, seq<Link>>, p: Ptr, n: Link)
    requires WalkMap(next, W) && Closed(next, p)
    ensures Reaches(next, p, n) <==> n in PtrWalk(W, p)
  {
    if Reaches(next, p, n) {
      var path, q :| Seg(next, p, path, q) && n in path;
      SegWalk(next, W, p, path, q);
    }
    if n in PtrWalk(W, p) {
      var w := PtrWalk(W, p);
      var q := WalkSeg(next, W, p, |w|);
      assert w[..|w|] == w;
      assert Seg(next, p, w, q);
    }
  }

  // ----- one store: next[a] := q -----

  ghost function Redirect(W: map<Link, seq<Link>>, a: Link, q: Ptr): map<Link, seq<Link>> {
    map l | l in W :: if a in W[l] then Upto(W[l], a) + PtrWalk(W, q) else W[l]
  }

  lemma {:induction false} UptoPrefix(s: seq<Link>, a: Link)
    ensures Upto(s, a) <= s
    ensures a in s ==> Upto(s, a) != [] && Upto(s, a)[|Upto(s, a)| - 1] == a
  {
    if s != [] && s[0] != a {
      UptoPrefix(s[1..], a);
      assert s == [s[0]] + s[1..];
    }
  }

  lemma {:induction false} UptoAt(s: seq<Link>, a: Link, i: nat)
    requires Distinct(s) && i < |s| && s[i] == a
    ensures Upto(s, a) == s[..i + 1]
  {
    if i == 0 {
      assert s[..1] == [a];
    } else {
      UptoAt(s[1..], a, i - 1);
      assert s[..i + 1] == [s[0]] + s[1..][..i];
    }
  }

  lemma RedirectWalks(next: map<Link, Ptr>, W: map<Link, seq<Link>>, a: Link, q: Ptr)
    requires WalkMap(next, W) && a in next && Closed(next, q) && a !in PtrWalk(W, q)
    ensures WalkMap(next[a := q], Redirect(W, a, q))
  {
    var next', W' := next[a := q], Redirect(W, a, q);
    forall l | l in next'
      ensures WalkAt(next', W', l)
    {
      assert WalkAt(next, W, l);
      var w, rest := W[l], PtrWalk(W, next[l]);
      assert w == [l] + rest && w[0] == l && w[1..] == rest;
      if l == a {
        assert W'[l] == [a] + PtrWalk(W, q);
        assert PtrWalk(W', q) == PtrWalk(W, q);
      } else {
        assert a in w <==> a in rest;
        assert a in w ==> [l] + (Upto(rest, a) + PtrWalk(W, q)) == Upto(w, a) + PtrWalk(W, q);
      }
    }
  }

  // A walk through a continues with a's successor.
  lemma WalkThrough(next: map<Link, Ptr>, W: map<Link, seq<Link>>, p: Ptr, a: Link)
    requires WalkMap(next, W) && Closed(next, p) && a in PtrWalk(W, p)
    ensures a in next && PtrWalk(W, p) == Upto(PtrWalk(W, p), a) + PtrWalk(W, next[a])
  {
    var w := PtrWalk(W, p);
    var i :| 0 <= i < |w| && w[i] == a;
    assert Upto(w, a) == w[..i + 1] by {
      WalkDistinct(next, W, p.link);
      UptoAt(w, a, i);
    }
    assert W[a] == w[i..] by {
      WalkSuffix(next, W, p.link, i);
    }
    assert WalkAt(next, W, a);
    assert W[a][1..] == w[i + 1..];
  }

  function SetOf(s: seq<Link>): set<Link> {
    set l | l in s
  }

  // A walk cut after a nonempty prefix goes on with the successor of the prefix's last link.
  lemma WalkCut(next: map<Link, Ptr>, W: map<Link, seq<Link>>, p: Ptr, pre: seq<Link>, rest: seq<Link>)
    requires WalkMap(next, W) && Closed(next, p) && PtrWalk(W, p) == pre + rest && pre != []
    ensures Last(pre) in next && PtrWalk(W, next[Last(pre)]) == rest && Closed(next, next[Last(pre)])
    ensures Upto(PtrWalk(W, p), Last(pre)) == pre && Last(pre) !in rest
    ensures W[Last(pre)] == [Last(pre)] + rest
  {
    var w, i := PtrWalk(W, p), |pre| - 1;
    assert w[i] == Last(pre);
    assert w[..i + 1] == pre && w[i..] == [Last(pre)] + rest;
    WalkDistinct(next, W, p.link);
    UptoAt(w, Last(pre), i);
    WalkSuffix(next, W, p.link, i);
    assert WalkAt(next, W, Last(pre));
    forall x | 0 <= x < |rest| ensures rest[x] != Last(pre) {
      assert w[|pre| + x] == rest[x];
    }
  }

  // What the store does to one pointer's walk.
  lemma RedirectPtr(next: map<Link, Ptr>, W: map<Link, seq<Link>>, a: Link, q: Ptr, p: Ptr)
    requires WalkMap(next, W) && a in next && Closed(next, p)
    ensures a !in PtrWalk(W, p) ==> PtrWalk(Redirect(W, a, q), p) == PtrWalk(W, p)
    ensures a in PtrWalk(W, p) ==>
              && PtrWalk(Redirect(W, a, q), p) == Upto(PtrWalk(W, p), a) + PtrWalk(W, q)
              && PtrWalk(W, p) == Upto(PtrWalk(W, p), a) + PtrWalk(W, next[a])
  {
    if a in PtrWalk(W, p) {
      WalkThrough(next, W, p, a);
    }
  }

  // The same for the chain behind a list head.
  lemma RedirectChain(next: map<Link, Ptr>, W: map<Link, seq<Link>>, a: Link, q: Ptr, h: Link)
    requires WalkMap(next, W) && a in next && h in next && Closed(next, q) && a !in PtrWalk(W, q)
    ensures Chain(Redirect(W, a, q), h) ==
            if h == a then PtrWalk(W, q)
            else if a in Chain(W, h) then Upto(Chain(W, h), a) + PtrWalk(W, q)
            else Chain(W, h)
  {
    assert WalkAt(next, W, h);
    RedirectWalks(next, W, a, q);
    assert WalkAt(next[a := q], Redirect(W, a, q), h);
    RedirectPtr(next, W, a, q, next[h]);
    if h == a {
      WalkDistinct(next[a := q], Redirect(W, a, q), a);
    }
    RedirectPtr(next, W, a, q, q);
  }

  // Newly allocated links start out as empty lists.
  function AddEmpty(next: map<Link, Ptr>, added: set<Link>): map<Link, Ptr> {
    next + (map l | l in added :: Null)
  }

  ghost function AddEmptyWalks(W: map<Link, seq<Link>>, added: set<Link>): map<Link, seq<Link>> {
    W + (map l | l in added :: [l])
  }

  lemma AddedWalks(next: map<Link, Ptr>, W: map<Link, seq<Link>>, added: set<Link>)
    requires WalkMap(next, W) && added !! next.Keys
    ensures WalkMap(AddEmpty(next, added), AddEmptyWalks(W, added))
    ensures forall p :: Closed(next, p) ==> PtrWalk(AddEmptyWalks(W, added), p) == PtrWalk(W, p)
    ensures forall h :: h in next ==> Chain(AddEmptyWalks(W, added), h) == Chain(W, h)
    ensures forall h :: h in added ==> Chain(AddEmptyWalks(W, added), h) == []
  {
    var next', W' := AddEmpty(next, added), AddEmptyWalks(W, added);
    forall l | l in next'
      ensures WalkAt(next', W', l)
    {
      if l !in added {
        assert WalkAt(next, W, l);
      }
    }
  }

  // Where to store in order to take d off the list behind head h.
  lemma UnlinkPoint(next: map<Link, Ptr>, W: map<Link, seq<Link>>, h: Link, pre: seq<Link>, d: Link, rest: seq<Link>)
    requires WalkMap(next, W) && h in next && Chain(W, h) == pre + [d] + rest
    ensures var a := if pre == [] then h else Last(pre);
            a in next && a !in rest && PtrWalk(W, next[a]) == [d] + rest
    ensures d in next && d !in pre && d !in rest && PtrWalk(W, next[d]) == rest && Closed(next, next[d])
    ensures pre != [] ==> Upto(Chain(W, h), Last(pre)) == pre
  {
    assert WalkAt(next, W, h);
    WalkDistinct(next, W, h);
    var c := pre + [d];
    WalkCut(next, W, next[h], c, rest);
    assert Last(c) == d;
    assert forall x :: 0 <= x < |pre| ==> W[h][1 + x] == pre[x];
    assert W[h][1 + |pre|] == d;
    if pre != [] {
      assert Chain(W, h) == pre + ([d] + rest);
      WalkCut(next, W, next[h], pre, [d] + rest);
      assert forall x :: x in rest ==> x in [d] + rest;
    } else {
      assert W[h][0] == h;
      assert forall x :: 0 <= x < |rest| ==> W[h][2 + x] == rest[x];
    }
  }
}
