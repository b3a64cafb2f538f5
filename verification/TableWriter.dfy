// Every writer action keeps the table's structural invariant, and leaves the walks of all
// readers alone unless it is one of the three reader-visible relinkings.
module TableWriter {
  import opened Bits
  import opened Walks
  import opened Chains
  import opened TableMachine
  import opened TableInvariant

  // ----- stores into bucket heads -----

  // No pointer of a reader or a chain leads to a bucket head.
  ghost predicate AvoidsHeads(m: Mem, s: seq<Link>) {
    forall l :: l in s ==> l !in m.heads
  }

  ghost predicate SameFor(m: Mem, W: map<Link, seq<Link>>, next': map<Link, Ptr>, W': map<Link, seq<Link>>, p: Ptr) {
    Closed(next', p) && PtrWalk(W', p) == PtrWalk(W, p)
  }

  // Whoever walks over linked or detached nodes only sees no difference.
  ghost predicate Invisible(m: Mem, W: map<Link, seq<Link>>, next': map<Link, Ptr>, W': map<Link, seq<Link>>) {
    forall p {:trigger SameFor(m, W, next', W', p)} ::
      Closed(m.next, p) && (forall l :: l in PtrWalk(W, p) ==> l in m.linked + m.limbo) ==> SameFor(m, W, next', W', p)
  }

  ghost predicate ChainKept(m: Mem, W: map<Link, seq<Link>>, W': map<Link, seq<Link>>, x: Link) {
    Chain(W', x) == Chain(W, x)
  }

  ghost predicate OthersKept(m: Mem, W: map<Link, seq<Link>>, W': map<Link, seq<Link>>, h: Link) {
    forall x {:trigger ChainKept(m, W, W', x)} ::
      x in m.heads && x != h && OnlyLinked(m, Chain(W, x)) ==> ChainKept(m, W, W', x)
  }

  lemma HeadStore(m: Mem, W: map<Link, seq<Link>>, h: Link, q: Ptr) returns (W': map<Link, seq<Link>>)
    requires WalkMap(m.next, W) && h in m.heads && m.heads <= m.next.Keys && Closed(m.next, q)
    requires AvoidsHeads(m, PtrWalk(W, q)) && m.linked !! m.heads && m.limbo !! m.heads
    ensures WalkMap(m.next[h := q], W')
    ensures Chain(W', h) == PtrWalk(W, q)
    ensures OthersKept(m, W, W', h)
    ensures Invisible(m, W, m.next[h := q], W')
  {
    W' := Redirect(W, h, q);
    RedirectWalks(m.next, W, h, q);
    RedirectChain(m.next, W, h, q, h);
    forall x | x in m.heads && x != h && OnlyLinked(m, Chain(W, x))
      ensures ChainKept(m, W, W', x)
    {
      RedirectChain(m.next, W, h, q, x);
      assert h !in m.linked;
    }
    forall p | Closed(m.next, p) && (forall l :: l in PtrWalk(W, p) ==> l in m.linked + m.limbo)
      ensures SameFor(m, W, m.next[h := q], W', p)
    {
      assert h !in PtrWalk(W, p);
      RedirectPtr(m.next, W, h, q, p);
    }
  }

  lemma ChainIsPtrWalk(m: Mem, W: map<Link, seq<Link>>, h: Link)
    requires WalkMap(m.next, W) && h in m.next
    ensures Chain(W, h) == PtrWalk(W, Load(m, h)) && Closed(m.next, Load(m, h))
    ensures Distinct(Chain(W, h))
  {
    assert WalkAt(m.next, W, h);
    WalkDistinct(m.next, W, h);
  }

  // ----- inserting -----

  // A store into a node that is neither in the table nor held by a reader.
  lemma FreshStore(m: Mem, W: map<Link, seq<Link>>, n: Link, q: Ptr) returns (W': map<Link, seq<Link>>)
    requires WalkMap(m.next, W) && n !in m.linked && n !in m.limbo && n !in m.heads && Closed(m.next, q)
    requires OnlyLinked(m, PtrWalk(W, q)) && m.heads <= m.next.Keys
    ensures WalkMap(m.next[n := q], W')
    ensures Invisible(m, W, m.next[n := q], W')
    ensures forall x :: x in m.heads && OnlyLinked(m, Chain(W, x)) ==> ChainKept(m, W, W', x)
  {
    var next0, W0 := AddFresh(m, W, n, q);
    assert PtrWalk(W0, q) == PtrWalk(W, q);
    W' := Redirect(W0, n, q);
    RedirectWalks(next0, W0, n, q);
    forall p | Closed(m.next, p) && (forall l :: l in PtrWalk(W, p) ==> l in m.linked + m.limbo)
      ensures SameFor(m, W, m.next[n := q], W', p)
    {
      RedirectPtr(next0, W0, n, q, p);
    }
    forall x | x in m.heads && OnlyLinked(m, Chain(W, x)) ensures ChainKept(m, W, W', x) {
      RedirectChain(next0, W0, n, q, x);
    }
  }

  // A node the heap has not seen yet starts out with an empty list.
  lemma AddFresh(m: Mem, W: map<Link, seq<Link>>, n: Link, q: Ptr)
    returns (next0: map<Link, Ptr>, W0: map<Link, seq<Link>>)
    requires WalkMap(m.next, W) && m.heads <= m.next.Keys
    ensures WalkMap(next0, W0) && n in next0 && next0[n := q] == m.next[n := q]
    ensures forall p :: Closed(m.next, p) ==> Closed(next0, p) && PtrWalk(W0, p) == PtrWalk(W, p)
    ensures forall x :: x in m.heads ==> x in next0 && Chain(W0, x) == Chain(W, x)
  {
    var added: set<Link> := if n in m.next then {} else {n};
    AddedWalks(m.next, W, added);
    next0, W0 := AddEmpty(m.next, added), AddEmptyWalks(W, added);
  }

  lemma BeginInsertOk(m: Mem, g: Ghost, n: Link, h: nat, m': Mem) returns (g': Ghost)
    requires Struct(m, g) && DoBeginInsert(m, n, h, m')
    ensures Struct(m', g') && Invisible(m, g.W, m'.next, g'.W) && g'.chains == g.chains && g'.ks == g.ks
  {
    var b := BucketOf(h, |m.table|);
    assert m.table[b] in m.heads;
    ChainIsPtrWalk(m, g.W, m.table[b]);
    var q := Load(m, m.table[b]);
    assert OnlyLinked(m, PtrWalk(g.W, q));
    var W' := FreshStore(m, g.W, n, q);
    g' := g.(W := W');
    forall x | x in m.table
      ensures ChainKept(m, g.W, g'.W, x)
    {
      assert OnlyLinked(m, Chain(g.W, x));
    }
    TableKept(m, g, m', g');
    ProperKept(m, g, m', g');
  }

  lemma ProperKept(m: Mem, g: Ghost, m': Mem, g': Ghost)
    requires Base(m, g) && Proper(m, g.W, m.table) && m'.table == m.table
    requires forall l :: l in m.linked ==> l in m'.hash && m'.hash[l] == m.hash[l]
    requires forall x :: x in m.table ==> ChainKept(m, g.W, g'.W, x)
    ensures Proper(m', g'.W, m'.table)
  {
    forall c | 0 <= c < |m.table|
      ensures ProperChain(m', Chain(g'.W, m.table[c]), |m.table|, c)
    {
      assert ProperChain(m, Chain(g.W, m.table[c]), |m.table|, c);
      assert ChainKept(m, g.W, g'.W, m.table[c]) && OnlyLinked(m, Chain(g.W, m.table[c]));
    }
  }

  // The published array serves as before when its chains and the hashes of linked nodes are kept.
  lemma TableKept(m: Mem, g: Ghost, m': Mem, g': Ghost)
    requires Base(m, g) && m'.table == m.table && m'.linked == m.linked
    requires forall l :: l in m.linked ==> l in m'.hash && m'.hash[l] == m.hash[l]
    requires forall x :: x in m.table ==> ChainKept(m, g.W, g'.W, x)
    ensures Serves(m', g'.W, m'.table)
  {
    forall h | h in m'.table ensures OnlyLinked(m', Chain(g'.W, h)) {
      assert ChainKept(m, g.W, g'.W, h) && OnlyLinked(m, Chain(g.W, h));
    }
    forall l | l in m'.linked ensures FindsNode(m', g'.W, m'.table, l) {
      assert FindsNode(m, g.W, m.table, l);
      assert ChainKept(m, g.W, g'.W, m.table[Class(m.hash, l, |m.table|)]);
    }
  }

  // What the store into the bucket head does to the walks.
  lemma StoreHeadWalks(m: Mem, g: Ghost, m': Mem) returns (W': map<Link, seq<Link>>)
    requires Struct(m, g) && DoStoreHead(m, m')
    ensures WalkMap(m'.next, W') && Invisible(m, g.W, m'.next, W')
    ensures forall i :: 0 <= i < |m.table| ==>
              Chain(W', m.table[i]) == if i == m.w.b then [m.w.n] + Chain(g.W, m.table[i]) else Chain(g.W, m.table[i])
  {
    var n, b := m.w.n, m.w.b;
    var h := m.table[b];
    assert h in m.heads;
    ChainIsPtrWalk(m, g.W, h);
    assert WalkAt(m.next, g.W, n);
    assert PtrWalk(g.W, To(n)) == [n] + Chain(g.W, h);
    assert OnlyLinked(m, Chain(g.W, h));
    W' := HeadStore(m, g.W, h, To(n));
    forall i | 0 <= i < |m.table|
      ensures Chain(W', m.table[i]) == if i == b then [n] + Chain(g.W, m.table[i]) else Chain(g.W, m.table[i])
    {
      assert m.table[i] in m.heads && OnlyLinked(m, Chain(g.W, m.table[i]));
      assert i != b ==> m.table[i] != h && ChainKept(m, g.W, W', m.table[i]);
    }
  }

  lemma StoreHeadOk(m: Mem, g: Ghost, m': Mem) returns (g': Ghost)
    requires Struct(m, g) && DoStoreHead(m, m')
    ensures Struct(m', g') && Invisible(m, g.W, m'.next, g'.W) && g'.chains == g.chains && g'.ks == g.ks
    ensures forall i :: 0 <= i < |m.table| ==>
              Chain(g'.W, m.table[i]) == if i == m.w.b then [m.w.n] + Chain(g.W, m.table[i]) else Chain(g.W, m.table[i])
  {
    hide Chain, Invisible, WalkMap;
    var n, b := m.w.n, m.w.b;
    var W' := StoreHeadWalks(m, g, m');
    g' := g.(W := W');
    forall x | x in m'.table ensures OnlyLinked(m', Chain(W', x)) {
      var i :| 0 <= i < |m.table| && m.table[i] == x;
      assert OnlyLinked(m, Chain(g.W, m.table[i]));
    }
    forall l | l in m'.linked ensures FindsNode(m', W', m'.table, l) {
      assert l != n ==> FindsNode(m, g.W, m.table, l);
    }
    forall c | 0 <= c < |m.table|
      ensures ProperChain(m', Chain(W', m.table[c]), |m.table|, c)
    {
      assert ProperChain(m, Chain(g.W, m.table[c]), |m.table|, c);
    }
  }

  // ----- relinking -----

  lemma InvisibleRelinks(m: Mem, W: map<Link, seq<Link>>, next': map<Link, Ptr>, W': map<Link, seq<Link>>, via: Link)
    requires Invisible(m, W, next', W')
    ensures Relinked(m, W, next', W', {}, {}, via)
  {
    forall p | Closed(m.next, p) && (forall l :: l in PtrWalk(W, p) ==> l in m.linked + m.limbo)
      ensures RelinkedAt(W, next', W', {}, {}, via, p)
    {
      assert SameFor(m, W, next', W', p);
    }
  }

  lemma RedirectRelinks(m: Mem, W: map<Link, seq<Link>>, a: Link, q: Ptr, lost: set<Link>, gained: set<Link>)
    requires WalkMap(m.next, W) && a in m.next && Closed(m.next, q) && a !in PtrWalk(W, q)
    requires forall l :: l in PtrWalk(W, q) ==> l in PtrWalk(W, m.next[a]) || l in gained
    requires forall l :: l in PtrWalk(W, m.next[a]) && l !in lost ==> l in PtrWalk(W, q)
    ensures Relinked(m, W, m.next[a := q], Redirect(W, a, q), lost, gained, a)
  {
    forall p | Closed(m.next, p) && (forall l :: l in PtrWalk(W, p) ==> l in m.linked + m.limbo)
      ensures RelinkedAt(W, m.next[a := q], Redirect(W, a, q), lost, gained, a, p)
    {
      RedirectPtr(m.next, W, a, q, p);
    }
  }

  // The chain of d's bucket, cut at d.
  lemma DetachSplit(m: Mem, g: Ghost, b: nat, pre: seq<Link>, d: Link)
    requires Struct(m, g) && m.w == Idle && b < |m.table| && Seg(m.next, Load(m, m.table[b]), pre, To(d))
    ensures d in m.linked && d in m.next && Closed(m.next, m.next[d])
    ensures Chain(g.W, m.table[b]) == pre + [d] + PtrWalk(g.W, m.next[d])
    ensures Distinct(Chain(g.W, m.table[b])) && OnlyLinked(m, Chain(g.W, m.table[b]))
    ensures ProperChain(m, Chain(g.W, m.table[b]), |m.table|, b)
  {
    var h := m.table[b];
    assert h in m.heads;
    ChainIsPtrWalk(m, g.W, h);
    SegWalk(m.next, g.W, Load(m, h), pre, To(d));
    assert WalkAt(m.next, g.W, d);
    assert PtrWalk(g.W, To(d)) == [d] + PtrWalk(g.W, m.next[d]);
    assert d in Chain(g.W, h);
    assert OnlyLinked(m, Chain(g.W, h));
  }

  function Pred(m: Mem, b: nat, pre: seq<Link>): Link
    requires b < |m.table|
  {
    if pre == [] then m.table[b] else Last(pre)
  }

  // The link whose next is overwritten, and what its walk was.
  lemma DetachPoint(m: Mem, g: Ghost, b: nat, pre: seq<Link>, d: Link)
    requires Struct(m, g) && m.w == Idle && b < |m.table| && Seg(m.next, Load(m, m.table[b]), pre, To(d))
    ensures d in m.next && Pred(m, b, pre) in m.next
    ensures var rest := PtrWalk(g.W, m.next[d]);
            && Pred(m, b, pre) !in rest && d !in rest && d !in pre
            && PtrWalk(g.W, m.next[Pred(m, b, pre)]) == [d] + rest
            && (pre != [] ==> Upto(Chain(g.W, m.table[b]), Last(pre)) == pre)
  {
    DetachSplit(m, g, b, pre, d);
    assert m.table[b] in m.heads;
    UnlinkPoint(m.next, g.W, m.table[b], pre, d, PtrWalk(g.W, m.next[d]));
  }

  lemma DetachChains(m: Mem, g: Ghost, b: nat, pre: seq<Link>, d: Link, i: nat)
    requires Struct(m, g) && m.w == Idle && b < |m.table| && i < |m.table|
    requires Seg(m.next, Load(m, m.table[b]), pre, To(d)) && d in m.next
    ensures Chain(Redirect(g.W, Pred(m, b, pre), m.next[d]), m.table[i]) ==
            if i == b then pre + PtrWalk(g.W, m.next[d]) else Chain(g.W, m.table[i])
    ensures i != b ==> d !in Chain(g.W, m.table[i])
  {
    DetachSplit(m, g, b, pre, d);
    DetachPoint(m, g, b, pre, d);
    assert m.table[i] in m.heads && OnlyLinked(m, Chain(g.W, m.table[i]));
    assert ProperChain(m, Chain(g.W, m.table[i]), |m.table|, i);
    assert m.table[b] in m.heads;
    if i != b {
      assert d in Chain(g.W, m.table[b]);
      assert pre != [] ==> Last(pre) in Chain(g.W, m.table[b]);
    }
    RedirectChain(m.next, g.W, Pred(m, b, pre), m.next[d], m.table[i]);
    if pre != [] {
      assert Last(pre) in Chain(g.W, m.table[b]);
    }
  }

  lemma DetachRelinks(m: Mem, g: Ghost, b: nat, pre: seq<Link>, d: Link)
    requires Struct(m, g) && m.w == Idle && b < |m.table| && Seg(m.next, Load(m, m.table[b]), pre, To(d))
    ensures var a, q := Pred(m, b, pre), Load(m, d);
            && WalkMap(m.next[a := q], Redirect(g.W, a, q))
            && Relinked(m, g.W, m.next[a := q], Redirect(g.W, a, q), {d}, {}, a)
            && d in m.next && d in m.linked
  {
    DetachSplit(m, g, b, pre, d);
    DetachPoint(m, g, b, pre, d);
    RedirectWalks(m.next, g.W, Pred(m, b, pre), m.next[d]);
    RedirectRelinks(m, g.W, Pred(m, b, pre), m.next[d], {d}, {});
  }

  // One bucket after the removal.
  lemma DetachBucket(m: Mem, g: Ghost, b: nat, pre: seq<Link>, d: Link, i: nat, m': Mem, W': map<Link, seq<Link>>)
    requires Struct(m, g) && DoDetach(m, b, pre, d, m') && i < |m.table| && d in m.next
    requires W' == Redirect(g.W, Pred(m, b, pre), m.next[d])
    ensures OnlyLinked(m', Chain(W', m.table[i])) && ProperChain(m', Chain(W', m.table[i]), |m.table|, i)
    ensures forall l :: l in Chain(g.W, m.table[i]) && l != d ==> l in Chain(W', m.table[i])
  {
    hide Redirect, Chain, WalkMap, Distinct, Upto, PtrWalk;
    DetachSplit(m, g, b, pre, d);
    DetachPoint(m, g, b, pre, d);
    DetachChains(m, g, b, pre, d, i);
    assert m.table[i] in m.table;
    assert OnlyLinked(m, Chain(g.W, m.table[i])) && ProperChain(m, Chain(g.W, m.table[i]), |m.table|, i);
  }

  lemma DetachServes(m: Mem, g: Ghost, d: Link, m': Mem, W': map<Link, seq<Link>>)
    requires Serves(m, g.W, m.table) && m'.table == m.table && m'.hash == m.hash && m'.linked == m.linked - {d}
    requires forall i {:trigger m.table[i]} :: 0 <= i < |m.table| ==>
               && OnlyLinked(m', Chain(W', m.table[i]))
               && forall l :: l in Chain(g.W, m.table[i]) && l != d ==> l in Chain(W', m.table[i])
    ensures Serves(m', W', m'.table)
  {
    forall l | l in m'.linked ensures FindsNode(m', W', m'.table, l) {
      assert FindsNode(m, g.W, m.table, l);
    }
  }

  // The detached node is not the link that is overwritten.
  lemma KeepsOwnLink(m: Mem, g: Ghost, b: nat, pre: seq<Link>, d: Link)
    requires Struct(m, g) && m.w == Idle && b < |m.table| && Seg(m.next, Load(m, m.table[b]), pre, To(d))
    ensures Pred(m, b, pre) != d
  {
    DetachSplit(m, g, b, pre, d);
    DetachPoint(m, g, b, pre, d);
    assert m.table[b] in m.heads;
  }

  lemma DetachOk(m: Mem, g: Ghost, b: nat, pre: seq<Link>, d: Link, m': Mem) returns (g': Ghost)
    requires Struct(m, g) && DoDetach(m, b, pre, d, m')
    ensures Struct(m', g') && g'.chains == g.chains && g'.ks == g.ks
    ensures Relinked(m, g.W, m'.next, g'.W, {d}, {}, Pred(m, b, pre))
    ensures var rest := PtrWalk(g.W, Load(m, d));
            Chain(g.W, m.table[b]) == pre + [d] + rest && Chain(g'.W, m.table[b]) == pre + rest
    ensures Load(m', d) == Load(m, d)
    ensures forall i :: 0 <= i < |m.table| && i != b ==> Chain(g'.W, m.table[i]) == Chain(g.W, m.table[i])
  {
    DetachSplit(m, g, b, pre, d);
    DetachPoint(m, g, b, pre, d);
    DetachRelinks(m, g, b, pre, d);
    var W' := Redirect(g.W, Pred(m, b, pre), m.next[d]);
    g' := g.(W := W');
    forall i {:trigger m.table[i]} | 0 <= i < |m.table|
      ensures OnlyLinked(m', Chain(W', m.table[i])) && ProperChain(m', Chain(W', m.table[i]), |m.table|, i)
      ensures forall l :: l in Chain(g.W, m.table[i]) && l != d ==> l in Chain(W', m.table[i])
    {
      DetachBucket(m, g, b, pre, d, i, m', W');
    }
    forall i | 0 <= i < |m.table|
      ensures Chain(W', m.table[i]) == if i == b then pre + PtrWalk(g.W, m.next[d]) else Chain(g.W, m.table[i])
    {
      DetachChains(m, g, b, pre, d, i);
    }
    assert Load(m', d) == Load(m, d) by {
      KeepsOwnLink(m, g, b, pre, d);
    }
    DetachServes(m, g, d, m', W');
  }
}
