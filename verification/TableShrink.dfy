// The shrink: pairs of chains are joined in place, then the half-size array is published.
module TableShrink {
  import opened Bits
  import opened Walks
  import opened Chains
  import opened TableMachine
  import opened TableInvariant
  import opened TableWriter
  import opened TableExpand

  lemma BeginShrinkOk(m: Mem, g: Ghost, dst: seq<Link>, m': Mem) returns (g': Ghost)
    requires Struct(m, g) && DoBeginShrink(m, dst, m')
    ensures Struct(m', g') && Invisible(m, g.W, m'.next, g'.W)
    ensures |g'.chains| == |m.table| && forall b :: 0 <= b < |m.table| ==> g'.chains[b] == Chain(g.W, m.table[b])
  {
    assert |m.table| == 2 * |dst|;
    var g1 := AllocateOk(m, g, dst, m'.w, m');
    var cs := TableChains(m, g.W);
    g' := Ghost(g1.W, cs, []);
    forall b | 0 <= b < |m.table|
      ensures ProperChain(m', Chain(g'.W, m.table[b]), |m.table|, b) && SameChain(g', m'.table, b)
    {
      assert ProperChain(m, Chain(g.W, m.table[b]), |m.table|, b) && m.table[b] in m.table;
    }
    IdleChains(m', g', cs, []);
  }

  ghost predicate SplicePhase(m: Mem, g: Ghost, done: nat) {
    Base(m, g) && MergingPair(m) && Merging(m, g, m.w.dst, done, m.w.i)
  }

  // Where the two chains of the pair being merged start, and what is on them.
  lemma PairChains(m: Mem, g: Ghost, done: nat)
    requires SplicePhase(m, g, done)
    ensures var i, n := m.w.i, |m.w.dst|;
            && i < n && ChainOk(m, g, 2 * n, i) && ChainOk(m, g, 2 * n, i + n)
            && m.table[i] in m.next && m.table[i + n] in m.next
            && Chain(g.W, m.table[i]) == PtrWalk(g.W, Load(m, m.table[i])) && Closed(m.next, Load(m, m.table[i]))
            && PtrWalk(g.W, Load(m, m.table[i + n])) == g.chains[i + n] && Closed(m.next, Load(m, m.table[i + n]))
            && (Load(m, m.table[i]) == Null <==> Chain(g.W, m.table[i]) == [])
            && (Load(m, m.table[i + n]) == Null <==> g.chains[i + n] == [])
  {
    var i, n := m.w.i, |m.w.dst|;
    assert ChainOk(m, g, 2 * n, i) && ChainOk(m, g, 2 * n, i + n) && SplicedAt(m, g, n, done, i + n);
    assert m.table[i] in m.heads && m.table[i + n] in m.heads;
    ChainIsPtrWalk(m, g.W, m.table[i]);
    ChainIsPtrWalk(m, g.W, m.table[i + n]);
    EmptyWalk(m.next, g.W, Load(m, m.table[i]));
    EmptyWalk(m.next, g.W, Load(m, m.table[i + n]));
  }

  lemma SpliceSkipOk(m: Mem, g: Ghost, m': Mem)
    requires Struct(m, g) && DoSpliceSkip(m, m')
    ensures Struct(m', g)
  {
    var i, n := m.w.i, |m.w.dst|;
    PairChains(m, g, i);
    SameBase(m, g, m');
    ChainsKept(m, g, m', g, 2 * n);
    assert g.chains[i] + [] == g.chains[i];
    var done := i + 1;
    forall b | 0 <= b < 2 * n ensures SplicedAt(m', g, n, done, b) {
      assert SplicedAt(m, g, n, i, b);
    }
    forall b | 0 <= b < i ensures MergedAt(g, m.w.dst, n, b) {
    }
  }

  // pre is the whole first list, and the second list can be put behind it.
  lemma SplicePoint(m: Mem, g: Ghost, pre: seq<Link>)
    requires MergingPair(m) && SplicePhase(m, g, m.w.i) && pre != [] && Seg(m.next, Load(m, m.table[m.w.i]), pre, Null)
    ensures var i, n := m.w.i, |m.w.dst|;
            && pre == g.chains[i] && Last(pre) in m.next && m.next[Last(pre)] == Null && Last(pre) in m.linked
            && Closed(m.next, Load(m, m.table[i + n])) && PtrWalk(g.W, Load(m, m.table[i + n])) == g.chains[i + n]
            && Last(pre) !in g.chains[i + n] && Upto(pre, Last(pre)) == pre
  {
    var i, n := m.w.i, |m.w.dst|;
    PairChains(m, g, i);
    var p := Load(m, m.table[i]);
    SegWalk(m.next, g.W, p, pre, Null);
    assert pre + [] == pre;
    WalkCut(m.next, g.W, p, pre, []);
    assert SplicedAt(m, g, n, i, i);
    EmptyWalk(m.next, g.W, m.next[Last(pre)]);
    assert Last(pre) in g.chains[i];
  }

  // Bucket i's last node is on bucket i's chain only.
  lemma NotOnOtherChains(m: Mem, g: Ghost, b: nat, a: Link)
    requires MergingPair(m) && SplicePhase(m, g, m.w.i) && b < |m.table| && a in g.chains[m.w.i]
    ensures b != m.w.i ==> a !in Chain(g.W, m.table[b])
    ensures b == m.w.i ==> Chain(g.W, m.table[b]) == g.chains[b]
  {
    var n, i := |m.w.dst|, m.w.i;
    assert ChainOk(m, g, 2 * n, i) && ChainOk(m, g, 2 * n, b) && SplicedAt(m, g, n, i, b);
    if b < i {
      assert ChainOk(m, g, 2 * n, b + n);
    }
  }

  lemma NotOnMerged(m: Mem, g: Ghost, b: nat, a: Link)
    requires MergingPair(m) && SplicePhase(m, g, m.w.i) && b < m.w.i && a in g.chains[m.w.i]
    ensures a !in Chain(g.W, m.w.dst[b]) && MergedAt(g, m.w.dst, |m.w.dst|, b)
    ensures OnlyLinked(m, Chain(g.W, m.w.dst[b]))
  {
    var n, i := |m.w.dst|, m.w.i;
    assert MergedAt(g, m.w.dst, n, b);
    assert ChainOk(m, g, 2 * n, i) && ChainOk(m, g, 2 * n, b) && ChainOk(m, g, 2 * n, b + n);
  }

  lemma SpliceTableChain(m: Mem, g: Ghost, pre: seq<Link>, W': map<Link, seq<Link>>, b: nat)
    requires MergingPair(m) && SplicePhase(m, g, m.w.i) && pre != [] && Seg(m.next, Load(m, m.table[m.w.i]), pre, Null)
    requires W' == Redirect(g.W, Last(pre), Load(m, m.table[m.w.i + |m.w.dst|])) && b < 2 * |m.w.dst|
    ensures Chain(W', m.table[b]) == if b == m.w.i then g.chains[b] + g.chains[b + |m.w.dst|]
            else Chain(g.W, m.table[b])
  {
    SplicePoint(m, g, pre);
    assert m.table[b] in m.heads;
    NotOnOtherChains(m, g, b, Last(pre));
    RedirectChain(m.next, g.W, Last(pre), Load(m, m.table[m.w.i + |m.w.dst|]), m.table[b]);
  }

  lemma SpliceNewChain(m: Mem, g: Ghost, pre: seq<Link>, W': map<Link, seq<Link>>, b: nat)
    requires MergingPair(m) && SplicePhase(m, g, m.w.i) && pre != [] && Seg(m.next, Load(m, m.table[m.w.i]), pre, Null)
    requires W' == Redirect(g.W, Last(pre), Load(m, m.table[m.w.i + |m.w.dst|])) && b < m.w.i
    ensures Chain(W', m.w.dst[b]) == Chain(g.W, m.w.dst[b])
  {
    SplicePoint(m, g, pre);
    NotOnMerged(m, g, b, Last(pre));
    assert m.w.dst[b] in m.w.dst && m.w.dst[b] in m.heads;
    RedirectChain(m.next, g.W, Last(pre), Load(m, m.table[m.w.i + |m.w.dst|]), m.w.dst[b]);
  }

  lemma SpliceChains(m: Mem, g: Ghost, pre: seq<Link>, W': map<Link, seq<Link>>)
    requires MergingPair(m) && SplicePhase(m, g, m.w.i) && pre != [] && Seg(m.next, Load(m, m.table[m.w.i]), pre, Null)
    requires W' == Redirect(g.W, Last(pre), Load(m, m.table[m.w.i + |m.w.dst|]))
    ensures forall b {:trigger m.table[b]} :: 0 <= b < 2 * |m.w.dst| ==>
              Chain(W', m.table[b]) == if b == m.w.i then g.chains[b] + g.chains[b + |m.w.dst|]
                else Chain(g.W, m.table[b])
    ensures forall b :: 0 <= b < m.w.i ==> Chain(W', m.w.dst[b]) == Chain(g.W, m.w.dst[b])
  {
    hide Chain, Redirect;
    forall b {:trigger m.table[b]} | 0 <= b < 2 * |m.w.dst|
      ensures Chain(W', m.table[b]) == if b == m.w.i then g.chains[b] + g.chains[b + |m.w.dst|]
              else Chain(g.W, m.table[b])
    {
      SpliceTableChain(m, g, pre, W', b);
    }
    forall b | 0 <= b < m.w.i ensures Chain(W', m.w.dst[b]) == Chain(g.W, m.w.dst[b]) {
      SpliceNewChain(m, g, pre, W', b);
    }
  }

  lemma SpliceStore(m: Mem, g: Ghost, pre: seq<Link>, q: Ptr) returns (W': map<Link, seq<Link>>)
    requires MergingPair(m) && SplicePhase(m, g, m.w.i) && pre != [] && Seg(m.next, Load(m, m.table[m.w.i]), pre, Null)
    requires q == Load(m, m.table[m.w.i + |m.w.dst|])
    ensures W' == Redirect(g.W, Last(pre), q) && g.chains[m.w.i] != []
    ensures Last(pre) in m.next && WalkMap(m.next[Last(pre) := q], W')
    ensures Relinked(m, g.W, m.next[Last(pre) := q], W', {}, m.linked, Last(pre))
  {
    SplicePoint(m, g, pre);
    W' := Redirect(g.W, Last(pre), q);
    RedirectWalks(m.next, g.W, Last(pre), q);
    assert OnlyLinked(m, PtrWalk(g.W, q)) by { assert ChainOk(m, g, 2 * |m.w.dst|, m.w.i + |m.w.dst|); }
    RedirectRelinks(m, g.W, Last(pre), q, {}, m.linked);
  }

  // The splice, seen from the phase it belongs to.
  lemma SpliceKeeps(m: Mem, g: Ghost, pre: seq<Link>, m1: Mem) returns (g': Ghost)
    requires MergingPair(m) && SplicePhase(m, g, m.w.i) && pre != [] && Seg(m.next, Load(m, m.table[m.w.i]), pre, Null)
    requires m1 == Store(m, Last(pre), Load(m, m.table[m.w.i + |m.w.dst|]))
    ensures Base(m1, g') && Merging(m1, g', m.w.dst, m.w.i + 1, m.w.i)
    ensures g'.chains == g.chains && g'.ks == g.ks
    ensures Relinked(m, g.W, m1.next, g'.W, {}, m.linked, Last(pre))
  {
    var W' := SpliceStore(m, g, pre, Load(m, m.table[m.w.i + |m.w.dst|]));
    g' := g.(W := W');
    SpliceChains(m, g, pre, W');
    SpliceServes(m, g, m1, g');
    SpliceMerging(m, g, m1, g');
  }

  lemma StoreSpliceOk(m: Mem, g: Ghost, pre: seq<Link>, m': Mem) returns (g': Ghost)
    requires Struct(m, g) && DoStoreSplice(m, pre, m')
    ensures Struct(m', g') && g'.chains == g.chains && g'.ks == g.ks
    ensures Relinked(m, g.W, m'.next, g'.W, {}, m.linked, Last(pre))
  {
    assert SplicePhase(m, g, m.w.i);
    var m1 := Store(m, Last(pre), Load(m, m.table[m.w.i + |m.w.dst|]));
    g' := SpliceKeeps(m, g, pre, m1);
    SameMerging(m1, g', m');
  }

  lemma SameMerging(m1: Mem, g: Ghost, m': Mem)
    requires m1.w.Splice? && m1.w.i < |m1.w.dst| && m' == m1.(w := SetHead(m1.w.dst, m1.w.i))
    requires Base(m1, g) && Merging(m1, g, m1.w.dst, m1.w.i + 1, m1.w.i)
    ensures Struct(m', g)
  {
    var n, done := |m1.w.dst|, m1.w.i + 1;
    SameBase(m1, g, m');
    ChainsKept(m1, g, m', g, 2 * n);
    forall b | 0 <= b < 2 * n ensures SplicedAt(m', g, n, done, b) {
      assert SplicedAt(m1, g, n, done, b);
    }
  }

  lemma RelinkedAnyVia(m: Mem, W: map<Link, seq<Link>>, next': map<Link, Ptr>, W': map<Link, seq<Link>>,
                       gained: set<Link>, a: Link, b: Link)
    requires Relinked(m, W, next', W', {}, gained, a)
    ensures Relinked(m, W, next', W', {}, gained, b)
  {
    forall p | Closed(m.next, p) && (forall l :: l in PtrWalk(W, p) ==> l in m.linked + m.limbo)
      ensures RelinkedAt(W, next', W', {}, gained, b, p)
    {
      assert RelinkedAt(W, next', W', {}, gained, a, p);
    }
  }

  lemma SpliceMerging(m: Mem, g: Ghost, m': Mem, g': Ghost)
    requires MergingPair(m) && SplicePhase(m, g, m.w.i)
    requires m'.table == m.table && m'.hash == m.hash && m'.linked == m.linked && m'.heads == m.heads
    requires g' == g.(W := g'.W) && g.chains[m.w.i] != []
    requires forall b {:trigger m.table[b]} :: 0 <= b < 2 * |m.w.dst| ==>
               Chain(g'.W, m.table[b]) == if b == m.w.i then g.chains[b] + g.chains[b + |m.w.dst|]
                 else Chain(g.W, m.table[b])
    requires forall b :: 0 <= b < m.w.i ==> Chain(g'.W, m.w.dst[b]) == Chain(g.W, m.w.dst[b])
    ensures Merging(m', g', m.w.dst, m.w.i + 1, m.w.i)
  {
    var i, dst := m.w.i, m.w.dst;
    var n, done := |dst|, i + 1;
    ChainsKept(m, g, m', g', 2 * n);
    forall b | 0 <= b < i ensures MergedAt(g', dst, n, b) {
      assert MergedAt(g, dst, n, b);
    }
    forall b | 0 <= b < 2 * n ensures SplicedAt(m', g', n, done, b) {
      assert SplicedAt(m, g, n, i, b);
    }
  }

  // The published array still serves everybody: its chains only grew.
  lemma SpliceServes(m: Mem, g: Ghost, m': Mem, g': Ghost)
    requires MergingPair(m) && SplicePhase(m, g, m.w.i)
    requires m'.table == m.table && m'.hash == m.hash && m'.linked == m.linked
    requires forall b {:trigger m.table[b]} :: 0 <= b < 2 * |m.w.dst| ==>
               Chain(g'.W, m.table[b]) == if b == m.w.i then g.chains[b] + g.chains[b + |m.w.dst|]
                 else Chain(g.W, m.table[b])
    ensures Serves(m', g'.W, m'.table)
  {
    hide Chain, IsPow2, Distinct;
    var i, n := m.w.i, |m.w.dst|;
    PairChains(m, g, i);
    assert SplicedAt(m, g, n, i, i);
    forall h | h in m'.table ensures OnlyLinked(m', Chain(g'.W, h)) {
      assert OnlyLinked(m, Chain(g.W, h));
      var b :| 0 <= b < |m.table| && m.table[b] == h;
    }
    forall l | l in m'.linked ensures FindsNode(m', g'.W, m'.table, l) {
      assert FindsNode(m, g.W, m.table, l);
    }
  }

  // Both lists together, whichever of them is empty.
  lemma MergedPtr(m: Mem, g: Ghost, q: Ptr)
    requires MergingPair(m) && SplicePhase(m, g, m.w.i + 1)
    requires var p0, p1 := Load(m, m.table[m.w.i]), Load(m, m.table[m.w.i + |m.w.dst|]);
             q == if p0 == Null then p1 else p0
    ensures PtrWalk(g.W, q) == g.chains[m.w.i] + g.chains[m.w.i + |m.w.dst|]
    ensures Closed(m.next, q) && OnlyLinked(m, PtrWalk(g.W, q))
  {
    var i, n := m.w.i, |m.w.dst|;
    PairChains(m, g, i + 1);
    assert SplicedAt(m, g, n, i + 1, i);
    assert [] + g.chains[i + n] == g.chains[i + n];
  }

  lemma StoreMergedOk(m: Mem, g: Ghost, m': Mem) returns (g': Ghost)
    requires Struct(m, g) && DoStoreMerged(m, m')
    ensures Struct(m', g') && Invisible(m, g.W, m'.next, g'.W) && g'.chains == g.chains && g'.ks == g.ks
  {
    hide Chain, IsPow2, Distinct, Invisible;
    var i, dst := m.w.i, m.w.dst;
    var n := |dst|;
    var p0, p1 := Load(m, m.table[i]), Load(m, m.table[i + n]);
    var q := if p0 == Null then p1 else p0;
    MergedPtr(m, g, q);
    g' := SideStore(m, g, dst, i, q, m');
    ChainsKept(m, g, m', g', 2 * n);
    forall b | 0 <= b < i + 1 ensures MergedAt(g', dst, n, b) {
      if b < i {
        assert MergedAt(g, dst, n, b) && ChainOk(m, g, 2 * n, b) && ChainOk(m, g, 2 * n, b + n);
      }
    }
    var done := i + 1;
    forall b | 0 <= b < 2 * n ensures SplicedAt(m', g', n, done, b) {
      assert SplicedAt(m, g, n, i + 1, b) && m.table[b] in m.table;
    }
  }

  // Halving the array joins buckets b and b + n.
  lemma PublishMergedOk(m: Mem, g: Ghost, m': Mem)
    requires Struct(m, g) && DoPublishMerged(m, m')
    ensures Struct(m', g)
    ensures |g.chains| == 2 * |m'.table|
    ensures forall b :: 0 <= b < |m'.table| ==> Chain(g.W, m'.table[b]) == g.chains[b] + g.chains[b + |m'.table|]
  {
    var dst := m.w.dst;
    var n := |dst|;
    assert IsPow2(n) by { assert (2 * n) / 2 == n; }
    forall b | 0 <= b < n
      ensures Chain(g.W, dst[b]) == g.chains[b] + g.chains[b + n]
      ensures OnlyLinked(m', Chain(g.W, dst[b])) && ProperChain(m', Chain(g.W, dst[b]), n, b)
    {
      assert MergedAt(g, dst, n, b) && ChainOk(m, g, 2 * n, b) && ChainOk(m, g, 2 * n, b + n);
      forall l | l in Chain(g.W, dst[b]) ensures Class(m.hash, l, n) == b {
        BucketSplits(if l in m.hash then m.hash[l] else 0, n);
      }
    }
    forall l | l in m'.linked ensures FindsNode(m', g.W, dst, l) {
      BucketSplits(if l in m.hash then m.hash[l] else 0, n);
      var b := Class(m.hash, l, n);
      assert Chain(g.W, dst[b]) == g.chains[b] + g.chains[b + n];
    }
    forall h | h in dst ensures OnlyLinked(m', Chain(g.W, h)) {
      var b :| 0 <= b < n && dst[b] == h;
    }
    StillServes(m, g, m');
  }

  lemma StillServes(m: Mem, g: Ghost, m': Mem)
    requires Serves(m, g.W, m.table) && m'.hash == m.hash && m'.linked == m.linked
    ensures Serves(m', g.W, m.table)
  {
    forall h | h in m.table ensures OnlyLinked(m', Chain(g.W, h)) {
      assert OnlyLinked(m, Chain(g.W, h));
    }
    forall l | l in m'.linked ensures FindsNode(m', g.W, m.table, l) {
      assert FindsNode(m, g.W, m.table, l);
    }
  }
}
