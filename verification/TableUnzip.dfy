// One round of unzipping, and the end of the expansion.
module TableUnzip {
  import opened Bits
  import opened Walks
  import opened Chains
  import opened TableMachine
  import opened TableInvariant
  import opened TableWriter
  import opened TableExpand

  ghost predicate UnzipPhase(m: Mem, g: Ghost) {
    m.w.Unzip? && m.w.b < |m.w.src| && Base(m, g) && Twins(m, g, m.table, |m.w.src|) && Jumps(m, g, m.w.src)
  }

  // What unzipOneSegment walks over: the jump start a is the last unzipped node of the chain c,
  // the walk behind it is the rest of the chain, and pre is the segment that begins it.
  ghost predicate UnzipPoint(m: Mem, g: Ghost, a: Link, pre: seq<Link>, q: Ptr, k2: nat) {
    && m.w.Unzip? && m.w.b < |m.w.src| == |g.chains| == |g.ks|
    && Load(m, m.w.src[m.w.b]) == To(a)
    && var c, k, n2 := g.chains[m.w.b], g.ks[m.w.b], 2 * |m.w.src|;
    && 0 < k < k2 <= |c| && a == c[k - 1] && a in m.next
    && c[k..k2] == pre && PtrWalk(g.W, m.next[a]) == c[k..]
    && Closed(m.next, q) && PtrWalk(g.W, q) == c[k2..] && (q.To? <==> k2 < |c|)
    && (forall l :: l in pre ==> Class(m.hash, l, n2) != Class(m.hash, a, n2))
    && (k2 < |c| ==> Class(m.hash, c[k2], n2) == Class(m.hash, a, n2))
  }

  // The jump start is reached from the new bucket of its own class, just before the rest.
  lemma JumpWalk(m: Mem, g: Ghost, n: nat, b: nat) returns (p: Ptr)
    requires Base(m, g) && Twins(m, g, m.table, n) && b < n && 0 < g.ks[b] <= |g.chains[b]|
    ensures var c, k, a := g.chains[b], g.ks[b], g.chains[b][g.ks[b] - 1];
            && a in m.next && Closed(m.next, m.next[a]) && PtrWalk(g.W, m.next[a]) == c[k..]
            && g.W[a] == [a] + c[k..] && OnlyLinked(m, g.W[a])
  {
    var c, k := g.chains[b], g.ks[b];
    var a := c[k - 1];
    assert CutOk(m, g, n, b) && ChainOk(m, g, n, b) && a in c;
    var t := Class(m.hash, a, 2 * n);
    TwoClasses(m, g, n, b, a);
    assert TwinAt(m, g, m.table, n, t) && m.table[t] in m.heads;
    ChainIsPtrWalk(m, g.W, m.table[t]);
    KeepLast(m.hash, c, k, 2 * n, t);
    p := Load(m, m.table[t]);
    WalkCut(m.next, g.W, p, Keep(m.hash, c[..k], 2 * n, t), c[k..]);
    assert forall l :: l in c[k..] ==> l in c;
  }

  lemma UnzipSplit(m: Mem, g: Ghost, pre: seq<Link>, q: Ptr, m': Mem) returns (k2: nat)
    requires UnzipPhase(m, g) && DoUnzipOne(m, pre, q, m')
    ensures UnzipPoint(m, g, Load(m, m.w.src[m.w.b]).link, pre, q, k2)
  {
    var b, src := m.w.b, m.w.src;
    var c, k, a := g.chains[b], g.ks[b], Load(m, src[b]).link;
    assert JumpAt(m, g, src, b);
    var p := JumpWalk(m, g, |src|, b);
    SegWalk(m.next, g.W, m.next[a], pre, q);
    k2 := k + |pre|;
    assert c[k..] == pre + PtrWalk(g.W, q);
    assert c[k..k2] == pre && c[k2..] == PtrWalk(g.W, q);
    if q.To? {
      assert WalkAt(m.next, g.W, q.link);
      assert PtrWalk(g.W, q)[0] == q.link == c[k2];
    }
  }

  // The chain of the jump start's own bucket loses the segment.
  lemma UnzipOwnChain(m: Mem, g: Ghost, a: Link, pre: seq<Link>, q: Ptr, k2: nat, i: nat)
    requires UnzipPhase(m, g) && UnzipPoint(m, g, a, pre, q, k2) && i < |m.table| && Half(i, |m.w.src|) == m.w.b
    requires Class(m.hash, a, 2 * |m.w.src|) == i
    ensures Chain(Redirect(g.W, a, q), m.table[i]) == Mix(m.hash, g.chains[m.w.b], k2, 2 * |m.w.src|, i)
  {
    var b, n := m.w.b, |m.w.src|;
    var c, k := g.chains[b], g.ks[b];
    assert TwinAt(m, g, m.table, n, i) && ChainOk(m, g, n, b) && m.table[i] in m.heads;
    NotInRest(c, k, k2);
    RedirectChain(m.next, g.W, a, q, m.table[i]);
    MixDrop(m.hash, c, k, k2, 2 * n, i);
    KeepLast(m.hash, c, k, 2 * n, i);
    ChainIsPtrWalk(m, g.W, m.table[i]);
    var own := Keep(m.hash, c[..k], 2 * n, i);
    WalkCut(m.next, g.W, Load(m, m.table[i]), own, c[k..]);
    assert own[|own| - 1] == a;
  }

  // All other chains stay as they are.
  lemma UnzipOtherChain(m: Mem, g: Ghost, a: Link, pre: seq<Link>, q: Ptr, k2: nat, i: nat)
    requires UnzipPhase(m, g) && UnzipPoint(m, g, a, pre, q, k2) && i < |m.table|
    requires Half(i, |m.w.src|) != m.w.b || Class(m.hash, a, 2 * |m.w.src|) != i
    ensures Chain(Redirect(g.W, a, q), m.table[i]) == Chain(g.W, m.table[i])
    ensures Half(i, |m.w.src|) == m.w.b ==> Chain(g.W, m.table[i]) == Mix(m.hash, g.chains[m.w.b], k2, 2 * |m.w.src|, i)
  {
    var b, n := m.w.b, |m.w.src|;
    var c, k, j := g.chains[b], g.ks[b], Half(i, n);
    assert TwinAt(m, g, m.table, n, i) && ChainOk(m, g, n, j) && ChainOk(m, g, n, b) && m.table[i] in m.heads;
    NotInRest(c, k, k2);
    MixMember(m.hash, g.chains[j], g.ks[j], 2 * n, i, a);
    RedirectChain(m.next, g.W, a, q, m.table[i]);
    if j == b {
      forall l | l in pre ensures Class(m.hash, l, 2 * n) == i {
        assert l in c[k..k2] && l in c;
        TwoClasses(m, g, n, b, l);
        TwoClasses(m, g, n, b, a);
      }
      MixSame(m.hash, c, k, k2, 2 * n, i);
    }
  }

  lemma UnzipCut(m: Mem, g: Ghost, a: Link, pre: seq<Link>, q: Ptr, k2: nat, m1: Mem, g1: Ghost, j: nat)
    requires UnzipPhase(m, g) && UnzipPoint(m, g, a, pre, q, k2) && m1 == Store(m, a, q) && j < |m.w.src|
    requires g1 == Ghost(Redirect(g.W, a, q), g.chains, g.ks[m.w.b := k2])
    ensures CutOk(m1, g1, |m.w.src|, j)
  {
    assert CutOk(m, g, |m.w.src|, j);
    if j == m.w.b && k2 < |g.chains[j]| { assert g.chains[j][k2 - 1] == pre[|pre| - 1]; }
  }

  lemma UnzipTwin(m: Mem, g: Ghost, a: Link, pre: seq<Link>, q: Ptr, k2: nat, m1: Mem, g1: Ghost, i: nat)
    requires UnzipPhase(m, g) && UnzipPoint(m, g, a, pre, q, k2) && m1 == Store(m, a, q) && i < 2 * |m.w.src|
    requires g1 == Ghost(Redirect(g.W, a, q), g.chains, g.ks[m.w.b := k2])
    ensures TwinAt(m1, g1, m1.table, |m.w.src|, i)
  {
    hide Mix, CutOk, Redirect;
    var n := |m.w.src|;
    assert TwinAt(m, g, m.table, n, i);
    UnzipCut(m, g, a, pre, q, k2, m1, g1, Half(i, n));
    if Half(i, n) == m.w.b && Class(m.hash, a, 2 * n) == i {
      UnzipOwnChain(m, g, a, pre, q, k2, i);
    } else {
      UnzipOtherChain(m, g, a, pre, q, k2, i);
    }
  }

  // The reader-visible store, next[a] := q.
  lemma UnzipStore(m: Mem, g: Ghost, a: Link, pre: seq<Link>, q: Ptr, k2: nat, m1: Mem) returns (g1: Ghost)
    requires UnzipPhase(m, g) && UnzipPoint(m, g, a, pre, q, k2) && m1 == Store(m, a, q)
    ensures Base(m1, g1) && Twins(m1, g1, m1.table, |m.w.src|)
    ensures g1.chains == g.chains && g1.ks == g.ks[m.w.b := k2]
    ensures Relinked(m, g.W, m1.next, g1.W, SetOf(pre), {}, a)
  {
    hide TwinAt, CutOk, Redirect, Keep;
    var b, n := m.w.b, |m.w.src|;
    var c, k := g.chains[b], g.ks[b];
    assert ChainOk(m, g, n, b);
    NotInRest(c, k, k2);
    RedirectWalks(m.next, g.W, a, q);
    assert c[k..] == pre + c[k2..];
    RedirectRelinks(m, g.W, a, q, SetOf(pre), {});
    g1 := Ghost(Redirect(g.W, a, q), g.chains, g.ks[b := k2]);
    ChainsKept(m, g, m1, g1, n);
    forall j | 0 <= j < n ensures CutOk(m1, g1, n, j) {
      UnzipCut(m, g, a, pre, q, k2, m1, g1, j);
    }
    forall i | 0 <= i < 2 * n ensures TwinAt(m1, g1, m1.table, n, i) {
      UnzipTwin(m, g, a, pre, q, k2, m1, g1, i);
    }
    TwinsServe(m1, g1, m1.table, n);
  }

  lemma ThenInvisible(m: Mem, W: map<Link, seq<Link>>, m1: Mem, W1: map<Link, seq<Link>>, next': map<Link, Ptr>,
                      W': map<Link, seq<Link>>, lost: set<Link>, via: Link)
    requires Relinked(m, W, m1.next, W1, lost, {}, via) && Invisible(m1, W1, next', W')
    requires m1.linked == m.linked && m1.limbo == m.limbo
    ensures Relinked(m, W, next', W', lost, {}, via)
  {
    forall p | Closed(m.next, p) && (forall l :: l in PtrWalk(W, p) ==> l in m.linked + m.limbo)
      ensures RelinkedAt(W, next', W', lost, {}, via, p)
    {
      assert RelinkedAt(W, m1.next, W1, lost, {}, via, p);
      assert SameFor(m1, W1, next', W', p);
    }
  }

  // The store into the old head afterwards.
  lemma UnzipHead(m1: Mem, g1: Ghost, m': Mem) returns (g': Ghost)
    requires m1.w.Unzip? && m1.w.b < |m1.w.src| && Base(m1, g1) && Twins(m1, g1, m1.table, |m1.w.src|)
             && Beside(m1, m1.w.src)
    requires 0 < g1.ks[m1.w.b] <= |g1.chains[m1.w.b]|
    requires forall i :: 0 <= i < |m1.w.src| && i != m1.w.b ==> JumpAt(m1, g1, m1.w.src, i)
    requires m' == Store(m1, m1.w.src[m1.w.b], JumpPtr(g1.chains[m1.w.b], g1.ks[m1.w.b]))
                   .(w := Unzip(m1.w.src, m1.w.b + 1, true))
    ensures Struct(m', g') && g'.chains == g1.chains && g'.ks == g1.ks
    ensures Invisible(m1, g1.W, m'.next, g'.W)
  {
    var b, src := m1.w.b, m1.w.src;
    var n, j := |src|, JumpPtr(g1.chains[b], g1.ks[b]);
    var p := JumpWalk(m1, g1, n, b);
    var m2 := m'.(w := m1.w);
    assert OnlyLinked(m1, PtrWalk(g1.W, j));
    g' := SideStore(m1, g1, src, b, j, m2);
    ChainsKept(m1, g1, m', g', n);
    TwinsKept(m1, g1, m', g', m1.table, n, 2 * n);
    SameBase(m2, g', m');
    forall i | 0 <= i < n ensures JumpAt(m', g', src, i) {
      if i != b { assert JumpAt(m1, g1, src, i); }
    }
  }

  lemma UnzipOneOk(m: Mem, g: Ghost, pre: seq<Link>, q: Ptr, m': Mem) returns (g': Ghost)
    requires Struct(m, g) && DoUnzipOne(m, pre, q, m')
    ensures Struct(m', g') && g'.chains == g.chains
    ensures |g'.ks| == |g.ks| == |g.chains| && m.w.b < |g.ks| && g'.ks == g.ks[m.w.b := g'.ks[m.w.b]]
    ensures 0 < g.ks[m.w.b] <= |g.chains[m.w.b]| && Load(m, m.w.src[m.w.b]) == To(g.chains[m.w.b][g.ks[m.w.b] - 1])
    ensures Relinked(m, g.W, m'.next, g'.W, SetOf(pre), {}, Load(m, m.w.src[m.w.b]).link)
    ensures UnzipPoint(m, g, Load(m, m.w.src[m.w.b]).link, pre, q, g'.ks[m.w.b])
  {
    var b, a := m.w.b, Load(m, m.w.src[m.w.b]).link;
    assert UnzipPhase(m, g);
    var k2 := UnzipSplit(m, g, pre, q, m');
    var m1 := Store(m, a, q);
    var g1 := UnzipStore(m, g, a, pre, q, k2, m1);
    UnzipOthers(m, g, a, pre, q, k2, m1, g1);
    g' := UnzipHead(m1, g1, m');
    ThenInvisible(m, g.W, m1, g1.W, m'.next, g'.W, SetOf(pre), a);
  }

  // The store behind the jump start leaves all old heads alone.
  lemma UnzipOthers(m: Mem, g: Ghost, a: Link, pre: seq<Link>, q: Ptr, k2: nat, m1: Mem, g1: Ghost)
    requires UnzipPhase(m, g) && UnzipPoint(m, g, a, pre, q, k2) && m1 == Store(m, a, q)
    requires g1.chains == g.chains && g1.ks == g.ks[m.w.b := k2]
    ensures forall i :: 0 <= i < |m.w.src| && i != m.w.b ==> JumpAt(m1, g1, m.w.src, i)
    ensures m.w.src[m.w.b] != a && Beside(m1, m.w.src)
    ensures (if q.To? then To(Last(pre)) else Null) == JumpPtr(g.chains[m.w.b], k2)
  {
    var b, src, c := m.w.b, m.w.src, g.chains[m.w.b];
    assert ChainOk(m, g, |src|, b) && a in c && a in m.linked;
    forall i | 0 <= i < |src| ensures src[i] != a && (i != b ==> JumpAt(m1, g1, src, i)) {
      assert src[i] in src && src[i] in m.heads;
      assert JumpAt(m, g, src, i);
    }
    assert c[k2 - 1] == Last(pre);
  }

  lemma UnzipSkipOk(m: Mem, g: Ghost, m': Mem)
    requires Struct(m, g) && DoUnzipSkip(m, m')
    ensures Struct(m', g)
  {
    var src, b := m.w.src, m.w.b;
    SameAssets(m, g, m', |src|);
    assert JumpAt(m, g, src, b) && CutOk(m, g, |src|, b);
    JumpsKept(m, g, m');
  }

  lemma JumpsKept(m: Mem, g: Ghost, m': Mem)
    requires m' == m.(w := m'.w) && m.w.Unzip? && Jumps(m, g, m.w.src)
    ensures Jumps(m', g, m.w.src)
  {
    forall j | 0 <= j < |m.w.src| ensures JumpAt(m', g, m.w.src, j) {
      assert JumpAt(m, g, m.w.src, j);
    }
  }

  // A round without work leaves every new bucket with exactly its own nodes, in the old order.
  lemma UnzipDoneOk(m: Mem, g: Ghost, m': Mem)
    requires Struct(m, g) && DoUnzipDone(m, m')
    ensures Struct(m', g)
    ensures |m.table| == 2 * |g.chains|
    ensures forall i :: 0 <= i < |m.table| ==>
              Chain(g.W, m.table[i]) == Keep(m.hash, g.chains[Half(i, |g.chains|)], |m.table|, i)
  {
    var n := |m.w.src|;
    SameBase(m, g, m');
    forall i | 0 <= i < 2 * n
      ensures Chain(g.W, m.table[i]) == Keep(m.hash, g.chains[Half(i, n)], 2 * n, i)
      ensures ProperChain(m', Chain(g.W, m.table[i]), 2 * n, i)
    {
      assert TwinAt(m, g, m.table, n, i);
      var c := g.chains[Half(i, n)];
      assert c[..|c|] == c && c[|c|..] == [];
      forall l | l in Chain(g.W, m.table[i]) ensures Class(m.hash, l, 2 * n) == i {
        KeepMember(m.hash, c, 2 * n, i, l);
      }
    }
  }
}
