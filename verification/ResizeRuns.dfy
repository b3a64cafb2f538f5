// What a whole expansion or shrink does to the chains, in every interleaving with lookups.
module ResizeRuns {
  import opened Bits
  import opened Walks
  import opened Chains
  import opened TableMachine
  import opened TableInvariant
  import opened TableReaders
  import opened Lookup
  import TW = TableWriter
  import TU = TableUnzip
  import TS = TableShrink

  // c is the whole list behind head h.
  ghost predicate ChainAt(m: Mem, h: Link, c: seq<Link>) {
    h in m.next && Seg(m.next, m.next[h], c, Null)
  }

  lemma ChainAtIs(m: Mem, W: map<Link, seq<Link>>, h: Link, c: seq<Link>)
    requires WalkMap(m.next, W) && ChainAt(m, h, c)
    ensures c == Chain(W, h)
  {
    TW.ChainIsPtrWalk(m, W, h);
    SegWalk(m.next, W, m.next[h], c, Null);
  }

  // Every bucket of the table has such a list, in every reachable state.
  lemma ChainExists(ss: seq<State>, acts: seq<Action>, k: nat, b: nat)
    requires Run(ss, acts) && Init(ss[0]) && k < |ss| && b < |ss[k].m.table|
    ensures exists c :: ChainAt(ss[k].m, ss[k].m.table[b], c)
  {
    RunGood(ss, acts, k);
    var g := GhostOf(ss[k]);
    var m := ss[k].m;
    var h := m.table[b];
    assert h in m.heads;
    TW.ChainIsPtrWalk(m, g.W, h);
    var c := Chain(g.W, h);
    var q := WalkSeg(m.next, g.W, m.next[h], |c|);
    EmptyWalk(m.next, g.W, q);
    assert c[..|c|] == c && ChainAt(m, h, c);
  }

  // cs are the chains of the table in m.
  ghost predicate OldChains(m: Mem, cs: seq<seq<Link>>) {
    |cs| == |m.table| && forall b, c :: 0 <= b < |cs| && ChainAt(m, m.table[b], c) ==> c == cs[b]
  }

  predicate Expanding(w: Writer) {
    w.InitTwin? || w.ExpandPublished? || w.FindStarts? || w.Unzip?
      || (w.Sync? && (w.resume.ToFindStarts? || w.resume.ToUnzip?))
  }

  predicate Joining(w: Writer) {
    w.Splice? || w.SetHead?
  }

  lemma BeginRecords(s: State, g: Ghost, a: WAction, s': State, g': Ghost)
    requires Inv(s, g) && Step(s, Write(a), s') && (a.BeginExpand? || a.BeginShrink?) && GhostMoves(s.m, g, a, g')
    ensures OldChains(s.m, g'.chains) && s'.m.hash == s.m.hash && s'.m.table == s.m.table
    ensures if a.BeginExpand? then Expanding(s'.m.w) else Joining(s'.m.w)
  {
    forall b, c | 0 <= b < |s.m.table| && ChainAt(s.m, s.m.table[b], c) ensures c == g'.chains[b] {
      ChainAtIs(s.m, g.W, s.m.table[b], c);
    }
  }

  lemma StaysExpanding(s: State, g: Ghost, a: Action, s': State, g': Ghost)
    requires Inv(s, g) && Step(s, a, s') && Expanding(s.m.w) && a != Write(UnzipDone)
    requires if a.Write? then GhostMoves(s.m, g, a.wa, g') else g' == g
    ensures Expanding(s'.m.w) && s'.m.hash == s.m.hash && g'.chains == g.chains
  {
  }

  lemma StaysJoining(s: State, g: Ghost, a: Action, s': State, g': Ghost)
    requires Inv(s, g) && Step(s, a, s') && Joining(s.m.w) && a != Write(PublishMerged)
    requires if a.Write? then GhostMoves(s.m, g, a.wa, g') else g' == g
    ensures Joining(s'.m.w) && s'.m.hash == s.m.hash && g'.chains == g.chains
  {
  }

  // The resize that begins with action i is still under way in state k.
  ghost predicate Resizing(ss: seq<State>, acts: seq<Action>, i: nat, k: nat, expand: bool) {
    && Run(ss, acts) && Init(ss[0]) && i < k < |ss|
    && acts[i].Write? && (if expand then acts[i].wa.BeginExpand? else acts[i].wa.BeginShrink?)
    && forall j :: i < j < k ==> acts[j] != Write(if expand then UnzipDone else PublishMerged)
  }

  lemma {:induction false} ResizeRecords(ss: seq<State>, acts: seq<Action>, i: nat, k: nat, expand: bool)
    returns (g: Ghost)
    requires Resizing(ss, acts, i, k, expand)
    ensures Inv(ss[k], g) && OldChains(ss[i].m, g.chains) && ss[k].m.hash == ss[i].m.hash
    ensures if expand then Expanding(ss[k].m.w) else Joining(ss[k].m.w)
    decreases k
  {
    hide Inv, Step, GhostMoves, OldChains, Good;
    var s, a, s' := ss[k - 1], acts[k - 1], ss[k];
    assert StepAt(ss, acts, k - 1);
    if k == i + 1 {
      RunGood(ss, acts, i);
      var g0 := GhostOf(s);
      g := StepInv(s, g0, a, s');
      BeginRecords(s, g0, a.wa, s', g);
    } else {
      var g0 := ResizeRecords(ss, acts, i, k - 1, expand);
      g := StepInv(s, g0, a, s');
      if expand {
        StaysExpanding(s, g0, a, s', g);
      } else {
        StaysJoining(s, g0, a, s', g);
      }
    }
  }

  lemma GhostOf(s: State) returns (g: Ghost)
    requires Good(s)
    ensures Inv(s, g)
  {
    g :| Inv(s, g);
  }

  // When an expansion ends, each new chain is the stable filter of the chain its old bucket had
  // when the expansion began.
  lemma ExpansionSplits(ss: seq<State>, acts: seq<Action>, i: nat, k: nat, j: nat, c: seq<Link>, d: seq<Link>)
    requires Resizing(ss, acts, i, k, true) && k < |acts| && acts[k] == Write(UnzipDone)
    requires j < |ss[k + 1].m.table| && ChainAt(ss[k + 1].m, ss[k + 1].m.table[j], d)
    requires Half(j, |ss[i].m.table|) < |ss[i].m.table| && ChainAt(ss[i].m, ss[i].m.table[Half(j, |ss[i].m.table|)], c)
    ensures |ss[k + 1].m.table| == 2 * |ss[i].m.table|
    ensures d == Keep(ss[i].m.hash, c, |ss[k + 1].m.table|, j)
  {
    var g := ResizeRecords(ss, acts, i, k, true);
    assert StepAt(ss, acts, k);
    TU.UnzipDoneOk(ss[k].m, g, ss[k + 1].m);
    ChainAtIs(ss[k + 1].m, g.W, ss[k + 1].m.table[j], d);
  }

  // And at every moment in between, the chain of each new bucket holds all of that bucket's nodes
  // in their old order, and otherwise only nodes of the same old chain.
  lemma ExpansionKeepsOrder(ss: seq<State>, acts: seq<Action>, i: nat, k: nat, j: nat, c: seq<Link>, d: seq<Link>)
    requires Resizing(ss, acts, i, k, true) && !ss[k].m.w.InitTwin?
    requires j < |ss[k].m.table| && ChainAt(ss[k].m, ss[k].m.table[j], d)
    requires Half(j, |ss[i].m.table|) < |ss[i].m.table| && ChainAt(ss[i].m, ss[i].m.table[Half(j, |ss[i].m.table|)], c)
    ensures |ss[k].m.table| == 2 * |ss[i].m.table|
    ensures Keep(ss[i].m.hash, d, |ss[k].m.table|, j) == Keep(ss[i].m.hash, c, |ss[k].m.table|, j)
    ensures forall l :: l in d ==> l in c
  {
    var g := ResizeRecords(ss, acts, i, k, true);
    var m, n := ss[k].m, |g.chains|;
    assert Twins(m, g, m.table, n);
    assert TwinAt(m, g, m.table, n, j);
    ChainAtIs(m, g.W, m.table[j], d);
    KeepMix(m.hash, c, g.ks[Half(j, n)], 2 * n, j);
    forall l | l in d ensures l in c {
      MixMember(m.hash, c, g.ks[Half(j, n)], 2 * n, j, l);
    }
  }

  // h heads a list over old bucket b of n: it is a head of the published array, or one of those
  // that the expansion has set in the array it is still preparing.
  predicate HeadOver(m: Mem, n: nat, h: Link, b: nat) {
    || (exists j :: 0 <= j < |m.table| && m.table[j] == h && Half(j, n) == b)
    || (m.w.InitTwin? && exists j :: 0 <= j < m.w.i && j < |m.w.dst| && m.w.dst[j] == h && Half(j, n) == b)
  }

  // Lists over different old buckets never meet, at any moment of an expansion.
  lemma ExpansionKeepsApart(ss: seq<State>, acts: seq<Action>, i: nat, k: nat, h: Link, h': Link, b: nat, b': nat,
                            d: seq<Link>, d': seq<Link>, l: Link)
    requires Resizing(ss, acts, i, k, true)
    requires HeadOver(ss[k].m, |ss[i].m.table|, h, b) && ChainAt(ss[k].m, h, d) && l in d
    requires HeadOver(ss[k].m, |ss[i].m.table|, h', b') && ChainAt(ss[k].m, h', d') && l in d'
    ensures b == b'
  {
    var g := ResizeRecords(ss, acts, i, k, true);
    OnItsOldChain(ss[k].m, g, |ss[i].m.table|, h, b, d, l);
    OnItsOldChain(ss[k].m, g, |ss[i].m.table|, h', b', d', l);
  }

  lemma OnItsOldChain(m: Mem, g: Ghost, n: nat, h: Link, b: nat, d: seq<Link>, l: Link)
    requires Struct(m, g) && Expanding(m.w) && n == |g.chains|
    requires HeadOver(m, n, h, b) && ChainAt(m, h, d) && l in d
    ensures n > 0 && Class(m.hash, l, n) == b
  {
    ChainAtIs(m, g.W, h, d);
    if m.w.InitTwin? {
      if j :| 0 <= j < |m.table| && m.table[j] == h && Half(j, n) == b {
        assert ProperChain(m, Chain(g.W, m.table[j]), n, j);
      } else {
        var j :| 0 <= j < m.w.i && j < |m.w.dst| && m.w.dst[j] == h && Half(j, n) == b;
        OnMixed(m, g, n, m.w.dst, j, d, l);
      }
    } else {
      var j :| 0 <= j < |m.table| && m.table[j] == h && Half(j, n) == b;
      assert Twins(m, g, m.table, n);
      OnMixed(m, g, n, m.table, j, d, l);
    }
  }

  lemma OnMixed(m: Mem, g: Ghost, n: nat, arr: seq<Link>, j: nat, d: seq<Link>, l: Link)
    requires n > 0 && ChainsOk(m, g, n) && |g.ks| == n && j < |arr| == 2 * n && TwinAt(m, g, arr, n, j)
    requires d == Chain(g.W, arr[j]) && l in d
    ensures Class(m.hash, l, n) == Half(j, n)
  {
    assert ChainOk(m, g, n, Half(j, n));
    MixMember(m.hash, g.chains[Half(j, n)], g.ks[Half(j, n)], 2 * n, j, l);
  }

  // At every moment while a shrink joins its chains, a published bucket of the lower half leads to
  // its old chain, or to that with the chain of its partner behind it; the upper half is untouched.
  // So nothing is lost or reordered, and what a walk gains belongs to the partner bucket.
  lemma ShrinkKeepsOrder(ss: seq<State>, acts: seq<Action>, i: nat, k: nat, b: nat, c: seq<Link>, c': seq<Link>,
                         d: seq<Link>)
    requires Resizing(ss, acts, i, k, false)
    requires b < |ss[k].m.table| && ChainAt(ss[k].m, ss[k].m.table[b], d)
    requires b < |ss[i].m.table| && ChainAt(ss[i].m, ss[i].m.table[b], c)
    requires var n := |ss[i].m.table| / 2; b < n ==> ChainAt(ss[i].m, ss[i].m.table[b + n], c')
    ensures |ss[k].m.table| == |ss[i].m.table|
    ensures d == c || (b < |ss[i].m.table| / 2 && d == c + c')
  {
    var g := ResizeRecords(ss, acts, i, k, false);
    var m := ss[k].m;
    var n, done := |m.w.dst|, if m.w.Splice? then m.w.i else m.w.i + 1;
    assert Merging(m, g, m.w.dst, done, m.w.i);
    assert SplicedAt(m, g, n, done, b);
    ChainAtIs(m, g.W, m.table[b], d);
  }

  // And the heads that are set already in the array being prepared lead to the joined chains.
  lemma ShrinkPrepares(ss: seq<State>, acts: seq<Action>, i: nat, k: nat, b: nat, c: seq<Link>, c': seq<Link>,
                       d: seq<Link>)
    requires Resizing(ss, acts, i, k, false) && (ss[k].m.w.Splice? || ss[k].m.w.SetHead?)
    requires b < ss[k].m.w.i && b < |ss[k].m.w.dst| && ChainAt(ss[k].m, ss[k].m.w.dst[b], d)
    requires b + |ss[k].m.w.dst| < |ss[i].m.table| && ChainAt(ss[i].m, ss[i].m.table[b], c)
    requires ChainAt(ss[i].m, ss[i].m.table[b + |ss[k].m.w.dst|], c')
    ensures |ss[i].m.table| == 2 * |ss[k].m.w.dst| && d == c + c'
  {
    var g := ResizeRecords(ss, acts, i, k, false);
    var m := ss[k].m;
    assert Merging(m, g, m.w.dst, if m.w.Splice? then m.w.i else m.w.i + 1, m.w.i);
    assert MergedAt(g, m.w.dst, |m.w.dst|, b);
    ChainAtIs(m, g.W, m.w.dst[b], d);
  }

  // When a shrink publishes its array, each new chain is its two old chains, one behind the other.
  lemma ShrinkJoins(ss: seq<State>, acts: seq<Action>, i: nat, k: nat, b: nat, c0: seq<Link>, c1: seq<Link>,
                    d: seq<Link>)
    requires Resizing(ss, acts, i, k, false) && k < |acts| && acts[k] == Write(PublishMerged)
    requires b < |ss[k + 1].m.table| && ChainAt(ss[k + 1].m, ss[k + 1].m.table[b], d)
    requires b + |ss[k + 1].m.table| < |ss[i].m.table|
    requires ChainAt(ss[i].m, ss[i].m.table[b], c0) && ChainAt(ss[i].m, ss[i].m.table[b + |ss[k + 1].m.table|], c1)
    ensures |ss[i].m.table| == 2 * |ss[k + 1].m.table| && d == c0 + c1
  {
    var g := ResizeRecords(ss, acts, i, k, false);
    assert StepAt(ss, acts, k);
    TS.PublishMergedOk(ss[k].m, g, ss[k + 1].m);
    ChainAtIs(ss[k + 1].m, g.W, ss[k + 1].m.table[b], d);
  }
}
