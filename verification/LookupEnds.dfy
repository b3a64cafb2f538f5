// A lookup ends: it examines no node twice, whatever the writer does meanwhile, so its own steps
// are bounded by the nodes there are.
module LookupEnds {
  import opened Bits
  import opened Walks
  import opened Chains
  import opened TableMachine
  import opened TableInvariant
  import opened TableReaders
  import opened Lookup
  import TW = TableWriter
  import TS = TableShrink
  import GP = GracePeriod

  // ----- the nodes a lookup has met or can still meet -----

  // The linked ones among s are in the bucket of hash value h.
  ghost predicate Pure(m: Mem, h: nat, s: set<Link>, n: nat) {
    n > 0 && forall l :: l in s && l in m.linked ==> Class(m.hash, l, n) == BucketOf(h, n)
  }

  // The chain that hash value h has in the smaller array is unzipped to its end.
  ghost predicate Finished(g: Ghost, h: nat) {
    var n := |g.chains|;
    n > 0 && BucketOf(h, n) < n == |g.ks| && g.ks[BucketOf(h, n)] == |g.chains[BucketOf(h, n)]|
  }

  // A grace period will wait for reader t before it matters what it has met.
  predicate Waived(w: Writer, gp: GP.Gp, t: Tid, b: nat) {
    match w
    case ExpandPublished(_) => true
    case ShrinkPublished(_) => true
    case Unzip(_, done, again) => again && b < done
    case Sync(_) => t in gp.waiting
    case _ => false
  }

  predicate Unfolding(w: Writer) {
    w.ExpandPublished? || w.FindStarts? || w.Unzip? || (w.Sync? && (w.resume.ToFindStarts? || w.resume.ToUnzip?))
  }

  function HalfBucketOf(g: Ghost, h: nat): nat {
    if |g.chains| > 0 then BucketOf(h, |g.chains|) else 0
  }

  // s is the trail of a lookup for h: everything it has met, and everything ahead of it. It stays
  // within the bucket of h, but for chains that are being unzipped or have been joined.
  ghost predicate TrailOk(m: Mem, g: Ghost, gp: GP.Gp, t: Tid, h: nat, s: set<Link>) {
    match m.w
    case Splice(dst, i) => JoinTrail(m, h, s, |dst|, i)
    case SetHead(dst, i) => JoinTrail(m, h, s, |dst|, i + 1)
    case _ =>
      !Waived(m.w, gp, t, HalfBucketOf(g, h)) && (Unfolding(m.w) ==> Finished(g, h)) ==> Pure(m, h, s, |m.table|)
  }

  ghost predicate JoinTrail(m: Mem, h: nat, s: set<Link>, n: nat, done: nat) {
    Pure(m, h, s, n) && (BucketOf(h, n) >= done ==> Pure(m, h, s, |m.table|))
  }

  lemma PureKept(m: Mem, h: nat, s: set<Link>, n: nat, m': Mem, s': set<Link>)
    requires Pure(m, h, s, n) && s' <= s
    requires forall l :: l in s' && l in m'.linked ==> l in m.linked && Class(m'.hash, l, n) == Class(m.hash, l, n)
    ensures Pure(m', h, s', n)
  {
  }

  // Linked nodes of the trail have been linked before, with the same hash value.
  lemma TrailStays(m: Mem, a: WAction, m': Mem, s: set<Link>)
    requires WStep(m, a, m') && s <= m.linked + m.limbo && m.linked <= m.hash.Keys
    requires m.w.LinkHead? ==> m.w.n !in m.linked + m.limbo
    ensures forall l :: l in s && l in m'.linked ==> l in m.linked && l in m'.hash && m'.hash[l] == m.hash[l]
  {
  }

  // Buckets of the doubled count agree only within one bucket.
  lemma SameHalf(x: nat, y: nat, n: nat)
    requires IsPow2(n)
    ensures BucketOf(x, 2 * n) == BucketOf(y, 2 * n) ==> BucketOf(x, n) == BucketOf(y, n)
    ensures BucketOf(x, n) < n && (BucketOf(x, 2 * n) == BucketOf(x, n) || BucketOf(x, 2 * n) == BucketOf(x, n) + n)
  {
    BucketSplits(x, n);
    BucketSplits(y, n);
  }

  lemma PureHalf(m: Mem, h: nat, s: set<Link>, n: nat)
    requires IsPow2(n) && Pure(m, h, s, 2 * n)
    ensures Pure(m, h, s, n)
  {
    forall l | l in s && l in m.linked ensures Class(m.hash, l, n) == BucketOf(h, n) {
      SameHalf(if l in m.hash then m.hash[l] else 0, h, n);
    }
  }

  // ----- the writer's actions -----

  // Actions after which no walk has gained a node: the trail shrinks at most.
  lemma TrailWrite(m: Mem, g: Ghost, a: WAction, m': Mem, g': Ghost, gp: GP.Gp, gp': GP.Gp, t: Tid, h: nat,
                   s: set<Link>, s': set<Link>)
    requires Struct(m, g) && WStep(m, a, m') && GhostMoves(m, g, a, g') && !a.StoreSplice?
    requires GpOk(m, gp) && GpOk(m', gp') && t in gp.inside
    requires SameGp(a, gp, gp') || (a.BeginSync? && gp'.waiting == gp.inside) || (a.EndSync? && gp.waiting == {})
    requires s' <= s <= m.linked + m.limbo && TrailOk(m, g, gp, t, h, s)
    ensures TrailOk(m', g', gp', t, h, s')
  {
    TrailStays(m, a, m', s);
    hide Struct, WStep;
    if m.w.Splice? || m.w.SetHead? {
      JoinWrite(m, g, a, m', g', gp', t, h, s, s');
    } else if a.BeginShrink? {
      BeginJoin(m, g, a, m', g', gp, gp', t, h, s, s');
    } else if Unfolding(m.w) {
      UnfoldWrite(m, g, a, m', g', gp, gp', t, h, s, s');
    } else {
      OtherWrite(m, g, a, m', g', gp, gp', t, h, s, s');
    }
  }

  lemma JoinWrite(m: Mem, g: Ghost, a: WAction, m': Mem, g': Ghost, gp': GP.Gp, t: Tid, h: nat, s: set<Link>,
                  s': set<Link>)
    requires (m.w.Splice? || m.w.SetHead?) && WStep(m, a, m') && !a.StoreSplice? && s' <= s
    requires JoinTrail(m, h, s, |m.w.dst|, if m.w.Splice? then m.w.i else m.w.i + 1)
    ensures TrailOk(m', g', gp', t, h, s')
  {
    if !a.PublishMerged? {
      PureKept(m, h, s, |m.w.dst|, m', s');
      if Pure(m, h, s, |m.table|) {
        PureKept(m, h, s, |m.table|, m', s');
      }
    }
  }

  lemma BeginJoin(m: Mem, g: Ghost, a: WAction, m': Mem, g': Ghost, gp: GP.Gp, gp': GP.Gp, t: Tid, h: nat, s: set<Link>,
                  s': set<Link>)
    requires Struct(m, g) && WStep(m, a, m') && a.BeginShrink? && s' <= s && TrailOk(m, g, gp, t, h, s)
    ensures TrailOk(m', g', gp', t, h, s')
  {
    var n := |m.table| / 2;
    assert |m.table| == 2 * n && IsPow2(n);
    PureKept(m, h, s, |m.table|, m', s');
    PureHalf(m', h, s', n);
  }

  lemma UnfoldWrite(m: Mem, g: Ghost, a: WAction, m': Mem, g': Ghost, gp: GP.Gp, gp': GP.Gp, t: Tid, h: nat,
                    s: set<Link>, s': set<Link>)
    requires Struct(m, g) && WStep(m, a, m') && GhostMoves(m, g, a, g') && Unfolding(m.w)
    requires GpOk(m, gp) && GpOk(m', gp') && t in gp.inside
    requires SameGp(a, gp, gp') || (a.BeginSync? && gp'.waiting == gp.inside) || (a.EndSync? && gp.waiting == {})
    requires s' <= s && TrailOk(m, g, gp, t, h, s)
    ensures TrailOk(m', g', gp', t, h, s')
  {
    if Pure(m, h, s, |m.table|) {
      UnfoldKeeps(m, a, m');
      PureKept(m, h, s, |m.table|, m', s');
    }
    if a.BeginSync? || a.EndSync? {
      UnfoldSync(m, g, a, m', g', gp, gp', t, h, s, s');
    } else {
      if a.UnzipDone? {
        AllFinished(m, g, h);
      }
      UnfoldStep(m, g, a, m', g', gp, gp', t, h, s, s');
    }
  }

  lemma UnfoldKeeps(m: Mem, a: WAction, m': Mem)
    requires WStep(m, a, m') && Unfolding(m.w)
    ensures m'.linked == m.linked && m'.hash == m.hash && m'.table == m.table
  {
  }

  lemma UnfoldSync(m: Mem, g: Ghost, a: WAction, m': Mem, g': Ghost, gp: GP.Gp, gp': GP.Gp, t: Tid, h: nat,
                   s: set<Link>, s': set<Link>)
    requires WStep(m, a, m') && GhostMoves(m, g, a, g') && Unfolding(m.w) && (a.BeginSync? || a.EndSync?)
    requires GpOk(m, gp) && GpOk(m', gp') && t in gp.inside
    requires (a.BeginSync? && gp'.waiting == gp.inside) || (a.EndSync? && gp.waiting == {})
    requires TrailOk(m, g, gp, t, h, s) && (Pure(m, h, s, |m.table|) ==> Pure(m', h, s', |m.table|))
    ensures TrailOk(m', g', gp', t, h, s')
  {
    hide Pure;
  }

  lemma UnfoldStep(m: Mem, g: Ghost, a: WAction, m': Mem, g': Ghost, gp: GP.Gp, gp': GP.Gp, t: Tid, h: nat,
                   s: set<Link>, s': set<Link>)
    requires WStep(m, a, m') && GhostMoves(m, g, a, g') && Unfolding(m.w) && SameGp(a, gp, gp')
    requires GpOk(m, gp) && GpOk(m', gp') && (a.UnzipDone? ==> Finished(g, h))
    requires TrailOk(m, g, gp, t, h, s) && (Pure(m, h, s, |m.table|) ==> Pure(m', h, s', |m.table|))
    ensures TrailOk(m', g', gp', t, h, s')
  {
    hide Pure;
  }

  // A round without work finds every chain finished.
  lemma AllFinished(m: Mem, g: Ghost, h: nat)
    requires Struct(m, g) && m.w.Unzip? && m.w.b == |m.w.src| && !m.w.again
    ensures Finished(g, h)
  {
    BucketInRange(h, |m.w.src|);
  }

  lemma OtherWrite(m: Mem, g: Ghost, a: WAction, m': Mem, g': Ghost, gp: GP.Gp, gp': GP.Gp, t: Tid, h: nat,
                   s: set<Link>, s': set<Link>)
    requires WStep(m, a, m') && !Unfolding(m.w) && !m.w.Splice? && !m.w.SetHead? && !a.BeginShrink?
    requires GpOk(m, gp) && GpOk(m', gp') && t in gp.inside
    requires SameGp(a, gp, gp') || (a.BeginSync? && gp'.waiting == gp.inside) || (a.EndSync? && gp.waiting == {})
    requires s' <= s && TrailOk(m, g, gp, t, h, s)
    requires forall l :: l in s && l in m'.linked ==> l in m.linked && l in m'.hash && m'.hash[l] == m.hash[l]
    requires m.linked <= m.hash.Keys
    ensures TrailOk(m', g', gp', t, h, s')
  {
    if Pure(m, h, s, |m.table|) {
      PureKept(m, h, s, |m.table|, m', s');
    }
  }

  // ----- the splice -----

  // Putting chain i + n behind chain i lengthens the walks that pass the end of chain i, and no
  // others.
  lemma SpliceGains(m: Mem, g: Ghost, pre: seq<Link>, m': Mem, g': Ghost, p: Ptr)
    requires Struct(m, g) && Struct(m', g') && DoStoreSplice(m, pre, m') && Closed(m.next, p)
    ensures m.w.i + |m.w.dst| < |g.chains| && Last(pre) in g.chains[m.w.i] && Last(pre) in m.linked
    ensures Closed(m'.next, p)
    ensures PtrWalk(g'.W, p) == PtrWalk(g.W, p)
                                + if Last(pre) in PtrWalk(g.W, p) then g.chains[m.w.i + |m.w.dst|] else []
  {
    SpliceFacts(m, g, pre);
    assert WalkMap(m'.next, g'.W);
    hide Struct, WalkMap, PtrWalk;
    var a, q := Last(pre), Load(m, m.table[m.w.i + |m.w.dst|]);
    AppendAtEnd(m.next, g.W, a, q, g'.W, p);
  }

  lemma SpliceFacts(m: Mem, g: Ghost, pre: seq<Link>)
    requires Struct(m, g) && MergingPair(m) && m.w.Splice? && pre != []
             && Seg(m.next, Load(m, m.table[m.w.i]), pre, Null)
    ensures WalkMap(m.next, g.W) && m.w.i + |m.w.dst| < |g.chains|
    ensures var a, q := Last(pre), Load(m, m.table[m.w.i + |m.w.dst|]);
            && a in g.chains[m.w.i] && a in m.linked && a in m.next && m.next[a] == Null && Closed(m.next, q)
            && PtrWalk(g.W, q) == g.chains[m.w.i + |m.w.dst|] && a !in PtrWalk(g.W, q)
  {
    TS.SplicePoint(m, g, pre);
  }

  // A store into the last link of a list lengthens the walks that arrive there.
  lemma AppendAtEnd(next: map<Link, Ptr>, W: map<Link, seq<Link>>, a: Link, q: Ptr, W': map<Link, seq<Link>>, p: Ptr)
    requires WalkMap(next, W) && a in next && next[a] == Null && Closed(next, q) && a !in PtrWalk(W, q)
    requires WalkMap(next[a := q], W') && Closed(next, p)
    ensures PtrWalk(W', p) == PtrWalk(W, p) + if a in PtrWalk(W, p) then PtrWalk(W, q) else []
  {
    RedirectWalks(next, W, a, q);
    RedirectPtr(next, W, a, q, p);
    if p.To? {
      WalksUnique(next[a := q], Redirect(W, a, q), W', p.link);
    }
  }

  // The chains of a joining shrink, as the trail sees them.
  lemma JoinedChains(m: Mem, g: Ghost)
    requires Struct(m, g) && (m.w.Splice? || m.w.SetHead?)
    ensures var n := |m.w.dst|;
            && n > 0 && IsPow2(n) && |m.table| == 2 * n == |g.chains|
            && forall b :: 0 <= b < 2 * n ==> ChainOk(m, g, 2 * n, b)
  {
  }

  // A trail that arrives at the end of chain i has met nothing of chain i + n yet.
  lemma PartnerIsNew(m: Mem, h: nat, s: set<Link>, n: nat, i: nat, a: Link, c: seq<Link>)
    requires JoinTrail(m, h, s, n, i) && IsPow2(n) && i < n && |m.table| == 2 * n
    requires a in s && a in m.linked && Class(m.hash, a, 2 * n) == i
    requires forall l :: l in c ==> l in m.linked && Class(m.hash, l, 2 * n) == i + n
    ensures BucketOf(h, n) == i && forall l :: l in c ==> l !in s && Class(m.hash, l, n) == i
  {
    SameHalf(if a in m.hash then m.hash[a] else 0, h, n);
    forall l | l in c ensures l !in s && Class(m.hash, l, n) == i {
      SameHalf(if l in m.hash then m.hash[l] else 0, h, n);
    }
  }

  lemma JoinedTrail(m: Mem, h: nat, s: set<Link>, n: nat, i: nat, c: seq<Link>, m': Mem)
    requires JoinTrail(m, h, s, n, i) && m'.hash == m.hash && m'.linked == m.linked && m'.table == m.table
    requires c == [] || (BucketOf(h, n) == i && forall l :: l in c ==> Class(m.hash, l, n) == i)
    ensures JoinTrail(m', h, s + SetOf(c), n, i + 1)
  {
  }

  lemma PairOfChains(m: Mem, g: Ghost)
    requires Struct(m, g) && m.w.Splice? && MergingPair(m)
    ensures var i, n := m.w.i, |m.w.dst|;
            && n > 0 && IsPow2(n) && |m.table| == 2 * n == |g.chains|
            && (forall l :: l in g.chains[i] ==> l in m.linked && Class(m.hash, l, 2 * n) == i)
            && (forall l :: l in g.chains[i + n] ==> l in m.linked && Class(m.hash, l, 2 * n) == i + n)
  {
    JoinedChains(m, g);
    assert ChainOk(m, g, 2 * |m.w.dst|, m.w.i) && ChainOk(m, g, 2 * |m.w.dst|, m.w.i + |m.w.dst|);
  }

  lemma SpliceState(m: Mem, pre: seq<Link>, m': Mem)
    requires DoStoreSplice(m, pre, m')
    ensures m.w.Splice? && MergingPair(m) && m'.w == SetHead(m.w.dst, m.w.i) && pre != []
    ensures m'.hash == m.hash && m'.linked == m.linked && m'.table == m.table
  {
  }

  lemma TrailSplice(m: Mem, g: Ghost, pre: seq<Link>, m': Mem, g': Ghost, gp: GP.Gp, gp': GP.Gp, t: Tid, h: nat, p: Ptr,
                    seen: set<Link>)
    requires Struct(m, g) && Struct(m', g') && DoStoreSplice(m, pre, m') && Closed(m.next, p)
    requires TrailOk(m, g, gp, t, h, seen + SetOf(PtrWalk(g.W, p))) && seen !! SetOf(PtrWalk(g.W, p))
    ensures TrailOk(m', g', gp', t, h, seen + SetOf(PtrWalk(g'.W, p))) && seen !! SetOf(PtrWalk(g'.W, p))
  {
    hide Struct, DoStoreSplice, JoinTrail, Class, IsPow2, Seg, PtrWalk, MergingPair, Closed, Waived, Finished;
    SpliceState(m, pre, m');
    SpliceGains(m, g, pre, m', g', p);
    PairOfChains(m, g);
    var s := seen + SetOf(PtrWalk(g.W, p));
    var i, n, walk := m.w.i, |m.w.dst|, PtrWalk(g.W, p);
    var c := if Last(pre) in walk then g.chains[i + n] else [];
    if c != [] {
      assert Last(pre) in s;
      PartnerIsNew(m, h, s, n, i, Last(pre), c);
    }
    JoinedTrail(m, h, s, n, i, c, m');
    LongerWalk(seen, walk, c);
  }

  lemma LongerWalk(seen: set<Link>, walk: seq<Link>, c: seq<Link>)
    requires seen !! SetOf(walk) && forall l :: l in c ==> l !in seen
    ensures seen + SetOf(walk + c) == seen + SetOf(walk) + SetOf(c) && seen !! SetOf(walk + c)
  {
  }

  // ----- the reader's own steps -----

  // A lookup that has just loaded a bucket head has met nothing yet, and what is ahead is in order.
  lemma LoadTrail(m: Mem, g: Ghost, gp: GP.Gp, t: Tid, h: nat, info: seq<Link>, i: nat)
    requires Struct(m, g) && GpOk(m, gp) && InfoOk(m, gp, t, info) && i < |info| && i == BucketOf(h, |info|)
    ensures TrailOk(m, g, gp, t, h, SetOf(PtrWalk(g.W, Load(m, info[i]))))
  {
    LoadHeadOk(m, g, gp, t, h, info, i);
    if m.w.Splice? || m.w.SetHead? {
      LoadJoining(m, g, h, i);
    } else if Unfolding(m.w) {
      if info == m.table && !m.w.ExpandPublished? {
        LoadUnfolding(m, g, h, i);
      }
    } else if info == m.table && Proper(m, g.W, m.table) {
      assert ProperChain(m, Chain(g.W, m.table[i]), |m.table|, i);
    }
  }

  lemma LoadUnfolding(m: Mem, g: Ghost, h: nat, i: nat)
    requires Struct(m, g) && Unfolding(m.w) && i < |m.table| && i == BucketOf(h, |m.table|)
    ensures Finished(g, h) ==> Pure(m, h, SetOf(Chain(g.W, m.table[i])), |m.table|)
  {
    var n := |g.chains|;
    TwinsOf(m, g);
    SameHalf(h, h, n);
    assert TwinAt(m, g, m.table, n, i);
    var c := g.chains[Half(i, n)];
    if Finished(g, h) {
      assert c[..|c|] == c && c[|c|..] == [];
      forall l | l in Chain(g.W, m.table[i]) ensures Class(m.hash, l, 2 * n) == i {
        KeepMember(m.hash, c, 2 * n, i, l);
      }
    }
  }

  lemma TwinsOf(m: Mem, g: Ghost)
    requires Struct(m, g) && Unfolding(m.w)
    ensures Twins(m, g, m.table, |g.chains|) && IsPow2(|g.chains|)
  {
  }

  // What stands behind a published head while chains are joined.
  lemma JoiningHead(m: Mem, g: Ghost, i: nat)
    requires Struct(m, g) && (m.w.Splice? || m.w.SetHead?) && i < |m.table|
    ensures var n, done, c := |m.w.dst|, if m.w.Splice? then m.w.i else m.w.i + 1, Chain(g.W, m.table[i]);
            && n > 0 && IsPow2(n) && |m.table| == 2 * n && done <= n
            && forall l :: l in c ==> Class(m.hash, l, 2 * n) == i || (i < done && Class(m.hash, l, 2 * n) == i + n)
  {
    JoinedChains(m, g);
    var n, done := |m.w.dst|, if m.w.Splice? then m.w.i else m.w.i + 1;
    assert SplicedAt(m, g, n, done, i) by { assert Merging(m, g, m.w.dst, done, m.w.i); }
    hide Struct;
    assert ChainOk(m, g, 2 * n, i) && (i < n ==> ChainOk(m, g, 2 * n, i + n));
  }

  lemma LoadJoining(m: Mem, g: Ghost, h: nat, i: nat)
    requires Struct(m, g) && (m.w.Splice? || m.w.SetHead?) && i < |m.table| && i == BucketOf(h, |m.table|)
    ensures JoinTrail(m, h, SetOf(Chain(g.W, m.table[i])), |m.w.dst|, if m.w.Splice? then m.w.i else m.w.i + 1)
  {
    hide Struct, Chain, BucketOf;
    JoiningHead(m, g, i);
    var n := |m.w.dst|;
    SameHalf(h, h, n);
    forall l | l in Chain(g.W, m.table[i]) ensures Class(m.hash, l, n) == BucketOf(h, n) {
      SameHalf(if l in m.hash then m.hash[l] else 0, h, n);
    }
  }

  // ----- runs -----

  // The node that action k lets reader t examine, if any
  function Examined(ss: seq<State>, acts: seq<Action>, k: nat, t: Tid): set<Link>
    requires k < |acts| < |ss|
  {
    if acts[k] == Read(t, Examine) && t < |ss[k].rs| && ss[k].rs[t].In? && ss[k].rs[t].look.At?
      && ss[k].rs[t].look.p.To?
    then {ss[k].rs[t].look.p.link} else {}
  }

  // The nodes that reader t has examined by the actions acts[i..k]
  function Seen(ss: seq<State>, acts: seq<Action>, i: nat, k: nat, t: Tid): set<Link>
    requires k <= |acts| < |ss|
  {
    if k <= i then {} else Seen(ss, acts, i, k - 1, t) + Examined(ss, acts, k - 1, t)
  }

  // Reader t's own actions among acts[i..k]
  function OwnSteps(acts: seq<Action>, i: nat, k: nat, t: Tid): nat
    requires k <= |acts|
  {
    if k <= i then 0 else OwnSteps(acts, i, k - 1, t) + if acts[k - 1].Read? && acts[k - 1].t == t then 1 else 0
  }

  // Reader t has started a lookup for h with action i, and has not finished it in state k.
  ghost predicate Search(ss: seq<State>, acts: seq<Action>, i: nat, k: nat, t: Tid, h: nat, want: set<Link>) {
    && Run(ss, acts) && Init(ss[0]) && i < k <= |acts| && acts[i] == Read(t, StartFind(h, want))
    && forall j :: i < j <= k ==> t < |ss[j].rs| && Looking(ss[j].rs[t])
  }

  // What the nodes that a lookup has seen have to do with those it can still meet.
  ghost predicate SeenOk(s: State, g: Ghost, t: Tid, h: nat, seen: set<Link>) {
    && t < |s.rs| && Looking(s.rs[t]) && s.rs[t].look.h == h
    && match s.rs[t].look
       case HasInfo(_, _, _) => seen == {}
       case At(_, _, p) =>
         && seen <= Reachable(s.m, s.gp, t) && seen !! SetOf(PtrWalk(g.W, p))
         && TrailOk(s.m, g, s.gp, t, h, seen + SetOf(PtrWalk(g.W, p)))
       case _ => false
  }

  lemma SeenWrite(s: State, g: Ghost, wa: WAction, s': State, g': Ghost, t: Tid, h: nat, seen: set<Link>)
    requires Inv(s, g) && Inv(s', g') && Step(s, Write(wa), s') && GhostMoves(s.m, g, wa, g')
    requires Relinked(s.m, g.W, s'.m.next, g'.W, Lost(wa), Gained(s.m, wa), Via(s.m, wa))
    requires SeenOk(s, g, t, h, seen)
    ensures SeenOk(s', g', t, h, seen)
  {
    WriteFacts(s, g, wa, s', t);
    if s.rs[t].look.At? {
      var p := s.rs[t].look.p;
      assert Struct(s.m, g) && Struct(s'.m, g') && GpOk(s.m, s.gp) && GpOk(s'.m, s'.gp);
      hide Inv, Step, Struct, WStep, TrailOk, GhostMoves;
      if wa.StoreSplice? {
        TrailSplice(s.m, g, wa.pre, s'.m, g', s.gp, s'.gp, t, h, p, seen);
      } else {
        assert RelinkedAt(g.W, s'.m.next, g'.W, Lost(wa), Gained(s.m, wa), Via(s.m, wa), p);
        TrailWrite(s.m, g, wa, s'.m, g', s.gp, s'.gp, t, h,
                   seen + SetOf(PtrWalk(g.W, p)), seen + SetOf(PtrWalk(g'.W, p)));
      }
    }
  }

  lemma WriteFacts(s: State, g: Ghost, wa: WAction, s': State, t: Tid)
    requires Inv(s, g) && Step(s, Write(wa), s') && t < |s.rs| && s.rs[t].In?
    ensures s'.rs == s.rs && t in s.gp.inside && WStep(s.m, wa, s'.m) && GpOk(s'.m, s'.gp)
    ensures SameGp(wa, s.gp, s'.gp) || (wa.BeginSync? && s'.gp.waiting == s.gp.inside)
            || (wa.EndSync? && s.gp.waiting == {})
    ensures Reachable(s.m, s.gp, t) <= Reachable(s'.m, s'.gp, t)
    ensures s.rs[t].look.At? ==> CursorOk(s.m, g, s.gp, t, s.rs[t].look.h, s.rs[t].look.p)
    ensures wa.StoreSplice? ==> DoStoreSplice(s.m, wa.pre, s'.m)
  {
    assert ReaderOk(s.m, g, s.gp, t, s.rs[t]);
    ReachableGrows(s.m, wa, s'.m, s.gp, s'.gp, t);
  }

  lemma SeenLoad(s: State, g: Ghost, s': State, t: Tid, h: nat)
    requires Inv(s, g) && Step(s, Read(t, LoadHead), s') && SeenOk(s, g, t, h, {})
    ensures SeenOk(s', g, t, h, {}) && s'.rs[t].look.At?
  {
    var look := s.rs[t].look;
    assert ReaderOk(s.m, g, s.gp, t, s.rs[t]);
    LoadTrail(s.m, g, s.gp, t, h, look.info, BucketOf(h, |look.info|));
    assert {} + SetOf(PtrWalk(g.W, s'.rs[t].look.p)) == SetOf(PtrWalk(g.W, s'.rs[t].look.p));
  }

  // The node just examined is behind the cursor from now on.
  lemma SeenExamine(s: State, g: Ghost, s': State, t: Tid, h: nat, seen: set<Link>)
    requires Inv(s, g) && Step(s, Read(t, Examine), s') && SeenOk(s, g, t, h, seen)
    requires Looking(s'.rs[t]) && s.rs[t].look.At?
    ensures s.rs[t].look.p.To? && s.rs[t].look.p.link !in seen
    ensures SeenOk(s', g, t, h, seen + {s.rs[t].look.p.link}) && s'.rs[t].look.At?
  {
    var p, p' := s.rs[t].look.p, s'.rs[t].look.p;
    assert ReaderOk(s.m, g, s.gp, t, s.rs[t]) && WalkAt(s.m.next, g.W, p.link);
    WalkDistinct(s.m.next, g.W, p.link);
    var l, rest := p.link, PtrWalk(g.W, p');
    assert PtrWalk(g.W, p) == [l] + rest;
    var w := g.W[l];
    assert w == [l] + rest && w[0] == l && forall k :: 0 <= k < |rest| ==> w[k + 1] == rest[k];
    assert l !in rest;
    assert (seen + {l}) + SetOf(rest) == seen + SetOf([l] + rest);
  }

  // What others do, the writer apart, leaves the trail alone.
  lemma SeenOther(s: State, g: Ghost, a: Action, s': State, t: Tid, h: nat, seen: set<Link>)
    requires Inv(s, g) && Step(s, a, s') && !a.Write? && !(a.Read? && a.t == t) && SeenOk(s, g, t, h, seen)
    requires t < |s'.rs| && Looking(s'.rs[t])
    ensures SeenOk(s', g, t, h, seen) && s'.rs[t] == s.rs[t]
  {
    assert s'.m == s.m && s'.rs[t] == s.rs[t];
    assert t in s'.gp.waiting <==> t in s.gp.waiting;
    assert s'.gp.syncing == s.gp.syncing;
  }

  lemma SearchBegins(s: State, t: Tid, h: nat, want: set<Link>, s': State, g: Ghost)
    requires Step(s, Read(t, StartFind(h, want)), s')
    ensures SeenOk(s', g, t, h, {}) && s'.rs[t].look.HasInfo?
  {
  }

  lemma OwnStepIs(s: State, ra: RAction, s': State, t: Tid)
    requires Step(s, Read(t, ra), s') && t < |s.rs| && Looking(s.rs[t])
    ensures ra == if s.rs[t].look.HasInfo? then LoadHead else Examine
  {
  }

  lemma {:induction false} SearchOk(ss: seq<State>, acts: seq<Action>, i: nat, k: nat, t: Tid, h: nat, want: set<Link>)
    returns (g: Ghost)
    requires Search(ss, acts, i, k, t, h, want)
    ensures Inv(ss[k], g) && SeenOk(ss[k], g, t, h, Seen(ss, acts, i, k, t))
    ensures OwnSteps(acts, i + 1, k, t) == |Seen(ss, acts, i, k, t)| + if ss[k].rs[t].look.At? then 1 else 0
    decreases k
  {
    hide Inv, Step, SeenOk, Init;
    var s, a, s' := ss[k - 1], acts[k - 1], ss[k];
    assert StepAt(ss, acts, k - 1);
    assert Looking(ss[k].rs[t]);
    RunGood(ss, acts, k - 1);
    if k == i + 1 {
      var g0 := AnyGhost(s);
      g := StepInv(s, g0, a, s');
      SearchBegins(s, t, h, want, s', g);
      assert Seen(ss, acts, i, k, t) == {};
    } else {
      var g0 := SearchOk(ss, acts, i, k - 1, t, h, want);
      g := StepInv(s, g0, a, s');
      var seen := Seen(ss, acts, i, k - 1, t);
      assert Looking(s.rs[t]);
      SearchStep(s, g0, a, s', g, t, h, seen);
    }
  }

  lemma AnyGhost(s: State) returns (g: Ghost)
    requires Good(s)
    ensures Inv(s, g)
  {
    g :| Inv(s, g);
  }

  lemma SearchStep(s: State, g: Ghost, a: Action, s': State, g': Ghost, t: Tid, h: nat, seen: set<Link>)
    requires Inv(s, g) && Inv(s', g') && Step(s, a, s') && SeenOk(s, g, t, h, seen) && t < |s.rs| && Looking(s.rs[t])
    requires if a.Write? then GhostMoves(s.m, g, a.wa, g')
                              && Relinked(s.m, g.W, s'.m.next, g'.W, Lost(a.wa), Gained(s.m, a.wa), Via(s.m, a.wa))
             else g' == g
    requires t < |s'.rs| && Looking(s'.rs[t])
    ensures var own := a.Read? && a.t == t;
            && (!own ==> SeenOk(s', g', t, h, seen) && s'.rs[t].look.At? == s.rs[t].look.At?)
            && (own && s.rs[t].look.HasInfo? ==>
                  a == Read(t, LoadHead) && seen == {} && SeenOk(s', g', t, h, {}) && s'.rs[t].look.At?)
            && (own && s.rs[t].look.At? ==>
                  && a == Read(t, Examine) && s.rs[t].look.p.To? && s.rs[t].look.p.link !in seen
                  && SeenOk(s', g', t, h, seen + {s.rs[t].look.p.link}) && s'.rs[t].look.At?)
  {
    if a.Write? {
      WriteFacts(s, g, a.wa, s', t);
      hide Inv, Step, SeenOk;
      SeenWrite(s, g, a.wa, s', g', t, h, seen);
    } else if a.Read? && a.t == t {
      OwnStepIs(s, a.ra, s', t);
      if s.rs[t].look.HasInfo? {
        SeenLoad(s, g, s', t, h);
      } else {
        SeenExamine(s, g, s', t, h, seen);
      }
    } else {
      SeenOther(s, g, a, s', t, h, seen);
    }
  }

  // A lookup examines no node twice, in any run.
  lemma NoNodeTwice(ss: seq<State>, acts: seq<Action>, i: nat, k: nat, t: Tid, h: nat, want: set<Link>)
    requires Search(ss, acts, i, k, t, h, want) && k < |acts| && acts[k] == Read(t, Examine)
    ensures Examined(ss, acts, k, t) !! Seen(ss, acts, i, k, t)
  {
    var g := SearchOk(ss, acts, i, k, t, h, want);
    if Examined(ss, acts, k, t) != {} {
      CursorAhead(ss[k], g, t);
    }
  }

  lemma CursorAhead(s: State, g: Ghost, t: Tid)
    requires Inv(s, g) && t < |s.rs| && s.rs[t].In? && s.rs[t].look.At? && s.rs[t].look.p.To?
    ensures s.rs[t].look.p.link in PtrWalk(g.W, s.rs[t].look.p)
  {
    assert ReaderOk(s.m, g, s.gp, t, s.rs[t]) && WalkAt(s.m.next, g.W, s.rs[t].look.p.link);
  }

  // So a lookup that is still under way has taken no more steps of its own than there are nodes
  // linked or waiting for a grace period, and one for the bucket head.
  lemma LookupIsBounded(ss: seq<State>, acts: seq<Action>, i: nat, k: nat, t: Tid, h: nat, want: set<Link>)
    requires Search(ss, acts, i, k, t, h, want)
    ensures OwnSteps(acts, i + 1, k, t) <= 1 + |ss[k].m.linked| + |ss[k].m.limbo|
  {
    var g := SearchOk(ss, acts, i, k, t, h, want);
    SeenIsOnLedger(ss[k], g, t, h, Seen(ss, acts, i, k, t));
  }

  lemma SeenIsOnLedger(s: State, g: Ghost, t: Tid, h: nat, seen: set<Link>)
    requires SeenOk(s, g, t, h, seen)
    ensures |seen| <= |s.m.linked| + |s.m.limbo|
  {
    hide TrailOk, PtrWalk;
    var m := s.m;
    SubsetSize(seen, m.linked + m.limbo);
    SubsetSize(m.limbo - m.linked, m.limbo);
    assert m.linked + m.limbo == m.linked + (m.limbo - m.linked);
  }

  lemma SubsetSize(a: set<Link>, b: set<Link>)
    requires a <= b
    ensures |a| <= |b|
  {
    assert b == a + (b - a);
  }
}
