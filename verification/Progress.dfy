// The writer is never stuck, and every resize ends: in any state there is a next action unless a
// grace period still waits for readers, and the actions a resize can take are bounded.
module Progress {
  import opened Bits
  import opened Walks
  import opened Chains
  import opened TableMachine
  import opened TableInvariant
  import opened TableReaders
  import opened Lookup
  import TW = TableWriter
  import TU = TableUnzip
  import TS = TableShrink
  import GP = GracePeriod

  // ----- the next action -----

  // The first node of class t in c, or with flag false the first of another class
  lemma FirstOf(hash: map<Link, nat>, c: seq<Link>, n: nat, t: nat, flag: bool) returns (k: nat)
    requires n > 0
    ensures k <= |c| && forall x :: 0 <= x < k ==> (Class(hash, c[x], n) == t) != flag
    ensures k < |c| ==> (Class(hash, c[k], n) == t) == flag
  {
    k := 0;
    while k < |c| && (Class(hash, c[k], n) == t) != flag
      invariant k <= |c| && forall x :: 0 <= x < k ==> (Class(hash, c[x], n) == t) != flag
    {
      k := k + 1;
    }
  }

  // A reader at p that passes the first i nodes of its walk arrives at q.
  lemma PassTo(m: Mem, W: map<Link, seq<Link>>, p: Ptr, i: nat) returns (q: Ptr)
    requires WalkMap(m.next, W) && Closed(m.next, p) && i <= |PtrWalk(W, p)|
    ensures Seg(m.next, p, PtrWalk(W, p)[..i], q)
    ensures q == if i < |PtrWalk(W, p)| then To(PtrWalk(W, p)[i]) else Null
  {
    q := WalkSeg(m.next, W, p, i);
    EmptyWalk(m.next, W, q);
  }

  lemma NextTwin(m: Mem, g: Ghost) returns (a: WAction, m': Mem)
    requires Struct(m, g) && m.w.InitTwin?
    ensures WStep(m, a, m')
  {
    var dst, i, n := m.w.dst, m.w.i, |m.table|;
    if i == |dst| {
      a, m' := PublishTwins, m.(table := dst, w := ExpandPublished(m.table));
    } else {
      var h := m.table[Half(i, n)];
      assert h in m.heads;
      TW.ChainIsPtrWalk(m, g.W, h);
      var c := Chain(g.W, h);
      var k := FirstOf(m.hash, c, 2 * n, i, true);
      var q := PassTo(m, g.W, Load(m, h), k);
      a, m' := StoreTwin(c[..k], q), Store(m, dst[i], q).(w := InitTwin(dst, i + 1));
      assert WStep(m, a, m');
    }
  }

  lemma NextFind(m: Mem, g: Ghost) returns (a: WAction, m': Mem)
    requires Struct(m, g) && m.w.FindStarts?
    ensures WStep(m, a, m')
  {
    var src, b := m.w.src, m.w.b;
    if b == |src| {
      a, m' := FindDone, m.(w := Unzip(src, 0, false));
      return;
    }
    var h := src[b];
    if Load(m, h) == Null {
      a, m' := FindSkip, m.(w := FindStarts(src, b + 1));
      return;
    }
    assert h in src && h in m.heads;
    TW.ChainIsPtrWalk(m, g.W, h);
    var c := Chain(g.W, h);
    EmptyWalk(m.next, g.W, Load(m, h));
    var k := FirstOf(m.hash, c, 2 * |src|, Class(m.hash, c[0], 2 * |src|), false);
    var q := PassTo(m, g.W, Load(m, h), k);
    a, m' := FindStart(c[..k], q), Store(m, h, if q.To? then To(Last(c[..k])) else Null).(w := FindStarts(src, b + 1));
    assert WStep(m, a, m');
  }

  lemma NextUnzip(m: Mem, g: Ghost) returns (a: WAction, m': Mem)
    requires Struct(m, g) && m.w.Unzip?
    ensures WStep(m, a, m')
  {
    var src, b := m.w.src, m.w.b;
    if b == |src| {
      a, m' := if m.w.again then BeginSync else UnzipDone, m.(w := if m.w.again then Sync(ToUnzip(src)) else Idle);
      return;
    }
    var h := src[b];
    if Load(m, h) == Null {
      a, m' := UnzipSkip, m.(w := Unzip(src, b + 1, m.w.again));
      return;
    }
    assert JumpAt(m, g, src, b) && CutOk(m, g, |src|, b);
    var c, k := g.chains[b], g.ks[b];
    var _ := TU.JumpWalk(m, g, |src|, b);
    var l := Load(m, h).link;
    assert c[k..][0] == c[k];
    var j := FirstOf(m.hash, c[k..], 2 * |src|, Class(m.hash, l, 2 * |src|), true);
    var q := PassTo(m, g.W, m.next[l], j);
    var pre := c[k..][..j];
    var jump := if q.To? then To(Last(pre)) else Null;
    a, m' := UnzipOne(pre, q), Store(Store(m, h, jump), l, q).(w := Unzip(src, b + 1, true));
    assert WStep(m, a, m');
  }

  lemma NextSplice(m: Mem, g: Ghost) returns (a: WAction, m': Mem)
    requires Struct(m, g) && m.w.Splice?
    ensures WStep(m, a, m')
  {
    var dst, i, n := m.w.dst, m.w.i, |m.w.dst|;
    if i == n {
      a, m' := PublishMerged, m.(table := dst, w := ShrinkPublished(m.table));
    } else if Load(m, m.table[i]) == Null || Load(m, m.table[i + n]) == Null {
      a, m' := SpliceSkip, m.(w := SetHead(dst, i));
    } else {
      TS.PairChains(m, g, i);
      var c := PtrWalk(g.W, Load(m, m.table[i]));
      var q := PassTo(m, g.W, Load(m, m.table[i]), |c|);
      assert c[..|c|] == c;
      a, m' := StoreSplice(c), Store(m, Last(c), Load(m, m.table[i + n])).(w := SetHead(dst, i));
      assert WStep(m, a, m');
    }
  }

  lemma NextHead(m: Mem, g: Ghost) returns (a: WAction, m': Mem)
    requires Struct(m, g) && (m.w.LinkHead? || m.w.SetHead?)
    ensures WStep(m, a, m')
  {
    match m.w
    case LinkHead(n, b) => a, m' := StoreHead, Store(m, m.table[b], To(n)).(linked := m.linked + {n}, w := Idle);
    case SetHead(dst, i) =>
      var p := if Load(m, m.table[i]) == Null then Load(m, m.table[i + |dst|]) else Load(m, m.table[i]);
      a, m' := StoreMerged, Store(m, dst[i], p).(w := Splice(dst, i + 1));
  }

  lemma NextSync(m: Mem) returns (a: WAction, m': Mem)
    requires m.w.Idle? || m.w.ExpandPublished? || m.w.ShrinkPublished? || m.w.Sync?
    ensures WStep(m, a, m') && (m.w.Sync? <==> a.EndSync?)
  {
    match m.w
    case Idle => a, m' := BeginSync, m.(w := Sync(ToIdle));
    case ExpandPublished(src) => a, m' := BeginSync, m.(w := Sync(ToFindStarts(src)));
    case ShrinkPublished(src) => a, m' := BeginSync, m.(w := Sync(ToFree(src)));
    case Sync(r) =>
      a := EndSync;
      m' := m.(limbo := {}, w := match r
                                 case ToFindStarts(src) => FindStarts(src, 0)
                                 case ToUnzip(src) => Unzip(src, 0, false)
                                 case _ => Idle);
  }

  // From every state the writer has a next action, as far as the table is concerned.
  lemma NextAction(m: Mem, g: Ghost) returns (a: WAction, m': Mem)
    requires Struct(m, g)
    ensures WStep(m, a, m')
  {
    hide Struct, WStep;
    match m.w
    case LinkHead(_, _) => a, m' := NextHead(m, g);
    case SetHead(_, _) => a, m' := NextHead(m, g);
    case InitTwin(_, _) => a, m' := NextTwin(m, g);
    case FindStarts(_, _) => a, m' := NextFind(m, g);
    case Unzip(_, _, _) => a, m' := NextUnzip(m, g);
    case Splice(_, _) => a, m' := NextSplice(m, g);
    case _ => a, m' := NextSync(m);
  }

  // The writer has a next step in a reachable state exactly if it does not wait for a reader.
  lemma StuckOnlyByReaders(s: State)
    requires Good(s)
    ensures (exists wa, s' :: Step(s, Write(wa), s')) <==> (s.m.w.Sync? ==> s.gp.waiting == {})
  {
    var g :| Inv(s, g);
    if s.m.w.Sync? ==> s.gp.waiting == {} {
      var wa, m' := NextAction(s.m, g);
      var s' := NextState(s, wa, m');
    }
  }

  // The grace period goes along with a writer action.
  lemma NextState(s: State, wa: WAction, m': Mem) returns (s': State)
    requires GpOk(s.m, s.gp) && WStep(s.m, wa, m') && (s.m.w.Sync? ==> s.gp.waiting == {})
    ensures Step(s, Write(wa), s') && s'.m == m' && s'.rs == s.rs && s'.gp.inside == s.gp.inside
  {
    var gp := match wa
              case BeginSync => s.gp.(syncing := true, waiting := s.gp.inside)
              case EndSync => s.gp.(syncing := false)
              case _ => s.gp;
    s' := State(m', s.rs, gp);
  }

  // A lookup always has a next step of its own, whatever the writer is doing.
  lemma LookupNeverStuck(s: State, t: Tid)
    requires Good(s) && t < |s.rs| && Looking(s.rs[t])
    ensures exists ra, s' :: Step(s, Read(t, ra), s')
  {
    var g :| Inv(s, g);
    assert ReaderOk(s.m, g, s.gp, t, s.rs[t]);
    var r, look := s.rs[t], s.rs[t].look;
    if look.HasInfo? {
      InfoIsPow2(s.m, g, s.gp, t, look.info);
      BucketInRange(look.h, |look.info|);
      var r' := r.(look := At(look.h, look.want, Load(s.m, look.info[BucketOf(look.h, |look.info|)])));
      assert Step(s, Read(t, LoadHead), s.(rs := s.rs[t := r']));
    } else {
      var r' := match look.p
                case Null => r.(look := Missed)
                case To(l) =>
                  if l in look.want && l in s.m.hash && s.m.hash[l] == look.h then In(r.hits + {l}, Found(l))
                  else r.(look := look.(p := Load(s.m, l)));
      assert Step(s, Read(t, Examine), s.(rs := s.rs[t := r']));
    }
  }

  lemma InfoIsPow2(m: Mem, g: Ghost, gp: GP.Gp, t: Tid, info: seq<Link>)
    requires Struct(m, g) && InfoOk(m, gp, t, info)
    ensures IsPow2(|info|)
  {
  }

  // ----- how many actions are left -----

  // The nodes of the first b recorded chains that are not unzipped yet
  ghost function Uncut(chains: seq<seq<Link>>, ks: seq<nat>, b: nat): int
    requires b <= |chains| == |ks|
  {
    if b == 0 then 0 else Uncut(chains, ks, b - 1) + |chains[b - 1]| - ks[b - 1]
  }

  ghost function UncutAll(g: Ghost): int {
    if |g.chains| == |g.ks| then Uncut(g.chains, g.ks, |g.chains|) else 0
  }

  // From the first round of unzipping on: every round but the last unzips some node, and takes an
  // action a bucket, and two more for its grace period.
  function UnzipCost(uncut: int, n: nat): int {
    uncut * (n + 3) + n + 1
  }

  ghost function StepsLeft(m: Mem, g: Ghost): int {
    match m.w
    case Idle => 0
    case LinkHead(_, _) => 1
    case InitTwin(dst, i) => |dst| - i + |m.table| + 4 + UnzipCost(|m.linked|, |m.table|)
    case ExpandPublished(src) => |src| + 3 + UnzipCost(|m.linked|, |src|)
    case FindStarts(src, b) => |src| - b + 1 + UnzipCost(|m.linked|, |src|)
    case Unzip(src, b, again) => UnzipCost(UncutAll(g), |src|) - b + if again then |src| + 2 else 0
    case Splice(dst, i) => 2 * (|dst| - i) + 3
    case SetHead(dst, i) => 2 * (|dst| - i) + 2
    case ShrinkPublished(_) => 2
    case Sync(ToFindStarts(src)) => |src| + 2 + UnzipCost(|m.linked|, |src|)
    case Sync(ToUnzip(src)) => UnzipCost(UncutAll(g), |src|) + 1
    case Sync(_) => 1
  }

  // Unzipping a segment saves a whole round.
  lemma CostDrops(u: int, v: int, n: nat)
    requires v < u
    ensures UnzipCost(v, n) + n + 3 <= UnzipCost(u, n)
  {
    assert (u - v - 1) * (n + 3) >= 0;
  }

  lemma CostGrows(u: int, v: int, n: nat)
    requires u <= v
    ensures UnzipCost(u, n) <= UnzipCost(v, n)
  {
    assert (v - u) * (n + 3) >= 0;
  }

  lemma {:induction false} UncutMoves(chains: seq<seq<Link>>, ks: seq<nat>, i: nat, k: nat, b: nat)
    requires b <= |chains| == |ks| && i < |ks|
    ensures Uncut(chains, ks[i := k], b) == Uncut(chains, ks, b) + if i < b then ks[i] - k else 0
  {
    if b > 0 {
      UncutMoves(chains, ks, i, k, b - 1);
    }
  }

  lemma {:induction false} SetOfSize(s: seq<Link>)
    requires Distinct(s)
    ensures |SetOf(s)| == |s|
  {
    if s != [] {
      SetOfSize(s[1..]);
      assert SetOf(s) == {s[0]} + SetOf(s[1..]);
    }
  }

  // The recorded chains share no node, so together they hold no more than the linked nodes.
  lemma {:induction false} UncutNodes(m: Mem, g: Ghost, n: nat, b: nat) returns (on: set<Link>)
    requires ChainsOk(m, g, n) && CutsOk(m, g, n) && b <= n
    ensures on <= m.linked && (forall l :: l in on ==> Class(m.hash, l, n) < b)
    ensures 0 <= Uncut(g.chains, g.ks, b) <= |on|
  {
    if b == 0 {
      on := {};
    } else {
      var rest := UncutNodes(m, g, n, b - 1);
      assert ChainOk(m, g, n, b - 1) && CutOk(m, g, n, b - 1);
      SetOfSize(g.chains[b - 1]);
      on := rest + SetOf(g.chains[b - 1]);
      assert rest !! SetOf(g.chains[b - 1]);
    }
  }

  lemma UncutBound(m: Mem, g: Ghost, n: nat)
    requires ChainsOk(m, g, n) && CutsOk(m, g, n)
    ensures 0 <= UncutAll(g) <= |m.linked|
  {
    var on := UncutNodes(m, g, n, n);
    assert |m.linked| == |on| + |m.linked - on|;
  }

  lemma UnzipDrops(m: Mem, g: Ghost, a: WAction, m': Mem, g': Ghost)
    requires Struct(m, g) && WStep(m, a, m') && GhostMoves(m, g, a, g') && m.w.Unzip?
    ensures StepsLeft(m', g') < StepsLeft(m, g)
  {
    var src, b := m.w.src, m.w.b;
    var n := |src|;
    UncutBound(m, g, n);
    if a.UnzipOne? {
      UncutMoves(g.chains, g.ks, b, g'.ks[b], n);
      CostDrops(UncutAll(g), UncutAll(g'), n);
    } else {
      CostGrows(0, UncutAll(g), n);
    }
  }

  lemma FindDrops(m: Mem, g: Ghost, a: WAction, m': Mem, g': Ghost)
    requires Struct(m, g) && WStep(m, a, m') && GhostMoves(m, g, a, g') && m.w.FindStarts?
    ensures StepsLeft(m', g') < StepsLeft(m, g)
  {
    if a.FindDone? {
      UncutBound(m, g, |m.w.src|);
      CostGrows(UncutAll(g), |m.linked|, |m.w.src|);
    }
  }

  lemma SyncDrops(m: Mem, g: Ghost, a: WAction, m': Mem, g': Ghost)
    requires WStep(m, a, m') && GhostMoves(m, g, a, g') && (m.w.ExpandPublished? || m.w.ShrinkPublished? || m.w.Sync?)
    ensures StepsLeft(m', g') < StepsLeft(m, g)
  {
  }

  lemma OthersDrop(m: Mem, g: Ghost, a: WAction, m': Mem, g': Ghost)
    requires WStep(m, a, m') && GhostMoves(m, g, a, g')
             && (m.w.LinkHead? || m.w.InitTwin? || m.w.Splice? || m.w.SetHead?)
    ensures StepsLeft(m', g') < StepsLeft(m, g)
  {
  }

  // Every action of a writer that is not idle brings the end of its operation nearer.
  lemma StepsDrop(m: Mem, g: Ghost, a: WAction, m': Mem, g': Ghost)
    requires Struct(m, g) && WStep(m, a, m') && GhostMoves(m, g, a, g') && m.w != Idle
    ensures StepsLeft(m', g') < StepsLeft(m, g)
  {
    hide Struct, WStep, GhostMoves, StepsLeft;
    match m.w
    case Unzip(_, _, _) => UnzipDrops(m, g, a, m', g');
    case FindStarts(_, _) => FindDrops(m, g, a, m', g');
    case ExpandPublished(_) => SyncDrops(m, g, a, m', g');
    case ShrinkPublished(_) => SyncDrops(m, g, a, m', g');
    case Sync(_) => SyncDrops(m, g, a, m', g');
    case _ => OthersDrop(m, g, a, m', g');
  }

  lemma StepsLeftIsNat(m: Mem, g: Ghost)
    requires Struct(m, g)
    ensures StepsLeft(m, g) >= 0
  {
    CostGrows(0, |m.linked|, |m.table|);
    match m.w
    case ExpandPublished(src) => CostGrows(0, |m.linked|, |src|);
    case FindStarts(src, _) => CostGrows(0, |m.linked|, |src|);
    case Unzip(src, _, _) => UncutBound(m, g, |src|); CostGrows(0, UncutAll(g), |src|);
    case Sync(ToFindStarts(src)) => CostGrows(0, |m.linked|, |src|);
    case Sync(ToUnzip(src)) => UncutBound(m, g, |src|); CostGrows(0, UncutAll(g), |src|);
    case _ =>
  }

  // ----- runs -----

  // The writer's actions among acts[i..k]
  function Writes(acts: seq<Action>, i: nat, k: nat): nat
    requires k <= |acts|
  {
    if k <= i then 0 else Writes(acts, i, k - 1) + if acts[k - 1].Write? then 1 else 0
  }

  // From state i to state k the writer is never idle.
  ghost predicate BusyFrom(ss: seq<State>, acts: seq<Action>, i: nat, k: nat) {
    Run(ss, acts) && Init(ss[0]) && i <= k < |ss| && forall j :: i <= j < k ==> ss[j].m.w != Idle
  }

  lemma {:induction false} BusyIsBounded(ss: seq<State>, acts: seq<Action>, i: nat, k: nat, g: Ghost)
    returns (g': Ghost)
    requires BusyFrom(ss, acts, i, k) && Inv(ss[i], g)
    ensures Inv(ss[k], g') && 0 <= StepsLeft(ss[k].m, g')
            && Writes(acts, i, k) + StepsLeft(ss[k].m, g') <= StepsLeft(ss[i].m, g)
    decreases k
  {
    hide Inv, Step, GhostMoves, StepsLeft, Init;
    if i == k {
      g' := g;
    } else {
      var g0 := BusyIsBounded(ss, acts, i, k - 1, g);
      assert StepAt(ss, acts, k - 1);
      g' := StepInv(ss[k - 1], g0, acts[k - 1], ss[k]);
      BusyStep(ss[k - 1], g0, acts[k - 1], ss[k], g');
    }
    InvIsNat(ss[k], g');
  }

  lemma InvIsNat(s: State, g: Ghost)
    requires Inv(s, g)
    ensures StepsLeft(s.m, g) >= 0
  {
    StepsLeftIsNat(s.m, g);
  }

  lemma BusyStep(s: State, g: Ghost, a: Action, s': State, g': Ghost)
    requires Inv(s, g) && Step(s, a, s') && s.m.w != Idle
    requires if a.Write? then GhostMoves(s.m, g, a.wa, g') else g' == g
    ensures StepsLeft(s'.m, g') + (if a.Write? then 1 else 0) <= StepsLeft(s.m, g)
  {
    if a.Write? {
      StepsDrop(s.m, g, a.wa, s'.m, g');
    }
  }

  lemma BeginCost(s: State, wa: WAction, s': State, g': Ghost)
    requires Step(s, Write(wa), s')
    ensures wa.BeginExpand? ==> var n, l := |s.m.table|, |s.m.linked|; StepsLeft(s'.m, g') == l * (n + 3) + 4 * n + 5
    ensures wa.BeginShrink? ==> StepsLeft(s'.m, g') <= |s.m.table| + 3
  {
  }

  // In every run, an expansion of n buckets that hold l nodes ends within l * (n + 3) + 4 * n + 5
  // actions of the writer after its first one, whatever the readers do in between.
  lemma ExpansionIsBounded(ss: seq<State>, acts: seq<Action>, i: nat, k: nat)
    requires i < |acts| && acts[i].Write? && acts[i].wa.BeginExpand? && BusyFrom(ss, acts, i + 1, k)
    ensures var n, l := |ss[i].m.table|, |ss[i].m.linked|;
            Writes(acts, i + 1, k) <= l * (n + 3) + 4 * n + 5
  {
    hide Inv, Step, StepsLeft, Init;
    RunGood(ss, acts, i + 1);
    var g :| Inv(ss[i + 1], g);
    assert StepAt(ss, acts, i);
    BeginCost(ss[i], acts[i].wa, ss[i + 1], g);
    var _ := BusyIsBounded(ss, acts, i + 1, k, g);
  }

  // A shrink of n buckets ends within n + 3 actions.
  lemma ShrinkIsBounded(ss: seq<State>, acts: seq<Action>, i: nat, k: nat)
    requires i < |acts| && acts[i].Write? && acts[i].wa.BeginShrink? && BusyFrom(ss, acts, i + 1, k)
    ensures Writes(acts, i + 1, k) <= |ss[i].m.table| + 3
  {
    hide Inv, Step, StepsLeft, Init;
    RunGood(ss, acts, i + 1);
    var g :| Inv(ss[i + 1], g);
    assert StepAt(ss, acts, i);
    BeginCost(ss[i], acts[i].wa, ss[i + 1], g);
    var _ := BusyIsBounded(ss, acts, i + 1, k, g);
  }

  // ----- operations do end -----

  // When no reader is inside, the writer alone brings its operation to an end.
  lemma {:induction false} WriterFinishes(s: State, g: Ghost) returns (ss: seq<State>, acts: seq<Action>)
    requires Inv(s, g) && s.gp.inside == {}
    ensures Run(ss, acts) && ss[0] == s && (forall k :: 0 <= k < |acts| ==> acts[k].Write?)
    ensures ss[|acts|].m.w == Idle && |acts| <= StepsLeft(s.m, g)
    decreases if StepsLeft(s.m, g) >= 0 then StepsLeft(s.m, g) else 0
  {
    hide Step, GhostMoves, StepsLeft, Struct;
    InvIsNat(s, g);
    if s.m.w == Idle {
      ss, acts := [s], [];
    } else {
      var wa, m' := NextAction(s.m, g);
      var s' := NextState(s, wa, m');
      var g' := StepInv(s, g, Write(wa), s');
      BusyStep(s, g, Write(wa), s', g');
      InvIsNat(s', g');
      var rest, more := WriterFinishes(s', g');
      ss, acts := [s] + rest, [Write(wa)] + more;
      forall k | 0 <= k < |acts| ensures StepAt(ss, acts, k) {
        if k > 0 { assert StepAt(rest, more, k - 1); }
      }
    }
  }
}
