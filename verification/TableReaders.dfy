// Every step of the system keeps the invariant, and keeps every linked node in front of the
// readers that are looking for it.
module TableReaders {
  import opened Bits
  import opened Walks
  import opened Chains
  import opened TableMachine
  import opened TableInvariant
  import opened TableWriter
  import opened TableExpand
  import opened TableUnzip
  import opened TableShrink
  import GP = GracePeriod

  // ----- the writer -----

  // The recorded chains are the table's chains at this moment.
  ghost predicate IsTableChains(m: Mem, g: Ghost, cs: seq<seq<Link>>) {
    |cs| == |m.table| && forall b :: 0 <= b < |cs| ==> cs[b] == Chain(g.W, m.table[b])
  }

  // How the recorded chains and cuts move along with the writer.
  ghost predicate GhostMoves(m: Mem, g: Ghost, a: WAction, g': Ghost) {
    match a
    case BeginExpand(_) => IsTableChains(m, g, g'.chains)
    case BeginShrink(_) => IsTableChains(m, g, g'.chains)
    case UnzipOne(pre, q) =>
      && m.w.Unzip? && m.w.b < |g.ks| == |g'.ks| && g'.chains == g.chains
      && g'.ks == g.ks[m.w.b := g'.ks[m.w.b]]
      && UnzipPoint(m, g, Via(m, a), pre, q, g'.ks[m.w.b])
    case _ => g'.chains == g.chains && g'.ks == g.ks
  }

  lemma NoRelinking(m: Mem, g: Ghost, a: WAction, m': Mem, g': Ghost)
    requires Invisible(m, g.W, m'.next, g'.W) && !a.Detach? && !a.UnzipOne? && !a.StoreSplice?
    ensures Relinked(m, g.W, m'.next, g'.W, Lost(a), Gained(m, a), Via(m, a))
  {
    InvisibleRelinks(m, g.W, m'.next, g'.W, Via(m, a));
  }

  // Actions that store nothing into the heap.
  lemma PositionStep(m: Mem, g: Ghost, a: WAction, m': Mem)
    requires Struct(m, g) && WStep(m, a, m')
    requires a.PublishTwins? || a.FindSkip? || a.FindDone? || a.UnzipSkip? || a.UnzipDone? || a.SpliceSkip?
             || a.PublishMerged? || a.BeginSync? || a.EndSync?
    ensures Struct(m', g) && m'.next == m.next
  {
    match a
    case PublishTwins => PublishTwinsOk(m, g, m');
    case FindSkip => FindSkipOk(m, g, m');
    case FindDone => FindDoneOk(m, g, m');
    case UnzipSkip => UnzipSkipOk(m, g, m');
    case UnzipDone => UnzipDoneOk(m, g, m');
    case SpliceSkip => SpliceSkipOk(m, g, m');
    case PublishMerged => PublishMergedOk(m, g, m');
    case BeginSync => SyncStep(m, g, m');
    case EndSync => SyncStep(m, g, m');
  }

  // Entering or leaving rcuSynchronize changes no link.
  lemma SyncBase(m: Mem, g: Ghost, m': Mem)
    requires Struct(m, g) && (DoBeginSync(m, m') || DoEndSync(m, m'))
    ensures Base(m', g)
  {
    ServesKept(m, g, m', m.table);
  }

  lemma ProperStays(m: Mem, g: Ghost, m': Mem)
    requires Proper(m, g.W, m.table) && m'.hash == m.hash && m'.table == m.table
    ensures Proper(m', g.W, m'.table)
  {
    forall b | 0 <= b < |m.table| ensures ProperChain(m', Chain(g.W, m.table[b]), |m.table|, b) {
      assert ProperChain(m, Chain(g.W, m.table[b]), |m.table|, b);
    }
  }

  lemma FindStartsStay(m: Mem, g: Ghost, m': Mem, src: seq<Link>)
    requires Published(m, g, src) && m' == m.(limbo := {}, w := FindStarts(src, 0))
    ensures PhaseOk(m', g)
  {
    PublishedKept(m, g, m', src);
  }

  lemma SyncStep(m: Mem, g: Ghost, m': Mem)
    requires Struct(m, g) && (DoBeginSync(m, m') || DoEndSync(m, m'))
    ensures Struct(m', g)
  {
    SyncBase(m, g, m');
    hide Base, PhaseOk;
    if DoBeginSync(m, m') {
      BeginSyncPhase(m, g, m');
    } else {
      EndSyncPhase(m, g, m');
    }
  }

  lemma BeginSyncPhase(m: Mem, g: Ghost, m': Mem)
    requires PhaseOk(m, g) && DoBeginSync(m, m')
    ensures PhaseOk(m', g)
  {
    hide Proper, Published, Twins, Jumps, Serves, Beside;
    match m.w
    case Idle => ProperStays(m, g, m');
    case ExpandPublished(src) => PublishedKept(m, g, m', src);
    case ShrinkPublished(src) => ShrunkStays(m, g, m', src);
    case Unzip(src, b, again) => JumpsStay(m, g, m', src);
  }

  lemma EndSyncPhase(m: Mem, g: Ghost, m': Mem)
    requires PhaseOk(m, g) && DoEndSync(m, m')
    ensures PhaseOk(m', g)
  {
    match m.w.resume
    case ToFindStarts(src) => FindStartsStay(m, g, m', src);
    case ToUnzip(src) =>
      hide Twins, Jumps;
      JumpsStay(m, g, m', src);
    case _ =>
      hide Proper;
      ProperStays(m, g, m');
  }

  lemma ShrunkStays(m: Mem, g: Ghost, m': Mem, src: seq<Link>)
    requires Shrunk(m, g, src) && m'.hash == m.hash && m'.linked == m.linked && m'.table == m.table
             && m'.heads == m.heads
    ensures Shrunk(m', g, src)
  {
    ProperStays(m, g, m');
    ServesKept(m, g, m', src);
  }

  lemma ServesKept(m: Mem, g: Ghost, m': Mem, arr: seq<Link>)
    requires Serves(m, g.W, arr) && m'.hash == m.hash && m'.linked == m.linked
    ensures Serves(m', g.W, arr)
  {
    forall h | h in arr ensures OnlyLinked(m', Chain(g.W, h)) {
      assert OnlyLinked(m, Chain(g.W, h));
    }
    forall l | l in m'.linked ensures FindsNode(m', g.W, arr, l) {
      assert FindsNode(m, g.W, arr, l);
    }
  }

  lemma PublishedKept(m: Mem, g: Ghost, m': Mem, src: seq<Link>)
    requires Published(m, g, src) && m'.hash == m.hash && m'.linked == m.linked && m'.table == m.table
             && m'.heads == m.heads
    ensures Published(m', g, src)
  {
    ServesKept(m, g, m', src);
    ChainsKept(m, g, m', g, |src|);
    TwinsKept(m, g, m', g, m.table, |src|, 2 * |src|);
  }

  lemma JumpsStay(m: Mem, g: Ghost, m': Mem, src: seq<Link>)
    requires Jumps(m, g, src) && Twins(m, g, m.table, |src|)
    requires m'.next == m.next && m'.hash == m.hash && m'.linked == m.linked && m'.table == m.table
             && m'.heads == m.heads
    ensures Jumps(m', g, src) && Twins(m', g, m'.table, |src|)
  {
    ChainsKept(m, g, m', g, |src|);
    TwinsKept(m, g, m', g, m.table, |src|, 2 * |src|);
    forall j | 0 <= j < |src| ensures JumpAt(m', g, src, j) {
      assert JumpAt(m, g, src, j);
    }
  }

  predicate Plain(a: WAction) {
    a.BeginInsert? || a.StoreHead? || a.BeginExpand? || a.StoreTwin? || a.FindStart? || a.BeginShrink? || a.StoreMerged?
  }

  // Stores that no reader can see.
  lemma PlainStep(m: Mem, g: Ghost, a: WAction, m': Mem) returns (g': Ghost)
    requires Struct(m, g) && WStep(m, a, m') && Plain(a)
    ensures Struct(m', g') && GhostMoves(m, g, a, g') && Invisible(m, g.W, m'.next, g'.W)
  {
    match a
    case BeginInsert(n, h) => g' := BeginInsertOk(m, g, n, h, m');
    case StoreHead => g' := StoreHeadOk(m, g, m');
    case BeginExpand(dst) => g' := BeginExpandOk(m, g, dst, m');
    case StoreTwin(pre, q) => g' := StoreTwinOk(m, g, pre, q, m');
    case FindStart(pre, q) => g' := FindStartOk(m, g, pre, q, m');
    case BeginShrink(dst) => g' := BeginShrinkOk(m, g, dst, m');
    case StoreMerged => g' := StoreMergedOk(m, g, m');
  }

  predicate Relinks(a: WAction) {
    a.Detach? || a.UnzipOne? || a.StoreSplice?
  }

  lemma QuietStep(m: Mem, g: Ghost, a: WAction, m': Mem) returns (g': Ghost)
    requires Struct(m, g) && WStep(m, a, m') && !Relinks(a)
    ensures Struct(m', g') && GhostMoves(m, g, a, g') && Invisible(m, g.W, m'.next, g'.W)
    ensures a.EndSync? ==> g' == g
  {
    if Plain(a) {
      g' := PlainStep(m, g, a, m');
    } else {
      PositionStep(m, g, a, m');
      g' := g;
      SameHeap(m, g, m');
    }
  }

  lemma RelinkStep(m: Mem, g: Ghost, a: WAction, m': Mem) returns (g': Ghost)
    requires Struct(m, g) && WStep(m, a, m') && Relinks(a)
    ensures Struct(m', g') && GhostMoves(m, g, a, g')
    ensures Relinked(m, g.W, m'.next, g'.W, Lost(a), Gained(m, a), Via(m, a))
  {
    match a
    case Detach(b, pre, d) => g' := DetachOk(m, g, b, pre, d, m');
    case UnzipOne(pre, q) => g' := UnzipOneOk(m, g, pre, q, m');
    case StoreSplice(pre) =>
      g' := StoreSpliceOk(m, g, pre, m');
      RelinkedAnyVia(m, g.W, m'.next, g'.W, m.linked, Last(pre), 0);
  }

  // Every writer action keeps the structural invariant and relinks no more than it says.
  lemma WriterStep(m: Mem, g: Ghost, a: WAction, m': Mem) returns (g': Ghost)
    requires Struct(m, g) && WStep(m, a, m')
    ensures Struct(m', g') && GhostMoves(m, g, a, g')
    ensures Relinked(m, g.W, m'.next, g'.W, Lost(a), Gained(m, a), Via(m, a))
    ensures a.EndSync? ==> g' == g
  {
    if Relinks(a) {
      g' := RelinkStep(m, g, a, m');
    } else {
      g' := QuietStep(m, g, a, m');
      NoRelinking(m, g, a, m', g');
    }
  }

  lemma SameHeap(m: Mem, g: Ghost, m': Mem)
    requires m'.next == m.next
    ensures Invisible(m, g.W, m'.next, g.W)
  {
    forall p | Closed(m.next, p) ensures SameFor(m, g.W, m'.next, g.W, p) {
    }
  }

  // ----- readers while the writer acts -----

  // Between two synchronize events the grace period does not change.
  predicate SameGp(a: WAction, gp: GP.Gp, gp': GP.Gp) {
    !a.BeginSync? && !a.EndSync? && gp' == gp
  }

  // Danger does not arise from a smaller walk and an unmoved cut.
  lemma DangerIsOld(m: Mem, g: Ghost, m': Mem, g': Ghost, h: nat, p: Ptr)
    requires Unzipping(m'.w) == Unzipping(m.w) && m'.hash == m.hash && g'.chains == g.chains && |g'.ks| == |g.ks|
    requires var n := |Unzipping(m.w)|; n > 0 && BucketOf(h, n) < |g.ks| ==>
               g'.ks[BucketOf(h, n)] == g.ks[BucketOf(h, n)]
    requires forall l :: l in PtrWalk(g'.W, p) ==> l in PtrWalk(g.W, p)
    requires Endangered(m', g', h, p)
    ensures Endangered(m, g, h, p)
  {
  }

  // Which actions go on with the same unzipping.
  lemma SameUnzipping(m: Mem, a: WAction, m': Mem)
    requires WStep(m, a, m') && !a.BeginSync? && |Unzipping(m'.w)| > 0
    ensures a.EndSync? || a.FindStart? || a.FindSkip? || a.FindDone? || a.UnzipOne? || a.UnzipSkip?
    ensures Unzipping(m'.w) == Unzipping(m.w) && m'.hash == m.hash
    ensures a.EndSync? ==> m.w.Sync?
    ensures a.FindStart? || a.FindSkip? || a.FindDone? ==> m.w.FindStarts?
    ensures a.UnzipOne? || a.UnzipSkip? ==>
              m.w.Unzip? && m'.w.Unzip? && m'.w.b == m.w.b + 1 && m.w.src == Unzipping(m.w)
  {
  }

  // A reader that is not endangered is not endangered by any action but the store that moves its
  // own chain's cut, and that store leaves it excused until the next grace period.
  lemma DangerStaysExcused(m: Mem, g: Ghost, a: WAction, m': Mem, g': Ghost, gp: GP.Gp, gp': GP.Gp, t: Tid, h: nat,
                           p: Ptr)
    requires WStep(m, a, m') && GhostMoves(m, g, a, g')
    requires t in gp.inside && CursorOk(m, g, gp, t, h, p) && m'.w.Sync? == a.BeginSync?
    requires SameGp(a, gp, gp') || (a.BeginSync? && gp'.waiting == gp.inside)
             || (a.EndSync? && gp.waiting == {} && g' == g)
    requires RelinkedAt(g.W, m'.next, g'.W, Lost(a), Gained(m, a), Via(m, a), p)
    ensures Endangered(m', g', h, p) ==> Excused(m'.w, gp', t, BucketOf(h, |Unzipping(m'.w)|))
  {
    if Endangered(m', g', h, p) && !a.BeginSync? {
      SameUnzipping(m, a, m');
      if !(a.UnzipOne? && BucketOf(h, |m.w.src|) == m.w.b) {
        DangerIsOld(m, g, m', g', h, p);
      }
    }
  }

  lemma SyncFlag(m: Mem, a: WAction, m': Mem, gp: GP.Gp, gp': GP.Gp)
    requires WStep(m, a, m') && GpOk(m, gp) && GpOk(m', gp')
    requires SameGp(a, gp, gp') || a.BeginSync? || a.EndSync?
    ensures m'.w.Sync? == a.BeginSync?
  {
  }

  lemma CursorStep(m: Mem, g: Ghost, a: WAction, m': Mem, g': Ghost, gp: GP.Gp, gp': GP.Gp, t: Tid, h: nat, p: Ptr)
    requires Struct(m, g) && Struct(m', g') && WStep(m, a, m') && GhostMoves(m, g, a, g')
    requires GpOk(m, gp) && GpOk(m', gp') && t in gp.inside && CursorOk(m, g, gp, t, h, p)
    requires SameGp(a, gp, gp') || (a.BeginSync? && gp'.waiting == gp.inside)
             || (a.EndSync? && gp.waiting == {} && g' == g)
    requires Relinked(m, g.W, m'.next, g'.W, Lost(a), Gained(m, a), Via(m, a))
    ensures CursorOk(m', g', gp', t, h, p)
  {
    assert RelinkedAt(g.W, m'.next, g'.W, Lost(a), Gained(m, a), Via(m, a), p);
    SyncFlag(m, a, m', gp, gp');
    DangerStaysExcused(m, g, a, m', g', gp, gp', t, h, p);
    ReachableGrows(m, a, m', gp, gp', t);
    assert Gained(m, a) <= Reachable(m', gp', t) by {
      if a.StoreSplice? { assert m.linked <= m'.linked; }
    }
  }

  // What a reader may hold stays within what it may hold afterwards.
  lemma ReachableGrows(m: Mem, a: WAction, m': Mem, gp: GP.Gp, gp': GP.Gp, t: Tid)
    requires WStep(m, a, m') && GpOk(m, gp) && GpOk(m', gp') && t in gp.inside
    requires SameGp(a, gp, gp') || (a.BeginSync? && gp'.waiting == gp.inside) || (a.EndSync? && gp.waiting == {})
    ensures Reachable(m, gp, t) <= Reachable(m', gp', t)
  {
  }

  lemma WriterReader(m: Mem, g: Ghost, a: WAction, m': Mem, g': Ghost, gp: GP.Gp, gp': GP.Gp, t: Tid, r: Reader)
    requires Struct(m, g) && Struct(m', g') && WStep(m, a, m') && GhostMoves(m, g, a, g')
    requires GpOk(m, gp) && GpOk(m', gp') && gp'.inside == gp.inside && ReaderOk(m, g, gp, t, r)
    requires SameGp(a, gp, gp') || (a.BeginSync? && gp'.waiting == gp.inside)
             || (a.EndSync? && gp.waiting == {} && g' == g)
    requires Relinked(m, g.W, m'.next, g'.W, Lost(a), Gained(m, a), Via(m, a))
    ensures ReaderOk(m', g', gp', t, r)
  {
    if r.In? {
      ReachableGrows(m, a, m', gp, gp', t);
      if r.look.At? {
        CursorStep(m, g, a, m', g', gp, gp', t, r.look.h, r.look.p);
      }
      if r.look.HasInfo? {
        InfoStep(m, g, a, m', gp, gp', t, r.look.info);
      }
    }
  }

  // Nobody keeps an array that has been replaced beyond the grace period that follows.
  lemma InfoStep(m: Mem, g: Ghost, a: WAction, m': Mem, gp: GP.Gp, gp': GP.Gp, t: Tid, info: seq<Link>)
    requires Struct(m, g) && WStep(m, a, m') && GpOk(m, gp) && GpOk(m', gp') && t in gp.inside && InfoOk(m, gp, t, info)
    requires SameGp(a, gp, gp') || (a.BeginSync? && gp'.waiting == gp.inside) || (a.EndSync? && gp.waiting == {})
    ensures InfoOk(m', gp', t, info)
  {
  }

  // ----- a reader's own steps -----

  // A lookup that starts on the published array does not run into the jump start of its chain.
  lemma TwinsAvoidJump(m: Mem, g: Ghost, h: nat, i: nat)
    requires Base(m, g) && Twins(m, g, m.table, |Unzipping(m.w)|) && i < |m.table| && i == BucketOf(h, |m.table|)
    ensures !Endangered(m, g, h, Load(m, m.table[i]))
  {
    var n := |Unzipping(m.w)|;
    BucketSplits(h, n);
    TwinWalk(m, g, n, i);
    hide Base, Twins, Mix, Class, BucketOf, PtrWalk, Distinct;
    var b := Half(i, n);
    assert b == BucketOf(h, n);
    var c, k := g.chains[b], g.ks[b];
    if 0 < k < |c| && c[k - 1] in Mix(m.hash, c, k, 2 * n, i) {
      CutInMix(m.hash, c, k, 2 * n, i);
    }
  }

  // The walk from a new bucket is its share of the unzipped part, and then the rest.
  lemma TwinWalk(m: Mem, g: Ghost, n: nat, i: nat)
    requires Base(m, g) && Twins(m, g, m.table, n) && i < |m.table|
    ensures n > 0 && IsPow2(n) && |g.chains| == |g.ks| == n && |m.table| == 2 * n
    ensures var c, k := g.chains[Half(i, n)], g.ks[Half(i, n)];
            k <= |c| && Distinct(c) && PtrWalk(g.W, Load(m, m.table[i])) == Mix(m.hash, c, k, 2 * n, i)
  {
    hide Mix, Keep, Class;
    assert TwinAt(m, g, m.table, n, i) && m.table[i] in m.heads;
    assert ChainOk(m, g, n, Half(i, n)) && CutOk(m, g, n, Half(i, n));
    ChainIsPtrWalk(m, g.W, m.table[i]);
  }

  // The last unzipped node is met only from the new bucket of its own class.
  lemma CutInMix(hash: map<Link, nat>, c: seq<Link>, k: nat, n: nat, t: nat)
    requires n > 0 && 0 < k <= |c| && Distinct(c) && c[k - 1] in Mix(hash, c, k, n, t)
    ensures Class(hash, c[k - 1], n) == t
  {
    assert c[..k][k - 1] == c[k - 1];
    MixMember(hash, c, k, n, t, c[k - 1]);
  }

  lemma LoadHeadOk(m: Mem, g: Ghost, gp: GP.Gp, t: Tid, h: nat, info: seq<Link>, i: nat)
    requires Struct(m, g) && GpOk(m, gp) && InfoOk(m, gp, t, info) && i < |info| && i == BucketOf(h, |info|)
    ensures CursorOk(m, g, gp, t, h, Load(m, info[i])) && Serves(m, g.W, info)
    ensures info[i] in m.next && Chain(g.W, info[i]) == PtrWalk(g.W, Load(m, info[i]))
  {
    assert Serves(m, g.W, info) && info[i] in m.heads;
    ChainIsPtrWalk(m, g.W, info[i]);
    assert OnlyLinked(m, Chain(g.W, info[i]));
    if |Unzipping(m.w)| > 0 && info == m.table {
      assert Twins(m, g, m.table, |Unzipping(m.w)|);
      TwinsAvoidJump(m, g, h, i);
    }
  }

  lemma ReadStep(m: Mem, g: Ghost, gp: GP.Gp, t: Tid, r: Reader, a: RAction, r': Reader)
    requires Struct(m, g) && GpOk(m, gp) && ReaderOk(m, g, gp, t, r) && RStep(m, r, a, r')
    ensures ReaderOk(m, g, gp, t, r')
  {
    match a
    case StartFind(h, want) =>
    case LoadHead =>
      LoadHeadOk(m, g, gp, t, r.look.h, r.look.info, BucketOf(r.look.h, |r.look.info|));
    case Examine =>
      if r.look.p.To? {
        assert WalkAt(m.next, g.W, r.look.p.link);
      }
  }

  // ----- the whole step -----

  lemma WriteInv(s: State, g: Ghost, wa: WAction, s': State) returns (g': Ghost)
    requires Inv(s, g) && Step(s, Write(wa), s')
    ensures Inv(s', g') && GhostMoves(s.m, g, wa, g')
    ensures Relinked(s.m, g.W, s'.m.next, g'.W, Lost(wa), Gained(s.m, wa), Via(s.m, wa))
  {
    g' := WriterStep(s.m, g, wa, s'.m);
    GpFollows(s, g, wa, s');
    forall t | 0 <= t < |s'.rs| ensures ReaderOk(s'.m, g', s'.gp, t, s'.rs[t]) {
      WriterReader(s.m, g, wa, s'.m, g', s.gp, s'.gp, t, s.rs[t]);
    }
  }

  lemma ReadInv(s: State, g: Ghost, a: Action, s': State)
    requires Inv(s, g) && Step(s, a, s') && !a.Write?
    ensures Inv(s', g)
  {
    if a.Read? {
      ReadStep(s.m, g, s.gp, a.t, s.rs[a.t], a.ra, s'.rs[a.t]);
    }
    forall t | 0 <= t < |s'.rs| ensures ReaderOk(s'.m, g, s'.gp, t, s'.rs[t]) {
      assert ReaderOk(s.m, g, s.gp, t, s.rs[t]);
    }
  }

  lemma StepInv(s: State, g: Ghost, a: Action, s': State) returns (g': Ghost)
    requires Inv(s, g) && Step(s, a, s')
    ensures Inv(s', g')
    ensures !a.Write? ==> g' == g
    ensures a.Write? ==> GhostMoves(s.m, g, a.wa, g') &&
                         Relinked(s.m, g.W, s'.m.next, g'.W, Lost(a.wa), Gained(s.m, a.wa), Via(s.m, a.wa))
  {
    if a.Write? {
      g' := WriteInv(s, g, a.wa, s');
    } else {
      ReadInv(s, g, a, s');
      g' := g;
    }
  }

  // The abstract grace period is open exactly while the writer is inside rcuSynchronize.
  lemma GpFollows(s: State, g: Ghost, wa: WAction, s': State)
    requires Inv(s, g) && Step(s, Write(wa), s')
    ensures GpOk(s'.m, s'.gp) && s'.gp.inside == s.gp.inside
    ensures SameGp(wa, s.gp, s'.gp) || (wa.BeginSync? && s'.gp.waiting == s.gp.inside)
            || (wa.EndSync? && s.gp.waiting == {})
  {
  }
}
