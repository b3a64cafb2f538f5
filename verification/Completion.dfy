// Every operation can be completed: from any reachable state of threads, zone and table, the
// readers can leave, rcuSynchronize can return and the writer can finish what it is doing.
module Completion {
  import opened Bits
  import opened Walks
  import opened Chains
  import opened TableMachine
  import opened TableInvariant
  import opened TableReaders
  import opened Lookup
  import opened System
  import O = Operations
  import P = Progress
  import ZP = ZoneProgress
  import EZ = EpochZone
  import GP = GracePeriod

  ghost predicate SysInv(c: EZ.Config, y: Sys, g: Ghost) {
    EZ.Sized(c, y.z) && EZ.Inv(c, y.z) && |y.rs| == |y.z.threads| && Inv(AbsState(y), g)
  }

  // ----- continuations -----

  // Who takes the steps of a run
  datatype Who = Anyone | Only(t: Tid)

  predicate TakenBy(ya: SysAction, who: Who) {
    who.Only? ==>
      match ya
      case ZoneOnly(za) => ZP.OwnStep(za, who.t)
      case Joint(za, _) => ZP.OwnStep(za, who.t)
      case TableOnly(a) => a.Read? && a.t == who.t
  }

  // Some run leads from y to y'.
  ghost predicate CanReach(c: EZ.Config, who: Who, y: Sys, y': Sys) {
    exists ys, yas :: SysRun(c, ys, yas) && ys[0] == y && ys[|yas|] == y' && RunBy(yas, who)
  }

  ghost predicate RunBy(yas: seq<SysAction>, who: Who) {
    forall k :: 0 <= k < |yas| ==> TakenBy(yas[k], who)
  }

  lemma ReachSelf(c: EZ.Config, who: Who, y: Sys)
    requires EZ.Sized(c, y.z)
    ensures CanReach(c, who, y, y)
  {
    assert SysRun(c, [y], []) && RunBy([], who);
  }

  lemma ReachOn(c: EZ.Config, who: Who, y: Sys, ya: SysAction, y1: Sys, y': Sys)
    requires EZ.Sized(c, y.z) && SysStep(c, y, ya, y1) && TakenBy(ya, who) && CanReach(c, who, y1, y')
    ensures CanReach(c, who, y, y')
  {
    hide SysStep;
    var ys, yas :| SysRun(c, ys, yas) && ys[0] == y1 && ys[|yas|] == y' && RunBy(yas, who);
    var zs, zas := [y] + ys, [ya] + yas;
    forall k {:trigger SysStepAt(c, zs, zas, k)} | 0 <= k < |zas| ensures SysStepAt(c, zs, zas, k) {
      if k > 0 { assert SysStepAt(c, ys, yas, k - 1); }
    }
    assert SysRun(c, zs, zas) && zs[0] == y && zs[|zas|] == y' && RunBy(zas, who);
  }

  lemma {:induction false} ReachTrans(c: EZ.Config, who: Who, ys: seq<Sys>, yas: seq<SysAction>, y': Sys)
    requires SysRun(c, ys, yas) && RunBy(yas, who) && CanReach(c, who, ys[|yas|], y')
    ensures CanReach(c, who, ys[0], y')
    decreases |yas|
  {
    if yas != [] {
      var n := |yas| - 1;
      assert SysStepAt(c, ys, yas, n);
      ReachOn(c, who, ys[n], yas[n], ys[n + 1], y');
      var zs, zas := ys[..n + 1], yas[..n];
      forall k {:trigger SysStepAt(c, zs, zas, k)} | 0 <= k < |zas| ensures SysStepAt(c, zs, zas, k) {
        assert SysStepAt(c, ys, yas, k);
      }
      ReachTrans(c, who, zs, zas, y');
    }
  }

  lemma ReachVia(c: EZ.Config, who: Who, y: Sys, y1: Sys, y2: Sys)
    requires CanReach(c, who, y, y1) && CanReach(c, who, y1, y2)
    ensures CanReach(c, who, y, y2)
  {
    var ys, yas :| SysRun(c, ys, yas) && ys[0] == y && ys[|yas|] == y1 && RunBy(yas, who);
    ReachTrans(c, who, ys, yas, y2);
  }

  lemma ByAnyone(c: EZ.Config, who: Who, y: Sys, y': Sys)
    requires CanReach(c, who, y, y')
    ensures CanReach(c, Anyone, y, y')
  {
    var ys, yas :| SysRun(c, ys, yas) && ys[0] == y && ys[|yas|] == y' && RunBy(yas, who);
    assert RunBy(yas, Anyone);
  }

  // ----- a reader leaves -----

  // Thread t is outside, and holds no reference.
  predicate Released(y: Sys, t: Tid) {
    && t < |y.rs| && t < |y.z.threads| && y.rs[t] == Out
    && (y.z.threads[t].Idle? || y.z.threads[t].Loaded? || y.z.threads[t].Retry?)
  }

  ghost predicate AllReleased(y: Sys, n: nat) {
    forall t {:trigger Released(y, t)} :: 0 <= t < n ==> Released(y, t)
  }

  // How many steps it takes thread t to get there
  ghost function OutCost(y: Sys, g: Ghost, t: Tid): nat
    requires t < |y.rs| && t < |y.z.threads|
  {
    match y.z.threads[t]
    case Counted(_, _, _) => 2
    case Revert(_, _, _) => 1
    case Valid(_) =>
      if y.rs[t].Out? then 0
      else (match y.rs[t].look
            case HasInfo(h, _, info) =>
              if |info| > 0 && BucketOf(h, |info|) < |info|
              then 3 + |PtrWalk(g.W, Load(y.m, info[BucketOf(h, |info|)]))|
              else 0
            case At(_, _, p) => 2 + |PtrWalk(g.W, p)|
            case _ => 1)
    case _ => 0
  }

  // Nothing but thread t's own state changes.
  predicate OnlyThread(y: Sys, t: Tid, y': Sys) {
    && y'.m == y.m && y'.z.w == y.z.w && y'.z.latest == y.z.latest && y'.z.oldest == y.z.oldest
    && |y'.rs| == |y.rs| && |y'.z.threads| == |y.z.threads|
    && forall u :: 0 <= u < |y.rs| && u < |y.z.threads| && u != t ==>
        y'.rs[u] == y.rs[u] && y'.z.threads[u] == y.z.threads[u]
  }

  // The reader and the thread agree on whether t is inside.
  lemma InsideIs(c: EZ.Config, y: Sys, g: Ghost, t: Tid)
    requires SysInv(c, y, g) && t < |y.rs|
    ensures y.rs[t].In? <==> y.z.threads[t].Valid?
  {
    assert ReaderOk(y.m, g, EZ.Abs(y.z), t, y.rs[t]);
  }

  lemma LookStep(c: EZ.Config, y: Sys, g: Ghost, t: Tid) returns (ya: SysAction, y': Sys)
    requires SysInv(c, y, g) && t < |y.rs| && Looking(y.rs[t])
    ensures SysStep(c, y, ya, y') && OnlyThread(y, t, y') && !AbsAction(ya).Write? && TakenBy(ya, Only(t))
    ensures OutCost(y', g, t) < OutCost(y, g, t)
  {
    InsideIs(c, y, g, t);
    assert ReaderOk(y.m, g, EZ.Abs(y.z), t, y.rs[t]);
    var r, look := y.rs[t], y.rs[t].look;
    if look.HasInfo? {
      P.InfoIsPow2(y.m, g, EZ.Abs(y.z), t, look.info);
      BucketInRange(look.h, |look.info|);
      var r' := r.(look := At(look.h, look.want, Load(y.m, look.info[BucketOf(look.h, |look.info|)])));
      ya, y' := TableOnly(Read(t, LoadHead)), y.(rs := y.rs[t := r']);
    } else {
      var r' := match look.p
                case Null => r.(look := Missed)
                case To(l) =>
                  if l in look.want && l in y.m.hash && y.m.hash[l] == look.h then In(r.hits + {l}, Found(l))
                  else r.(look := look.(p := Load(y.m, l)));
      ya, y' := TableOnly(Read(t, Examine)), y.(rs := y.rs[t := r']);
      if look.p.To? {
        assert WalkAt(y.m.next, g.W, look.p.link);
      }
    }
  }

  lemma ZoneStep(c: EZ.Config, y: Sys, g: Ghost, t: Tid) returns (ya: SysAction, y': Sys)
    requires SysInv(c, y, g) && t < |y.rs| && !Looking(y.rs[t]) && !Released(y, t)
    ensures SysStep(c, y, ya, y') && OnlyThread(y, t, y') && !AbsAction(ya).Write? && TakenBy(ya, Only(t))
    ensures OutCost(y', g, t) < OutCost(y, g, t)
  {
    InsideIs(c, y, g, t);
    var z, th := y.z, y.z.threads[t];
    match th
    case Counted(e, s, n) =>
      var th' := if z.latest == e then EZ.Valid(e) else EZ.Revert(e, s, n);
      y' := y.(z := z.(threads := z.threads[t := th']));
      if z.latest == e {
        ya, y' := Joint(EZ.Validate(t), Enter(t)), y'.(rs := y.rs[t := In({}, Rest)]);
      } else {
        ya := ZoneOnly(EZ.Validate(t));
      }
    case Revert(e, s, n) =>
      var k := EZ.SlotOf(c, t, e);
      ya := ZoneOnly(EZ.Decrement(t));
      y' := y.(z := z.(threads := z.threads[t := EZ.Retry(s, n + 1)], count := z.count[k := z.count[k] - 1]));
    case Valid(e) =>
      var k := EZ.SlotOf(c, t, e);
      ya := Joint(EZ.Unlock(t), Leave(t));
      var z' := z.(threads := z.threads[t := EZ.Idle], count := z.count[k := z.count[k] - 1]);
      y' := y.(z := z', rs := y.rs[t := Out]);
  }

  lemma {:induction false} ThreadLeaves(c: EZ.Config, y: Sys, g: Ghost, t: Tid) returns (y': Sys)
    requires SysInv(c, y, g) && t < |y.rs|
    ensures SysInv(c, y', g) && CanReach(c, Only(t), y, y') && OnlyThread(y, t, y') && Released(y', t)
    decreases OutCost(y, g, t)
  {
    hide SysStep, Inv, CanReach;
    if Released(y, t) {
      y' := y;
      ReachSelf(c, Only(t), y);
    } else {
      var ya, y1;
      if Looking(y.rs[t]) {
        ya, y1 := LookStep(c, y, g, t);
      } else {
        ya, y1 := ZoneStep(c, y, g, t);
      }
      var g1 := SysStepInv(c, y, g, ya, y1);
      y' := ThreadLeaves(c, y1, g, t);
      ReachOn(c, Only(t), y, ya, y1, y');
    }
  }

  lemma SysStepInv(c: EZ.Config, y: Sys, g: Ghost, ya: SysAction, y': Sys) returns (g': Ghost)
    requires SysInv(c, y, g) && SysStep(c, y, ya, y')
    ensures SysInv(c, y', g')
    ensures if AbsAction(ya).Write? then GhostMoves(y.m, g, AbsAction(ya).wa, g') else g' == g
  {
    hide Inv, EZ.Inv;
    SysRefines(c, y, ya, y');
    g' := StepInv(AbsState(y), g, AbsAction(ya), AbsState(y'));
    SameThreads(c, y, ya, y');
  }

  lemma SameThreads(c: EZ.Config, y: Sys, ya: SysAction, y': Sys)
    requires EZ.Sized(c, y.z) && SysStep(c, y, ya, y') && |y.rs| == |y.z.threads|
    ensures EZ.Sized(c, y'.z) && |y'.rs| == |y'.z.threads|
  {
  }

  lemma {:induction false} AllLeave(c: EZ.Config, y: Sys, g: Ghost, n: nat) returns (y': Sys)
    requires SysInv(c, y, g) && n <= |y.rs|
    ensures SysInv(c, y', g) && CanReach(c, Anyone, y, y') && |y'.rs| == |y.rs|
    ensures AllReleased(y', n)
  {
    hide Inv, EZ.Inv, CanReach;
    if n == 0 {
      y' := y;
      ReachSelf(c, Anyone, y);
    } else {
      var y1 := AllLeave(c, y, g, n - 1);
      y' := ThreadLeaves(c, y1, g, n - 1);
      ByAnyone(c, Only(n - 1), y1, y');
      ReachVia(c, Anyone, y, y1, y');
      forall t | 0 <= t < n ensures Released(y', t) {
        if t < n - 1 { assert Released(y1, t); }
      }
    }
  }

  // ----- the writer finishes -----

  // With every thread released the writer has a next step, in the table or in its scan.
  lemma WriterStepOf(c: EZ.Config, y: Sys, g: Ghost) returns (ya: SysAction, y': Sys)
    requires SysInv(c, y, g) && y.m.w != Idle && AllReleased(y, |y.rs|)
    ensures SysStep(c, y, ya, y') && y'.rs == y.rs && y'.z.threads == y.z.threads
    ensures AbsAction(ya).Write?
            || (AbsAction(ya) == Pause && y'.m == y.m && EZ.ScanLeft(c, y'.z) < EZ.ScanLeft(c, y.z))
  {
    assert GpOk(y.m, EZ.Abs(y.z)) && Struct(y.m, g);
    hide Struct, WStep;
    var wa, m' := P.NextAction(y.m, g);
    if y.m.w.Sync? {
      forall t | 0 <= t < |y.z.threads| ensures !EZ.Holds(y.z.threads[t], y.z.w.last % 2) {
        assert Released(y, t);
      }
      var za, z' := EZ.UnheldMeansFree(c, y.z);
      y' := Sys(z', if za == EZ.Return then m' else y.m, y.rs);
      ya := if za == EZ.Return then Joint(za, Write(EndSync)) else ZoneOnly(za);
      OnlyEndSync(y.m, wa, m');
    } else {
      OnlyEndSync(y.m, wa, m');
      if wa.BeginSync? {
        ya := Joint(EZ.Advance, Write(wa));
        y' := Sys(y.z.(latest := y.z.latest + 1, w := EZ.Scan(y.z.latest, 0)), m', y.rs);
      } else {
        ya, y' := TableOnly(Write(wa)), y.(m := m');
      }
    }
  }

  lemma OnlyEndSync(m: Mem, wa: WAction, m': Mem)
    requires WStep(m, wa, m')
    ensures m.w.Sync? <==> wa.EndSync?
  {
  }

  lemma {:induction false} WriterEnds(c: EZ.Config, y: Sys, g: Ghost) returns (y': Sys)
    requires SysInv(c, y, g) && AllReleased(y, |y.rs|)
    ensures CanReach(c, Anyone, y, y') && y'.m.w == Idle && y'.z.w == EZ.Quiet && y'.rs == y.rs
    decreases if P.StepsLeft(y.m, g) >= 0 then P.StepsLeft(y.m, g) else 0, EZ.ScanLeft(c, y.z)
  {
    P.InvIsNat(AbsState(y), g);
    if y.m.w == Idle {
      y' := y;
      assert GpOk(y.m, EZ.Abs(y.z));
      ReachSelf(c, Anyone, y);
    } else {
      var ya, y1 := WriterStepOf(c, y, g);
      hide SysStep, Inv, EZ.Inv, CanReach, P.StepsLeft, GhostMoves;
      var g1 := SysStepInv(c, y, g, ya, y1);
      SysRefines(c, y, ya, y1);
      P.BusyStep(AbsState(y), g, AbsAction(ya), AbsState(y1), g1);
      P.InvIsNat(AbsState(y1), g1);
      forall t | 0 <= t < |y1.rs| ensures Released(y1, t) {
        assert Released(y, t);
      }
      y' := WriterEnds(c, y1, g1);
      ReachOn(c, Anyone, y, ya, y1, y');
    }
  }

  // From every reachable state some run goes on to a state in which all readers are out,
  // rcuSynchronize has returned and the writer has finished its operation.
  lemma OperationsEnd(c: EZ.Config, ys: seq<Sys>, yas: seq<SysAction>) returns (y': Sys)
    requires SysRun(c, ys, yas) && SysInit(c, ys[0])
    ensures CanReach(c, Anyone, ys[|yas|], y') && y'.m.w == Idle && y'.z.w == EZ.Quiet
    ensures |y'.rs| == |ys[0].rs| && forall t :: 0 <= t < |y'.rs| ==> y'.rs[t] == Out
  {
    var n := |yas|;
    var g := ReachedInv(c, ys, yas);
    var y1 := AllLeave(c, ys[n], g, |ys[n].rs|);
    hide SysInv, CanReach, SysRun;
    y' := WriterEnds(c, y1, g);
    ReachVia(c, Anyone, ys[n], y1, y');
    forall t | 0 <= t < |y'.rs| ensures y'.rs[t] == Out {
      assert Released(y1, t);
    }
  }

  lemma ReachedInv(c: EZ.Config, ys: seq<Sys>, yas: seq<SysAction>) returns (g: Ghost)
    requires SysRun(c, ys, yas) && SysInit(c, ys[0])
    ensures SysInv(c, ys[|yas|], g) && |ys[|yas|].rs| == |ys[0].rs|
  {
    var n := |yas|;
    RunRefines(c, ys, yas);
    ZoneInv(c, ys, yas, n);
    RunGood(AbsStates(ys), AbsActions(yas), n);
    g :| Inv(AbsState(ys[n]), g);
  }

  // ----- readers never wait -----

  // A thread outside acquires the lock by its own steps, whatever the writer is doing.
  lemma {:induction false} ThreadLocks(c: EZ.Config, y: Sys, g: Ghost, t: Tid) returns (y': Sys)
    requires SysInv(c, y, g) && t < |y.rs| && y.rs[t] == Out
    ensures SysInv(c, y', g) && CanReach(c, Only(t), y, y') && OnlyThread(y, t, y')
    ensures y'.rs[t] == In({}, Rest) && y'.z.threads[t] == EZ.Valid(y.z.latest)
    decreases ZP.LockSteps(y.z, t)
  {
    InsideIs(c, y, g, t);
    var za, z1 := ZP.LockStep(c, y.z, t);
    var locked := z1.threads[t].Valid?;
    var ya := if locked then Joint(za, Enter(t)) else ZoneOnly(za);
    var y1 := Sys(z1, y.m, if locked then y.rs[t := In({}, Rest)] else y.rs);
    LockEvent(c, y.z, za, z1, t);
    assert SysStep(c, y, ya, y1);
    hide SysStep, Inv, CanReach, EZ.Step, EZ.Inv;
    var g1 := SysStepInv(c, y, g, ya, y1);
    if locked {
      y' := y1;
      ReachSelf(c, Only(t), y1);
    } else {
      y' := ThreadLocks(c, y1, g, t);
    }
    ReachOn(c, Only(t), y, ya, y1, y');
  }

  lemma LockEvent(c: EZ.Config, z: EZ.Zone, za: EZ.Action, z': EZ.Zone, t: Tid)
    requires EZ.Sized(c, z) && t < |z.threads| && EZ.Step(c, z, za, z') && ZP.OwnStep(za, t) && !z.threads[t].Valid?
    ensures t < |z'.threads| && EZ.EventOf(z, za) == if z'.threads[t].Valid? then GP.Enter(t) else GP.Internal
  {
  }

  // A lookup under way comes to its end by its own steps.
  lemma {:induction false} ThreadFinds(c: EZ.Config, y: Sys, g: Ghost, t: Tid) returns (y': Sys)
    requires SysInv(c, y, g) && t < |y.rs| && y.rs[t].In?
    ensures SysInv(c, y', g) && CanReach(c, Only(t), y, y') && OnlyThread(y, t, y')
    ensures y'.rs[t].In? && !Looking(y'.rs[t])
    decreases OutCost(y, g, t)
  {
    hide SysStep, Inv, CanReach;
    if Looking(y.rs[t]) {
      var ya, y1 := LookStep(c, y, g, t);
      StaysIn(c, y, ya, y1, t);
      var g1 := SysStepInv(c, y, g, ya, y1);
      y' := ThreadFinds(c, y1, g, t);
      ReachOn(c, Only(t), y, ya, y1, y');
    } else {
      y' := y;
      ReachSelf(c, Only(t), y);
    }
  }

  lemma StaysIn(c: EZ.Config, y: Sys, ya: SysAction, y': Sys, t: Tid)
    requires EZ.Sized(c, y.z) && SysStep(c, y, ya, y') && t < |y.rs| && Looking(y.rs[t])
    ensures t < |y'.rs| && y'.rs[t].In?
  {
  }

  // Reads of one reader are steps of the whole system.
  lemma ReadsReach(c: EZ.Config, z: EZ.Zone, ss: seq<State>, acts: seq<Action>, s: State, s': State, t: Tid)
    requires EZ.Sized(c, z) && O.ReadRun(ss, acts, s, s', t)
    ensures CanReach(c, Only(t), Sys(z, s.m, s.rs), Sys(z, s'.m, s'.rs))
  {
    var ys := seq(|ss|, (k: nat) requires k < |ss| => Sys(z, ss[k].m, ss[k].rs));
    var yas := seq(|acts|, (k: nat) requires k < |acts| => TableOnly(acts[k]));
    forall k {:trigger SysStepAt(c, ys, yas, k)} | 0 <= k < |yas| ensures SysStepAt(c, ys, yas, k) {
      assert StepAt(ss, acts, k);
    }
    assert SysRun(c, ys, yas) && RunBy(yas, Only(t));
    assert ys[0] == Sys(z, s.m, s.rs) && ys[|yas|] == Sys(z, s'.m, s'.rs);
  }

  // From every reachable state, whatever the writer and the other threads are in the middle of, any
  // thread can be inside and complete a lookup for any hash value and predicate by steps of its
  // own; it finds a node exactly if one that its predicate accepts is linked under that value.
  lemma ReadersNeverWait(c: EZ.Config, ys: seq<Sys>, yas: seq<SysAction>, t: Tid, h: nat, want: set<Link>)
    returns (y': Sys)
    requires SysRun(c, ys, yas) && SysInit(c, ys[0]) && t < |ys[0].rs|
    ensures CanReach(c, Only(t), ys[|yas|], y') && t < |y'.rs| && y'.rs[t].In? && y'.m == ys[|yas|].m
    ensures var m, look := y'.m, y'.rs[t].look;
            if exists l :: l in m.linked && O.Accepts(m, want, h, l)
            then look.Found? && look.n in m.linked && O.Accepts(m, want, h, look.n)
            else look == Missed
  {
    var y := ys[|yas|];
    var g := ReachedInv(c, ys, yas);
    var y1;
    if y.rs[t].Out? {
      y1 := ThreadLocks(c, y, g, t);
    } else {
      y1 := ThreadFinds(c, y, g, t);
    }
    hide SysRun, CanReach, Inv;
    assert Good(AbsState(y1));
    var ss, acts, s' := O.LookupAlone(AbsState(y1), t, h, want);
    ReadsReach(c, y1.z, ss, acts, AbsState(y1), s', t);
    y' := Sys(y1.z, s'.m, s'.rs);
    ReachVia(c, Only(t), y, y1, y');
  }

  // ----- the system can do what the table machine can -----

  // Every step of the table machine is a step of the system: acquiring the lock when the thread is
  // about to validate the latest epoch, the return of rcuSynchronize when the scan is over, and
  // everything else at any time.
  lemma SysMatches(c: EZ.Config, y: Sys, g: Ghost, a: Action, s': State) returns (ya: SysAction, y': Sys)
    requires SysInv(c, y, g) && Step(AbsState(y), a, s')
    requires a.Enter? ==> y.z.threads[a.t].Counted? && y.z.threads[a.t].e == y.z.latest
    requires a == Write(EndSync) ==> y.z.w.Scan? && y.z.oldest > y.z.w.last
    ensures SysStep(c, y, ya, y') && AbsAction(ya) == a && AbsState(y') == s'
  {
    var z := y.z;
    if EventOf(a) == GP.Internal {
      ya, y' := TableOnly(a), Sys(z, s'.m, s'.rs);
    } else {
      var za, z' := MatchingStep(c, y, g, a, s');
      EZ.Refines(c, z, za, z');
      ya, y' := Joint(za, a), Sys(z', s'.m, s'.rs);
    }
  }

  lemma MatchingStep(c: EZ.Config, y: Sys, g: Ghost, a: Action, s': State) returns (za: EZ.Action, z': EZ.Zone)
    requires SysInv(c, y, g) && Step(AbsState(y), a, s') && EventOf(a) != GP.Internal
    requires a.Enter? ==> y.z.threads[a.t].Counted? && y.z.threads[a.t].e == y.z.latest
    requires a == Write(EndSync) ==> y.z.w.Scan? && y.z.oldest > y.z.w.last
    ensures EZ.Step(c, y.z, za, z') && EZ.EventOf(y.z, za) == EventOf(a)
  {
    hide Inv;
    var z := y.z;
    match a
    case Enter(t) =>
      za, z' := EZ.Validate(t), z.(threads := z.threads[t := EZ.Valid(z.latest)]);
    case Leave(t) =>
      var k := EZ.SlotOf(c, t, z.threads[t].e);
      za, z' := EZ.Unlock(t), z.(threads := z.threads[t := EZ.Idle], count := z.count[k := z.count[k] - 1]);
    case Write(wa) =>
      if wa.BeginSync? {
        za, z' := EZ.Advance, z.(latest := z.latest + 1, w := EZ.Scan(z.latest, 0));
      } else {
        za, z' := EZ.Return, z.(w := EZ.Quiet);
      }
  }

  // And so is every step inside rcuReadLock and rcuSynchronize.
  lemma ZoneMatches(c: EZ.Config, y: Sys, za: EZ.Action, z': EZ.Zone)
    requires EZ.Sized(c, y.z) && EZ.Step(c, y.z, za, z') && EZ.EventOf(y.z, za) == GP.Internal
    ensures SysStep(c, y, ZoneOnly(za), y.(z := z'))
  {
  }

  // The system can start out with any threads and counters, and a table of any size.
  lemma SysInitExists(c: EZ.Config, n: nat)
    requires EZ.ValidConfig(c) && IsPow2(n)
    ensures exists y :: SysInit(c, y) && |y.m.table| == n
  {
    ZP.InitExists(c);
    O.InitExists(n, |c.bucketOf|);
    var z :| EZ.Init(c, z);
    var s :| Init(s) && |s.m.table| == n && |s.rs| == |c.bucketOf|;
    assert SysInit(c, Sys(z, s.m, s.rs));
  }
}
