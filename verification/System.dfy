// The table over the concrete epoch ring: reader threads and the writer interleave their steps in
// the zone and in the table, and every theorem about lookups holds for that system.
module System {
  import opened Bits
  import opened Walks
  import opened Chains
  import opened TableMachine
  import opened Lookup
  import opened Reclaim
  import EZ = EpochZone
  import GP = GracePeriod

  // Thread t of the zone is reader t of the table.
  datatype Sys = Sys(z: EZ.Zone, m: Mem, rs: seq<Reader>)

  // ZoneOnly: a step inside rcuReadLock or rcuSynchronize that the table does not notice.
  // Joint: a read lock is acquired or released, or rcuSynchronize begins or returns.
  // TableOnly: a load or store of the table.
  datatype SysAction = ZoneOnly(za: EZ.Action) | Joint(za: EZ.Action, a: Action) | TableOnly(a: Action)

  predicate SysStep(c: EZ.Config, y: Sys, ya: SysAction, y': Sys)
    requires EZ.Sized(c, y.z)
  {
    match ya
    case ZoneOnly(za) =>
      EZ.Step(c, y.z, za, y'.z) && EZ.EventOf(y.z, za) == GP.Internal && y'.m == y.m && y'.rs == y.rs
    case Joint(za, a) =>
      && EZ.Step(c, y.z, za, y'.z) && EZ.EventOf(y.z, za) == EventOf(a) && EventOf(a) != GP.Internal
      && TableStep(y.m, y.rs, a, y'.m, y'.rs)
    case TableOnly(a) =>
      y'.z == y.z && EventOf(a) == GP.Internal && TableStep(y.m, y.rs, a, y'.m, y'.rs)
  }

  function AbsAction(ya: SysAction): Action {
    match ya
    case ZoneOnly(_) => Pause
    case Joint(_, a) => a
    case TableOnly(a) => a
  }

  ghost function AbsState(y: Sys): State {
    State(y.m, y.rs, EZ.Abs(y.z))
  }

  predicate SysInit(c: EZ.Config, y: Sys) {
    EZ.Init(c, y.z) && |y.rs| == |y.z.threads| && Init(State(y.m, y.rs, GP.Gp({}, false, {})))
  }

  predicate SysRun(c: EZ.Config, ys: seq<Sys>, yas: seq<SysAction>) {
    && |ys| == |yas| + 1
    && (forall k :: 0 <= k < |ys| ==> EZ.Sized(c, ys[k].z))
    && forall k {:trigger SysStepAt(c, ys, yas, k)} :: 0 <= k < |yas| ==> SysStepAt(c, ys, yas, k)
  }

  // Step k of a run
  predicate SysStepAt(c: EZ.Config, ys: seq<Sys>, yas: seq<SysAction>, k: nat) {
    k < |yas| < |ys| && EZ.Sized(c, ys[k].z) && SysStep(c, ys[k], yas[k], ys[k + 1])
  }

  // One step of the concrete system is one step of the table machine over the abstract grace
  // period.
  lemma SysRefines(c: EZ.Config, y: Sys, ya: SysAction, y': Sys)
    requires EZ.Sized(c, y.z) && EZ.Inv(c, y.z) && SysStep(c, y, ya, y')
    ensures EZ.Inv(c, y'.z) && Step(AbsState(y), AbsAction(ya), AbsState(y'))
  {
    if !ya.TableOnly? {
      EZ.Refines(c, y.z, ya.za, y'.z);
    }
  }

  ghost function AbsStates(ys: seq<Sys>): (ss: seq<State>)
    ensures |ss| == |ys| && forall k :: 0 <= k < |ys| ==> ss[k] == AbsState(ys[k])
  {
    seq(|ys|, k requires 0 <= k < |ys| => AbsState(ys[k]))
  }

  function AbsActions(yas: seq<SysAction>): (acts: seq<Action>)
    ensures |acts| == |yas| && forall k :: 0 <= k < |yas| ==> acts[k] == AbsAction(yas[k])
  {
    seq(|yas|, k requires 0 <= k < |yas| => AbsAction(yas[k]))
  }

  lemma {:induction false} ZoneInv(c: EZ.Config, ys: seq<Sys>, yas: seq<SysAction>, k: nat)
    requires SysRun(c, ys, yas) && SysInit(c, ys[0]) && k < |ys|
    ensures EZ.Inv(c, ys[k].z)
    decreases k
  {
    if k == 0 {
      EZ.InitInv(c, ys[0].z);
    } else {
      ZoneInv(c, ys, yas, k - 1);
      assert SysStepAt(c, ys, yas, k - 1);
      SysRefines(c, ys[k - 1], yas[k - 1], ys[k]);
    }
  }

  // Every run of the concrete system is, step for step, a run of the table machine.
  lemma RunRefines(c: EZ.Config, ys: seq<Sys>, yas: seq<SysAction>)
    requires SysRun(c, ys, yas) && SysInit(c, ys[0])
    ensures Run(AbsStates(ys), AbsActions(yas)) && Init(AbsStates(ys)[0])
  {
    EZ.InitRefines(c, ys[0].z);
    var ss, acts := AbsStates(ys), AbsActions(yas);
    forall k {:trigger StepAt(ss, acts, k)} | 0 <= k < |acts| ensures StepAt(ss, acts, k) {
      ZoneInv(c, ys, yas, k);
      assert SysStepAt(c, ys, yas, k);
      SysRefines(c, ys[k], yas[k], ys[k + 1]);
    }
  }

  // With the epoch ring underneath: a lookup that starts at step i and returns null at step k
  // has not skipped a matching node that was linked throughout.
  lemma LookupNeverMisses(c: EZ.Config, ys: seq<Sys>, yas: seq<SysAction>, i: nat, k: nat, t: Tid, h: nat,
                          want: set<Link>, n: Link)
    requires SysRun(c, ys, yas) && SysInit(c, ys[0]) && i < k < |yas| && t < |ys[0].rs|
    requires yas[i] == TableOnly(Read(t, StartFind(h, want))) && n in want
    requires forall j :: i < j <= k ==> t < |ys[j].rs| && Looking(ys[j].rs[t])
    requires t < |ys[k + 1].rs| && ys[k + 1].rs[t].In? && ys[k + 1].rs[t].look == Missed
    ensures exists j :: i < j <= k && !(Linked(ys[j].m, n) && ys[j].m.hash[n] == h)
  {
    RunRefines(c, ys, yas);
    var ss := AbsStates(ys);
    MissIsHonest(ss, AbsActions(yas), i, k, t, h, want, n);
    var j :| i < j <= k && !(Linked(ss[j].m, n) && ss[j].m.hash[n] == h);
    assert ss[j].m == ys[j].m;
  }

  // A lookup returns a node that was linked, under the hash value looked for, at some moment since
  // step i: since its thread validated its epoch, and even since the lookup itself began.
  lemma LookupFindsLinked(c: EZ.Config, ys: seq<Sys>, yas: seq<SysAction>, i: nat, k: nat, t: Tid, n: Link)
    requires SysRun(c, ys, yas) && SysInit(c, ys[0]) && i < k < |yas| && t < |ys[0].rs|
    requires Begins(AbsAction(yas[i]), t) && yas[k] == TableOnly(Read(t, Examine))
    requires t < |ys[k].rs| && ys[k].rs[t].In? && ys[k].rs[t].look.At?
    requires t < |ys[k + 1].rs| && ys[k + 1].rs[t].In? && ys[k + 1].rs[t].look == Found(n)
    ensures n in ys[k].rs[t].look.want
    ensures exists j :: i < j <= k && Linked(ys[j].m, n) && ys[j].m.hash[n] == ys[k].rs[t].look.h
  {
    RunRefines(c, ys, yas);
    var ss := AbsStates(ys);
    FoundWasLinked(ss, AbsActions(yas), i, k, t, n);
    var j :| i < j <= k && Linked(ss[j].m, n) && ss[j].m.hash[n] == ss[k].rs[t].look.h;
    assert ss[j].m == ys[j].m;
  }

  // Once rcuSynchronize has returned after a detach, the node is out of every reader's reach
  // until the client inserts it again.
  lemma DetachIsSafe(c: EZ.Config, ys: seq<Sys>, yas: seq<SysAction>, d: nat, e: nat, k: nat, n: Link, b: nat,
                     pre: seq<Link>, t: Tid)
    requires SysRun(c, ys, yas) && SysInit(c, ys[0]) && d < e < k < |ys| && t < |ys[k].rs|
    requires yas[d] == TableOnly(Write(Detach(b, pre, n))) && yas[e] == Joint(EZ.Return, Write(EndSync))
    requires forall j :: d <= j < k && j < |yas| ==>
               !(AbsAction(yas[j]).Write? && AbsAction(yas[j]).wa.BeginInsert? && AbsAction(yas[j]).wa.n == n)
    ensures !Refers(ys[k].m, ys[k].rs[t], n)
  {
    RunRefines(c, ys, yas);
    DetachedThenSynchronized(AbsStates(ys), AbsActions(yas), d, e, k, n, b, pre, t);
  }

  // ----- such runs exist -----

  const ONE_THREAD := EZ.Config(1, [0])

  // One thread locks, looks into the one empty bucket of a fresh table, and misses.
  function MissState(k: nat, h: nat, want: set<Link>): Sys {
    var m := Mem(map[0 := Null], map[], [0], {0}, {}, {}, Idle);
    var thread := match k
                  case 0 => EZ.Idle
                  case 1 => EZ.Loaded(0, 0, 0)
                  case 2 => EZ.Counted(0, 0, 0)
                  case _ => EZ.Valid(0);
    var reader := match k
                  case 0 => Out case 1 => Out case 2 => Out
                  case 3 => In({}, Rest)
                  case 4 => In({}, HasInfo(h, want, [0]))
                  case 5 => In({}, At(h, want, Null))
                  case _ => In({}, Missed);
    Sys(EZ.Zone(0, 0, [if k < 2 then 0 else 1, 0], [thread], EZ.Quiet), m, [reader])
  }

  function MissAction(k: nat, h: nat, want: set<Link>): SysAction {
    match k
    case 0 => ZoneOnly(EZ.Load(0))
    case 1 => ZoneOnly(EZ.Increment(0))
    case 2 => Joint(EZ.Validate(0), Enter(0))
    case 3 => TableOnly(Read(0, StartFind(h, want)))
    case 4 => TableOnly(Read(0, LoadHead))
    case _ => TableOnly(Read(0, Examine))
  }

  lemma MissStep(k: nat, h: nat, want: set<Link>)
    requires k < 6
    ensures EZ.Sized(ONE_THREAD, MissState(k, h, want).z)
    ensures SysStep(ONE_THREAD, MissState(k, h, want), MissAction(k, h, want), MissState(k + 1, h, want))
  {
    if k < 3 {
      EZ.SlotInRow(ONE_THREAD, 0, 0);
    } else {
      assert BucketOf(h, 1) == 0;
    }
  }

  // So LookupNeverMisses speaks about something, for every hash value and predicate.
  lemma SomeLookupMisses(h: nat, want: set<Link>) returns (ys: seq<Sys>, yas: seq<SysAction>)
    ensures SysRun(ONE_THREAD, ys, yas) && SysInit(ONE_THREAD, ys[0]) && |yas| == 6 && |ys[0].rs| == 1
    ensures yas[3] == TableOnly(Read(0, StartFind(h, want)))
    ensures forall j :: 3 < j <= 5 ==> |ys[j].rs| == 1 && Looking(ys[j].rs[0])
    ensures |ys[6].rs| == 1 && ys[6].rs[0].In? && ys[6].rs[0].look == Missed
  {
    hide SysStep;
    ys, yas := seq(7, (k: nat) => MissState(k, h, want)), seq(6, (k: nat) => MissAction(k, h, want));
    forall k | 0 <= k < 6 ensures SysStepAt(ONE_THREAD, ys, yas, k) {
      MissStep(k, h, want);
    }
    assert EZ.Sized(ONE_THREAD, MissState(6, h, want).z);
  }
}
