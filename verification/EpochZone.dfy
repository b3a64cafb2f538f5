// The epoch-based RCU zone: reader threads and one serialized writer, one shared access per step.
module EpochZone {
  import GP = GracePeriod

  type Tid = nat

  // nb reference-count buckets per epoch row; thread t always uses bucket bucketOf[t].
  datatype Config = Config(nb: nat, bucketOf: seq<nat>)

  // Where a reader thread stands in rcuReadLock / rcuReadUnlock. Only e is state of the program;
  // start (the epoch when the call began) and tries (reverts so far) are bookkeeping.
  datatype Thread =
    | Idle
    | Loaded(e: nat, start: nat, tries: nat)    // epoch loaded, row e & 1 not yet incremented
    | Counted(e: nat, start: nat, tries: nat)   // incremented, not yet revalidated
    | Revert(e: nat, start: nat, tries: nat)    // revalidation failed, decrement pending
    | Retry(start: nat, tries: nat)             // decremented, about to load the epoch again
    | Valid(e: nat)                             // rcuReadLock has returned e

  // Where the writer stands in rcuSynchronize: lastEpoch, and the next bucket to look at.
  datatype Writer = Quiet | Scan(last: nat, i: nat)

  datatype Zone = Zone(latest: nat, oldest: nat, count: seq<int>, threads: seq<Thread>, w: Writer)

  datatype Action =
    | Load(t: Tid) | Increment(t: Tid) | Validate(t: Tid) | Decrement(t: Tid) | Unlock(t: Tid)
    | Advance | PassBucket | NextRow | Return

  // The ring has two rows, selected by epoch & 1, laid out one after the other in one array.
  function Slot(c: Config, row: nat, b: nat): nat {
    row * c.nb + b
  }

  predicate ValidConfig(c: Config) {
    c.nb > 0 && forall t :: 0 <= t < |c.bucketOf| ==> c.bucketOf[t] < c.nb
  }

  predicate Sized(c: Config, z: Zone) {
    && ValidConfig(c)
    && |z.count| == 2 * c.nb
    && |z.threads| == |c.bucketOf|
  }

  lemma SlotInRow(c: Config, row: nat, b: nat)
    requires row < 2 && b < c.nb
    ensures row * c.nb <= Slot(c, row, b) < (row + 1) * c.nb <= 2 * c.nb
  {
  }

  function SlotOf(c: Config, t: Tid, e: nat): (k: nat)
    requires ValidConfig(c) && t < |c.bucketOf|
    ensures k < 2 * c.nb
  {
    SlotInRow(c, e % 2, c.bucketOf[t]);
    Slot(c, e % 2, c.bucketOf[t])
  }

  predicate Init(c: Config, z: Zone) {
    && Sized(c, z)
    && z.latest == 0 && z.oldest == 0 && z.w == Quiet
    && (forall k :: 0 <= k < |z.count| ==> z.count[k] == 0)
    && (forall t :: 0 <= t < |z.threads| ==> z.threads[t] == Idle)
  }

  predicate Step(c: Config, z: Zone, a: Action, z': Zone)
    requires Sized(c, z)
  {
    match a
    case Load(t) =>
      && t < |z.threads|
      && (match z.threads[t]
          case Idle => z' == z.(threads := z.threads[t := Loaded(z.latest, z.latest, 0)])
          case Retry(s, n) => z' == z.(threads := z.threads[t := Loaded(z.latest, s, n)])
          case _ => false)
    case Increment(t) =>
      && t < |z.threads| && z.threads[t].Loaded?
      && var Loaded(e, s, n) := z.threads[t];
      && var k := SlotOf(c, t, e);
      && z' == z.(threads := z.threads[t := Counted(e, s, n)], count := z.count[k := z.count[k] + 1])
    case Validate(t) =>
      && t < |z.threads| && z.threads[t].Counted?
      && var Counted(e, s, n) := z.threads[t];
      && z' == z.(threads := z.threads[t := if z.latest == e then Valid(e) else Revert(e, s, n)])
    case Decrement(t) =>
      && t < |z.threads| && z.threads[t].Revert?
      && var Revert(e, s, n) := z.threads[t];
      && var k := SlotOf(c, t, e);
      && z' == z.(threads := z.threads[t := Retry(s, n + 1)], count := z.count[k := z.count[k] - 1])
    case Unlock(t) =>
      && t < |z.threads| && z.threads[t].Valid?
      && var k := SlotOf(c, t, z.threads[t].e);
      && z' == z.(threads := z.threads[t := Idle], count := z.count[k := z.count[k] - 1])
    case Advance =>
      z.w == Quiet && z' == z.(latest := z.latest + 1, w := Scan(z.latest, 0))
    case PassBucket =>
      && z.w.Scan? && z.oldest <= z.w.last && z.w.i < c.nb
      && (SlotInRow(c, z.oldest % 2, z.w.i); z.count[Slot(c, z.oldest % 2, z.w.i)] <= 0)
      && z' == z.(w := Scan(z.w.last, z.w.i + 1))
    case NextRow =>
      && z.w.Scan? && z.oldest <= z.w.last && z.w.i == c.nb
      && z' == z.(oldest := z.oldest + 1, w := Scan(z.w.last, 0))
    case Return =>
      z.w.Scan? && z.oldest > z.w.last && z' == z.(w := Quiet)
  }

  // What the step means to the users of the zone.
  function EventOf(z: Zone, a: Action): GP.Event {
    match a
    case Validate(t) =>
      if t < |z.threads| && z.threads[t].Counted? && z.threads[t].e == z.latest then GP.Enter(t) else GP.Internal
    case Unlock(t) => GP.Leave(t)
    case Advance => GP.SyncBegin
    case Return => GP.SyncEnd
    case _ => GP.Internal
  }

  // ----- reference counts -----

  predicate Holds(th: Thread, row: nat) {
    (th.Counted? || th.Revert? || th.Valid?) && th.e % 2 == row
  }

  // 1 when thread t, in state th, accounts for one reference in the given row and bucket.
  function Share(c: Config, t: Tid, th: Thread, row: nat, b: nat): nat
    requires t < |c.bucketOf|
  {
    if c.bucketOf[t] == b && Holds(th, row) then 1 else 0
  }

  ghost function Holders(c: Config, ts: seq<Thread>, row: nat, b: nat): nat
    requires |ts| <= |c.bucketOf|
  {
    if ts == [] then 0
    else Holders(c, ts[..|ts| - 1], row, b) + Share(c, |ts| - 1, ts[|ts| - 1], row, b)
  }

  lemma {:induction false} HoldersUpdate(c: Config, ts: seq<Thread>, t: Tid, th: Thread, row: nat, b: nat)
    requires t < |ts| <= |c.bucketOf|
    ensures Holders(c, ts[t := th], row, b) == Holders(c, ts, row, b) - Share(c, t, ts[t], row, b)
            + Share(c, t, th, row, b)
    decreases |ts|
  {
    var n := |ts| - 1;
    if t < n {
      assert ts[t := th][..n] == ts[..n][t := th];
      HoldersUpdate(c, ts[..n], t, th, row, b);
    } else {
      assert ts[t := th][..n] == ts[..n];
    }
  }

  lemma {:induction false} HoldersAtLeast(c: Config, ts: seq<Thread>, t: Tid, row: nat, b: nat)
    requires t < |ts| <= |c.bucketOf|
    ensures Holders(c, ts, row, b) >= Share(c, t, ts[t], row, b)
    decreases |ts|
  {
    if t < |ts| - 1 {
      HoldersAtLeast(c, ts[..|ts| - 1], t, row, b);
    }
  }

  lemma {:induction false} HoldersZero(c: Config, ts: seq<Thread>, row: nat, b: nat)
    requires |ts| <= |c.bucketOf|
    requires forall t :: 0 <= t < |ts| ==> Share(c, t, ts[t], row, b) == 0
    ensures Holders(c, ts, row, b) == 0
    decreases |ts|
  {
    if ts != [] {
      var front := ts[..|ts| - 1];
      assert forall t :: 0 <= t < |front| ==> front[t] == ts[t];
      HoldersZero(c, front, row, b);
    }
  }

  // ----- the inductive invariant -----

  // Every counter equals the number of threads between their increment and their decrement.
  ghost predicate Conserved(c: Config, z: Zone)
    requires Sized(c, z)
  {
    forall row, b :: 0 <= row < 2 && 0 <= b < c.nb ==> CountIs(c, z, row, b)
  }

  ghost predicate CountIs(c: Config, z: Zone, row: nat, b: nat)
    requires Sized(c, z) && row < 2 && b < c.nb
  {
    SlotInRow(c, row, b);
    z.count[Slot(c, row, b)] == Holders(c, z.threads, row, b)
  }

  // epochOldest and epochLatest never drift apart by more than one.
  predicate RingBound(c: Config, z: Zone) {
    match z.w
    case Quiet => z.oldest == z.latest
    case Scan(last, i) =>
      && z.latest == last + 1 && i <= c.nb
      && (z.oldest == last || (z.oldest == last + 1 && i == 0))
  }

  predicate ThreadOk(c: Config, z: Zone, t: Tid)
    requires Sized(c, z) && t < |z.threads|
  {
    match z.threads[t]
    case Idle => true
    case Loaded(e, s, n) => s + n <= e <= z.latest
    case Counted(e, s, n) => s + n <= e <= z.latest
    case Revert(e, s, n) => s + n <= e < z.latest
    case Retry(s, n) => s + n <= z.latest
    case Valid(e) =>
      && z.oldest <= e <= z.latest
      // buckets already passed hold no reader of the draining epoch
      && (z.w.Scan? && e == z.w.last ==> z.w.i <= c.bucketOf[t])
  }

  ghost predicate Inv(c: Config, z: Zone) {
    && Sized(c, z)
    && Conserved(c, z)
    && RingBound(c, z)
    && forall t :: 0 <= t < |z.threads| ==> ThreadOk(c, z, t)
  }

  lemma InitInv(c: Config, z: Zone)
    requires Init(c, z)
    ensures Inv(c, z)
  {
    forall row, b | 0 <= row < 2 && 0 <= b < c.nb
      ensures CountIs(c, z, row, b)
    {
      SlotInRow(c, row, b);
      HoldersZero(c, z.threads, row, b);
    }
  }

  lemma SlotInjective(c: Config, r1: nat, b1: nat, r2: nat, b2: nat)
    requires r1 < 2 && r2 < 2 && b1 < c.nb && b2 < c.nb
    ensures Slot(c, r1, b1) == Slot(c, r2, b2) <==> r1 == r2 && b1 == b2
  {
    SlotInRow(c, r1, b1);
    SlotInRow(c, r2, b2);
  }

  lemma ConservedStep(c: Config, z: Zone, a: Action, z': Zone)
    requires Inv(c, z) && Step(c, z, a, z')
    ensures Sized(c, z') && Conserved(c, z')
  {
    forall row, b | 0 <= row < 2 && 0 <= b < c.nb
      ensures CountIs(c, z', row, b)
    {
      assert CountIs(c, z, row, b);
      SlotInRow(c, row, b);
      if a.Load? || a.Increment? || a.Validate? || a.Decrement? || a.Unlock? {
        var t, th := a.t, z.threads[a.t];
        HoldersUpdate(c, z.threads, t, z'.threads[t], row, b);
        if a.Increment? || a.Decrement? || a.Unlock? {
          SlotInjective(c, row, b, th.e % 2, c.bucketOf[t]);
        }
      }
    }
  }

  // The writer may pass a bucket only when no validated reader of the draining epoch uses it.
  lemma PassedBucketIsEmpty(c: Config, z: Zone, t: Tid)
    requires Inv(c, z) && z.w.Scan? && z.w.i < c.nb && t < |z.threads|
    requires Slot(c, z.oldest % 2, z.w.i) < |z.count| && z.count[Slot(c, z.oldest % 2, z.w.i)] <= 0
    ensures c.bucketOf[t] == z.w.i ==> !Holds(z.threads[t], z.oldest % 2)
  {
    assert CountIs(c, z, z.oldest % 2, z.w.i);
    HoldersAtLeast(c, z.threads, t, z.oldest % 2, z.w.i);
  }

  lemma StepInv(c: Config, z: Zone, a: Action, z': Zone)
    requires Inv(c, z) && Step(c, z, a, z')
    ensures Inv(c, z')
  {
    ConservedStep(c, z, a, z');
    hide ThreadOk, Conserved;
    forall t | 0 <= t < |z'.threads|
      ensures ThreadOk(c, z', t)
    {
      if a == PassBucket {
        SlotInRow(c, z.oldest % 2, z.w.i);
        PassedBucketIsEmpty(c, z, t);
      }
      ThreadStep(c, z, a, z', t);
    }
  }

  lemma ThreadStep(c: Config, z: Zone, a: Action, z': Zone, t: Tid)
    requires Sized(c, z) && Sized(c, z') && RingBound(c, z) && Step(c, z, a, z')
    requires t < |z.threads| == |z'.threads| && forall u :: 0 <= u < |z.threads| ==> ThreadOk(c, z, u)
    requires a == PassBucket && z.w.Scan? && c.bucketOf[t] == z.w.i ==> !Holds(z.threads[t], z.oldest % 2)
    ensures ThreadOk(c, z', t)
  {
    assert ThreadOk(c, z, t);
  }

  // ----- refinement: the ring implements the abstract grace period -----

  ghost function Abs(z: Zone): GP.Gp {
    GP.Gp(
      (set t | 0 <= t < |z.threads| && z.threads[t].Valid?),
      z.w.Scan?,
      (set t | 0 <= t < |z.threads| && z.threads[t].Valid? && z.threads[t].e < z.latest))
  }

  lemma InitRefines(c: Config, z: Zone)
    requires Init(c, z)
    ensures Abs(z) == GP.Gp({}, false, {})
  {
  }

  // A validated reader's epoch is at most the latest; when no scan is on it is the latest.
  lemma ValidEpochs(c: Config, z: Zone, t: Tid)
    requires Inv(c, z) && t < |z.threads| && z.threads[t].Valid?
    ensures z.oldest <= z.threads[t].e <= z.latest
  {
    assert ThreadOk(c, z, t);
  }

  lemma AbsValid(c: Config, z: Zone)
    requires Inv(c, z)
    ensures GP.Valid(Abs(z))
    ensures z.w.Quiet? || z.oldest > z.w.last ==> Abs(z).waiting == {}
  {
    if z.w.Quiet? || z.oldest > z.w.last {
      forall t | t in Abs(z).waiting ensures false { ValidEpochs(c, z, t); }
    }
  }

  lemma Refines(c: Config, z: Zone, a: Action, z': Zone)
    requires Inv(c, z) && Step(c, z, a, z')
    ensures Inv(c, z')
    ensures GP.Next(Abs(z), EventOf(z, a), Abs(z'))
    ensures GP.Valid(Abs(z))
  {
    StepInv(c, z, a, z');
    AbsValid(c, z);
    var g, g' := Abs(z), Abs(z');
    match a
    case Advance =>
      forall t | t in g.inside ensures t in g'.waiting { ValidEpochs(c, z, t); }
      assert g'.waiting == g.inside;
    case Return =>
      assert g' == g.(syncing := false);
    case Validate(t) =>
      if z.latest == z.threads[t].e {
        assert g'.inside == g.inside + {t};
        assert g'.waiting == g.waiting;
      } else {
        assert g' == g;
      }
    case Unlock(t) =>
      assert g'.inside == g.inside - {t};
      assert g'.waiting == g.waiting - {t};
    case _ =>
      assert g'.inside == g.inside;
      assert g'.waiting == g.waiting;
  }

  // ----- the wait ends -----

  // How often thread th can still touch the row that epoch d is draining from.
  function Weight(th: Thread, d: nat): nat {
    if (th.Idle? || th.Retry?) || th.e % 2 != d % 2 then 0
    else match th
      case Loaded(_, _, _) => 3
      case Counted(_, _, _) => 2
      case Revert(_, _, _) => 1
      case Valid(_) => 1
  }

  function Pending(ts: seq<Thread>, d: nat): nat {
    if ts == [] then 0 else Pending(ts[..|ts| - 1], d) + Weight(ts[|ts| - 1], d)
  }

  lemma {:induction false} PendingUpdate(ts: seq<Thread>, t: Tid, th: Thread, d: nat)
    requires t < |ts|
    ensures Pending(ts[t := th], d) == Pending(ts, d) - Weight(ts[t], d) + Weight(th, d)
    decreases |ts|
  {
    var n := |ts| - 1;
    if t < n {
      assert ts[t := th][..n] == ts[..n][t := th];
      PendingUpdate(ts[..n], t, th, d);
    } else {
      assert ts[t := th][..n] == ts[..n];
    }
  }

  lemma {:induction false} PendingBounds(ts: seq<Thread>, t: Tid, d: nat)
    requires t < |ts|
    ensures Weight(ts[t], d) <= Pending(ts, d)
    decreases |ts|
  {
    if t < |ts| - 1 {
      PendingBounds(ts[..|ts| - 1], t, d);
    }
  }

  lemma {:induction false} PendingAtMost(ts: seq<Thread>, d: nat)
    ensures Pending(ts, d) <= 3 * |ts|
    decreases |ts|
  {
    if ts != [] {
      PendingAtMost(ts[..|ts| - 1], d);
    }
  }

  // The step increments or decrements a counter of row d & 1.
  predicate Touches(z: Zone, a: Action, d: nat) {
    && (a.Increment? || a.Decrement? || a.Unlock?)
    && a.t < |z.threads| && !z.threads[a.t].Idle? && !z.threads[a.t].Retry?
    && z.threads[a.t].e % 2 == d % 2
  }

  // While rcuSynchronize drains a row, no step raises the measure and every step that touches
  // the row lowers it.
  lemma DrainStep(c: Config, z: Zone, a: Action, z': Zone)
    requires Inv(c, z) && Step(c, z, a, z') && z.w.Scan? && a != Return
    ensures z'.w.Scan? && z'.w.last == z.w.last
    ensures Pending(z'.threads, z.w.last) <= Pending(z.threads, z.w.last)
    ensures Touches(z, a, z.w.last) ==> Pending(z'.threads, z.w.last) < Pending(z.threads, z.w.last)
  {
    if a.Load? || a.Increment? || a.Validate? || a.Decrement? || a.Unlock? {
      assert ThreadOk(c, z, a.t);
      PendingUpdate(z.threads, a.t, z'.threads[a.t], z.w.last);
    }
  }

  predicate Run(c: Config, zs: seq<Zone>, acts: seq<Action>) {
    && |zs| == |acts| + 1
    && (forall k :: 0 <= k < |zs| ==> Sized(c, zs[k]))
    && forall k {:trigger StepAt(c, zs, acts, k)} :: 0 <= k < |acts| ==> StepAt(c, zs, acts, k)
  }

  // Step k of a run
  predicate StepAt(c: Config, zs: seq<Zone>, acts: seq<Action>, k: nat) {
    k < |acts| < |zs| && Sized(c, zs[k]) && Step(c, zs[k], acts[k], zs[k + 1])
  }

  lemma {:induction false} RunInv(c: Config, zs: seq<Zone>, acts: seq<Action>, k: nat)
    requires Run(c, zs, acts) && Init(c, zs[0]) && k < |zs|
    ensures Inv(c, zs[k])
    decreases k
  {
    if k == 0 {
      InitInv(c, zs[0]);
    } else {
      RunInv(c, zs, acts, k - 1);
      assert StepAt(c, zs, acts, k - 1);
      StepInv(c, zs[k - 1], acts[k - 1], zs[k]);
    }
  }

  function TouchCount(zs: seq<Zone>, acts: seq<Action>, d: nat, i: nat, j: nat): nat
    requires i <= j <= |acts| < |zs|
    decreases j - i
  {
    if i == j then 0
    else TouchCount(zs, acts, d, i, j - 1) + if Touches(zs[j - 1], acts[j - 1], d) then 1 else 0
  }

  lemma DrainStart(c: Config, z: Zone, z': Zone)
    requires Sized(c, z) && Step(c, z, Advance, z')
    ensures z'.w.Scan? && z'.w.last == z.latest && Pending(z'.threads, z.latest) <= 3 * |c.bucketOf|
  {
    PendingAtMost(z'.threads, z.latest);
  }

  // From the epoch increment until rcuSynchronize returns, the draining row is touched at most
  // three times per thread, however the threads are scheduled.
  lemma {:induction false} DrainBounded(c: Config, zs: seq<Zone>, acts: seq<Action>, i: nat, j: nat)
    requires Run(c, zs, acts) && Init(c, zs[0]) && i < j <= |acts| && acts[i] == Advance
    requires forall k :: i < k < j ==> acts[k] != Return
    ensures TouchCount(zs, acts, zs[i].latest, i + 1, j) + Pending(zs[j].threads, zs[i].latest) <= 3 * |c.bucketOf|
    ensures zs[j].w.Scan? && zs[j].w.last == zs[i].latest
    decreases j
  {
    hide Step, Pending, Inv, Touches, Init;
    var d, z, a, z' := zs[i].latest, zs[j - 1], acts[j - 1], zs[j];
    assert StepAt(c, zs, acts, j - 1);
    if j == i + 1 {
      DrainStart(c, z, z');
    } else {
      DrainBounded(c, zs, acts, i, j - 1);
      RunInv(c, zs, acts, j - 1);
      DrainStep(c, z, a, z');
    }
  }

  // The scan goes on whenever no thread holds a reference in the draining row.
  lemma UnheldMeansFree(c: Config, z: Zone) returns (a: Action, z': Zone)
    requires Inv(c, z) && z.w.Scan?
    requires forall t :: 0 <= t < |z.threads| ==> !Holds(z.threads[t], z.w.last % 2)
    ensures Step(c, z, a, z') && z'.threads == z.threads
    ensures if z.oldest > z.w.last then a == Return
            else (a == PassBucket || a == NextRow) && ScanLeft(c, z') < ScanLeft(c, z)
  {
    if z.oldest > z.w.last {
      a, z' := Return, z.(w := Quiet);
    } else if z.w.i == c.nb {
      a, z' := NextRow, z.(oldest := z.oldest + 1, w := Scan(z.w.last, 0));
    } else {
      var row := z.oldest % 2;
      HoldersZero(c, z.threads, row, z.w.i);
      assert CountIs(c, z, row, z.w.i);
      SlotInRow(c, row, z.w.i);
      a, z' := PassBucket, z.(w := Scan(z.w.last, z.w.i + 1));
    }
  }

  // The writer's own steps of a scan before it returns
  function ScanLeft(c: Config, z: Zone): nat {
    match z.w
    case Scan(last, i) => if z.oldest <= last && i <= c.nb then c.nb - i + 1 else 0
    case Quiet => 0
  }

  // The scan is held up only by threads that still have a step to take on the draining row:
  // once the measure is zero the writer can always go on.
  lemma DrainedMeansFree(c: Config, z: Zone)
    requires Inv(c, z) && z.w.Scan? && Pending(z.threads, z.w.last) == 0
    ensures exists a, z' :: (a == PassBucket || a == NextRow || a == Return) && Step(c, z, a, z')
  {
    forall t | 0 <= t < |z.threads| ensures !Holds(z.threads[t], z.w.last % 2) {
      PendingBounds(z.threads, t, z.w.last);
    }
    var a, z' := UnheldMeansFree(c, z);
  }

  // A bucket that cannot be passed is in use by a reader that validated before the epoch
  // advanced, or by a thread whose next step will take its stale increment back.
  lemma BlockedByWhom(c: Config, z: Zone)
    requires Inv(c, z) && z.w.Scan? && z.oldest <= z.w.last && z.w.i < c.nb
    requires forall z' :: !Step(c, z, PassBucket, z')
    ensures exists t :: 0 <= t < |z.threads| && c.bucketOf[t] == z.w.i && Holds(z.threads[t], z.w.last % 2)
                        && (z.threads[t] == Valid(z.w.last) || z.threads[t].Counted? || z.threads[t].Revert?)
  {
    var row := z.oldest % 2;
    SlotInRow(c, row, z.w.i);
    assert !Step(c, z, PassBucket, z.(w := Scan(z.w.last, z.w.i + 1)));
    assert CountIs(c, z, row, z.w.i);
    if forall t :: 0 <= t < |z.threads| ==> Share(c, t, z.threads[t], row, z.w.i) == 0 {
      HoldersZero(c, z.threads, row, z.w.i);
    } else {
      var t :| 0 <= t < |z.threads| && Share(c, t, z.threads[t], row, z.w.i) != 0;
      assert ThreadOk(c, z, t);
    }
  }

  // rcuReadLock retries at most once per epoch advance that its call overlaps.
  lemma RetriesBounded(c: Config, zs: seq<Zone>, acts: seq<Action>, k: nat, t: Tid)
    requires Run(c, zs, acts) && Init(c, zs[0]) && k < |zs| && t < |c.bucketOf|
    requires zs[k].threads[t].Loaded? || zs[k].threads[t].Counted? || zs[k].threads[t].Revert?
             || zs[k].threads[t].Retry?
    ensures zs[k].threads[t].tries <= zs[k].latest - zs[k].threads[t].start
  {
    RunInv(c, zs, acts, k);
    assert ThreadOk(c, zs[k], t);
  }

  // Every counter is the number of its current holders, and so is never negative; the epochs of
  // all readers inside lie between epochOldest and epochLatest, which differ by at most one.
  lemma RingNeverConfusesEpochs(c: Config, zs: seq<Zone>, acts: seq<Action>, k: nat)
    requires Run(c, zs, acts) && Init(c, zs[0]) && k < |zs|
    ensures zs[k].oldest <= zs[k].latest <= zs[k].oldest + 1
    ensures forall t :: 0 <= t < |zs[k].threads| && zs[k].threads[t].Valid? ==>
              zs[k].oldest <= zs[k].threads[t].e <= zs[k].latest
    ensures forall row, b :: 0 <= row < 2 && 0 <= b < c.nb ==>
              && Slot(c, row, b) < |zs[k].count|
              && zs[k].count[Slot(c, row, b)] == Holders(c, zs[k].threads, row, b) >= 0
  {
    RunInv(c, zs, acts, k);
    var z := zs[k];
    forall t | 0 <= t < |z.threads| && z.threads[t].Valid?
      ensures z.oldest <= z.threads[t].e <= z.latest
    {
      assert ThreadOk(c, z, t);
    }
    forall row, b | 0 <= row < 2 && 0 <= b < c.nb
      ensures Slot(c, row, b) < |z.count| && z.count[Slot(c, row, b)] == Holders(c, z.threads, row, b)
    {
      SlotInRow(c, row, b);
      assert CountIs(c, z, row, b);
    }
  }
}
