// What the threads of a zone can always do: lock and unlock at any time, whatever the writer is
// doing, and what exactly lets the writer take each of its steps.
module ZoneProgress {
  import opened EpochZone

  // A zone can be set up for any configuration.
  lemma InitExists(c: Config)
    requires ValidConfig(c)
    ensures exists z :: Init(c, z)
  {
    var z := Zone(0, 0, seq(2 * c.nb, i => 0), seq(|c.bucketOf|, i => Idle), Quiet);
    assert Init(c, z);
  }

  // ----- rcuReadLock -----

  predicate OwnStep(a: Action, t: Tid) {
    (a.Load? || a.Increment? || a.Validate? || a.Decrement? || a.Unlock?) && a.t == t
  }

  // The reverts among acts
  function Reverts(acts: seq<Action>): nat {
    if acts == [] then 0 else (if acts[0].Decrement? then 1 else 0) + Reverts(acts[1..])
  }

  // The steps thread t still takes until it has the lock, if the epoch stays as it is
  function LockSteps(z: Zone, t: Tid): nat
    requires t < |z.threads|
  {
    match z.threads[t]
    case Valid(_) => 0
    case Counted(e, _, _) => if e == z.latest then 1 else 5
    case Loaded(e, _, _) => if e == z.latest then 2 else 6
    case Idle => 3
    case Retry(_, _) => 3
    case Revert(_, _, _) => 4
  }

  lemma LockStep(c: Config, z: Zone, t: Tid) returns (a: Action, z': Zone)
    requires Sized(c, z) && t < |z.threads| && !z.threads[t].Valid?
    ensures Sized(c, z') && Step(c, z, a, z') && OwnStep(a, t) && (a.Decrement? <==> LockSteps(z, t) == 4)
    ensures z'.threads == z.threads[t := z'.threads[t]] && LockSteps(z', t) == LockSteps(z, t) - 1
    ensures z'.latest == z.latest && z'.oldest == z.oldest && z'.w == z.w
    ensures z'.threads[t].Valid? ==> z'.threads[t].e == z.latest
  {
    match z.threads[t]
    case Idle =>
      a, z' := Load(t), z.(threads := z.threads[t := Loaded(z.latest, z.latest, 0)]);
    case Retry(s, n) =>
      a, z' := Load(t), z.(threads := z.threads[t := Loaded(z.latest, s, n)]);
    case Loaded(e, s, n) =>
      var k := SlotOf(c, t, e);
      a, z' := Increment(t), z.(threads := z.threads[t := Counted(e, s, n)], count := z.count[k := z.count[k] + 1]);
    case Counted(e, s, n) =>
      a, z' := Validate(t), z.(threads := z.threads[t := if z.latest == e then Valid(e) else Revert(e, s, n)]);
    case Revert(e, s, n) =>
      var k := SlotOf(c, t, e);
      a, z' := Decrement(t), z.(threads := z.threads[t := Retry(s, n + 1)], count := z.count[k := z.count[k] - 1]);
  }

  // Wherever thread t stands and whatever the writer is doing, t acquires the lock in the latest
  // epoch by at most six steps of its own, with at most one revert, while nobody else moves.
  lemma {:induction false} LockSucceeds(c: Config, z: Zone, t: Tid) returns (zs: seq<Zone>, acts: seq<Action>)
    requires Sized(c, z) && t < |z.threads| && !z.threads[t].Valid?
    ensures Run(c, zs, acts) && zs[0] == z && |acts| <= 6 && (z.threads[t] == Idle ==> |acts| == 3)
    ensures forall k :: 0 <= k < |acts| ==> OwnStep(acts[k], t)
    ensures Reverts(acts) <= 1 && (z.threads[t] == Idle ==> Reverts(acts) == 0)
    ensures var z' := zs[|acts|];
            && z'.threads == z.threads[t := Valid(z.latest)]
            && z'.latest == z.latest && z'.oldest == z.oldest && z'.w == z.w
  {
    zs, acts := LockRun(c, z, t);
  }

  lemma {:induction false} LockRun(c: Config, z: Zone, t: Tid) returns (zs: seq<Zone>, acts: seq<Action>)
    requires Sized(c, z) && t < |z.threads| && !z.threads[t].Valid?
    ensures Run(c, zs, acts) && zs[0] == z && |acts| == LockSteps(z, t)
    ensures forall k :: 0 <= k < |acts| ==> OwnStep(acts[k], t)
    ensures Reverts(acts) == if LockSteps(z, t) >= 4 then 1 else 0
    ensures var z' := zs[|acts|];
            && z'.threads == z.threads[t := Valid(z.latest)]
            && z'.latest == z.latest && z'.oldest == z.oldest && z'.w == z.w
    decreases LockSteps(z, t)
  {
    var a, z1 := LockStep(c, z, t);
    hide Step, Sized;
    if z1.threads[t].Valid? {
      zs, acts := [z, z1], [a];
      assert StepAt(c, zs, acts, 0);
    } else {
      var rest, more := LockRun(c, z1, t);
      zs, acts := [z] + rest, [a] + more;
      forall k {:trigger StepAt(c, zs, acts, k)} | 0 <= k < |acts| ensures StepAt(c, zs, acts, k) {
        if k > 0 { assert StepAt(c, rest, more, k - 1); }
      }
    }
  }

  // rcuReadUnlock never waits either, and gives back the one reference.
  lemma UnlockSucceeds(c: Config, z: Zone, t: Tid)
    requires Sized(c, z) && t < |z.threads| && z.threads[t].Valid?
    ensures var k := SlotOf(c, t, z.threads[t].e);
            exists z' :: Step(c, z, Unlock(t), z') && z'.threads == z.threads[t := Idle]
                         && z'.count == z.count[k := z.count[k] - 1]
  {
    var k := SlotOf(c, t, z.threads[t].e);
    assert Step(c, z, Unlock(t), z.(threads := z.threads[t := Idle], count := z.count[k := z.count[k] - 1]));
  }

  // ----- rcuSynchronize -----

  // When exactly the writer can take each of its steps: it begins whenever it is not at work
  // already, passes a bucket exactly when no thread holds a reference in it on the draining row,
  // goes to the next row behind the last bucket, and returns behind the last row.
  lemma WriterMoves(c: Config, z: Zone)
    requires Inv(c, z)
    ensures (exists z' :: Step(c, z, Advance, z')) <==> z.w == Quiet
    ensures (exists z' :: Step(c, z, PassBucket, z'))
            <==> z.w.Scan? && z.oldest <= z.w.last && z.w.i < c.nb
                 && forall t :: 0 <= t < |z.threads| && c.bucketOf[t] == z.w.i ==> !Holds(z.threads[t], z.oldest % 2)
    ensures (exists z' :: Step(c, z, NextRow, z')) <==> z.w.Scan? && z.oldest <= z.w.last && z.w.i == c.nb
    ensures (exists z' :: Step(c, z, Return, z')) <==> z.w.Scan? && z.oldest > z.w.last
  {
    assert z.w == Quiet ==> Step(c, z, Advance, z.(latest := z.latest + 1, w := Scan(z.latest, 0)));
    if z.w.Scan? {
      assert z.oldest > z.w.last ==> Step(c, z, Return, z.(w := Quiet));
      assert z.oldest <= z.w.last && z.w.i == c.nb ==>
               Step(c, z, NextRow, z.(oldest := z.oldest + 1, w := Scan(z.w.last, 0)));
      if z.oldest <= z.w.last && z.w.i < c.nb {
        PassMoves(c, z);
      }
    }
  }

  lemma PassMoves(c: Config, z: Zone)
    requires Inv(c, z) && z.w.Scan? && z.oldest <= z.w.last && z.w.i < c.nb
    ensures (exists z' :: Step(c, z, PassBucket, z'))
            <==> forall t :: 0 <= t < |z.threads| && c.bucketOf[t] == z.w.i ==> !Holds(z.threads[t], z.oldest % 2)
  {
    var row := z.oldest % 2;
    SlotInRow(c, row, z.w.i);
    assert CountIs(c, z, row, z.w.i);
    if forall t :: 0 <= t < |z.threads| && c.bucketOf[t] == z.w.i ==> !Holds(z.threads[t], row) {
      HoldersZero(c, z.threads, row, z.w.i);
      assert Step(c, z, PassBucket, z.(w := Scan(z.w.last, z.w.i + 1)));
    } else {
      var t :| 0 <= t < |z.threads| && c.bucketOf[t] == z.w.i && Holds(z.threads[t], row);
      HoldersAtLeast(c, z.threads, t, row, z.w.i);
    }
  }
}
