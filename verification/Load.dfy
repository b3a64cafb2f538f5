// The load of the table: how the count of insertions and the number of buckets move along.
module Load {
  import opened Bits

  // size does not exceed the expansion threshold, and the thresholds are far enough apart.
  ghost predicate WithinLoad(size: nat, n: nat, expandFactor: real, shrinkFactor: real) {
    2.0 * shrinkFactor <= expandFactor && expandFactor * n as real >= 1.0 && size as real <= expandFactor * n as real
  }

  // An insertion leaves the threshold respected, doubling the buckets when it must.
  lemma LoadAfterInsert(size: nat, n: nat, n': nat, expandFactor: real, shrinkFactor: real)
    requires WithinLoad(size, n, expandFactor, shrinkFactor)
    requires n' == if (size + 1) as real > expandFactor * n as real then 2 * n else n
    ensures WithinLoad(size + 1, n', expandFactor, shrinkFactor) && (size + 1) as real <= expandFactor * n' as real
  {
    assert expandFactor * (2 * n) as real == 2.0 * (expandFactor * n as real);
  }

  // A shrink never leaves the table above the threshold it is expanded at.
  lemma LoadAfterShrink(size: nat, n: nat, n': nat, expandFactor: real, shrinkFactor: real)
    requires WithinLoad(size, n, expandFactor, shrinkFactor) && n == 2 * n'
    requires size as real < shrinkFactor * n as real && size > 128
    ensures WithinLoad(size, n', expandFactor, shrinkFactor) && size as real <= expandFactor * n' as real
  {
    assert shrinkFactor * n as real == (2.0 * shrinkFactor) * n' as real;
    assert (2.0 * shrinkFactor) * n' as real <= expandFactor * n' as real;
  }

  // ----- runs -----

  datatype LoadOp = Insertion | Detachment

  // size and bucket count after a successful insertion or detach, with the resize it may cause.
  function LoadStep(size: nat, n: nat, op: LoadOp, expandFactor: real, shrinkFactor: real): (nat, nat) {
    match op
    case Insertion => (size + 1, if (size + 1) as real > expandFactor * n as real then 2 * n else n)
    case Detachment => (size, if size as real < shrinkFactor * n as real && size > 128 && n > 1 then n / 2 else n)
  }

  function LoadRun(size: nat, n: nat, ops: seq<LoadOp>, expandFactor: real, shrinkFactor: real): (nat, nat)
    decreases |ops|
  {
    if ops == [] then (size, n)
    else
      var (s, m) := LoadStep(size, n, ops[0], expandFactor, shrinkFactor);
      LoadRun(s, m, ops[1..], expandFactor, shrinkFactor)
  }

  // The insertions of a run minus its detaches: what is linked, if the table began empty.
  function Net(ops: seq<LoadOp>): int {
    if ops == [] then 0 else (if ops[0].Insertion? then 1 else -1) + Net(ops[1..])
  }

  function Detachments(ops: seq<LoadOp>): nat {
    if ops == [] then 0 else (if ops[0].Insertion? then 0 else 1) + Detachments(ops[1..])
  }

  // In a run from a table whose size is its number of linked nodes, size ends up above that number
  // by exactly the detaches of the run: they agree if and only if nothing was detached.
  lemma {:induction false} LoadExact(size: nat, n: nat, ops: seq<LoadOp>, expandFactor: real, shrinkFactor: real)
    ensures var (s, m) := LoadRun(size, n, ops, expandFactor, shrinkFactor);
            s == size + Net(ops) + Detachments(ops) && (s == size + Net(ops) <==> Detachment !in ops)
    decreases |ops|
  {
    if ops != [] {
      var (s, m) := LoadStep(size, n, ops[0], expandFactor, shrinkFactor);
      LoadExact(s, m, ops[1..], expandFactor, shrinkFactor);
      assert ops == [ops[0]] + ops[1..];
    }
  }

  lemma {:induction false} LoadKept(size: nat, n: nat, linked: nat, ops: seq<LoadOp>, expandFactor: real,
                                    shrinkFactor: real)
    requires IsPow2(n) && linked <= size && WithinLoad(size, n, expandFactor, shrinkFactor)
    ensures var (s, m) := LoadRun(size, n, ops, expandFactor, shrinkFactor);
            IsPow2(m) && linked + Net(ops) <= s && WithinLoad(s, m, expandFactor, shrinkFactor)
    decreases |ops|
  {
    if ops != [] {
      var (s, m) := LoadStep(size, n, ops[0], expandFactor, shrinkFactor);
      if ops[0].Insertion? {
        LoadAfterInsert(size, n, m, expandFactor, shrinkFactor);
        assert (2 * n) / 2 == n;
        LoadKept(s, m, linked + 1, ops[1..], expandFactor, shrinkFactor);
      } else {
        if m != n {
          LoadAfterShrink(size, n, m, expandFactor, shrinkFactor);
        }
        LoadKept(s, m, if linked > 0 then linked - 1 else 0, ops[1..], expandFactor, shrinkFactor);
      }
    }
  }

  // Every run keeps linked nodes <= size <= expandFactor * buckets, and a power-of-two count of
  // buckets.
  lemma LoadAlways(size: nat, n: nat, linked: nat, ops: seq<LoadOp>, expandFactor: real, shrinkFactor: real)
    requires IsPow2(n) && linked <= size && size as real <= expandFactor * n as real
    requires 2.0 * shrinkFactor <= expandFactor && expandFactor * n as real >= 1.0
    ensures var (s, m) := LoadRun(size, n, ops, expandFactor, shrinkFactor);
            IsPow2(m) && linked + Net(ops) <= s && s as real <= expandFactor * m as real
  {
    LoadKept(size, n, linked, ops, expandFactor, shrinkFactor);
  }
}
