// Programs that use a table: whatever calls they make, the table answers as the dictionary does.
module TableRuns {
  import opened Bits
  import opened Layout
  import opened Load
  import opened Rounds
  import opened SList
  import opened RTable
  import opened Dictionary

  ghost function TabOf(t: Table): Tab<RNode>
    reads t`chains, t`nodes, t.nodes
  {
    Tab(t.chains, t.Hashes())
  }

  // The table holds the entries of d, and nothing else.
  ghost predicate Holds(t: Table, d: map<nat, RNode>, key: RNode -> nat, hashOf: nat -> nat)
    reads t, t.heads, t.nodes
  {
    t.Valid() && Represents(TabOf(t), d, key, hashOf)
  }

  lemma TabHas(t: Table)
    requires t.Valid()
    ensures 0 < |t.heads| == |t.chains| && IsPow2(|t.heads|) && t.Hashes().Keys == t.nodes
    ensures forall x :: x in t.nodes ==> t.Hashes()[x] == x.hash
  {
  }

  // In terms of Tab, a node of the bucket of k that has key k is a match.
  lemma MatchIs(t: Table, k: nat, key: RNode -> nat, hashOf: nat -> nat)
    requires t.Valid()
    ensures forall y :: Matches(TabOf(t), y, k, key, hashOf) <==>
            y in t.nodes && t.SameBucket(y, hashOf(k)) && key(y) == k
  {
    TabHas(t);
  }

  // What makes up an insertion
  lemma InsertDoes(s: Tab<RNode>, x: RNode, ok: bool, s': Tab<RNode>, key: RNode -> nat, hashOf: nat -> nat)
    requires |s.chains| > 0
    requires ok <==> forall y :: y in s.hash ==> !Matches(s, y, key(x), key, hashOf)
    requires if ok then s'.chains == PushAt(s.chains, BucketOf(hashOf(key(x)), |s.chains|), x)
                        && s'.hash == s.hash[x := hashOf(key(x))]
             else s' == s
    ensures Does(s, Op.Insert(x), Flag(ok), s', key, hashOf)
  {
    hide Matches, PushAt, BucketOf;
  }

  method Insert(t: Table, x: RNode, key: RNode -> nat, hashOf: nat -> nat) returns (ok: bool)
    requires t.Valid() && x !in t.heads && (x in t.nodes ==> x.hash == hashOf(key(x)))
    modifies t`size, t`chains, t`nodes, t.heads, x
    ensures t.Valid() && t.nodes <= old(t.nodes) + {x}
    ensures Does(old(TabOf(t)), Op.Insert(x), Flag(ok), TabOf(t), key, hashOf)
  {
    hide Table.Valid, Table.Hashes, Table.SameBucket, Table.SoundBy, Matches, BucketOf, PushAt, Does;
    TabHas(t);
    MatchIs(t, key(x), key, hashOf);
    t.BucketHas(hashOf(key(x)));
    ghost var s := TabOf(t);
    ok := t.TryInsertNoExpand(x, hashOf(key(x)), (a: RNode, b: RNode) => key(a) == key(b));
    InsertDoes(s, x, ok, TabOf(t), key, hashOf);
  }

  // The answer that is an entry of the table, or none
  function Entry(p: RNode?): Answer<RNode> {
    if p == null then Nothing else Answer<RNode>.Node(p)
  }

  method Detach(t: Table, k: nat, key: RNode -> nat, hashOf: nat -> nat) returns (p: RNode?)
    requires t.Valid()
    modifies t`chains, t`nodes, t`detaches, t`unlinkedAt, t.heads, t.nodes
    ensures t.Valid() && t.nodes <= old(t.nodes)
    ensures Does(old(TabOf(t)), Op.Detach(k), Entry(p), TabOf(t), key, hashOf)
  {
    hide Table.Valid, Table.Hashes, Table.SameBucket, Matches, BucketOf, RemoveAt, FirstMatch;
    TabHas(t);
    MatchIs(t, k, key, hashOf);
    ghost var s, i := TabOf(t), 0;
    p, i := t.TryDetachNoShrink(hashOf(k), WithKey<RNode>(key, k));
    if p != null {
      var x: RNode := p;
      assert FirstMatch(s.chains, BucketOf(hashOf(k), |s.chains|), i, x, WithKey(key, k));
      assert TabOf(t) == Tab(RemoveAt(s.chains, BucketOf(hashOf(k), |s.chains|), i), s.hash - {x});
    }
  }

  method Find(t: Table, k: nat, key: RNode -> nat, hashOf: nat -> nat) returns (p: RNode?)
    requires t.Valid()
    ensures Does(TabOf(t), Op.Find(k), Entry(p), TabOf(t), key, hashOf)
  {
    hide Table.Valid, Table.Hashes, Table.SameBucket, Matches, BucketOf;
    TabHas(t);
    MatchIs(t, k, key, hashOf);
    p := t.Find(hashOf(k), WithKey<RNode>(key, k));
  }

  method Expand(t: Table, ghost key: RNode -> nat, ghost hashOf: nat -> nat)
    requires t.Valid()
    modifies t`heads, t`chains, t`syncs, t.heads, t.nodes
    ensures t.Valid() && fresh(t.heads) && t.nodes == old(t.nodes)
    ensures Does(old(TabOf(t)), Op.Expand, Nothing, TabOf(t), key, hashOf)
  {
    hide Table.Valid, Table.Hashes, ExpandChains, MaxSwitches;
    TabHas(t);
    t.ExpandBuckets2x();
  }

  method Shrink(t: Table, ghost key: RNode -> nat, ghost hashOf: nat -> nat)
    requires t.Valid()
    modifies t`heads, t`chains, t`syncs, t.heads, t.nodes
    ensures t.Valid() && (t.heads == old(t.heads) || fresh(t.heads)) && t.nodes == old(t.nodes)
    ensures Does(old(TabOf(t)), Op.Shrink, Nothing, TabOf(t), key, hashOf)
  {
    hide Table.Valid, Table.Hashes, ShrinkChains;
    TabHas(t);
    var done := t.ShrinkBuckets2x();
  }

  // A resize may follow an operation.
  ghost predicate MayResize(s: Tab<RNode>, s': Tab<RNode>, op: Op<RNode>, key: RNode -> nat, hashOf: nat -> nat) {
    s' == s || Does(s, op, Nothing, s', key, hashOf)
  }

  lemma ExpandDoes(s: Tab<RNode>, s': Tab<RNode>, key: RNode -> nat, hashOf: nat -> nat)
    ensures s.chains != [] && s'.hash == s.hash && s'.chains == ExpandChains(s.chains, s.hash, |s.chains|) ==>
              Does(s, Op.Expand, Nothing, s', key, hashOf)
  {
    hide ExpandChains;
  }

  method InsertAuto(t: Table, x: RNode, key: RNode -> nat, hashOf: nat -> nat) returns (ok: bool, ghost mid: Tab<RNode>)
    requires t.Valid() && x !in t.heads && (x in t.nodes ==> x.hash == hashOf(key(x)))
    modifies t`size, t`heads, t`chains, t`nodes, t`syncs, t.heads, t.nodes, x
    ensures t.Valid() && (t.heads == old(t.heads) || fresh(t.heads)) && t.nodes <= old(t.nodes) + {x}
    ensures Does(old(TabOf(t)), Op.Insert(x), Flag(ok), mid, key, hashOf)
            && MayResize(mid, TabOf(t), Op.Expand, key, hashOf)
  {
    hide Table.Valid, Table.Hashes, Table.SameBucket, Table.SoundBy, Table.Loaded, Matches, BucketOf, PushAt;
    hide ExpandChains, MaxSwitches, LoadStep, Does;
    TabHas(t);
    MatchIs(t, key(x), key, hashOf);
    t.BucketHas(hashOf(key(x)));
    ghost var s := TabOf(t);
    ok := t.TryInsert(x, hashOf(key(x)), (a: RNode, b: RNode) => key(a) == key(b));
    mid := if ok then Tab(PushAt(s.chains, BucketOf(hashOf(key(x)), |s.chains|), x), t.Hashes()) else s;
    InsertDoes(s, x, ok, mid, key, hashOf);
    ExpandDoes(mid, TabOf(t), key, hashOf);
  }

  method DetachAuto(t: Table, k: nat, key: RNode -> nat, hashOf: nat -> nat) returns (p: RNode?, ghost mid: Tab<RNode>)
    requires t.Valid()
    modifies t`heads, t`chains, t`nodes, t`syncs, t`detaches, t`unlinkedAt, t.heads, t.nodes
    ensures t.Valid() && (t.heads == old(t.heads) || fresh(t.heads)) && t.nodes <= old(t.nodes)
    ensures Does(old(TabOf(t)), Op.Detach(k), Entry(p), mid, key, hashOf)
            && MayResize(mid, TabOf(t), Op.Shrink, key, hashOf)
  {
    hide Table.Valid, Table.Hashes, Table.SameBucket, Table.Loaded, Matches, BucketOf, RemoveAt, FirstMatch;
    hide ShrinkChains, LoadStep;
    TabHas(t);
    MatchIs(t, k, key, hashOf);
    ghost var s, i := TabOf(t), 0;
    var synchronized;
    p, synchronized, i := t.TryDetachAutoShrink(hashOf(k), WithKey<RNode>(key, k));
    mid := if p == null then s else Tab(RemoveAt(s.chains, BucketOf(hashOf(k), |s.chains|), i), t.Hashes());
  }

  method Remove(t: Table, k: nat, key: RNode -> nat, hashOf: nat -> nat) returns (p: RNode?, ghost mid: Tab<RNode>)
    requires t.Valid()
    modifies t`heads, t`chains, t`nodes, t`syncs, t`detaches, t`unlinkedAt, t.heads, t.nodes
    ensures t.Valid() && (t.heads == old(t.heads) || fresh(t.heads)) && t.nodes <= old(t.nodes)
    ensures Does(old(TabOf(t)), Op.Detach(k), Entry(p), mid, key, hashOf)
            && MayResize(mid, TabOf(t), Op.Shrink, key, hashOf)
  {
    hide Table.Valid, Table.Hashes, Table.SameBucket, Table.Loaded, Matches, BucketOf, RemoveAt, FirstMatch;
    hide ShrinkChains, LoadStep;
    TabHas(t);
    MatchIs(t, k, key, hashOf);
    ghost var s, i := TabOf(t), 0;
    p, i := t.TryDetachAndSynchronize(hashOf(k), WithKey<RNode>(key, k));
    mid := if p == null then s else Tab(RemoveAt(s.chains, BucketOf(hashOf(k), |s.chains|), i), t.Hashes());
  }

  // ----- programs -----

  // A call of the interface; entries of one key are equivalent, and hash values come from keys.
  datatype Call =
    | TryInsert(x: RNode) | TryInsertNoExpand(x: RNode)
    | TryDetachNoShrink(k: nat) | TryDetachAutoShrink(k: nat) | TryDetachAndSynchronize(k: nat)
    | FindKey(k: nat) | Expand2x | Shrink2x

  // What the caller of the dictionary would have written
  function Meaning(c: Call): Op<RNode> {
    match c
    case TryInsert(x) => Op.Insert(x)
    case TryInsertNoExpand(x) => Op.Insert(x)
    case TryDetachNoShrink(k) => Op.Detach(k)
    case TryDetachAutoShrink(k) => Op.Detach(k)
    case TryDetachAndSynchronize(k) => Op.Detach(k)
    case FindKey(k) => Op.Find(k)
    case Expand2x => Op.Expand
    case Shrink2x => Op.Shrink
  }

  function Meanings(calls: seq<Call>): (ops: seq<Op<RNode>>)
    ensures |ops| == |calls| && forall i :: 0 <= i < |calls| ==> ops[i] == Meaning(calls[i])
  {
    seq(|calls|, i requires 0 <= i < |calls| => Meaning(calls[i]))
  }

  // The nodes that a program hands over
  function Handed(calls: seq<Call>): set<RNode> {
    set i | 0 <= i < |calls| && (calls[i].TryInsert? || calls[i].TryInsertNoExpand?) :: calls[i].x
  }

  lemma Stepped(s: Tab<RNode>, mid: Tab<RNode>, s': Tab<RNode>, op: Op<RNode>, resize: Op<RNode>, r: Answer<RNode>,
                d: map<nat, RNode>, key: RNode -> nat, hashOf: nat -> nat)
    requires Represents(s, d, key, hashOf) && Does(s, op, r, mid, key, hashOf)
    requires (resize.Expand? || resize.Shrink?) && MayResize(mid, s', resize, key, hashOf)
    ensures r == DictStep(d, op, key).1 && Represents(s', DictStep(d, op, key).0, key, hashOf)
  {
    hide Does, Represents;
    StepRefines(s, d, op, r, mid, key, hashOf);
    if s' != mid {
      StepRefines(mid, DictStep(d, op, key).0, resize, Nothing, s', key, hashOf);
    }
  }

  lemma HashesFollow(t: Table, d: map<nat, RNode>, key: RNode -> nat, hashOf: nat -> nat)
    requires Holds(t, d, key, hashOf)
    ensures forall x :: x in t.nodes ==> x.hash == hashOf(key(x))
  {
    TabHas(t);
  }

  // A new table is the empty dictionary.
  lemma EmptyHolds(t: Table, key: RNode -> nat, hashOf: nat -> nat)
    requires t.Valid() && t.nodes == {}
    ensures Holds(t, map[], key, hashOf)
  {
    TabHas(t);
  }

  // One call
  method Perform(t: Table, c: Call, key: RNode -> nat, hashOf: nat -> nat, ghost d: map<nat, RNode>)
    returns (r: Answer<RNode>)
    requires Holds(t, d, key, hashOf) && forall x :: x in Handed([c]) ==> x !in t.heads
    modifies t, t.heads, t.nodes, Handed([c])
    ensures (t.heads == old(t.heads) || fresh(t.heads)) && t.nodes <= old(t.nodes) + Handed([c])
    ensures r == DictStep(d, Meaning(c), key).1 && Holds(t, DictStep(d, Meaning(c), key).0, key, hashOf)
  {
    hide Table.Valid, TabOf, Does, Represents, MayResize;
    HashesFollow(t, d, key, hashOf);
    ghost var s := TabOf(t);
    ghost var mid := s;
    assert forall x :: (c == TryInsert(x) || c == TryInsertNoExpand(x)) ==> x in Handed([c]) by {
      assert [c][0] == c;
    }
    match c
    case TryInsert(x) =>
      var ok;
      ok, mid := InsertAuto(t, x, key, hashOf);
      r := Flag(ok);
      Stepped(s, mid, TabOf(t), Op.Insert(x), Op.Expand, r, d, key, hashOf);
    case TryInsertNoExpand(x) =>
      var ok := Insert(t, x, key, hashOf);
      r := Flag(ok);
      StepRefines(s, d, Meaning(c), r, TabOf(t), key, hashOf);
    case TryDetachNoShrink(k) =>
      var p := Detach(t, k, key, hashOf);
      r := Entry(p);
      StepRefines(s, d, Meaning(c), r, TabOf(t), key, hashOf);
    case TryDetachAutoShrink(k) =>
      var p;
      p, mid := DetachAuto(t, k, key, hashOf);
      r := Entry(p);
      Stepped(s, mid, TabOf(t), Op.Detach(k), Op.Shrink, r, d, key, hashOf);
    case TryDetachAndSynchronize(k) =>
      var p;
      p, mid := Remove(t, k, key, hashOf);
      r := Entry(p);
      Stepped(s, mid, TabOf(t), Op.Detach(k), Op.Shrink, r, d, key, hashOf);
    case FindKey(k) =>
      var p := Find(t, k, key, hashOf);
      r := Entry(p);
      StepRefines(s, d, Meaning(c), r, TabOf(t), key, hashOf);
    case Expand2x =>
      Expand(t, key, hashOf);
      r := Nothing;
      StepRefines(s, d, Meaning(c), r, TabOf(t), key, hashOf);
    case Shrink2x =>
      Shrink(t, key, hashOf);
      r := Nothing;
      StepRefines(s, d, Meaning(c), r, TabOf(t), key, hashOf);
  }

  // Any program of calls, on any table: its answers are those of the dictionary.
  method PerformAll(t: Table, calls: seq<Call>, key: RNode -> nat, hashOf: nat -> nat, ghost d: map<nat, RNode>)
    returns (rs: seq<Answer<RNode>>)
    requires Holds(t, d, key, hashOf) && forall x :: x in Handed(calls) ==> x !in t.heads
    modifies t, t.heads, t.nodes, Handed(calls)
    ensures rs == DictRun(d, Meanings(calls), key).1 && Holds(t, DictRun(d, Meanings(calls), key).0, key, hashOf)
  {
    hide Holds;
    rs := [];
    var i := 0;
    assert Meanings(calls)[..0] == [];
    while i < |calls|
      invariant 0 <= i <= |calls|
      invariant (t.heads == old(t.heads) || fresh(t.heads)) && t.nodes <= old(t.nodes) + Handed(calls)
      invariant rs == DictRun(d, Meanings(calls)[..i], key).1
      invariant Holds(t, DictRun(d, Meanings(calls)[..i], key).0, key, hashOf)
    {
      ghost var ops := Meanings(calls);
      assert ops[..i + 1][..i] == ops[..i];
      assert forall x :: x in Handed([calls[i]]) ==> x in Handed(calls);
      var r := Perform(t, calls[i], key, hashOf, DictRun(d, ops[..i], key).0);
      rs := rs + [r];
      i := i + 1;
    }
    assert Meanings(calls)[..|calls|] == Meanings(calls);
  }
}
