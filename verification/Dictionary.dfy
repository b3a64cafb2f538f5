// The table as a dictionary: whatever operations are run on it, and however it is resized in
// between, its answers are those of a plain map from keys to nodes.
module Dictionary {
  import opened Bits
  import opened Chains
  import opened Layout

  // The chains of the table and the hash values of the linked nodes.
  datatype Tab<T> = Tab(chains: seq<seq<T>>, hash: map<T, nat>)

  datatype Op<T> = Insert(x: T) | Detach(k: nat) | Find(k: nat) | Expand | Shrink

  datatype Answer<T> = Flag(ok: bool) | Node(x: T) | Nothing

  // The predicate that a caller passes to find key k
  function WithKey<T>(key: T -> nat, k: nat): T -> bool {
    y => key(y) == k
  }

  // Node y is in the bucket of key k and has that key.
  ghost predicate Matches<T>(s: Tab<T>, y: T, k: nat, key: T -> nat, hashOf: nat -> nat) {
    y in s.hash && |s.chains| > 0 && BucketOf(s.hash[y], |s.chains|) == BucketOf(hashOf(k), |s.chains|) && key(y) == k
  }

  // What the table does, in the words of the contracts of RTable.Table, when a node is
  // equivalent to another exactly if it has the same key, and hashes are computed from keys.
  ghost predicate Does<T>(s: Tab<T>, op: Op<T>, r: Answer<T>, s': Tab<T>, key: T -> nat, hashOf: nat -> nat) {
    && |s.chains| > 0
    && var n := |s.chains|;
    && match op
       case Insert(x) =>
         if exists y :: y in s.hash && Matches(s, y, key(x), key, hashOf)
         then r == Flag(false) && s' == s
         else
           && r == Flag(true)
           && s' == Tab(PushAt(s.chains, BucketOf(hashOf(key(x)), n), x), s.hash[x := hashOf(key(x))])
       case Detach(k) =>
         if exists y :: y in s.hash && Matches(s, y, k, key, hashOf)
         then
           && r.Node?
           && exists i :: FirstMatch(s.chains, BucketOf(hashOf(k), n), i, r.x, WithKey(key, k))
                          && s' == Tab(RemoveAt(s.chains, BucketOf(hashOf(k), n), i), s.hash - {r.x})
         else r == Nothing && s' == s
       case Find(k) =>
         && s' == s
         && (if exists y :: y in s.hash && Matches(s, y, k, key, hashOf)
             then r.Node? && Matches(s, r.x, k, key, hashOf)
             else r == Nothing)
       case Expand => r == Nothing && s' == s.(chains := ExpandChains(s.chains, s.hash, n))
       case Shrink =>
         r == Nothing && s' == if n > 1 && n % 2 == 0 then s.(chains := ShrinkChains(s.chains, n / 2)) else s
  }

  // What a plain dictionary does.
  function DictStep<T>(d: map<nat, T>, op: Op<T>, key: T -> nat): (map<nat, T>, Answer<T>) {
    match op
    case Insert(x) => if key(x) in d then (d, Flag(false)) else (d[key(x) := x], Flag(true))
    case Detach(k) => if k in d then (d - {k}, Node(d[k])) else (d, Nothing)
    case Find(k) => if k in d then (d, Node(d[k])) else (d, Nothing)
    case Expand => (d, Nothing)
    case Shrink => (d, Nothing)
  }

  // The linked nodes are the values of d, each under its key, and each in its bucket.
  ghost predicate Represents<T>(s: Tab<T>, d: map<nat, T>, key: T -> nat, hashOf: nat -> nat) {
    && Placed(s.chains, s.hash, |s.chains|)
    && (forall x :: x in s.hash ==> s.hash[x] == hashOf(key(x)) && key(x) in d && d[key(x)] == x)
    && (forall k :: k in d ==> d[k] in s.hash && key(d[k]) == k)
  }

  lemma MatchIsEntry<T>(s: Tab<T>, d: map<nat, T>, k: nat, key: T -> nat, hashOf: nat -> nat)
    requires Represents(s, d, key, hashOf)
    ensures (exists y :: y in s.hash && Matches(s, y, k, key, hashOf)) <==> k in d
    ensures forall y :: Matches(s, y, k, key, hashOf) ==> k in d && y == d[k]
  {
    if k in d {
      assert Matches(s, d[k], k, key, hashOf);
    }
  }

  lemma InsertRefines<T>(s: Tab<T>, d: map<nat, T>, x: T, r: Answer<T>, s': Tab<T>, key: T -> nat, hashOf: nat -> nat)
    requires Represents(s, d, key, hashOf) && Does(s, Insert(x), r, s', key, hashOf)
    ensures r == DictStep(d, Insert(x), key).1 && Represents(s', DictStep(d, Insert(x), key).0, key, hashOf)
  {
    MatchIsEntry(s, d, key(x), key, hashOf);
    if key(x) !in d {
      PlacedAfterInsert(s.chains, s.hash, |s.chains|, x, hashOf(key(x)));
    }
  }

  // The first match of the bucket of k is the entry of k.
  lemma FirstIsEntry<T>(s: Tab<T>, d: map<nat, T>, k: nat, i: nat, x: T, key: T -> nat, hashOf: nat -> nat)
    requires Represents(s, d, key, hashOf) && |s.chains| > 0
    requires FirstMatch(s.chains, BucketOf(hashOf(k), |s.chains|), i, x, WithKey(key, k))
    ensures k in d && x == d[k] && x in s.hash
    ensures var b := BucketOf(hashOf(k), |s.chains|); b < |s.chains| && i < |s.chains[b]| && s.chains[b][i] == x
  {
    var b := BucketOf(hashOf(k), |s.chains|);
    assert InBucket(s.chains[b], s.hash, |s.chains|, b) && x in s.chains[b];
  }

  // Taking the entry of k out of its chain takes k out of the dictionary.
  lemma WithoutEntry<T>(s: Tab<T>, d: map<nat, T>, k: nat, b: nat, i: nat, key: T -> nat, hashOf: nat -> nat)
    requires Represents(s, d, key, hashOf) && k in d && b < |s.chains| && i < |s.chains[b]| && s.chains[b][i] == d[k]
    ensures Represents(Tab(RemoveAt(s.chains, b, i), s.hash - {d[k]}), d - {k}, key, hashOf)
  {
    hide Placed, RemoveAt;
    PlacedAfterRemove(s.chains, s.hash, |s.chains|, b, i);
  }

  lemma DetachRefines<T>(s: Tab<T>, d: map<nat, T>, k: nat, r: Answer<T>, s': Tab<T>, key: T -> nat, hashOf: nat -> nat)
    requires Represents(s, d, key, hashOf) && Does(s, Detach(k), r, s', key, hashOf)
    ensures r == DictStep(d, Detach(k), key).1 && Represents(s', DictStep(d, Detach(k), key).0, key, hashOf)
  {
    hide Represents, FirstMatch, RemoveAt;
    MatchIsEntry(s, d, k, key, hashOf);
    if k in d {
      var b := BucketOf(hashOf(k), |s.chains|);
      var i: nat :| FirstMatch(s.chains, b, i, r.x, WithKey(key, k))
        && s' == Tab(RemoveAt(s.chains, b, i), s.hash - {r.x});
      FirstIsEntry(s, d, k, i, r.x, key, hashOf);
      WithoutEntry(s, d, k, b, i, key, hashOf);
    }
  }

  // One operation on the table is that operation on the dictionary, with the same answer.
  lemma StepRefines<T>(s: Tab<T>, d: map<nat, T>, op: Op<T>, r: Answer<T>, s': Tab<T>, key: T -> nat,
                       hashOf: nat -> nat)
    requires Represents(s, d, key, hashOf) && Does(s, op, r, s', key, hashOf)
    ensures r == DictStep(d, op, key).1 && Represents(s', DictStep(d, op, key).0, key, hashOf)
  {
    match op
    case Insert(x) => InsertRefines(s, d, x, r, s', key, hashOf);
    case Detach(k) => DetachRefines(s, d, k, r, s', key, hashOf);
    case Find(k) => MatchIsEntry(s, d, k, key, hashOf);
    case Expand => ExpandPlaces(s.chains, s.hash, |s.chains|);
    case Shrink =>
      if s' != s {
        ShrinkPlaces(s.chains, s.hash, |s.chains| / 2);
      }
  }

  // A run of the table: operation k takes ss[k] to ss[k + 1] and answers rs[k].
  ghost predicate Runs<T>(ss: seq<Tab<T>>, ops: seq<Op<T>>, rs: seq<Answer<T>>, key: T -> nat, hashOf: nat -> nat) {
    && |ss| == |ops| + 1 && |rs| == |ops|
    && forall k :: 0 <= k < |ops| ==> Does(ss[k], ops[k], rs[k], ss[k + 1], key, hashOf)
  }

  function DictRun<T>(d: map<nat, T>, ops: seq<Op<T>>, key: T -> nat): (map<nat, T>, seq<Answer<T>>)
    decreases |ops|
  {
    if ops == [] then (d, [])
    else
      var n := |ops| - 1;
      var (e, rs) := DictRun(d, ops[..n], key);
      var (f, r) := DictStep(e, ops[n], key);
      (f, rs + [r])
  }

  // Every run, of any operations with any resizes among them, gives the answers of the dictionary.
  lemma {:induction false} RunRefines<T>(ss: seq<Tab<T>>, ops: seq<Op<T>>, rs: seq<Answer<T>>, d: map<nat, T>,
                                         key: T -> nat, hashOf: nat -> nat)
    requires Runs(ss, ops, rs, key, hashOf) && Represents(ss[0], d, key, hashOf)
    ensures rs == DictRun(d, ops, key).1 && Represents(ss[|ops|], DictRun(d, ops, key).0, key, hashOf)
    decreases |ops|
  {
    if ops != [] {
      var n := |ops| - 1;
      RunRefines(ss[..n + 1], ops[..n], rs[..n], d, key, hashOf);
      StepRefines(ss[n], DictRun(d, ops[..n], key).0, ops[n], rs[n], ss[n + 1], key, hashOf);
      assert rs == rs[..n] + [rs[n]];
    }
  }
}
