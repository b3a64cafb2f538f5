// The table: insert, find and detach, and the two resize operations.
module RTable {
  import opened Bits
  import opened Chains
  import opened Layout
  import opened Load
  import opened PowerOfTwo
  import opened Rounds
  import opened SList
  import opened Resize
  import opened Buckets

  // Bucket (hd, cd) has no object of bucket (hb, cb).
  ghost predicate Aside(hb: RNode, cb: seq<RNode>, hd: RNode, cd: seq<RNode>) {
    hb != hd && hb !in cd && hd !in cb && forall i {:trigger cd[i]} :: 0 <= i < |cd| ==> cd[i] !in cb && cd[i] != hb
  }

  lemma EmptyLists(heads: seq<RNode>)
    requires forall x :: x in heads ==> x.next == null
    ensures |EmptyChains<RNode>(|heads|)| == |heads|
    ensures forall b :: 0 <= b < |heads| ==>
              EmptyChains<RNode>(|heads|)[b] == [] && List(heads[b], EmptyChains(|heads|)[b])
  {
  }

  class Table {
    var heads: seq<RNode>      // the published BucketsInfo
    var size: nat              // counts successful insertions
    var expandFactor: real
    var shrinkFactor: real
    ghost var chains: seq<seq<RNode>>
    ghost var nodes: set<RNode>
    ghost var syncs: nat       // completed calls to rcuSynchronize
    ghost var detaches: nat    // successful detaches
    ghost var unlinkedAt: map<RNode, nat>   // the value of syncs when a node was last unlinked

    // chains are the lists behind the heads, and each holds exactly the nodes that hash to it.
    // A detach leaves size as it is, so size counts the linked nodes and the detached ones.
    ghost predicate Valid()
      reads `heads, `chains, `nodes, `size, `detaches, heads, nodes
    {
      && size == |nodes| + detaches
      && Placed(chains, Hashes(), |heads|)
      && Distinct(heads) && (forall x :: x in heads ==> x !in nodes)
      && (forall b, i :: 0 <= b < |heads| && 0 <= i < |chains[b]| ==> chains[b][i] in nodes)
      && (forall b :: 0 <= b < |heads| ==> List(heads[b], chains[b]))
    }

    ghost function Hashes(): map<RNode, nat>
      reads `nodes, nodes
    {
      map x | x in nodes :: x.hash
    }

    // rTableCoreInitDetailed
    constructor (nrBuckets: nat, expandFactor: real, shrinkFactor: real)
      requires nrBuckets <= TOP
      ensures Valid() && nodes == {} && size == 0 && syncs == 0 && detaches == 0 && unlinkedAt == map[] && fresh(heads)
      ensures var v, n := nrBuckets, |heads|; IsPow2(n) && n >= v && (n == 1 || n < 2 * v)
      ensures this.expandFactor == expandFactor && this.shrinkFactor == shrinkFactor
    {
      hide Placed, IsPow2, List, Distinct, EmptyChains;
      var count := UpperBoundPowerOf2(nrBuckets);
      PlacedEmpty<RNode>(count);
      var buckets := AllocateBuckets(count);
      EmptyLists(buckets);
      heads, size, chains, nodes := buckets, 0, EmptyChains(count), {};
      syncs, detaches, unlinkedAt := 0, 0, map[];
      this.expandFactor, this.shrinkFactor := expandFactor, shrinkFactor;
      new;
      assert Hashes() == map[];
    }

    // rcuSynchronize, as far as the table is concerned
    method Synchronize()
      modifies this`syncs
      ensures syncs == old(syncs) + 1
    {
      syncs := syncs + 1;
    }

    // unzip
    method Unzip(src: seq<RNode>, n: nat, ghost dst: seq<RNode>, ghost cs: seq<seq<RNode>>, ghost h: map<RNode, nat>)
      returns (ghost cuts: seq<nat>)
      requires n > 0 && Apart(src, dst, cs, n)
      requires forall b :: 0 <= b < n ==> PairOk(src, dst, cs, FirstCuts(cs, h, n), h, n, b)
      modifies this`syncs, src, Nodes(cs)
      ensures syncs == old(syncs) + MaxSwitches(cs, h, 2 * n)
      ensures |cuts| == n && forall b :: 0 <= b < n ==> cuts[b] == |cs[b]| && PairOk(src, dst, cs, cuts, h, n, b)
      ensures forall x :: x in Nodes(cs) ==> x.hash == old(x.hash)
    {
      hide Separate, PairAt;
      ghost var rounds := 0;
      cuts := FirstCuts(cs, h, n);
      TrackStart(src, dst, cs, h, n);
      while true
        invariant OnTrack(cs, cuts, h, n, rounds) && forall b :: 0 <= b < n ==> PairOk(src, dst, cs, cuts, h, n, b)
        invariant rounds <= MaxSwitches(cs, h, 2 * n) && syncs == old(syncs) + rounds
        invariant forall x :: x in Nodes(cs) ==> x.hash == old(x.hash)
        decreases MaxSwitches(cs, h, 2 * n) - rounds
      {
        TrackEnd(cs, cuts, h, n, rounds);
        ghost var before := cuts;
        var allFinished;
        allFinished, cuts := UnzipRound(src, n, dst, cs, cuts, h);
        if allFinished {
          assert cuts == before;
          break;
        }
        TrackRound(cs, before, h, n, rounds, cuts);
        Synchronize();
        rounds := rounds + 1;
      }
    }

    // What a resize starts from
    lemma ResizeStart(dst: seq<RNode>)
      requires Valid() && Distinct(dst) && forall x :: x in dst ==> x !in heads && x !in nodes
      ensures 0 < |heads| == |chains| && Separate(heads, dst, chains) && Nodes(chains) == nodes
    {
      var h, n := Hashes(), |heads|;
      forall b, x | 0 <= b < n && x in chains[b] ensures x in nodes {
        assert InBucket(chains[b], h, n, b);
      }
      forall b, d, x | 0 <= b < d < n && x in chains[b] ensures x !in chains[d] {
        ChainsDisjoint(chains, h, n, b, d, x);
      }
      forall x | x in nodes ensures x in Nodes(chains) {
        assert Home(chains, h, n, x);
      }
    }

    lemma ExpandStart()
      requires Valid()
      ensures forall b :: 0 <= b < |heads| ==> UnsplitOk(heads, chains, Hashes(), |heads|, b)
    {
      forall b | 0 <= b < |heads| ensures UnsplitOk(heads, chains, Hashes(), |heads|, b) {
        assert List(heads[b], chains[b]);
        PlacedTwoWay(chains, Hashes(), |heads|, b);
      }
    }

    // expandBucketsByFac2ReturnOld, from the first store into the new buckets on
    method Expand(src: seq<RNode>, dst: seq<RNode>, n: nat, ghost cs: seq<seq<RNode>>, ghost h: map<RNode, nat>)
      requires n > 0 && Apart(src, dst, cs, n)
      requires forall b :: 0 <= b < n ==> UnsplitOk(src, cs, h, n, b)
      modifies this`heads, this`syncs, src, dst, Nodes(cs)
      ensures heads == dst && forall i :: 0 <= i < 2 * n ==> List(dst[i], ExpandChains(cs, h, n)[i])
      ensures forall x :: x in Nodes(cs) ==> x.hash == old(x.hash)
      ensures syncs == old(syncs) + 1 + MaxSwitches(cs, h, 2 * n)
    {
      hide Separate, UnsplitOk, SharedOk, PairOk;
      assert forall x :: x in Nodes(cs) ==> x !in src && x !in dst by {
        NodesNotHeads(src, dst, cs);
      }
      InitTwins(src, dst, n, cs, h);
      heads := dst;
      Synchronize();
      var noNeedToUnzip := FindFirstUnzipStarts(src, n, dst, cs, h);
      ghost var cuts := FirstCuts(cs, h, n);
      TrackStart(src, dst, cs, h, n);
      TrackEnd(cs, cuts, h, n, 0);
      if !noNeedToUnzip {
        cuts := Unzip(src, n, dst, cs, h);
      }
      ExpandedLists(src, dst, cs, cuts, h, n);
    }

    // rTableCoreExpandBuckets2x
    method ExpandBuckets2x()
      requires Valid()
      modifies this`heads, this`chains, this`syncs, heads, nodes
      ensures Valid() && |heads| == 2 * old(|heads|) && fresh(heads)
      ensures Hashes() == old(Hashes())
      ensures chains == ExpandChains(old(chains), old(Hashes()), old(|heads|))
      ensures syncs == old(syncs) + 1 + MaxSwitches(old(chains), old(Hashes()), 2 * old(|heads|))
    {
      hide Separate, UnsplitOk, List, Distinct, Nodes, MaxSwitches, Placed, ExpandChains;
      var n := |heads|;
      ghost var cs, h := chains, Hashes();
      var dst := AllocateBuckets(2 * n);
      ResizeStart(dst);
      ExpandStart();
      Expand(heads, dst, n, cs, h);
      ExpandPlaces(cs, h, n);
      chains := ExpandChains(cs, h, n);
      assert forall x :: x in nodes ==> x.hash == old(x.hash);
      assert Hashes() == h;
      PlacedIn(chains, h, 2 * n);
    }

    // size is the number of linked nodes exactly as long as nothing has been detached.
    lemma SizeIsLinkedIff()
      requires Valid()
      ensures size == |nodes| + detaches
      ensures size == |nodes| <==> detaches == 0
    {
    }

    lemma ValidSizes()
      requires Valid()
      ensures 0 < |heads| == |chains| && forall x :: x in nodes ==> x !in heads
    {
    }

    lemma ShrinkStart(n: nat)
      requires Valid() && n == |heads| / 2
      ensures |heads| == if n == 0 then 1 else 2 * n
      ensures n > 0 ==> |chains| == 2 * n && forall b :: 0 <= b < n ==> TwoLists(heads, chains, n, b)
    {
    }

    // shrinkBucketsByFac2ReturnOld and rTableCoreShrinkBuckets2x
    method ShrinkBuckets2x() returns (done: bool)
      requires Valid()
      modifies this`heads, this`chains, this`syncs, heads, nodes
      ensures Valid() && Hashes() == old(Hashes())
      ensures done <==> old(|heads|) > 1
      ensures done ==> 2 * |heads| == old(|heads|) && fresh(heads) && syncs == old(syncs) + 1
      ensures done ==> chains == ShrinkChains(old(chains), |heads|)
      ensures !done ==> heads == old(heads) && chains == old(chains) && syncs == old(syncs)
    {
      hide Separate, TwoLists, List, Distinct, Nodes, ShrinkChains, Placed, Valid, Hashes;
      ValidParts();
      HashesSay();
      var nrBucketsNew := |heads| / 2;
      ShrinkStart(nrBucketsNew);
      if nrBucketsNew == 0 {
        return false;
      }
      ghost var n, cs, h := nrBucketsNew, chains, Hashes();
      var dst := AllocateBuckets(nrBucketsNew);
      ResizeStart(dst);
      JoinBuckets(heads, dst, nrBucketsNew, cs);
      heads := dst;
      Synchronize();
      ShrinkPlaces(cs, h, n);
      forall b | 0 <= b < n ensures List(dst[b], ShrinkChains(cs, n)[b]) {
        assert OneList(dst, cs, n, b);
        ShrunkAt(cs, n, b);
      }
      chains := ShrinkChains(cs, n);
      assert forall x :: x in nodes ==> x.hash == old(x.hash);
      HashesAre(h);
      PartsAreValid();
      done := true;
    }

    // ----- one bucket -----

    // x is in the bucket that hash value hashVal selects.
    ghost predicate SameBucket(x: RNode, hashVal: nat)
      reads `heads, x
    {
      heads != [] && BucketOf(x.hash, |heads|) == BucketOf(hashVal, |heads|)
    }

    lemma BucketHas(hashVal: nat)
      requires Valid()
      ensures heads != [] && BucketOf(hashVal, |heads|) < |heads| == |chains|
      ensures forall x :: x in chains[BucketOf(hashVal, |heads|)] <==> x in nodes && SameBucket(x, hashVal)
      ensures forall x :: x in nodes && x.hash == hashVal ==> SameBucket(x, hashVal)
      ensures forall x :: x in chains[BucketOf(hashVal, |heads|)] ==> x !in heads
      ensures List(heads[BucketOf(hashVal, |heads|)], chains[BucketOf(hashVal, |heads|)])
    {
      BucketInRange(hashVal, |heads|);
      var b := BucketOf(hashVal, |heads|);
      assert InBucket(chains[b], Hashes(), |heads|, b);
      forall x | x in nodes && SameBucket(x, hashVal) ensures x in chains[b] {
        assert Home(chains, Hashes(), |heads|, x);
      }
    }

    // p is what a lookup for hashVal returns: the first match of the bucket, or null if none.
    ghost predicate Finds(hashVal: nat, predict: RNode -> bool, p: RNode?)
      reads `heads, `chains
    {
      heads != [] && BucketOf(hashVal, |heads|) < |chains|
      && if p == null then forall x :: x in chains[BucketOf(hashVal, |heads|)] ==> !predict(x)
         else exists i :: FirstMatch<RNode>(chains, BucketOf(hashVal, |heads|), i, p, predict)
    }

    // rTableCoreFind
    method Find(hashVal: nat, predict: RNode -> bool) returns (p: RNode?)
      requires Valid()
      ensures Finds(hashVal, predict, p)
      ensures p == null <==> forall x :: x in nodes && SameBucket(x, hashVal) ==> !predict(x)
      ensures p != null ==> p in nodes && SameBucket(p, hashVal) && predict(p)
      ensures (forall x :: x in nodes && predict(x) ==> x.hash == hashVal) ==>
                (p == null <==> forall x :: x in nodes ==> !predict(x))
    {
      BucketHas(hashVal);
      var bucketId := BucketOf(hashVal, |heads|);
      ghost var i;
      p, i := FindIf(heads[bucketId], predict, chains[bucketId]);
      assert p != null ==> FirstMatch<RNode>(chains, bucketId, i, p, predict);
    }

    // The documentation of the lookup says that only entries of hash value hashVal are tested, so
    // that whatever is returned has it. The code keeps that, for every predicate, if and only if
    // all linked nodes of the bucket have that hash value.
    lemma FindTestsHashIff(hashVal: nat)
      requires Valid()
      ensures (forall predict: RNode -> bool, p: RNode :: Finds(hashVal, predict, p) ==> p.hash == hashVal)
              <==> (forall x :: x in nodes && SameBucket(x, hashVal) ==> x.hash == hashVal)
    {
      BucketHas(hashVal);
      var b := BucketOf(hashVal, |heads|);
      if forall predict: RNode -> bool, p: RNode :: Finds(hashVal, predict, p) ==> p.hash == hashVal {
        forall x | x in nodes && SameBucket(x, hashVal) ensures x.hash == hashVal {
          var i :| 0 <= i < |chains[b]| && chains[b][i] == x;
          assert Distinct(chains[b]);
          assert FirstMatch<RNode>(chains, b, i, x, y => y == x);
          assert Finds(hashVal, y => y == x, x);
        }
      }
    }

    // What belongs to bucket b belongs to no other bucket.
    lemma OthersAside(b: nat)
      requires Valid() && b < |heads|
      ensures forall d :: 0 <= d < |heads| && d != b ==> Aside(heads[b], chains[b], heads[d], chains[d])
    {
      forall d | 0 <= d < |heads| && d != b ensures Aside(heads[b], chains[b], heads[d], chains[d]) {
        assert heads[b] in heads && heads[d] in heads;
        var e := chains[d];
        forall i | 0 <= i < |e| ensures e[i] !in chains[b] {
          ChainsDisjoint(chains, Hashes(), |heads|, d, b, e[i]);
        }
      }
    }

    // Every bucket has its list, and no other bucket shares an object with bucket b.
    ghost predicate ListsApart(b: nat)
      reads `heads, `chains, `nodes, heads, nodes
    {
      && b < |heads| == |chains| && (forall d, i :: 0 <= d < |heads| && 0 <= i < |chains[d]| ==> chains[d][i] in nodes)
      && (forall d :: 0 <= d < |heads| ==> List(heads[d], chains[d]))
      && (forall d :: 0 <= d < |heads| && d != b ==> Aside(heads[b], chains[b], heads[d], chains[d]))
    }

    lemma BucketsApart(b: nat)
      requires Valid() && b < |heads|
      ensures ListsApart(b)
    {
      OthersAside(b);
    }

    lemma RehashInBucket(x: RNode, hashVal: nat)
      requires Valid() && x in nodes
      ensures SameBucket(x, hashVal) ==> Placed(chains, Hashes()[x := hashVal], |heads|)
    {
      if SameBucket(x, hashVal) {
        RehashKeepsLayout(chains, Hashes(), |heads|, x, hashVal);
      }
    }

    // The lists do not depend on hash values.
    method SetHash(entry: RNode, hashVal: nat, ghost b: nat)
      requires ListsApart(b)
      modifies entry`hash
      ensures ListsApart(b) && entry.hash == hashVal
    {
      hide Aside, Distinct;
      entry.hash := hashVal;
    }

    // The list part of an insertion
    method PrependInBucket(head: RNode, ghost b: nat, entry: RNode, hashVal: nat, equiv: (RNode, RNode) -> bool)
      returns (inserted: bool)
      requires ListsApart(b) && head == heads[b] && entry !in heads
      modifies head`next, entry
      ensures entry.hash == hashVal
      ensures inserted <==> forall x :: x in chains[b] ==> !equiv(x, entry)
      ensures inserted && (forall d :: 0 <= d < |chains| ==> entry !in chains[d]) ==>
                forall d :: 0 <= d < |heads| ==> List(heads[d], PushAt(chains, b, entry)[d])
      ensures inserted ==> head.next == entry && entry.next == old(head.next)
      ensures !inserted ==> forall d :: 0 <= d < |heads| ==> List(heads[d], chains[d])
      ensures !inserted ==> entry.next == old(entry.next) && head.next == old(head.next)
    {
      hide List;
      SetHash(entry, hashVal, b);
      assert heads[b] in heads;
      label hashed:
      inserted := PrependIfNoMatch(head, entry, equiv, chains[b]);
      if inserted && forall d :: 0 <= d < |chains| ==> entry !in chains[d] {
        forall d | 0 <= d < |heads| && d != b ensures List(heads[d], chains[d]) {
          assert Aside(heads[b], chains[b], heads[d], chains[d]);
          assert old@hashed(List(heads[d], chains[d]));
        }
      }
    }

    // The list part of a detach
    method RemoveFromBucket(head: RNode, ghost b: nat, predict: RNode -> bool) returns (p: RNode?, ghost i: nat)
      requires ListsApart(b) && head == heads[b]
      modifies head`next, chains[b]
      ensures p == null ==> forall x :: x in chains[b] ==> !predict(x)
      ensures p == null ==> forall d :: 0 <= d < |heads| ==> List(heads[d], chains[d])
      ensures p != null ==> FirstMatch<RNode>(chains, b, i, p, predict) && p.next == old(p.next)
      ensures p != null ==> forall d :: 0 <= d < |heads| ==> List(heads[d], RemoveAt(chains, b, i)[d])
      ensures forall x :: x in chains[b] ==> x.hash == old(x.hash)
    {
      hide List;
      p, i := RemoveIf(head, predict, chains[b]);
      forall d | 0 <= d < |heads| && d != b ensures List(heads[d], chains[d]) {
        assert Aside(heads[b], chains[b], heads[d], chains[d]);
        assert old(List(heads[d], chains[d]));
      }
    }

    // What Valid says, one part at a time
    lemma ValidParts()
      requires Valid()
      ensures size == |nodes| + detaches && Placed(chains, Hashes(), |heads|) && Distinct(heads) && |heads| == |chains|
      ensures (forall x :: x in heads ==> x !in nodes) && (forall d :: 0 <= d < |heads| ==> List(heads[d], chains[d]))
    {
    }

    lemma PartsAreValid()
      requires size == |nodes| + detaches && Placed(chains, Hashes(), |heads|) && Distinct(heads) && |heads| == |chains|
      requires (forall x :: x in heads ==> x !in nodes) && (forall d :: 0 <= d < |heads| ==> List(heads[d], chains[d]))
      ensures Valid()
    {
      PlacedIn(chains, Hashes(), |heads|);
    }

    // The lists cs stand behind the heads, and each holds only nodes of all and of its own bucket.
    ghost predicate SoundBy(all: set<RNode>, cs: seq<seq<RNode>>)
      reads `heads, heads, all
    {
      && heads != [] && |cs| == |heads|
      && (forall b, x :: 0 <= b < |cs| && x in cs[b] ==> x in all && BucketOf(x.hash, |heads|) == b)
      && (forall b :: 0 <= b < |cs| ==> List(heads[b], cs[b]))
    }

    lemma ValidIsSound()
      requires Valid()
      ensures SoundBy(nodes, chains)
    {
      forall b, x | 0 <= b < |chains| && x in chains[b] ensures x in nodes && BucketOf(x.hash, |heads|) == b {
        assert InBucket(chains[b], Hashes(), |heads|, b);
      }
    }

    // A path from a head that meets a node of another bucket, or a node twice, spoils the table.
    lemma PathSpoils(all: set<RNode>, b: nat, path: seq<RNode>)
      requires b < |heads| && path != [] && heads[b].next == path[0]
      requires forall j :: 0 <= j < |path| - 1 ==> path[j].next == path[j + 1]
      requires BucketOf(Last(path).hash, |heads|) != b || (path[0] == Last(path) && |path| > 1)
      ensures forall cs :: !SoundBy(all, cs)
    {
      hide BucketOf;
      forall cs | SoundBy(all, cs) ensures false {
        PathEnds(heads[b], cs[b], path);
      }
    }

    // Where a linked node stands: in the bucket of its hash value, behind a path from the head.
    lemma Standing(x: RNode) returns (b: nat, j: nat)
      requires Valid() && x in nodes
      ensures b < |heads| == |chains| && b == BucketOf(x.hash, |heads|) && j < |chains[b]| && chains[b][j] == x
      ensures heads[b].next == chains[b][0]
      ensures forall k :: 0 <= k < j ==> chains[b][k].next == chains[b][k + 1] && chains[b][k] != x
      ensures forall k :: 0 <= k <= j ==> chains[b][k] !in heads
    {
      BucketInRange(x.hash, |heads|);
      b := BucketOf(x.hash, |heads|);
      assert Home(chains, Hashes(), |heads|, x);
      assert List(heads[b], chains[b]);
      j :| 0 <= j < |chains[b]| && chains[b][j] == x;
      assert forall k :: 0 <= k <= j ==> chains[b][k] in nodes;
    }

    lemma HashesAre(h: map<RNode, nat>)
      requires h.Keys == nodes && forall x :: x in nodes ==> h[x] == x.hash
      ensures Hashes() == h
    {
    }

    lemma HashesSay()
      ensures Hashes().Keys == nodes && forall x :: x in nodes ==> Hashes()[x] == x.hash
    {
    }

    // The chains gain a node in front of bucket b, which the lists and size have already.
    ghost method RecordInsert(entry: RNode, b: nat)
      requires size == |nodes| + 1 + detaches && Placed(chains, Hashes(), |heads|) && Distinct(heads)
               && |heads| == |chains|
      requires (forall x :: x in heads ==> x !in nodes) && entry !in nodes && entry !in heads && heads != []
      requires b == BucketOf(entry.hash, |heads|)
      requires forall d :: 0 <= d < |heads| ==> List(heads[d], PushAt(chains, b, entry)[d])
      modifies this`chains, this`nodes
      ensures Valid() && Hashes() == old(Hashes())[entry := entry.hash]
      ensures nodes == old(nodes) + {entry} && chains == PushAt(old(chains), b, entry)
    {
      hide Placed, List, Valid, Distinct, PushAt, Hashes, BucketOf;
      HashesSay();
      ghost var h := Hashes();
      PlacedAfterInsert(chains, h, |heads|, entry, entry.hash);
      chains, nodes := PushAt(chains, b, entry), nodes + {entry};
      HashesAre(h[entry := entry.hash]);
      PartsAreValid();
    }

    // A linked entry handed over once more spoils the table, unless it is refused and its new hash
    // value selects the bucket it is in.
    ghost predicate Spoils(entry: RNode, hashVal: nat, inserted: bool)
      reads `heads, `nodes, entry
    {
      entry in nodes && (inserted || !SameBucket(entry, hashVal))
    }

    // The insertion, as far as its own bucket tells
    method AddToBucket(entry: RNode, hashVal: nat, equiv: (RNode, RNode) -> bool) returns (inserted: bool)
      requires Valid() && entry !in heads && BucketOf(hashVal, |heads|) < |chains|
      modifies this`size, this`chains, this`nodes, heads, entry
      ensures entry.hash == hashVal && size == old(size) + if inserted then 1 else 0
      ensures inserted <==> forall x :: x in old(chains)[BucketOf(hashVal, |heads|)] ==> !equiv(x, entry)
      ensures if old(Spoils(entry, hashVal, inserted)) then forall cs :: !SoundBy(nodes, cs) else Valid()
      ensures inserted && entry !in old(nodes) ==> nodes == old(nodes) + {entry}
                                                   && chains == PushAt(old(chains), BucketOf(hashVal, |heads|), entry)
      ensures !inserted || entry in old(nodes) ==> nodes == old(nodes) && chains == old(chains)
      ensures Hashes() == if inserted || entry in old(nodes) then old(Hashes())[entry := hashVal] else old(Hashes())
    {
      hide Placed, List, ListsApart, Valid, Distinct, SameBucket, PushAt, BucketOf, Hashes, SoundBy;
      ValidParts();
      HashesSay();
      BucketHas(hashVal);
      var bucketId := BucketOf(hashVal, |heads|);
      ghost var h, a, j := Hashes(), 0, 0;
      BucketsApart(bucketId);
      ghost var h1 := if entry in nodes then h[entry := hashVal] else h;
      if entry in nodes {
        a, j := Standing(entry);
        RehashInBucket(entry, hashVal);
      }
      NodesInChains();
      inserted := PrependInBucket(heads[bucketId], bucketId, entry, hashVal, equiv);
      HashesAre(h1);
      if inserted {
        size := size + 1;
      }
      if old(Spoils(entry, hashVal, inserted)) {
        SpoiltBy(entry, bucketId, a, j);
      } else if inserted {
        RecordInsert(entry, bucketId);
      } else {
        PartsAreValid();
      }
    }

    lemma NodesInChains()
      requires Valid()
      ensures forall d :: 0 <= d < |chains| ==> OnlyNodes(chains[d])
    {
    }

    ghost predicate OnlyNodes(c: seq<RNode>)
      reads `nodes
    {
      forall x :: x in c ==> x in nodes
    }

    // What the stores and the new hash value leave of a linked entry's old place.
    lemma SpoiltBy(entry: RNode, b: nat, a: nat, j: nat)
      requires |heads| == |chains| && a < |heads| && b < |heads| && j < |chains[a]| && chains[a][j] == entry
      requires b == BucketOf(entry.hash, |heads|)
      requires forall k :: 0 <= k < j ==> chains[a][k].next == chains[a][k + 1]
      requires if a != b then heads[a].next == chains[a][0] else heads[a].next == entry && entry.next == chains[a][0]
      ensures forall cs :: !SoundBy(nodes, cs)
    {
      hide BucketOf, SoundBy;
      var path := chains[a][..j + 1];
      if a != b {
        PathSpoils(nodes, a, path);
      } else {
        PathSpoils(nodes, b, [entry] + path);
      }
    }

    // rTableCoreTryInsertNoExpand: hash is overwritten before the duplicate check, and nothing
    // keeps the caller from handing over an entry that is linked already.
    method TryInsertNoExpand(entry: RNode, hashVal: nat, equiv: (RNode, RNode) -> bool) returns (inserted: bool)
      requires Valid() && entry !in heads
      modifies this`size, this`chains, this`nodes, heads, entry
      ensures entry.hash == hashVal && size == old(size) + if inserted then 1 else 0
      ensures if old(Spoils(entry, hashVal, inserted)) then forall cs :: !SoundBy(nodes, cs) else Valid()
      ensures inserted <==> forall x :: x in old(nodes) && old(SameBucket(x, hashVal)) ==> !equiv(x, entry)
      ensures (forall x :: x in old(nodes) && equiv(x, entry) ==> old(x.hash) == hashVal) ==>
                (inserted <==> forall x :: x in old(nodes) ==> !equiv(x, entry))
      ensures inserted && entry !in old(nodes) ==> nodes == old(nodes) + {entry}
                                                   && chains == PushAt(old(chains), BucketOf(hashVal, |heads|), entry)
      ensures !inserted || entry in old(nodes) ==> nodes == old(nodes) && chains == old(chains)
      ensures Hashes() == if inserted || entry in old(nodes) then old(Hashes())[entry := hashVal] else old(Hashes())
    {
      hide Valid, SameBucket, PushAt, BucketOf, Hashes, SoundBy, Spoils;
      BucketHas(hashVal);
      inserted := AddToBucket(entry, hashVal, equiv);
    }

    // rTableCoreInsertNoExpand: no duplicate check at all
    method InsertNoExpand(entry: RNode)
      requires Valid() && entry !in heads && entry !in nodes
      modifies this`size, this`chains, this`nodes, heads, entry
      ensures Valid() && entry.hash == old(entry.hash) && nodes == old(nodes) + {entry} && size == old(size) + 1
      ensures Hashes() == old(Hashes())[entry := entry.hash]
      ensures chains == PushAt(old(chains), BucketOf(entry.hash, |heads|), entry)
    {
      hide Placed, List, BucketOf, Distinct;
      BucketHas(entry.hash);
      var bucketId := BucketOf(entry.hash, |heads|);
      ghost var cs, h := chains, Hashes();
      OthersAside(bucketId);
      InsertAfter(heads[bucketId], entry, heads[bucketId], cs[bucketId], 0);
      assert Inserted(cs[bucketId], 0, entry) == [entry] + cs[bucketId];
      size := size + 1;
      chains, nodes := PushAt(cs, bucketId, entry), nodes + {entry};
      PlacedAfterInsert(cs, h, |heads|, entry, entry.hash);
      assert Hashes() == h[entry := entry.hash];
      PlacedIn(chains, Hashes(), |heads|);
      forall d | 0 <= d < |heads| && d != bucketId ensures List(heads[d], chains[d]) {
        assert Aside(heads[bucketId], cs[bucketId], heads[d], cs[d]);
        assert old(List(heads[d], chains[d]));
      }
    }

    // The chains lose node i of bucket b, which the lists have lost already.
    ghost method RecordDetach(p: RNode, b: nat, i: nat)
      requires size == |nodes| + detaches && Placed(chains, Hashes(), |heads|) && Distinct(heads) && |heads| == |chains|
      requires forall x :: x in heads ==> x !in nodes
      requires b < |chains| && i < |chains[b]| && chains[b][i] == p
      requires p in nodes && forall d :: 0 <= d < |heads| ==> List(heads[d], RemoveAt(chains, b, i)[d])
      modifies this`chains, this`nodes, this`detaches, this`unlinkedAt
      ensures Valid() && Hashes() == old(Hashes()) - {p}
      ensures nodes == old(nodes) - {p} && chains == RemoveAt(old(chains), b, i)
      ensures detaches == old(detaches) + 1 && unlinkedAt == old(unlinkedAt)[p := syncs]
    {
      hide Placed, List, Valid, Distinct, RemoveAt, Hashes;
      HashesSay();
      ghost var h := Hashes();
      PlacedAfterRemove(chains, h, |heads|, b, i);
      unlinkedAt, detaches := unlinkedAt[p := syncs], detaches + 1;
      chains, nodes := RemoveAt(chains, b, i), nodes - {p};
      HashesAre(h - {p});
      PartsAreValid();
    }

    // The detach, as far as its own bucket tells
    method TakeFromBucket(hashVal: nat, predict: RNode -> bool) returns (p: RNode?, ghost i: nat)
      requires Valid() && BucketOf(hashVal, |heads|) < |chains|
      modifies this`chains, this`nodes, this`detaches, this`unlinkedAt, heads, nodes
      ensures Valid()
      ensures Hashes() == if p != null then old(Hashes()) - {p} else old(Hashes())
      ensures detaches == old(detaches) + if p != null then 1 else 0
      ensures unlinkedAt == if p != null then old(unlinkedAt)[p := syncs] else old(unlinkedAt)
      ensures p == null ==> (forall x :: x in old(chains)[BucketOf(hashVal, |heads|)] ==> !predict(x))
      ensures p == null ==> nodes == old(nodes) && chains == old(chains)
      ensures p != null ==> FirstMatch<RNode>(old(chains), BucketOf(hashVal, |heads|), i, p, predict)
      ensures p != null ==> nodes == old(nodes) - {p} && p.next == old(p.next)
      ensures p != null ==> chains == RemoveAt(old(chains), BucketOf(hashVal, |heads|), i)
      ensures forall x :: x in old(nodes) ==> x.hash == old(x.hash)
    {
      hide Placed, List, ListsApart, Valid, Distinct, SameBucket, RemoveAt, BucketOf, Hashes;
      ValidParts();
      HashesSay();
      BucketHas(hashVal);
      var bucketId := BucketOf(hashVal, |heads|);
      ghost var cs, h := chains, Hashes();
      BucketsApart(bucketId);
      p, i := RemoveFromBucket(heads[bucketId], bucketId, predict);
      assert forall x :: x in nodes ==> x.hash == old(x.hash);
      HashesAre(h);
      if p != null {
        RecordDetach(p, bucketId, i);
      } else {
        PartsAreValid();
      }
    }

    // rTableCoreTryDetachNoShrink: takes out the first match of its bucket, which keeps its own
    // next for the readers on it. size stays as it is.
    method TryDetachNoShrink(hashVal: nat, predict: RNode -> bool) returns (p: RNode?, ghost i: nat)
      requires Valid()
      modifies this`chains, this`nodes, this`detaches, this`unlinkedAt, heads, nodes
      ensures Valid()
      ensures Hashes() == if p != null then old(Hashes()) - {p} else old(Hashes())
      ensures detaches == old(detaches) + if p != null then 1 else 0
      ensures unlinkedAt == if p != null then old(unlinkedAt)[p := syncs] else old(unlinkedAt)
      ensures p == null <==> forall x :: x in old(nodes) && old(SameBucket(x, hashVal)) ==> !predict(x)
      ensures p == null ==> nodes == old(nodes) && chains == old(chains)
      ensures p != null ==> p in old(nodes) && predict(p) && nodes == old(nodes) - {p} && p.next == old(p.next)
      ensures p != null ==> FirstMatch<RNode>(old(chains), BucketOf(hashVal, |heads|), i, p, predict)
      ensures p != null ==> chains == RemoveAt(old(chains), BucketOf(hashVal, |heads|), i)
      ensures (forall x :: x in old(nodes) && predict(x) ==> old(x.hash) == hashVal) ==>
                (p == null <==> forall x :: x in old(nodes) ==> !predict(x))
      ensures forall x :: x in old(nodes) ==> x.hash == old(x.hash)
    {
      hide Valid, SameBucket, RemoveAt, BucketOf, Hashes;
      BucketHas(hashVal);
      p, i := TakeFromBucket(hashVal, predict);
    }

    // ----- automatic resizing -----

    // The load bound: the linked nodes are at most size, and size is below the expansion
    // threshold.
    ghost predicate Loaded()
      reads this
    {
      |nodes| <= size && heads != [] && WithinLoad(size, |heads|, expandFactor, shrinkFactor)
    }

    // An operation takes size and bucket count from (s, n) to (s', n'), and keeps the load bound.
    ghost predicate Follows(s: nat, n: nat, op: LoadOp, s': nat, n': nat)
      reads `expandFactor, `shrinkFactor
    {
      && (s', n') == LoadStep(s, n, op, expandFactor, shrinkFactor)
      && (WithinLoad(s, n, expandFactor, shrinkFactor) ==> WithinLoad(s', n', expandFactor, shrinkFactor))
    }

    // expandBucketsByFac2IfNecessary
    method ExpandIfNecessary(nrElements: nat, nrBuckets: nat) returns (expanded: bool)
      requires Valid() && nrBuckets == |heads|
      modifies this`heads, this`chains, this`syncs, heads, nodes
      ensures Valid() && Hashes() == old(Hashes())
      ensures expanded <==> nrElements as real > expandFactor * nrBuckets as real
      ensures expanded ==> |heads| == 2 * old(|heads|) && fresh(heads)
      ensures expanded ==> chains == ExpandChains(old(chains), old(Hashes()), old(|heads|))
      ensures expanded ==> syncs == old(syncs) + 1 + MaxSwitches(old(chains), old(Hashes()), 2 * old(|heads|))
      ensures !expanded ==> heads == old(heads) && chains == old(chains) && syncs == old(syncs)
      ensures nrElements > 0 ==> Follows(nrElements - 1, old(|heads|), Insertion, nrElements, |heads|)
    {
      hide Valid, Hashes, ExpandChains, MaxSwitches;
      expanded := nrElements as real > expandFactor * nrBuckets as real;
      if expanded {
        ExpandBuckets2x();
      }
      if nrElements > 0 && WithinLoad(nrElements - 1, nrBuckets, expandFactor, shrinkFactor) {
        LoadAfterInsert(nrElements - 1, nrBuckets, |heads|, expandFactor, shrinkFactor);
      }
    }

    // shrinkBucketsByFac2IfNecessary
    method ShrinkIfNecessary(nrElements: nat, nrBuckets: nat) returns (shrunk: bool)
      requires Valid() && nrBuckets == |heads|
      modifies this`heads, this`chains, this`syncs, heads, nodes
      ensures Valid() && Hashes() == old(Hashes())
      ensures shrunk <==> nrElements as real < shrinkFactor * nrBuckets as real && nrElements > 128 && nrBuckets > 1
      ensures shrunk ==> 2 * |heads| == old(|heads|) && fresh(heads) && syncs == old(syncs) + 1
      ensures shrunk ==> chains == ShrinkChains(old(chains), |heads|)
      ensures !shrunk ==> heads == old(heads) && chains == old(chains) && syncs == old(syncs)
      ensures Follows(nrElements, old(|heads|), Detachment, nrElements, |heads|)
    {
      hide Valid, Hashes, ShrinkChains;
      shrunk := false;
      if nrElements as real < shrinkFactor * nrBuckets as real && nrElements > 128 {
        shrunk := ShrinkBuckets2x();
      }
      if shrunk && WithinLoad(nrElements, nrBuckets, expandFactor, shrinkFactor) {
        LoadAfterShrink(nrElements, nrBuckets, |heads|, expandFactor, shrinkFactor);
      }
    }

    // rTableCoreTryInsert
    method TryInsert(entry: RNode, hashVal: nat, equiv: (RNode, RNode) -> bool) returns (inserted: bool)
      requires Valid() && entry !in heads
      requires entry in nodes ==> exists x :: x in nodes && SameBucket(x, hashVal) && equiv(x, entry)
      modifies this`size, this`heads, this`chains, this`nodes, this`syncs, heads, nodes, entry
      ensures entry.hash == hashVal
      ensures if old(Spoils(entry, hashVal, inserted)) then forall cs :: !SoundBy(nodes, cs) else Valid()
      ensures inserted <==> forall x :: x in old(nodes) && old(SameBucket(x, hashVal)) ==> !equiv(x, entry)
      ensures (forall x :: x in old(nodes) && equiv(x, entry) ==> old(x.hash) == hashVal) ==>
                (inserted <==> forall x :: x in old(nodes) ==> !equiv(x, entry))
      ensures inserted ==> entry !in old(nodes) && nodes == old(nodes) + {entry} && size == old(size) + 1
      ensures !inserted ==> nodes == old(nodes) && size == old(size) && chains == old(chains)
      ensures !inserted ==> syncs == old(syncs) && heads == old(heads)
      ensures Hashes() == if inserted || entry in old(nodes) then old(Hashes())[entry := hashVal] else old(Hashes())
      ensures inserted ==>
                var n, pushed := |old(heads)|, PushAt(old(chains), BucketOf(hashVal, |old(heads)|), entry);
                if size as real > expandFactor * n as real
                then |heads| == 2 * n && fresh(heads) && chains == ExpandChains(pushed, Hashes(), n)
                     && syncs == old(syncs) + 1 + MaxSwitches(pushed, Hashes(), 2 * n)
                else heads == old(heads) && chains == pushed && syncs == old(syncs)
      ensures inserted ==> (size, |heads|) == LoadStep(old(size), |old(heads)|, Insertion, expandFactor, shrinkFactor)
      ensures old(Loaded()) ==> Loaded()
    {
      hide Valid, SameBucket, ExpandChains, MaxSwitches, PushAt, WithinLoad, LoadStep, Hashes, BucketOf, SoundBy;
      ValidSizes();
      inserted := TryInsertNoExpand(entry, hashVal, equiv);
      assert entry in Hashes() ==> entry in nodes by { HashesSay(); }
      if !inserted {
        return false;
      }
      assert |nodes| == |old(nodes)| + 1;
      hide Spoils;
      var expanded := ExpandIfNecessary(size, |heads|);
      HashesSay();
    }

    // rTableCoreTryDetachAutoShrink: the flag reports whether a grace period ran.
    method TryDetachAutoShrink(hashVal: nat, predict: RNode -> bool)
      returns (p: RNode?, synchronized: bool, ghost i: nat)
      requires Valid()
      modifies this`heads, this`chains, this`nodes, this`syncs, this`detaches, this`unlinkedAt, heads, nodes
      ensures Valid() && (heads == old(heads) || fresh(heads))
      ensures Hashes() == if p != null then old(Hashes()) - {p} else old(Hashes())
      ensures detaches == old(detaches) + if p != null then 1 else 0
      // the grace period the flag speaks of began after the node was unlinked
      ensures p != null ==> p in unlinkedAt && syncs == unlinkedAt[p] + if synchronized then 1 else 0
      ensures p == null <==> forall x :: x in old(nodes) && old(SameBucket(x, hashVal)) ==> !predict(x)
      ensures p == null ==> nodes == old(nodes) && chains == old(chains)
      ensures p != null ==> p in old(nodes) && predict(p) && nodes == old(nodes) - {p} && p.next == old(p.next)
      ensures p != null ==> FirstMatch<RNode>(old(chains), BucketOf(hashVal, |old(heads)|), i, p, predict)
      ensures synchronized <==>
                p != null && size as real < shrinkFactor * old(|heads|) as real && size > 128 && old(|heads|) > 1
      ensures syncs == old(syncs) + if synchronized then 1 else 0
      ensures p != null ==>
                var removed := RemoveAt(old(chains), BucketOf(hashVal, |old(heads)|), i);
                if synchronized then 2 * |heads| == |old(heads)| == |removed|
                  && chains == ShrinkChains(removed, |heads|)
                else heads == old(heads) && chains == removed
      ensures p != null ==> (size, |heads|) == LoadStep(size, |old(heads)|, Detachment, expandFactor, shrinkFactor)
      ensures old(Loaded()) ==> Loaded()
    {
      hide Valid, SameBucket, RemoveAt, FirstMatch, Hashes, BucketOf, ShrinkChains, WithinLoad, LoadStep;
      ValidSizes();
      p, i := TryDetachNoShrink(hashVal, predict);
      synchronized := false;
      if p == null {
        return;
      }
      synchronized := ShrinkIfNecessary(size, |heads|);
    }

    // rTableCoreTryDetachAndSynchronize: exactly one grace period has passed since a returned
    // node was unlinked, whichever of the two calls ran it.
    method TryDetachAndSynchronize(hashVal: nat, predict: RNode -> bool) returns (p: RNode?, ghost i: nat)
      requires Valid()
      modifies this`heads, this`chains, this`nodes, this`syncs, this`detaches, this`unlinkedAt, heads, nodes
      ensures Valid() && (heads == old(heads) || fresh(heads))
      ensures Hashes() == if p != null then old(Hashes()) - {p} else old(Hashes())
      ensures detaches == old(detaches) + if p != null then 1 else 0
      ensures p == null <==> forall x :: x in old(nodes) && old(SameBucket(x, hashVal)) ==> !predict(x)
      ensures p == null ==> nodes == old(nodes) && chains == old(chains) && syncs == old(syncs)
      ensures p != null ==> p in old(nodes) && predict(p) && nodes == old(nodes) - {p} && p.next == old(p.next)
      ensures p != null ==> p in unlinkedAt && syncs == unlinkedAt[p] + 1 == old(syncs) + 1
      ensures p != null ==> FirstMatch<RNode>(old(chains), BucketOf(hashVal, |old(heads)|), i, p, predict)
      ensures p != null ==>
                var removed := RemoveAt(old(chains), BucketOf(hashVal, |old(heads)|), i);
                if size as real < shrinkFactor * |old(heads)| as real && size > 128 && |old(heads)| > 1
                then 2 * |heads| == |old(heads)| == |removed| && chains == ShrinkChains(removed, |heads|)
                else heads == old(heads) && chains == removed
      ensures old(Loaded()) ==> Loaded()
    {
      hide Valid, SameBucket, RemoveAt, FirstMatch, Hashes, BucketOf, ShrinkChains;
      ValidSizes();
      var synchronized;
      p, synchronized, i := TryDetachAutoShrink(hashVal, predict);
      if p == null {
        return;
      }
      if !synchronized {
        Synchronize();
      }
    }
  }

  // A linked entry handed over with a hash value of another bucket: it is linked there as well, and
  // what stands behind the heads is a table no longer.
  method InsertMoved() returns (t: Table, entry: RNode, inserted: bool)
    ensures inserted && entry in t.nodes && |t.heads| == 2 && forall cs :: !t.SoundBy(t.nodes, cs)
  {
    hide IsPow2, BucketOf, PushAt, Table.Valid, Table.Hashes, Table.SoundBy, ExpandChains, List, Distinct;
    t := new Table(1, 1.5, 0.5);
    t.ExpandBuckets2x();
    entry := new RNode(0);
    t.InsertNoExpand(entry);
    TwoBuckets();
    inserted := t.TryInsertNoExpand(entry, 1, (a: RNode, b: RNode) => true);
  }

  lemma TwoBuckets()
    ensures BucketOf(0, 2) == 0 && BucketOf(1, 2) == 1
  {
    assert BitAnd(0, 0) == 0;
  }

  lemma OneBucket(h: nat, k: nat)
    ensures BucketOf(h, 1) == BucketOf(k, 1)
  {
  }

  // A table in which the lookup for hashVal returns a node of another hash value, although a node
  // of hash value hashVal is linked: the one bucket holds both, and the predicate takes the other.
  method FindOtherHash(hashVal: nat) returns (t: Table, p: RNode?)
    requires hashVal < SIZE_T_END
    ensures t.Valid() && (exists x :: x in t.nodes && x.hash == hashVal)
    ensures p != null && p in t.nodes && p.hash < SIZE_T_END && p.hash != hashVal
    ensures exists predict: RNode -> bool :: t.Finds(hashVal, predict, p)
  {
    hide IsPow2, BucketOf, PushAt, Table.Valid, Table.Hashes, List, Distinct;
    t := new Table(1, 1.5, 0.5);
    var own := new RNode(hashVal);
    t.InsertNoExpand(own);
    var other := new RNode(if hashVal == 0 then 1 else 0);
    t.InsertNoExpand(other);
    OneBucket(hashVal, other.hash);
    p := t.Find(hashVal, y => y == other);
  }
}
