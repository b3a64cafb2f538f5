// Reader-thread registration and the choice of a reference counter in the two epoch rows.
module Registry {
  import opened Bits
  import opened PowerOfTwo
  import EpochZone

  type Tid = nat

  const UNREGISTERED := -1

  // The process-wide registry. bucketIds is the thread-local tlsReaderBucketId of every thread.
  class ReaderThreadRegistry {
    const nrNonOverlappingBucketCount: nat
    var nextBucketId: nat
    var bucketIds: map<Tid, int>

    // Registered threads hold distinct counters below both bounds.
    ghost predicate Valid()
      reads this
    {
      && (forall t :: t in bucketIds ==>
            || bucketIds[t] == UNREGISTERED
            || (0 <= bucketIds[t] < nextBucketId && bucketIds[t] < nrNonOverlappingBucketCount))
      && (forall t, u :: t in bucketIds && u in bucketIds && t != u && Registered(t) ==> bucketIds[t] != bucketIds[u])
    }

    predicate Registered(t: Tid)
      reads this
    {
      t in bucketIds && bucketIds[t] != UNREGISTERED
    }

    ghost function RegisteredThreads(): set<Tid>
      reads this
    {
      set t | t in bucketIds && Registered(t)
    }

    constructor (hardwareConcurrency: nat)
      requires hardwareConcurrency < UINT32_END
      ensures Valid() && RegisteredThreads() == {} && nextBucketId == 0
      ensures hardwareConcurrency <= 0x8000_0000 ==>
                var v, n := hardwareConcurrency, nrNonOverlappingBucketCount;
                IsPow2(n) && n >= v && (n == 1 || n < 2 * v)
    {
      hide IsPow2;
      var n := UpperBoundPowerOf2(hardwareConcurrency);
      nrNonOverlappingBucketCount := n;
      nextBucketId, bucketIds := 0, map[];
    }

    // rcuRegisterReaderThread. A refused registration still uses up an id.
    method Register(t: Tid) returns (ok: bool)
      requires Valid()
      modifies this
      ensures Valid()
      ensures ok <==> !old(Registered(t)) && old(nextBucketId) < nrNonOverlappingBucketCount
      ensures RegisteredThreads() == old(RegisteredThreads()) + if ok then {t} else {}
      ensures forall u :: u in old(RegisteredThreads()) ==> u in bucketIds && bucketIds[u] == old(bucketIds[u])
      ensures ok ==> bucketIds[t] == old(nextBucketId)
      ensures nextBucketId == old(nextBucketId) + if old(Registered(t)) then 0 else 1
      // Only a registration that succeeds moves a thread to another counter; a thread must not
      // do that between its lock and its unlock, which looks the counter up again.
      ensures forall u, h, n :: IsPow2(n) ==>
                (FetchThreadBucketId(u, h, n) == old(FetchThreadBucketId(u, h, n)) <==> !(ok && u == t))
    {
      hide IsPow2, BucketOf;
      if t in bucketIds && bucketIds[t] != UNREGISTERED {
        return false;
      }
      var bucketId := nextBucketId;
      nextBucketId := nextBucketId + 1;
      if bucketId >= nrNonOverlappingBucketCount {
        return false;
      }
      bucketIds := bucketIds[t := bucketId];
      return true;
    }

    // fetchThreadBucketId: its own counter for a registered thread, else one by hash.
    function FetchThreadBucketId(t: Tid, threadIdHash: nat, nrHashThreadBuckets: nat): (id: nat)
      requires Valid() && IsPow2(nrHashThreadBuckets)
      reads this
      ensures id < nrNonOverlappingBucketCount + nrHashThreadBuckets
      ensures id < nrNonOverlappingBucketCount <==> Registered(t)
      ensures Registered(t) ==> id == bucketIds[t]
      ensures !Registered(t) ==> id - nrNonOverlappingBucketCount == threadIdHash % nrHashThreadBuckets
    {
      if Registered(t) then bucketIds[t]
      else
        BucketInRange(threadIdHash, nrHashThreadBuckets);
        MaskIsMod(threadIdHash, nrHashThreadBuckets);
        nrNonOverlappingBucketCount + BucketOf(threadIdHash, nrHashThreadBuckets)
    }

    // Two registered threads never share a counter, and neither shares one with an unregistered
    // thread.
    lemma CountersApart(t: Tid, u: Tid, ht: nat, hu: nat, n: nat)
      requires Valid() && IsPow2(n) && t != u && Registered(t)
      ensures FetchThreadBucketId(t, ht, n) != FetchThreadBucketId(u, hu, n)
    {
      if Registered(u) {
        assert bucketIds[t] != bucketIds[u];
      }
    }
  }

  // What one thread id stands for in the zone: the configuration the protocol runs on.
  function ZoneConfig(r: ReaderThreadRegistry, hashes: seq<nat>, n: nat): (c: EpochZone.Config)
    requires r.Valid() && IsPow2(n)
    reads r
    ensures c.nb == r.nrNonOverlappingBucketCount + n && |c.bucketOf| == |hashes|
    ensures EpochZone.ValidConfig(c)
  {
    EpochZone.Config(r.nrNonOverlappingBucketCount + n,
                     seq(|hashes|, t requires 0 <= t < |hashes| && r.Valid() reads r =>
                       r.FetchThreadBucketId(t, hashes[t], n)))
  }

  // rcuInitZoneWithBucketCounts: the counters of both rows, all zero, in one array; row r starts
  // at r * nb.
  method InitZone(r: ReaderThreadRegistry, nrHashThreadBuckets: nat) returns (counts: array<int>, n: nat)
    requires r.Valid() && nrHashThreadBuckets <= 0x4000_0000   // the rounded count must fit an int
    ensures fresh(counts)
    ensures var v := nrHashThreadBuckets; IsPow2(n) && n >= v && (n == 1 || n < 2 * v)
    ensures counts.Length == 2 * (r.nrNonOverlappingBucketCount + n)
    ensures forall i :: 0 <= i < counts.Length ==> counts[i] == 0
  {
    hide IsPow2;
    var nr := nrHashThreadBuckets;
    if nr < 1 {
      nr := 1;
    }
    n := UpperBoundPowerOf2(nr);
    var nrTotalRefCounts := 2 * (r.nrNonOverlappingBucketCount + n);
    counts := new int[nrTotalRefCounts];
    for i := 0 to nrTotalRefCounts
      invariant forall j :: 0 <= j < i ==> counts[j] == 0
    {
      counts[i] := 0;
    }
  }

  // Every access of a thread stays in the row of its epoch; threads with different counters, or
  // epochs of different parity, touch different elements.
  lemma AccessStaysInRow(r: ReaderThreadRegistry, hashes: seq<nat>, n: nat, t: Tid, e: nat)
    requires r.Valid() && IsPow2(n) && t < |hashes|
    ensures var c := ZoneConfig(r, hashes, n);
            (e % 2) * c.nb <= EpochZone.SlotOf(c, t, e) < (e % 2 + 1) * c.nb <= 2 * c.nb
  {
    var c := ZoneConfig(r, hashes, n);
    EpochZone.SlotInRow(c, e % 2, c.bucketOf[t]);
  }

  lemma RegisteredOwnsCounter(r: ReaderThreadRegistry, hashes: seq<nat>, n: nat, t: Tid, u: Tid, e: nat, f: nat)
    requires r.Valid() && IsPow2(n) && t < |hashes| && u < |hashes| && t != u && r.Registered(t)
    ensures var c := ZoneConfig(r, hashes, n); EpochZone.SlotOf(c, t, e) != EpochZone.SlotOf(c, u, f)
  {
    var c := ZoneConfig(r, hashes, n);
    r.CountersApart(t, u, hashes[t], hashes[u], n);
    EpochZone.SlotInjective(c, e % 2, c.bucketOf[t], f % 2, c.bucketOf[u]);
  }
}
