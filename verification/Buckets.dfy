// The resize loops over all buckets of a table.
module Buckets {
  import opened Bits
  import opened Chains
  import opened Layout
  import opened Rounds
  import opened SList
  import opened Resize

  // ----- a pair of new buckets while its old chain is being unzipped -----

  ghost predicate PairOk(src: seq<RNode>, dst: seq<RNode>, cs: seq<seq<RNode>>, ks: seq<nat>, h: map<RNode, nat>,
                         n: nat, b: nat)
    requires b < n == |src| == |cs| == |ks| && |dst| == 2 * n
    reads src[b], dst[b], dst[b + n], cs[b]
  {
    PairAt(src[b], dst[b], dst[b + n], cs[b], ks[b], h, n, b)
  }

  // Chain c of old bucket b is cut at k: the old head keeps the jump pointer, the new heads the
  // two new chains.
  ghost predicate PairAt(s: RNode, d0: RNode, d1: RNode, c: seq<RNode>, k: nat, h: map<RNode, nat>, n: nat, b: nat)
    requires n > 0
    reads s, d0, d1, c
  {
    Twinned(d0, d1, c, k, h, n, b) && s.next == Jump(c, k)
  }

  // Old heads, new heads and chains do not overlap.
  ghost predicate Separate(src: seq<RNode>, dst: seq<RNode>, cs: seq<seq<RNode>>) {
    && Distinct(src) && Distinct(dst) && (forall x :: x in src ==> x !in dst)
    && (forall b, x :: 0 <= b < |cs| && x in cs[b] ==> x !in src && x !in dst)
    && (forall b, d, x :: 0 <= b < d < |cs| && x in cs[b] ==> x !in cs[d])
  }

  ghost predicate Apart(src: seq<RNode>, dst: seq<RNode>, cs: seq<seq<RNode>>, n: nat) {
    n == |src| == |cs| && |dst| == 2 * n && Separate(src, dst, cs)
  }

  // Old head i is none of the objects that belong to pair b, but for being its own old head.
  lemma HeadApart(src: seq<RNode>, dst: seq<RNode>, cs: seq<seq<RNode>>, n: nat, i: nat, b: nat)
    requires Apart(src, dst, cs, n) && i < n && b < n
    ensures src[i] != dst[b] && src[i] != dst[b + n] && src[i] !in cs[b] && (b != i ==> src[i] != src[b])
    ensures forall x {:trigger cs[b][x]} :: 0 <= x < |cs[b]| ==> cs[b][x] != src[i]
  {
    assert src[i] in src && dst[b] in dst && dst[b + n] in dst;
  }

  ghost function Nodes(cs: seq<seq<RNode>>): set<RNode> {
    set b, x | 0 <= b < |cs| && x in cs[b] :: x
  }

  lemma NodesNotHeads(src: seq<RNode>, dst: seq<RNode>, cs: seq<seq<RNode>>)
    requires Separate(src, dst, cs)
    ensures forall x :: x in Nodes(cs) ==> x !in src && x !in dst
  {
  }

  lemma HeadsNotNodes(src: seq<RNode>, dst: seq<RNode>, cs: seq<seq<RNode>>, i: nat)
    requires Separate(src, dst, cs) && i < |src|
    ensures src[i] !in Nodes(cs)
  {
    assert src[i] in src;
  }

  lemma NodesHave(cs: seq<seq<RNode>>, b: nat)
    requires b < |cs|
    ensures forall x :: x in cs[b] ==> x in Nodes(cs)
  {
  }

  ghost function FirstCuts(cs: seq<seq<RNode>>, h: map<RNode, nat>, n: nat): seq<nat>
    requires n > 0
  {
    seq(|cs|, b requires 0 <= b < |cs| => FirstLen(h, cs[b], 2 * n))
  }

  // Old bucket b still starts its chain, and its two new buckets share it.
  ghost predicate SharedOk(src: seq<RNode>, dst: seq<RNode>, cs: seq<seq<RNode>>, h: map<RNode, nat>, n: nat, b: nat)
    requires b < n == |src| == |cs| && |dst| == 2 * n
    reads src[b], dst[b], dst[b + n], cs[b]
  {
    && List(src[b], cs[b]) && FirstLen(h, cs[b], 2 * n) <= |cs[b]|
    && Twinned(dst[b], dst[b + n], cs[b], FirstLen(h, cs[b], 2 * n), h, n, b)
  }

  // The step of findFirstUnzipStarts for one bucket
  method FindFirstUnzipStart(src: seq<RNode>, n: nat, i: nat, ghost dst: seq<RNode>, ghost cs: seq<seq<RNode>>,
                             ghost h: map<RNode, nat>)
    returns (needUnzip: bool)
    requires i < n && Apart(src, dst, cs, n) && SharedOk(src, dst, cs, h, n, i)
    modifies src[i]
    ensures PairOk(src, dst, cs, FirstCuts(cs, h, n), h, n, i)
    ensures needUnzip <==> FirstCuts(cs, h, n)[i] < |cs[i]|
  {
    needUnzip := false;
    HeadApart(src, dst, cs, n, i, i);
    if src[i].next != null {
      var p := FindFirstUnzipPoint(src[i], n, cs[i], h);
      needUnzip := p != null;
    }
  }

  // findFirstUnzipStarts
  method FindFirstUnzipStarts(src: seq<RNode>, n: nat, ghost dst: seq<RNode>, ghost cs: seq<seq<RNode>>,
                              ghost h: map<RNode, nat>)
    returns (allFinished: bool)
    requires n > 0 && Apart(src, dst, cs, n)
    requires forall b :: 0 <= b < n ==> SharedOk(src, dst, cs, h, n, b)
    modifies src
    ensures forall b :: 0 <= b < n ==> PairOk(src, dst, cs, FirstCuts(cs, h, n), h, n, b)
    ensures allFinished <==> forall b :: 0 <= b < n ==> FirstCuts(cs, h, n)[b] == |cs[b]|
  {
    hide Separate, Twinned, List;
    allFinished := true;
    ghost var ks := FirstCuts(cs, h, n);
    for iHalf := 0 to n
      invariant forall b :: iHalf <= b < n ==> SharedOk(src, dst, cs, h, n, b)
      invariant forall b :: 0 <= b < iHalf ==> PairOk(src, dst, cs, ks, h, n, b)
      invariant allFinished <==> forall b :: 0 <= b < iHalf ==> ks[b] == |cs[b]|
    {
      assert SharedOk(src, dst, cs, h, n, iHalf) && ks[iHalf] <= |cs[iHalf]|;
      label before:
      var needUnzip := FindFirstUnzipStart(src, n, iHalf, dst, cs, h);
      if needUnzip {
        allFinished := false;
      }
      forall b | 0 <= b < n && b != iHalf
        ensures b < iHalf ==> PairOk(src, dst, cs, ks, h, n, b)
        ensures b > iHalf ==> SharedOk(src, dst, cs, h, n, b)
      {
        HeadApart(src, dst, cs, n, iHalf, b);
        assert b < iHalf ==> old@before(PairOk(src, dst, cs, ks, h, n, b));
        assert b > iHalf ==> old@before(SharedOk(src, dst, cs, h, n, b));
      }
    }
  }

  // What unzipping pair i touches, its old head and its chain, belongs to no other pair b.
  lemma PairsApart(src: seq<RNode>, dst: seq<RNode>, cs: seq<seq<RNode>>, n: nat, i: nat, b: nat)
    requires Apart(src, dst, cs, n) && i < n && b < n && i != b
    ensures src[i] != src[b] && src[i] != dst[b] && src[i] != dst[b + n] && src[i] !in cs[b]
    ensures src[b] !in cs[i] && dst[b] !in cs[i] && dst[b + n] !in cs[i]
    ensures forall x {:trigger cs[b][x]} :: 0 <= x < |cs[b]| ==> cs[b][x] !in cs[i] && cs[b][x] != src[i]
  {
    assert src[i] in src && src[b] in src && dst[b] in dst && dst[b + n] in dst;
    var e := cs[b];
    forall x | 0 <= x < |e| ensures e[x] !in cs[i] { assert e[x] in e; }
  }

  // The cut of chain c after one round.
  ghost function Advance(c: seq<RNode>, k: nat, h: map<RNode, nat>, n: nat): nat
    requires n > 0
  {
    if 0 < k < |c| then NextCut(c, k, h, n) else k
  }

  // The step of unzip's inner loop for one bucket
  method UnzipPair(src: seq<RNode>, n: nat, i: nat, ghost dst: seq<RNode>, ghost cs: seq<seq<RNode>>, ghost k: nat,
                   ghost h: map<RNode, nat>)
    returns (wasFinished: bool)
    requires i < n && Apart(src, dst, cs, n) && PairAt(src[i], dst[i], dst[i + n], cs[i], k, h, n, i)
    modifies src[i], set x | x in cs[i]
    ensures PairAt(src[i], dst[i], dst[i + n], cs[i], Advance(cs[i], k, h, n), h, n, i)
    ensures wasFinished <==> k == |cs[i]|
    ensures forall x :: x in cs[i] ==> x.hash == old(x.hash)
  {
    wasFinished := true;
    if src[i].next != null {
      wasFinished := false;
      HeadApart(src, dst, cs, n, i, i);
      assert cs[i][k - 1] in cs[i];
      UnzipOneSegment(src[i], n, dst[i], dst[i + n], cs[i], k, h, i);
    }
  }

  // One pass of unzip's outer loop
  method UnzipRound(src: seq<RNode>, n: nat, ghost dst: seq<RNode>, ghost cs: seq<seq<RNode>>, ghost ks: seq<nat>,
                    ghost h: map<RNode, nat>)
    returns (allFinished: bool, ghost ks': seq<nat>)
    requires n > 0 && Apart(src, dst, cs, n) && |ks| == n
    requires forall b :: 0 <= b < n ==> PairOk(src, dst, cs, ks, h, n, b)
    modifies src, Nodes(cs)
    ensures |ks'| == n && forall b :: 0 <= b < n ==> ks'[b] == Advance(cs[b], ks[b], h, n)
    ensures forall b :: 0 <= b < n ==> PairOk(src, dst, cs, ks', h, n, b)
    ensures allFinished <==> forall b :: 0 <= b < n ==> ks[b] == |cs[b]|
    ensures forall x :: x in Nodes(cs) ==> x.hash == old(x.hash)
  {
    hide Separate, PairAt, Advance;
    allFinished := true;
    ks' := seq(n, b requires 0 <= b < n => Advance(cs[b], ks[b], h, n));
    for iHalf := 0 to n
      invariant forall b :: iHalf <= b < n ==> PairOk(src, dst, cs, ks, h, n, b)
      invariant forall b :: 0 <= b < iHalf ==> PairOk(src, dst, cs, ks', h, n, b)
      invariant allFinished <==> forall b :: 0 <= b < iHalf ==> ks[b] == |cs[b]|
      invariant forall x :: x in Nodes(cs) ==> x.hash == old(x.hash)
    {
      assert PairOk(src, dst, cs, ks, h, n, iHalf);
      NodesHave(cs, iHalf);
      HeadsNotNodes(src, dst, cs, iHalf);
      label before:
      var wasFinished := UnzipPair(src, n, iHalf, dst, cs, ks[iHalf], h);
      if !wasFinished {
        allFinished := false;
      }
      assert PairOk(src, dst, cs, ks', h, n, iHalf);
      forall b | 0 <= b < n && b != iHalf
        ensures b > iHalf ==> PairOk(src, dst, cs, ks, h, n, b)
        ensures b < iHalf ==> PairOk(src, dst, cs, ks', h, n, b)
      {
        PairsApart(src, dst, cs, n, iHalf, b);
        assert b > iHalf ==> old@before(PairOk(src, dst, cs, ks, h, n, b));
        assert b < iHalf ==> old@before(PairOk(src, dst, cs, ks', h, n, b));
      }
    }
  }

  // After the given number of rounds every chain needs that many fewer, down to none.
  ghost predicate OnTrack(cs: seq<seq<RNode>>, ks: seq<nat>, h: map<RNode, nat>, n: nat, rounds: nat) {
    n > 0 && |cs| == |ks| == n && forall b :: 0 <= b < n ==> TrackAt(cs, ks, h, n, rounds, b)
  }

  ghost predicate TrackAt(cs: seq<seq<RNode>>, ks: seq<nat>, h: map<RNode, nat>, n: nat, rounds: nat, b: nat)
    requires n > 0 && |cs| == |ks| == n && b < n
  {
    && Cut(cs[b], ks[b], h, n) && TwoWay(cs[b], h, n, b)
    && Left(cs[b], ks[b], h, 2 * n) ==
       if Switches(cs[b], h, 2 * n) <= rounds then 0 else Switches(cs[b], h, 2 * n) - rounds
  }

  lemma TrackStart(src: seq<RNode>, dst: seq<RNode>, cs: seq<seq<RNode>>, h: map<RNode, nat>, n: nat)
    requires 0 < n == |src| == |cs| && |dst| == 2 * n
    requires forall b :: 0 <= b < n ==> PairOk(src, dst, cs, FirstCuts(cs, h, n), h, n, b)
    ensures OnTrack(cs, FirstCuts(cs, h, n), h, n, 0)
  {
    forall b | 0 <= b < n ensures TrackAt(cs, FirstCuts(cs, h, n), h, n, 0, b) {
      assert PairOk(src, dst, cs, FirstCuts(cs, h, n), h, n, b);
      LeftAtStart(cs[b], h, 2 * n);
    }
  }

  // Each round takes one switch away from every chain that has one left.
  lemma TrackRound(cs: seq<seq<RNode>>, ks: seq<nat>, h: map<RNode, nat>, n: nat, rounds: nat, ks': seq<nat>)
    requires OnTrack(cs, ks, h, n, rounds) && |ks'| == n
    requires forall b :: 0 <= b < n ==> ks'[b] == Advance(cs[b], ks[b], h, n)
    ensures OnTrack(cs, ks', h, n, rounds + 1)
  {
    var r := rounds + 1;
    forall b | 0 <= b < n ensures TrackAt(cs, ks', h, n, r, b) {
      assert TrackAt(cs, ks, h, n, rounds, b);
      var c, k := cs[b], ks[b];
      LeftZero(c, k, h, 2 * n);
      if k < |c| {
        NextCutIs(c, k, h, n, b);
        LeftDrops(c, k, NextCut(c, k, h, n), h, 2 * n);
      }
    }
  }

  // Another round is taken only while some chain still needs one; none is left at the end.
  lemma TrackEnd(cs: seq<seq<RNode>>, ks: seq<nat>, h: map<RNode, nat>, n: nat, rounds: nat)
    requires OnTrack(cs, ks, h, n, rounds)
    ensures (forall b :: 0 <= b < n ==> ks[b] == |cs[b]|) ==> MaxSwitches(cs, h, 2 * n) <= rounds
    ensures !(forall b :: 0 <= b < n ==> ks[b] == |cs[b]|) ==> rounds < MaxSwitches(cs, h, 2 * n)
  {
    if forall b :: 0 <= b < n ==> ks[b] == |cs[b]| {
      forall b | 0 <= b < n ensures Switches(cs[b], h, 2 * n) <= rounds {
        assert TrackAt(cs, ks, h, n, rounds, b);
        LeftZero(cs[b], ks[b], h, 2 * n);
      }
      MaxIsReached(cs, h, 2 * n, rounds);
    } else {
      var b :| 0 <= b < n && ks[b] != |cs[b]|;
      assert TrackAt(cs, ks, h, n, rounds, b);
      LeftZero(cs[b], ks[b], h, 2 * n);
      MaxIsBound(cs, h, 2 * n, b);
    }
  }

  // allocateAndInitBuckets
  method AllocateBuckets(n: nat) returns (heads: seq<RNode>)
    ensures |heads| == n && Distinct(heads) && fresh(heads) && forall x :: x in heads ==> x.next == null
  {
    heads := [];
    for i := 0 to n
      invariant |heads| == i && Distinct(heads) && fresh(heads) && forall x :: x in heads ==> x.next == null
    {
      var head := new RNode(0);
      heads := heads + [head];
    }
  }

  ghost predicate UnsplitOk(src: seq<RNode>, cs: seq<seq<RNode>>, h: map<RNode, nat>, n: nat, b: nat)
    requires b < n == |src| == |cs|
    reads src[b], cs[b]
  {
    List(src[b], cs[b]) && Hashed(cs[b], h) && TwoWay(cs[b], h, n, b)
  }

  // The step of that loop for one bucket
  method InitTwin(src: seq<RNode>, dst: seq<RNode>, n: nat, i: nat, ghost cs: seq<seq<RNode>>, ghost h: map<RNode, nat>)
    requires i < n && Apart(src, dst, cs, n) && UnsplitOk(src, cs, h, n, i)
    modifies dst[i], dst[i + n]
    ensures SharedOk(src, dst, cs, h, n, i)
  {
    NewHeadsApart(src, dst, cs, n, i, i);
    InitTwinDstBuckets(src[i], dst[i], dst[i + n], n, i, cs[i], h);
    TwinsShare(dst[i], dst[i + n], cs[i], h, n, i);
  }

  // The first loop of expandBucketsByFac2ReturnOld
  method InitTwins(src: seq<RNode>, dst: seq<RNode>, n: nat, ghost cs: seq<seq<RNode>>, ghost h: map<RNode, nat>)
    requires n > 0 && Apart(src, dst, cs, n)
    requires forall b :: 0 <= b < n ==> UnsplitOk(src, cs, h, n, b)
    modifies dst
    ensures forall b :: 0 <= b < n ==> SharedOk(src, dst, cs, h, n, b)
  {
    hide Separate, UnsplitOk, SharedOk;
    for iHalf := 0 to n
      invariant forall b :: iHalf <= b < n ==> UnsplitOk(src, cs, h, n, b)
      invariant forall b :: 0 <= b < iHalf ==> SharedOk(src, dst, cs, h, n, b)
    {
      assert UnsplitOk(src, cs, h, n, iHalf) && dst[iHalf] in dst && dst[iHalf + n] in dst;
      label before:
      InitTwin(src, dst, n, iHalf, cs, h);
      forall b | 0 <= b < n && b != iHalf
        ensures b > iHalf ==> UnsplitOk(src, cs, h, n, b)
        ensures b < iHalf ==> SharedOk(src, dst, cs, h, n, b)
      {
        NewHeadsApart(src, dst, cs, n, iHalf, b);
        assert b > iHalf ==> old@before(UnsplitOk(src, cs, h, n, b));
        assert b < iHalf ==> old@before(SharedOk(src, dst, cs, h, n, b));
      }
    }
  }

  // New heads i and i + n are none of the objects of old bucket b, and no other new heads.
  lemma NewHeadsApart(src: seq<RNode>, dst: seq<RNode>, cs: seq<seq<RNode>>, n: nat, i: nat, b: nat)
    requires Apart(src, dst, cs, n) && i < n && b < n
    ensures dst[i] != dst[i + n] && dst[i] != src[b] && dst[i + n] != src[b] && dst[i] !in cs[b] && dst[i + n] !in cs[b]
    ensures forall x {:trigger cs[b][x]} :: 0 <= x < |cs[b]| ==> cs[b][x] != dst[i] && cs[b][x] != dst[i + n]
    ensures b != i ==> dst[i] != dst[b] && dst[i] != dst[b + n] && dst[i + n] != dst[b] && dst[i + n] != dst[b + n]
  {
    assert src[b] in src && dst[i] in dst && dst[i + n] in dst;
  }

  // What the expansion leaves behind: each new head starts the share of its bucket.
  lemma ExpandedLists(src: seq<RNode>, dst: seq<RNode>, cs: seq<seq<RNode>>, cuts: seq<nat>, h: map<RNode, nat>, n: nat)
    requires 0 < n == |src| == |cs| == |cuts| && |dst| == 2 * n
    requires forall b :: 0 <= b < n ==> cuts[b] == |cs[b]| && PairOk(src, dst, cs, cuts, h, n, b)
    ensures forall i :: 0 <= i < 2 * n ==> List(dst[i], ExpandChains(cs, h, n)[i])
  {
    hide List, Twinned, Keep, ExpandChains;
    forall i | 0 <= i < 2 * n ensures |ExpandChains(cs, h, n)| == 2 * n && List(dst[i], ExpandChains(cs, h, n)[i]) {
      var b := Half(i, n);
      assert cuts[b] == |cs[b]| && PairOk(src, dst, cs, cuts, h, n, b);
      TwinnedDone(dst[b], dst[b + n], cs[b], h, n, b);
      ExpandedAt(cs, h, n, i);
    }
  }

  // ----- shrinking -----

  ghost predicate TwoLists(src: seq<RNode>, cs: seq<seq<RNode>>, n: nat, b: nat)
    requires 2 * n == |src| == |cs| && b < n
    reads src[b], src[b + n], cs[b], cs[b + n]
  {
    List(src[b], cs[b]) && List(src[b + n], cs[b + n])
  }

  ghost predicate OneList(dst: seq<RNode>, cs: seq<seq<RNode>>, n: nat, b: nat)
    requires 2 * n == |cs| && b < n == |dst|
    reads dst[b], cs[b], cs[b + n]
  {
    List(dst[b], cs[b] + cs[b + n])
  }

  // The loop of shrinkBucketsByFac2ReturnOld
  method JoinBuckets(src: seq<RNode>, dst: seq<RNode>, n: nat, ghost cs: seq<seq<RNode>>)
    requires 2 * n == |src| == |cs| && |dst| == n && Separate(src, dst, cs)
    requires forall b :: 0 <= b < n ==> TwoLists(src, cs, n, b)
    modifies dst, Nodes(cs)
    ensures forall b :: 0 <= b < n ==> OneList(dst, cs, n, b)
    ensures forall x :: x in Nodes(cs) ==> x.hash == old(x.hash)
  {
    hide List, Separate, Distinct;
    for iHalf := 0 to n
      invariant forall b :: iHalf <= b < n ==> TwoLists(src, cs, n, b)
      invariant forall b :: 0 <= b < iHalf ==> OneList(dst, cs, n, b)
      invariant forall x :: x in Nodes(cs) ==> x.hash == old(x.hash)
    {
      assert TwoLists(src, cs, n, iHalf) && dst[iHalf] in dst;
      NodesHave(cs, iHalf);
      JoinApart(src, dst, cs, n, iHalf, iHalf);
      label before:
      ShrinkTwoBucketsToOne(src[iHalf], src[iHalf + n], dst[iHalf], cs[iHalf], cs[iHalf + n]);
      forall b | 0 <= b < n && b != iHalf
        ensures b > iHalf ==> TwoLists(src, cs, n, b)
        ensures b < iHalf ==> OneList(dst, cs, n, b)
      {
        JoinApart(src, dst, cs, n, iHalf, b);
        assert b > iHalf ==> old@before(TwoLists(src, cs, n, b));
        assert b < iHalf ==> old@before(OneList(dst, cs, n, b));
      }
    }
  }

  // What joining bucket pair i touches, dst[i] and chain i, belongs to no other pair b.
  lemma JoinApart(src: seq<RNode>, dst: seq<RNode>, cs: seq<seq<RNode>>, n: nat, i: nat, b: nat)
    requires 2 * n == |src| == |cs| && |dst| == n && Separate(src, dst, cs) && i < n && b < n
    ensures dst[i] !in cs[b] && dst[i] !in cs[b + n] && dst[i] != src[b] && dst[i] != src[b + n] && src[i] != src[i + n]
    ensures src[b] !in cs[i] && src[b + n] !in cs[i] && dst[b] !in cs[i] && src[i] !in cs[b + n]
    ensures forall x {:trigger cs[b + n][x]} :: 0 <= x < |cs[b + n]| ==> cs[b + n][x] !in cs[i]
    ensures forall x {:trigger cs[i][x]} :: 0 <= x < |cs[i]| ==> cs[i][x] !in cs[b + n]
    ensures i != b ==> dst[i] != dst[b] && (forall x {:trigger cs[b][x]} :: 0 <= x < |cs[b]| ==> cs[b][x] !in cs[i])
  {
    assert dst[i] in dst && dst[b] in dst && src[b] in src && src[b + n] in src && src[i] in src && src[i + n] in src;
    var e := cs[b + n];
    forall x | 0 <= x < |e| ensures e[x] !in cs[i] { assert e[x] in e; }
  }
}
