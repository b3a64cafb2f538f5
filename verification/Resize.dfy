// The list surgery of a resize, on real nodes: one bucket or one pair of buckets at a time.
module Resize {
  import opened Bits
  import opened Chains
  import opened SList

  // computeHashBucketId, with mask n - 1
  function BucketId(p: RNode, n: nat): nat
    requires n > 0
    reads p
  {
    BucketOf(p.hash, n)
  }

  // h records the hash values of the nodes of c.
  ghost predicate Hashed(c: seq<RNode>, h: map<RNode, nat>)
    reads c
  {
    forall l :: l in c ==> l in h && h[l] == l.hash
  }

  // c has nodes of bucket b and b + n of 2 * n buckets only.
  ghost predicate TwoWay(c: seq<RNode>, h: map<RNode, nat>, n: nat, b: nat)
    requires n > 0
  {
    forall l :: l in c ==> Class(h, l, 2 * n) == b || Class(h, l, 2 * n) == b + n
  }

  ghost predicate Cut(c: seq<RNode>, k: nat, h: map<RNode, nat>, n: nat)
    requires n > 0
  {
    k <= |c| && (k < |c| ==> k > 0 && Class(h, c[k - 1], 2 * n) != Class(h, c[k], 2 * n))
  }

  // The jump pointer kept in the old head while chain c is cut at k.
  function Jump(c: seq<RNode>, k: nat): RNode?
    requires k <= |c|
  {
    if 0 < k < |c| then c[k - 1] else null
  }

  // The two new buckets of old chain c when its first k nodes are unzipped.
  ghost predicate Twinned(d0: RNode, d1: RNode, c: seq<RNode>, k: nat, h: map<RNode, nat>, n: nat, b: nat)
    requires n > 0
    reads d0, d1, c
  {
    && Cut(c, k, h, n) && Distinct(c) && Hashed(c, h) && TwoWay(c, h, n, b)
    && d0 != d1 && d0 !in c && d1 !in c
    && d0.next == First(Mix(h, c, k, 2 * n, b)) && d1.next == First(Mix(h, c, k, 2 * n, b + n))
    && MixRuns(c, k, h, n, b) && MixRuns(c, k, h, n, b + n)
  }

  ghost predicate MixRuns(c: seq<RNode>, k: nat, h: map<RNode, nat>, n: nat, t: nat)
    requires n > 0 && k <= |c|
    reads c
  {
    var s := Mix(h, c, k, 2 * n, t);
    forall i {:trigger s[i].next} :: 0 <= i < |s| ==> s[i] in c && s[i].next == Succ(s, i)
  }

  // When everything is unzipped, the two new lists are the two shares of the old chain.
  lemma TwinnedDone(d0: RNode, d1: RNode, c: seq<RNode>, h: map<RNode, nat>, n: nat, b: nat)
    requires n > 0 && Twinned(d0, d1, c, |c|, h, n, b)
    ensures List(d0, Keep(h, c, 2 * n, b)) && List(d1, Keep(h, c, 2 * n, b + n))
  {
    assert c[..|c|] == c && c[|c|..] == [];
    forall t | t == b || t == b + n
      ensures Mix(h, c, |c|, 2 * n, t) == Keep(h, c, 2 * n, t) && Distinct(Keep(h, c, 2 * n, t))
      ensures d0 !in Keep(h, c, 2 * n, t) && d1 !in Keep(h, c, 2 * n, t)
    {
      KeepDistinct(h, c, 2 * n, t);
      KeepMember(h, c, 2 * n, t, d0);
      KeepMember(h, c, 2 * n, t, d1);
    }
  }

  // ----- initTwinDstBuckets -----

  // The first node of class t in c, or null.
  ghost function FirstWith(c: seq<RNode>, h: map<RNode, nat>, n: nat, t: nat): RNode?
    requires n > 0
  {
    if c == [] then null else if Class(h, c[0], n) == t then c[0] else FirstWith(c[1..], h, n, t)
  }

  lemma {:induction false} FirstWithSplit(c: seq<RNode>, h: map<RNode, nat>, n: nat, t: nat) returns (x: nat)
    requires n > 0
    ensures x <= |c| && FirstWith(c, h, n, t) == First(c[x..])
    ensures forall y :: 0 <= y < x ==> Class(h, c[y], n) != t
    ensures x < |c| ==> Class(h, c[x], n) == t
  {
    if c == [] || Class(h, c[0], n) == t {
      x := 0;
    } else {
      x := FirstWithSplit(c[1..], h, n, t);
      assert c[x + 1..] == c[1..][x..];
      forall y | 0 <= y < x + 1 ensures Class(h, c[y], n) != t {
        if y > 0 { assert c[y] == c[1..][y - 1]; }
      }
      x := x + 1;
    }
  }

  method InitTwinDstBuckets(src: RNode, dst0: RNode, dst1: RNode, n: nat, b: nat, ghost c: seq<RNode>,
                            ghost h: map<RNode, nat>)
    requires n > 0 && List(src, c) && Hashed(c, h) && TwoWay(c, h, n, b)
    requires dst0 != dst1 && dst0 != src && dst1 != src && dst0 !in c && dst1 !in c
    modifies dst0`next, dst1`next
    ensures dst0.next == FirstWith(c, h, 2 * n, b) && dst1.next == FirstWith(c, h, 2 * n, b + n)
  {
    var first0: RNode?, first1: RNode? := null, null;
    var p := src.next;
    ghost var i := 0;
    while p != null
      invariant i <= |c| && p == (if i < |c| then c[i] else null)
      invariant FirstWith(c, h, 2 * n, b) == if first0 != null then first0 else FirstWith(c[i..], h, 2 * n, b)
      invariant FirstWith(c, h, 2 * n, b + n) == if first1 != null then first1 else FirstWith(c[i..], h, 2 * n, b + n)
      decreases |c| - i
    {
      var bucketId := BucketId(p, 2 * n);
      assert bucketId == Class(h, p, 2 * n);
      assert bucketId == b || bucketId == b + n;
      if first0 == null && bucketId == b {
        first0 := p;
      } else if first1 == null && bucketId == b + n {
        first1 := p;
      }
      if first0 != null && first1 != null {
        break;
      }
      assert c[i..][1..] == c[i + 1..];
      p, i := p.next, i + 1;
    }
    dst0.next := first0;
    dst1.next := first1;
  }

  // Starting each new bucket at the first of its nodes shares the whole old chain, cut behind
  // its first segment.
  lemma TwinsShare(d0: RNode, d1: RNode, c: seq<RNode>, h: map<RNode, nat>, n: nat, b: nat)
    requires n > 0 && Distinct(c) && Runs(c) && Hashed(c, h) && TwoWay(c, h, n, b)
    requires d0 != d1 && d0 !in c && d1 !in c
    requires d0.next == FirstWith(c, h, 2 * n, b) && d1.next == FirstWith(c, h, 2 * n, b + n)
    ensures Twinned(d0, d1, c, FirstLen(h, c, 2 * n), h, n, b)
  {
    if c != [] {
      SegLenIs(h, c, 2 * n, Class(h, c[0], 2 * n));
    }
    ShareOne(c, h, n, b, b);
    ShareOne(c, h, n, b, b + n);
  }

  lemma ShareOne(c: seq<RNode>, h: map<RNode, nat>, n: nat, b: nat, t: nat)
    requires n > 0 && Runs(c) && TwoWay(c, h, n, b) && (t == b || t == b + n) && Cut(c, FirstLen(h, c, 2 * n), h, n)
    ensures FirstWith(c, h, 2 * n, t) == First(Mix(h, c, FirstLen(h, c, 2 * n), 2 * n, t))
    ensures MixRuns(c, FirstLen(h, c, 2 * n), h, n, t)
  {
    var x := FirstWithSplit(c, h, 2 * n, t);
    ShareIsTail(c, h, n, b, t, x);
    var s := c[x..];
    forall i | 0 <= i < |s| ensures s[i] in c && s[i].next == Succ(s, i) {
      assert s[i] == c[x + i] && c[x + i].next == Succ(c, x + i);
    }
  }

  // The share of bucket t starts at its first node and goes on to the end.
  lemma ShareIsTail(c: seq<RNode>, h: map<RNode, nat>, n: nat, b: nat, t: nat, x: nat)
    requires n > 0 && TwoWay(c, h, n, b) && (t == b || t == b + n) && Cut(c, FirstLen(h, c, 2 * n), h, n)
    requires x <= |c| && (forall y :: 0 <= y < x ==> Class(h, c[y], 2 * n) != t)
             && (x < |c| ==> Class(h, c[x], 2 * n) == t)
    ensures Mix(h, c, FirstLen(h, c, 2 * n), 2 * n, t) == c[x..]
  {
    var k, t' := FirstLen(h, c, 2 * n), b + b + n - t;
    if c != [] {
      SegLenIs(h, c, 2 * n, Class(h, c[0], 2 * n));
    }
    assert forall y :: 0 <= y < |c| ==> c[y] in c;
    var pre, rest := c[..x], c[x..];
    assert c == pre + rest;
    assert forall y :: 0 <= y < |pre| ==> pre[y] == c[y];
    FirstOfClass(h, c, k, 2 * n, t, t', pre, rest);
  }

  // ----- findFirstUnzipPoint -----

  method FindFirstUnzipPoint(src: RNode, n: nat, ghost c: seq<RNode>, ghost h: map<RNode, nat>) returns (p: RNode?)
    requires n > 0 && List(src, c) && Hashed(c, h) && src.next != null
    modifies src`next
    ensures FirstLen(h, c, 2 * n) <= |c| && p == Jump(c, FirstLen(h, c, 2 * n)) && src.next == p
  {
    p := src.next;
    var hashBucketInitial := BucketId(p, 2 * n);
    ghost var i := 0;
    ghost var k := FirstLen(h, c, 2 * n);
    SegLenIs(h, c, 2 * n, Class(h, c[0], 2 * n));
    assert k > 0;
    while true
      invariant 0 <= i < |c| && i < k && p == c[i]
      decreases |c| - i
    {
      var pNext := p.next;
      if pNext == null {
        p := null;
        break;
      }
      if BucketId(pNext, 2 * n) != hashBucketInitial {
        break;
      }
      p, i := pNext, i + 1;
    }
    src.next := p;
  }

  // ----- unzipOneSegment -----

  // The cut after one more segment.
  ghost function NextCut(c: seq<RNode>, k: nat, h: map<RNode, nat>, n: nat): nat
    requires n > 0 && 0 < k < |c|
  {
    k + SegLen(h, c[k..], 2 * n, Class(h, c[k], 2 * n))
  }

  lemma NextCutIs(c: seq<RNode>, k: nat, h: map<RNode, nat>, n: nat, b: nat)
    requires n > 0 && 0 < k < |c| && Cut(c, k, h, n) && TwoWay(c, h, n, b)
    ensures k < NextCut(c, k, h, n) <= |c| && Cut(c, NextCut(c, k, h, n), h, n)
    ensures forall x :: k <= x < NextCut(c, k, h, n) ==>
              Class(h, c[x], 2 * n) != Class(h, c[k - 1], 2 * n) && Class(h, c[x], 2 * n) == Class(h, c[k], 2 * n)
    ensures NextCut(c, k, h, n) < |c| ==> Class(h, c[NextCut(c, k, h, n)], 2 * n) == Class(h, c[k - 1], 2 * n)
  {
    var k2 := NextCut(c, k, h, n);
    SegLenIs(h, c[k..], 2 * n, Class(h, c[k], 2 * n));
    assert c[k..][0] == c[k];
    forall x | k <= x < k2 ensures Class(h, c[x], 2 * n) == Class(h, c[k], 2 * n) {
      assert c[x] == c[k..][x - k];
    }
    if k2 < |c| {
      assert c[k2] == c[k..][k2 - k];
      assert c[k2] in c && c[k - 1] in c && c[k] in c;
    }
  }

  // Behind the jump start the old chain is still linked as it was.
  lemma TailRuns(c: seq<RNode>, k: nat, h: map<RNode, nat>, n: nat, b: nat)
    requires n > 0 && 0 < k <= |c| && TwoWay(c, h, n, b) && MixRuns(c, k, h, n, b) && MixRuns(c, k, h, n, b + n)
    ensures forall x {:trigger c[x].next} :: k - 1 <= x < |c| ==> c[x].next == Succ(c, x)
  {
    assert c[k - 1] in c;
    var t := Class(h, c[k - 1], 2 * n);
    assert MixRuns(c, k, h, n, t);
    KeepLast(h, c, k, 2 * n, t);
    var own, s := Keep(h, c[..k], 2 * n, t), Mix(h, c, k, 2 * n, t);
    assert s == own + c[k..];
    forall x | k - 1 <= x < |c| ensures c[x].next == Succ(c, x) {
      var y := |own| + x - k;
      assert s[y] == c[x] && s[y].next == Succ(s, y);
    }
  }

  // What the one reader-visible store does to the new bucket of class t.
  lemma MixAfterStore(c: seq<RNode>, k: nat, k2: nat, h: map<RNode, nat>, n: nat, t: nat)
    requires n > 0 && 0 < k < k2 <= |c| && Distinct(c)
    requires forall x :: k <= x < k2 ==> (Class(h, c[x], 2 * n) == t) == (Class(h, c[k - 1], 2 * n) != t)
    ensures var s, s2, a := Mix(h, c, k, 2 * n, t), Mix(h, c, k2, 2 * n, t), c[k - 1];
            && First(s2) == First(s)
            && (Class(h, a, 2 * n) != t ==> s2 == s && a !in s)
            && (Class(h, a, 2 * n) == t ==>
                  forall i :: 0 <= i < |s2| ==>
                    if s2[i] == a then Succ(s2, i) == (if k2 < |c| then c[k2] else null)
                    else exists j :: 0 <= j < |s| && s[j] == s2[i] && Succ(s, j) == Succ(s2, i))
  {
    var s, s2, a := Mix(h, c, k, 2 * n, t), Mix(h, c, k2, 2 * n, t), c[k - 1];
    var own := Keep(h, c[..k], 2 * n, t);
    forall l | l in c[k..k2] ensures (Class(h, l, 2 * n) == t) == (Class(h, a, 2 * n) != t) {
      var x :| 0 <= x < k2 - k && c[k..k2][x] == l;
      assert c[k + x] == l;
    }
    if Class(h, a, 2 * n) == t {
      MixDrop(h, c, k, k2, 2 * n, t);
      KeepLast(h, c, k, 2 * n, t);
      KeepDistinct(h, c[..k], 2 * n, t);
      assert s == own + c[k..] && s2 == own + c[k2..];
      NotInRest(c, k, k2);
      forall i | 0 <= i < |s2|
        ensures if s2[i] == a then Succ(s2, i) == (if k2 < |c| then c[k2] else null)
                else exists j :: 0 <= j < |s| && s[j] == s2[i] && Succ(s, j) == Succ(s2, i)
      {
        if i < |own| {
          assert own[|own| - 1] == a;
          if i < |own| - 1 {
            assert own[i] != a;
            assert s[i] == s2[i] && Succ(s, i) == Succ(s2, i);
          }
        } else {
          var j := i + k2 - k;
          assert s2[i] == c[k2..][i - |own|] && s2[i] in c[k2..];
          assert s[j] == s2[i] && Succ(s, j) == Succ(s2, i);
        }
      }
    } else {
      MixSame(h, c, k, k2, 2 * n, t);
      NotInRest(c, k, k);
      KeepMember(h, c[..k], 2 * n, t, a);
    }
  }

  // was gives the links before the store, the heap those after it.
  lemma MixStored(c: seq<RNode>, k: nat, k2: nat, h: map<RNode, nat>, n: nat, b: nat, t: nat, was: map<RNode, RNode?>)
    requires n > 0 && 0 < k < |c| && Cut(c, k, h, n) && Distinct(c) && TwoWay(c, h, n, b) && (t == b || t == b + n)
    requires k2 == NextCut(c, k, h, n) && k2 <= |c|
    requires forall l :: l in c ==>
               l in was && l.next == if l == c[k - 1] then (if k2 < |c| then c[k2] else null) else was[l]
    requires RanAlong(Mix(h, c, k, 2 * n, t), c, was)
    ensures MixRuns(c, k2, h, n, t) && First(Mix(h, c, k2, 2 * n, t)) == First(Mix(h, c, k, 2 * n, t))
  {
    var a := c[k - 1];
    NextCutIs(c, k, h, n, b);
    assert a in c && c[k] in c;
    MixAfterStore(c, k, k2, h, n, t);
    var s, s2 := Mix(h, c, k, 2 * n, t), Mix(h, c, k2, 2 * n, t);
    forall i | 0 <= i < |s2| ensures s2[i] in c && s2[i].next == Succ(s2, i) {
      MixMember(h, c, k2, 2 * n, t, s2[i]);
      if s2[i] != a && Class(h, a, 2 * n) == t {
        var j :| 0 <= j < |s| && s[j] == s2[i] && Succ(s, j) == Succ(s2, i);
        assert RanAt(s, c, was, j);
      } else if s2[i] != a {
        assert RanAt(s, c, was, i);
      }
    }
  }

  ghost predicate RanAt(s: seq<RNode>, c: seq<RNode>, was: map<RNode, RNode?>, i: nat)
    requires i < |s|
  {
    s[i] in c && s[i] in was && was[s[i]] == Succ(s, i)
  }

  ghost predicate RanAlong(s: seq<RNode>, c: seq<RNode>, was: map<RNode, RNode?>) {
    forall i :: 0 <= i < |s| ==> RanAt(s, c, was, i)
  }

  lemma MixSnapshot(c: seq<RNode>, k: nat, h: map<RNode, nat>, n: nat, t: nat, was: map<RNode, RNode?>)
    requires n > 0 && k <= |c| && MixRuns(c, k, h, n, t) && forall l :: l in c ==> l in was && was[l] == l.next
    ensures RanAlong(Mix(h, c, k, 2 * n, t), c, was)
  {
    var s := Mix(h, c, k, 2 * n, t);
    forall i | 0 <= i < |s| ensures RanAt(s, c, was, i) {
      assert s[i].next == Succ(s, i);
    }
  }

  // The walk of unzipOneSegment: the last node of the segment behind the jump start (null when
  // nothing follows that segment), and what follows it.
  method WalkSegment(jumpStart: RNode, n: nat, ghost c: seq<RNode>, ghost k: nat, ghost h: map<RNode, nat>,
                     ghost b: nat)
    returns (nextJumpStart: RNode?, pNext: RNode?)
    requires n > 0 && 0 < k < |c| && Cut(c, k, h, n) && TwoWay(c, h, n, b) && Hashed(c, h) && jumpStart == c[k - 1]
    requires forall x {:trigger c[x].next} :: k - 1 <= x < |c| ==> c[x].next == Succ(c, x)
    ensures k < NextCut(c, k, h, n) <= |c| && nextJumpStart == Jump(c, NextCut(c, k, h, n))
    ensures pNext == if NextCut(c, k, h, n) < |c| then c[NextCut(c, k, h, n)] else null
  {
    ghost var k2 := NextCut(c, k, h, n);
    NextCutIs(c, k, h, n, b);
    assert jumpStart in c && c[k] in c;
    assert jumpStart.next != null;
    var jumpStartBucketId := BucketId(jumpStart, 2 * n);
    nextJumpStart := jumpStart.next;
    assert BucketId(nextJumpStart, 2 * n) != jumpStartBucketId;
    ghost var x := k;
    while true
      invariant k <= x < k2 && nextJumpStart == c[x]
      decreases |c| - x
    {
      pNext := nextJumpStart.next;
      if pNext == null {
        nextJumpStart := null;
        break;
      }
      assert pNext == c[x + 1] && c[x + 1] in c;
      if BucketId(pNext, 2 * n) == jumpStartBucketId {
        break;
      }
      nextJumpStart, x := pNext, x + 1;
    }
  }

  method UnzipOneSegment(zipStart: RNode, n: nat, ghost d0: RNode, ghost d1: RNode, ghost c: seq<RNode>, ghost k: nat,
                         ghost h: map<RNode, nat>, ghost b: nat)
    requires n > 0 && Twinned(d0, d1, c, k, h, n, b) && 0 < k < |c| && zipStart.next == c[k - 1]
    requires zipStart !in c && zipStart != d0 && zipStart != d1
    modifies zipStart`next, zipStart.next`next
    ensures k < NextCut(c, k, h, n) <= |c| && Twinned(d0, d1, c, NextCut(c, k, h, n), h, n, b)
    ensures zipStart.next == Jump(c, NextCut(c, k, h, n))
  {
    var jumpStart: RNode := zipStart.next;
    assert jumpStart in c;
    TailRuns(c, k, h, n, b);
    var nextJumpStart, pNext := WalkSegment(jumpStart, n, c, k, h, b);
    ghost var was := map l | l in c :: l.next;
    MixSnapshot(c, k, h, n, b, was);
    MixSnapshot(c, k, h, n, b + n, was);
    zipStart.next := nextJumpStart;
    jumpStart.next := pNext;
    TwinnedStored(d0, d1, c, k, h, n, b, was);
  }

  lemma TwinnedStored(d0: RNode, d1: RNode, c: seq<RNode>, k: nat, h: map<RNode, nat>, n: nat, b: nat,
                      was: map<RNode, RNode?>)
    requires n > 0 && 0 < k < |c| && NextCut(c, k, h, n) <= |c|
    requires Cut(c, k, h, n) && Distinct(c) && Hashed(c, h) && TwoWay(c, h, n, b) && d0 != d1 && d0 !in c && d1 !in c
    requires d0.next == First(Mix(h, c, k, 2 * n, b)) && d1.next == First(Mix(h, c, k, 2 * n, b + n))
    requires RanAlong(Mix(h, c, k, 2 * n, b), c, was) && RanAlong(Mix(h, c, k, 2 * n, b + n), c, was)
    requires forall l :: l in c ==>
               (l in was && l.next ==
                            if l == c[k - 1] then (if NextCut(c, k, h, n) < |c| then c[NextCut(c, k, h, n)] else null)
                            else was[l])
    ensures Twinned(d0, d1, c, NextCut(c, k, h, n), h, n, b)
  {
    var k2 := NextCut(c, k, h, n);
    NextCutIs(c, k, h, n, b);
    MixStored(c, k, k2, h, n, b, b, was);
    MixStored(c, k, k2, h, n, b, b + n, was);
  }

  // ----- shrinkTwoBucketsToOne -----

  // The search for the last element of a nonempty list
  method FindLast(first: RNode, ghost src: RNode, ghost c: seq<RNode>) returns (last: RNode)
    requires List(src, c) && src.next == first
    ensures c != [] && last == c[|c| - 1] && forall x :: 0 <= x < |c| - 1 ==> c[x] != last
  {
    last := first;
    ghost var i := 0;
    while true
      invariant i < |c| && last == c[i]
      decreases |c| - i
    {
      var pNext := last.next;
      if pNext == null {
        break;
      }
      last, i := pNext, i + 1;
    }
  }

  method ShrinkTwoBucketsToOne(src0: RNode, src1: RNode, dst: RNode, ghost c0: seq<RNode>, ghost c1: seq<RNode>)
    requires List(src0, c0) && List(src1, c1) && (forall l :: l in c0 ==> l !in c1)
    requires src0 !in c1 && src1 !in c0 && dst !in c0 && dst !in c1 && dst != src0 && dst != src1 && src0 != src1
    modifies dst`next, c0
    ensures List(dst, c0 + c1)
    ensures src0.next == First(c0) && src1.next == First(c1)
    ensures forall l :: l in c0 ==> l.hash == old(l.hash)
    // readers of the old buckets meet everything they met before
    ensures List(src1, c1) && List(src0, if c0 == [] then [] else c0 + c1)
  {
    hide Distinct, Runs;
    var src0First, src1First := src0.next, src1.next;
    if src1First == null {
      dst.next := src0First;
      assert c1 == [] && c0 + c1 == c0 && List(dst, c0) && List(src0, c0);
      return;
    }
    if src0First == null {
      dst.next := src1First;
      assert c0 == [] && c0 + c1 == c1 && List(dst, c1) && List(src0, c0);
      return;
    }
    var src0Last := FindLast(src0First, src0, c0);
    RunsLinks(c0);
    assert src0Last in c0;
    src0Last.next := src1First;
    dst.next := src0First;
    assert Runs(c1);
    Joined(c0, c1);
  }

  lemma RunsLinks(c: seq<RNode>)
    requires Runs(c)
    ensures forall x {:trigger c[x].next} :: 0 <= x < |c| ==> c[x].next == Succ(c, x)
  {
  }

  // A list whose last node points to the first node of another is one list.
  lemma Joined(c0: seq<RNode>, c1: seq<RNode>)
    requires c0 != [] && Distinct(c0) && Distinct(c1) && Runs(c1) && forall l :: l in c0 ==> l !in c1
    requires forall x {:trigger c0[x].next} :: 0 <= x < |c0| ==>
               c0[x].next == if x + 1 < |c0| then c0[x + 1] else First(c1)
    ensures Runs(c0 + c1) && Distinct(c0 + c1)
  {
    var c := c0 + c1;
    forall x | 0 <= x < |c| ensures c[x].next == Succ(c, x) {
      if x < |c0| {
        assert c[x] == c0[x];
      } else {
        assert c[x] == c1[x - |c0|];
      }
    }
    forall i, j | 0 <= i < j < |c| ensures c[i] != c[j] {
      assert i < |c0| <= j ==> c[i] in c0 && c[j] in c1;
    }
  }
}
