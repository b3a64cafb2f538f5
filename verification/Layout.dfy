// The layout of the whole table: which chain holds which node, and what a resize does to it.
module Layout {
  import opened Bits
  import opened Chains

  // Chain b holds only nodes whose hash selects bucket b, each once.
  ghost predicate InBucket<T>(c: seq<T>, h: map<T, nat>, n: nat, b: nat)
    requires n > 0
  {
    Distinct(c) && forall x :: x in c ==> x in h && Class(h, x, n) == b
  }

  // Node x is in the chain its hash selects.
  ghost predicate Home<T>(cs: seq<seq<T>>, h: map<T, nat>, n: nat, x: T)
    requires n > 0
  {
    Class(h, x, n) < |cs| && x in cs[Class(h, x, n)]
  }

  // The n chains hold exactly the nodes of h, each in the bucket of its hash.
  ghost predicate Placed<T>(cs: seq<seq<T>>, h: map<T, nat>, n: nat) {
    && IsPow2(n) && |cs| == n
    && (forall b :: 0 <= b < n ==> InBucket(cs[b], h, n, b))
    && (forall x :: x in h ==> Home(cs, h, n, x))
  }

  ghost function EmptyChains<T>(n: nat): seq<seq<T>> {
    seq(n, _ => [])
  }

  lemma PlacedEmpty<T>(n: nat)
    requires IsPow2(n)
    ensures Placed<T>(EmptyChains(n), map[], n)
  {
  }

  // ----- resizing -----

  // Every new chain is the stable filter of its old chain.
  ghost function ExpandChains<T>(cs: seq<seq<T>>, h: map<T, nat>, n: nat): seq<seq<T>>
    requires n == |cs| > 0
  {
    seq(2 * n, i requires 0 <= i < 2 * n => Keep(h, cs[Half(i, n)], 2 * n, i))
  }

  // Every new chain is its two old chains, one behind the other.
  ghost function ShrinkChains<T>(cs: seq<seq<T>>, n: nat): seq<seq<T>>
    requires 2 * n == |cs|
  {
    seq(n, b requires 0 <= b < n => cs[b] + cs[b + n])
  }

  lemma ClassSplits<T>(h: map<T, nat>, x: T, n: nat)
    requires IsPow2(n)
    ensures IsPow2(2 * n) && Class(h, x, n) < n
    ensures Class(h, x, 2 * n) == Class(h, x, n) || Class(h, x, 2 * n) == Class(h, x, n) + n
    ensures Class(h, x, 2 * n) < 2 * n && Half(Class(h, x, 2 * n), n) == Class(h, x, n)
  {
    BucketSplits(if x in h then h[x] else 0, n);
  }

  // No node is lost, duplicated or misplaced by an expansion ...
  lemma ExpandPlaces<T>(cs: seq<seq<T>>, h: map<T, nat>, n: nat)
    requires Placed(cs, h, n)
    ensures Placed(ExpandChains(cs, h, n), h, 2 * n)
  {
    var ds := ExpandChains(cs, h, n);
    assert (2 * n) / 2 == n;
    forall i | 0 <= i < 2 * n ensures InBucket(ds[i], h, 2 * n, i) {
      var c := cs[Half(i, n)];
      assert InBucket(c, h, n, Half(i, n));
      KeepDistinct(h, c, 2 * n, i);
      forall x | x in ds[i] ensures x in h && Class(h, x, 2 * n) == i {
        KeepMember(h, c, 2 * n, i, x);
      }
    }
    forall x | x in h ensures Home(ds, h, 2 * n, x) {
      assert Home(cs, h, n, x);
      ClassSplits(h, x, n);
      KeepMember(h, cs[Class(h, x, n)], 2 * n, Class(h, x, 2 * n), x);
    }
  }

  // ... or by a shrink.
  lemma ShrinkPlaces<T>(cs: seq<seq<T>>, h: map<T, nat>, n: nat)
    requires n > 0 && Placed(cs, h, 2 * n)
    ensures Placed(ShrinkChains(cs, n), h, n)
  {
    var ds := ShrinkChains(cs, n);
    assert IsPow2(n) by { assert (2 * n) / 2 == n; }
    forall b | 0 <= b < n ensures InBucket(ds[b], h, n, b) {
      assert InBucket(cs[b], h, 2 * n, b) && InBucket(cs[b + n], h, 2 * n, b + n);
      forall x | x in ds[b] ensures x in h && Class(h, x, n) == b {
        ClassSplits(h, x, n);
      }
      forall i, j | 0 <= i < j < |ds[b]| ensures ds[b][i] != ds[b][j] {
        if i < |cs[b]| <= j {
          assert ds[b][i] in cs[b] && ds[b][j] in cs[b + n];
        }
      }
    }
    forall x | x in h ensures Home(ds, h, n, x) {
      assert Home(cs, h, 2 * n, x);
      ClassSplits(h, x, n);
    }
  }

  // Two parts of different classes, one behind the other, are told apart again by filtering.
  lemma KeepParts<T>(h: map<T, nat>, lo: seq<T>, hi: seq<T>, n: nat, t: nat, u: nat)
    requires n > 0 && t != u
    requires (forall x :: x in lo ==> Class(h, x, n) == t) && (forall x :: x in hi ==> Class(h, x, n) == u)
    ensures Keep(h, lo + hi, n, t) == lo && Keep(h, lo + hi, n, u) == hi
  {
    KeepConcat(h, lo, hi, n, t);
    KeepConcat(h, lo, hi, n, u);
    KeepAll(h, lo, n, t);
    KeepNone(h, hi, n, t);
    KeepNone(h, lo, n, u);
    KeepAll(h, hi, n, u);
  }

  lemma ShrunkAt<T>(cs: seq<seq<T>>, n: nat, b: nat)
    requires 2 * n == |cs| && b < n
    ensures |ShrinkChains(cs, n)| == n && ShrinkChains(cs, n)[b] == cs[b] + cs[b + n]
  {
  }

  lemma ExpandedAt<T>(cs: seq<seq<T>>, h: map<T, nat>, n: nat, i: nat)
    requires n == |cs| > 0 && i < 2 * n
    ensures |ExpandChains(cs, h, n)| == 2 * n && ExpandChains(cs, h, n)[i] == Keep(h, cs[Half(i, n)], 2 * n, i)
  {
  }

  lemma PlacedClass<T>(cs: seq<seq<T>>, h: map<T, nat>, n: nat, b: nat)
    requires Placed(cs, h, n) && b < n
    ensures forall x :: x in cs[b] ==> Class(h, x, n) == b
  {
    assert InBucket(cs[b], h, n, b);
  }

  lemma PlacedIn<T>(cs: seq<seq<T>>, h: map<T, nat>, n: nat)
    requires Placed(cs, h, n)
    ensures forall b, i :: 0 <= b < n && 0 <= i < |cs[b]| ==> cs[b][i] in h
  {
    forall b, i | 0 <= b < n && 0 <= i < |cs[b]| ensures cs[b][i] in h {
      assert InBucket(cs[b], h, n, b) && cs[b][i] in cs[b];
    }
  }

  lemma PlacedTwoWay<T>(cs: seq<seq<T>>, h: map<T, nat>, n: nat, b: nat)
    requires Placed(cs, h, n) && b < n
    ensures forall x :: x in cs[b] ==> x in h && (Class(h, x, 2 * n) == b || Class(h, x, 2 * n) == b + n)
  {
    assert InBucket(cs[b], h, n, b);
    forall x | x in cs[b] ensures Class(h, x, 2 * n) == b || Class(h, x, 2 * n) == b + n {
      ClassSplits(h, x, n);
    }
  }

  // Expanding what was shrunk restores every chain exactly.
  lemma ExpandUndoesShrink<T>(cs: seq<seq<T>>, h: map<T, nat>, n: nat)
    requires n > 0 && Placed(cs, h, 2 * n)
    ensures |ShrinkChains(cs, n)| == n && ExpandChains(ShrinkChains(cs, n), h, n) == cs
  {
    var es := ExpandChains(ShrinkChains(cs, n), h, n);
    forall i | 0 <= i < 2 * n ensures es[i] == cs[i] {
      var b := Half(i, n);
      ShrunkAt(cs, n, b);
      ExpandedAt(ShrinkChains(cs, n), h, n, i);
      PlacedClass(cs, h, 2 * n, b);
      PlacedClass(cs, h, 2 * n, b + n);
      KeepParts(h, cs[b], cs[b + n], 2 * n, b, b + n);
    }
  }

  // Shrinking what was expanded leaves each chain's nodes partitioned by the new hash bit, each
  // part in its old order.
  lemma ShrinkPartitions<T>(cs: seq<seq<T>>, h: map<T, nat>, n: nat, b: nat) returns (d: seq<T>)
    requires Placed(cs, h, n) && b < n
    ensures d == ShrinkChains(ExpandChains(cs, h, n), n)[b]
    ensures d == Keep(h, cs[b], 2 * n, b) + Keep(h, cs[b], 2 * n, b + n)
    ensures multiset(d) == multiset(cs[b])
  {
    PlacedTwoWay(cs, h, n, b);
    d := StablePartition(h, cs[b], 2 * n, b, b + n);
    ShrunkExpanded(cs, h, n, b);
  }

  lemma StablePartition<T>(h: map<T, nat>, c: seq<T>, n: nat, t: nat, u: nat) returns (d: seq<T>)
    requires n > 0 && t != u && forall x :: x in c ==> Class(h, x, n) == t || Class(h, x, n) == u
    ensures d == Keep(h, c, n, t) + Keep(h, c, n, u) && multiset(d) == multiset(c)
  {
    KeepBoth(h, c, n, t, u);
    d := Keep(h, c, n, t) + Keep(h, c, n, u);
  }

  lemma ShrunkExpanded<T>(cs: seq<seq<T>>, h: map<T, nat>, n: nat, b: nat)
    requires n == |cs| && b < n
    ensures ShrinkChains(ExpandChains(cs, h, n), n)[b] == Keep(h, cs[b], 2 * n, b) + Keep(h, cs[b], 2 * n, b + n)
  {
    ExpandedAt(cs, h, n, b);
    ExpandedAt(cs, h, n, b + n);
    ShrunkAt(ExpandChains(cs, h, n), n, b);
  }

  lemma {:induction false} KeepBoth<T>(h: map<T, nat>, s: seq<T>, n: nat, t: nat, u: nat)
    requires n > 0 && t != u && forall x :: x in s ==> Class(h, x, n) == t || Class(h, x, n) == u
    ensures multiset(Keep(h, s, n, t)) + multiset(Keep(h, s, n, u)) == multiset(s)
  {
    if s != [] {
      hide Keep, Class;
      var x, r := s[0], s[1..];
      assert s == [x] + r;
      KeepBoth(h, r, n, t, u);
      KeepHead(h, s, n, t);
      KeepHead(h, s, n, u);
    }
  }

  lemma KeepHead<T>(h: map<T, nat>, s: seq<T>, n: nat, t: nat)
    requires n > 0 && s != []
    ensures multiset(Keep(h, s, n, t)) == (if Class(h, s[0], n) == t then multiset{s[0]} else multiset{})
            + multiset(Keep(h, s[1..], n, t))
  {
  }

  // ----- one chain changes -----

  // x becomes the first node of chain b.
  function PushAt<T>(cs: seq<seq<T>>, b: nat, x: T): (r: seq<seq<T>>)
    ensures |r| == |cs|
  {
    if b < |cs| then cs[b := [x] + cs[b]] else cs
  }

  // Chain b loses its element i.
  function RemoveAt<T>(cs: seq<seq<T>>, b: nat, i: nat): (r: seq<seq<T>>)
    ensures |r| == |cs|
  {
    if b < |cs| && i < |cs[b]| then cs[b := Without(cs[b], i)] else cs
  }

  // p is the first node of chain b that satisfies the predicate, at position i.
  ghost predicate FirstMatch<T>(cs: seq<seq<T>>, b: nat, i: nat, p: T, predict: T -> bool) {
    b < |cs| && i < |cs[b]| && cs[b][i] == p && predict(p) && forall j :: 0 <= j < i ==> !predict(cs[b][j])
  }

  lemma PlacedAfterInsert<T>(cs: seq<seq<T>>, h: map<T, nat>, n: nat, x: T, hash: nat)
    requires Placed(cs, h, n) && x !in h
    ensures Placed(PushAt(cs, BucketOf(hash, n), x), h[x := hash], n)
  {
    BucketInRange(hash, n);
    var b, h2 := BucketOf(hash, n), h[x := hash];
    var ds := PushAt(cs, b, x);
    forall i | 0 <= i < n ensures InBucket(ds[i], h2, n, i) {
      assert InBucket(cs[i], h, n, i);
      assert forall y :: y in cs[i] ==> Class(h2, y, n) == Class(h, y, n);
    }
    forall y | y in h2 ensures Home(ds, h2, n, y) {
      if y != x {
        assert Home(cs, h, n, y) && Class(h2, y, n) == Class(h, y, n);
      }
    }
  }

  lemma PlacedAfterRemove<T>(cs: seq<seq<T>>, h: map<T, nat>, n: nat, b: nat, i: nat)
    requires Placed(cs, h, n) && b < n && i < |cs[b]|
    ensures Placed(RemoveAt(cs, b, i), h - {cs[b][i]}, n)
  {
    var x, ds := cs[b][i], RemoveAt(cs, b, i);
    var h2 := h - {x};
    assert InBucket(cs[b], h, n, b) && x in cs[b];
    forall j | 0 <= j < n ensures InBucket(ds[j], h2, n, j) {
      assert InBucket(cs[j], h, n, j);
      forall y | y in ds[j] ensures y in h2 && Class(h2, y, n) == j {
        if j == b { WithoutMember(cs[b], i, y); }
      }
      if j == b { WithoutMember(cs[b], i, x); }
    }
    forall y | y in h2 ensures Home(ds, h2, n, y) {
      assert Home(cs, h, n, y) && Class(h2, y, n) == Class(h, y, n);
      WithoutMember(cs[b], i, y);
    }
  }

  // A linked node may be given a new hash value exactly when that selects the same bucket.
  lemma RehashKeepsLayout<T>(cs: seq<seq<T>>, h: map<T, nat>, n: nat, x: T, hash: nat)
    requires Placed(cs, h, n) && x in h
    ensures Placed(cs, h[x := hash], n) <==> BucketOf(hash, n) == BucketOf(h[x], n)
  {
    var h2 := h[x := hash];
    assert Home(cs, h, n, x) && InBucket(cs[Class(h, x, n)], h, n, Class(h, x, n));
    if BucketOf(hash, n) == BucketOf(h[x], n) {
      forall i | 0 <= i < n ensures InBucket(cs[i], h2, n, i) {
        assert InBucket(cs[i], h, n, i);
      }
      forall y | y in h2 ensures Home(cs, h2, n, y) {
        assert Home(cs, h, n, y);
      }
    } else {
      assert !InBucket(cs[Class(h, x, n)], h2, n, Class(h, x, n));
    }
  }

  // Chains of different buckets share no node.
  lemma ChainsDisjoint<T>(cs: seq<seq<T>>, h: map<T, nat>, n: nat, b: nat, d: nat, x: T)
    requires Placed(cs, h, n) && b < n && d < n && b != d && x in cs[b]
    ensures x !in cs[d]
  {
    assert InBucket(cs[b], h, n, b) && InBucket(cs[d], h, n, d);
  }
}
