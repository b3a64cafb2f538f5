// Sequences of nodes and the buckets their hash values select: the arithmetic of splitting a chain.
module Chains {
  import opened Bits

  predicate Distinct<T(==)>(s: seq<T>) {
    forall i, j :: 0 <= i < j < |s| ==> s[i] != s[j]
  }

  function Last<T>(s: seq<T>): T
    requires s != []
  {
    s[|s| - 1]
  }

  function Class<T>(hash: map<T, nat>, l: T, n: nat): nat
    requires n > 0
  {
    BucketOf(if l in hash then hash[l] else 0, n)
  }

  function Half(i: nat, n: nat): nat {
    if i < n then i else i - n
  }

  // The nodes of s that belong to bucket t of n, in order.
  ghost function Keep<T>(hash: map<T, nat>, s: seq<T>, n: nat, t: nat): seq<T>
    requires n > 0
  {
    if s == [] then []
    else (if Class(hash, s[0], n) == t then [s[0]] else []) + Keep(hash, s[1..], n, t)
  }

  // The chain of bucket t of the doubled array when the first k nodes of the old chain c are
  // unzipped: t's share of those, and then everything else.
  ghost function Mix<T>(hash: map<T, nat>, c: seq<T>, k: nat, n: nat, t: nat): seq<T>
    requires n > 0 && k <= |c|
  {
    Keep(hash, c[..k], n, t) + c[k..]
  }

  // ----- filtering -----

  lemma {:induction false} KeepMember<T>(hash: map<T, nat>, s: seq<T>, n: nat, t: nat, l: T)
    requires n > 0
    ensures l in Keep(hash, s, n, t) <==> l in s && Class(hash, l, n) == t
  {
    if s != [] {
      KeepMember(hash, s[1..], n, t, l);
      assert s == [s[0]] + s[1..];
    }
  }

  lemma {:induction false} KeepDistinct<T>(hash: map<T, nat>, s: seq<T>, n: nat, t: nat)
    requires n > 0 && Distinct(s)
    ensures Distinct(Keep(hash, s, n, t))
  {
    if s != [] {
      KeepDistinct(hash, s[1..], n, t);
      KeepMember(hash, s[1..], n, t, s[0]);
    }
  }

  lemma {:induction false} KeepAll<T>(hash: map<T, nat>, s: seq<T>, n: nat, t: nat)
    requires n > 0 && forall l :: l in s ==> Class(hash, l, n) == t
    ensures Keep(hash, s, n, t) == s
  {
    if s != [] {
      KeepAll(hash, s[1..], n, t);
    }
  }

  lemma {:induction false} KeepNone<T>(hash: map<T, nat>, s: seq<T>, n: nat, t: nat)
    requires n > 0 && forall l :: l in s ==> Class(hash, l, n) != t
    ensures Keep(hash, s, n, t) == []
  {
    if s != [] {
      KeepNone(hash, s[1..], n, t);
    }
  }

  lemma {:induction false} KeepConcat<T>(hash: map<T, nat>, s: seq<T>, r: seq<T>, n: nat, t: nat)
    requires n > 0
    ensures Keep(hash, s + r, n, t) == Keep(hash, s, n, t) + Keep(hash, r, n, t)
  {
    if s == [] {
      assert s + r == r;
    } else {
      KeepConcat(hash, s[1..], r, n, t);
      assert (s + r)[1..] == s[1..] + r;
      var own := if Class(hash, s[0], n) == t then [s[0]] else [];
      assert own + (Keep(hash, s[1..], n, t) + Keep(hash, r, n, t))
             == (own + Keep(hash, s[1..], n, t)) + Keep(hash, r, n, t);
    }
  }

  lemma MixMember<T>(hash: map<T, nat>, c: seq<T>, k: nat, n: nat, t: nat, l: T)
    requires n > 0 && k <= |c|
    ensures l in Mix(hash, c, k, n, t) ==> l in c
    ensures l in c && Class(hash, l, n) == t ==> l in Mix(hash, c, k, n, t)
    ensures l in Mix(hash, c, k, n, t) && l in c[..k] && Distinct(c) ==> Class(hash, l, n) == t
  {
    KeepMember(hash, c[..k], n, t, l);
    assert c == c[..k] + c[k..];
  }

  // ----- first cuts -----

  // The length of the first segment of c.
  ghost function SegLen<T>(hash: map<T, nat>, c: seq<T>, n: nat, t: nat): nat
    requires n > 0
  {
    if c == [] || Class(hash, c[0], n) != t then 0 else 1 + SegLen(hash, c[1..], n, t)
  }

  lemma {:induction false} SegLenIs<T>(hash: map<T, nat>, c: seq<T>, n: nat, t: nat)
    requires n > 0
    ensures SegLen(hash, c, n, t) <= |c|
    ensures forall x :: 0 <= x < SegLen(hash, c, n, t) ==> Class(hash, c[x], n) == t
    ensures SegLen(hash, c, n, t) < |c| ==> Class(hash, c[SegLen(hash, c, n, t)], n) != t
  {
    if c != [] && Class(hash, c[0], n) == t {
      SegLenIs(hash, c[1..], n, t);
      forall x | 0 <= x < SegLen(hash, c, n, t) ensures Class(hash, c[x], n) == t {
        if x > 0 { assert c[x] == c[1..][x - 1]; }
      }
    }
  }

  ghost function FirstLen<T>(hash: map<T, nat>, c: seq<T>, n: nat): nat
    requires n > 0
  {
    if c == [] then 0 else SegLen(hash, c, n, Class(hash, c[0], n))
  }

  // c has classes i and j only, and its first segment is c[..k]; then the first node of class i
  // starts the chain of bucket i.
  lemma FirstOfClass<T>(hash: map<T, nat>, c: seq<T>, k: nat, n: nat, i: nat, j: nat, pre: seq<T>, rest: seq<T>)
    requires n > 0 && k <= |c| && i != j && c == pre + rest
    requires forall x :: 0 <= x < |c| ==> Class(hash, c[x], n) == i || Class(hash, c[x], n) == j
    requires forall x :: 0 <= x < k ==> Class(hash, c[x], n) == Class(hash, c[0], n)
    requires k < |c| ==> k > 0 && Class(hash, c[k - 1], n) != Class(hash, c[k], n)
    requires forall x :: 0 <= x < |pre| ==> Class(hash, pre[x], n) == j
    requires rest != [] ==> Class(hash, rest[0], n) == i
    ensures rest == Mix(hash, c, k, n, i)
  {
    assert forall x :: 0 <= x < |pre| ==> c[x] == pre[x];
    if rest != [] { assert c[|pre|] == rest[0]; }
    if k > 0 && Class(hash, c[0], n) == i {
      assert pre == [];
      assert Keep(hash, c[..k], n, i) == c[..k] by { KeepAll(hash, c[..k], n, i); }
      assert c == c[..k] + c[k..];
    } else {
      assert |pre| == k;
      assert Keep(hash, c[..k], n, i) == [] by { KeepNone(hash, c[..k], n, i); }
      assert c[k..] == rest;
    }
  }

  // A prefix of one class, followed by nothing or by another class, is the whole first segment.
  lemma SegmentIsCut<T>(hash: map<T, nat>, c: seq<T>, k: nat, n: nat, pre: seq<T>, rest: seq<T>)
    requires n > 0 && k <= |c| && c == pre + rest && pre != []
    requires forall x :: 0 <= x < k ==> Class(hash, c[x], n) == Class(hash, c[0], n)
    requires k < |c| ==> k > 0 && Class(hash, c[k - 1], n) != Class(hash, c[k], n)
    requires forall x :: 0 <= x < |pre| ==> Class(hash, pre[x], n) == Class(hash, pre[0], n)
    requires rest != [] ==> Class(hash, rest[0], n) != Class(hash, pre[0], n)
    ensures |pre| == k
  {
    assert forall x :: 0 <= x < |pre| ==> c[x] == pre[x];
    if rest != [] { assert c[|pre|] == rest[0]; }
  }

  // ----- moving the cut -----

  // Moving the cut over nodes of class t changes nothing for bucket t ...
  lemma MixSame<T>(hash: map<T, nat>, c: seq<T>, k: nat, k2: nat, n: nat, t: nat)
    requires n > 0 && k <= k2 <= |c|
    requires forall l :: l in c[k..k2] ==> Class(hash, l, n) == t
    ensures Mix(hash, c, k2, n, t) == Mix(hash, c, k, n, t)
  {
    var mid := c[k..k2];
    assert c[..k2] == c[..k] + mid && c[k..] == mid + c[k2..];
    KeepConcat(hash, c[..k], mid, n, t);
    KeepAll(hash, mid, n, t);
  }

  // ... and moving it over other nodes takes those off.
  lemma MixDrop<T>(hash: map<T, nat>, c: seq<T>, k: nat, k2: nat, n: nat, t: nat)
    requires n > 0 && k <= k2 <= |c|
    requires forall l :: l in c[k..k2] ==> Class(hash, l, n) != t
    ensures Mix(hash, c, k2, n, t) == Keep(hash, c[..k], n, t) + c[k2..]
  {
    var mid := c[k..k2];
    assert c[..k2] == c[..k] + mid;
    KeepConcat(hash, c[..k], mid, n, t);
    KeepNone(hash, mid, n, t);
  }

  // The last node of class t in c[..k] is c[k - 1] when that node has class t.
  lemma KeepLast<T>(hash: map<T, nat>, c: seq<T>, k: nat, n: nat, t: nat)
    requires n > 0 && 0 < k <= |c| && Class(hash, c[k - 1], n) == t
    ensures Keep(hash, c[..k], n, t) != [] && Last(Keep(hash, c[..k], n, t)) == c[k - 1]
  {
    assert c[..k] == c[..k - 1] + [c[k - 1]];
    KeepConcat(hash, c[..k - 1], [c[k - 1]], n, t);
  }

  lemma NotInRest<T>(c: seq<T>, k: nat, k2: nat)
    requires Distinct(c) && 0 < k <= k2 <= |c|
    ensures c[k - 1] !in c[k2..] && c[k - 1] in c[..k] && c[k - 1] in c
  {
    forall x | 0 <= x < |c[k2..]| ensures c[k2..][x] != c[k - 1] { assert c[k2..][x] == c[k2 + x]; }
    assert c[..k][k - 1] == c[k - 1];
  }

  lemma KeepMix<T>(hash: map<T, nat>, c: seq<T>, k: nat, n: nat, t: nat)
    requires n > 0 && k <= |c|
    ensures Keep(hash, Mix(hash, c, k, n, t), n, t) == Keep(hash, c, n, t)
  {
    var own := Keep(hash, c[..k], n, t);
    forall l | l in own ensures Class(hash, l, n) == t { KeepMember(hash, c[..k], n, t, l); }
    KeepAll(hash, own, n, t);
    KeepConcat(hash, own, c[k..], n, t);
    KeepConcat(hash, c[..k], c[k..], n, t);
    assert c == c[..k] + c[k..];
  }

  // ----- removing -----

  // s without its element i
  function Without<T>(s: seq<T>, i: nat): seq<T>
    requires i < |s|
  {
    s[..i] + s[i + 1..]
  }

  lemma WithoutMember<T>(s: seq<T>, i: nat, y: T)
    requires i < |s| && Distinct(s)
    ensures Distinct(Without(s, i)) && (y in Without(s, i) <==> y in s && y != s[i])
  {
    assert s == s[..i] + [s[i]] + s[i + 1..];
    assert Without(s, i) == s[..i] + s[i + 1..];
    assert forall j :: 0 <= j < |Without(s, i)| ==> Without(s, i)[j] == s[if j < i then j else j + 1];
  }

  // ----- inserting and reversing -----

  function Inserted<T>(c: seq<T>, i: nat, x: T): seq<T>
    requires i <= |c|
  {
    c[..i] + [x] + c[i..]
  }

  function Reversed<T>(c: seq<T>): seq<T> {
    if c == [] then [] else Reversed(c[1..]) + [c[0]]
  }

  lemma {:induction false} ReversedConcat<T>(a: seq<T>, b: seq<T>)
    ensures Reversed(a + b) == Reversed(b) + Reversed(a)
  {
    if a == [] {
      assert a + b == b;
    } else {
      assert (a + b)[1..] == a[1..] + b;
      ReversedConcat(a[1..], b);
    }
  }

  lemma {:induction false} ReversedAt<T>(c: seq<T>, k: nat)
    requires k < |c|
    ensures |Reversed(c)| == |c| && Reversed(c)[k] == c[|c| - 1 - k]
  {
    if |c| > 1 {
      ReversedAt(c[1..], if k < |c| - 1 then k else 0);
    }
  }

  lemma {:induction false} ReversedTwice<T>(c: seq<T>)
    ensures Reversed(Reversed(c)) == c
  {
    if c != [] {
      ReversedTwice(c[1..]);
      ReversedConcat(Reversed(c[1..]), [c[0]]);
      assert Reversed([c[0]]) == [c[0]];
    }
  }

  lemma ReversedMember<T>(c: seq<T>, x: T)
    ensures |Reversed(c)| == |c| && (x in Reversed(c) <==> x in c)
  {
    if c != [] {
      ReversedAt(c, 0);
    }
    if x in c {
      var k :| 0 <= k < |c| && c[k] == x;
      ReversedAt(c, |c| - 1 - k);
    }
    if x in Reversed(c) {
      var k :| 0 <= k < |Reversed(c)| && Reversed(c)[k] == x;
      ReversedAt(c, k);
    }
  }

  lemma ReversedInserted<T>(c: seq<T>, j: nat, x: T)
    requires j <= |c|
    ensures |Reversed(c)| == |c| && Reversed(Inserted(c, j, x)) == Inserted(Reversed(c), |c| - j, x)
  {
    var a, b := c[..j], c[j..];
    ReversedMember(c, x);
    ReversedMember(b, x);
    ReversedAround(a, x, b);
    hide Reversed;
    var ra, rb, rc := Reversed(a), Reversed(b), Reversed(c);
    assert c == a + b && rc == rb + ra;
    assert rc[..|c| - j] == rb && rc[|c| - j..] == ra;
  }

  lemma ReversedWithout<T>(c: seq<T>, j: nat)
    requires j < |c|
    ensures |Reversed(c)| == |c| && Reversed(Without(c, j)) == Without(Reversed(c), |c| - 1 - j)
  {
    var a, x, b := c[..j], c[j], c[j + 1..];
    assert c == a + [x] + b;
    ReversedMember(c, x);
    ReversedMember(b, x);
    ReversedAround(a, x, b);
    WithoutMiddle(a, x, b);
    WithoutMiddle(Reversed(b), x, Reversed(a));
    hide Reversed, Without;
    assert |Reversed(b)| == |c| - 1 - j;
  }

  lemma WithoutMiddle<T>(a: seq<T>, x: T, b: seq<T>)
    ensures Without(a + [x] + b, |a|) == a + b
  {
    var s := a + [x] + b;
    assert s[..|a|] == a && s[|a| + 1..] == b;
  }

  lemma ReversedAround<T>(a: seq<T>, x: T, b: seq<T>)
    ensures Reversed(a + [x] + b) == Reversed(b) + [x] + Reversed(a)
    ensures Reversed(a + b) == Reversed(b) + Reversed(a)
  {
    assert Reversed([x]) == [x];
    hide Reversed;
    var ra, rb := Reversed(a), Reversed(b);
    ReversedConcat(a + [x], b);
    ReversedConcat(a, [x]);
    ReversedConcat(a, b);
    assert rb + ([x] + ra) == rb + [x] + ra;
  }
}
