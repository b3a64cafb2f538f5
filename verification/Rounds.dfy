// How many grace periods an expansion takes: one for publishing, and one for every round in which
// some chain still has a segment to jump over.
module Rounds {
  import opened Bits
  import opened Chains

  // The number of places where c changes from one new bucket to the other: one less than the
  // number of its segments, and 0 for an empty chain.
  ghost function Switches<T>(c: seq<T>, h: map<T, nat>, n: nat): nat
    requires n > 0
  {
    if |c| < 2 then 0 else (if Class(h, c[0], n) != Class(h, c[1], n) then 1 else 0) + Switches(c[1..], h, n)
  }

  // Nodes of one class add no switch.
  lemma {:induction false} SwitchesAlong<T>(c: seq<T>, k: nat, h: map<T, nat>, n: nat)
    requires n > 0 && 0 < k <= |c| && forall x :: 0 <= x < k ==> Class(h, c[x], n) == Class(h, c[0], n)
    ensures Switches(c, h, n) == Switches(c[k - 1..], h, n)
    decreases k
  {
    if k == 1 {
      assert c[0..] == c;
    } else {
      forall x | 0 <= x < k - 1 ensures Class(h, c[1..][x], n) == Class(h, c[1..][0], n) {
        assert c[1..][x] == c[x + 1] && c[1..][0] == c[1];
      }
      SwitchesAlong(c[1..], k - 1, h, n);
      assert c[1..][k - 2..] == c[k - 1..];
    }
  }

  // The rounds a chain cut at k still needs.
  ghost function Left<T>(c: seq<T>, k: nat, h: map<T, nat>, n: nat): nat
    requires n > 0 && k <= |c|
  {
    if k == 0 then 0 else Switches(c[k - 1..], h, n)
  }

  lemma LeftAtStart<T>(c: seq<T>, h: map<T, nat>, n: nat)
    requires n > 0
    ensures FirstLen(h, c, n) <= |c| && Left(c, FirstLen(h, c, n), h, n) == Switches(c, h, n)
  {
    if c != [] {
      SegLenIs(h, c, n, Class(h, c[0], n));
      SwitchesAlong(c, FirstLen(h, c, n), h, n);
    }
  }

  // One round removes one switch.
  lemma LeftDrops<T>(c: seq<T>, k: nat, k2: nat, h: map<T, nat>, n: nat)
    requires n > 0 && 0 < k < k2 <= |c| && Class(h, c[k - 1], n) != Class(h, c[k], n)
    requires forall x :: k <= x < k2 ==> Class(h, c[x], n) == Class(h, c[k], n)
    ensures Left(c, k, h, n) == Left(c, k2, h, n) + 1
  {
    var d := c[k - 1..];
    assert d[0] == c[k - 1] && d[1] == c[k] && d[1..] == c[k..];
    forall x | 0 <= x < k2 - k ensures Class(h, c[k..][x], n) == Class(h, c[k..][0], n) {
      assert c[k..][x] == c[k + x];
    }
    SwitchesAlong(c[k..], k2 - k, h, n);
    assert c[k..][k2 - k - 1..] == c[k2 - 1..];
  }

  lemma LeftZero<T>(c: seq<T>, k: nat, h: map<T, nat>, n: nat)
    requires n > 0 && k <= |c|
    requires k < |c| ==> k > 0 && Class(h, c[k - 1], n) != Class(h, c[k], n)
    ensures Left(c, k, h, n) == 0 <==> k == |c|
  {
    if 0 < k < |c| {
      assert c[k - 1..][0] == c[k - 1] && c[k - 1..][1] == c[k];
    }
  }

  // The largest number of switches of any chain.
  ghost function MaxSwitches<T>(cs: seq<seq<T>>, h: map<T, nat>, n: nat): nat
    requires n > 0
  {
    if cs == [] then 0
    else
      var rest := MaxSwitches(cs[1..], h, n);
      if Switches(cs[0], h, n) > rest then Switches(cs[0], h, n) else rest
  }

  lemma {:induction false} MaxIsBound<T>(cs: seq<seq<T>>, h: map<T, nat>, n: nat, b: nat)
    requires n > 0 && b < |cs|
    ensures Switches(cs[b], h, n) <= MaxSwitches(cs, h, n)
  {
    if b > 0 {
      MaxIsBound(cs[1..], h, n, b - 1);
    }
  }

  lemma {:induction false} MaxIsReached<T>(cs: seq<seq<T>>, h: map<T, nat>, n: nat, r: nat)
    requires n > 0 && forall b :: 0 <= b < |cs| ==> Switches(cs[b], h, n) <= r
    ensures MaxSwitches(cs, h, n) <= r
  {
    if cs != [] {
      forall b | 0 <= b < |cs[1..]| ensures Switches(cs[1..][b], h, n) <= r {
        assert cs[1..][b] == cs[b + 1];
      }
      MaxIsReached(cs[1..], h, n, r);
    }
  }
}
