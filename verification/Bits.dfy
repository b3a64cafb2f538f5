// Bucket addressing: power-of-two bucket counts and the mask that selects a bucket.
module Bits {

  // n is 1, 2, 4, 8, ...
  predicate IsPow2(n: nat) {
    n == 1 || (n > 1 && n % 2 == 0 && IsPow2(n / 2))
  }

  // Bitwise conjunction of two unsigned numbers, one binary digit at a time.
  function BitAnd(a: nat, b: nat): nat {
    if a == 0 || b == 0 then 0 else (a % 2) * (b % 2) + 2 * BitAnd(a / 2, b / 2)
  }

  // The bucket of hash value h in an array of n buckets: `hash & (n - 1)`.
  function BucketOf(h: nat, n: nat): nat
    requires n > 0
  {
    BitAnd(h, n - 1)
  }

  lemma DivModUnique(a: nat, n: nat, q: nat, r: nat)
    requires n > 0 && a == n * q + r && r < n
    ensures a / n == q && a % n == r
  {
    var d := q - a / n;
    assert n * d == a % n - r by {
      assert a == n * (a / n) + a % n;
      assert n * d == n * q - n * (a / n);
    }
    assert 0 - n < n * d < n;
    assert d == 0 by {
      assert d >= 1 ==> n * d >= n;
      assert d <= -1 ==> n * d <= -1 * n;
    }
  }

  lemma DoubleMod(h: nat, m: nat)
    requires m > 0
    ensures h % (2 * m) == h % 2 + 2 * ((h / 2) % m)
    ensures h % (2 * m) == h % m || h % (2 * m) == h % m + m
  {
    var x, y := (h / 2) / m, (h / 2) % m;
    assert h / 2 == m * x + y;
    assert h == (2 * m) * x + (2 * y + h % 2) by {
      assert (2 * m) * x == 2 * (m * x);
    }
    DivModUnique(h, 2 * m, x, 2 * y + h % 2);
    var u, v := h / (2 * m), h % (2 * m);
    assert h == (2 * m) * u + v;
    assert (2 * m) * u == m * (2 * u);
    if v < m {
      DivModUnique(h, m, 2 * u, v);
    } else {
      assert m * (2 * u + 1) == m * (2 * u) + m;
      DivModUnique(h, m, 2 * u + 1, v - m);
    }
  }

  // Masking with n - 1 is reduction modulo n exactly because n is a power of two.
  lemma {:induction false} MaskIsMod(h: nat, n: nat)
    requires IsPow2(n)
    ensures BucketOf(h, n) == h % n
  {
    if n > 1 {
      var m := n / 2;
      MaskIsMod(h / 2, m);
      DoubleMod(h, m);
      assert n == 2 * m && (n - 1) % 2 == 1 && (n - 1) / 2 == m - 1;
      if h == 0 || n - 1 == 0 {
        assert h / 2 == 0;
      } else {
        assert BitAnd(h, n - 1) == h % 2 + 2 * BitAnd(h / 2, m - 1);
      }
    }
  }

  lemma BucketInRange(h: nat, n: nat)
    requires IsPow2(n)
    ensures BucketOf(h, n) < n
  {
    MaskIsMod(h, n);
  }

  // Doubling the array splits bucket b into buckets b and b + n.
  lemma BucketSplits(h: nat, n: nat)
    requires IsPow2(n)
    ensures IsPow2(2 * n)
    ensures BucketOf(h, n) < n
    ensures BucketOf(h, 2 * n) == BucketOf(h, n) || BucketOf(h, 2 * n) == BucketOf(h, n) + n
  {
    assert (2 * n) / 2 == n;
    MaskIsMod(h, n);
    MaskIsMod(h, 2 * n);
    DoubleMod(h, n);
  }

  // Hash values share a bucket exactly when they agree modulo the bucket count.
  lemma SameBucketIff(h: nat, k: nat, n: nat)
    requires IsPow2(n)
    ensures BucketOf(k, n) == BucketOf(h, n) <==> k % n == h % n
  {
    MaskIsMod(h, n);
    MaskIsMod(k, n);
  }

  // size_t values are below this.
  const SIZE_T_END: nat := 0x1_0000_0000_0000_0000

  // So in a table of any size a size_t can hold, every hash value shares its bucket with another
  // one: a lookup that tests only its predicate can be handed a node of a different hash value.
  lemma BucketsCollide(h: nat, n: nat)
    requires IsPow2(n) && h < SIZE_T_END && 2 * n <= SIZE_T_END
    ensures n > 0 && exists k: nat :: k < SIZE_T_END && k != h && BucketOf(k, n) == BucketOf(h, n)
  {
    assert n > 0;
    hide BucketOf, IsPow2;
    var k := if h >= n then h - n else h + n;
    AddMod(if h >= n then k else h, n);
    SameBucketIff(h, k, n);
    assert BucketOf(k, n) == BucketOf(h, n);
  }

  lemma AddMod(h: nat, n: nat)
    requires n > 0
    ensures (h + n) % n == h % n
  {
    var q, r := h / n, h % n;
    assert h == n * q + r;
    assert n * (q + 1) == n * q + n;
    DivModUnique(h + n, n, q + 1, r);
  }
}
