// upperBoundPowerOf2: rounding a 32-bit count up to a power of two.
module PowerOfTwo {
  import opened Bits

  // Numbers of 32 bits are below this.
  const UINT32_END: nat := 0x1_0000_0000

  // The largest power of two in 32 bits
  const TOP: nat := 0x8000_0000

  // ----- bitwise disjunction -----

  // One binary digit at a time
  function BitOr(a: nat, b: nat): nat {
    if a == 0 then b
    else if b == 0 then a
    else (if a % 2 == 1 || b % 2 == 1 then 1 else 0) + 2 * BitOr(a / 2, b / 2)
  }

  lemma {:induction false} OrIsAbove(a: nat, b: nat)
    ensures BitOr(a, b) >= a && BitOr(a, b) >= b
  {
    if a != 0 && b != 0 {
      OrIsAbove(a / 2, b / 2);
    }
  }

  lemma {:induction false} OrIsBelow(a: nat, b: nat, p: nat)
    requires IsPow2(p) && a < p && b < p
    ensures BitOr(a, b) < p
  {
    if a != 0 && b != 0 {
      OrIsBelow(a / 2, b / 2, p / 2);
    }
  }

  // The digits from q upwards stay as they are when the other number is below q.
  lemma {:induction false} OrKeepsHigh(h: nat, low: nat, b: nat, q: nat)
    requires IsPow2(q) && low < q && b < q
    ensures BitOr(h * q + low, b) == h * q + BitOr(low, b)
  {
    if q > 1 {
      var r := q / 2;
      assert h * q == 2 * (h * r);
      assert (h * q + low) / 2 == h * r + low / 2 && (h * q + low) % 2 == low % 2;
      OrKeepsHigh(h, low / 2, b / 2, r);
    }
  }

  // ----- powers of two -----

  // The power of two just above a
  function Above(a: nat): (p: nat)
    ensures IsPow2(p) && a < p && (p == 1 || p <= 2 * a)
  {
    if a == 0 then 1 else 2 * Above(a / 2)
  }

  lemma {:induction false} NextPow2(p: nat, r: nat)
    requires IsPow2(p) && IsPow2(r) && p < r
    ensures 2 * p <= r
  {
    if p > 1 {
      NextPow2(p / 2, r / 2);
    }
  }

  lemma {:induction false} Pow2Times(p: nat, q: nat)
    requires IsPow2(p) && IsPow2(q)
    ensures IsPow2(p * q)
  {
    if p > 1 {
      Pow2Times(p / 2, q);
      assert p * q == 2 * ((p / 2) * q);
    }
  }

  lemma Pow2s()
    ensures IsPow2(1) && !IsPow2(0)
    ensures IsPow2(2) && IsPow2(4) && IsPow2(16) && IsPow2(256) && IsPow2(65536) && IsPow2(TOP) && IsPow2(UINT32_END)
  {
    Pow2Times(65536, 65536);
    Pow2Times(65536, 32768);
  }

  // The smaller of two powers of two divides the larger.
  lemma {:induction false} Pow2Divides(p: nat, q: nat) returns (d: nat)
    requires IsPow2(p) && IsPow2(q) && p <= q
    ensures IsPow2(d) && p * d == q && d <= q
  {
    if p == 1 {
      d := q;
    } else {
      d := Pow2Divides(p / 2, q / 2);
      assert p * d == 2 * ((p / 2) * d);
    }
  }

  // ----- smearing -----

  // Below p, every digit of a from q upwards is set.
  predicate Ones(a: nat, p: nat, q: nat) {
    IsPow2(p) && IsPow2(q) && q <= p && p - q <= a < p
  }

  // The ones reach from the digit below p down over as many digits as j has, or down to the last.
  predicate Reaches(p: nat, q: nat, j: nat) {
    j * q == p || q == 1
  }

  lemma TimesOrder(j: nat, x: int, y: int)
    requires x <= y
    ensures j * x <= j * y
  {
  }

  lemma Quotient(a: nat, j: nat, x: nat)
    requires j > 0
    ensures a >= j * x ==> a / j >= x
    ensures a < j * x ==> a / j < x
    ensures a / j <= a
  {
    var b, m := a / j, a % j;
    assert a == j * b + m && j * (b + 1) == j * b + j;
    if b < x { TimesOrder(j, b + 1, x); }
    if b >= x { TimesOrder(j, x, b); }
    TimesOrder(b, 1, j);
  }

  lemma TimesMinus(j: nat, x: nat, y: nat)
    ensures j * (x - y) == j * x - j * y
  {
  }

  // Shifting a number that starts with ones, by as many digits as it has ones.
  lemma ShiftedOnes(a: nat, p: nat, q: nat, j: nat) returns (q': nat)
    requires IsPow2(q) && IsPow2(j) && j > 0 && q > 0 && j * q == p && p - q <= a < p
    ensures IsPow2(q') && q' <= q && q - q' <= a / j < q && (j * q' == q || q' == 1)
  {
    Quotient(a, j, q);
    if j <= q {
      q' := Pow2Divides(j, q);
    } else {
      q' := 1;
    }
    hide IsPow2;
    TimesMinus(j, q, q');
    Quotient(a, j, q - q');
  }

  // Or-ing the shifted number in doubles the number of ones.
  lemma SmearStep(a: nat, p: nat, q: nat, j: nat, b: nat, jj: nat) returns (q': nat)
    requires Ones(a, p, q) && Reaches(p, q, j) && IsPow2(j) && j > 0 && b == a / j && jj == j * j
    ensures Ones(BitOr(a, b), p, q') && Reaches(p, q', jj)
  {
    Quotient(a, j, 0);
    OrIsAbove(a, b);
    OrIsBelow(a, b, p);
    q' := 1;
    if q > 1 {
      hide IsPow2, BitOr;
      q' := ShiftedOnes(a, p, q, j);
      SmearSum(a, p, q, j, b);
      Twice(p, q, q', j);
    }
  }

  lemma Twice(p: nat, q: nat, q': nat, j: nat)
    requires j * q == p && (j * q' == q || q' == 1)
    ensures (j * j) * q' == p || q' == 1
  {
    assert (j * j) * q' == j * (j * q');
  }

  lemma SmearSum(a: nat, p: nat, q: nat, j: nat, b: nat)
    requires IsPow2(q) && j > 0 && j * q == p && p - q <= a < p && b < q
    ensures BitOr(a, b) >= p - q + b
  {
    hide IsPow2, BitOr;
    var low := a - (p - q);
    assert (j - 1) * q == p - q;
    OrKeepsHigh(j - 1, low, b, q);
    OrIsAbove(low, b);
  }

  // The power above a 32-bit number has at most 33 bits, and 33 exactly from 2^31 on.
  lemma AboveFits(a: nat)
    requires a < UINT32_END
    ensures if a < TOP then Above(a) <= TOP else Above(a) == UINT32_END
  {
    var p := Above(a);
    Pow2s();
    if p < UINT32_END { NextPow2(p, UINT32_END); }
    if p > UINT32_END { NextPow2(UINT32_END, p); }
    if a >= TOP { NextPow2(TOP, p); }
  }

  lemma SmearStart(a: nat) returns (p: nat, q: nat)
    ensures p == Above(a) && Ones(a, p, q) && Reaches(p, q, 2)
  {
    p := Above(a);
    q := if p == 1 then 1 else p / 2;
  }

  lemma AllOnes(a: nat, p: nat, q: nat, r: nat)
    requires Ones(a, p, q) && Reaches(p, q, UINT32_END) && p <= UINT32_END && r == (a + 1) % UINT32_END
    ensures r == if p == UINT32_END then 0 else p
  {
  }

  // With all 32 digits smeared, nothing but ones is left, and the increment carries or wraps.
  lemma SmearEnd(v: nat, a: nat, p: nat, q: nat, r: nat)
    requires 0 < v < UINT32_END && p == Above(v - 1) && Ones(a, p, q) && Reaches(p, q, UINT32_END)
    requires r == (a + 1) % UINT32_END
    ensures v <= TOP ==> IsPow2(r) && v <= r <= TOP && (r == 1 || r < 2 * v)
    ensures v <= TOP ==> forall c: nat :: IsPow2(c) && c >= v ==> r <= c
    ensures v > TOP ==> r == 0
  {
    AboveFits(v - 1);
    AllOnes(a, p, q, r);
    hide IsPow2, Ones, Reaches, Above;
    forall c: nat | IsPow2(c) && c >= v ensures p <= c {
      if c < p { NextPow2(c, p); }
    }
  }

  // Up to 2^31 the least power of two that is at least v. Above, there is no such power in 32 bits,
  // and the increment wraps to 0. A right shift by k digits is a division by 2^k.
  method UpperBoundPowerOf2(v: nat) returns (r: nat)
    requires v < UINT32_END
    ensures v <= TOP ==> IsPow2(r) && v <= r <= TOP && (r == 1 || r < 2 * v)
    ensures v <= TOP ==> forall p: nat :: IsPow2(p) && p >= v ==> r <= p
    ensures v > TOP ==> r == 0
  {
    hide IsPow2, BitOr, Ones, Reaches, Above;
    Pow2s();
    if v == 0 {
      return 1;
    }
    r := v - 1;
    ghost var p, q := SmearStart(r);
    q := SmearStep(r, p, q, 2, r / 2, 4);
    r := BitOr(r, r / 2);
    q := SmearStep(r, p, q, 4, r / 4, 16);
    r := BitOr(r, r / 4);
    q := SmearStep(r, p, q, 16, r / 16, 256);
    r := BitOr(r, r / 16);
    q := SmearStep(r, p, q, 256, r / 256, 65536);
    r := BitOr(r, r / 256);
    q := SmearStep(r, p, q, 65536, r / 65536, UINT32_END);
    r := BitOr(r, r / 65536);
    SmearEnd(v, r, p, q, (r + 1) % UINT32_END);
    r := (r + 1) % UINT32_END;
  }

  // The result exists exactly up to 2^31.
  lemma CeilingExists(v: nat)
    requires v < UINT32_END
    ensures (exists r: nat :: IsPow2(r) && v <= r < UINT32_END) <==> v <= TOP
  {
    Pow2s();
    hide IsPow2;
    if v <= TOP {
      var r: nat := TOP;
      assert IsPow2(r) && v <= r < UINT32_END;
    }
    forall r: nat | IsPow2(r) && v <= r < UINT32_END ensures v <= TOP {
      NextPow2(r, UINT32_END);
    }
  }
}
