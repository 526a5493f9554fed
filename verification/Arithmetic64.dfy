/** 64-bit division built from a divide instruction that only yields 32-bit quotients
    (lib/arithmetic.c).  Machine integers are mathematical integers here, so every place where
    the C code relies on wrap-around or truncation says so with an explicit modulus. */
module Arithmetic64 {
  import opened Powers

  const B: int := 0x1_0000_0000 // 2^32
  const B2: int := 0x1_0000_0000_0000_0000 // 2^64
  const H32: int := 0x8000_0000
  const H64: int := 0x8000_0000_0000_0000

  type Word32 = x: nat | x < B
  type Word64 = x: nat | x < B2
  type Int32 = x: int | -H32 <= x < H32
  type Int64 = x: int | -H64 <= x < H64

  /** A quotient, or the divide error (#DE) raised by the hardware. */
  datatype Outcome<+T> = Trap | Value(value: T)

  /** The low 64 bits of an arbitrary integer: unsigned arithmetic wraps. */
  function Wrap64(x: int): Word64 {
    x % B2
  }

  /** Conversion to a signed type keeps the bit pattern (two's complement). */
  function ToInt64(x: int): Int64 {
    var w := x % B2;
    if w < H64 then w else w - B2
  }

  function ToInt32(x: int): Int32 {
    var w := x % B;
    if w < H32 then w else w - B
  }

  /** The x86 DIVL instruction: it traps unless the quotient fits in 32 bits. */
  function Divl(n: Word64, d: Word32): Outcome<Word32> {
    if d == 0 || n / d >= B then Trap else Value(n / d)
  }

  // ----- Products, quotients and powers of two ----------------------------------------------

  lemma MulLe(a: nat, b: nat, c: nat)
    requires a <= b
    ensures a * c <= b * c
  {
  }

  lemma CancelLe(a: nat, b: nat, c: nat)
    requires c > 0 && a * c <= b * c
    ensures a <= b
  {
  }

  lemma CancelLt(a: nat, b: nat, c: nat)
    requires a * c < b * c
    ensures a < b
  {
  }

  lemma DivDef(n: nat, d: nat)
    requires d > 0
    ensures n == (n / d) * d + n % d && 0 <= n % d < d
  {
  }

  lemma DivUnique(n: nat, d: nat, q: nat, r: nat)
    requires n == q * d + r && r < d
    ensures n / d == q && n % d == r
  {
    DivDef(n, d);
    var e := n / d;
    if e < q {
      MulLe(e + 1, q, d);
    } else if e > q {
      MulLe(q + 1, e, d);
    }
  }

  lemma QuotientAtLeast(n: nat, w: nat, q: nat)
    requires w > 0 && q * w <= n
    ensures q <= n / w
  {
    DivDef(n, w);
    assert q * w < (n / w + 1) * w;
    CancelLt(q, n / w + 1, w);
  }

  lemma QuotientBelow(n: nat, w: nat, q: nat)
    requires w > 0 && n < q * w
    ensures n / w < q
  {
    DivDef(n, w);
    CancelLt(n / w, q, w);
  }

  /** Dividing in two steps, rounding down both times, is dividing once by the product. */
  lemma DivTwice(n: nat, a: nat, b: nat)
    requires a > 0 && b > 0
    ensures a * b > 0
    ensures (n / a) / b == n / (a * b)
  {
    var x, q, y := n / a, (n / a) / b, (n / a) % b;
    DivDef(n, a);
    DivDef(x, b);
    var r := y * a + n % a;
    assert n == q * (a * b) + r by {
      assert x * a == (q * b) * a + y * a;
    }
    assert r < a * b by {
      MulLe(y + 1, b, a);
    }
    DivUnique(n, a * b, q, r);
  }

  lemma {:induction false} Pow2Adds(a: nat, b: nat)
    ensures Pow2(a + b) == Pow2(a) * Pow2(b)
  {
    if a != 0 {
      Pow2Adds(a - 1, b);
      calc {
        Pow2(a + b);
        2 * Pow2(a - 1 + b);
        2 * (Pow2(a - 1) * Pow2(b));
        (2 * Pow2(a - 1)) * Pow2(b);
      }
    }
  }

  lemma Pow2Values()
    ensures Pow2(0) == 1 && Pow2(1) == 2 && Pow2(2) == 4 && Pow2(4) == 16 && Pow2(8) == 0x100
    ensures Pow2(16) == 0x1_0000 && Pow2(31) == H32 && Pow2(32) == B
  {
    assert Pow2(4) == 16;
    assert Pow2(8) == 16 * Pow2(4);
    assert Pow2(12) == 16 * Pow2(8);
    assert Pow2(16) == 16 * Pow2(12);
    assert Pow2(20) == 16 * Pow2(16);
    assert Pow2(24) == 16 * Pow2(20);
    assert Pow2(28) == 16 * Pow2(24);
    assert Pow2(32) == 16 * Pow2(28);
  }

  // ----- Leading zeros ------------------------------------------------------------------------

  /** The number of leading zero bits of a nonzero 32-bit word: how often it can be doubled. */
  function LeadingZeros(x: Word32): nat
    requires x != 0
    decreases B - x
  {
    if x >= H32 then 0 else 1 + LeadingZeros(2 * x)
  }

  lemma {:induction false} LeadingZerosNormalizes(x: Word32)
    requires x != 0
    ensures H32 <= x * Pow2(LeadingZeros(x)) < B
    decreases B - x
  {
    if x < H32 {
      LeadingZerosNormalizes(2 * x);
      DoubleOnce(x, LeadingZeros(2 * x));
    }
  }

  lemma DoubleOnce(x: nat, n: nat)
    ensures x * Pow2(n + 1) == (2 * x) * Pow2(n)
  {
    assert Pow2(n + 1) == 2 * Pow2(n);
  }

  lemma {:induction false} LeadingZerosBound(x: Word32, n: nat)
    requires x != 0
    requires x >= Pow2(n) && n <= 31
    ensures LeadingZeros(x) <= 31 - n
    decreases B - x
  {
    Pow2Values();
    if x < H32 && n < 31 {
      LeadingZerosBound(2 * x, n + 1);
    }
  }

  /** The only shift that brings the top bit of x to bit 31. */
  lemma {:induction false} LeadingZerosUnique(x: Word32, n: nat)
    requires x != 0
    requires H32 <= x * Pow2(n) < B
    ensures n == LeadingZeros(x)
    decreases n
  {
    if n == 0 {
      assert x * Pow2(0) == x;
    } else {
      DoubleOnce(x, n - 1);
      MulLe(1, Pow2(n - 1), 2 * x);
      assert 2 * x < B;
      LeadingZerosUnique(2 * x, n - 1);
    }
  }

  /** The branching search for the top set bit: five steps that halve the window. */
  method Nlz(x0: Word32) returns (n: nat)
    requires x0 != 0
    ensures n == LeadingZeros(x0)
  {
    Pow2Values();
    n := 0;
    var x := x0;
    assert x == x0 * Pow2(n);
    if x <= 0x0000_FFFF {
      ShiftMore(x0, n, 16);
      n := n + 16;
      x := x * 0x1_0000;
    }
    assert x == x0 * Pow2(n) && 0x1_0000 <= x < B;
    if x <= 0x00FF_FFFF {
      ShiftMore(x0, n, 8);
      n := n + 8;
      x := x * 0x100;
    }
    assert x == x0 * Pow2(n) && 0x100_0000 <= x < B;
    if x <= 0x0FFF_FFFF {
      ShiftMore(x0, n, 4);
      n := n + 4;
      x := x * 16;
    }
    assert x == x0 * Pow2(n) && 0x1000_0000 <= x < B;
    if x <= 0x3FFF_FFFF {
      ShiftMore(x0, n, 2);
      n := n + 2;
      x := x * 4;
    }
    assert x == x0 * Pow2(n) && 0x4000_0000 <= x < B;
    if x <= 0x7FFF_FFFF {
      ShiftMore(x0, n, 1);
      n := n + 1;
    }
    LeadingZerosUnique(x0, n);
  }

  lemma ShiftMore(x: nat, n: nat, k: nat)
    ensures x * Pow2(n + k) == (x * Pow2(n)) * Pow2(k)
  {
    Pow2Adds(n, k);
    assert x * (Pow2(n) * Pow2(k)) == (x * Pow2(n)) * Pow2(k);
  }

  // ----- Unsigned division --------------------------------------------------------------------

  /** The estimate of n/d made from the 32 leading bits of d, for d >= 2^32. */
  function Estimate(n: Word64, d: Word64): Outcome<Word64>
    requires d >= B
  {
    var s := LeadingZeros(d / B);
    var q := Divl(n / 2, Wrap64(d * Pow2(s)) / B);
    if q.Trap? then Trap
    else
      assert s <= 31 by { LeadingZerosBound(d / B, 0); }
      QuotientSmaller(q.value, Pow2(31 - s));
      Value(q.value / Pow2(31 - s))
  }

  lemma QuotientSmaller(n: nat, d: nat)
    requires d > 0
    ensures n / d <= n
  {
    DivDef(n, d);
    MulLe(1, d, n / d);
  }

  /** Unsigned 64-bit division. */
  function Udiv64(n: Word64, d: Word64): Outcome<Word64> {
    if d / B == 0 then
      var n1 := n / B;
      var n0 := n % B;
      var d0 := d % B;
      if d0 == 0 then Trap // n1 % d0 is itself a division by zero
      else
        var q := Divl(Wrap64(B * (n1 % d0) + n0), d0);
        if q.Trap? then Trap else Value(Wrap64(q.value + B * (n1 / d0)))
    else if n < d then Value(0)
    else
      var q := Estimate(n, d);
      if q.Trap? then Trap
      else Value(if Wrap64(n - Wrap64(q.value - 1) * d) < d then Wrap64(q.value - 1) else q.value)
  }

  // Small divisors: schoolbook division with base b.

  lemma Recombine(n: nat, d: nat, b: nat, n1: nat, n0: nat, q1: nat, r1: nat, q: nat, r: nat)
    requires n == n1 * b + n0 && n1 == q1 * d + r1 && b * r1 + n0 == q * d + r
    ensures n == (q + b * q1) * d + r
  {
    assert n1 * b == (q1 * d) * b + r1 * b;
    assert (q + b * q1) * d == q * d + (b * q1) * d;
    assert (q1 * d) * b == (b * q1) * d;
  }

  lemma Schoolbook(n: nat, d: nat, b: nat) returns (hi: nat, q: nat, q1: nat)
    requires d > 0 && b > 0
    ensures hi == b * ((n / b) % d) + n % b && q == hi / d && q1 == (n / b) / d
    ensures hi < b * d && q < b && q1 <= n / b && q + b * q1 == n / d
  {
    DivDef(n, b);
    hi, q, q1 := SchoolbookStep(n, d, b, n / b, n % b);
  }

  lemma SchoolbookStep(n: nat, d: nat, b: nat, n1: nat, n0: nat) returns (hi: nat, q: nat, q1: nat)
    requires d > 0 && n0 < b && n == n1 * b + n0
    ensures hi == b * (n1 % d) + n0 && q == hi / d && q1 == n1 / d
    ensures hi < b * d && q < b && q1 <= n1 && q + b * q1 == n / d
  {
    var r1 := n1 % d;
    q1 := n1 / d;
    DivDef(n1, d);
    QuotientSmaller(n1, d);
    hi := b * r1 + n0;
    q := hi / d;
    var r := hi % d;
    DivDef(hi, d);
    SchoolbookParts(n, d, b, n1, n0, q1, r1, q, r);
  }

  lemma SchoolbookParts(n: nat, d: nat, b: nat, n1: nat, n0: nat, q1: nat, r1: nat, q: nat, r: nat)
    requires n0 < b && r1 < d && r < d
    requires n == n1 * b + n0 && n1 == q1 * d + r1 && b * r1 + n0 == q * d + r
    ensures q < b && b * r1 + n0 < b * d
    ensures n / d == q + b * q1
  {
    Recombine(n, d, b, n1, n0, q1, r1, q, r);
    DivUnique(n, d, q + b * q1, r);
    DigitRoom(b, d, r1, n0, q, r);
  }

  lemma DigitRoom(b: nat, d: nat, r1: nat, n0: nat, q: nat, r: nat)
    requires n0 < b && r1 < d && b * r1 + n0 == q * d + r
    ensures q < b && b * r1 + n0 < b * d
  {
    MulLe(r1 + 1, d, b);
    CancelLt(q, b, d);
  }

  lemma SmallDivisor(n: Word64, d: Word64)
    requires 0 < d < B
    ensures Udiv64(n, d) == Value(n / d)
  {
    hide Udiv64;
    var hi, q, q1 := Schoolbook(n, d, B);
    QuotientSmaller(n, d);
    SmallDivisorRefines(n, d, hi, q, q1);
  }

  lemma SmallDivisorRefines(n: Word64, d: Word64, hi: nat, q: nat, q1: nat)
    requires 0 < d < B && hi == B * ((n / B) % d) + n % B && q1 == (n / B) / d
    requires hi < B2 && q < B && q == hi / d && q + B * q1 < B2
    ensures Udiv64(n, d) == Value(q + B * q1)
  {
    hide Estimate, Divl;
    assert Divl(hi, d) == Value(q) by {
      DivlFits(hi, d);
    }
    assert d / B == 0 && d % B == d;
    assert Wrap64(hi) == hi;
    assert Wrap64(q + B * q1) == q + B * q1;
  }

  lemma DivlFits(n: Word64, d: Word32)
    requires d > 0 && n / d < B
    ensures Divl(n, d) == Value(n / d)
  {
  }

  // Large divisors: d is normalised, its low half dropped.

  /** v is d shifted by s (a factor t) and cut to its upper half; v * p is then d with its low
      bits cleared, where t * p is the base b. */
  lemma CutLowBits(d: nat, t: nat, p: nat, b: nat)
    requires t > 0 && b > 0 && t * p == b
    ensures var v := (d * t) / b; v * p <= d < v * p + p
  {
    var v := (d * t) / b;
    DivDef(d * t, b);
    assert v * b == (v * p) * t;
    CancelLe(v * p, d, t);
    assert d * t < (v * p + p) * t;
    CancelLt(d, v * p + p, t);
  }

  /** The shift loses nothing, and the upper half of the shifted divisor has its top bit set. */
  lemma ShiftFits(d: nat, t: nat, p: nat, b: nat, h: nat)
    requires t > 0 && b > 0 && t * p == b && h <= (d / b) * t < b
    ensures d * t < b * b
    ensures h <= (d * t) / b
  {
    var d1 := d / b;
    DivDef(d, b);
    CancelLt(d1, p, t);
    MulLe(d1 + 1, p, t);
    ShiftUpper(d, d1, t, b);
    ShiftLower(d, d1, t, b);
  }

  lemma ShiftUpper(d: nat, d1: nat, t: nat, b: nat)
    requires t > 0 && d < d1 * b + b && (d1 + 1) * t <= b
    ensures d * t < b * b
  {
    var top := (d1 + 1) * t;
    MulLe(top, b, b);
    assert top * b == (d1 * b + b) * t;
    MulLe(d + 1, d1 * b + b, t);
  }

  lemma ShiftLower(d: nat, d1: nat, t: nat, b: nat)
    requires b > 0 && d1 * b <= d
    ensures d1 * t <= (d * t) / b
  {
    MulLe(d1 * b, d, t);
    assert (d1 * b) * t == (d1 * t) * b;
    QuotientAtLeast(d * t, b, d1 * t);
  }

  /** The quotient can be overestimated by at most one: what the cleared low bits of d lose,
      times the quotient, is no more than the truncated divisor itself. */
  lemma EstimateBounds(n: nat, d: nat, w: nat, p: nat, t: nat, h: nat)
    requires w > 0 && p >= 2 && h > 0 && w <= d < w + p
    requires n < (2 * t) * (h * p) && h * p <= w && (2 * t) * (p - 1) <= w
    ensures n / d <= n / w <= n / d + 1
  {
    var q := n / d;
    DivDef(n, d);
    assert q <= n / w by {
      MulLe(w, d, q);
      QuotientAtLeast(n, w, q);
    }
    QuotientRoom(n, d, t, h * p);
    OneMore(q, d, w, p, 2 * t);
    QuotientBelow(n, w, q + 2);
  }

  lemma QuotientRoom(n: nat, d: nat, t: nat, u: nat)
    requires d > 0 && u <= d && n < (2 * t) * u
    ensures n / d < 2 * t
  {
    MulLe(u, d, 2 * t);
    QuotientBelow(n, d, 2 * t);
  }

  lemma OneMore(q: nat, d: nat, w: nat, p: nat, room: nat)
    requires w <= d < w + p && q < room && room * (p - 1) <= w
    ensures q * d + d <= (q + 2) * w
  {
    MulLe(q + 1, room, p - 1);
    MulLe(d, w + (p - 1), q + 1);
    assert (q + 1) * (w + (p - 1)) == (q + 1) * w + (q + 1) * (p - 1);
    assert (q + 2) * w == (q + 1) * w + w;
  }

  /** What the proofs about large divisors need of s, t = 2^s and p = 2^(32-s). */
  lemma ShiftFactors(d: Word64, s: nat)
    requires d >= B && s == LeadingZeros(d / B)
    ensures s <= 31 && Pow2(s) * Pow2(32 - s) == B && Pow2(32 - s) == 2 * Pow2(31 - s)
    ensures H32 <= (d / B) * Pow2(s) < B
    ensures (Pow2(s) == H32 && Pow2(32 - s) == 2) || Pow2(32 - s) >= 4
  {
    LeadingZerosBound(d / B, 0);
    LeadingZerosNormalizes(d / B);
    Pow2Adds(s, 32 - s);
    Pow2Values();
    if s < 31 {
      assert Pow2(31 - s) == 2 * Pow2(30 - s);
    }
  }

  /** The divide cannot overflow, and what the shifts leave is one floor division by w. */
  lemma EstimateIsOneDivision(n: Word64, d: Word64, s: nat, v: nat)
    requires d >= B && s == LeadingZeros(d / B) && v == (d * Pow2(s)) / B
    ensures s <= 31 && H32 <= v < B
    ensures v * Pow2(32 - s) > 0
    ensures Estimate(n, d) == Value(n / (v * Pow2(32 - s)))
  {
    ShiftFactors(d, s);
    var half, shifted := Pow2(31 - s), d * Pow2(s);
    ShiftFits(d, Pow2(s), Pow2(32 - s), B, H32);
    assert shifted < B2;
    assert v < B by {
      QuotientBelow(shifted, B, B);
    }
    assert (n / 2) / v < B by {
      MulLe(H32, v, B);
      QuotientBelow(n / 2, v, B);
    }
    DivThrice(n, v, half);
    assert Estimate(n, d) == Value((n / 2 / v) / half) by {
      assert Wrap64(shifted) == shifted;
    }
  }

  lemma DivThrice(n: nat, v: nat, half: nat)
    requires v > 0 && half > 0
    ensures v * (2 * half) > 0
    ensures (n / 2 / v) / half == n / (v * (2 * half))
  {
    DivTwice(n, 2, v);
    DivTwice(n, 2 * v, half);
    assert (2 * v) * half == v * (2 * half);
  }

  /** The normalised estimate never traps and is the true quotient or one more. */
  lemma EstimateOffByAtMostOne(n: Word64, d: Word64)
    requires d >= B
    ensures Estimate(n, d).Value?
    ensures n / d <= Estimate(n, d).value <= n / d + 1
  {
    hide Estimate;
    var v, t, p := EstimateShape(n, d);
    EstimateFromFactors(n, d, v, t, p);
  }

  lemma EstimateShape(n: Word64, d: Word64) returns (v: nat, t: nat, p: nat)
    requires d >= B
    ensures H32 <= v && t > 0 && t * p == B && v == (d * t) / B
    ensures (p == 2 && t == H32) || p >= 4
    ensures v * p > 0 && Estimate(n, d) == Value(n / (v * p))
  {
    hide Estimate, Pow2;
    var s := LeadingZeros(d / B);
    ShiftFactors(d, s);
    t, p := Pow2(s), Pow2(32 - s);
    v := (d * t) / B;
    EstimateIsOneDivision(n, d, s, v);
  }

  lemma EstimateFromFactors(n: Word64, d: Word64, v: nat, t: nat, p: nat)
    requires H32 <= v && t > 0 && t * p == B && v == (d * t) / B
    requires (p == 2 && t == H32) || p >= 4
    ensures v * p > 0
    ensures n / d <= n / (v * p) <= n / d + 1
  {
    CutLowBits(d, t, p, B);
    MulLe(H32, v, p);
    var w := v * p;
    var lost := (2 * t) * (p - 1);
    assert lost <= w by {
      assert lost == 2 * (t * p) - 2 * t;
    }
    assert n < (2 * t) * (H32 * p) by {
      assert (2 * t) * (H32 * p) == 2 * H32 * (t * p);
    }
    EstimateBounds(n, d, w, p, t, H32);
  }

  /** The estimate can indeed be too big, so the final correction is needed. */
  lemma EstimateCanBeOneTooBig()
    ensures Estimate(B2 - 2, B2 - 1) == Value(1) && (B2 - 2) / (B2 - 1) == 0
  {
    Pow2Values();
    var d: Word64 := B2 - 1;
    assert d / B == B - 1;
    assert (B - 1) * Pow2(0) == B - 1;
    LeadingZerosUnique(d / B, 0);
    assert (d * Pow2(0)) / B == B - 1;
    EstimateIsOneDivision(B2 - 2, d, 0, B - 1);
    DivUnique(B2 - 2, (B - 1) * B, 1, B - 2);
    DivUnique(B2 - 2, B2 - 1, 0, B2 - 2);
  }

  lemma LargeDivisor(n: Word64, d: Word64)
    requires B <= d
    ensures Udiv64(n, d) == Value(n / d)
  {
    hide Estimate, Divl;
    if n < d {
      DivUnique(n, d, 0, n);
    } else {
      EstimateOffByAtMostOne(n, d);
      var q, est, r := n / d, Estimate(n, d).value, n % d;
      DivDef(n, d);
      QuotientAtLeast(n, d, 1);
      assert Wrap64(est - 1) == est - 1;
      var back := (est - 1) * d;
      Correction(n, d, q, r, est);
      assert Wrap64(n - back) == n - back;
    }
  }

  lemma Correction(n: nat, d: nat, q: nat, r: nat, est: nat)
    requires n == q * d + r && q >= 1 && q <= est <= q + 1
    ensures n - (est - 1) * d == if est == q then r + d else r
    ensures d + r <= n
  {
    MulLe(1, q, d);
    assert (q - 1) * d == q * d - d;
  }

  /** Unsigned division is floor division for every nonzero divisor and traps only on zero. */
  lemma UdivIsFloorDivision(n: Word64, d: Word64)
    ensures Udiv64(n, d) == if d == 0 then Trap else Value(n / d)
  {
    if d == 0 {
    } else if d < B {
      SmallDivisor(n, d);
    } else {
      LargeDivisor(n, d);
    }
  }

  // ----- Remainders and signed division -------------------------------------------------------

  /** Unsigned remainder: the C function returns only 32 bits. */
  function Umod64(n: Word64, d: Word64): Outcome<Word32> {
    var q := Udiv64(n, d);
    if q.Trap? then Trap else Value(Wrap64(n - Wrap64(d * q.value)) % B)
  }

  lemma UmodIsTruncatedRemainder(n: Word64, d: Word64)
    ensures Umod64(n, d) == if d == 0 then Trap else Value((n % d) % B)
  {
    hide Udiv64;
    UdivIsFloorDivision(n, d);
    if d != 0 {
      DivDef(n, d);
      var p, r := d * (n / d), n % d;
      assert p == n - r;
      WrapDifference(n, p);
    }
  }

  lemma WrapDifference(n: Word64, p: int)
    requires 0 <= p <= n
    ensures Wrap64(n - Wrap64(p)) == n - p
  {
  }

  /** The 32-bit result is right for every dividend exactly when the divisor is at most 2^32. */
  lemma UmodExactIffSmallDivisor(d: Word64)
    requires d != 0
    ensures (forall n: Word64 :: Umod64(n, d) == Value(n % d)) <==> d <= B
  {
    hide Udiv64, Umod64;
    if d > B {
      var n: Word64 := B; // the concrete dividend that fails
      UmodIsTruncatedRemainder(n, d);
      assert n % d == B by {
        DivUnique(n, d, 0, n);
      }
      assert Umod64(n, d) == Value(0);
    } else {
      forall n: Word64
        ensures Umod64(n, d) == Value(n % d)
      {
        UmodIsTruncatedRemainder(n, d);
        RemainderFits(n, d);
      }
    }
  }

  lemma RemainderFits(n: Word64, d: Word64)
    requires 0 < d <= B
    ensures (n % d) % B == n % d
  {
    var r := n % d;
    assert 0 <= r < B;
  }

  function Abs64(n: Int64): Word64 {
    if n >= 0 then n else Wrap64(-(Wrap64(n) as int))
  }

  /** Signed division through absolute values. */
  function Sdiv64(n: Int64, d: Int64): Outcome<Int64> {
    var q := Udiv64(Abs64(n), Abs64(d));
    if q.Trap? then Trap
    else if (n < 0) == (d < 0) then Value(ToInt64(q.value))
    else Value(ToInt64(-(ToInt64(q.value) as int)))
  }

  /** Signed remainder: the C function returns only 32 bits. */
  function Smod64(n: Int64, d: Int64): Outcome<Int32> {
    var q := Sdiv64(n, d);
    if q.Trap? then Trap else Value(ToInt32(ToInt64(n - (d as int) * (q.value as int))))
  }

  /** C's division: n = q*d + r with |r| < |d| and r either zero or of the dividend's sign. */
  ghost predicate TruncatedDivision(n: int, d: int, q: int, r: int) {
    n == q * d + r && (if d < 0 then d < r < -d else -d < r < d) && (r > 0 ==> n > 0) && (r < 0 ==> n < 0)
  }

  ghost predicate IsTruncatedQuotient(n: int, d: int, q: int) {
    exists r: int :: TruncatedDivision(n, d, q, r)
  }

  lemma TruncatedDivisionUnique(n: int, d: int, q1: int, r1: int, q2: int, r2: int)
    requires TruncatedDivision(n, d, q1, r1) && TruncatedDivision(n, d, q2, r2)
    ensures q1 == q2 && r1 == r2
  {
    assert (q1 - q2) * d == r2 - r1;
    if q1 != q2 {
      NoSmallMultiple(q1 - q2, d);
    }
  }

  /** A nonzero multiple of d is at least as large as d. */
  lemma NoSmallMultiple(k: int, d: int)
    requires d != 0 && k != 0
    ensures k * d >= d > 0 || k * d <= -d < 0 || k * d <= d < 0 || k * d >= -d > 0
  {
    var a, b: nat := if k < 0 then -k else k, if d < 0 then -d else d;
    MulLe(1, a, b);
  }

  lemma AbsIsMagnitude(n: Int64)
    ensures Abs64(n) as int == if n < 0 then -(n as int) else n as int
  {
    if n < 0 {
      var w: int := n + B2;
      assert Wrap64(n) == w;
      assert Wrap64(-w) == B2 - w;
    }
  }

  /** The signed quotient before it is squeezed into 64 bits, and its remainder. */
  lemma SdivUnwrapped(n: Int64, d: Int64) returns (q: int, r: int)
    requires d != 0
    ensures TruncatedDivision(n, d, q, r)
    ensures -H64 <= q <= H64
    ensures q == H64 <==> n == -H64 && d == -1
    ensures Sdiv64(n, d) == Value(ToInt64(q))
  {
    AbsIsMagnitude(n);
    AbsIsMagnitude(d);
    var na, da := Abs64(n), Abs64(d);
    UdivIsFloorDivision(na, da);
    DivDef(na, da);
    var qa: int, ra: int := na / da, na % da;
    assert 0 <= qa <= H64 && (qa == H64 <==> na == H64 && da == 1) by {
      QuotientExtreme(na, da, H64);
    }
    SignedQuotient(n, d, qa, ra);
    q := if (n < 0) == (d < 0) then qa else -qa;
    r := if n < 0 then -ra else ra;
    assert Sdiv64(n, d) == Value(ToInt64(q)) by {
      NegateTwice(qa);
    }
  }

  lemma QuotientExtreme(n: nat, d: nat, h: nat)
    requires d > 0 && n <= h && h > 0
    ensures n / d <= h && (n / d == h <==> n == h && d == 1)
  {
    QuotientSmaller(n, d);
    DivDef(n, d);
    if d >= 2 {
      MulLe(2, d, n / d);
    }
  }

  lemma NegateTwice(q: int)
    requires 0 <= q <= H64
    ensures ToInt64(-(ToInt64(q) as int)) == ToInt64(-q)
  {
  }

  lemma SignedQuotient(n: int, d: int, qa: nat, ra: nat)
    requires (if n < 0 then -n else n) == qa * (if d < 0 then -d else d) + ra
    requires ra < if d < 0 then -d else d
    ensures TruncatedDivision(n, d, if (n < 0) == (d < 0) then qa else -(qa as int), if n < 0 then -(ra as int) else ra)
  {
  }

  /** Signed division truncates toward zero except for the one pair whose quotient is 2^63,
      where it wraps to the most negative number; only a zero divisor traps. */
  lemma SdivTruncatesTowardZero(n: Int64, d: Int64)
    ensures Sdiv64(n, d).Trap? <==> d == 0
    ensures d != 0 ==> (IsTruncatedQuotient(n, d, Sdiv64(n, d).value) <==> !(n == -H64 && d == -1))
    ensures n == -H64 && d == -1 ==> Sdiv64(n, d) == Value(-H64)
  {
    hide Udiv64, Sdiv64, TruncatedDivision;
    if d == 0 {
      SdivByZero(n);
    } else {
      var q, r := SdivUnwrapped(n, d);
      OnlyTruncatedQuotient(n, d, q, r, ToInt64(q));
      assert ToInt64(q) == if q == H64 then -H64 else q;
    }
  }

  lemma SdivByZero(n: Int64)
    ensures Sdiv64(n, 0) == Trap
  {
  }

  lemma OnlyTruncatedQuotient(n: int, d: int, q: int, r: int, q': int)
    requires TruncatedDivision(n, d, q, r)
    ensures IsTruncatedQuotient(n, d, q') <==> q' == q
  {
    forall r': int {:trigger TruncatedDivision(n, d, q', r')} | TruncatedDivision(n, d, q', r')
      ensures q' == q
    {
      TruncatedDivisionUnique(n, d, q, r, q', r');
    }
  }

  /** The signed remainder is C's remainder cut to 32 bits, also for the overflowing quotient. */
  lemma SmodIsTruncatedRemainder(n: Int64, d: Int64, q: int, r: int)
    requires d != 0 && TruncatedDivision(n, d, q, r)
    ensures Smod64(n, d) == Value(ToInt32(r))
    ensures Smod64(n, d) == Value(r) <==> -H32 <= r < H32
  {
    hide Udiv64, Sdiv64, TruncatedDivision, ToInt32, ToInt64;
    var q1, r1 := SdivUnwrapped(n, d);
    TruncatedDivisionUnique(n, d, q, r, q1, r1);
    RemainderWraps(n, d, q, r);
    ToInt32Exact(r);
  }

  /** The 32-bit signed remainder is right for every dividend exactly when |d| <= 2^31. */
  lemma SmodExactIffSmallDivisor(d: Int64)
    requires d != 0
    ensures (forall n: Int64, q: int, r: int :: TruncatedDivision(n, d, q, r) ==> Smod64(n, d) == Value(r))
       <==> -H32 <= d <= H32
  {
    hide Smod64, Sdiv64;
    if -H32 <= d <= H32 {
      forall n: Int64, q: int, r: int | TruncatedDivision(n, d, q, r)
        ensures Smod64(n, d) == Value(r)
      {
        SmodIsTruncatedRemainder(n, d, q, r);
      }
    } else {
      var n: Int64 := H32; // the concrete dividend that fails
      assert TruncatedDivision(n, d, 0, n);
      SmodIsTruncatedRemainder(n, d, 0, n);
    }
  }

  lemma ToInt32Exact(r: int)
    ensures ToInt32(r) == r <==> -H32 <= r < H32
  {
  }

  lemma RemainderWraps(n: Int64, d: Int64, q: int, r: int)
    requires TruncatedDivision(n, d, q, r) && -H64 <= q <= H64
    requires q == H64 ==> n == -H64 && d == -1
    ensures ToInt64(n - (d as int) * (ToInt64(q) as int)) == r
  {
    var product := (d as int) * (ToInt64(q) as int);
    if q == H64 {
      assert n - product == r - B2;
    } else {
      assert product == q * d;
      assert n - product == r;
    }
  }
}
