/** src/lib/arithmetic.c: 64-bit division built from a 64-by-32-bit divide
    instruction.  Registers are natural numbers; every place where C truncates
    or wraps is written as a remainder modulo a power of two. */
module Arithmetic {
  import opened Bits
  import opened Words

  const B64: nat := 0x1_0000_0000_0000_0000
  const B63: nat := 0x8000_0000_0000_0000
  const MIN64: int := -0x8000_0000_0000_0000

  datatype Outcome<T> = Trap | Quotient(value: T)

  /** The DIVL instruction: traps unless the quotient fits in 32 bits. */
  method Divl(n: nat, d: nat) returns (r: Outcome<nat>)
    ensures r.Quotient? <==> n < WORD * d
    ensures r.Quotient? ==> r.value * d <= n < (r.value + 1) * d
  {
    if d == 0 {
      return Trap;
    }
    ghost var q := DivBounds(n, d);
    MulMonotone(d, WORD, if q < WORD then WORD else q);
    MulMonotone(d, if q < WORD then q + 1 else WORD, WORD);
    r := if n / d >= WORD then Trap else Quotient(n / d);
  }

  lemma DivBounds(n: nat, d: nat) returns (q: nat)
    requires d > 0
    ensures q == n / d && q * d <= n < (q + 1) * d
  {
    q := n / d;
  }

  lemma DivAtLeast(n: nat, d: nat, k: nat)
    requires d > 0 && k * d <= n
    ensures k <= n / d
  {
    var q := DivBounds(n, d);
    MulMonotone(d, q + 1, if k <= q then q + 1 else k);
  }

  lemma DivAtMost(n: nat, d: nat, k: nat)
    requires d > 0 && n < (k + 1) * d
    ensures n / d <= k
  {
    var q := DivBounds(n, d);
    MulMonotone(d, k + 1, if q <= k then k + 1 else q);
  }

  lemma DivUnique(n: nat, d: nat, q: nat)
    requires d > 0 && q * d <= n < (q + 1) * d
    ensures n / d == q
  {
    ModUnique(n, d, q, n - q * d);
  }

  /** One test of nlz(): shift left by k, where c = 2^k, if the top k bits are zero. */
  method NlzStep(ghost x0: nat, n: nat, x: nat, k: nat, c: nat) returns (n': nat, x': nat)
    requires Shifted(x0, n, x) && x < WORD && c == Pow2(k) && c in {2, 4, 0x10, 0x100, 0x1_0000}
    requires WORD / c <= x * c
    ensures Shifted(x0, n', x') && WORD / c <= x' < WORD && n <= n' <= n + k
  {
    n', x' := n, x;
    if x < WORD / c {
      assert x * c < WORD;
      Shift(x0, n, x, k, c);
      n', x' := n + k, (x * c) % WORD;
    }
  }

  /** nlz(): the number of leading zero bits of a nonzero 32-bit word. */
  method Nlz(x0: nat) returns (n: nat)
    requires 0 < x0 < WORD
    ensures n < 32 && WORD / 2 <= x0 * Pow2(n) < WORD
  {
    var x := x0;
    Pow2Table();
    n, x := NlzStep(x0, 0, x, 16, 0x1_0000);
    n, x := NlzStep(x0, n, x, 8, 0x100);
    n, x := NlzStep(x0, n, x, 4, 0x10);
    n, x := NlzStep(x0, n, x, 2, 4);
    n, x := NlzStep(x0, n, x, 1, 2);
  }

  ghost predicate Shifted(x0: nat, n: nat, x: nat) {
    x == x0 * Pow2(n)
  }

  /** Shifting left by k bits that are all zero loses nothing. */
  lemma Shift(x0: nat, n: nat, x: nat, k: nat, c: nat)
    requires Shifted(x0, n, x) && c == Pow2(k) && x * c < WORD
    ensures (x * c) % WORD == x * c && Shifted(x0, n + k, x * c)
  {
    Pow2Add(n, k);
    Associate(x0, Pow2(n), c);
    ModUnique(x * c, WORD, 0, x * c);
  }

  lemma Pow2Table()
    ensures Pow2(0) == 1 && Pow2(1) == 2 && Pow2(2) == 4 && Pow2(4) == 0x10 && Pow2(8) == 0x100 && Pow2(16) == 0x1_0000
    ensures Pow2(31) == 0x8000_0000
  {
    assert Pow2(4) == 16;
    assert Pow2(8) == 256;
    assert Pow2(12) == 4096;
    assert Pow2(16) == 65536;
    assert Pow2(20) == 0x10_0000;
    assert Pow2(24) == 0x100_0000;
    assert Pow2(28) == 0x1000_0000;
    assert Pow2(31) == 0x8000_0000;
  }

  // ---------------------------------------------------------------------
  // A divisor of 32 bits: two digits of long division
  // ---------------------------------------------------------------------

  /** n = b n1 + n0 and n1 = q1 d + r1, so the rest of n is b r1 + n0. */
  lemma LongDivision(n: nat, d: nat, n1: nat, n0: nat, q1: nat, r1: nat, low: nat)
    requires n == WORD * n1 + n0 && n0 < WORD && n1 == q1 * d + r1 && r1 < d && low == WORD * r1 + n0
    ensures low < WORD * d
  {
  }

  lemma LongDivisionQuotient(n: nat, d: nat, n1: nat, n0: nat, q1: nat, r1: nat, low: nat, k: nat)
    requires n < B64 && 0 < d && n == WORD * n1 + n0 && n1 == q1 * d + r1 && low == WORD * r1 + n0
    requires k * d <= low < (k + 1) * d
    ensures k + WORD * q1 == n / d < B64
  {
    LongDivisionProducts(n, d, n1, n0, q1, r1, low, k);
    DivUnique(n, d, k + WORD * q1);
    QuotientBelow(n, d);
  }

  lemma LongDivisionProducts(n: nat, d: nat, n1: nat, n0: nat, q1: nat, r1: nat, low: nat, k: nat)
    requires n == WORD * n1 + n0 && n1 == q1 * d + r1 && low == WORD * r1 + n0
    requires k * d <= low < (k + 1) * d
    ensures (k + WORD * q1) * d <= n < (k + WORD * q1 + 1) * d
  {
    assert (k + WORD * q1) * d == k * d + WORD * (q1 * d);
    assert (k + WORD * q1 + 1) * d == (k + 1) * d + WORD * (q1 * d);
  }

  // ---------------------------------------------------------------------
  // A longer divisor: estimate, then correct
  // ---------------------------------------------------------------------

  /** The normalised high word v = (d << s) >> 32 of the divisor, where p = 2^s
      and r = 2^(31-s): it has its top bit set and 2rv is just below d. */
  lemma Normalised(d: nat, p: nat, r: nat, v: nat)
    requires WORD <= d < B64 && p * r == WORD / 2 && p > 0 && r > 0
    requires WORD / 2 <= (d / WORD) * p < WORD
    requires v == d * p / WORD
    ensures d * p < B64
    ensures WORD / 2 <= v < WORD
    ensures 2 * r * v <= d < 2 * r * v + 2 * r
  {
    var d1, d0 := d / WORD, d % WORD;
    HighWord(d1, p, r);
    assert d * p == WORD * (d1 * p) + d0 * p;
    MulMonotone(p, d0, WORD - 1);
    assert d * p < WORD * (d1 * p) + WORD * p;
    assert d * p < B64 && d1 * p <= v < WORD;
    assert v * WORD <= d * p < (v + 1) * WORD;
    Unscale(d, p, r, v);
  }

  lemma HighWord(d1: nat, p: nat, r: nat)
    requires p * r == WORD / 2 && p > 0 && d1 * p < WORD
    ensures d1 * p + p <= WORD
  {
    assert p * (2 * r) == WORD;
    if d1 >= 2 * r {
      MulMonotone(p, 2 * r, d1);
    } else {
      MulMonotone(p, d1 + 1, 2 * r);
    }
  }

  /** Multiplying by 2r / 2^32, which is 1 / p. */
  lemma Unscale(d: nat, p: nat, r: nat, v: nat)
    requires p * r == WORD / 2 && r > 0 && v * WORD <= d * p < (v + 1) * WORD
    ensures 2 * r * v <= d < 2 * r * v + 2 * r
  {
    var t := 2 * r;
    assert (d * p) * t == d * WORD by { assert (d * p) * t == d * (2 * (p * r)); }
    MulMonotone(t, v * WORD, d * p);
    MulMonotone(t, d * p + 1, (v + 1) * WORD);
    assert t * (v * WORD) == (t * v) * WORD;
    assert t * ((v + 1) * WORD) == (t * v + t) * WORD;
    assert t * (d * p + 1) > d * WORD;
  }

  /** The estimate q = n / (2rv) is floor(n / d) or one more. */
  lemma Estimate(n: nat, d: nat, r: nat, v: nat)
    requires n < B64 && d > 0 && r > 0 && WORD / 2 <= v
    requires 2 * r * v <= d < 2 * r * v + 2 * r
    requires WORD <= d && 2 * r <= WORD
    ensures n / d <= n / (2 * r * v) <= n / d + 1
  {
    var e := 2 * r * v;
    assert 0 < e by { MulMonotone(2 * r, 1, v); }
    var f := DivBounds(n, d);
    MulMonotone(f, e, d);
    DivAtLeast(n, e, f);
    TooHigh(n, d, r, v, e, f);
    DivAtMost(n, e, f + 1);
  }

  /** (f + 2) e exceeds n as soon as (f + 1) d does. */
  lemma TooHigh(n: nat, d: nat, r: nat, v: nat, e: nat, f: nat)
    requires n < B64 && r > 0 && WORD / 2 <= v && WORD <= d && 2 * r <= WORD
    requires e == 2 * r * v && e <= d < e + 2 * r && n < (f + 1) * d
    ensures n < (f + 2) * e
  {
    if n >= (f + 2) * e {
      // Then (f + 1)(d - e) >= e + 1, though both factors are small.
      assert (f + 1) * d == (f + 1) * e + (f + 1) * (d - e);
      assert (f + 2) * e == (f + 1) * e + e;
      assert (f + 1) * (d - e) > e;
      SmallProduct(n, d, r, v, e, f);
    }
  }

  lemma SmallProduct(n: nat, d: nat, r: nat, v: nat, e: nat, f: nat)
    requires n < B64 && r > 0 && WORD / 2 <= v && WORD <= d && 2 * r <= WORD
    requires e == 2 * r * v && e <= d < e + 2 * r && (f + 2) * e <= n
    ensures (f + 1) * (d - e) <= e
  {
    var t := 2 * r;
    MulMonotone(t, WORD / 2, v);
    MulMonotone(f + 1, d - e, t - 1);
    if r > 1 {
      WideStep(n, t, e, f);
    } else {
      NarrowStep(n, e, f);
    }
  }

  lemma WideStep(n: nat, t: nat, e: nat, f: nat)
    requires n < B64 && t >= 4 && t * (WORD / 2) <= e && (f + 2) * e <= n
    ensures (f + 1) * (t - 1) <= e
  {
    var w := (f + 2) * t;
    MulMonotone(f + 2, t * (WORD / 2), e);
    assert w * (WORD / 2) == (f + 2) * (t * (WORD / 2));
    assert w < 2 * WORD;
    assert w == (f + 1) * (t - 1) + (f + 1) + t;
  }

  lemma NarrowStep(n: nat, e: nat, f: nat)
    requires n < B64 && WORD <= e && (f + 2) * e <= n
    ensures f + 1 <= e
  {
    MulMonotone(f + 2, WORD, e);
  }

  lemma DivDiv(n: nat, a: nat, b: nat)
    requires a > 0 && b > 0
    ensures a * b > 0 && n / a / b == n / (a * b)
  {
    MulAtLeast(a, b);
    var m := DivBounds(n, a);
    var q := DivBounds(m, b);
    Associate(q, b, a);
    Associate(q + 1, b, a);
    MulMonotone(a, q * b, m);
    MulMonotone(a, m + 1, (q + 1) * b);
    DivUnique(n, a * b, q);
  }

  lemma Associate(q: nat, b: nat, a: nat)
    ensures a * (q * b) == (q * b) * a == q * (a * b) == q * (b * a)
  {
  }

  /** Correcting the estimate: the subtraction does not wrap. */
  lemma Correct(n: nat, d: nat, q: nat)
    requires 0 < d <= n < B64 && n / d <= q <= n / d + 1
    ensures 0 < q && (q - 1) * d <= n
    ensures n / d == if n - (q - 1) * d < d then q - 1 else q
  {
    var f := DivBounds(n, d);
    assert f > 0;
    MulMonotone(d, q - 1, f);
    assert n - (q - 1) * d < d <==> n < q * d;
  }

  lemma QuotientBelow(n: nat, d: nat)
    requires 0 < d
    ensures n / d <= n
  {
    var q := DivBounds(n, d);
    MulAtLeast(q, d);
  }

  lemma MulAtLeast(q: nat, d: nat)
    requires 0 < d
    ensures q <= q * d
  {
    assert q * (d - 1) >= 0;
  }

  /** udiv64(): floor(n / d) for all 64-bit n and d; it traps only for d = 0. */
  method Udiv64(n: nat, d: nat) returns (r: Outcome<nat>)
    requires n < B64 && d < B64
    ensures r == if d == 0 then Trap else Quotient(n / d)
  {
    if d / WORD == 0 {
      if d == 0 {
        return Trap;  // n1 % d0 divides by zero
      }
      r := Udiv64Short(n, d);
    } else if n < d {
      DivUnique(n, d, 0);
      r := Quotient(0);
    } else {
      r := Udiv64Long(n, d);
    }
  }

  /** The branch of udiv64() for a 32-bit divisor. */
  method Udiv64Short(n: nat, d: nat) returns (r: Outcome<nat>)
    requires n < B64 && 0 < d < WORD
    ensures r == Quotient(n / d)
  {
    var n1, n0 := n / WORD, n % WORD;
    var q1, r1 := n1 / d, n1 % d;
    var low := WORD * r1 + n0;
    DivModIs(n1, d, q1, r1);
    LongDivision(n, d, n1, n0, q1, r1, low);
    r := Divl(low, d);
    LongDivisionQuotient(n, d, n1, n0, q1, r1, low, r.value);
    var sum: nat := r.value + WORD * q1;
    r := Quotient(sum % B64);
  }

  lemma DivModIs(n: nat, d: nat, q: nat, r: nat)
    requires d > 0 && q == n / d && r == n % d
    ensures n == q * d + r && r < d
  {
  }

  /** The last line of udiv64(), with its wrapping subtraction. */
  method FixUp(n: nat, d: nat, q: nat) returns (r: nat)
    requires 0 < d <= n < B64 && n / d <= q <= n / d + 1
    ensures r == n / d
  {
    Correct(n, d, q);
    var rest := n - (q - 1) * d;
    ModUnique(rest, B64, 0, rest);
    r := if rest % B64 < d then q - 1 else q;
  }

  /** The branch of udiv64() that estimates and corrects. */
  method Udiv64Long(n: nat, d: nat) returns (r: Outcome<nat>)
    requires WORD <= d <= n < B64
    ensures r == Quotient(n / d)
  {
    var d1 := d / WORD;
    var s := Nlz(d1);
    var v := ((d * Pow2(s)) % B64) / WORD;
    LongEstimate(n, d, s, v);
    r := Divl(n / 2, v);
    DivUnique(n / 2, v, r.value);
    var exact := FixUp(n, d, r.value / Pow2(31 - s));
    r := Quotient(exact);
  }

  lemma LongEstimate(n: nat, d: nat, s: nat, v: nat)
    requires WORD <= d <= n < B64 && s < 32 && WORD / 2 <= (d / WORD) * Pow2(s) < WORD
    requires v == ((d * Pow2(s)) % B64) / WORD
    ensures 0 < v && n / 2 < WORD * v
    ensures n / d <= n / 2 / v / Pow2(31 - s) <= n / d + 1
  {
    var p, h := Pow2(s), Pow2(31 - s);
    ShiftPair(s);
    Normalised(d, p, h, d * p / WORD);
    ModUnique(d * p, B64, 0, d * p);
    MulMonotone(WORD, WORD / 2, v);
    EstimateOf(n, d, h, v, p);
  }

  lemma ShiftPair(s: nat)
    requires s < 32
    ensures Pow2(s) * Pow2(31 - s) == WORD / 2
  {
    Pow2Add(s, 31 - s);
    Pow2Table();
  }

  lemma EstimateOf(n: nat, d: nat, h: nat, v: nat, p: nat)
    requires n < B64 && WORD <= d && p * h == WORD / 2 && p > 0 && h > 0 && WORD / 2 <= v
    requires 2 * h * v <= d < 2 * h * v + 2 * h
    ensures n / d <= n / 2 / v / h <= n / d + 1
  {
    DivDiv(n, 2, v);
    DivDiv(n, 2 * v, h);
    assert 2 * v * h == 2 * h * v;
    MulMonotone(h, 1, p);
    Estimate(n, d, h, v);
  }

  // ---------------------------------------------------------------------
  // Remainders and signed operands
  // ---------------------------------------------------------------------

  /** umod64(): its result type keeps only 32 bits of the remainder, so it is
      the remainder exactly when that fits in them. */
  method Umod64(n: nat, d: nat) returns (r: Outcome<nat>)
    requires n < B64 && d < B64
    ensures d == 0 ==> r == Trap
    ensures d != 0 ==> r == Quotient((n % d) % WORD)
    ensures d != 0 ==> (r.value == n % d <==> n % d < WORD)
  {
    var q := Udiv64(n, d);
    match q {
      case Trap => r := Trap;
      case Quotient(value) =>
        assert n - d * value == n % d;
        r := Quotient(((n - d * value) % B64) % WORD);
    }
  }

  predicate IsInt64(x: int) {
    MIN64 <= x < B63
  }

  function Abs(x: int): (a: nat) {
    if x < 0 then -x else x
  }

  /** The 64-bit two's complement value of x. */
  function ToInt64(x: int): (r: int)
    ensures IsInt64(r)
    ensures IsInt64(x) ==> r == x
  {
    (x + B63) % B64 - B63
  }

  function ToInt32(x: int): (r: int)
    ensures -0x8000_0000 <= r < 0x8000_0000
    ensures -0x8000_0000 <= x < 0x8000_0000 ==> r == x
  {
    (x + 0x8000_0000) % WORD - 0x8000_0000
  }

  /** Division as C defines it: truncation toward zero. */
  ghost predicate Truncated(n: int, d: int, q: int)
    requires d != 0
  {
    var m := n - q * d;
    Abs(m) < Abs(d) && (m == 0 || (m < 0 <==> n < 0))
  }

  function SignedQuotient(n: int, d: int): (q: int)
    requires d != 0
  {
    if (n < 0) == (d < 0) then Abs(n) / Abs(d) else -(Abs(n) / Abs(d))
  }

  lemma SignedQuotientTruncates(n: int, d: int)
    requires d != 0
    ensures Truncated(n, d, SignedQuotient(n, d))
  {
    var q := DivBounds(Abs(n), Abs(d));
    SignCases(n, d, q, Abs(n) - q * Abs(d));
  }

  lemma SignCases(n: int, d: int, q: int, m: int)
    requires m == Abs(n) - q * Abs(d)
    ensures n - (if (n < 0) == (d < 0) then q else -q) * d == if n < 0 then -m else m
  {
    assert q * (-d) == -(q * d) && (-q) * d == -(q * d);
  }

  /** What the sign fix-up of sdiv64() makes of the quotient of the magnitudes. */
  function Signed(n: int, d: int, qAbs: nat): (r: int) {
    if (n < 0) == (d < 0) then ToInt64(qAbs) else ToInt64(-ToInt64(qAbs))
  }

  /** It is the truncated quotient for all operands but -2^63 and -1. */
  lemma SignedIsQuotient(n: int, d: int, q: nat)
    requires IsInt64(n) && IsInt64(d) && d != 0 && q == Abs(n) / Abs(d)
    ensures Signed(n, d, q) == if n == MIN64 && d == -1 then MIN64 else SignedQuotient(n, d)
    ensures Truncated(n, d, Signed(n, d, q)) <==> !(n == MIN64 && d == -1)
  {
    QuotientBelow(Abs(n), Abs(d));
    SignedQuotientTruncates(n, d);
    if q == B63 {
      FullQuotient(Abs(n), Abs(d));
    }
  }

  /** sdiv64(): truncates toward zero for every representable quotient; the one
      quotient that is not representable, -2^63 / -1, comes out as -2^63. */
  method Sdiv64(n: int, d: int) returns (r: Outcome<int>)
    requires IsInt64(n) && IsInt64(d)
    ensures d == 0 ==> r == Trap
    ensures d != 0 ==> r == Quotient(if n == MIN64 && d == -1 then MIN64 else SignedQuotient(n, d))
  {
    var nAbs: nat := if n >= 0 then n else (-n) % B64;
    var dAbs: nat := if d >= 0 then d else (-d) % B64;
    assert nAbs == Abs(n) && dAbs == Abs(d);
    var q := Udiv64(nAbs, dAbs);
    match q {
      case Trap => r := Trap;
      case Quotient(qAbs) =>
        SignedIsQuotient(n, d, qAbs);
        r := Quotient(Signed(n, d, qAbs));
    }
  }

  /** Only 2^63 / 1 is as large as 2^63. */
  lemma FullQuotient(n: nat, d: nat)
    requires n <= B63 && 0 < d && n / d == B63
    ensures n == B63 && d == 1
  {
    var q := DivBounds(n, d);
    if d > 1 {
      MulMonotone(B63, 2, d);
    }
  }

  /** smod64(): likewise, the remainder exactly when it fits in a signed 32-bit word;
      also for -2^63 and -1, where it is zero. */
  method Smod64(n: int, d: int) returns (r: Outcome<int>)
    requires IsInt64(n) && IsInt64(d)
    ensures d == 0 ==> r == Trap
    ensures d != 0 ==>
      var m := n - d * SignedQuotient(n, d);
      r == Quotient(ToInt32(m)) && (r.value == m <==> -0x8000_0000 <= m < 0x8000_0000)
  {
    var q := Sdiv64(n, d);
    match q {
      case Trap => r := Trap;
      case Quotient(value) =>
        MinByMinusOne();
        r := Quotient(ToInt32(n - d * value));
    }
  }

  lemma MinByMinusOne()
    ensures SignedQuotient(MIN64, -1) == B63 && ToInt32(MIN64 - (-1) * MIN64) == ToInt32(MIN64 - (-1) * B63) == 0
  {
  }
}
