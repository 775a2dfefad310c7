/** Bitwise operators on unsigned integers, bit by bit from the low end, and the
    arithmetic they amount to.  Every word of the kernel is a natural number
    below a power of two; nothing here depends on its width. */
module Bits {
  import opened Words

  function Pow2(k: nat): (p: nat)
    ensures p >= 1
  {
    if k == 0 then 1 else 2 * Pow2(k - 1)
  }

  /** Bit k of x. */
  predicate Bit(x: nat, k: nat) {
    if k == 0 then x % 2 == 1 else Bit(x / 2, k - 1)
  }

  function And(x: nat, y: nat): (r: nat)
    ensures r <= x && r <= y
  {
    if x == 0 || y == 0 then 0 else 2 * And(x / 2, y / 2) + (if x % 2 == 1 && y % 2 == 1 then 1 else 0)
  }

  function Or(x: nat, y: nat): (r: nat)
    ensures r >= x && r >= y
  {
    if x == 0 then y else if y == 0 then x
    else 2 * Or(x / 2, y / 2) + (if x % 2 == 1 || y % 2 == 1 then 1 else 0)
  }

  /** The complement of a 32-bit word. */
  function Not(x: nat): (r: nat)
    requires x < WORD
    ensures r < WORD
  {
    WORD - 1 - x
  }

  // ---------------------------------------------------------------------
  // Bits of the results
  // ---------------------------------------------------------------------

  lemma {:induction false} BitOfZero(k: nat)
    ensures !Bit(0, k)
  {
    if k > 0 { BitOfZero(k - 1); }
  }

  lemma {:induction false} AndHalf(x: nat, y: nat)
    ensures And(x, y) / 2 == And(x / 2, y / 2)
    ensures And(x, y) % 2 == if x % 2 == 1 && y % 2 == 1 then 1 else 0
  {
  }

  lemma {:induction false} OrHalf(x: nat, y: nat)
    ensures Or(x, y) / 2 == Or(x / 2, y / 2)
    ensures Or(x, y) % 2 == if x % 2 == 1 || y % 2 == 1 then 1 else 0
  {
  }

  lemma {:induction false} BitOfAnd(x: nat, y: nat, k: nat)
    ensures Bit(And(x, y), k) <==> Bit(x, k) && Bit(y, k)
  {
    if x == 0 || y == 0 {
      BitOfZero(k);
    } else if k > 0 {
      AndHalf(x, y);
      BitOfAnd(x / 2, y / 2, k - 1);
    }
  }

  lemma {:induction false} BitOfOr(x: nat, y: nat, k: nat)
    ensures Bit(Or(x, y), k) <==> Bit(x, k) || Bit(y, k)
  {
    if x == 0 || y == 0 {
      BitOfZero(k);
    } else if k > 0 {
      OrHalf(x, y);
      BitOfOr(x / 2, y / 2, k - 1);
    }
  }

  lemma {:induction false} BitOfPow2(j: nat, k: nat)
    ensures Bit(Pow2(j), k) <==> j == k
  {
    if j == 0 {
      if k > 0 { BitOfZero(k - 1); }
    } else if k > 0 {
      assert Pow2(j) / 2 == Pow2(j - 1);
      BitOfPow2(j - 1, k - 1);
    }
  }

  /** Bits below n of the n-bit complement of x. */
  lemma {:induction false} BitOfComplement(x: nat, n: nat, k: nat)
    requires x < Pow2(n) && k < n
    ensures Bit(Pow2(n) - 1 - x, k) <==> !Bit(x, k)
  {
    if k > 0 {
      assert (Pow2(n) - 1 - x) / 2 == Pow2(n - 1) - 1 - x / 2;
      BitOfComplement(x / 2, n - 1, k - 1);
    }
  }

  lemma Pow2Of32()
    ensures Pow2(32) == WORD && Pow2(12) == 4096 && Pow2(10) == 1024 && Pow2(22) == 4194304
  {
    assert Pow2(10) == 1024;
    assert Pow2(12) == 4096;
    assert Pow2(16) == 65536;
    assert Pow2(22) == 4194304;
    assert Pow2(28) == 268435456;
    assert Pow2(32) == WORD;
  }

  lemma {:induction false} BitOfNot(x: nat, k: nat)
    requires x < WORD && k < 32
    ensures Bit(Not(x), k) <==> !Bit(x, k)
  {
    Pow2Of32();
    BitOfComplement(x, 32, k);
  }

  /** A word without the bit k is zero in the masked test of bit k, and only then. */
  lemma {:induction false} AndPow2(x: nat, k: nat)
    ensures And(x, Pow2(k)) == if Bit(x, k) then Pow2(k) else 0
  {
    if x == 0 {
      BitOfZero(k);
    } else if k > 0 {
      assert Pow2(k) / 2 == Pow2(k - 1);
      AndPow2(x / 2, k - 1);
    } else {
      assert And(x / 2, 0) == 0;
    }
  }

  // ---------------------------------------------------------------------
  // Masks as arithmetic
  // ---------------------------------------------------------------------

  /** One step of a mask with low bit m % 2. */
  lemma {:induction false} MaskStep(x: nat, m: nat, h: nat)
    requires And(x / 2, m / 2) == h
    ensures And(x, m) == 2 * h + if x % 2 == 1 && m % 2 == 1 then 1 else 0
  {
    AndHalf(x, m);
  }

  /** x & (2^k - 1) is the remainder modulo 2^k. */
  lemma {:induction false} AndLowMask(x: nat, k: nat)
    ensures And(x, Pow2(k) - 1) == x % Pow2(k)
  {
    if k > 0 {
      AndLowMask(x / 2, k - 1);
      LowMaskStep(x, Pow2(k - 1));
    } else {
      assert x % 1 == 0;
    }
  }

  lemma {:induction false} LowMaskStep(x: nat, p: nat)
    requires p > 0 && And(x / 2, p - 1) == (x / 2) % p
    ensures And(x, 2 * p - 1) == x % (2 * p)
  {
    MaskStep(x, 2 * p - 1, (x / 2) % p);
    HalfMod(x, p);
  }

  lemma HalfMod(x: nat, p: nat)
    requires p > 0
    ensures x % (2 * p) == 2 * ((x / 2) % p) + x % 2
  {
    var q, r := (x / 2) / p, (x / 2) % p;
    assert x / 2 == p * q + r;
    assert x == (2 * p) * q + (2 * r + x % 2) by { assert x == 2 * (x / 2) + x % 2; }
    ModUnique(x, 2 * p, q, 2 * r + x % 2);
  }

  lemma MulMonotone(d: nat, a: int, b: int)
    requires a <= b
    ensures d * a <= d * b
  {
    assert d * (b - a) >= 0;
  }

  lemma ModUnique(x: nat, d: nat, q: nat, r: nat)
    requires d > 0 && x == d * q + r && r < d
    ensures x / d == q && x % d == r
  {
    var q', r' := x / d, x % d;
    if q > q' {
      MulMonotone(d, q' + 1, q);
    } else if q < q' {
      MulMonotone(d, q + 1, q');
    }
  }

  /** x & ~(2^k - 1) rounds an n-bit x down to a multiple of 2^k. */
  lemma {:induction false} AndHighMask(x: nat, k: nat, n: nat)
    requires x < Pow2(n) && k <= n
    ensures Pow2(k) <= Pow2(n)
    ensures And(x, Pow2(n) - Pow2(k)) == x - x % Pow2(k)
  {
    if k == 0 {
      AndAllOnes(x, n);
    } else {
      AndHighMask(x / 2, k - 1, n - 1);
      HighMaskStep(x, Pow2(k - 1), Pow2(n - 1), Pow2(k), Pow2(n));
    }
  }

  lemma {:induction false} HighMaskStep(x: nat, p: nat, q: nat, p2: nat, q2: nat)
    requires 0 < p <= q && p2 == 2 * p && q2 == 2 * q && And(x / 2, q - p) == x / 2 - (x / 2) % p
    ensures And(x, q2 - p2) == x - x % p2
  {
    MaskStep(x, 2 * q - 2 * p, x / 2 - (x / 2) % p);
    HalfMod(x, p);
  }

  lemma {:induction false} AndAllOnes(x: nat, n: nat)
    requires x < Pow2(n)
    ensures And(x, Pow2(n) - 1) == x
  {
    AndLowMask(x, n);
    ModUnique(x, Pow2(n), 0, x);
  }

  lemma {:induction false} Pow2Monotone(j: nat, k: nat)
    requires j <= k
    ensures Pow2(j) <= Pow2(k)
  {
    if j < k { Pow2Monotone(j, k - 1); }
  }

  lemma {:induction false} Pow2Add(j: nat, k: nat)
    ensures Pow2(j + k) == Pow2(j) * Pow2(k)
  {
    if j > 0 {
      Pow2Add(j - 1, k);
      assert Pow2(j + k) == 2 * (Pow2(j - 1) * Pow2(k)) == Pow2(j) * Pow2(k);
    }
  }

  /** Or with bits below an aligned value is addition. */
  lemma {:induction false} OrIsAdd(x: nat, y: nat, k: nat)
    requires x % Pow2(k) == 0 && y < Pow2(k)
    ensures Or(x, y) == x + y
  {
    if x != 0 && y != 0 {
      var p := Pow2(k - 1);
      HalfMod(x, p);
      assert x % 2 == 0 && (x / 2) % p == 0;
      OrIsAdd(x / 2, y / 2, k - 1);
    }
  }

  // ---------------------------------------------------------------------
  // Powers of two
  // ---------------------------------------------------------------------

  ghost predicate IsPow2(x: nat) {
    exists k: nat :: Pow2(k) == x
  }

  lemma {:induction false} Pow2Half(x: nat)
    requires x % 2 == 0 && x > 0
    ensures IsPow2(x) <==> IsPow2(x / 2)
  {
    if IsPow2(x) {
      var k: nat :| Pow2(k) == x;
      assert k > 0;
      assert Pow2(k - 1) == x / 2;
    }
    if IsPow2(x / 2) {
      var k: nat :| Pow2(k) == x / 2;
      assert Pow2(k + 1) == x;
    }
  }

  /** Clearing the lowest set bit leaves zero exactly for powers of two. */
  lemma {:induction false} TurnOffLeast(x: nat)
    requires x > 0
    ensures And(x, x - 1) < x
    ensures And(x, x - 1) == 0 <==> IsPow2(x)
  {
    if x % 2 == 1 {
      assert x > 1 ==> (x - 1) / 2 == x / 2;
      AndSelf(x / 2);
      OddPow2(x);
    } else {
      assert (x - 1) / 2 == x / 2 - 1;
      TurnOffLeast(x / 2);
      Pow2Half(x);
    }
  }

  lemma {:induction false} OddPow2(x: nat)
    requires x % 2 == 1
    ensures IsPow2(x) <==> x == 1
  {
    assert Pow2(0) == 1;
    if IsPow2(x) {
      var k: nat :| Pow2(k) == x;
      assert k > 0 ==> Pow2(k) == 2 * Pow2(k - 1);
    }
  }

  lemma {:induction false} AndSelf(x: nat)
    ensures And(x, x) == x
  {
    if x > 0 { AndSelf(x / 2); }
  }

  lemma AndDouble(x: nat, m: nat)
    ensures And(x, 2 * m) == 2 * And(x / 2, m)
  {
    AndHalf(x, 2 * m);
  }

  /** x shifted right by k. */
  function Shr(x: nat, k: nat): (r: nat) {
    if k == 0 then x else Shr(x / 2, k - 1)
  }

  /** x shifted left by k. */
  function Shl(x: nat, k: nat): (r: nat) {
    if k == 0 then x else 2 * Shl(x, k - 1)
  }

  /** A mask whose low bits are zero looks at the high part only. */
  lemma {:induction false} AndShl(x: nat, m: nat, k: nat)
    ensures And(x, Shl(m, k)) == Shl(And(Shr(x, k), m), k)
  {
    if k > 0 {
      AndDouble(x, Shl(m, k - 1));
      AndShl(x / 2, m, k - 1);
    }
  }

  lemma Shr4(x: nat, k: nat)
    requires k >= 4
    ensures Shr(x, k) == Shr(x / 16, k - 4)
  {
    var a, b, c := x / 2, x / 4, x / 8;
    assert Shr(x, k) == Shr(a, k - 1);
    assert Shr(a, k - 1) == Shr(b, k - 2);
    assert Shr(b, k - 2) == Shr(c, k - 3);
  }

  lemma Shr12(x: nat)
    ensures Shr(x, 12) == x / 4096
  {
    Shr4(x, 12);
    Shr4(x / 16, 8);
    Shr4(x / 256, 4);
  }

  lemma {:induction false} ShlIsTimes(x: nat, k: nat)
    ensures Shl(x, k) == Pow2(k) * x
  {
    if k > 0 {
      ShlIsTimes(x, k - 1);
    }
  }

  lemma AndShift12(x: nat, m: nat)
    ensures And(x, 4096 * m) == 4096 * And(x / 4096, m)
  {
    Pow2Of32();
    AndShl(x, m, 12);
    Shr12(x);
    ShlIsTimes(m, 12);
    ShlIsTimes(And(x / 4096, m), 12);
  }

  lemma {:induction false} OrAssoc(x: nat, y: nat, z: nat)
    ensures Or(Or(x, y), z) == Or(x, Or(y, z))
  {
    if x != 0 && y != 0 && z != 0 {
      OrHalf(x, y);
      OrHalf(y, z);
      OrAssoc(x / 2, y / 2, z / 2);
    }
  }

  lemma OrThree(x: nat, a: nat, b: nat, c: nat)
    ensures Or(Or(Or(x, a), b), c) == Or(x, Or(Or(a, b), c))
  {
    OrAssoc(x, a, b);
    OrAssoc(x, Or(a, b), c);
  }
}
