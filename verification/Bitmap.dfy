/** src/lib/kernel/bitmap.c: an array of words used as an array of bits. */
module Bitmap {
  import opened Bits
  import opened Options
  import opened Words

  const ELEM_BITS: nat := 32

  function ElemIdx(bitIdx: nat): (k: nat) {
    bitIdx / ELEM_BITS
  }

  function BitMask(bitIdx: nat): (m: nat) {
    Pow2(bitIdx % ELEM_BITS)
  }

  /** Bit i of the bitmap stored in ws. */
  ghost predicate BitAt(ws: seq<nat>, i: nat)
    requires i / ELEM_BITS < |ws|
  {
    Bit(ws[i / ELEM_BITS], i % ELEM_BITS)
  }

  ghost predicate AreWords(ws: seq<nat>) {
    forall k :: 0 <= k < |ws| ==> ws[k] < WORD
  }

  lemma {:induction false} MaskIsWord(i: nat)
    ensures BitMask(i) < WORD
  {
    Pow2Monotone(i % ELEM_BITS, 31);
    assert Pow2(31) < WORD by { Pow2Of32(); }
  }

  /** Or of words is a word. */
  lemma {:induction false} OrIsWord(x: nat, y: nat, n: nat)
    requires x < Pow2(n) && y < Pow2(n)
    ensures Or(x, y) < Pow2(n)
  {
    if x != 0 && y != 0 {
      OrIsWord(x / 2, y / 2, n - 1);
    }
  }

  /** Or-ing in a bit's mask sets that bit and no other. */
  lemma MarkWord(ws: seq<nat>, i: nat)
    requires i / ELEM_BITS < |ws| && AreWords(ws)
    ensures var ws' := ws[ElemIdx(i) := Or(ws[ElemIdx(i)], BitMask(i))];
      && AreWords(ws')
      && forall j: nat :: j / ELEM_BITS < |ws| ==> (BitAt(ws', j) <==> j == i || BitAt(ws, j))
  {
    var k := ElemIdx(i);
    MaskIsWord(i);
    Pow2Of32();
    OrIsWord(ws[k], BitMask(i), 32);
    var ws' := ws[k := Or(ws[k], BitMask(i))];
    forall j: nat | j / ELEM_BITS < |ws| ensures BitAt(ws', j) <==> j == i || BitAt(ws, j) {
      if j / ELEM_BITS == k {
        BitOfOr(ws[k], BitMask(i), j % ELEM_BITS);
        BitOfPow2(i % ELEM_BITS, j % ELEM_BITS);
      }
    }
  }

  /** And-ing with the complement of a bit's mask clears that bit and no other. */
  lemma ResetWord(ws: seq<nat>, i: nat)
    requires i / ELEM_BITS < |ws| && AreWords(ws)
    ensures BitMask(i) < WORD
    ensures var ws' := ws[ElemIdx(i) := And(ws[ElemIdx(i)], Not(BitMask(i)))];
      && AreWords(ws')
      && forall j: nat :: j / ELEM_BITS < |ws| ==> (BitAt(ws', j) <==> j != i && BitAt(ws, j))
  {
    var k := ElemIdx(i);
    MaskIsWord(i);
    var ws' := ws[k := And(ws[k], Not(BitMask(i)))];
    forall j: nat | j / ELEM_BITS < |ws| ensures BitAt(ws', j) <==> j != i && BitAt(ws, j) {
      if j / ELEM_BITS == k {
        BitOfAnd(ws[k], Not(BitMask(i)), j % ELEM_BITS);
        BitOfNot(BitMask(i), j % ELEM_BITS);
        BitOfPow2(i % ELEM_BITS, j % ELEM_BITS);
      }
    }
  }

  /** The first n bits stored in ws. */
  ghost function ViewOf(ws: seq<nat>, n: nat): (v: seq<bool>)
    requires |ws| == (n + ELEM_BITS - 1) / ELEM_BITS
    ensures |v| == n
    ensures forall i :: 0 <= i < n ==> v[i] == BitAt(ws, i)
  {
    seq(n, i requires 0 <= i < n => BitAt(ws, i))
  }

  /** The bits start..start+cnt of v are all value. */
  ghost predicate AllAre(v: seq<bool>, start: nat, cnt: nat, value: bool) {
    start + cnt <= |v| && forall k :: start <= k < start + cnt ==> v[k] == value
  }

  /** v with the bits start..start+cnt set to value. */
  function Filled(v: seq<bool>, start: nat, cnt: nat, value: bool): (r: seq<bool>)
    requires start + cnt <= |v|
    ensures |r| == |v|
    ensures forall k :: 0 <= k < |v| ==> r[k] == if start <= k < start + cnt then value else v[k]
  {
    v[..start] + seq(cnt, _ => value) + v[start + cnt..]
  }

  class Bits32 {
    const bitCnt: nat
    const bits: array<nat>

    ghost predicate Valid()
      reads this, bits
    {
      bits.Length == (bitCnt + ELEM_BITS - 1) / ELEM_BITS && AreWords(bits[..])
    }

    /** From the outside, an array of bits. */
    ghost function View(): (v: seq<bool>)
      reads this, bits
      requires Valid()
      ensures |v| == bitCnt
    {
      ViewOf(bits[..], bitCnt)
    }

    /** bitmap_create(), when its malloc()s succeed. */
    constructor (n: nat)
      ensures Valid() && fresh(bits) && bitCnt == n && View() == seq(n, _ => false)
    {
      bitCnt := n;
      bits := new nat[(n + ELEM_BITS - 1) / ELEM_BITS](_ => 0);
      new;
      forall i | 0 <= i < n ensures !BitAt(bits[..], i) {
        BitOfZero(i % ELEM_BITS);
      }
    }

    /** bitmap_mark() */
    method Mark(i: nat)
      requires Valid() && i < bitCnt
      modifies bits
      ensures Valid() && View() == old(View())[i := true]
    {
      ghost var ws := bits[..];
      MarkWord(ws, i);
      bits[ElemIdx(i)] := Or(bits[ElemIdx(i)], BitMask(i));
      assert bits[..] == ws[ElemIdx(i) := Or(ws[ElemIdx(i)], BitMask(i))];
    }

    /** bitmap_reset() */
    method Reset(i: nat)
      requires Valid() && i < bitCnt
      modifies bits
      ensures Valid() && View() == old(View())[i := false]
    {
      ghost var ws := bits[..];
      ResetWord(ws, i);
      bits[ElemIdx(i)] := And(bits[ElemIdx(i)], Not(BitMask(i)));
      assert bits[..] == ws[ElemIdx(i) := And(ws[ElemIdx(i)], Not(BitMask(i)))];
    }

    /** bitmap_set() */
    method Set(i: nat, value: bool)
      requires Valid() && i < bitCnt
      modifies bits
      ensures Valid() && View() == old(View())[i := value]
    {
      if value {
        Mark(i);
      } else {
        Reset(i);
      }
    }

    /** bitmap_test() */
    method Test(i: nat) returns (r: bool)
      requires Valid() && i < bitCnt
      ensures r == View()[i]
    {
      r := And(bits[ElemIdx(i)], BitMask(i)) != 0;
      AndPow2(bits[ElemIdx(i)], i % ELEM_BITS);
    }

    /** bitmap_set_multiple() */
    method SetMultiple(start: nat, cnt: nat, value: bool)
      requires Valid() && start + cnt <= bitCnt
      modifies bits
      ensures Valid() && View() == Filled(old(View()), start, cnt, value)
    {
      ghost var v := View();
      var i := 0;
      while i < cnt
        invariant 0 <= i <= cnt && Valid()
        invariant View() == Filled(v, start, i, value)
      {
        Set(start + i, value);
        i := i + 1;
      }
    }

    /** bitmap_contains() */
    method Contains(start: nat, cnt: nat, value: bool) returns (r: bool)
      requires Valid() && start + cnt <= bitCnt
      ensures r <==> !AllAre(View(), start, cnt, !value)
    {
      var i := 0;
      while i < cnt
        invariant 0 <= i <= cnt
        invariant forall k :: start <= k < start + i ==> View()[k] == !value
      {
        var b := Test(start + i);
        if b == value {
          return true;
        }
        i := i + 1;
      }
      r := false;
    }

    /** bitmap_scan(): the first group of cnt bits at or after start that are all
        value, or nothing if there is no such group. */
    method Scan(start: nat, cnt: nat, value: bool) returns (r: Option<nat>)
      requires Valid() && start <= bitCnt
      ensures r.Some? ==> start <= r.value && AllAre(View(), r.value, cnt, value)
      ensures r.Some? ==> forall j: nat :: start <= j < r.value ==> !AllAre(View(), j, cnt, value)
      ensures r.None? ==> forall j: nat :: start <= j ==> !AllAre(View(), j, cnt, value)
      ensures cnt == 0 ==> r == Some(start) && (r == Some(0) <==> start == 0)
    {
      assert AllAre(View(), start, 0, value);
      if cnt <= bitCnt {
        var last := bitCnt - cnt;
        var i := start;
        while i <= last
          invariant start <= i
          invariant forall j: nat :: start <= j < i ==> !AllAre(View(), j, cnt, value)
          decreases last + 1 - i
        {
          var other := Contains(i, cnt, !value);
          if !other {
            return Some(i);
          }
          i := i + 1;
        }
      }
      r := None;
    }

    /** bitmap_scan_and_flip() */
    method ScanAndFlip(start: nat, cnt: nat, value: bool) returns (r: Option<nat>)
      requires Valid() && start <= bitCnt
      modifies bits
      ensures Valid()
      ensures r.Some? ==> start <= r.value && AllAre(old(View()), r.value, cnt, value)
      ensures r.Some? ==> forall j: nat :: start <= j < r.value ==> !AllAre(old(View()), j, cnt, value)
      ensures r.Some? ==> View() == Filled(old(View()), r.value, cnt, !value)
      ensures r.None? ==> View() == old(View()) && forall j: nat :: start <= j ==> !AllAre(View(), j, cnt, value)
      ensures cnt == 0 ==> r == Some(start) && (r == Some(0) <==> start == 0) && View() == old(View())
    {
      r := Scan(start, cnt, value);
      if r.Some? {
        SetMultiple(r.value, cnt, !value);
      }
    }
  }
}
