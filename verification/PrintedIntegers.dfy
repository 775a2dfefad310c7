/** What a printed integer says: reading it back gives the number, and commas, zeros and
    padding are where the conversion asks for them (src/lib/stdio.c). */
module PrintedIntegers {
  import opened Stdio
  import A = Arithmetic

  // ---------------------------------------------------------------------
  // Reading
  // ---------------------------------------------------------------------

  function TrimLeft(s: string): (t: string) {
    if s != "" && s[0] == ' ' then TrimLeft(s[1..]) else s
  }

  function TrimRight(s: string): (t: string) {
    if s != "" && s[|s| - 1] == ' ' then TrimRight(s[..|s| - 1]) else s
  }

  predicate Negative(t: string) {
    t != "" && t[0] == '-'
  }

  /** t without its sign. */
  function Unsigned(t: string): (u: string) {
    if t != "" && (t[0] == '-' || t[0] == '+') then t[1..] else t
  }

  /** u without the 0x of base b. */
  function Unprefixed(u: string, b: IntegerBase): (d: string) {
    if b.x != '\0' && |u| >= 2 && u[0] == '0' && u[1] == b.x then u[2..] else u
  }

  function Signed(negative: bool, v: int): (r: int) {
    if negative then -v else v
  }

  /** The number that s says in base b: spaces, a sign, 0x, and digits with commas. */
  function Read(s: string, b: IntegerBase): (v: int)
    requires IsBase(b)
  {
    var t := TrimRight(TrimLeft(s));
    Signed(Negative(t), ValueOf(Reverse(Unprefixed(Unsigned(t), b)), b))
  }

  /** A digit of a base, or a comma. */
  predicate Plain(c: char) {
    '0' <= c <= '9' || 'a' <= c <= 'f' || 'A' <= c <= 'F' || c == ','
  }

  ghost predicate AllPlain(s: string) {
    forall i :: 0 <= i < |s| ==> Plain(s[i])
  }

  lemma {:induction false} RepeatAll(c: char, n: int)
    ensures forall i :: 0 <= i < |Repeat(c, n)| ==> Repeat(c, n)[i] == c
  {
    if n > 0 { RepeatAll(c, n - 1); }
  }

  lemma {:induction false} DigitsPlain(value: nat, b: IntegerBase, commas: bool, n: nat)
    requires IsBase(b)
    ensures AllPlain(Digits(value, b, commas, n))
  {
    if value > 0 {
      DigitsPlain(value / b.base, b, commas, n + 1);
      DigitIsPlain(b, value % b.base);
    }
  }

  lemma DigitIsPlain(b: IntegerBase, d: nat)
    requires IsBase(b) && d < b.base
    ensures Plain(b.digits[d])
  {
  }

  lemma NumberPlain(value: nat, b: IntegerBase, c: Conversion)
    requires IsBase(b)
    ensures AllPlain(Number(value, b, c))
  {
    DigitsPlain(value, b, '\'' in c.flags, 0);
    var d := Digits(value, b, '\'' in c.flags, 0);
    PrecisePlain(d, c.precision);
  }

  lemma PrecisePlain(d: string, precision: int)
    requires AllPlain(d)
    ensures AllPlain(Precise(d, precision))
  {
    var n := (if precision < 0 then 1 else if precision < BUF_SIZE then precision else BUF_SIZE - 1) - |d|;
    RepeatAll('0', n);
  }

  lemma {:induction false} ReversePlain(s: string)
    requires AllPlain(s)
    ensures AllPlain(Reverse(s))
  {
    if s != "" { ReversePlain(s[1..]); }
  }

  lemma {:induction false} ReverseConcat(s: string, t: string)
    ensures Reverse(s + t) == Reverse(t) + Reverse(s)
  {
    if s == "" {
      assert s + t == t && Reverse(t) + "" == Reverse(t);
    } else {
      ReverseConcat(s[1..], t);
      assert (s + t)[1..] == s[1..] + t;
    }
  }

  lemma {:induction false} ReverseTwice(s: string)
    ensures Reverse(Reverse(s)) == s
  {
    if s != "" {
      ReverseTwice(s[1..]);
      ReverseConcat(Reverse(s[1..]), [s[0]]);
      assert Reverse([s[0]]) == [s[0]] && [s[0]] + s[1..] == s;
    }
  }

  lemma {:induction false} ReverseRepeat(c: char, n: nat)
    ensures Reverse(Repeat(c, n)) == Repeat(c, n)
  {
    if n > 0 {
      ReverseRepeat(c, n - 1);
      ReverseConcat(Repeat(c, n - 1), [c]);
      assert Reverse([c]) == [c];
      RepeatFront(c, n);
    }
  }

  lemma {:induction false} TrimLeftSpaces(n: nat, t: string)
    requires t != "" && t[0] != ' '
    ensures TrimLeft(Repeat(' ', n) + t) == t
  {
    if n == 0 {
      assert Repeat(' ', 0) + t == t;
    } else {
      TrimLeftSpaces(n - 1, t);
      RepeatFront(' ', n);
      assert (Repeat(' ', n) + t)[1..] == Repeat(' ', n - 1) + t;
    }
  }

  lemma {:induction false} TrimRightSpaces(t: string, n: nat)
    requires t != "" && t[|t| - 1] != ' '
    ensures TrimRight(t + Repeat(' ', n)) == t
  {
    var s := t + Repeat(' ', n);
    if n == 0 {
      assert s == t;
    } else {
      TrimRightSpaces(t, n - 1);
      assert s[..|s| - 1] == t + Repeat(' ', n - 1);
    }
  }

  lemma {:induction false} OnlySpaces(n: nat)
    ensures TrimLeft(Repeat(' ', n)) == ""
  {
    if n > 0 {
      OnlySpaces(n - 1);
      RepeatFront(' ', n);
      assert Repeat(' ', n)[1..] == Repeat(' ', n - 1);
    }
  }

  lemma {:induction false} RepeatJoin(c: char, m: nat, n: nat)
    ensures Repeat(c, m) + Repeat(c, n) == Repeat(c, m + n)
  {
    if n == 0 {
      assert Repeat(c, m) + "" == Repeat(c, m);
    } else {
      RepeatJoin(c, m, n - 1);
      assert Repeat(c, m) + Repeat(c, n) == Repeat(c, m) + Repeat(c, n - 1) + [c];
    }
  }

  lemma Trimmed(m: nat, t: string, n: nat)
    requires t != "" ==> t[0] != ' ' && t[|t| - 1] != ' '
    ensures TrimRight(TrimLeft(Repeat(' ', m) + t + Repeat(' ', n))) == t
  {
    if t == "" {
      TrimmedBlank(m, n);
    } else {
      TrimLeftSpaces(m, t + Repeat(' ', n));
      TrimRightSpaces(t, n);
      Regroup(Repeat(' ', m), t, Repeat(' ', n));
    }
  }

  lemma TrimmedBlank(m: nat, n: nat)
    ensures TrimRight(TrimLeft(Repeat(' ', m) + "" + Repeat(' ', n))) == ""
  {
    RepeatJoin(' ', m, n);
    OnlySpaces(m + n);
    Regroup(Repeat(' ', m), "", Repeat(' ', n));
    assert "" + Repeat(' ', n) == Repeat(' ', n);
  }

  lemma Regroup(a: string, t: string, e: string)
    ensures a + t + e == a + (t + e)
  {
  }

  /** A sign other than a space, the prefix, and digits with zeros before them. */
  lemma ReadCore(sign: string, x: string, z: nat, n: string, b: IntegerBase, m: nat, e: nat)
    requires IsBase(b) && AllPlain(n) && (sign == "" || sign == "-" || sign == "+")
    requires x == "" || (x == ['0', b.x] && b.x != '\0')
    ensures Read(Repeat(' ', m) + (sign + x + Repeat('0', z) + Reverse(n)) + Repeat(' ', e), b)
            == Signed(sign == "-", ValueOf(n, b))
  {
    RepeatAll('0', z);
    ReversePlain(n);
    DigitsReversed(z, n, b);
    ReadDigits(sign, x, Repeat('0', z) + Reverse(n), b, m, e);
    RegroupTwo(sign, x, Repeat('0', z), Reverse(n));
  }

  lemma RegroupTwo(sign: string, x: string, z: string, r: string)
    ensures sign + x + z + r == sign + (x + (z + r))
  {
  }

  lemma ReadDigits(sign: string, x: string, d: string, b: IntegerBase, m: nat, e: nat)
    requires IsBase(b) && AllPlain(d) && (sign == "" || sign == "-" || sign == "+")
    requires x == "" || (x == ['0', b.x] && b.x != '\0')
    ensures Read(Repeat(' ', m) + (sign + (x + d)) + Repeat(' ', e), b) == Signed(sign == "-", ValueOf(Reverse(d), b))
  {
    var t := sign + (x + d);
    Ends(sign, x, d, b);
    Trimmed(m, t, e);
    SignTaken(sign, x, d, b);
    PrefixTaken(x, d, b);
    ReadTrimmed(Repeat(' ', m) + t + Repeat(' ', e), t, b);
  }

  lemma ReadTrimmed(s: string, t: string, b: IntegerBase)
    requires IsBase(b) && TrimRight(TrimLeft(s)) == t
    ensures Read(s, b) == Signed(Negative(t), ValueOf(Reverse(Unprefixed(Unsigned(t), b)), b))
  {
  }

  lemma Ends(sign: string, x: string, d: string, b: IntegerBase)
    requires IsBase(b) && AllPlain(d) && (sign == "" || sign == "-" || sign == "+") && (x == "" || x == ['0', b.x])
    ensures var t := sign + (x + d); t != "" ==> t[0] != ' ' && t[|t| - 1] != ' '
  {
  }

  lemma SignTaken(sign: string, x: string, d: string, b: IntegerBase)
    requires AllPlain(d) && (sign == "" || sign == "-" || sign == "+") && (x == "" || x == ['0', b.x])
    ensures Negative(sign + (x + d)) <==> sign == "-"
    ensures Unsigned(sign + (x + d)) == x + d
  {
    var t := sign + (x + d);
    assert if sign == "" then t == x + d else t[1..] == x + d;
  }

  lemma PrefixTaken(x: string, d: string, b: IntegerBase)
    requires IsBase(b) && AllPlain(d) && (x == "" || (x == ['0', b.x] && b.x != '\0'))
    ensures Unprefixed(x + d, b) == d
  {
    assert |d| >= 2 ==> Plain(d[1]);
    assert if x == "" then x + d == d else (x + d)[2..] == d;
  }

  lemma DigitsReversed(z: nat, n: string, b: IntegerBase)
    requires IsBase(b)
    ensures ValueOf(Reverse(Repeat('0', z) + Reverse(n)), b) == ValueOf(n, b)
  {
    ReverseConcat(Repeat('0', z), Reverse(n));
    ReverseTwice(n);
    ReverseRepeat('0', z);
    LeadingZeros(n, z, b);
  }

  lemma ReadPadded(sign: string, x: string, n: string, pad: int, flags: set<char>, b: IntegerBase)
    requires IsBase(b) && AllPlain(n) && (sign == "" || sign == "-" || sign == "+" || sign == " ")
    requires x == "" || (x == ['0', b.x] && b.x != '\0')
    ensures Read(Padded("", sign, x, n, pad, flags), b) == Signed(sign == "-", ValueOf(n, b))
  {
    var m := if '-' !in flags && '0' !in flags && pad > 0 then pad else 0;
    var z := if '0' in flags && pad > 0 then pad else 0;
    var e := if '-' in flags && pad > 0 then pad else 0;
    Parts(sign, x, n, pad, flags, m, z, e);
    if sign == " " {
      ReadCore("", x, z, n, b, m + 1, e);
      SpaceSign(m, x, Repeat('0', z), Reverse(n), Repeat(' ', e));
    } else {
      ReadCore(sign, x, z, n, b, m, e);
    }
  }

  lemma ReadLaid(sign: string, x: string, n: string, width: int, flags: set<char>, b: IntegerBase)
    requires IsBase(b) && AllPlain(n) && (sign == "" || sign == "-" || sign == "+" || sign == " ")
    requires x == "" || (x == ['0', b.x] && b.x != '\0')
    ensures Read(Laid("", sign, x, n, width, flags), b) == Signed(sign == "-", ValueOf(n, b))
  {
    ReadPadded(sign, x, n, width - |n| - |x| - |sign|, flags, b);
  }

  lemma Signs(isSigned: bool, negative: bool, flags: set<char>)
    ensures var sign := Sign(isSigned, negative, flags);
      && (sign == "" || sign == "-" || sign == "+" || sign == " ")
      && (sign == "-" <==> isSigned && negative)
  {
  }

  /** Whatever the base, flags, width and precision, reading a printed integer gives it back. */
  lemma PrintRead(value: nat, isSigned: bool, negative: bool, b: IntegerBase, c: Conversion)
    requires IsBase(b)
    ensures Read(Rendered("", value, isSigned, negative, b, c), b) == Signed(isSigned && negative, value)
  {
    var sign, x, n := Sign(isSigned, negative, c.flags), Prefix(value, b, c.flags), Number(value, b, c);
    NumberSpells(value, b, c);
    NumberPlain(value, b, c);
    Signs(isSigned, negative, c.flags);
    ReadLaid(sign, x, n, c.width, c.flags, b);
  }

  lemma Parts(sign: string, x: string, n: string, pad: int, flags: set<char>, m: nat, z: nat, e: nat)
    requires m == if '-' !in flags && '0' !in flags && pad > 0 then pad else 0
    requires z == if '0' in flags && pad > 0 then pad else 0
    requires e == if '-' in flags && pad > 0 then pad else 0
    ensures Padded("", sign, x, n, pad, flags)
            == Repeat(' ', m) + (sign + x + Repeat('0', z) + Reverse(n)) + Repeat(' ', e)
  {
    Gather(Repeat(' ', m), sign, x, Repeat('0', z), Reverse(n), Repeat(' ', e));
    assert pad <= 0 ==> Repeat(' ', pad) == Repeat(' ', 0) && Repeat('0', pad) == Repeat('0', 0);
  }

  lemma Gather(a: string, sign: string, x: string, z: string, r: string, e: string)
    ensures "" + a + sign + x + z + r + e == a + (sign + x + z + r) + e
  {
  }

  lemma SpaceSign(m: nat, x: string, z: string, r: string, e: string)
    ensures Repeat(' ', m) + (" " + x + z + r) + e == Repeat(' ', m + 1) + ("" + x + z + r) + e
  {
    var a := Repeat(' ', m);
    assert a + (" " + x + z + r) + e == (a + " ") + ("" + x + z + r) + e;
  }

  // ---------------------------------------------------------------------
  // Signs, prefixes and justification
  // ---------------------------------------------------------------------

  lemma {:induction false} ReverseHas(s: string, q: char)
    ensures q in Reverse(s) <==> q in s
  {
    if s != "" {
      ReverseHas(s[1..], q);
      assert s == [s[0]] + s[1..];
    }
  }

  lemma NotIn(s: string, q: char)
    requires AllPlain(s) && !Plain(q)
    ensures q !in s
  {
  }

  lemma PaddedHas(sign: string, x: string, n: string, pad: int, flags: set<char>, q: char)
    requires AllPlain(n) && !Plain(q) && q != ' '
    ensures q in Padded("", sign, x, n, pad, flags) <==> q in sign || q in x
  {
    var m := if '-' !in flags && '0' !in flags && pad > 0 then pad else 0;
    var z := if '0' in flags && pad > 0 then pad else 0;
    var e := if '-' in flags && pad > 0 then pad else 0;
    Parts(sign, x, n, pad, flags, m, z, e);
    RepeatAll(' ', m);
    RepeatAll(' ', e);
    RepeatAll('0', z);
    NotIn(n, q);
    ReverseHas(n, q);
    SumHas(Repeat(' ', m), sign, x, Repeat('0', z), Reverse(n), Repeat(' ', e), q);
  }

  lemma SumHas(a: string, sign: string, x: string, z: string, r: string, e: string, q: char)
    requires q !in a && q !in z && q !in r && q !in e
    ensures q in a + (sign + x + z + r) + e <==> q in sign || q in x
  {
  }

  lemma LaidHas(sign: string, x: string, n: string, width: int, flags: set<char>, q: char)
    requires AllPlain(n) && !Plain(q) && q != ' '
    ensures q in Laid("", sign, x, n, width, flags) <==> q in sign || q in x
  {
    PaddedHas(sign, x, n, width - |n| - |x| - |sign|, flags, q);
  }

  /** What a printed integer shows before its digits: a minus sign for the negative, a plus
      sign or a space where the flags ask for them, and 0x where # does. */
  lemma SignShown(value: nat, isSigned: bool, negative: bool, b: IntegerBase, c: Conversion)
    requires IsBase(b)
    ensures
      var s := Rendered("", value, isSigned, negative, b, c);
      && ('-' in s <==> isSigned && negative)
      && ('+' in s <==> isSigned && !negative && '+' in c.flags)
      && (b.base == 16 ==> (b.x in s <==> '#' in c.flags && value > 0))
  {
    var sign, x, n := Sign(isSigned, negative, c.flags), Prefix(value, b, c.flags), Number(value, b, c);
    NumberPlain(value, b, c);
    LaidHas(sign, x, n, c.width, c.flags, '-');
    LaidHas(sign, x, n, c.width, c.flags, '+');
    if b.base == 16 { LaidHas(sign, x, n, c.width, c.flags, b.x); }
    Signs(isSigned, negative, c.flags);
  }

  /** A space that stands for a plus sign comes before everything else. */
  lemma SpaceShown(value: nat, b: IntegerBase, c: Conversion)
    requires IsBase(b) && ' ' in c.flags && '+' !in c.flags
    ensures var s := Rendered("", value, true, false, b, c); s != "" && s[0] == ' '
  {
    var x, n := Prefix(value, b, c.flags), Number(value, b, c);
    var pad := c.width - |n| - |x| - 1;
    var m := if '-' !in c.flags && '0' !in c.flags && pad > 0 then pad else 0;
    var z := if '0' in c.flags && pad > 0 then pad else 0;
    var e := if '-' in c.flags && pad > 0 then pad else 0;
    Parts(" ", x, n, pad, c.flags, m, z, e);
    RepeatAll(' ', m);
  }

  /** Without -, the digits end the field; with it they follow the sign and prefix that begin
      it, and with 0 only zeros come between. */
  lemma Justified(sign: string, x: string, n: string, width: int, flags: set<char>)
    ensures
      var s := Laid("", sign, x, n, width, flags);
      && |s| >= |sign| + |x| + |n|
      && ('-' !in flags ==> s[|s| - |n|..] == Reverse(n))
      && ('-' in flags && '0' !in flags ==> s[..|sign| + |x| + |n|] == sign + x + Reverse(n))
      && ('0' in flags ==> s[..|sign| + |x|] == sign + x)
  {
    var pad := width - |n| - |x| - |sign|;
    var m := if '-' !in flags && '0' !in flags && pad > 0 then pad else 0;
    var z := if '0' in flags && pad > 0 then pad else 0;
    var e := if '-' in flags && pad > 0 then pad else 0;
    Parts(sign, x, n, pad, flags, m, z, e);
    Slices(Repeat(' ', m), sign, x, Repeat('0', z), Reverse(n), Repeat(' ', e));
  }

  lemma Slices(a: string, sign: string, x: string, z: string, r: string, e: string)
    ensures
      var s := a + (sign + x + z + r) + e;
      && |s| >= |sign| + |x| + |r|
      && (e == "" ==> s[|s| - |r|..] == r)
      && (a == "" && z == "" ==> s[..|sign| + |x| + |r|] == sign + x + r)
      && (a == "" ==> s[..|sign| + |x|] == sign + x)
  {
    var s := a + (sign + x + z + r) + e;
    if e == "" { assert s[|s| - |r|..] == r; }
    if a == "" && z == "" { assert s[..|sign| + |x| + |r|] == sign + x + r; }
    if a == "" { assert s[..|sign| + |x|] == sign + x; }
  }

  // ---------------------------------------------------------------------
  // Commas and zeros
  // ---------------------------------------------------------------------

  /** The place of the character after n digits and the commas between them. */
  function Place(n: nat, group: nat): (p: nat) {
    if n == 0 then 0 else n + (if group == 3 then (n - 1) / 3 else (n - 1) / 4)
  }

  lemma PlacesOf3(n: nat)
    ensures
      var comma, p := n > 0 && n % 3 == 0, Place(n, 3);
      && (comma <==> p % 4 == 3) && (comma ==> (p + 1) % 4 != 3) && Place(n + 1, 3) == p + (if comma then 2 else 1)
  {
    var q := n / 3;
    if n % 3 != 0 {
      assert Place(n, 3) == 4 * q + n % 3;
    } else if n > 0 {
      assert Place(n, 3) == 4 * (q - 1) + 3;
    }
  }

  lemma PlacesOf4(n: nat)
    ensures
      var comma, p := n > 0 && n % 4 == 0, Place(n, 4);
      && (comma <==> p % 5 == 4) && (comma ==> (p + 1) % 5 != 4) && Place(n + 1, 4) == p + (if comma then 2 else 1)
  {
    var q := n / 4;
    if n % 4 != 0 {
      assert Place(n, 4) == 5 * q + n % 4;
    } else if n > 0 {
      assert Place(n, 4) == 5 * (q - 1) + 4;
    }
  }

  predicate CommaPlace(p: nat, b: IntegerBase)
    requires IsBase(b)
  {
    if b.group == 3 then p % 4 == 3 else p % 5 == 4
  }

  predicate CommaNow(n: nat, b: IntegerBase)
    requires IsBase(b)
  {
    n > 0 && (if b.group == 3 then n % 3 == 0 else n % 4 == 0)
  }

  lemma Places(n: nat, b: IntegerBase)
    requires IsBase(b)
    ensures
      var comma, p := CommaNow(n, b), Place(n, b.group);
      && (comma <==> CommaPlace(p, b)) && (comma ==> !CommaPlace(p + 1, b))
      && Place(n + 1, b.group) == p + (if comma then 2 else 1)
  {
    if b.group == 3 { PlacesOf3(n); } else { PlacesOf4(n); }
  }

  /** The commas of s, whose first character has place p, are where they should be. */
  ghost predicate CommasFrom(s: string, p: nat, b: IntegerBase)
    requires IsBase(b)
  {
    forall i :: 0 <= i < |s| ==> (s[i] == ',' <==> CommaPlace(p + i, b))
  }

  lemma OneMore(c: char, s: string, p: nat, b: IntegerBase)
    requires IsBase(b) && CommasFrom(s, p + 1, b) && (c == ',' <==> CommaPlace(p, b))
    ensures CommasFrom([c] + s, p, b)
  {
    var t := [c] + s;
    forall i | 0 <= i < |t|
      ensures t[i] == ',' <==> CommaPlace(p + i, b)
    {
      if i > 0 {
        assert t[i] == s[i - 1] && p + i == p + 1 + (i - 1);
      }
    }
  }

  lemma {:induction false} DigitsCommas(value: nat, b: IntegerBase, n: nat)
    requires IsBase(b)
    ensures CommasFrom(Digits(value, b, true, n), Place(n, b.group), b)
  {
    if value > 0 {
      var digit, rest := b.digits[value % b.base], Digits(value / b.base, b, true, n + 1);
      var p := Place(n, b.group);
      DigitsCommas(value / b.base, b, n + 1);
      DigitSpells(b, value % b.base);
      Places(n, b);
      if CommaNow(n, b) {
        OneMore(digit, rest, p + 1, b);
        OneMore(',', [digit] + rest, p, b);
        assert Digits(value, b, true, n) == [','] + ([digit] + rest);
      } else {
        OneMore(digit, rest, p, b);
        assert Digits(value, b, true, n) == [digit] + rest;
      }
    }
  }

  lemma {:induction false} NoCommas(value: nat, b: IntegerBase, n: nat)
    requires IsBase(b)
    ensures ',' !in Digits(value, b, false, n)
  {
    if value > 0 {
      NoCommas(value / b.base, b, n + 1);
      DigitSpells(b, value % b.base);
    }
  }

  /** The commas of a printed number, when it has any, stand after every group of digits from
      the right. */
  lemma CommaPlaces(value: nat, b: IntegerBase, commas: bool, i: nat)
    requires IsBase(b) && i < |Digits(value, b, commas, 0)|
    ensures Digits(value, b, commas, 0)[i] == ',' <==> commas && i % (b.group + 1) == b.group
  {
    if commas {
      DigitsCommas(value, b, 0);
      assert CommaPlace(0 + i, b) <==> i % (b.group + 1) == b.group;
    } else {
      NoCommas(value, b, 0);
    }
  }

  /** d, least significant digit first, does not begin with a zero or a comma. */
  predicate Leads(d: string) {
    d != "" && d[|d| - 1] != '0' && d[|d| - 1] != ','
  }

  lemma {:induction false} Significant(value: nat, b: IntegerBase, commas: bool, n: nat)
    requires IsBase(b) && value > 0
    ensures Leads(Digits(value, b, commas, n))
  {
    var comma := if commas && n > 0 && n % b.group == 0 then "," else "";
    var digit, rest := b.digits[value % b.base], Digits(value / b.base, b, commas, n + 1);
    DigitSpells(b, value % b.base);
    if value / b.base > 0 {
      Significant(value / b.base, b, commas, n + 1);
      LeadsStill(comma, digit, rest);
    } else {
      A.DivModIs(value, b.base, value / b.base, value % b.base);
      LeadsFirst(comma, digit);
    }
  }

  lemma LeadsStill(comma: string, digit: char, rest: string)
    requires Leads(rest)
    ensures Leads(comma + ([digit] + rest))
  {
  }

  lemma LeadsFirst(comma: string, digit: char)
    requires digit != '0' && digit != ','
    ensures Leads(comma + ([digit] + ""))
  {
  }

  /** The fewest digits that a precision asks for. */
  function Wanted(precision: int): (n: nat) {
    if precision < 0 then 1 else if precision <= 63 then precision else 63
  }

  /** s has the digits wanted, and when it has more it does not begin with a zero or a comma;
      the # flag puts one zero in front of an octal number that has none. */
  predicate Shortest(s: string, want: nat, marked: bool) {
    && |s| >= want
    && (!marked && |s| > want ==> s[|s| - 1] != '0' && s[|s| - 1] != ',')
    && (marked ==> s != "" && s[|s| - 1] == '0')
    && (marked && |s| > want && |s| > 1 ==> s[|s| - 2] != '0' && s[|s| - 2] != ',')
  }

  /** A printed number is as short as its precision lets it be. */
  lemma NumberLength(value: nat, b: IntegerBase, c: Conversion)
    requires IsBase(b)
    ensures Shortest(Number(value, b, c), Wanted(c.precision), '#' in c.flags && b.base == 8)
  {
    var d, want := Digits(value, b, '\'' in c.flags, 0), Wanted(c.precision);
    if value > 0 { Significant(value, b, '\'' in c.flags, 0); }
    RepeatLength('0', want - |d|);
    RepeatAll('0', want - |d|);
    MarkedLength(d, Repeat('0', want - |d|), want, '#' in c.flags && b.base == 8);
    NumberIs(value, b, c);
  }

  lemma NumberIs(value: nat, b: IntegerBase, c: Conversion)
    requires IsBase(b)
    ensures
      var d := Digits(value, b, '\'' in c.flags, 0);
      Number(value, b, c) == Marked(d + Repeat('0', Wanted(c.precision) - |d|), '#' in c.flags && b.base == 8)
  {
  }

  lemma MarkedLength(d: string, zeros: string, want: nat, marked: bool)
    requires |zeros| == (if want < |d| then 0 else want - |d|)
    requires forall i :: 0 <= i < |zeros| ==> zeros[i] == '0'
    requires d == "" || Leads(d)
    ensures Shortest(Marked(d + zeros, marked), want, marked)
  {
  }

  // ---------------------------------------------------------------------
  // Argument types
  // ---------------------------------------------------------------------

  /** How a format names an argument type. */
  function Name(a: Argument): (s: string) {
    match a
    case Char => "hh"
    case Short => "h"
    case Int => ""
    case Intmax => "j"
    case Long => "l"
    case LongLong => "ll"
    case Ptrdifft => "t"
    case Sizet => "z"
  }

  /** The name of an argument type is read back, whatever precedes it and whichever
      conversion follows. */
  lemma ArgumentRoundTrip(before: string, a: Argument, after: string)
    requires after != "" && after[0] !in "hjltz"
    ensures ArgumentAt(before + Name(a) + after, |before|) == (a, |before| + |Name(a)|)
  {
    var s, i := before + Name(a) + after, |before|;
    assert forall k :: 0 <= k < |Name(a)| ==> s[i + k] == Name(a)[k];
    assert s[i + |Name(a)|] == after[0];
    assert forall k :: 0 <= k < 5 ==> "hjltz"[k] in "hjltz";
  }
}
