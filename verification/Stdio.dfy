/** src/lib/stdio.c: the conversions that vsnprintf() performs on integers. */
module Stdio {
  import opened Blocks
  import A = Arithmetic

  /** The flags in force, field width, precision and argument type of a conversion. */
  datatype Conversion = Conversion(flags: set<char>, width: nat, precision: int, argument: Argument)

  datatype Argument = Char | Short | Int | Intmax | Long | LongLong | Ptrdifft | Sizet

  /** A base to print in: its digits, its `x` character (NUL if it has none), and how many
      digits go between commas. */
  datatype IntegerBase = IntegerBase(base: nat, digits: string, x: char, group: nat)

  const BASE_D := IntegerBase(10, "0123456789", '\0', 3)
  const BASE_O := IntegerBase(8, "01234567", '\0', 3)
  const BASE_X_LOWER := IntegerBase(16, "0123456789abcdef", 'x', 4)
  const BASE_X_UPPER := IntegerBase(16, "0123456789ABCDEF", 'X', 4)

  predicate IsBase(b: IntegerBase) {
    b == BASE_D || b == BASE_O || b == BASE_X_LOWER || b == BASE_X_UPPER
  }

  const UINTMAX: nat := 0x1_0000_0000_0000_0000

  /** The character of a C string at i; past its end is its terminator. */
  function At(s: string, i: nat): (c: char) {
    if i < |s| then s[i] else '\0'
  }

  predicate IsFlag(c: char) {
    c == '-' || c == '+' || c == ' ' || c == '#' || c == '0' || c == '\''
  }

  predicate IsDigit(c: char) {
    '0' <= c <= '9'
  }

  /** Where the flags that start at i end. */
  function FlagsEnd(s: string, i: nat): (r: nat)
    requires i <= |s|
    ensures i <= r <= |s| && !IsFlag(At(s, r))
    ensures forall k :: i <= k < r ==> IsFlag(s[k])
    decreases |s| - i
  {
    if i < |s| && IsFlag(s[i]) then FlagsEnd(s, i + 1) else i
  }

  /** The flags that start at i. */
  function FlagsAt(s: string, i: nat): (f: set<char>)
    requires i <= |s|
    decreases |s| - i
  {
    if i < |s| && IsFlag(s[i]) then {s[i]} + FlagsAt(s, i + 1) else {}
  }

  /** Left justification cancels zero padding, and a plus sign cancels a space. */
  function Settled(f: set<char>): (r: set<char>)
    ensures '0' in r ==> '-' !in r
    ensures ' ' in r ==> '+' !in r
    ensures forall c :: c in r <==> c in f && (c == '0' ==> '-' !in f) && (c == ' ' ==> '+' !in f)
  {
    f - (if '-' in f then {'0'} else {}) - (if '+' in f then {' '} else {})
  }

  /** Where the decimal digits that start at i end. */
  function DigitsEnd(s: string, i: nat): (r: nat)
    requires i <= |s|
    ensures i <= r <= |s| && !IsDigit(At(s, r))
    ensures forall k :: i <= k < r ==> IsDigit(s[k])
    decreases |s| - i
  {
    if i < |s| && IsDigit(s[i]) then DigitsEnd(s, i + 1) else i
  }

  /** The number that the characters of s from i to j spell in decimal. */
  function Decimal(s: string, i: nat, j: nat): (n: nat)
    requires i <= j <= |s|
    requires forall k :: i <= k < j ==> IsDigit(s[k])
  {
    if i == j then 0
    else
      assert IsDigit(s[j - 1]);
      10 * Decimal(s, i, j - 1) + (s[j - 1] as int - '0' as int)
  }

  /** Runs of digits end at the first other character, wherever they are entered. */
  lemma {:induction false} EndIs(s: string, i: nat, j: nat)
    requires i <= j <= |s| && !IsDigit(At(s, j))
    requires forall k :: i <= k < j ==> IsDigit(s[k])
    ensures DigitsEnd(s, i) == j
    decreases j - i
  {
    if i < j { EndIs(s, i + 1, j); }
  }

  method ParseFlags(format: string) returns (flags: set<char>, i: nat)
    ensures i == FlagsEnd(format, 0)
    ensures flags == Settled(FlagsAt(format, 0))
  {
    flags, i := {}, 0;
    while i < |format| && IsFlag(format[i])
      invariant i <= |format| && FlagsEnd(format, 0) == FlagsEnd(format, i)
      invariant FlagsAt(format, 0) == flags + FlagsAt(format, i)
    {
      flags := flags + {format[i]};
      i := i + 1;
    }
    if '-' in flags { flags := flags - {'0'}; }
    if '+' in flags { flags := flags - {' '}; }
  }

  method ParseNumber(format: string, start: nat) returns (n: nat, i: nat)
    requires start <= |format|
    ensures i == DigitsEnd(format, start) && n == Decimal(format, start, i)
  {
    n, i := 0, start;
    while i < |format| && IsDigit(format[i])
      invariant start <= i <= |format| && DigitsEnd(format, start) == DigitsEnd(format, i)
      invariant forall k :: start <= k < i ==> IsDigit(format[k])
      invariant n == Decimal(format, start, i)
    {
      n := n * 10 + (format[i] as int - '0' as int);
      i := i + 1;
    }
  }

  /** Where the field width that starts at i ends. */
  function WidthEnd(format: string, i: nat): (r: nat)
    requires i <= |format|
    ensures i <= r <= |format|
  {
    if At(format, i) == '*' then i + 1 else DigitsEnd(format, i)
  }

  /** The field width written at i, where a star takes the argument. */
  function Width(format: string, i: nat, argument: int): (w: int)
    requires i <= |format|
  {
    if At(format, i) == '*' then argument else Decimal(format, i, DigitsEnd(format, i))
  }

  /** Both paddings are in force: zeros before the number and spaces after it. */
  predicate PadsTwice(flags: set<char>) {
    '-' in flags && '0' in flags
  }

  /** Parses the options of a conversion.  A star in the width or the precision takes
      widthArg or precisionArg; r is the place of the character that names the conversion.
      A negative width argument asks for left justification and does not cancel a zero flag. */
  method ParseConversion(format: string, widthArg: int, precisionArg: int)
    returns (c: Conversion, r: nat)
    ensures r <= |format|
    ensures
      var n := Width(format, FlagsEnd(format, 0), widthArg);
      && c.width == (if n < 0 then -n else n)
      && c.flags == Settled(FlagsAt(format, 0)) + (if n < 0 then {'-'} else {})
                    - (if c.precision >= 0 then {'0'} else {})
      && (PadsTwice(c.flags) <==>
            n < 0 && '0' in FlagsAt(format, 0) && '-' !in FlagsAt(format, 0) && c.precision < 0)
    ensures
      var w := WidthEnd(format, FlagsEnd(format, 0));
      if At(format, w) == '.' then
        && c.precision == (var n := Width(format, w + 1, precisionArg); if n < 0 then -1 else n)
        && (c.argument, r) == ArgumentAt(format, WidthEnd(format, w + 1))
      else
        c.precision == -1 && (c.argument, r) == ArgumentAt(format, w)
  {
    var flags, i := ParseFlags(format);
    var width, precision;
    width, i := ParseWidth(format, i, widthArg);
    if width < 0 { width, flags := -width, flags + {'-'}; }
    precision := -1;
    if At(format, i) == '.' {
      precision, i := ParseWidth(format, i + 1, precisionArg);
      if precision < 0 { precision := -1; }
    }
    if precision >= 0 { flags := flags - {'0'}; }
    var a := ArgumentAt(format, i);
    c, r := Conversion(flags, width, precision, a.0), a.1;
  }

  method ParseWidth(format: string, start: nat, argument: int) returns (w: int, i: nat)
    requires start <= |format|
    ensures w == Width(format, start, argument) && i == WidthEnd(format, start)
  {
    if At(format, start) == '*' {
      return argument, start + 1;
    }
    w, i := ParseNumber(format, start);
  }

  /** The argument type named at i, and the place after its name. */
  function ArgumentAt(format: string, i: nat): (r: (Argument, nat))
    requires i <= |format|
    ensures i <= r.1 <= |format|
  {
    match At(format, i)
    case 'h' => if At(format, i + 1) == 'h' then (Char, i + 2) else (Short, i + 1)
    case 'j' => (Intmax, i + 1)
    case 'l' => if At(format, i + 1) == 'l' then (LongLong, i + 2) else (Long, i + 1)
    case 't' => (Ptrdifft, i + 1)
    case 'z' => (Sizet, i + 1)
    case _ => (Int, i)
  }

  function Repeat(c: char, n: int): (s: string) {
    if n <= 0 then "" else Repeat(c, n - 1) + [c]
  }

  function Reverse(s: string): (r: string)
    ensures |r| == |s|
  {
    if s == "" then "" else Reverse(s[1..]) + [s[0]]
  }

  /** The digits of value, least significant first, with a comma before each group but the
      first when commas is set; n digits have been written already. */
  function Digits(value: nat, b: IntegerBase, commas: bool, n: nat): (s: string)
    requires IsBase(b)
  {
    if value == 0 then ""
    else
      (if commas && n > 0 && n % b.group == 0 then "," else "")
      + ([b.digits[value % b.base]] + Digits(value / b.base, b, commas, n + 1))
  }

  /** The number that digits spell, least significant first and commas aside. */
  function ValueOf(s: string, b: IntegerBase): (v: nat)
    requires IsBase(b)
  {
    if s == "" then 0
    else if s[0] == ',' then ValueOf(s[1..], b)
    else DigitValue(s[0]) + b.base * ValueOf(s[1..], b)
  }

  function DigitValue(c: char): (d: nat) {
    if '0' <= c <= '9' then c as int - '0' as int
    else if 'a' <= c <= 'f' then c as int - 'a' as int + 10
    else if 'A' <= c <= 'F' then c as int - 'A' as int + 10
    else 0
  }

  lemma DigitSpells(b: IntegerBase, d: nat)
    requires IsBase(b) && d < b.base
    ensures DigitValue(b.digits[d]) == d && b.digits[d] != ','
  {
  }

  /** The digits spell the value, in every base, with commas or without. */
  lemma {:induction false} DigitsSpell(value: nat, b: IntegerBase, commas: bool, n: nat)
    requires IsBase(b)
    ensures ValueOf(Digits(value, b, commas, n), b) == value
  {
    if value > 0 {
      var d, rest := value % b.base, Digits(value / b.base, b, commas, n + 1);
      DigitsSpell(value / b.base, b, commas, n + 1);
      DigitSpells(b, d);
      A.DivModIs(value, b.base, value / b.base, value % b.base);
      Front(b.digits[d], rest, b);
      Comma([b.digits[d]] + rest, b);
    }
  }

  lemma Front(c: char, s: string, b: IntegerBase)
    requires IsBase(b) && c != ','
    ensures ValueOf([c] + s, b) == DigitValue(c) + b.base * ValueOf(s, b)
  {
    assert ([c] + s)[1..] == s;
  }

  lemma Comma(s: string, b: IntegerBase)
    requires IsBase(b)
    ensures ValueOf("" + s, b) == ValueOf(s, b) == ValueOf("," + s, b)
  {
    assert "" + s == s && ("," + s)[1..] == s;
  }

  const BUF_SIZE: nat := 64

  /** d with zeros up to the precision, leaving room in the buffer for one more. */
  function Precise(d: string, precision: int): (s: string) {
    d + Repeat('0', (if precision < 0 then 1 else if precision < BUF_SIZE then precision else BUF_SIZE - 1) - |d|)
  }

  /** d with the leading zero that the # flag wants in octal. */
  function Marked(d: string, marked: bool): (s: string) {
    if marked && (d == "" || d[|d| - 1] != '0') then d + "0" else d
  }

  /** What format_integer() leaves in its buffer, least significant digit first. */
  function Number(value: nat, b: IntegerBase, c: Conversion): (s: string)
    requires IsBase(b)
  {
    Marked(Precise(Digits(value, b, '\'' in c.flags, 0), c.precision), '#' in c.flags && b.base == 8)
  }

  lemma {:induction false} LeadingZeros(s: string, n: nat, b: IntegerBase)
    requires IsBase(b)
    ensures ValueOf(s + Repeat('0', n), b) == ValueOf(s, b)
    decreases |s|, n
  {
    if s != "" {
      LeadingZeros(s[1..], n, b);
      assert (s + Repeat('0', n))[1..] == s[1..] + Repeat('0', n);
    } else if n > 0 {
      Zeros(n, b);
      assert s + Repeat('0', n) == Repeat('0', n);
    } else {
      assert s + Repeat('0', n) == s;
    }
  }

  lemma {:induction false} Zeros(n: nat, b: IntegerBase)
    requires IsBase(b)
    ensures ValueOf(Repeat('0', n), b) == 0
  {
    if n > 0 {
      Zeros(n - 1, b);
      RepeatFront('0', n);
      Front('0', Repeat('0', n - 1), b);
    }
  }

  lemma {:induction false} RepeatFront(c: char, n: nat)
    requires n > 0
    ensures Repeat(c, n) == [c] + Repeat(c, n - 1)
  {
    if n > 1 { RepeatFront(c, n - 1); }
  }

  /** Whatever the flags and precision, the digits printed spell the value. */
  lemma NumberSpells(value: nat, b: IntegerBase, c: Conversion)
    requires IsBase(b)
    ensures ValueOf(Number(value, b, c), b) == value
  {
    DigitsSpell(value, b, '\'' in c.flags, 0);
    PreciseSpells(Digits(value, b, '\'' in c.flags, 0), c.precision, b);
    MarkedSpells(Precise(Digits(value, b, '\'' in c.flags, 0), c.precision), '#' in c.flags && b.base == 8, b);
  }

  lemma PreciseSpells(d: string, precision: int, b: IntegerBase)
    requires IsBase(b)
    ensures ValueOf(Precise(d, precision), b) == ValueOf(d, b)
  {
    var n := (if precision < 0 then 1 else if precision < BUF_SIZE then precision else BUF_SIZE - 1) - |d|;
    LeadingZeros(d, if n < 0 then 0 else n, b);
    assert Repeat('0', n) == Repeat('0', if n < 0 then 0 else n);
  }

  lemma MarkedSpells(d: string, marked: bool, b: IntegerBase)
    requires IsBase(b)
    ensures ValueOf(Marked(d, marked), b) == ValueOf(d, b)
  {
    LeadingZeros(d, 1, b);
    assert Repeat('0', 1) == "0";
  }

  /** The sign of a signed conversion, if it shows one. */
  function Sign(isSigned: bool, negative: bool, flags: set<char>): (s: string) {
    if !isSigned then ""
    else if negative then "-"
    else if '+' in flags then "+"
    else if ' ' in flags then " "
    else ""
  }

  function Prefix(value: nat, b: IntegerBase, flags: set<char>): (s: string) {
    if '#' in flags && value > 0 && b.x != '\0' then ['0', b.x] else ""
  }

  /** out followed by a number and what goes around it, with pad characters. */
  function Padded(out: string, sign: string, x: string, n: string, pad: int, flags: set<char>): (r: string) {
    out
    + Repeat(' ', if '-' !in flags && '0' !in flags then pad else 0) + sign + x
    + Repeat('0', if '0' in flags then pad else 0) + Reverse(n)
    + Repeat(' ', if '-' in flags then pad else 0)
  }

  /** out followed by a number and what goes around it, padded to its width. */
  function Laid(out: string, sign: string, x: string, n: string, width: int, flags: set<char>): (r: string) {
    Padded(out, sign, x, n, width - |n| - |x| - |sign|, flags)
  }

  /** out followed by the conversion of an integer. */
  function Rendered(out: string, value: nat, isSigned: bool, negative: bool, b: IntegerBase, c: Conversion)
    : (r: string)
    requires IsBase(b)
  {
    Laid(out, Sign(isSigned, negative, c.flags), Prefix(value, b, c.flags), Number(value, b, c), c.width, c.flags)
  }

  lemma {:induction false} RepeatLength(c: char, n: int)
    ensures |Repeat(c, n)| == if n < 0 then 0 else n
  {
    if n > 0 { RepeatLength(c, n - 1); }
  }

  /** The length of a number with its sign and prefix, before any padding. */
  function Natural(value: nat, isSigned: bool, negative: bool, b: IntegerBase, c: Conversion): (n: nat)
    requires IsBase(b)
  {
    |Sign(isSigned, negative, c.flags)| + |Prefix(value, b, c.flags)| + |Number(value, b, c)|
  }

  /** A conversion fills its field exactly, or has its natural length when that is more, if and
      only if it does not pad twice or needs no padding; padding twice overruns the field by as
      much as it padded. */
  lemma FieldWidth(out: string, value: nat, isSigned: bool, negative: bool, b: IntegerBase, c: Conversion)
    requires IsBase(b)
    ensures
      var n := Natural(value, isSigned, negative, b, c);
      var field := if c.width < n then n else c.width;
      var sent := |Rendered(out, value, isSigned, negative, b, c)| - |out|;
      && (sent == field <==> !PadsTwice(c.flags) || c.width <= n)
      && (PadsTwice(c.flags) && n < c.width ==> sent == field + (c.width - n))
  {
    var pad := c.width - Natural(value, isSigned, negative, b, c);
    RepeatLength(' ', pad);
    RepeatLength('0', pad);
    assert Repeat(' ', 0) == "" && Repeat('0', 0) == "";
  }

  /** The conversion %0*d with the width argument -5. */
  method ParseZeroStar() returns (c: Conversion, r: nat)
    ensures c == Conversion({'0', '-'}, 5, -1, Int) && r == 2 && PadsTwice(c.flags)
  {
    var format := "0*d";
    assert FlagsAt(format, 1) == {} && FlagsAt(format, 0) == {'0'} && FlagsEnd(format, 1) == 1;
    c, r := ParseConversion(format, -5, 0);
  }

  /** It prints 7 in nine characters: the field of five is overrun. */
  lemma ZeroStarOverruns()
    ensures |Rendered("", 7, true, false, BASE_D, Conversion({'0', '-'}, 5, -1, Int))| == 9
  {
    var c := Conversion({'0', '-'}, 5, -1, Int);
    assert Digits(0, BASE_D, false, 1) == "";
    assert |Number(7, BASE_D, c)| == 1;
    FieldWidth("", 7, true, false, BASE_D, c);
  }

  function Clip(s: string, n: nat): (r: string)
    ensures |r| <= n && |r| <= |s|
  {
    if |s| <= n then s else s[..n]
  }

  /** vsnprintf()'s record of where its output goes: maxLength characters of a buffer. */
  class Sink {
    const buffer: array<char>
    const start: nat
    const maxLength: nat
    var p: nat
    var length: nat
    ghost const was: string
    ghost var sent: string

    ghost predicate Valid()
      reads this, buffer
    {
      && start + maxLength <= buffer.Length == |was|
      && length == |sent| && p == start + |Clip(sent, maxLength)|
      && buffer[..] == Overwrite(was, start, Clip(sent, maxLength))
    }

    constructor (buffer: array<char>, start: nat, maxLength: nat)
      requires start + maxLength <= buffer.Length
      ensures Valid() && sent == "" && was == buffer[..]
      ensures this.buffer == buffer && this.start == start && this.maxLength == maxLength
    {
      this.buffer, this.start, this.maxLength := buffer, start, maxLength;
      p, length, sent, was := start, 0, "", buffer[..];
    }

    method Output(c: char)
      requires Valid()
      modifies this, buffer
      ensures Valid() && sent == old(sent) + [c]
    {
      if length < maxLength {
        buffer[p] := c;
        p := p + 1;
      }
      length := length + 1;
      sent := sent + [c];
    }

    method OutputDup(c: char, cnt: int)
      requires Valid()
      modifies this, buffer
      ensures Valid() && sent == old(sent) + Repeat(c, cnt)
    {
      var n := 0;
      while n < cnt
        invariant Valid() && 0 <= n && (n <= cnt || n == 0)
        invariant sent == old(sent) + Repeat(c, n)
      {
        Output(c);
        n := n + 1;
      }
    }

    method OutputReversed(buf: array<char>, n: nat)
      requires Valid() && buf != buffer && n <= buf.Length
      modifies this, buffer
      ensures Valid() && sent == old(sent) + Reverse(buf[..n])
    {
      var cp: nat := n;
      while cp > 0
        invariant Valid() && cp <= n && buf[..] == old(buf[..])
        invariant sent == old(sent) + Reverse(buf[..n][cp..])
      {
        assert buf[..n][cp - 1..][1..] == buf[..n][cp..];
        cp := cp - 1;
        Output(buf[cp]);
      }
      assert buf[..n][0..] == buf[..n];
    }

    method FormatInteger(value: nat, isSigned: bool, negative: bool, b: IntegerBase, c: Conversion)
      requires Valid() && value < UINTMAX && IsBase(b)
      modifies this, buffer
      ensures Valid() && sent == Rendered(old(sent), value, isSigned, negative, b, c)
      ensures
        var n := Natural(value, isSigned, negative, b, c);
        |sent| - |old(sent)| == (if c.width < n then n else c.width) <==> !PadsTwice(c.flags) || c.width <= n
    {
      FieldWidth(sent, value, isSigned, negative, b, c);
      var sign := SignCharacter(isSigned, negative, c.flags);
      var x := if '#' in c.flags && value > 0 then b.x else '\0';
      var buf := new char[BUF_SIZE];
      var cp := FillBuffer(buf, value, b, c);
      OutputNumber(sign, x, buf, cp, c.width, c.flags);
    }

    method OutputNumber(sign: char, x: char, buf: array<char>, cp: nat, width: nat, flags: set<char>)
      requires Valid() && buf != buffer && cp <= buf.Length
      modifies this, buffer
      ensures Valid()
      ensures sent == Laid(old(sent), if sign != '\0' then [sign] else "", if x != '\0' then ['0', x] else "",
                           old(buf[..cp]), width, flags)
    {
      var padCnt := width - cp - (if x != '\0' then 2 else 0) - (if sign != '\0' then 1 else 0);
      OutputPadded(sign, x, buf, cp, padCnt, flags);
    }

    method OutputPadded(sign: char, x: char, buf: array<char>, cp: nat, padCnt: int, flags: set<char>)
      requires Valid() && buf != buffer && cp <= buf.Length
      modifies this, buffer
      ensures Valid()
      ensures sent == Padded(old(sent), if sign != '\0' then [sign] else "", if x != '\0' then ['0', x] else "",
                             old(buf[..cp]), padCnt, flags)
    {
      ghost var n := buf[..cp];
      OutputDup(' ', if '-' !in flags && '0' !in flags then padCnt else 0);
      OutputLead(sign, x);
      OutputDup('0', if '0' in flags then padCnt else 0);
      assert buf[..cp] == n;
      OutputReversed(buf, cp);
      OutputDup(' ', if '-' in flags then padCnt else 0);
    }

    method OutputLead(sign: char, x: char)
      requires Valid()
      modifies this, buffer
      ensures Valid()
      ensures sent == old(sent) + (if sign != '\0' then [sign] else "") + (if x != '\0' then ['0', x] else "")
    {
      if sign != '\0' { Output(sign); }
      if x != '\0' {
        Output('0');
        Output(x);
      }
    }
  }

  method SignCharacter(isSigned: bool, negative: bool, flags: set<char>) returns (sign: char)
    ensures Sign(isSigned, negative, flags) == if sign != '\0' then [sign] else ""
  {
    sign := '\0';
    if isSigned {
      if '+' in flags {
        sign := if negative then '-' else '+';
      } else if ' ' in flags {
        sign := if negative then '-' else ' ';
      } else if negative {
        sign := '-';
      }
    }
  }

  function Pow8(n: nat): (p: nat)
    ensures p > 0
  {
    if n == 0 then 1 else 8 * Pow8(n - 1)
  }

  lemma Powers()
    ensures Pow8(7) == 0x20_0000 && Pow8(11) == 0x2_0000_0000 && Pow8(22) == 4 * UINTMAX
  {
    assert Pow8(3) == 0x200 && Pow8(5) == 0x8000 && Pow8(7) == 0x20_0000;
    assert Pow8(9) == 0x800_0000 && Pow8(11) == 0x2_0000_0000 && Pow8(13) == 0x80_0000_0000;
    assert Pow8(15) == 0x2000_0000_0000 && Pow8(17) == 0x8_0000_0000_0000;
    assert Pow8(19) == 0x200_0000_0000_0000 && Pow8(21) == 0x8000_0000_0000_0000;
  }

  lemma DivBound(v: nat, b: nat, p: nat)
    requires b >= 8 && v < 8 * p
    ensures v / b < p
  {
    A.DivModIs(v, b, v / b, v % b);
    if v / b >= p {
      Times(b, v / b, p);
      assert false;
    }
  }

  lemma Times(b: nat, q: nat, p: nat)
    requires b >= 8 && q >= p
    ensures b * q >= 8 * p
  {
    assert b * q == 8 * q + (b - 8) * q;
  }

  /** Stores a character at the end of what buf holds. */
  method Push(buf: array<char>, cp: nat, c: char) returns (next: nat)
    requires cp < buf.Length
    modifies buf
    ensures next == cp + 1 && buf[..next] == old(buf[..cp]) + [c]
  {
    buf[cp] := c;
    next := cp + 1;
  }

  /** Writes the digits in reverse; 22 digits and their commas fit in the buffer. */
  method FillDigits(buf: array<char>, value: nat, b: IntegerBase, commas: bool) returns (cp: nat)
    requires buf.Length == BUF_SIZE && value < UINTMAX && IsBase(b)
    modifies buf
    ensures cp <= 44 && buf[..cp] == Digits(value, b, commas, 0)
  {
    AtMost44(value, b, commas);
    cp := 0;
    var v: nat, n: nat := value, 0;
    while v > 0
      invariant cp <= 44
      invariant Digits(value, b, commas, 0) == buf[..cp] + Digits(v, b, commas, n)
      decreases v
    {
      cp, v := FillDigit(buf, cp, v, b, commas, n);
      n := n + 1;
    }
  }

  method FillDigit(buf: array<char>, start: nat, v: nat, b: IntegerBase, commas: bool, n: nat)
    returns (cp: nat, q: nat)
    requires IsBase(b) && 0 < v && start + |Digits(v, b, commas, n)| <= buf.Length
    modifies buf
    ensures cp <= start + |Digits(v, b, commas, n)| && q < v
    ensures buf[..cp] + Digits(q, b, commas, n + 1) == old(buf[..start]) + Digits(v, b, commas, n)
  {
    NextDigit(buf[..start], v, b, commas, n);
    DivBound(v, b.base, v);
    q := v / b.base;
    cp := start;
    if commas && n > 0 && n % b.group == 0 {
      cp := Push(buf, cp, ',');
    }
    cp := Push(buf, cp, b.digits[v % b.base]);
  }

  lemma {:induction false} DigitCount(v: nat, b: IntegerBase, commas: bool, n: nat, k: nat)
    requires IsBase(b) && v < Pow8(k)
    ensures |Digits(v, b, commas, n)| <= 2 * k
    decreases k
  {
    if v > 0 {
      DivBound(v, b.base, Pow8(k - 1));
      DigitCount(v / b.base, b, commas, n + 1, k - 1);
    }
  }

  lemma AtMost44(value: nat, b: IntegerBase, commas: bool)
    requires IsBase(b) && value < UINTMAX
    ensures |Digits(value, b, commas, 0)| <= 44
  {
    Powers();
    DigitCount(value, b, commas, 0, 22);
  }

  lemma NextDigit(s: string, v: nat, b: IntegerBase, commas: bool, n: nat)
    requires IsBase(b) && v > 0
    ensures
      var t := if commas && n > 0 && n % b.group == 0 then s + "," else s;
      s + Digits(v, b, commas, n) == t + [b.digits[v % b.base]] + Digits(v / b.base, b, commas, n + 1)
  {
    var d, rest := [b.digits[v % b.base]], Digits(v / b.base, b, commas, n + 1);
    assert s + ("," + (d + rest)) == s + "," + d + rest && s + ("" + (d + rest)) == s + d + rest;
  }

  method FillBuffer(buf: array<char>, value: nat, b: IntegerBase, c: Conversion) returns (cp: nat)
    requires buf.Length == BUF_SIZE && value < UINTMAX && IsBase(b)
    modifies buf
    ensures cp <= BUF_SIZE && buf[..cp] == Number(value, b, c)
  {
    cp := FillDigits(buf, value, b, '\'' in c.flags);
    cp := FillZeros(buf, cp, c.precision);
    if '#' in c.flags && b.base == 8 && (cp == 0 || buf[cp - 1] != '0') {
      cp := Push(buf, cp, '0');
    }
  }

  method FillZeros(buf: array<char>, start: nat, wanted: int) returns (cp: nat)
    requires buf.Length == BUF_SIZE && start < BUF_SIZE
    modifies buf
    ensures cp < BUF_SIZE && buf[..cp] == Precise(old(buf[..start]), wanted)
  {
    ghost var d := buf[..start];
    var precision := if wanted < 0 then 1 else wanted;
    cp := start;
    while cp < precision && cp < BUF_SIZE - 1
      invariant start <= cp < BUF_SIZE && (cp <= precision || cp == start)
      invariant buf[..cp] == d + Repeat('0', cp - start)
    {
      cp := Push(buf, cp, '0');
    }
  }

  /** value in w octal digits. */
  function OctalField(value: nat, w: nat): (s: string)
    ensures |s| == w
  {
    if w == 0 then "" else OctalField(value / 8, w - 1) + ["01234567"[value % 8]]
  }

  lemma {:induction false} ZeroField(w: nat)
    ensures OctalField(0, w) == Repeat('0', w)
  {
    if w > 0 { ZeroField(w - 1); }
  }

  lemma {:induction false} PaddedDigits(value: nat, w: nat, n: nat)
    requires value < Pow8(w)
    ensures
      var d := Digits(value, BASE_O, false, n);
      |d| <= w && Repeat('0', w - |d|) + Reverse(d) == OctalField(value, w)
    decreases w
  {
    if value == 0 {
      ZeroField(w);
      assert Repeat('0', w) + "" == Repeat('0', w);
    } else {
      assert w > 0;
      PaddedDigits(value / 8, w - 1, n + 1);
      var rest := Digits(value / 8, BASE_O, false, n + 1);
      OctalDigits(value, n);
      LastDigit("01234567"[value % 8], rest, Repeat('0', w - 1 - |rest|));
    }
  }

  lemma OctalDigits(value: nat, n: nat)
    requires value > 0
    ensures Digits(value, BASE_O, false, n) == ["01234567"[value % 8]] + Digits(value / 8, BASE_O, false, n + 1)
  {
    var d := ["01234567"[value % 8]] + Digits(value / 8, BASE_O, false, n + 1);
    assert "" + d == d;
  }

  lemma LastDigit(c: char, rest: string, pad: string)
    ensures pad + Reverse([c] + rest) == (pad + Reverse(rest)) + [c]
  {
    assert ([c] + rest)[1..] == rest;
  }

  /** A number of at most w octal digits, printed with the 0 flag and width w, fills the width. */
  lemma ZeroPadded(value: nat, w: nat)
    requires 0 < w && value < Pow8(w)
    ensures Rendered("", value, false, false, BASE_O, Conversion({'0'}, w, -1, Int)) == OctalField(value, w)
  {
    var c := Conversion({'0'}, w, -1, Int);
    PlainNumber(value, c);
    PlainLayout(Number(value, BASE_O, c), w);
    if value == 0 {
      OnlyZeros(w);
    } else {
      PaddedDigits(value, w, 0);
    }
  }

  lemma OnlyZeros(w: nat)
    requires 0 < w
    ensures Repeat('0', w - |"0"|) + Reverse("0") == OctalField(0, w)
  {
    ZeroField(w);
    assert Reverse("0") == "0";
  }

  lemma PlainLayout(n: string, w: nat)
    ensures Laid("", "", "", n, w, {'0'}) == Repeat('0', w - |n|) + Reverse(n)
  {
    var z, r := Repeat('0', w - |n|), Reverse(n);
    assert Repeat(' ', 0) == "";
    assert Laid("", "", "", n, w, {'0'}) == "" + "" + "" + "" + z + r + "";
  }

  lemma PlainNumber(value: nat, c: Conversion)
    requires c.flags == {'0'} && c.precision == -1
    ensures Number(value, BASE_O, c) == if value == 0 then "0" else Digits(value, BASE_O, false, 0)
  {
    var d := Digits(value, BASE_O, false, 0);
    assert Number(value, BASE_O, c) == d + Repeat('0', 1 - |d|);
    assert Repeat('0', 1) == "0";
  }

  lemma OctalConversion(w: string)
    requires |w| > 0 && w[0] != '0'
    requires forall k :: 0 <= k < |w| ==> IsDigit(w[k])
    ensures
      var f := "0" + w + "o";
      && FlagsEnd(f, 0) == 1 && FlagsAt(f, 0) == {'0'}
      && DigitsEnd(f, 1) == |w| + 1 && At(f, |w| + 1) == 'o' && At(f, 1) == w[0]
  {
    var f := "0" + w + "o";
    assert f[0] == '0' && f[1] == w[0] && IsDigit(w[0]);
    assert FlagsEnd(f, 1) == 1 && FlagsAt(f, 1) == {};
    assert forall k :: 1 <= k < |w| + 1 ==> f[k] == w[k - 1];
    EndIs(f, 1, |w| + 1);
  }

  lemma {:induction false} DecimalShift(w: string, j: nat)
    requires j <= |w| && forall k :: 0 <= k < |w| ==> IsDigit(w[k])
    ensures forall k :: 1 <= k < j + 1 ==> IsDigit(("0" + w + "o")[k])
    ensures Decimal("0" + w + "o", 1, j + 1) == Decimal(w, 0, j)
  {
    var f := "0" + w + "o";
    assert forall k :: 1 <= k < |w| + 1 ==> f[k] == w[k - 1];
    if j > 0 { DecimalShift(w, j - 1); }
  }

  /** snprintf() of an unsigned int by the format "%0<w>o" into size characters of buffer. */
  method SnprintfOctal(buffer: array<char>, start: nat, size: nat, w: string, value: nat) returns (length: nat)
    requires start + size <= buffer.Length && value < UINTMAX
    requires |w| > 0 && w[0] != '0'
    requires forall k :: 0 <= k < |w| ==> IsDigit(w[k])
    modifies buffer
    ensures
      var out := Rendered("", value, false, false, BASE_O, Conversion({'0'}, Decimal(w, 0, |w|), -1, Int));
      && length == |out|
      && buffer[..] == if size == 0 then old(buffer[..])
                       else Overwrite(old(buffer[..]), start, Clip(out, size - 1) + "\0")
  {
    var format := "0" + w + "o";
    var c, r := ParseConversion(format, 0, 0);
    OctalConversion(w);
    DecimalShift(w, |w|);
    assert c == Conversion({'0'}, Decimal(w, 0, |w|), -1, Int) && format[r] == 'o';
    length := Convert(buffer, start, size, value, c);
  }

  method Convert(buffer: array<char>, start: nat, size: nat, value: nat, c: Conversion) returns (length: nat)
    requires start + size <= buffer.Length && value < UINTMAX
    modifies buffer
    ensures
      var out := Rendered("", value, false, false, BASE_O, c);
      && length == |out|
      && buffer[..] == if size == 0 then old(buffer[..])
                       else Overwrite(old(buffer[..]), start, Clip(out, size - 1) + "\0")
  {
    var sink := new Sink(buffer, start, if size > 0 then size - 1 else 0);
    sink.FormatInteger(value, false, false, BASE_O, c);
    if size > 0 {
      buffer[sink.p] := '\0';
    }
    length := sink.length;
  }
}
