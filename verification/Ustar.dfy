/** src/lib/ustar.c: headers of ustar archives. */
module Ustar {
  import opened Options
  import opened Words
  import opened Stdio

  const USTAR_HEADER_SIZE: nat := 512

  // Where the fields of struct ustar_header start.
  const MODE: nat := 100
  const UID: nat := 108
  const GID: nat := 116
  const SIZE: nat := 124
  const MTIME: nat := 136
  const CHKSUM: nat := 148
  const TYPEFLAG: nat := 156
  const MAGIC: nat := 257
  const VERSION: nat := 263
  const UNAME: nat := 265
  const GNAME: nat := 297
  const PREFIX: nat := 345

  const INT_MAX: nat := 0x7FFF_FFFF

  /** A file type that the archive can hold. */
  datatype FileType = Regular | Directory {
    function Flag(): (c: char) {
      if Regular? then '0' else '5'
    }
  }

  datatype Parsed = Eof | Entry(name: string, fileType: FileType, size: nat) | Error(message: string)

  /** The characters of a C string: no terminator inside, each a byte. */
  predicate CString(s: string) {
    forall i :: 0 <= i < |s| ==> s[i] != '\0' && s[i] as int < 256
  }

  predicate Bytes(h: seq<char>) {
    forall i :: 0 <= i < |h| ==> h[i] as int < 256
  }

  // ---------------------------------------------------------------- names

  predicate Antisocial(s: string) {
    "/" <= s || "./" <= s || "../" <= s
  }

  /** s past its first slash. */
  function PastSlash(s: string): (r: string)
    ensures s != "" ==> |r| < |s|
    ensures CString(s) ==> CString(r)
  {
    if s == "" then "" else if s[0] == '/' then s[1..] else PastSlash(s[1..])
  }

  /** s without its antisocial prefixes. */
  function Dropped(s: string): (r: string)
    ensures |r| <= |s| && !Antisocial(r)
    ensures CString(s) ==> CString(r)
    decreases |s|
  {
    if Antisocial(s) then Dropped(PastSlash(s)) else s
  }

  /** What is left is the longest end of s that starts with no antisocial prefix. */
  lemma {:induction false} LongestSociable(s: string, k: nat)
    requires k <= |s|
    ensures |Dropped(s)| <= |s| && Dropped(s) == s[|s| - |Dropped(s)|..]
    ensures !Antisocial(s[k..]) ==> |s| - k <= |Dropped(s)|
    decreases |s|
  {
    if Antisocial(s) {
      var j := SlashAt(s);
      LongestSociable(s[j + 1..], if k > j then k - (j + 1) else 0);
      SociableEnd(s, j + 1, s[j + 1..], Dropped(s), k);
    } else {
      assert s[0..] == s;
    }
  }

  lemma SociableEnd(s: string, j: nat, rest: string, d: string, k: nat)
    requires 0 < j <= |s| && k <= |s| && rest == s[j..] && |d| <= |rest| && d == rest[|rest| - |d|..]
    requires forall i :: 0 <= i < j ==> Antisocial(s[i..])
    requires k >= j && !Antisocial(rest[k - j..]) ==> |rest| - (k - j) <= |d|
    ensures d == s[|s| - |d|..] && (!Antisocial(s[k..]) ==> |s| - k <= |d|)
  {
    Suffix(s, j, |rest| - |d|);
    if k >= j { Suffix(s, j, k - j); }
  }

  lemma Suffix(s: string, a: nat, b: nat)
    requires a + b <= |s|
    ensures s[a..][b..] == s[a + b..]
  {
  }

  /** The first slash of an antisocial name, and the dots before it. */
  lemma SlashAt(s: string) returns (j: nat)
    requires Antisocial(s)
    ensures j < |s| && PastSlash(s) == s[j + 1..]
    ensures forall k :: 0 <= k <= j ==> Antisocial(s[k..])
  {
    j := if s[0] == '/' then 0 else if s[1] == '/' then 1 else 2;
    assert s[0..] == s;
    if j == 1 {
      assert PastSlash(s) == PastSlash(s[1..]) && s[1..][1..] == s[2..];
    } else if j == 2 {
      assert "../" <= s && s[1] == '.' && s[2] == '/';
      assert s[1..][1..] == s[2..] && s[2..][1..] == s[3..] && s[1..][0] == '.' && s[1..][1] == '/' && "./" <= s[1..];
      assert PastSlash(s) == PastSlash(s[1..]) == PastSlash(s[2..]);
    }
    assert "/" <= s[j..];
    forall k | 0 <= k <= j ensures Antisocial(s[k..]) {
      assert k == 0 || k == j || (k == 1 && j == 2);
    }
  }

  /** The name to archive s under. */
  function Stripped(s: string): (r: string)
    ensures r != "" && r != ".." && !Antisocial(r)
    ensures CString(s) ==> CString(r)
  {
    var d := Dropped(s);
    assert "."[0] != '/' && |"."| == 1;
    if d == "" || d == ".." then "." else d
  }

  /** A name is stripped exactly when it is not empty, climbs nowhere and starts nowhere
      absolute; so stripping a name again changes nothing. */
  lemma StripTwice(s: string)
    ensures Stripped(s) == s <==> s != "" && s != ".." && !Antisocial(s)
    ensures Stripped(Stripped(s)) == Stripped(s)
  {
  }

  method StripAntisocialPrefixes(fileName: string) returns (r: string)
    ensures r == Stripped(fileName)
  {
    var s := fileName;
    while Antisocial(s)
      invariant Dropped(s) == Dropped(fileName)
      decreases |s|
    {
      s := Strchr(s);
    }
    r := if s == "" || s == ".." then "." else s;
  }

  /** The string past its first slash. */
  method Strchr(s: string) returns (r: string)
    ensures r == PastSlash(s)
  {
    r := s;
    while r != "" && r[0] != '/'
      invariant PastSlash(r) == PastSlash(s)
      decreases |r|
    {
      r := r[1..];
    }
    if r != "" { r := r[1..]; }
  }

  // ---------------------------------------------------------------- octal fields

  predicate IsOctal(c: char) {
    '0' <= c <= '7'
  }

  /** How many octal digits follow the first i characters of s. */
  function OctalEnd(s: string, i: nat): (r: nat)
    requires i <= |s|
    ensures i <= r <= |s| && (r < |s| ==> !IsOctal(s[r]))
    ensures forall k :: i <= k < r ==> IsOctal(s[k])
    decreases |s| - i
  {
    if i < |s| && IsOctal(s[i]) then OctalEnd(s, i + 1) else i
  }

  /** The number that the first n characters of s spell in octal. */
  function OctalValue(s: string, n: nat): (v: nat)
    requires n <= |s| && forall k :: 0 <= k < n ==> IsOctal(s[k])
  {
    if n == 0 then 0
    else
      assert IsOctal(s[n - 1]);
      8 * OctalValue(s, n - 1) + (s[n - 1] as int - '0' as int)
  }

  /** What an octal field holds: one digit or more, ended by a space or a NUL within the
      field, spelling a number that an unsigned long can hold. */
  function FieldValue(s: string): (v: Option<nat>) {
    var n := OctalEnd(s, 0);
    if 0 < n < |s| && (s[n] == ' ' || s[n] == '\0') && OctalValue(s, n) < WORD
    then Some(OctalValue(s, n)) else None
  }

  lemma {:induction false} OctalGrows(s: string, i: nat, n: nat)
    requires i <= n <= |s| && forall k :: 0 <= k < n ==> IsOctal(s[k])
    ensures OctalValue(s, i) <= OctalValue(s, n)
    decreases n - i
  {
    if i < n {
      OctalGrows(s, i, n - 1);
      assert IsOctal(s[n - 1]);
    }
  }

  lemma {:induction false} OctalEndIs(s: string, i: nat, n: nat)
    requires i <= n <= |s| && (forall k :: i <= k < n ==> IsOctal(s[k]))
    requires n < |s| ==> !IsOctal(s[n])
    ensures OctalEnd(s, i) == n
    decreases n - i
  {
    if i < n { OctalEndIs(s, i + 1, n); }
  }

  method ParseOctalField(s: string) returns (v: Option<nat>)
    ensures v == FieldValue(s)
  {
    var value, ofs := 0, 0;
    while ofs < |s|
      invariant ofs <= |s| && (forall k :: 0 <= k < ofs ==> IsOctal(s[k]))
      invariant OctalEnd(s, 0) == OctalEnd(s, ofs)
      invariant value == OctalValue(s, ofs) && value < WORD
    {
      var c := s[ofs];
      if IsOctal(c) {
        if value > (WORD - 1) / 8 {
          OctalGrows(s, ofs + 1, OctalEnd(s, 0));
          return None;
        }
        value := c as int - '0' as int + value * 8;
      } else if c == ' ' || c == '\0' {
        return if ofs > 0 then Some(value) else None;
      } else {
        return None;
      }
      ofs := ofs + 1;
    }
    return None;
  }

  lemma {:induction false} FieldSpells(value: nat, w: nat, t: string)
    requires value < Pow8(w) && |t| >= w && t[..w] == OctalField(value, w)
    ensures forall k :: 0 <= k < w ==> IsOctal(t[k])
    ensures OctalValue(t, w) == value
    decreases w
  {
    if w > 0 {
      assert t[..w - 1] == OctalField(value / 8, w - 1);
      assert t[w - 1] == OctalField(value, w)[w - 1] == "01234567"[value % 8];
      FieldSpells(value / 8, w - 1, t);
    }
  }

  /** Parsing w octal digits is undone by printing. */
  lemma {:induction false} ParsePrint(t: string, w: nat)
    requires w <= |t| && forall k :: 0 <= k < w ==> IsOctal(t[k])
    ensures OctalField(OctalValue(t, w), w) == t[..w]
  {
    if w > 0 {
      var v, d := OctalValue(t, w - 1), t[w - 1] as int - '0' as int;
      ParsePrint(t, w - 1);
      assert IsOctal(t[w - 1]) && (8 * v + d) / 8 == v && (8 * v + d) % 8 == d;
      assert t[..w] == t[..w - 1] + [t[w - 1]];
    }
  }

  /** Printing in octal is undone by parsing. */
  lemma PrintParse(value: nat, w: nat)
    requires 0 < w && value < Pow8(w) && value < WORD
    ensures FieldValue(OctalField(value, w) + "\0") == Some(value)
  {
    var t := OctalField(value, w) + "\0";
    assert t[..w] == OctalField(value, w);
    FieldSpells(value, w, t);
    OctalEndIs(t, 0, w);
  }

  // ---------------------------------------------------------------- checksums

  /** g is h with s written at ofs. */
  ghost predicate Put(h: string, g: string, ofs: nat, s: string) {
    && |g| == |h| && ofs + |s| <= |h|
    && forall k {:trigger g[k]} :: 0 <= k < |g| ==> g[k] == if ofs <= k < ofs + |s| then s[k - ofs] else h[k]
  }

  /** What byte i of a header adds to the checksum: the checksum field counts as spaces. */
  function Counted(h: string, i: nat): (n: nat)
    requires i < |h|
  {
    if CHKSUM <= i < CHKSUM + 8 then ' ' as int else h[i] as int
  }

  function SumTo(h: string, n: nat): (s: nat)
    requires n <= |h|
  {
    if n == 0 then 0 else SumTo(h, n - 1) + Counted(h, n - 1)
  }

  function Chksum(h: string): (s: nat) {
    SumTo(h, |h|)
  }

  method CalculateChksum(h: string) returns (chksum: nat)
    requires |h| == USTAR_HEADER_SIZE && Bytes(h)
    ensures chksum == Chksum(h) == ByteSum(Blanked(h)) && chksum < WORD
  {
    chksum := 0;
    for i := 0 to |h|
      invariant chksum == SumTo(h, i)
    {
      var inChksumField := CHKSUM <= i < CHKSUM + 8;
      chksum := chksum + if inChksumField then ' ' as int else h[i] as int;
    }
    SumBound(h, |h|);
    BlankedSum(h);
  }

  /** The sum of all bytes. */
  function ByteSum(s: string): (n: nat) {
    if s == "" then 0 else ByteSum(s[..|s| - 1]) + s[|s| - 1] as int
  }

  /** The header with eight spaces in place of its checksum. */
  function Blanked(h: string): (g: string)
    requires |h| == 512
    ensures |g| == 512
  {
    h[..148] + "        " + h[156..]
  }

  lemma {:induction false} BlankedSumTo(h: string, n: nat)
    requires |h| == USTAR_HEADER_SIZE && n <= |h|
    ensures SumTo(h, n) == ByteSum(Blanked(h)[..n])
  {
    if n > 0 {
      BlankedSumTo(h, n - 1);
      assert Blanked(h)[..n][..n - 1] == Blanked(h)[..n - 1];
    }
  }

  /** The checksum is the sum of the bytes of the header with its checksum blank. */
  lemma BlankedSum(h: string)
    requires |h| == USTAR_HEADER_SIZE
    ensures Chksum(h) == ByteSum(Blanked(h))
  {
    BlankedSumTo(h, |h|);
    assert Blanked(h)[..|h|] == Blanked(h);
  }

  lemma {:induction false} SumBound(h: string, n: nat)
    requires n <= |h| && Bytes(h)
    ensures SumTo(h, n) <= 255 * n
  {
    if n > 0 { SumBound(h, n - 1); }
  }

  /** The checksum does not depend on the checksum field. */
  lemma {:induction false} SumIgnores(h: string, g: string, field: string, n: nat)
    requires Put(h, g, CHKSUM, field) && |field| == 8 && n <= |h|
    ensures SumTo(g, n) == SumTo(h, n)
  {
    if n > 0 { SumIgnores(h, g, field, n - 1); }
  }

  /** Changing one other byte changes the checksum by as much. */
  lemma {:induction false} SumShifts(h: string, i: nat, c: char, n: nat)
    requires i < |h| && n <= |h| && !(CHKSUM <= i < CHKSUM + 8)
    ensures SumTo(h[i := c], n) == SumTo(h, n) + if i < n then c as int - h[i] as int else 0
  {
    if n > 0 { SumShifts(h, i, c, n - 1); }
  }

  // ---------------------------------------------------------------- parsing

  predicate AllZeros(h: string) {
    forall i :: 0 <= i < |h| ==> h[i] == '\0'
  }

  method IsAllZeros(h: string) returns (zeros: bool)
    ensures zeros == AllZeros(h)
  {
    for i := 0 to |h|
      invariant forall k :: 0 <= k < i ==> h[k] == '\0'
    {
      if h[i] != '\0' { return false; }
    }
    return true;
  }

  /** The C string at the start of s. */
  function UpToNul(s: string): (r: string)
    ensures |r| <= |s|
  {
    if s == "" || s[0] == '\0' then "" else [s[0]] + UpToNul(s[1..])
  }

  /** What a header says. */
  function Parse(h: string): (r: Parsed)
    requires |h| == USTAR_HEADER_SIZE
  {
    if AllZeros(h) then Eof
    else if h[MAGIC..MAGIC + 6] != "ustar\0" then Error("not a ustar archive")
    else if h[VERSION] != '0' || h[VERSION + 1] != '0' then Error("invalid ustar version")
    else if FieldValue(h[CHKSUM..CHKSUM + 8]) == None then Error("corrupt chksum field")
    else if FieldValue(h[CHKSUM..CHKSUM + 8]) != Some(Chksum(h)) then Error("checksum mismatch")
    else if h[99] != '\0' || h[PREFIX] != '\0' then Error("file name too long")
    else if h[TYPEFLAG] == '5' then Entry(Stripped(UpToNul(h[..100])), Directory, 0)
    else if h[TYPEFLAG] != '0' then Error("unimplemented file type")
    else
      match FieldValue(h[SIZE..SIZE + 12])
      case None => Error("corrupt file size field")
      case Some(size) =>
        if size > INT_MAX then Error("file too large")
        else Entry(Stripped(UpToNul(h[..100])), Regular, size)
  }

  method ParseHeader(h: string) returns (r: Parsed)
    requires |h| == USTAR_HEADER_SIZE && Bytes(h)
    ensures r == Parse(h)
    ensures r.Entry? ==> r.name != "" && r.name != ".." && !Antisocial(r.name) && r.size <= INT_MAX
  {
    var zeros := IsAllZeros(h);
    if zeros { return Eof; }
    if h[MAGIC..MAGIC + 6] != "ustar\0" { return Error("not a ustar archive"); }
    if h[VERSION] != '0' || h[VERSION + 1] != '0' { return Error("invalid ustar version"); }
    var chksum := ParseOctalField(h[CHKSUM..CHKSUM + 8]);
    if chksum == None { return Error("corrupt chksum field"); }
    var sum := CalculateChksum(h);
    if chksum.value != sum { return Error("checksum mismatch"); }
    if h[99] != '\0' || h[PREFIX] != '\0' { return Error("file name too long"); }
    if h[TYPEFLAG] != '0' && h[TYPEFLAG] != '5' { return Error("unimplemented file type"); }
    var size := Some(0);
    if h[TYPEFLAG] == '0' {
      size := ParseOctalField(h[SIZE..SIZE + 12]);
      if size == None { return Error("corrupt file size field"); }
      if size.value > INT_MAX { return Error("file too large"); }
    }
    var name := StripAntisocialPrefixes(UpToNul(h[..100]));
    r := Entry(name, if h[TYPEFLAG] == '0' then Regular else Directory, size.value);
  }

  /** Which headers are accepted, byte by byte: the magic and version are right, the checksum
      field holds the sum of the header with that field blank, the name ends within its field
      and has no prefix, and the file is a directory or a regular file of at most 2^31 - 1 bytes. */
  lemma ParseAccepts(h: string)
    requires |h| == USTAR_HEADER_SIZE
    ensures Parse(h).Eof? <==> forall i :: 0 <= i < 512 ==> h[i] == '\0'
    ensures Parse(h).Entry? <==>
      && h[257..263] == "ustar\0" && h[263] == '0' && h[264] == '0'
      && FieldValue(h[148..156]) == Some(ByteSum(Blanked(h))) && h[99] == '\0' && h[345] == '\0'
      && (h[156] == '5' || (h[156] == '0' && FieldValue(h[124..136]).Some?
                            && FieldValue(h[124..136]).value <= 0x7FFF_FFFF))
    ensures Parse(h).Entry? ==>
      && Parse(h).name == Stripped(UpToNul(h[..100])) && (Parse(h).fileType.Directory? <==> h[156] == '5')
      && Parse(h).size == if h[156] == '5' then 0 else FieldValue(h[124..136]).value
  {
    BlankedSum(h);
    if AllZeros(h) {
      assert h[257..263][0] == '\0';
    }
  }

  /** A header that parses stops parsing when any one byte outside its checksum is changed. */
  lemma OneByteCaught(h: string, i: nat, c: char)
    requires |h| == USTAR_HEADER_SIZE && Parse(h).Entry?
    requires i < |h| && !(CHKSUM <= i < CHKSUM + 8) && c != h[i]
    ensures Parse(h[i := c]).Error?
  {
    var g := h[i := c];
    SumShifts(h, i, c, |h|);
    assert g[CHKSUM..CHKSUM + 8] == h[CHKSUM..CHKSUM + 8];
    assert h[MAGIC..MAGIC + 6][0] == 'u' && h[MAGIC..MAGIC + 6][1] == 's';
    assert g[MAGIC] == 'u' || g[MAGIC + 1] == 's';
  }

  // ---------------------------------------------------------------- making

  /** Field s stands at ofs. */
  ghost predicate Holds(h: string, ofs: nat, s: string) {
    ofs + |s| <= |h| && forall k :: ofs <= k < ofs + |s| ==> h[k] == s[k - ofs]
  }

  predicate IsInt(n: int) {
    -0x8000_0000 <= n <= INT_MAX
  }

  /** size as the unsigned int that %o prints. */
  function Unsigned(size: int): (n: nat)
    requires IsInt(size)
    ensures n < WORD
  {
    if size < 0 then size + WORD else size
  }

  function Mode(t: FileType): (m: nat) {
    if t.Regular? then 420 else 493
  }

  /** The fields that print numbers. */
  ghost predicate Numbers(h: string, t: FileType, size: int)
    requires IsInt(size)
  {
    && |h| == USTAR_HEADER_SIZE
    && Holds(h, MODE, OctalField(Mode(t), 7) + "\0")
    && Holds(h, UID, "0000000" + "\0") && Holds(h, GID, "0000000" + "\0")
    && Holds(h, SIZE, OctalField(Unsigned(size), 11) + "\0")
    && Holds(h, MTIME, OctalField(1136102400, 11) + "\0")
  }

  /** The fields that hold text; every byte outside the fields is zero. */
  ghost predicate Texts(h: string, name: string, t: FileType) {
    && |h| == USTAR_HEADER_SIZE && |name| <= 99
    && Holds(h, 0, name) && (forall k :: |name| <= k < MODE ==> h[k] == '\0')
    && h[TYPEFLAG] == t.Flag()
    && Holds(h, MAGIC, "ustar" + "\0") && Holds(h, VERSION, "00")
    && Holds(h, UNAME, "root" + "\0") && Holds(h, GNAME, "root" + "\0")
    && (forall k :: TYPEFLAG < k < MAGIC || UNAME + 5 <= k < GNAME || GNAME + 5 <= k < |h| ==> h[k] == '\0')
  }

  datatype Field = Field(ofs: nat, text: string)

  /** What goes where in a header, in the order of writing; the checksum comes last. */
  function FieldAt(i: nat, name: string, t: FileType, size: int, sum: nat): (f: Field)
    requires IsInt(size)
  {
    match i
    case 0 => Field(0, name + "\0")
    case 1 => Field(MODE, OctalField(Mode(t), 7) + "\0")
    case 2 => Field(UID, "0000000" + "\0")
    case 3 => Field(GID, "0000000" + "\0")
    case 4 => Field(SIZE, OctalField(Unsigned(size), 11) + "\0")
    case 5 => Field(MTIME, OctalField(1136102400, 11) + "\0")
    case 6 => Field(TYPEFLAG, [t.Flag()])
    case 7 => Field(MAGIC, "ustar" + "\0")
    case 8 => Field(VERSION, "00")
    case 9 => Field(GNAME, "root" + "\0")
    case 10 => Field(UNAME, "root" + "\0")
    case _ => Field(CHKSUM, OctalField(sum, 7) + "\0")
  }

  predicate Apart(f: Field, g: Field) {
    f.ofs + |f.text| <= g.ofs || g.ofs + |g.text| <= f.ofs
  }

  /** No two fields overlap, and every one fits in the header. */
  lemma FieldsApart(i: nat, j: nat, name: string, t: FileType, size: int, sum: nat)
    requires IsInt(size) && |name| <= 99 && i < j < 12
    ensures Apart(FieldAt(i, name, t, size, sum), FieldAt(j, name, t, size, sum))
  {
  }

  /** Byte k is in none of the first n fields. */
  ghost predicate Outside(k: nat, n: nat, name: string, t: FileType, size: int, sum: nat)
    requires IsInt(size)
  {
    forall j: nat {:trigger FieldAt(j, name, t, size, sum)} :: j < n ==>
      var f := FieldAt(j, name, t, size, sum);
      k < f.ofs || f.ofs + |f.text| <= k
  }

  /** The first n fields are in place, and every byte outside them is zero. */
  ghost predicate Filled(h: string, n: nat, name: string, t: FileType, size: int, sum: nat)
    requires IsInt(size)
  {
    && |h| == USTAR_HEADER_SIZE && Bytes(h)
    && (forall j: nat {:trigger FieldAt(j, name, t, size, sum)} :: j < n ==>
          Holds(h, FieldAt(j, name, t, size, sum).ofs, FieldAt(j, name, t, size, sum).text))
    && (forall k: nat {:trigger h[k]} :: k < |h| && Outside(k, n, name, t, size, sum) ==> h[k] == '\0')
  }

  /** Writing a field keeps the fields that it does not overlap. */
  lemma HoldsKept(h: string, g: string, f: Field, e: Field)
    requires Put(h, g, f.ofs, f.text) && Holds(h, e.ofs, e.text) && Apart(e, f)
    ensures Holds(g, e.ofs, e.text)
  {
  }

  /** One more field is written. */
  lemma NextField(h: string, g: string, n: nat, name: string, t: FileType, size: int, sum: nat)
    requires IsInt(size) && |name| <= 99 && n < 12 && Filled(h, n, name, t, size, sum)
    requires var f := FieldAt(n, name, t, size, sum); Put(h, g, f.ofs, f.text) && Bytes(f.text)
    ensures Filled(g, n + 1, name, t, size, sum)
  {
    var f := FieldAt(n, name, t, size, sum);
    PutBytes(h, g, f.ofs, f.text);
    forall j: nat | j < n + 1
      ensures Holds(g, FieldAt(j, name, t, size, sum).ofs, FieldAt(j, name, t, size, sum).text)
    {
      if j < n {
        FieldsApart(j, n, name, t, size, sum);
        HoldsKept(h, g, f, FieldAt(j, name, t, size, sum));
      }
    }
    forall k: nat | k < |g| && Outside(k, n + 1, name, t, size, sum) ensures g[k] == '\0' {
      assert k < f.ofs || f.ofs + |f.text| <= k;
      assert Outside(k, n, name, t, size, sum);
      assert h[k] == '\0';
    }
  }

  /** The checksum field is not among the first eleven. */
  lemma AnySum(h: string, name: string, t: FileType, size: int, sum: nat)
    requires IsInt(size) && Filled(h, 11, name, t, size, 0)
    ensures Filled(h, 11, name, t, size, sum)
  {
    forall j: nat | j < 11 ensures FieldAt(j, name, t, size, 0) == FieldAt(j, name, t, size, sum) {
    }
    forall k: nat | k < |h| && Outside(k, 11, name, t, size, sum) ensures h[k] == '\0' {
      assert Outside(k, 11, name, t, size, 0);
    }
  }

  lemma FilledTexts(h: string, name: string, t: FileType, size: int, sum: nat)
    requires IsInt(size) && |name| <= 99 && Filled(h, 12, name, t, size, sum)
    ensures Texts(h, name, t)
  {
    FieldHeld(h, 0, name, t, size, sum);
    FieldHeld(h, 6, name, t, size, sum);
    FieldHeld(h, 7, name, t, size, sum);
    FieldHeld(h, 8, name, t, size, sum);
    FieldHeld(h, 9, name, t, size, sum);
    FieldHeld(h, 10, name, t, size, sum);
    forall k: nat |
      || |name| + 1 <= k < MODE || TYPEFLAG < k < MAGIC || UNAME + 5 <= k < GNAME || GNAME + 5 <= k < |h|
      ensures h[k] == '\0'
    {
      Gap(k, name, t, size, sum);
    }
  }

  lemma Gap(k: nat, name: string, t: FileType, size: int, sum: nat)
    requires IsInt(size) && |name| <= 99
    requires |name| + 1 <= k < MODE || TYPEFLAG < k < MAGIC || UNAME + 5 <= k < GNAME || GNAME + 5 <= k
    ensures Outside(k, 12, name, t, size, sum)
  {
  }

  lemma FieldHeld(h: string, j: nat, name: string, t: FileType, size: int, sum: nat)
    requires IsInt(size) && j < 12 && Filled(h, 12, name, t, size, sum)
    ensures Holds(h, FieldAt(j, name, t, size, sum).ofs, FieldAt(j, name, t, size, sum).text)
  {
  }

  lemma FilledNumbers(h: string, name: string, t: FileType, size: int, sum: nat)
    requires IsInt(size) && Filled(h, 12, name, t, size, sum)
    ensures Numbers(h, t, size) && Holds(h, CHKSUM, OctalField(sum, 7) + "\0")
  {
    FieldHeld(h, 1, name, t, size, sum);
    FieldHeld(h, 2, name, t, size, sum);
    FieldHeld(h, 3, name, t, size, sum);
    FieldHeld(h, 4, name, t, size, sum);
    FieldHeld(h, 5, name, t, size, sum);
    FieldHeld(h, 11, name, t, size, sum);
  }

  lemma PutBytes(h: string, g: string, ofs: nat, s: string)
    requires Put(h, g, ofs, s) && Bytes(h) && Bytes(s)
    ensures Bytes(g)
  {
  }

  lemma {:induction false} OctalBytes(value: nat, w: nat)
    ensures Bytes(OctalField(value, w))
  {
    if w > 0 { OctalBytes(value / 8, w - 1); }
  }

  /** strlcpy() into a field of the header. */
  method Strlcpy(header: array<char>, ofs: nat, size: nat, s: string)
    requires 0 < size && ofs + size <= header.Length
    modifies header
    ensures Put(old(header[..]), header[..], ofs, Clip(s, size - 1) + "\0")
  {
    Store(header, ofs, Clip(s, size - 1) + "\0");
  }

  lemma OctalMode(t: FileType)
    ensures OctalField(Mode(t), 7) == if t.Regular? then "0000644" else "0000755"
  {
    if t.Regular? {
      var s := "0000644";
      assert OctalValue(s, 4) == 0 && OctalValue(s, 5) == 6 && OctalValue(s, 6) == 52 && OctalValue(s, 7) == 420;
      ParsePrint(s, 7);
      assert s[..7] == s;
    } else {
      var s := "0000755";
      assert OctalValue(s, 4) == 0 && OctalValue(s, 5) == 7 && OctalValue(s, 6) == 61 && OctalValue(s, 7) == 493;
      ParsePrint(s, 7);
      assert s[..7] == s;
    }
  }

  lemma OctalTime()
    ensures OctalField(1136102400, 11) == "10355706000"
  {
    var s := "10355706000";
    assert OctalValue(s, 2) == 8 && OctalValue(s, 3) == 67 && OctalValue(s, 4) == 541 && OctalValue(s, 5) == 4333;
    assert OctalValue(s, 6) == 34671 && OctalValue(s, 7) == 277368 && OctalValue(s, 8) == 2218950;
    assert OctalValue(s, 9) == 17751600 && OctalValue(s, 10) == 142012800 && OctalValue(s, 11) == 1136102400;
    ParsePrint(s, 11);
    assert s[..11] == s;
  }

  /** Stores characters into the header. */
  method Store(header: array<char>, ofs: nat, s: string)
    requires ofs + |s| <= header.Length
    modifies header
    ensures Put(old(header[..]), header[..], ofs, s)
  {
    forall i | 0 <= i < |s| { header[ofs + i] := s[i]; }
  }

  /** snprintf() of a number that fits into a field of the header. */
  method PutOctal(header: array<char>, ofs: nat, size: nat, w: string, value: nat)
    requires ofs + size <= header.Length && value < WORD
    requires (size == 8 && w == "7" && value < 0x20_0000) || (size == 12 && w == "11")
    modifies header
    ensures Put(old(header[..]), header[..], ofs, OctalField(value, size - 1) + "\0")
  {
    Powers();
    assert Decimal("7", 0, 1) == 7 && Decimal("11", 0, 2) == 11;
    ZeroPadded(value, size - 1);
    var length := SnprintfOctal(header, ofs, size, w, value);
  }

  /** Fills in everything but the checksum. */
  method FillHeader(header: array<char>, name: string, t: FileType, size: int)
    requires header.Length == USTAR_HEADER_SIZE && |name| <= 99 && CString(name) && IsInt(size)
    modifies header
    ensures Filled(header[..], 11, name, t, size, 0)
  {
    forall i | 0 <= i < header.Length { header[i] := '\0'; }
    FillAttributes(header, name, t, size);
    FillConstants(header, name, t, size);
  }

  method FillAttributes(header: array<char>, name: string, t: FileType, size: int)
    requires header.Length == USTAR_HEADER_SIZE && |name| <= 99 && CString(name) && IsInt(size)
    requires Filled(header[..], 0, name, t, size, 0)
    modifies header
    ensures Filled(header[..], 6, name, t, size, 0)
  {
    FillText(header, 0, 100, name, 0, name, t, size);
    FillNumber(header, MODE, 8, "7", Mode(t), 1, name, t, size);
    FillText(header, UID, 8, "0000000", 2, name, t, size);
    FillText(header, GID, 8, "0000000", 3, name, t, size);
    FillNumber(header, SIZE, 12, "11", Unsigned(size), 4, name, t, size);
    FillNumber(header, MTIME, 12, "11", 1136102400, 5, name, t, size);
  }

  method FillConstants(header: array<char>, ghost name: string, t: FileType, ghost size: int)
    requires header.Length == USTAR_HEADER_SIZE && |name| <= 99 && CString(name) && IsInt(size)
    requires Filled(header[..], 6, name, t, size, 0)
    modifies header
    ensures Filled(header[..], 11, name, t, size, 0)
  {
    FillChars(header, TYPEFLAG, [t.Flag()], 6, name, t, size);
    FillText(header, MAGIC, 6, "ustar", 7, name, t, size);
    FillChars(header, VERSION, "00", 8, name, t, size);
    FillText(header, GNAME, 32, "root", 9, name, t, size);
    FillText(header, UNAME, 32, "root", 10, name, t, size);
  }

  /** strlcpy() of the n-th field. */
  method FillText(header: array<char>, ofs: nat, size: nat, s: string, ghost n: nat,
                  ghost name: string, ghost t: FileType, ghost fileSize: int)
    requires header.Length == USTAR_HEADER_SIZE && |name| <= 99 && IsInt(fileSize) && n < 11
    requires |s| < size && ofs + size <= header.Length && Bytes(s)
    requires Filled(header[..], n, name, t, fileSize, 0) && FieldAt(n, name, t, fileSize, 0) == Field(ofs, s + "\0")
    modifies header
    ensures Filled(header[..], n + 1, name, t, fileSize, 0)
  {
    ghost var h := header[..];
    Strlcpy(header, ofs, size, s);
    assert Bytes(s + "\0");
    NextField(h, header[..], n, name, t, fileSize, 0);
  }

  /** snprintf() of the n-th field. */
  method FillNumber(header: array<char>, ofs: nat, size: nat, w: string, value: nat, ghost n: nat,
                    ghost name: string, ghost t: FileType, ghost fileSize: int)
    requires header.Length == USTAR_HEADER_SIZE && |name| <= 99 && IsInt(fileSize) && n < 11
    requires ofs + size <= header.Length && value < WORD
    requires (size == 8 && w == "7" && value < 0x20_0000) || (size == 12 && w == "11")
    requires Filled(header[..], n, name, t, fileSize, 0)
    requires FieldAt(n, name, t, fileSize, 0) == Field(ofs, OctalField(value, size - 1) + "\0")
    modifies header
    ensures Filled(header[..], n + 1, name, t, fileSize, 0)
  {
    ghost var h := header[..];
    PutOctal(header, ofs, size, w, value);
    OctalBytes(value, size - 1);
    NextField(h, header[..], n, name, t, fileSize, 0);
  }

  /** Stores the n-th field. */
  method FillChars(header: array<char>, ofs: nat, s: string, ghost n: nat,
                   ghost name: string, ghost t: FileType, ghost fileSize: int)
    requires header.Length == USTAR_HEADER_SIZE && |name| <= 99 && IsInt(fileSize) && n < 11
    requires ofs + |s| <= header.Length && Bytes(s)
    requires Filled(header[..], n, name, t, fileSize, 0) && FieldAt(n, name, t, fileSize, 0) == Field(ofs, s)
    modifies header
    ensures Filled(header[..], n + 1, name, t, fileSize, 0)
  {
    ghost var h := header[..];
    Store(header, ofs, s);
    NextField(h, header[..], n, name, t, fileSize, 0);
  }

  /** Computes and fills in the checksum, which changes no other field. */
  method Seal(header: array<char>, ghost name: string, ghost t: FileType, ghost size: int)
    requires header.Length == USTAR_HEADER_SIZE && IsInt(size) && |name| <= 99 && CString(name)
    requires Filled(header[..], 11, name, t, size, 0)
    modifies header
    ensures Filled(header[..], 12, name, t, size, Chksum(header[..]))
  {
    ghost var h := header[..];
    PutChksum(header);
    AnySum(h, name, t, size, Chksum(h));
    OctalBytes(Chksum(h), 7);
    NextField(h, header[..], 11, name, t, size, Chksum(h));
    SumIgnores(h, header[..], OctalField(Chksum(h), 7) + "\0", |h|);
  }

  method PutChksum(header: array<char>)
    requires header.Length == USTAR_HEADER_SIZE && Bytes(header[..])
    modifies header
    ensures Put(old(header[..]), header[..], CHKSUM, OctalField(Chksum(old(header[..])), 7) + "\0")
  {
    var sum := CalculateChksum(header[..]);
    SumBound(header[..], USTAR_HEADER_SIZE);
    PutOctal(header, CHKSUM, 8, "7", sum);
  }

  lemma HoldsSlice(h: string, ofs: nat, s: string)
    requires Holds(h, ofs, s)
    ensures h[ofs..ofs + |s|] == s
  {
  }

  lemma {:induction false} NameEnds(s: string, name: string)
    requires |name| < |s| && CString(name) && s[..|name|] == name && s[|name|] == '\0'
    ensures UpToNul(s) == name
    decreases |name|
  {
    if name != "" {
      assert s[0] == s[..|name|][0] == name[0];
      assert s[1..][..|name| - 1] == s[..|name|][1..];
      NameEnds(s[1..], name[1..]);
    }
  }

  lemma NumbersParse(h: string, t: FileType, size: int)
    requires IsInt(size) && Bytes(h) && Numbers(h, t, size)
    requires Holds(h, CHKSUM, OctalField(Chksum(h), 7) + "\0")
    ensures FieldValue(h[CHKSUM..CHKSUM + 8]) == Some(Chksum(h))
    ensures FieldValue(h[SIZE..SIZE + 12]) == Some(Unsigned(size))
  {
    Powers();
    SumBound(h, |h|);
    PrintParse(Chksum(h), 7);
    PrintParse(Unsigned(size), 11);
    HoldsSlice(h, CHKSUM, OctalField(Chksum(h), 7) + "\0");
    HoldsSlice(h, SIZE, OctalField(Unsigned(size), 11) + "\0");
  }

  lemma TextsParse(h: string, name: string, t: FileType)
    requires Texts(h, name, t) && CString(name)
    ensures h[MAGIC..MAGIC + 6] == "ustar\0" && h[VERSION] == '0' == h[VERSION + 1] && !AllZeros(h)
    ensures h[99] == '\0' == h[PREFIX] && h[TYPEFLAG] == t.Flag() && UpToNul(h[..100]) == name
  {
    HoldsSlice(h, MAGIC, "ustar" + "\0");
    assert h[MAGIC..MAGIC + 6] == "ustar\0" && h[MAGIC..MAGIC + 6][0] == 'u';
    HoldsSlice(h, VERSION, "00");
    assert h[VERSION..VERSION + 2][0] == '0' && h[VERSION..VERSION + 2][1] == '0';
    assert h[..100][..|name|] == name;
    NameEnds(h[..100], name);
  }

  /** Parsing a header that holds these fields gives them back. */
  lemma ParseMade(h: string, name: string, t: FileType, size: int)
    requires IsInt(size) && Bytes(h) && CString(name) && Stripped(name) == name
    requires Texts(h, name, t) && Numbers(h, t, size)
    requires Holds(h, CHKSUM, OctalField(Chksum(h), 7) + "\0")
    ensures Parse(h) == if t.Regular? && size < 0 then Error("file too large")
                        else Entry(name, t, if t.Regular? then size else 0)
  {
    NumbersParse(h, t, size);
    TextsParse(h, name, t);
  }

  /** Composes a header.  When the name is not too long, parsing the header gives back the
      stripped name, the type and, for a regular file, the size; only a negative size, which
      is printed as a large unsigned number, is refused. */
  method MakeHeader(fileName: string, t: FileType, size: int, header: array<char>) returns (ok: bool)
    requires header.Length == USTAR_HEADER_SIZE && CString(fileName) && IsInt(size)
    modifies header
    ensures ok == (|Stripped(fileName)| <= 99)
    ensures !ok ==> header[..] == old(header[..])
    ensures ok ==> Bytes(header[..]) && Texts(header[..], Stripped(fileName), t)
    ensures ok ==> Numbers(header[..], t, size)
    ensures ok ==> Holds(header[..], 148, OctalField(ByteSum(Blanked(header[..])), 7) + "\0")
    ensures ok ==> Holds(header[..], 100, if t.Regular? then "0000644" + "\0" else "0000755" + "\0")
    ensures ok ==> Holds(header[..], 136, "10355706000" + "\0")
    ensures ok ==> Parse(header[..]) == if t.Regular? && size < 0 then Error("file too large")
                                        else Entry(Stripped(fileName), t, if t.Regular? then size else 0)
  {
    var name := StripAntisocialPrefixes(fileName);
    if |name| > 99 { return false; }
    FillHeader(header, name, t, size);
    Seal(header, name, t, size);
    FilledTexts(header[..], name, t, size, Chksum(header[..]));
    FilledNumbers(header[..], name, t, size, Chksum(header[..]));
    ParseMade(header[..], name, t, size);
    BlankedSum(header[..]);
    OctalMode(t);
    OctalTime();
    return true;
  }
}
