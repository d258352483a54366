/** The ustar record layout, field by field. */
module Ustar {
  import opened Bytes
  const RECORD := 512
  const SLASH: Byte := 47
  const BACKSLASH: Byte := 92
  const DOT: Byte := 46
  const SPACE: Byte := 32
  const ZERO: Byte := 48

  // ---- octal fields ----

  function Pow8(n: nat): (p: nat)
    ensures p >= 1
  {
    if n == 0 then 1 else 8 * Pow8(n - 1)
  }

  /** n octal digits, the highest first. */
  function Digits(v: nat, n: nat): (s: seq<Byte>)
    ensures |s| == n && forall i :: 0 <= i < n ==> ZERO <= s[i] < ZERO + 8
    decreases n
  {
    if n == 0 then [] else Digits(v / 8, n - 1) + [ZERO + v % 8]
  }

  /** Digits and a NUL. */
  function Octal(v: nat, width: nat): (s: seq<Byte>)
    requires width > 0
    ensures |s| == width
  {
    Digits(v, width - 1) + [0]
  }

  function SkipBlanks(s: seq<Byte>): seq<Byte>
  {
    if s != [] && (s[0] == SPACE || s[0] == 0) then SkipBlanks(s[1..]) else s
  }

  function Number(s: seq<Byte>, v: nat): nat
    decreases |s|
  {
    if s != [] && ZERO <= s[0] < ZERO + 8 then Number(s[1..], 8 * v + (s[0] - ZERO)) else v
  }

  /** What octal reads: blanks, then digits up to the first other byte. */
  function OctalValue(s: seq<Byte>): nat { Number(SkipBlanks(s), 0) }

  lemma {:induction false} NumberDigits(v: nat, n: nat, rest: seq<Byte>)
    requires v < Pow8(n) && rest != [] && rest[0] == 0
    ensures Number(Digits(v, n) + rest, 0) == v
    decreases n
  {
    hide Number;
    if n == 0 {
      assert Digits(v, 0) + rest == rest;
      NumberEnd(rest);
    } else {
      NumberMore(Digits(v / 8, n - 1), ZERO + v % 8, rest, 0);
      NumberDigits(v / 8, n - 1, [0]);
      assert Digits(v, n) + rest == Digits(v / 8, n - 1) + [ZERO + v % 8] + rest;
    }
  }

  lemma NumberEnd(rest: seq<Byte>)
    requires rest != [] && rest[0] == 0
    ensures forall v: nat :: Number(rest, v) == v
  {}

  lemma {:induction false} NumberMore(d: seq<Byte>, x: Byte, rest: seq<Byte>, w: nat)
    requires forall i :: 0 <= i < |d| ==> ZERO <= d[i] < ZERO + 8
    requires ZERO <= x < ZERO + 8 && rest != [] && rest[0] == 0
    ensures Number(d + [x] + rest, w) == 8 * Number(d + [0], w) + (x - ZERO)
    decreases |d|
  {
    if d == [] {
      assert d + [x] + rest == [x] + rest && ([x] + rest)[1..] == rest;
      assert d + [0] == [0];
    } else {
      assert (d + [x] + rest)[1..] == d[1..] + [x] + rest && (d + [0])[1..] == d[1..] + [0];
      NumberMore(d[1..], x, rest, 8 * w + (d[0] - ZERO));
    }
  }

  /** Reading an octal field gives back the number that was written. */
  lemma OctalBack(v: nat, width: nat)
    requires width > 1 && v < Pow8(width - 1)
    ensures OctalValue(Octal(v, width)) == v
  {
    NumberDigits(v, width - 1, [0]);
    assert SkipBlanks(Octal(v, width)) == Octal(v, width);
  }

  // ---- text fields ----

  /** Up to the first NUL. */
  function CString(s: seq<Byte>): (t: seq<Byte>)
    ensures t <= s
  {
    if s == [] || s[0] == 0 then [] else [s[0]] + CString(s[1..])
  }

  predicate NoNul(s: seq<Byte>) { forall i :: 0 <= i < |s| ==> s[i] != 0 }

  function At(s: seq<Byte>, i: nat): Byte { if i < |s| then s[i] else 0 }

  /** A text filled up with NULs. */
  lemma {:induction false} CStringBack(s: seq<Byte>, t: seq<Byte>)
    requires NoNul(s) && |s| <= |t| && s <= t && (|s| < |t| ==> t[|s|] == 0)
    ensures CString(t) == s
    decreases |s|
  {
    if s == [] {
    } else {
      CStringBack(s[1..], t[1..]);
      assert s == [s[0]] + s[1..];
    }
  }

  // ---- names ----

  predicate HasAt(path: seq<Byte>, i: nat, w: seq<Byte>) { i + |w| <= |path| && path[i..i + |w|] == w }

  predicate Contains(path: seq<Byte>, w: seq<Byte>) { exists i :: 0 <= i <= |path| && HasAt(path, i, w) }

  /** The paths that name_fields looks at further. */
  predicate Plain(path: seq<Byte>)
  {
    && path != [] && path[0] != SLASH && BACKSLASH !in path
    && !Contains(path, [DOT, DOT, SLASH]) && path != [DOT, DOT]
    && !Contains(path, [SLASH, DOT, SLASH]) && path != [DOT]
  }

  predicate SplitsAt(path: seq<Byte>, i: nat) { i < |path| && path[i] == SLASH && i <= 155 && |path| - i - 1 <= 100 }

  /** The last place below n where the path can be split, or n when there is none. */
  function LastSplit(path: seq<Byte>, n: nat): (i: int)
    requires n <= |path|
    ensures i == -1 || (0 <= i < n && SplitsAt(path, i))
  {
    if n == 0 then -1 else if SplitsAt(path, n - 1) then n - 1 else LastSplit(path, n - 1)
  }

  datatype Names = Names(name: seq<Byte>, prefix: seq<Byte>) | Refused

  /** The name and prefix fields of a path. */
  function Split(path: seq<Byte>): (r: Names)
    ensures r.Names? ==> 0 < |r.name| <= 100 && |r.prefix| <= 155
    ensures r.Names? ==> path == if r.prefix == [] then r.name else r.prefix + [SLASH] + r.name
  {
    if !Plain(path) then Refused
    else if |path| <= 100 then Names(path, [])
    else
      var i := LastSplit(path, |path|);
      if i <= 0 || i + 1 == |path| then Refused else Names(path[i + 1..], path[..i])
  }

  // ---- records ----

  function ByteSum(s: seq<Byte>): nat
    decreases |s|
  {
    if s == [] then 0 else ByteSum(s[..|s| - 1]) + s[|s| - 1]
  }

  lemma {:induction false} ByteSumBound(s: seq<Byte>)
    ensures ByteSum(s) <= 255 * |s|
    decreases |s|
  {
    if s != [] { ByteSumBound(s[..|s| - 1]); }
  }

  datatype Fields = Fields(name: seq<Byte>, prefix: seq<Byte>, mode: nat, size: nat, kind: Byte)

  /** Byte i of a record, with these eight bytes as its checksum field. */
  function RecordByte(f: Fields, check: seq<Byte>, i: nat): Byte
    requires |check| == 8
  {
    if i < 100 then At(f.name, i)
    else if i < 108 then Octal(f.mode, 8)[i - 100]
    else if i < 116 then Octal(0, 8)[i - 108]
    else if i < 124 then Octal(0, 8)[i - 116]
    else if i < 136 then Octal(f.size, 12)[i - 124]
    else if i < 148 then Octal(0, 12)[i - 136]
    else if i < 156 then check[i - 148]
    else if i == 156 then f.kind
    else if 257 <= i < 262 then [117, 115, 116, 97, 114][i - 257]
    else if 263 <= i < 265 then ZERO
    else if 345 <= i < 500 then At(f.prefix, i - 345)
    else 0
  }

  function Record(f: Fields, check: seq<Byte>): (r: seq<Byte>)
    requires |check| == 8
    ensures |r| == RECORD && forall i :: 0 <= i < RECORD ==> r[i] == RecordByte(f, check, i)
  {
    seq(RECORD, (i: nat) => RecordByte(f, check, i))
  }

  const BLANK: seq<Byte> := [SPACE, SPACE, SPACE, SPACE, SPACE, SPACE, SPACE, SPACE]

  /** The checksum is of the record with a blank checksum field. */
  function Check(f: Fields): (c: seq<Byte>)
    ensures |c| == 8
  {
    Octal(ByteSum(Record(f, BLANK)), 7) + [SPACE]
  }

  function Header(f: Fields): (r: seq<Byte>)
    ensures |r| == RECORD
  {
    Record(f, Check(f))
  }

  /** A record whose checksum field is blank. */
  function Blanked(r: seq<Byte>): (b: seq<Byte>)
    requires |r| == RECORD
    ensures |b| == RECORD && forall i | 0 <= i < RECORD :: b[i] == if 148 <= i < 156 then 32 else r[i]
  {
    seq(RECORD, (i: nat) requires i < RECORD => if 148 <= i < 156 then 32 else r[i])
  }

  /** The sum of a record's bytes, those of the checksum field counted as blanks. */
  function Unsigned(r: seq<Byte>): nat
    requires |r| == RECORD
  {
    ByteSum(Blanked(r))
  }

  lemma SixDigits()
    ensures Pow8(6) == 262144
  {
    assert Pow8(3) == 512;
  }

  /** The checksum field of a header reads back as that sum: six digits, a NUL and a blank. */
  lemma ChecksumBack(f: Fields)
    ensures var r := Header(f);
      OctalValue(r[148..155]) == Unsigned(r) && r[154] == 0 && r[155] == 32
  {
    hide Octal, OctalValue, ByteSum, RecordByte;
    var r, sum := Header(f), ByteSum(Record(f, BLANK));
    CheckPlace(f);
    SamePlaces(f);
    ByteSumBound(Record(f, BLANK));
    SixDigits();
    OctalBack(sum, 7);
  }

  lemma CheckPlace(f: Fields)
    ensures Header(f)[148..155] == Octal(ByteSum(Record(f, BLANK)), 7) && Header(f)[154] == 0 && Header(f)[155] == 32
  {
    hide ByteSum, Digits;
    assert Header(f)[148..156] == Check(f);
    assert Header(f)[148..155] == Check(f)[..7] && Header(f)[155] == Check(f)[7] && Header(f)[154] == Check(f)[6];
  }

  lemma BlankIs(k: nat)
    requires k < 8
    ensures BLANK[k] == 32
  {}

  lemma SamePlaces(f: Fields)
    ensures Blanked(Header(f)) == Record(f, BLANK)
  {
    hide Octal, Record, Blanked;
    var r, b := Blanked(Header(f)), Record(f, BLANK);
    forall i | 0 <= i < RECORD ensures r[i] == b[i] {
      if 148 <= i < 156 { BlankIs(i - 148); } else { assert RecordByte(f, BLANK, i) == RecordByte(f, Check(f), i); }
    }
  }
}
