/** The archive writer. */
module TarWrite {
  import opened Bytes
  import opened Ustar

  /** memcpy */
  method Copy(block: array<Byte>, off: nat, f: seq<Byte>)
    requires off + |f| <= block.Length
    modifies block
    ensures block[..] == Put(old(block[..]), off, f)
  {
    forall i | 0 <= i < |f| { block[off + i] := f[i]; }
  }

  /** Shifted down by i octal digits. */
  function Down(v: nat, i: nat): nat { if i == 0 then v else Down(v, i - 1) / 8 }

  lemma {:induction false} DownFirst(v: nat, i: nat)
    requires i > 0
    ensures Down(v, i) == Down(v / 8, i - 1)
  {
    if i > 1 { DownFirst(v, i - 1); }
  }

  lemma {:induction false} DownZero(v: nat, n: nat)
    ensures Down(v, n) == 0 <==> v < Pow8(n)
    decreases n
  {
    if n > 0 {
      DownFirst(v, n);
      DownZero(v / 8, n - 1);
    }
  }

  lemma {:induction false} DownStays(v: nat, i: nat, j: nat)
    requires i <= j && Down(v, i) == 0
    ensures Down(v, j) == 0
    decreases j
  {
    if i < j { DownStays(v, i, j - 1); }
  }

  lemma {:induction false} DigitAt(v: nat, n: nat, i: nat)
    requires i < n
    ensures Digits(v, n)[n - 1 - i] == ZERO + Down(v, i) % 8
    decreases n
  {
    if i > 0 {
      DigitAt(v / 8, n - 1, i - 1);
      DownFirst(v, i);
    }
  }

  lemma HighZeros(v: nat, n: nat, i: nat)
    requires i <= n && Down(v, i) == 0
    ensures forall j :: 0 <= j < n - i ==> Digits(v, n)[j] == ZERO
  {
    forall j | 0 <= j < n - i ensures Digits(v, n)[j] == ZERO {
      DigitAt(v, n, n - 1 - j);
      DownStays(v, i, n - 1 - j);
    }
  }

  /** oct: false when the number needs more digits than there are. */
  method Oct(block: array<Byte>, off: nat, width: nat, value: nat) returns (ok: bool)
    requires width > 0 && off + width <= block.Length
    modifies block
    ensures ok <==> value < Pow8(width - 1)
    ensures ok ==> block[..] == Put(old(block[..]), off, Octal(value, width))
    ensures !ok ==> block[..] == old(block[..])
  {
    hide Digits;
    var check, i := value, 0;
    while i < width - 1
      invariant 0 <= i <= width - 1 && check == Down(value, i)
    {
      check := check / 8;
      i := i + 1;
    }
    DownZero(value, width - 1);
    if check != 0 { return false; }
    FillOctal(block, off, width, value);
    ok := true;
  }

  /** The second half of oct: zeros, and the digits of the number from the right. */
  method FillOctal(block: array<Byte>, off: nat, width: nat, value: nat)
    requires width > 0 && off + width <= block.Length
    modifies block
    ensures block[..] == Put(old(block[..]), off, Octal(value, width))
  {
    hide Digits;
    Copy(block, off, seq(width, _ => ZERO));
    ghost var was := block[..];
    block[off + width - 1] := 0;
    var v, i := value, width - 1;
    while i > 0 && v != 0
      invariant 0 <= i < width && v == Down(value, width - 1 - i)
      invariant forall j :: 0 <= j < block.Length && !(off + i <= j < off + width) ==> block[j] == was[j]
      invariant block[off + width - 1] == 0
      invariant forall j :: off + i <= j < off + width - 1 ==> block[j] == Digits(value, width - 1)[j - off]
    {
      DigitAt(value, width - 1, width - 1 - i);
      block[off + i - 1] := ZERO + v % 8;
      v := v / 8;
      i := i - 1;
    }
    if i > 0 { HighZeros(value, width - 1, width - 1 - i); }
  }

  function Nothing(): (z: seq<Byte>)
    ensures |z| == RECORD && forall i :: 0 <= i < RECORD ==> z[i] == 0
  {
    seq(RECORD, _ => 0)
  }

  function Named(name: seq<Byte>, prefix: seq<Byte>): (s: seq<Byte>)
    requires |name| <= 100 && |prefix| <= 155
    ensures |s| == RECORD
  {
    Put(Put(Nothing(), 0, name), 345, prefix)
  }

  /** name_fields, in a block of zeros. */
  method NameFields(block: array<Byte>, path: seq<Byte>) returns (ok: bool)
    requires block.Length == RECORD && block[..] == Nothing()
    modifies block
    ensures ok <==> Split(path).Names?
    ensures ok ==> block[..] == Named(Split(path).name, Split(path).prefix)
  {
    if path == [] || path[0] == SLASH || BACKSLASH in path { return false; }
    if Contains(path, [DOT, DOT, SLASH]) || path == [DOT, DOT] || Contains(path, [SLASH, DOT, SLASH]) || path == [DOT] {
      return false;
    }
    if |path| <= 100 {
      Copy(block, 0, path);
      assert Put(block[..], 345, []) == block[..];
      return true;
    }
    var slash, cursor := -1, 0;
    while cursor < |path|
      invariant cursor <= |path| && slash == LastSplit(path, cursor)
    {
      if path[cursor] == SLASH && cursor <= 155 && |path| - cursor - 1 <= 100 { slash := cursor; }
      cursor := cursor + 1;
    }
    if slash <= 0 || slash + 1 == |path| { return false; }
    Copy(block, 0, path[slash + 1..]);
    Copy(block, 345, path[..slash]);
    ok := true;
  }

  predicate Storable(path: seq<Byte>, size: nat) { Split(path).Names? && size < Pow8(11) }

  function FieldsOf(path: seq<Byte>, size: nat, mode: nat, kind: Byte): Fields
    requires Split(path).Names?
  {
    Fields(Split(path).name, Split(path).prefix, mode % 4096, size, kind)
  }

  const USTAR: seq<Byte> := [117, 115, 116, 97, 114]

  function Numbered(s: seq<Byte>, mode: nat, size: nat): (r: seq<Byte>)
    requires |s| == RECORD
    ensures |r| == RECORD
  {
    Put(Put(Put(Put(Put(s, 100, Octal(mode, 8)), 108, Octal(0, 8)), 116, Octal(0, 8)), 124, Octal(size, 12)), 136, Octal(0, 12))
  }

  function Marked(s: seq<Byte>, kind: Byte): (r: seq<Byte>)
    requires |s| == RECORD
    ensures |r| == RECORD
  {
    Put(Put(Put(Put(Put(s, 148, BLANK), 156, [kind]), 257, USTAR), 262, [0]), 263, [ZERO, ZERO])
  }

  lemma NamedByte(name: seq<Byte>, prefix: seq<Byte>, i: nat)
    requires |name| <= 100 && |prefix| <= 155 && i < RECORD
    ensures Named(name, prefix)[i] == if i < 100 then At(name, i) else if 345 <= i < 500 then At(prefix, i - 345) else 0
  {}

  lemma NumberedByte(s: seq<Byte>, mode: nat, size: nat, i: nat)
    requires |s| == RECORD && i < RECORD
    ensures Numbered(s, mode, size)[i]
         == if 100 <= i < 108 then Octal(mode, 8)[i - 100]
            else if 108 <= i < 116 then Octal(0, 8)[i - 108]
            else if 116 <= i < 124 then Octal(0, 8)[i - 116]
            else if 124 <= i < 136 then Octal(size, 12)[i - 124]
            else if 136 <= i < 148 then Octal(0, 12)[i - 136]
            else s[i]
  {
    hide Octal;
  }

  lemma MarkedByte(s: seq<Byte>, kind: Byte, i: nat)
    requires |s| == RECORD && i < RECORD
    ensures Marked(s, kind)[i]
         == if 148 <= i < 156 then BLANK[i - 148]
            else if i == 156 then kind
            else if 257 <= i < 262 then USTAR[i - 257]
            else if i == 262 then 0
            else if 263 <= i < 265 then ZERO
            else s[i]
  {}

  lemma BlankRecord(f: Fields)
    requires |f.name| <= 100 && |f.prefix| <= 155
    ensures Marked(Numbered(Named(f.name, f.prefix), f.mode, f.size), f.kind) == Record(f, BLANK)
  {
    hide Octal;
    hide Named;
    hide Numbered;
    hide Marked;
    hide At;
    var n := Named(f.name, f.prefix);
    var m := Numbered(n, f.mode, f.size);
    var r := Marked(m, f.kind);
    forall i | 0 <= i < RECORD ensures r[i] == RecordByte(f, BLANK, i) {
      NamedByte(f.name, f.prefix, i);
      NumberedByte(n, f.mode, f.size, i);
      MarkedByte(m, f.kind, i);
    }
  }

  lemma Checked(f: Fields)
    ensures Put(Put(Record(f, BLANK), 148, Octal(ByteSum(Record(f, BLANK)), 7)), 155, [SPACE]) == Header(f)
  {
    hide Octal;
    var r := Put(Put(Record(f, BLANK), 148, Octal(ByteSum(Record(f, BLANK)), 7)), 155, [SPACE]);
    forall i | 0 <= i < RECORD ensures r[i] == RecordByte(f, Check(f), i) {}
  }

  lemma Fitting(f: Fields)
    ensures Pow8(7) > 4096 && 0 < Pow8(11) && ByteSum(Record(f, BLANK)) < Pow8(6)
  {
    ByteSumBound(Record(f, BLANK));
    assert Pow8(2) == 64;
    assert Pow8(4) == 4096;
    assert Pow8(6) == 262144;
  }

  /** The loop of header that adds up the bytes. */
  method AddUp(block: array<Byte>) returns (checksum: nat)
    ensures checksum == ByteSum(block[..])
  {
    checksum := 0;
    var i := 0;
    while i < block.Length
      invariant i <= block.Length && checksum == ByteSum(block[..i])
    {
      assert block[..i + 1][..i] == block[..i];
      checksum := checksum + block[i];
      i := i + 1;
    }
    assert block[..i] == block[..];
  }

  /** header: refuses a path that cannot be split and a size of twelve octal digits. */
  method MakeHeader(path: seq<Byte>, size: nat, mode: nat, kind: Byte) returns (ok: bool, block: array<Byte>)
    ensures fresh(block)
    ensures ok <==> Storable(path, size)
    ensures ok ==> block[..] == Header(FieldsOf(path, size, mode, kind))
  {
    hide Octal;
    hide Split;
    hide Pow8;
    hide Record;
    hide ByteSum;
    hide Put;
    block := new Byte[RECORD](_ => 0);
    assert block[..] == Nothing();
    ok := NameFields(block, path);
    if !ok { return; }
    ghost var f := FieldsOf(path, size, mode, kind);
    Fitting(f);
    ok := Oct(block, 100, 8, mode % 4096);
    ok := Oct(block, 108, 8, 0);
    ok := Oct(block, 116, 8, 0);
    ok := Oct(block, 124, 12, size);
    if !ok { return; }
    ok := Oct(block, 136, 12, 0);
    Copy(block, 148, BLANK);
    Copy(block, 156, [kind]);
    Copy(block, 257, USTAR);
    Copy(block, 262, [0]);
    Copy(block, 263, [ZERO, ZERO]);
    BlankRecord(f);
    var checksum := AddUp(block);
    ok := Oct(block, 148, 7, checksum);
    Copy(block, 155, [SPACE]);
    Checked(f);
  }

  // ---- members ----

  const FILE: Byte := 48
  const DIRECTORY: Byte := 53

  datatype Member = File(path: seq<Byte>, data: seq<Byte>, mode: nat) | Dir(path: seq<Byte>, mode: nat)
  {
    /** The name in the archive: a directory's ends in a slash. */
    function Name(): seq<Byte>
    {
      if Dir? && path != [] && path[|path| - 1] != SLASH then path + [SLASH] else path
    }

    function Size(): nat { if File? then |data| else 0 }

    function Kind(): Byte { if File? then FILE else DIRECTORY }

    predicate Accepted() { Storable(Name(), Size()) && (Dir? ==> 0 < |path| < 255) }
  }

  /** What tells a header: the type flag, '0' or '5', and "ustar", NUL, "00". */
  lemma Marks(m: Member)
    requires m.Accepted()
    ensures var h := Header(FieldsOf(m.Name(), m.Size(), 0, m.Kind()));
      && h[156] == (if m.File? then 0x30 else 0x35)
      && h[257..265] == [0x75, 0x73, 0x74, 0x61, 0x72, 0, 0x30, 0x30]
  {
    hide Octal, Check, Split;
    var h := Header(FieldsOf(m.Name(), m.Size(), 0, m.Kind()));
    assert h[257] == 0x75 && h[258] == 0x73 && h[259] == 0x74 && h[260] == 0x61 && h[261] == 0x72;
    assert h[262] == 0 && h[263] == 0x30 && h[264] == 0x30;
  }

  function Padding(size: nat): (n: nat)
    ensures n < RECORD && (size + n) % RECORD == 0
  {
    PaddedEven(size);
    (RECORD - size % RECORD) % RECORD
  }

  lemma PaddedEven(size: nat)
    ensures (size + (RECORD - size % RECORD) % RECORD) % RECORD == 0
  {
    var q, r := size / RECORD, size % RECORD;
    if r > 0 { assert size + (RECORD - r) == RECORD * (q + 1); }
  }

  function Stored(m: Member): (s: seq<Byte>)
    requires m.Accepted()
    ensures |s| == RECORD + m.Size() + Padding(m.Size())
  {
    Header(FieldsOf(m.Name(), m.Size(), m.mode, m.Kind())) + (if m.File? then m.data else []) + Zeros(Padding(m.Size()))
  }

  /** The archive being written. */
  class Writer {
    var out: seq<Byte>

    constructor ()
      ensures out == []
    {
      out := [];
    }

    /** gu_tar_write_file: size bytes of the source, which may be shorter. */
    method WriteFile(path: seq<Byte>, source: seq<Byte>, size: nat, mode: nat) returns (ok: bool)
      modifies this
      ensures ok <==> Storable(path, size) && size <= |source|
      ensures ok ==> out == old(out) + Stored(File(path, source[..size], mode))
    {
      hide Header;
      hide Storable;
      hide FieldsOf;
      hide Zeros;
      var head, block := MakeHeader(path, size, mode, FILE);
      if !head { return false; }
      out := out + block[..];
      ghost var before := out;
      var remaining: nat := size;
      while remaining != 0
        invariant remaining <= size && size - remaining <= |source| && out == before + source[..size - remaining]
      {
        var count := if remaining < 32768 then remaining else 32768;
        var at := size - remaining;
        if at + count > |source| { return false; }
        assert source[..at + count] == source[..at] + source[at..at + count];
        out := out + source[at..at + count];
        remaining := remaining - count;
      }
      out := out + Zeros((RECORD - size % RECORD) % RECORD);
      ok := true;
    }

    /** gu_tar_write_dir */
    method WriteDir(path: seq<Byte>, mode: nat) returns (ok: bool)
      modifies this
      ensures ok <==> Dir(path, mode).Accepted()
      ensures ok ==> out == old(out) + Stored(Dir(path, mode))
      ensures !ok ==> out == old(out)
    {
      hide Header;
      hide Split;
      if |path| == 0 || |path| >= 255 { return false; }
      var name := path;
      if name[|name| - 1] != SLASH { name := name + [SLASH]; }
      var block;
      ok, block := MakeHeader(name, 0, mode, DIRECTORY);
      if ok { out := out + block[..]; }
    }

    /** gu_tar_write_end */
    method WriteEnd()
      modifies this
      ensures out == old(out) + Zeros(2 * RECORD)
    {
      out := out + Zeros(2 * RECORD);
    }
  }

  predicate AllAccepted(ms: seq<Member>) { forall m :: m in ms ==> m.Accepted() }

  function StoredAll(ms: seq<Member>): seq<Byte>
    requires AllAccepted(ms)
    decreases |ms|
  {
    if ms == [] then [] else Stored(ms[0]) + StoredAll(ms[1..])
  }

  function Archive(ms: seq<Member>): seq<Byte>
    requires AllAccepted(ms)
  {
    StoredAll(ms) + Zeros(2 * RECORD)
  }

  lemma {:induction false} StoredLast(ms: seq<Member>, m: Member)
    requires AllAccepted(ms) && m.Accepted()
    ensures AllAccepted(ms + [m]) && StoredAll(ms + [m]) == StoredAll(ms) + Stored(m)
    decreases |ms|
  {
    hide Stored;
    hide Storable;
    if ms == [] {
      assert StoredAll([m]) == Stored(m) + StoredAll([]);
      assert ms + [m] == [m];
    } else {
      StoredLast(ms[1..], m);
      assert (ms + [m])[1..] == ms[1..] + [m];
    }
  }

  /** Any run of the writer that succeeds leaves the archive of its members. */
  method WriteAll(ms: seq<Member>) returns (ok: bool, w: Writer)
    ensures fresh(w)
    ensures ok <==> AllAccepted(ms)
    ensures ok ==> w.out == Archive(ms)
  {
    hide Stored;
    hide Storable;
    w := new Writer();
    var i := 0;
    while i < |ms|
      invariant i <= |ms| && fresh(w) && AllAccepted(ms[..i]) && w.out == StoredAll(ms[..i])
    {
      StepOf(ms, i);
      match ms[i] {
        case File(path, data, mode) => ok := w.WriteFile(path, data, |data|, mode); assert data[..|data|] == data;
        case Dir(path, mode) => ok := w.WriteDir(path, mode);
      }
      if !ok { return; }
      StoredLast(ms[..i], ms[i]);
      i := i + 1;
    }
    assert ms[..i] == ms;
    w.WriteEnd();
    ok := true;
  }

  lemma StepOf(ms: seq<Member>, i: nat)
    requires i < |ms|
    ensures ms[..i + 1] == ms[..i] + [ms[i]] && ms[i] in ms
  {}
}
