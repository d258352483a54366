/** The archive walker, and that it finds what the writer stored. */
module TarRead {
  import opened Bytes
  import opened Ustar
  import opened TarWrite

  const LONG_MAX := 0x7fff_ffff_ffff_ffff

  datatype Entry = Entry(path: seq<Byte>, link: seq<Byte>, mode: nat, size: nat, kind: Byte, dataOffset: nat)

  /** The entry that a record describes, its data following at an offset. */
  function EntryOf(h: seq<Byte>, dataOffset: nat): Entry
    requires |h| == RECORD
  {
    Entry(if h[345] != 0 then CString(h[345..500]) + [SLASH] + CString(h[..100]) else CString(h[..100]),
          CString(h[157..257]), OctalValue(h[100..108]), OctalValue(h[124..136]), if h[156] != 0 then h[156] else FILE, dataOffset)
  }

  datatype Walked = Walked(rc: int, entries: seq<Entry>)

  lemma UpIs(size: nat)
    ensures (size + 511) / 512 * 512 == size + Padding(size)
  {
    var q, r := size / RECORD, size % RECORD;
    assert size == RECORD * q + r;
    if r > 0 { assert (size + 511) / 512 == q + 1; } else { assert (size + 511) / 512 == q; }
  }

  function Up(size: nat): (p: nat)
    ensures p == size + Padding(size)
  {
    UpIs(size);
    (size + 511) / 512 * 512
  }

  /** The largest size whose length in records the walker computes correctly. */
  const STEP_LIMIT: nat := 0xffff_fe00

  /** What the walker steps over after a header: the mask of the rounding is 32 bits wide. */
  function Padded(size: nat): nat { (size + 511) / 512 * 512 % WORD }

  /** The step ends at the next record exactly up to the limit; beyond it, within the member's own data. */
  lemma PaddedExact(size: nat)
    ensures Padded(size) == Up(size) <==> size <= STEP_LIMIT
    ensures size > STEP_LIMIT ==> Padded(size) < size
    ensures Padded(size) <= Up(size) && Padded(size) % RECORD == 0
  {
    var u := Up(size);
    var q, k := u / WORD, u / RECORD;
    assert u == RECORD * k && u == WORD * q + Padded(size);
    assert Padded(size) == RECORD * (k - 8388608 * q);
    if size <= STEP_LIMIT { assert u < WORD; } else { assert q >= 1; }
  }

  /** gu_tar_walk from a position on, when the callback refuses the entries that keep does not hold of. */
  function WalkFrom(file: seq<Byte>, off: nat, len: nat, pos: nat, keep: Entry -> bool): (w: Walked)
    decreases len - pos
  {
    if pos + RECORD > len then Walked(0, [])
    else if off + pos + RECORD > |file| then Walked(-2, [])
    else
      var h, at := file[off + pos..off + pos + RECORD], pos + RECORD;
      if h == Zeros(RECORD) then Walked(0, [])
      else
        var e := EntryOf(h, off + at);
        if e.size > len - at then Walked(-3, [])
        else if !keep(e) then Walked(-4, [e])
        else if Padded(e.size) > len - at then Walked(-5, [e])
        else if off + at + Padded(e.size) > LONG_MAX then Walked(-6, [e])
        else
          var w := WalkFrom(file, off, len, at + Padded(e.size), keep);
          w.(entries := [e] + w.entries)
  }

  method IsZero(h: seq<Byte>) returns (z: bool)
    ensures z <==> h == Zeros(|h|)
  {
    var i := 0;
    while i < |h|
      invariant i <= |h| && forall k :: 0 <= k < i ==> h[k] == 0
    {
      if h[i] != 0 { return false; }
      i := i + 1;
    }
    z := true;
  }

  /** octal */
  method ReadOctal(p: seq<Byte>) returns (v: nat)
    ensures v == OctalValue(p)
  {
    v := 0;
    var i := 0;
    while i < |p| && (p[i] == SPACE || p[i] == 0)
      invariant i <= |p| && SkipBlanks(p) == SkipBlanks(p[i..])
    {
      assert p[i..][1..] == p[i + 1..];
      i := i + 1;
    }
    assert SkipBlanks(p) == p[i..];
    while i < |p| && ZERO <= p[i] < ZERO + 8
      invariant i <= |p| && Number(p[i..], v) == OctalValue(p)
    {
      assert p[i..][1..] == p[i + 1..];
      v := 8 * v + (p[i] - ZERO);
      i := i + 1;
    }
  }

  method ReadEntry(h: seq<Byte>, dataOffset: nat) returns (e: Entry)
    requires |h| == RECORD
    ensures e == EntryOf(h, dataOffset)
  {
    hide OctalValue;
    hide CString;
    var path := CString(h[..100]);
    if h[345] != 0 { path := CString(h[345..500]) + [SLASH] + CString(h[..100]); }
    var mode := ReadOctal(h[100..108]);
    var size := ReadOctal(h[124..136]);
    e := Entry(path, CString(h[157..257]), mode, size, if h[156] != 0 then h[156] else FILE, dataOffset);
  }

  /** gu_tar_walk */
  method Walk(file: seq<Byte>, off: nat, len: nat, keep: Entry -> bool) returns (rc: int, entries: seq<Entry>)
    ensures Walked(rc, entries) == if off > LONG_MAX then Walked(-1, []) else WalkFrom(file, off, len, 0, keep)
  {
    hide EntryOf, LONG_MAX;
    hide Padded;
    hide Zeros;
    var pos: nat := 0;
    entries := [];
    if off > LONG_MAX { return -1, entries; }
    while pos + RECORD <= len
      invariant Onwards(entries, WalkFrom(file, off, len, pos, keep)) == WalkFrom(file, off, len, 0, keep)
      decreases len - pos
    {
      if off + pos + RECORD > |file| { return -2, entries; }
      var h := file[off + pos..off + pos + RECORD];
      pos := pos + RECORD;
      var z := IsZero(h);
      if z { return 0, entries; }
      var e := ReadEntry(h, off + pos);
      if e.size > len - pos { return -3, entries; }
      ghost var before := entries;
      entries := entries + [e];
      if !keep(e) { return -4, entries; }
      var padded := Padded(e.size);
      if padded > len - pos { return -5, entries; }
      pos := pos + padded;
      if off + pos > LONG_MAX { return -6, entries; }
      Appended(before, e, WalkFrom(file, off, len, pos, keep));
    }
    rc := 0;
  }

  /** A walk that goes on after some entries. */
  function Onwards(before: seq<Entry>, w: Walked): Walked { w.(entries := before + w.entries) }

  lemma Appended(before: seq<Entry>, e: Entry, w: Walked)
    ensures Onwards(before, w.(entries := [e] + w.entries)) == Onwards(before + [e], w)
  {
    assert before + ([e] + w.entries) == (before + [e]) + w.entries;
  }

  // ---- round trip ----

  /** The entry that the walk is to report for a member stored at an offset. */
  function EntryFor(m: Member, at: nat): Entry
  {
    Entry(m.Name(), [], m.mode % 4096, m.Size(), m.Kind(), at + RECORD)
  }

  function EntriesFor(ms: seq<Member>, at: nat): seq<Entry>
    requires AllAccepted(ms)
    decreases |ms|
  {
    if ms == [] then [] else [EntryFor(ms[0], at)] + EntriesFor(ms[1..], at + |Stored(ms[0])|)
  }

  /** No name holds a NUL: they are C strings. */
  predicate Texts(ms: seq<Member>) { forall m :: m in ms ==> NoNul(m.path) }

  /** Each field of a header, as it is read. */
  lemma HeaderFields(f: Fields)
    ensures var h := Header(f);
      && h[100..108] == Octal(f.mode, 8) && h[124..136] == Octal(f.size, 12) && h[156] == f.kind
      && (forall i :: 0 <= i < 100 ==> h[..100][i] == At(f.name, i))
      && (forall i :: 0 <= i < 155 ==> h[345..500][i] == At(f.prefix, i))
      && (forall i :: 0 <= i < 100 ==> h[157..257][i] == 0)
  {
    hide Octal;
    hide Check;
  }

  /** A header is read as the entry it was made for. */
  lemma HeaderBack(m: Member, at: nat)
    requires m.Accepted() && NoNul(m.path)
    ensures EntryOf(Header(FieldsOf(m.Name(), m.Size(), m.mode, m.Kind())), at + RECORD) == EntryFor(m, at)
    ensures Header(FieldsOf(m.Name(), m.Size(), m.mode, m.Kind())) != Zeros(RECORD)
  {
    hide Header;
    hide OctalValue;
    hide Split;
    hide CString;
    hide Octal;
    hide Pow8;
    var name := m.Name();
    var f := FieldsOf(name, m.Size(), m.mode, m.Kind());
    var h := Header(f);
    HeaderFields(f);
    Fitting(f);
    OctalBack(m.mode % 4096, 8);
    OctalBack(m.Size(), 12);
    var s := Split(name);
    assert NoNul(name);
    PartsNoNul(name, s.name, s.prefix);
    CStringBack(s.name, h[..100]);
    CStringBack([], h[157..257]);
    CStringBack(s.prefix, h[345..500]);
    assert h[345..500][0] == h[345];
    assert h[..100][0] == h[0] == s.name[0];
  }

  lemma PartsNoNul(path: seq<Byte>, name: seq<Byte>, prefix: seq<Byte>)
    requires NoNul(path) && path == if prefix == [] then name else prefix + [SLASH] + name
    ensures NoNul(name) && NoNul(prefix)
  {
    if prefix != [] {
      forall i | 0 <= i < |name| ensures name[i] != 0 { assert path[|prefix| + 1 + i] == name[i]; }
      forall i | 0 <= i < |prefix| ensures prefix[i] != 0 { assert path[i] == prefix[i]; }
    }
  }

  /** One round of the walk, at a record that is read as an entry and is kept. */
  lemma WalkOne(file: seq<Byte>, off: nat, len: nat, pos: nat, keep: Entry -> bool, e: Entry)
    requires pos + RECORD + e.size <= len && pos + RECORD + Padded(e.size) <= len && off + len <= LONG_MAX && off + pos + RECORD <= |file|
    requires EntryOf(file[off + pos..off + pos + RECORD], off + pos + RECORD) == e && keep(e)
    requires file[off + pos..off + pos + RECORD] != Zeros(RECORD)
    ensures var w := WalkFrom(file, off, len, pos + RECORD + Padded(e.size), keep);
      WalkFrom(file, off, len, pos, keep) == w.(entries := [e] + w.entries)
  {
    hide EntryOf;
    hide Padded;
    hide Zeros;
  }

  /** Parts of a part. */
  lemma Slices(file: seq<Byte>, at: nat, a: seq<Byte>, n: nat)
    requires n <= |a| && at + |a| <= |file| && file[at..at + |a|] == a
    ensures file[at..at + n] == a[..n] && file[at + n..at + |a|] == a[n..]
  {
    assert file[at..at + n] == file[at..at + |a|][..n];
    assert file[at + n..at + |a|] == file[at..at + |a|][n..];
  }

  predicate Steppable(m: Member) { m.Size() <= STEP_LIMIT }

  predicate AllSteppable(ms: seq<Member>) { forall m :: m in ms ==> Steppable(m) }

  /** The first member too large to step over, or the number of members. */
  function FirstLarge(ms: seq<Member>): (j: nat)
    ensures j <= |ms| && AllSteppable(ms[..j]) && (j < |ms| ==> !Steppable(ms[j]))
    ensures j == |ms| <==> AllSteppable(ms)
    decreases |ms|
  {
    if ms == [] || !Steppable(ms[0]) then 0
    else
      assert ms == [ms[0]] + ms[1..];
      1 + FirstLarge(ms[1..])
  }

  /** Where the walk goes on after a member that is too large: in its own data. */
  function Landing(ms: seq<Member>): (p: nat)
    requires AllAccepted(ms) && FirstLarge(ms) < |ms|
  {
    var j := FirstLarge(ms);
    |StoredAll(ms[..j])| + RECORD + Padded(ms[j].Size())
  }

  lemma LandingInside(ms: seq<Member>)
    requires AllAccepted(ms) && FirstLarge(ms) < |ms|
    ensures var j := FirstLarge(ms); var start := |StoredAll(ms[..j])| + RECORD; start <= Landing(ms) < start + ms[j].Size()
  {
    hide Padded;
    PaddedExact(ms[FirstLarge(ms)].Size());
  }

  /** The entries up to that of the first member that is too large. */
  function Reported(ms: seq<Member>, at: nat): (es: seq<Entry>)
    requires AllAccepted(ms) && FirstLarge(ms) < |ms|
    ensures |es| == FirstLarge(ms) + 1
  {
    EntryCount(ms, at);
    EntriesFor(ms, at)[..FirstLarge(ms) + 1]
  }

  /** What a walk over an archive gives: all its members when each can be stepped over; otherwise those up to
      the first that is too large, and then whatever stands at the landing. */
  function Visits(file: seq<Byte>, off: nat, len: nat, pos: nat, ms: seq<Member>, keep: Entry -> bool): Walked
    requires AllAccepted(ms)
  {
    if FirstLarge(ms) == |ms| then Walked(0, EntriesFor(ms, off + pos))
    else Onwards(Reported(ms, off + pos), WalkFrom(file, off, len, pos + Landing(ms), keep))
  }

  /** Wherever an archive stands in a file, this is what the walk gives. */
  lemma {:induction false} WalkBack(file: seq<Byte>, off: nat, len: nat, pos: nat, ms: seq<Member>, keep: Entry -> bool)
    requires AllAccepted(ms) && Texts(ms) && forall e :: keep(e)
    requires off + pos + |Archive(ms)| <= |file| && file[off + pos..off + pos + |Archive(ms)|] == Archive(ms)
    requires pos + |Archive(ms)| <= len && off + len <= LONG_MAX
    ensures WalkFrom(file, off, len, pos, keep) == Visits(file, off, len, pos, ms, keep)
    decreases |ms|
  {
    hide Header;
    hide EntryOf;
    hide Storable;
    hide Zeros;
    hide WalkFrom;
    hide Archive;
    hide Stored;
    hide FieldsOf;
    hide Split;
    hide Padded;
    hide Visits;
    var a := Archive(ms);
    if ms == [] {
      TwoZeros();
      Slices(file, off + pos, a, RECORD);
      WalkStops(file, off, len, pos, keep);
      VisitsNone(file, off, len, pos, keep);
    } else {
      var m := ms[0];
      var n := |Stored(m)|;
      HeaderBack(m, off + pos);
      ArchiveFirst(ms);
      Slices(file, off + pos, a, RECORD);
      Slices(file, off + pos, a, n);
      PaddedExact(m.Size());
      WalkOne(file, off, len, pos, keep, EntryFor(m, off + pos));
      VisitsFirst(file, off, len, pos, ms, keep);
      if Steppable(m) {
        WalkBack(file, off, len, pos + n, ms[1..], keep);
      }
    }
  }

  lemma VisitsNone(file: seq<Byte>, off: nat, len: nat, pos: nat, keep: Entry -> bool)
    ensures Visits(file, off, len, pos, [], keep) == Walked(0, [])
  {}

  lemma VisitsFirst(file: seq<Byte>, off: nat, len: nat, pos: nat, ms: seq<Member>, keep: Entry -> bool)
    requires AllAccepted(ms) && ms != []
    ensures AllAccepted(ms[1..])
    ensures Visits(file, off, len, pos, ms, keep) == Onwards([EntryFor(ms[0], off + pos)],
              if Steppable(ms[0]) then Visits(file, off, len, pos + |Stored(ms[0])|, ms[1..], keep)
              else WalkFrom(file, off, len, pos + RECORD + Padded(ms[0].Size()), keep))
  {
    hide Storable;
    hide Stored;
    hide WalkFrom;
    hide EntriesFor;
    hide EntryFor;
    hide Padded;
    hide Landing;
    hide FirstLarge;
    EntriesHead(ms, off + pos);
    LandingFirst(ms, off + pos);
    EntryCount(ms[1..], off + pos + |Stored(ms[0])|);
    FewLarge(ms);
    if Steppable(ms[0]) && !AllSteppable(ms) {
      var es, j := EntriesFor(ms, off + pos), FirstLarge(ms);
      assert es[..j + 1] == [es[0]] + EntriesFor(ms[1..], off + pos + |Stored(ms[0])|)[..j];
    }
  }

  lemma FewLarge(ms: seq<Member>)
    ensures FirstLarge(ms) == |ms| <==> AllSteppable(ms)
  {}

  /** The landing and the visited entries, from the first member on. */
  lemma LandingFirst(ms: seq<Member>, at: nat)
    requires AllAccepted(ms) && ms != []
    ensures !Steppable(ms[0]) ==> FirstLarge(ms) == 0 && Landing(ms) == RECORD + Padded(ms[0].Size())
    ensures Steppable(ms[0]) ==> AllSteppable(ms) == AllSteppable(ms[1..]) && FirstLarge(ms) == 1 + FirstLarge(ms[1..])
    ensures Steppable(ms[0]) && !AllSteppable(ms) ==> Landing(ms) == |Stored(ms[0])| + Landing(ms[1..])
    ensures |EntriesFor(ms, at)| == |ms|
  {
    hide Storable;
    hide Stored;
    hide Padded;
    hide EntriesFor;
    EntryCount(ms, at);
    assert ms == [ms[0]] + ms[1..];
    if Steppable(ms[0]) && !AllSteppable(ms) {
      var j := FirstLarge(ms);
      assert ms[..j][0] == ms[0] && ms[..j][1..] == ms[1..][..j - 1];
    }
  }

  lemma NoEntries(at: nat)
    ensures AllAccepted([]) && EntriesFor([], at) == []
  {}

  lemma WalkStops(file: seq<Byte>, off: nat, len: nat, pos: nat, keep: Entry -> bool)
    requires pos + RECORD <= len && off + pos + RECORD <= |file| && file[off + pos..off + pos + RECORD] == Zeros(RECORD)
    ensures WalkFrom(file, off, len, pos, keep) == Walked(0, [])
  {}

  lemma TwoZeros()
    ensures AllAccepted([]) && |Archive([])| == 2 * RECORD && Archive([])[..RECORD] == Zeros(RECORD)
  {
    assert Archive([]) == Zeros(2 * RECORD);
  }

  lemma ArchiveFirst(ms: seq<Member>)
    requires AllAccepted(ms) && ms != []
    ensures AllAccepted(ms[1..]) && Archive(ms) == Stored(ms[0]) + Archive(ms[1..])
    ensures Archive(ms)[|Stored(ms[0])|..] == Archive(ms[1..]) && RECORD <= |Stored(ms[0])| <= |Archive(ms)|
    ensures Archive(ms)[..RECORD] == Header(FieldsOf(ms[0].Name(), ms[0].Size(), ms[0].mode, ms[0].Kind()))
  {
    hide Header;
    hide Storable;
    assert Archive(ms) == Stored(ms[0]) + Archive(ms[1..]);
  }

  /** At each entry's offset stand the bytes of the file that was stored. */
  lemma {:induction false} DataBack(file: seq<Byte>, at: nat, ms: seq<Member>, k: nat)
    requires AllAccepted(ms) && k < |ms| && at + |StoredAll(ms)| <= |file| && file[at..at + |StoredAll(ms)|] == StoredAll(ms)
    ensures |EntriesFor(ms, at)| == |ms|
    ensures CameBack(file, EntriesFor(ms, at)[k], ms[k])
    decreases |ms|
  {
    hide CameBack;
    hide Storable;
    hide Stored;
    hide StoredAll;
    hide EntriesFor;
    hide EntryFor;
    var m, n := ms[0], |Stored(ms[0])|;
    EntryCount(ms, at);
    StoredHead(ms);
    EntriesHead(ms, at);
    Slices(file, at, StoredAll(ms), n);
    if k == 0 {
      FirstBack(file, at, m);
    } else {
      DataBack(file, at + n, ms[1..], k - 1);
    }
  }

  lemma EntriesHead(ms: seq<Member>, at: nat)
    requires AllAccepted(ms) && ms != []
    ensures AllAccepted(ms[1..]) && EntriesFor(ms, at) == [EntryFor(ms[0], at)] + EntriesFor(ms[1..], at + |Stored(ms[0])|)
  {
    hide Storable;
    hide Stored;
    hide EntryFor;
  }

  lemma StoredHead(ms: seq<Member>)
    requires AllAccepted(ms) && ms != []
    ensures AllAccepted(ms[1..]) && |StoredAll(ms)| == |Stored(ms[0])| + |StoredAll(ms[1..])|
    ensures StoredAll(ms)[..|Stored(ms[0])|] == Stored(ms[0]) && StoredAll(ms)[|Stored(ms[0])|..] == StoredAll(ms[1..])
  {
    hide Storable;
    hide Stored;
  }

  lemma FirstBack(file: seq<Byte>, at: nat, m: Member)
    requires m.Accepted() && at + |Stored(m)| <= |file| && file[at..at + |Stored(m)|] == Stored(m)
    ensures CameBack(file, EntryFor(m, at), m)
  {
    hide Storable;
    hide Stored;
    StoredData(m);
    if m.File? { Inner(file, at, Stored(m), RECORD, |m.data|); }
  }

  lemma StoredData(m: Member)
    requires m.Accepted()
    ensures m.File? ==> Stored(m)[RECORD..RECORD + |m.data|] == m.data
  {
    hide Header;
    hide Storable;
  }

  lemma Inner(file: seq<Byte>, at: nat, a: seq<Byte>, i: nat, n: nat)
    requires i + n <= |a| && at + |a| <= |file| && file[at..at + |a|] == a
    ensures file[at + i..at + i + n] == a[i..i + n]
  {
    Slices(file, at, a, i);
    Slices(file, at + i, a[i..], n);
    assert a[i..][..n] == a[i..i + n];
  }

  lemma {:induction false} EntryCount(ms: seq<Member>, at: nat)
    requires AllAccepted(ms)
    ensures |EntriesFor(ms, at)| == |ms|
    decreases |ms|
  {
    hide Storable;
    hide Stored;
    if ms != [] { EntryCount(ms[1..], at + |Stored(ms[0])|); }
  }

  /** Entry k is what member k was, and at its offset stand the bytes of a file. */
  ghost predicate CameBack(out: seq<Byte>, e: Entry, m: Member)
  {
    && e.path == m.Name() && e.mode == m.mode % 4096 && e.size == m.Size() && e.kind == m.Kind()
    && e.dataOffset + e.size <= |out|
    && (m.File? ==> out[e.dataOffset..e.dataOffset + e.size] == m.data)
  }

  /** Writing and walking: when no member is too large to step over, every member that the writer accepts comes back,
      in order and with its bytes. In any case those come back that are visited before the walk can lose its place. */
  method RoundTrip(ms: seq<Member>, keep: Entry -> bool) returns (rc: int, entries: seq<Entry>, out: seq<Byte>)
    requires AllAccepted(ms) && Texts(ms) && |Archive(ms)| <= LONG_MAX && forall e :: keep(e)
    ensures out == Archive(ms)
    ensures AllSteppable(ms) ==> rc == 0 && |entries| == |ms|
    ensures !AllSteppable(ms) ==> FirstLarge(ms) < |entries|
    ensures !AllSteppable(ms) ==>
      var w := WalkFrom(out, 0, |out|, Landing(ms), keep); rc == w.rc && entries[FirstLarge(ms) + 1..] == w.entries
    ensures forall k :: 0 <= k < |ms| && k <= FirstLarge(ms) ==> k < |entries| && CameBack(out, entries[k], ms[k])
  {
    hide Stored;
    hide Storable;
    hide WalkFrom;
    hide CameBack;
    hide Landing;
    hide FirstLarge;
    hide EntriesFor;
    var ok, w := WriteAll(ms);
    out := w.out;
    assert out[0..|out|] == out;
    WalkBack(out, 0, |out|, 0, ms, keep);
    rc, entries := Walk(out, 0, |out|, keep);
    EntryCount(ms, 0);
    assert out[0..0 + |StoredAll(ms)|] == StoredAll(ms);
    forall k | 0 <= k < |ms| && k <= FirstLarge(ms) ensures k < |entries| && CameBack(out, entries[k], ms[k]) { DataBack(out, 0, ms, k); }
  }

  // ---- where the round trip fails ----

  /** A file of 2 to the 32 bytes, which the writer accepts. */
  function Huge(first: Byte): Member { File([97], [first] + Zeros(WORD - 1), 0x1a4) }

  lemma HugeAccepted(first: Byte)
    ensures Huge(first).Accepted() && NoNul(Huge(first).path) && Huge(first).Size() == WORD && Padded(WORD) == 0
  {
    assert [97] == [97 as Byte];
    HugePath();
    assert Pow8(2) == 64;
    assert Pow8(4) == 4096;
    assert Pow8(6) == 262144;
    assert Pow8(11) == 8589934592;
  }

  lemma HugePath()
    ensures Split([97]).Names?
  {
    var p: seq<Byte> := [97];
    assert |p| == 1;
    forall i | 0 <= i <= |p| ensures !HasAt(p, i, [DOT, DOT, SLASH]) && !HasAt(p, i, [SLASH, DOT, SLASH]) {}
  }

  lemma WalkGoesOn(file: seq<Byte>, off: nat, len: nat, pos: nat, keep: Entry -> bool)
    requires pos + RECORD <= len && off + pos + RECORD <= |file| && file[off + pos] != 0
    ensures WalkFrom(file, off, len, pos, keep).rc != 0 || |WalkFrom(file, off, len, pos, keep).entries| > 0
  {
    hide EntryOf;
    assert file[off + pos..off + pos + RECORD][0] == file[off + pos];
  }

  /** With such a member the archive does not come back, unless its data begins like an end record:
      the walk takes the data for the next header. */
  lemma HugeFails(first: Byte, keep: Entry -> bool)
    requires first != 0 && forall e :: keep(e)
    ensures var ms := [Huge(first)];
      AllAccepted(ms) && Texts(ms) && WalkFrom(Archive(ms), 0, |Archive(ms)|, 0, keep) != Walked(0, EntriesFor(ms, 0))
  {
    hide Zeros;
    hide Stored;
    hide Storable;
    hide WalkFrom;
    hide EntriesFor;
    HugeAccepted(first);
    var ms := [Huge(first)];
    HugeArchive(first);
    var a := Archive(ms);
    assert a[0..0 + |a|] == a;
    WalkBack(a, 0, |a|, 0, ms, keep);
    EntryCount(ms, 0);
    WalkGoesOn(a, 0, |a|, RECORD, keep);
  }

  lemma HugeArchive(first: Byte)
    requires Huge(first).Accepted()
    ensures var ms := [Huge(first)];
      && AllAccepted(ms) && FirstLarge(ms) == 0 && !AllSteppable(ms) && Landing(ms) == RECORD
      && 2 * RECORD <= |Archive(ms)| <= LONG_MAX && Archive(ms)[RECORD] == first
  {
    hide Header;
    hide Storable;
    hide Zeros;
    HugeAccepted(first);
    var ms := [Huge(first)];
    LandingFirst(ms, 0);
    StoredHead(ms);
    StoredData(ms[0]);
    assert Stored(ms[0])[RECORD..RECORD + WORD][0] == first;
    assert ms[1..] == [];
    assert StoredAll(ms) == Stored(ms[0]) + StoredAll([]);
  }
}
