/** What the Index decoder accepts, and that it does not matter how the bytes arrive. */
module XzIndexTheorem {
  import opened Bytes
  import opened Crc
  import opened XzIndexSpec
  import opened XzIndex

  // ---- resumption ----

  function Concat(chunks: seq<seq<Byte>>): seq<Byte>
    decreases |chunks|
  {
    if chunks == [] then [] else Concat(chunks[..|chunks| - 1]) + chunks[|chunks| - 1]
  }

  function Verdict(p: Place): Ret
  {
    match p case AtFooter => StreamEnd case Wrong => DataError case _ => Ok
  }

  lemma {:induction false} ConcatPrefix(chunks: seq<seq<Byte>>, i: nat)
    requires i <= |chunks|
    ensures Concat(chunks[..i]) <= Concat(chunks)
    decreases |chunks|
  {
    if i < |chunks| {
      ConcatPrefix(chunks[..|chunks| - 1], i);
      assert chunks[..|chunks| - 1][..i] == chunks[..i];
    } else {
      assert chunks[..i] == chunks;
    }
  }

  lemma ConcatNext(chunks: seq<seq<Byte>>, i: nat)
    requires i < |chunks|
    ensures Concat(chunks[..i + 1]) == Concat(chunks[..i]) + chunks[i]
  {
    assert chunks[..i + 1][..i] == chunks[..i];
  }

  /** Once it has ended, a run over a beginning is the run over all. */
  lemma EndedEarly(b: Blocks, s: State, x: seq<Byte>, y: seq<Byte>)
    requires x <= y && Ended(Run(b, s, x))
    ensures Run(b, s, y) == Run(b, s, x)
  {
    hide Feed;
    RunSplit(b, s, x, y[|x|..]);
    assert x + y[|x|..] == y;
    RunEnded(b, Run(b, s, x), y[|x|..]);
  }

  /** The Index in any pieces: the verdict, the sizes and the checksum are those of the bytes as a whole. */
  method DecodeChunks(d: Decoder, chunks: seq<seq<Byte>>) returns (ret: Ret)
    requires d.Valid() && d.View([]) == INITIAL && (Concat(chunks) != [] ==> Concat(chunks)[0] == 0)
    modifies d
    ensures ret == Verdict(Run(d.blocks, INITIAL, Concat(chunks)).place)
    ensures !ret.DataError? ==> d.View([]) == Run(d.blocks, INITIAL, Concat(chunks))
  {
    hide Run;
    hide Crc32;
    hide Concat;
    ghost var all := Concat(chunks);
    ret := Ok;
    var i := 0;
    NoChunks(d.blocks, INITIAL, chunks);
    while i < |chunks|
      invariant i <= |chunks| && ret.Ok? && d.Valid() && !Ended(d.View([]))
      invariant d.View([]) == Run(d.blocks, INITIAL, Concat(chunks[..i]))
      invariant d.sequence.BlockStart? ==> Concat(chunks[..i]) == []
    {
      ghost var s, done := d.View([]), Concat(chunks[..i]);
      ConcatNext(chunks, i);
      ConcatPrefix(chunks, i + 1);
      var n;
      ret, n := d.DecMain(chunks[i]);
      RunSplit(d.blocks, INITIAL, done, chunks[i][..n]);
      if !ret.Ok? {
        assert done + chunks[i][..n] <= all;
        EndedEarly(d.blocks, INITIAL, done + chunks[i][..n], all);
        return;
      }
      assert chunks[i][..n] == chunks[i];
      i := i + 1;
      if d.sequence.BlockStart? { Started(d.blocks, INITIAL, Concat(chunks[..i])); }
    }
    assert chunks[..i] == chunks;
  }

  lemma NoChunks(b: Blocks, s: State, chunks: seq<seq<Byte>>)
    ensures Concat(chunks[..0]) == [] && Run(b, s, Concat(chunks[..0])) == s
  {}

  lemma {:induction false} Started(b: Blocks, s: State, bytes: seq<Byte>)
    requires s.place == AtStart && Run(b, s, bytes).place == AtStart
    ensures bytes == []
  {
    if bytes != [] { NeverBack(b, Feed(b, s, bytes[0]), bytes[1..]); }
  }

  lemma {:induction false} NeverBack(b: Blocks, s: State, bytes: seq<Byte>)
    requires s.place != AtStart
    ensures Run(b, s, bytes).place != AtStart
    decreases |bytes|
  {
    hide Crc32;
    hide Hashed;
    hide Pow2;
    if bytes != [] { NeverBack(b, Feed(b, s, bytes[0]), bytes[1..]); }
  }

  // ---- numbers ----

  /** A state with the bytes of a part of the Index accounted for. */
  function Counted(s: State, bytes: seq<Byte>): State
  {
    s.(size := s.size + |bytes|, crc := Crc32(bytes, s.crc))
  }

  lemma CountedSplit(s: State, x: seq<Byte>, y: seq<Byte>)
    ensures Counted(Counted(s, x), y) == Counted(s, x + y)
  {
    hide Crc32;
    CrcSplit(x, y, s.crc);
  }

  /** The number that the digits of v complete, when w stands below place p. */
  function Whole(w: nat, v: nat, p: nat): nat { w + v * Pow2(p) }

  /** The digits of a number lead to the number. */
  lemma {:induction false} VliRun(b: Blocks, s: State, v: nat)
    requires InNumber(s) && (v > 0 || s.pos == 0) && s.pos + 7 * |Vli(v)| <= 63
    ensures Run(b, s, Vli(v)) == After(b, Counted(s, Vli(v)).(pos := 0, vli := 0), Whole(s.vli, v, s.pos))
    decreases v
  {
    hide After;
    hide Feed;
    hide Crc32;
    hide Pow2;
    hide Whole;
    hide Grown;
    var d := Vli(v);
    FeedDigit(b, s, d[0]);
    FirstDigit(s, v);
    if v < 128 {
      assert d[1..] == [];
    } else {
      assert d[1..] == Vli(v / 128) && d == [d[0]] + d[1..];
      CountedSplit(s, [d[0]], d[1..]);
      VliRun(b, Feed(b, s, d[0]), v / 128);
    }
  }

  lemma FirstDigit(s: State, v: nat)
    ensures v < 128 ==> Grown(s, v) == Whole(s.vli, v, s.pos)
    ensures v >= 128 ==> Whole(Grown(s, v % 128 + 128), v / 128, s.pos + 7) == Whole(s.vli, v, s.pos)
  {
    hide Pow2;
    Shifted(s.vli, v, s.pos);
    assert v >= 128 ==> (v % 128 + 128) % 128 == v % 128;
  }

  lemma Shifted(w: nat, v: nat, p: nat)
    ensures w + v % 128 * Pow2(p) + v / 128 * Pow2(p + 7) == w + v * Pow2(p)
  {
    assert Pow2(p + 7) == 128 * Pow2(p) by {
      assert Pow2(p + 2) == 4 * Pow2(p) && Pow2(p + 4) == 4 * Pow2(p + 2) && Pow2(p + 6) == 4 * Pow2(p + 4);
    }
    assert v == v % 128 + 128 * (v / 128);
    assert v * Pow2(p) == v % 128 * Pow2(p) + 128 * (v / 128) * Pow2(p);
  }

  lemma {:induction false} VliShort(v: nat, k: nat)
    requires k > 0
    ensures |Vli(v)| <= k <==> v < Pow2(7 * k)
    decreases k
  {
    Shifted(0, 1, 7 * (k - 1));
    if k == 1 {
      Shifted(0, 128, 0);
    } else {
      VliShort(v / 128, k - 1);
      Shifted(0, 128, 7 * (k - 1));
    }
  }

  lemma Limit()
    ensures Pow2(63) == LIMIT
  {
    assert Pow2(4) == 16;
    assert Pow2(8) == 256;
    assert Pow2(12) == 0x1000;
    assert Pow2(16) == 0x1_0000;
    Doubled(16, 16);
    Doubled(32, 31);
    Doubled(16, 15);
  }

  lemma {:induction false} Doubled(m: nat, n: nat)
    ensures Pow2(m + n) == Pow2(m) * Pow2(n)
  {
    if n > 0 { Doubled(m, n - 1); }
  }

  /** A whole number, from its first digit on. */
  lemma NumberRun(b: Blocks, s: State, v: nat)
    requires InNumber(s) && s.pos == 0 && s.vli == 0 && v < LIMIT
    ensures Run(b, s, Vli(v)) == After(b, Counted(s, Vli(v)), v)
  {
    hide After;
    hide Run;
    hide Vli;
    hide Counted;
    Limit();
    VliShort(v, 9);
    VliRun(b, s, v);
    assert Counted(s, Vli(v)).(pos := 0, vli := 0) == Counted(s, Vli(v)) by { CountedKeeps(s, Vli(v)); }
    assert Whole(0, v, 0) == v;
  }

  lemma CountedKeeps(s: State, bytes: seq<Byte>)
    ensures var t := Counted(s, bytes); t == s.(size := t.size, crc := t.crc) && t.size == s.size + |bytes|
  {}

  /** A run that ends well begins with a whole number. */
  lemma {:induction false} VliBack(b: Blocks, s: State, bytes: seq<Byte>) returns (v: nat)
    requires InNumber(s) && s.pos < 63 && s.pos % 7 == 0 && Run(b, s, bytes).place == AtFooter
    ensures Vli(v) <= bytes && (v > 0 || s.pos == 0) && s.pos + 7 * |Vli(v)| <= 63
    decreases |bytes|
  {
    hide After;
    hide Feed;
    hide Crc32;
    var x := bytes[0];
    FeedDigit(b, s, x);
    RunEnded(b, s.(place := Wrong), bytes[1..]);
    if Feed(b, s, x).place == Wrong { RunEnded(b, Feed(b, s, x), bytes[1..]); }
    if x < 128 {
      v := x;
    } else {
      var w := VliBack(b, Feed(b, s, x), bytes[1..]);
      v := x - 128 + 128 * w;
      assert Vli(v) == [x] + Vli(w);
      assert bytes == [x] + bytes[1..];
    }
  }

  lemma NumberBack(b: Blocks, s: State, bytes: seq<Byte>) returns (v: nat)
    requires InNumber(s) && s.pos == 0 && s.vli == 0 && Run(b, s, bytes).place == AtFooter
    ensures Vli(v) <= bytes && v < LIMIT
    ensures Run(b, After(b, Counted(s, Vli(v)), v), bytes[|Vli(v)|..]).place == AtFooter
  {
    hide Run;
    hide After;
    hide Vli;
    hide Counted;
    v := VliBack(b, s, bytes);
    Limit();
    VliShort(v, 9);
    NumberRun(b, s, v);
    RunSplit(b, s, Vli(v), bytes[|Vli(v)|..]);
    assert bytes == Vli(v) + bytes[|Vli(v)|..];
  }

  // ---- records ----

  /** At the first number of a record, with that many records to come. */
  predicate AtRecord(s: State) { s.place == AtUnpadded && s.pos == 0 && s.vli == 0 && s.count > 0 }

  predicate AllEncodable(rs: seq<Record>) { forall r :: r in rs ==> Encodable(r) }

  function RecordBytes(r: Record): seq<Byte> { Vli(r.unpadded) + Vli(r.uncompressed) }

  /** One record. */
  function AfterRecord(b: Blocks, s: State, r: Record): State
  {
    var t := Counted(s, RecordBytes(r)).(hash := HashRecord(s.hash, r), count := if s.count > 0 then s.count - 1 else 0);
    if t.count == 0 then Settle(b, t) else t
  }

  lemma RecordRun(b: Blocks, s: State, r: Record)
    requires AtRecord(s) && Encodable(r)
    ensures Run(b, s, RecordBytes(r)) == AfterRecord(b, s, r)
  {
    hide Run;
    hide Vli;
    hide Hashed;
    hide Crc32;
    hide Settle;
    NumberRun(b, s, r.unpadded);
    var t := After(b, Counted(s, Vli(r.unpadded)), r.unpadded);
    NumberRun(b, t, r.uncompressed);
    RunSplit(b, s, Vli(r.unpadded), Vli(r.uncompressed));
    CountedSplit(s, Vli(r.unpadded), Vli(r.uncompressed));
    SettleAny(b, Counted(s, RecordBytes(r)).(hash := HashRecord(s.hash, r), count := 0));
  }

  /** All records. */
  function AfterRecords(b: Blocks, s: State, rs: seq<Record>): State
  {
    Settle(b, Counted(s, Records(rs)).(hash := HashAll(s.hash, rs), count := 0))
  }

  lemma {:induction false} RecordsRun(b: Blocks, s: State, rs: seq<Record>)
    requires AtRecord(s) && s.count == |rs| && AllEncodable(rs)
    ensures Run(b, s, Records(rs)) == AfterRecords(b, s, rs)
    decreases |rs|
  {
    hide Run;
    hide Vli;
    hide HashRecord;
    hide Crc32;
    hide Settle;
    var r, t := rs[0], AfterRecord(b, s, rs[0]);
    RecordRun(b, s, r);
    RunSplit(b, s, RecordBytes(r), Records(rs[1..]));
    assert Records(rs) == RecordBytes(r) + Records(rs[1..]);
    if |rs| == 1 {
      assert HashAll(HashRecord(s.hash, r), rs[1..]) == HashRecord(s.hash, r);
      assert Records(rs[1..]) == [];
      assert Records(rs) == RecordBytes(r);
    } else {
      RecordsRun(b, t, rs[1..]);
      CountedSplit(s, RecordBytes(r), Records(rs[1..]));
    }
  }

  lemma {:induction false} RecordsBack(b: Blocks, s: State, bytes: seq<Byte>) returns (rs: seq<Record>)
    requires AtRecord(s) && Run(b, s, bytes).place == AtFooter
    ensures |rs| == s.count && AllEncodable(rs) && Records(rs) <= bytes
    ensures Run(b, AfterRecords(b, s, rs), bytes[|Records(rs)|..]).place == AtFooter
    decreases s.count
  {
    hide Run;
    hide Vli;
    hide HashRecord;
    hide Hashed;
    hide Crc32;
    hide Settle;
    var x := NumberBack(b, s, bytes);
    var t := After(b, Counted(s, Vli(x)), x);
    var y := NumberBack(b, t, bytes[|Vli(x)|..]);
    var r := Record(x, y);
    assert RecordBytes(r) <= bytes;
    var rest := bytes[|RecordBytes(r)|..];
    assert bytes == RecordBytes(r) + rest;
    RecordRun(b, s, r);
    RunSplit(b, s, RecordBytes(r), rest);
    rs := [r];
    assert rs[1..] == [];
    if s.count > 1 {
      var more := RecordsBack(b, AfterRecord(b, s, r), rest);
      rs := rs + more;
      assert rs[1..] == more;
      assert Records(rs) == RecordBytes(r) + Records(more);
    } else {
      assert Records(rs) == RecordBytes(r) + Records([]);
    }
    RecordsRun(b, s, rs);
    RunSplit(b, s, Records(rs), bytes[|Records(rs)|..]);
    assert bytes == Records(rs) + bytes[|Records(rs)|..];
  }

  // ---- padding and checksum ----

  function AfterPadding(b: Blocks, s: State): State
  {
    Counted(s, Zeros(Pad(s.size))).(place := if s.hash == b.hash then AtCheck else Wrong)
  }

  lemma {:induction false} PaddingRun(b: Blocks, s: State)
    ensures s.hash == b.hash ==> Run(b, Settle(b, s), Zeros(Pad(s.size))) == AfterPadding(b, s)
    ensures AfterPadding(b, s).size % 4 == 0
    decreases Pad(s.size)
  {
    hide Crc32;
    NonePending(s.crc);
    if s.size % 4 != 0 {
      var t := Taken(s, 0);
      assert Pad(s.size) == 1 + Pad(t.size);
      PaddingRun(b, t);
      CountedSplit(s, [0], Zeros(Pad(t.size)));
      assert Zeros(Pad(s.size)) == [0] + Zeros(Pad(t.size));
      SettleAny(b, t);
      assert Zeros(Pad(s.size))[1..] == Zeros(Pad(t.size));
      SettleAgain(b, s);
      assert Feed(b, Settle(b, s), 0) == Settle(b, Taken(Settle(b, s), 0));
    }
  }

  lemma {:induction false} PaddingBack(b: Blocks, s: State, bytes: seq<Byte>)
    requires Run(b, Settle(b, s), bytes).place == AtFooter
    ensures Zeros(Pad(s.size)) <= bytes && s.hash == b.hash
    decreases Pad(s.size)
  {
    hide Crc32;
    if s.size % 4 != 0 {
      SettleAgain(b, s);
      var x := bytes[0];
      var u := Feed(b, Settle(b, s), x);
      if x != 0 { RunEnded(b, u, bytes[1..]); }
      var t := Taken(s, 0);
      SettleAny(b, t);
      PaddingBack(b, t, bytes[1..]);
      assert Zeros(Pad(s.size)) == [0] + Zeros(Pad(t.size));
      assert bytes == [0] + bytes[1..];
    } else if s.hash != b.hash {
      RunEnded(b, Settle(b, s), bytes);
    }
  }

  lemma LittleDigits(c: Word)
    ensures Little(c, 4) == [CheckByte(c, 0), CheckByte(c, 8), CheckByte(c, 16), CheckByte(c, 24)]
  {
    assert Pow2(4) == 16;
    assert Pow2(8) == 256;
    assert Pow2(12) == 0x1000;
    assert Pow2(16) == 0x1_0000;
    assert Pow2(20) == 0x10_0000;
    assert Pow2(24) == 0x100_0000;
    assert c / 256 / 256 == c / 0x1_0000;
    assert c / 0x1_0000 / 256 == c / 0x100_0000;
    assert Little(c, 4) == [c % 256] + Little(c / 256, 3);
    assert Little(c / 256, 3) == [c / 256 % 256] + Little(c / 0x1_0000, 2);
    assert Little(c / 0x1_0000, 2) == [c / 0x1_0000 % 256] + Little(c / 0x100_0000, 1);
    assert Little(c / 0x100_0000, 1) == [c / 0x100_0000 % 256] + Little(c / 0x100_0000 / 256, 0);
  }

  /** The four bytes of the checksum, and only they, lead to the footer. */
  lemma CheckRun(b: Blocks, s: State, bytes: seq<Byte>)
    requires s.place == AtCheck && s.pos == 0
    ensures Run(b, s, bytes).place == AtFooter <==> Little(s.crc, 4) <= bytes
    ensures Little(s.crc, 4) <= bytes ==> Run(b, s, bytes) == s.(crc := 0, place := AtFooter)
  {
    hide CheckByte;
    hide Little;
    LittleDigits(s.crc);
    CheckFrom(b, s, bytes, 4);
  }

  /** The last n bytes of the checksum. */
  function Rest(crc: Word, n: nat): seq<Byte>
    requires n <= 4
  {
    [CheckByte(crc, 0), CheckByte(crc, 8), CheckByte(crc, 16), CheckByte(crc, 24)][4 - n..]
  }

  lemma {:induction false} CheckFrom(b: Blocks, s: State, bytes: seq<Byte>, n: nat)
    requires s.place == AtCheck && 1 <= n <= 4 && s.pos == 8 * (4 - n)
    ensures Run(b, s, bytes).place == AtFooter <==> Rest(s.crc, n) <= bytes
    ensures Rest(s.crc, n) <= bytes ==> Run(b, s, bytes) == s.(crc := 0, pos := 0, place := AtFooter)
    decreases n
  {
    hide CheckByte;
    if bytes != [] {
      var t := Feed(b, s, bytes[0]);
      assert Rest(s.crc, n)[0] == CheckByte(s.crc, s.pos);
      if t.place == Wrong {
        RunEnded(b, t, bytes[1..]);
      } else if n == 1 {
        RunEnded(b, t, bytes[1..]);
      } else {
        CheckFrom(b, t, bytes[1..], n - 1);
        assert Rest(s.crc, n) == [bytes[0]] + Rest(s.crc, n - 1);
        assert bytes == [bytes[0]] + bytes[1..];
        assert Rest(s.crc, n) <= bytes <==> Rest(s.crc, n - 1) <= bytes[1..];
      }
    }
  }

  // ---- the whole Index ----

  /** The records are those of the blocks: as many, and with the same hash. */
  predicate Lists(b: Blocks, rs: seq<Record>)
  {
    |rs| == b.count && |rs| < LIMIT && AllEncodable(rs) && HashAll(NO_HASH, rs) == b.hash
  }

  /** After the records: what is settled does not depend on the place. */
  function AfterBody(rs: seq<Record>): State
  {
    Counted(INITIAL, Body(rs)).(hash := HashAll(NO_HASH, rs), count := 0)
  }

  /** After the indicator, and after the number of records. */
  function Begun(): State { Counted(INITIAL, [0]).(place := AtCount) }

  function Numbered(n: nat): State { Counted(Begun(), Vli(n)).(count := n, place := AtUnpadded) }

  lemma BegunRun(b: Blocks)
    ensures Run(b, INITIAL, [0]) == Begun()
  {
    hide Crc32;
    assert Run(b, INITIAL, [0]) == Run(b, Feed(b, INITIAL, 0), []);
  }

  lemma BodyRun(b: Blocks, rs: seq<Record>)
    requires |rs| == b.count && |rs| < LIMIT && AllEncodable(rs)
    ensures Run(b, INITIAL, Body(rs)) == Settle(b, AfterBody(rs))
  {
    hide Run;
    hide Crc32;
    hide Vli;
    hide HashRecord;
    hide Settle;
    var n := |rs|;
    BegunRun(b);
    NumberRun(b, Begun(), n);
    RunSplit(b, INITIAL, [0], Vli(n));
    RunSplit(b, INITIAL, [0] + Vli(n), Records(rs));
    CountedSplit(INITIAL, [0], Vli(n));
    CountedSplit(INITIAL, [0] + Vli(n), Records(rs));
    SettlePlace(b, Counted(Begun(), Vli(n)), n);
    SettleAny(b, AfterBody(rs));
    if n == 0 {
      assert Body(rs) == [0] + Vli(n);
    } else {
      RecordsRun(b, Numbered(n), rs);
    }
  }

  /** What follows the records: padding, and the checksum of everything so far. */
  lemma TailRun(b: Blocks, rs: seq<Record>, tail: seq<Byte>)
    requires Lists(b, rs)
    ensures var r := Run(b, Settle(b, AfterBody(rs)), tail); var want := Zeros(Pad(|Body(rs)|)) + Little(Crc32(IndexBytes(rs), 0), 4);
      && (r.place == AtFooter <==> want <= tail)
      && (want <= tail ==> r.size == |IndexBytes(rs)|)
  {
    hide Run;
    hide Crc32;
    hide Body;
    hide HashAll;
    hide Settle;
    hide Little;
    hide Zeros;
    var s, z := AfterBody(rs), Zeros(Pad(|Body(rs)|));
    PaddingRun(b, s);
    CountedSplit(INITIAL, Body(rs), z);
    var c := Little(Crc32(IndexBytes(rs), 0), 4);
    if Run(b, Settle(b, s), tail).place == AtFooter { PaddingBack(b, s, tail); }
    if z <= tail {
      RunSplit(b, Settle(b, s), z, tail[|z|..]);
      assert tail == z + tail[|z|..];
      CheckRun(b, AfterPadding(b, s), tail[|z|..]);
      assert z + c <= tail <==> c <= tail[|z|..];
    }
  }

  /** The decoder gets to the footer exactly on the encoding of the blocks' own records. */
  lemma IndexAccepts(b: Blocks, bytes: seq<Byte>)
    ensures Run(b, INITIAL, bytes).place == AtFooter <==> exists rs :: Lists(b, rs) && Encoded(rs) <= bytes
  {
    hide Run;
    hide Encoded;
    hide Lists;
    forall rs | Lists(b, rs) && Encoded(rs) <= bytes ensures Run(b, INITIAL, bytes).place == AtFooter { EncodedAccepted(b, rs, bytes); }
    if Run(b, INITIAL, bytes).place == AtFooter {
      var rs := AcceptedEncoded(b, bytes);
      assert Lists(b, rs) && Encoded(rs) <= bytes;
    }
  }

  /** An Index that is well formed is accepted, and its size is what stands before the checksum. */
  lemma EncodedAccepted(b: Blocks, rs: seq<Record>, bytes: seq<Byte>)
    requires Lists(b, rs) && Encoded(rs) <= bytes
    ensures Run(b, INITIAL, bytes).place == AtFooter && Run(b, INITIAL, bytes).size == |IndexBytes(rs)|
  {
    hide Run;
    hide Body;
    hide Little;
    hide Settle;
    hide HashAll;
    hide Crc32;
    hide AllEncodable;
    BodyRun(b, rs);
    var tail := bytes[|Body(rs)|..];
    assert Encoded(rs) == Body(rs) + (Zeros(Pad(|Body(rs)|)) + Little(Crc32(IndexBytes(rs), 0), 4));
    assert bytes == Body(rs) + tail;
    RunSplit(b, INITIAL, Body(rs), tail);
    TailRun(b, rs, tail);
    assert Zeros(Pad(|Body(rs)|)) + Little(Crc32(IndexBytes(rs), 0), 4) <= tail;
  }

  lemma BodyBack(b: Blocks, bytes: seq<Byte>) returns (rs: seq<Record>)
    requires Run(b, INITIAL, bytes).place == AtFooter
    ensures |rs| == b.count && |rs| < LIMIT && AllEncodable(rs) && Body(rs) <= bytes
  {
    hide Run;
    hide Settle;
    hide HashRecord;
    hide Crc32;
    hide Vli;
    hide After;
    hide Begun;
    hide Numbered;
    hide Counted;
    hide AtRecord;
    FirstByte(b, bytes);
    BegunRun(b);
    var first := bytes[1..];
    RunSplit(b, INITIAL, [0], first);
    assert bytes == [0] + first;
    BegunPlace();
    var n := NumberBack(b, Begun(), first);
    var rest := first[|Vli(n)|..];
    CountedKeeps(Begun(), Vli(n));
    CountMatches(b, Counted(Begun(), Vli(n)), n, rest);
    rs := [];
    if n > 0 {
      AfterNumber(b, n);
      rs := RecordsBack(b, Numbered(n), rest);
    }
    ThreeParts(bytes, [0], Vli(n), Records(rs));
  }

  lemma BegunPlace()
    ensures Begun().place == AtCount && Begun().pos == 0 && Begun().vli == 0
  {}

  lemma AfterNumber(b: Blocks, n: nat)
    requires n == b.count && n > 0
    ensures After(b, Counted(Begun(), Vli(n)), n) == Numbered(n) && AtRecord(Numbered(n)) && Numbered(n).count == n
  {
    hide Crc32;
    hide Vli;
  }

  lemma ThreeParts(bytes: seq<Byte>, x: seq<Byte>, y: seq<Byte>, z: seq<Byte>)
    requires x <= bytes && y <= bytes[|x|..] && z <= bytes[|x|..][|y|..]
    ensures x + y + z <= bytes
  {
    var a := bytes[|x|..];
    assert bytes == x + (y + (z + a[|y|..][|z|..]));
  }

  lemma AcceptedEncoded(b: Blocks, bytes: seq<Byte>) returns (rs: seq<Record>)
    requires Run(b, INITIAL, bytes).place == AtFooter
    ensures Lists(b, rs) && Encoded(rs) <= bytes
  {
    hide Run;
    hide Little;
    hide Settle;
    hide Body;
    hide HashAll;
    hide AllEncodable;
    hide Crc32;
    rs := BodyBack(b, bytes);
    var tail := bytes[|Body(rs)|..];
    assert bytes == Body(rs) + tail;
    BodyRun(b, rs);
    RunSplit(b, INITIAL, Body(rs), tail);
    PaddingBack(b, AfterBody(rs), tail);
    TailRun(b, rs, tail);
    assert Encoded(rs) == Body(rs) + (Zeros(Pad(|Body(rs)|)) + Little(Crc32(IndexBytes(rs), 0), 4));
  }

  lemma FirstByte(b: Blocks, bytes: seq<Byte>)
    requires Run(b, INITIAL, bytes).place == AtFooter
    ensures bytes != [] && bytes[0] == 0
  {
    hide Crc32;
    if bytes != [] && bytes[0] != 0 { RunEnded(b, Feed(b, INITIAL, bytes[0]), bytes[1..]); }
  }

  lemma CountMatches(b: Blocks, s: State, n: nat, rest: seq<Byte>)
    requires s.place == AtCount && Run(b, After(b, s, n), rest).place == AtFooter
    ensures n == b.count
  {
    if n != b.count { RunEnded(b, After(b, s, n), rest); }
  }
}
