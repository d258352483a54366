/** The inflater: it steps through the stream and the output buffer, and reads what the stream spells. */
module Inflate {
  import opened Bytes
  import opened BitReader
  import opened Huffman
  import opened Deflate
  import opened InflateRead

  // ---- the fixed code is complete ----

  lemma {:induction false} Run(L: seq<nat>, a: nat, b: nat, v: nat, len: nat)
    requires a <= b <= |L| && forall i :: a <= i < b ==> L[i] == v
    ensures Count(L, b, len) == Count(L, a, len) + if len == v then b - a else 0
    decreases b
  {
    if a < b { Run(L, a, b - 1, v, len); }
  }

  lemma FixedValues()
    ensures var L := FixedLengths();
      && (forall i :: 0 <= i < 144 ==> L[i] == 8) && (forall i :: 144 <= i < 256 ==> L[i] == 9)
      && (forall i :: 256 <= i < 280 ==> L[i] == 7) && (forall i :: 280 <= i < 288 ==> L[i] == 8)
    ensures forall i :: 0 <= i < 32 ==> FixedDistances()[i] == 5
  {}

  lemma FixedTotals(len: nat)
    ensures Total(FixedLengths(), len) == if len == 7 then 24 else if len == 8 then 152 else if len == 9 then 112 else 0
    ensures Total(FixedDistances(), len) == if len == 5 then 32 else 0
  {
    hide FixedLengths;
    hide FixedDistances;
    hide Count;
    FixedValues();
    var L := FixedLengths();
    NoneCounted(L);
    NoneCounted(FixedDistances());
    Run(L, 0, 144, 8, len);
    Run(L, 144, 256, 9, len);
    Run(L, 256, 280, 7, len);
    Run(L, 280, 288, 8, len);
    Run(FixedDistances(), 0, 32, 5, len);
  }

  lemma {:induction false} FixedLeft(len: nat)
    ensures Left(FixedLengths(), len) == if len < 7 then Pow2(len) else if len == 7 then 104 else if len == 8 then 56 else 0
    ensures Left(FixedDistances(), len) == if len < 5 then Pow2(len) else 0
    decreases len
  {
    hide FixedLengths;
    hide FixedDistances;
    hide Total;
    hide Pow2;
    SmallPowers(len);
    if len > 0 {
      FixedLeft(len - 1);
      FixedTotals(len);
    }
  }

  lemma SmallPowers(len: nat)
    ensures Pow2(0) == 1 && Pow2(4) == 16 && Pow2(6) == 64
    ensures len > 0 ==> Pow2(len) == 2 * Pow2(len - 1)
  {
    assert Pow2(2) == 4;
    assert Pow2(4) == 16;
  }

  lemma FixedCodes()
    ensures Short(FixedLengths()) && !Oversubscribed(FixedLengths())
    ensures Short(FixedDistances()) && !Oversubscribed(FixedDistances())
  {
    forall len: nat | len <= MAXBITS ensures Left(FixedLengths(), len) >= 0 && Left(FixedDistances(), len) >= 0 { FixedLeft(len); }
  }

  method Fill(a: array<nat>, from: nat, to: nat, v: nat)
    requires from <= to <= a.Length
    modifies a
    ensures forall k :: 0 <= k < a.Length ==> a[k] == if from <= k < to then v else old(a[k])
  {
    var i := from;
    while i < to
      invariant from <= i <= to
      invariant forall k :: 0 <= k < a.Length ==> a[k] == if from <= k < i then v else old(a[k])
    {
      a[i] := v;
      i := i + 1;
    }
  }

  method FixedLengthArrays() returns (ll: array<nat>, dd: array<nat>)
    ensures fresh(ll) && fresh(dd) && ll[..] == FixedLengths() && dd[..] == FixedDistances()
  {
    ll, dd := new nat[288], new nat[32];
    Fill(ll, 0, 144, 8);
    Fill(ll, 144, 256, 9);
    Fill(ll, 256, 280, 7);
    Fill(ll, 280, 288, 8);
    Fill(dd, 0, 32, 5);
  }

  method FixedTables() returns (lt: Table, dt: Table)
    ensures fresh({lt, dt}) && fresh({lt.count, lt.symbol}) && fresh({dt.count, dt.symbol})
    ensures lt.Holds(FixedLengths()) && dt.Holds(FixedDistances())
  {
    hide Oversubscribed;
    hide FixedLengths;
    hide FixedDistances;
    hide Tabulates;
    hide Short;
    hide Left;
    FixedCodes();
    var ll, dd := FixedLengthArrays();
    lt := new Table();
    dt := new Table();
    var _ := lt.Build(ll[..]);
    var _ := dt.Build(dd[..]);
  }

  /** The loop that copies: it reads behind what it writes. */
  method CopyBytes(out: array<Byte>, outpos: nat, distance: nat, length: nat) returns (opos: nat)
    requires 0 < distance <= outpos && outpos + length <= out.Length
    modifies out
    ensures opos == outpos + length && out[..opos] == CopyBack(old(out[..outpos]), distance, length)
  {
    hide CopyBack;
    ghost var so := out[..outpos];
    opos := outpos;
    var srcpos, left: nat := outpos - distance, length;
    while left > 0
      invariant left <= length && opos == outpos + (length - left) && srcpos == opos - distance
      invariant CopyBack(so, distance, length) == CopyBack(out[..opos], distance, left)
    {
      ghost var now := out[..opos];
      out[opos] := out[srcpos];
      assert out[..opos + 1] == now + [now[|now| - distance]];
      CopyMore(now, distance, left);
      opos := opos + 1;
      srcpos := srcpos + 1;
      left := left - 1;
    }
    CopyNone(out[..opos], distance);
  }

  lemma CopyMore(now: seq<Byte>, distance: nat, left: nat)
    requires 0 < distance <= |now| && left > 0
    ensures CopyBack(now, distance, left) == CopyBack(now + [now[|now| - distance]], distance, left - 1)
  {}

  lemma CopyNone(now: seq<Byte>, distance: nat)
    requires 0 < distance <= |now|
    ensures CopyBack(now, distance, 0) == now
  {}

  /** What follows a length symbol: a distance, and the copy one byte at a time. */
  method CopyCode(br: Reader, dt: Table, ghost dl: seq<nat>, out: array<Byte>, outpos: nat, li: nat) returns (rc: int, opos: nat)
    requires br.Valid() && dt.Holds(dl) && outpos <= out.Length && li < 29
    modifies br`pos, br`bitbuf, br`bitcnt, out
    ensures rc in {0, -1, -2} && outpos <= opos <= out.Length
    ensures rc == 0 ==> br.Valid() && Copied(ReadCopy(dl, br.Bits(), old(br.At()), li), br.At(), old(out[..outpos]), out[..opos])
    ensures rc != 0 ==> Refused(ReadCopy(dl, br.Bits(), old(br.At()), li), old(out[..outpos]), out.Length, rc)
  {
    hide LengthBase;
    hide LengthExtra;
    hide DistanceBase;
    hide DistanceExtra;
    hide Unpack;
    hide Value;
    hide Sym;
    hide Pow2;
    hide CodeAt;
    hide Oversubscribed;
    hide Tabulates;
    hide Short;
    opos := outpos;
    ghost var at, so := br.At(), out[..outpos];
    var more, extra := br.GetBits(LengthExtra(li));
    if !more { return -1, opos; }
    var ok, di := dt.Decode(br, dl);
    if !ok { return -1, opos; }
    SymIs(dl, br.Bits(), at + LengthExtra(li), di);
    CodeBounds(dl, di, br.Bits(), at + LengthExtra(li));
    if di >= 30 { return -1, opos; }
    var dextra;
    more, dextra := br.GetBits(DistanceExtra(di));
    if !more { return -1, opos; }
    var length, distance := LengthBase(li) + extra, DistanceBase(di) + dextra;
    ghost var t := Copy(li, extra, di, dextra);
    if distance > opos { return -1, opos; }
    if length > out.Length - opos { return -2, opos; }
    opos := CopyBytes(out, opos, distance, length);
    rc := 0;
  }

  ghost predicate Copied(r: Step, at: nat, so: seq<Byte>, now: seq<Byte>)
  {
    r.More? && r.at == at && Legal(so, r.t) && now == Apply(so, r.t)
  }

  ghost predicate Refused(r: Step, so: seq<Byte>, cap: nat, rc: int)
  {
    if rc == -2 then r.More? && Legal(so, r.t) && |Apply(so, r.t)| > cap
    else r.Bad? || (r.More? && !Legal(so, r.t))
  }

  lemma LiteralStep(out: seq<Byte>, b: Byte)
    ensures Legal(out, Literal(b)) && Apply(out, Literal(b)) == out + [b]
  {}

  /** inflate_codes: 0 at the end-of-block code, -1 for a stream that is wrong, -2 for a buffer that is full. */
  method Codes(br: Reader, lt: Table, dt: Table, ghost ll: seq<nat>, ghost dl: seq<nat>, out: array<Byte>, outpos: nat)
    returns (rc: int, opos: nat)
    requires br.Valid() && lt.Holds(ll) && dt.Holds(dl) && outpos <= out.Length
    modifies br`pos, br`bitbuf, br`bitcnt, out
    ensures opos <= out.Length
    ensures rc == 0 ==> br.Valid() && ReadCodes(ll, dl, br.Bits(), old(br.At()), old(out[..outpos]), out.Length) == Done(out[..opos], br.At())
    ensures rc != 0 ==> ReadCodes(ll, dl, br.Bits(), old(br.At()), old(out[..outpos]), out.Length) == if rc == -2 then Full else Corrupt
  {
    hide CodeAt;
    hide LengthBase;
    hide LengthExtra;
    hide DistanceBase;
    hide DistanceExtra;
    hide Value;
    hide Unpack;
    hide Oversubscribed;
    hide Tabulates;
    hide Legal;
    hide Apply;
    hide Sym;
    hide Short;
    opos := outpos;
    ghost var want := ReadCodes(ll, dl, br.Bits(), br.At(), out[..opos], out.Length);
    while true
      invariant opos <= out.Length && br.Valid() && lt.Holds(ll) && dt.Holds(dl)
      invariant ReadCodes(ll, dl, br.Bits(), br.At(), out[..opos], out.Length) == want
      decreases |br.Bits()| - br.At()
    {
      ghost var at, so := br.At(), out[..opos];
      ReadTokenFrom(ll, dl, br.Bits(), at);
      var ok, sym := lt.Decode(br, ll);
      if !ok { return -1, opos; }
      SymIs(ll, br.Bits(), at, sym);
      if sym < 256 {
        LiteralStep(so, sym);
        if opos >= out.Length { return -2, opos; }
        out[opos] := sym;
        opos := opos + 1;
        assert out[..opos] == Apply(so, Literal(sym));
      } else if sym == 256 {
        return 0, opos;
      } else if sym <= 285 {
        rc, opos := CopyCode(br, dt, dl, out, opos, sym - 257);
        if rc != 0 { return; }
      } else {
        return -1, opos;
      }
    }
  }

  /** The item that a symbol of the code length code and its extra bits stand for. */
  function ItemOf(sym: nat, extra: nat): Item
  {
    if sym <= MAXBITS then One(sym) else if sym == 16 then Again(extra) else if sym == 17 then Zeros(extra) else ManyZeros(extra)
  }

  /** A symbol of the code length code, with its extra bits. */
  method NextSymbol(br: Reader, ch: Table, ghost cl: seq<nat>) returns (ok: bool, sym: nat, extra: nat)
    requires br.Valid() && ch.Holds(cl)
    modifies br`pos, br`bitbuf, br`bitcnt
    ensures ok <==> ReadItem(cl, br.Bits(), old(br.At())).NextItem?
    ensures ok ==> br.Valid() && sym <= 18 && ReadItem(cl, br.Bits(), old(br.At())) == NextItem(ItemOf(sym, extra), br.At())
  {
    hide CodeAt;
    hide Value;
    hide Unpack;
    hide Oversubscribed;
    hide Tabulates;
    hide Sym;
    hide Short;
    ghost var at := br.At();
    extra := 0;
    ok, sym := ch.Decode(br, cl);
    if ok {
      SymIs(cl, br.Bits(), at, sym);
      if sym > 18 { return false, sym, 0; }
      if sym > 15 { ok, extra := br.GetBits(if sym == 16 then 2 else if sym == 17 then 3 else 7); }
    }
  }

  /** What the loop appends for an item, and when it must not. */
  lemma ExtendIs(lens: seq<nat>, sym: nat, extra: nat)
    requires sym <= 18
    ensures CanExtend(lens, ItemOf(sym, extra)) <==> sym != 16 || |lens| > 0
    ensures sym <= 15 ==> Extend(lens, ItemOf(sym, extra)) == lens + [sym]
    ensures sym == 16 && |lens| > 0 ==> Extend(lens, ItemOf(sym, extra)) == lens + Repeat(lens[|lens| - 1], 3 + extra)
    ensures sym == 17 ==> Extend(lens, ItemOf(sym, extra)) == lens + Repeat(0, 3 + extra)
    ensures sym == 18 ==> Extend(lens, ItemOf(sym, extra)) == lens + Repeat(0, 11 + extra)
  {}

  /** A run of rep times v after the first i lengths. */
  method AddRun(lens: array<nat>, i: nat, rep: nat, v: nat) returns (j: nat)
    requires i + rep <= lens.Length
    modifies lens
    ensures j == i + rep && lens[..j] == old(lens[..i]) + Repeat(v, rep)
  {
    Fill(lens, i, i + rep, v);
    j := i + rep;
    assert lens[..i] == old(lens[..i]);
    assert lens[..j] == lens[..i] + lens[i..j];
  }

  /** The loop of dynamic_tables that reads the code lengths. */
  method FillLengths(br: Reader, ch: Table, ghost cl: seq<nat>, lens: array<nat>, total: nat) returns (ok: bool)
    requires br.Valid() && ch.Holds(cl) && total <= lens.Length && lens != ch.count && lens != ch.symbol
    modifies br`pos, br`bitbuf, br`bitcnt, lens
    ensures ok <==> ReadLengths(cl, br.Bits(), old(br.At()), [], total).Read?
    ensures ok ==> br.Valid() && ReadLengths(cl, br.Bits(), old(br.At()), [], total) == Read(lens[..total], br.At())
  {
    hide ReadItem;
    hide ItemOf;
    hide Unpack;
    hide Value;
    hide Oversubscribed;
    hide Tabulates;
    hide Extend;
    hide CanExtend;
    hide Short;
    hide Repeat;
    ghost var want := ReadLengths(cl, br.Bits(), br.At(), [], total);
    var i := 0;
    assert lens[..i] == [];
    while i < total
      invariant i <= total && br.Valid() && ch.Holds(cl)
      invariant ReadLengths(cl, br.Bits(), br.At(), lens[..i], total) == want
      decreases total - i
    {
      ghost var so := lens[..i];
      ReadItemFrom(cl, br.Bits(), br.At());
      var got, sym, extra := NextSymbol(br, ch, cl);
      if !got { return false; }
      ExtendIs(so, sym, extra);
      if sym <= 15 {
        lens[i] := sym;
        i := i + 1;
        assert lens[..i] == so + [sym];
      } else {
        if sym == 16 && i == 0 { return false; }
        var rep := extra + if sym == 18 then 11 else 3;
        if i + rep > total { return false; }
        i := AddRun(lens, i, rep, if sym == 16 then lens[i - 1] else 0);
      }
    }
    ok := true;
  }

  /** The three-bit fields that give the code length code, each at the place of its symbol. */
  method CodeLengthFields(br: Reader, hclen: nat) returns (ok: bool, clen: array<nat>)
    requires br.Valid() && hclen <= 19
    modifies br`pos, br`bitbuf, br`bitcnt
    ensures fresh(clen)
    ensures ok <==> old(br.At()) + 3 * hclen <= |br.Bits()|
    ensures ok ==> br.Valid() && br.At() == old(br.At()) + 3 * hclen && clen[..] == CodeLengths(br.Bits(), old(br.At()), hclen)
  {
    hide Unpack;
    hide Value;
    hide Order;
    hide Place;
    ghost var at := br.At();
    OrderPlace();
    clen := new nat[19](_ => 0);
    var i := 0;
    while i < hclen
      invariant i <= hclen && br.Valid() && br.At() == at + 3 * i
      invariant forall s: nat {:trigger Place(s)} :: s < 19 ==> clen[s] == if Place(s) < i then Value(br.Bits(), at + 3 * Place(s), 3) else 0
      modifies br`pos, br`bitbuf, br`bitcnt, clen
    {
      var more, v := br.GetBits(3);
      if !more { return false, clen; }
      clen[Order(i)] := v;
      i := i + 1;
    }
    ok := true;
  }

  method HeadFields(br: Reader) returns (ok: bool, hlit: nat, hdist: nat, hclen: nat)
    requires br.Valid()
    modifies br`pos, br`bitbuf, br`bitcnt
    ensures ok <==> old(br.At()) + 14 <= |br.Bits()|
    ensures ok ==> br.Valid() && br.At() == old(br.At()) + 14 && hdist <= 32 && hclen <= 19
    ensures ok ==> hlit == Value(br.Bits(), old(br.At()), 5) + 257 && hdist == Value(br.Bits(), old(br.At()) + 5, 5) + 1
    ensures ok ==> hclen == Value(br.Bits(), old(br.At()) + 10, 4) + 4
  {
    hide Unpack;
    hide Value;
    hide Pow2;
    ghost var at := br.At();
    ok, hlit := br.GetBits(5);
    if !ok { return false, 0, 0, 0; }
    ok, hdist := br.GetBits(5);
    if !ok { return false, 0, 0, 0; }
    ok, hclen := br.GetBits(4);
    if !ok { return false, 0, 0, 0; }
    hlit, hdist, hclen := hlit + 257, hdist + 1, hclen + 4;
    FieldBounds(br.Bits(), at);
  }

  /** dynamic_tables, up to the list of code lengths. */
  method LengthList(br: Reader) returns (ok: bool, hlit: nat, L: seq<nat>)
    requires br.Valid()
    modifies br`pos, br`bitbuf, br`bitcnt
    ensures ok <==> ReadList(br.Bits(), old(br.At())).Read?
    ensures ok ==> br.Valid() && ReadList(br.Bits(), old(br.At())) == Read(Listed(hlit, L), br.At())
    ensures ok ==> 257 <= hlit <= 286 && hlit < |L| <= MAXCODES && Short(L)
  {
    hide Unpack;
    hide Value;
    hide Pow2;
    hide Oversubscribed;
    hide Tabulates;
    hide CodeLengths;
    hide ReadLengths;
    hide Left;
    ghost var at, bits := br.At(), br.Bits();
    var more, hdist, hclen;
    L := [];
    more, hlit, hdist, hclen := HeadFields(br);
    if !more || hlit > 286 || hdist > 32 { return false, hlit, L; }
    var fields, clen := CodeLengthFields(br, hclen);
    if !fields { return false, hlit, L; }
    ghost var cl := clen[..];
    CodeLengthsShort(bits, at + 14, hclen);
    var ch := new Table();
    var left := ch.Build(clen[..]);
    if left < 0 { return false, hlit, L; }
    var lens := new nat[MAXCODES];
    ok := FillLengths(br, ch, cl, lens, hlit + hdist);
    if ok {
      L := lens[..hlit + hdist];
      LengthsShort(cl, bits, at + 14 + 3 * hclen, [], hlit + hdist);
    }
  }

  /** dynamic_tables */
  method DynamicTables(br: Reader) returns (ok: bool, lt: Table, dt: Table, ghost v: Vectors)
    requires br.Valid()
    modifies br`pos, br`bitbuf, br`bitcnt
    ensures fresh({lt, dt}) && fresh({lt.count, lt.symbol}) && fresh({dt.count, dt.symbol})
    ensures ok <==> ReadHeader(br.Bits(), old(br.At())).Read?
    ensures ok ==> br.Valid() && ReadHeader(br.Bits(), old(br.At())) == Read(v, br.At()) && lt.Holds(v.ll) && dt.Holds(v.dl)
  {
    hide Unpack;
    hide Value;
    hide Oversubscribed;
    hide Tabulates;
    hide ReadList;
    hide Left;
    lt := new Table();
    dt := new Table();
    v := Vectors([], []);
    var hlit, L;
    ok, hlit, L := LengthList(br);
    if !ok { return; }
    if L[256] == 0 { return false, lt, dt, v; }
    var left := lt.Build(L[..hlit]);
    if left < 0 { return false, lt, dt, v; }
    left := dt.Build(L[hlit..]);
    if left < 0 { return false, lt, dt, v; }
    v := Vectors(L[..hlit], L[hlit..]);
  }

  lemma FieldBounds(bits: seq<Bit>, p: nat)
    requires p + 14 <= |bits|
    ensures Value(bits, p, 5) < 32 && Value(bits, p + 5, 5) < 32 && Value(bits, p + 10, 4) < 16
  {
    SmallPowers(5);
  }

  lemma CodeLengthsShort(bits: seq<Bit>, p: nat, hclen: nat)
    requires hclen <= 19 && p + 3 * hclen <= |bits|
    ensures Short(CodeLengths(bits, p, hclen))
  {
    hide Value;
    assert Pow2(2) == 4;
    assert Pow2(3) == 8;
  }

  /** No code length that is read is longer than fifteen. */
  lemma {:induction false} LengthsShort(cl: seq<nat>, bits: seq<Bit>, p: nat, lens: seq<nat>, total: nat)
    requires forall i :: 0 <= i < |lens| ==> lens[i] <= MAXBITS
    ensures var r := ReadLengths(cl, bits, p, lens, total);
      r.Read? ==> |r.value| >= total && forall i :: 0 <= i < |r.value| ==> r.value[i] <= MAXBITS
    decreases |bits| - p
  {
    hide ReadItem;
    hide ItemAt;
    ReadItemFrom(cl, bits, p);
    var r := ReadItem(cl, bits, p);
    if |lens| < total && r.NextItem? && CanExtend(lens, r.it) {
      LengthsShort(cl, bits, r.at, Extend(lens, r.it), total);
    }
  }

  // ---- blocks ----

  function LowHigh(low: nat, high: nat): nat { low + 256 * high }

  /** A sixteen-bit field at a byte boundary is two bytes, the low one first. */
  lemma TwoBytes(src: seq<Byte>, i: nat)
    requires i + 2 <= |src|
    ensures Value(Unpack(src), 8 * i, 16) == LowHigh(src[i], src[i + 1])
  {
    hide Unpack;
    hide Value;
    Pow2Eight();
    ValueSplit(Unpack(src), 8 * i, 8, 8);
    ByteValue(src, i);
    ByteValue(src, i + 1);
  }

  lemma BytesOf(src: seq<Byte>, i: nat, n: nat)
    requires i + n <= |src|
    ensures DataBytes(Unpack(src), 8 * i, n) == src[i..i + n]
  {
    hide Unpack;
    hide Value;
    hide Pow2;
    hide BitOf;
    hide DataBytes;
    forall j: nat | j < |src| ensures Value(Unpack(src), 8 * j, 8) == src[j] { ByteValue(src, j); }
    BytesFrom(Unpack(src), src, i, n);
  }

  lemma BytesFrom(bits: seq<Bit>, src: seq<Byte>, i: nat, n: nat)
    requires i + n <= |src| && |bits| == 8 * |src| && forall j: nat | j < |src| :: Value(bits, 8 * j, 8) == src[j]
    ensures DataBytes(bits, 8 * i, n) == src[i..i + n]
  {
    hide Value;
    hide Pow2;
    var d := DataBytes(bits, 8 * i, n);
    forall k: nat | k < n ensures d[k] == src[i + k] {
      assert 8 * (i + k) == 8 * i + 8 * k;
      assert Value(bits, 8 * (i + k), 8) == src[i + k];
    }
  }

  /** memcpy of bytes of the stream into the buffer. */
  method CopyIn(out: array<Byte>, opos: nat, src: seq<Byte>, pos: nat, len: nat)
    requires opos + len <= out.Length && pos + len <= |src|
    modifies out
    ensures out[..opos + len] == old(out[..opos]) + src[pos..pos + len]
  {
    var i := 0;
    while i < len
      invariant i <= len
      invariant out[..opos] == old(out[..opos]) && out[opos..opos + i] == src[pos..pos + i]
    {
      ghost var before := out[opos..opos + i];
      out[opos + i] := src[pos + i];
      assert out[opos..opos + i] == before;
      assert out[opos..opos + (i + 1)] == out[opos..opos + i] + [out[opos + i]];
      assert src[pos..pos + (i + 1)] == src[pos..pos + i] + [src[pos + i]];
      i := i + 1;
    }
    assert out[..opos + len] == out[..opos] + out[opos..opos + len];
  }

  /** What a stored block of so many bytes is, when its two length fields are len and nlen. */
  function StoredBytes(src: seq<Byte>, k: nat, len: nat, nlen: nat, out: seq<Byte>, cap: nat): Outcome
    requires k + 4 <= |src|
  {
    if len + nlen != 0xffff || k + 4 + len > |src| || |out| + len > cap then Corrupt
    else Done(out + src[k + 4..k + 4 + len], 8 * (k + 4 + len))
  }

  lemma StoredLong(bits: seq<Bit>, src: seq<Byte>, k: nat, len: nat, nlen: nat, out: seq<Byte>, cap: nat)
    requires k + 4 <= |src| && |bits| == 8 * |src|
    requires Value(bits, 8 * k, 16) == len && Value(bits, 8 * k + 16, 16) == nlen
    requires k + 4 + len <= |src| ==> DataBytes(bits, 8 * k + 32, len) == src[k + 4..k + 4 + len]
    ensures ReadStored(bits, 8 * k, out, cap) == StoredBytes(src, k, len, nlen, out, cap)
  {
    hide Value;
    hide DataBytes;
    hide Pow2;
  }

  lemma StoredShort(bits: seq<Bit>, q: nat, out: seq<Byte>, cap: nat)
    requires q + 32 > |bits|
    ensures ReadStored(bits, q, out, cap) == Corrupt
  {}

  /** A stored block in bytes of the stream. */
  lemma StoredIs(src: seq<Byte>, k: nat, out: seq<Byte>, cap: nat)
    requires k <= |src|
    ensures k + 4 > |src| ==> ReadStored(Unpack(src), 8 * k, out, cap) == Corrupt
    ensures k + 4 <= |src| ==>
      ReadStored(Unpack(src), 8 * k, out, cap) == StoredBytes(src, k, LowHigh(src[k], src[k + 1]), LowHigh(src[k + 2], src[k + 3]), out, cap)
  {
    hide ReadStored;
    hide StoredBytes;
    hide Unpack;
    hide Value;
    hide DataBytes;
    hide LowHigh;
    hide BitOf;
    hide Pow2;
    if k + 4 > |src| {
      StoredShort(Unpack(src), 8 * k, out, cap);
    } else {
      TwoBytes(src, k);
      TwoBytes(src, k + 2);
      assert 8 * (k + 2) == 8 * k + 16;
      var len, nlen := LowHigh(src[k], src[k + 1]), LowHigh(src[k + 2], src[k + 3]);
      if k + 4 + len <= |src| {
        BytesOf(src, k + 4, len);
        assert 8 * (k + 4) == 8 * k + 32;
      }
      StoredLong(Unpack(src), src, k, len, nlen, out, cap);
    }
  }

  /** A stored block, from the bits that follow its first three. */
  method StoredBlock(br: Reader, out: array<Byte>, outpos: nat) returns (ok: bool, opos: nat)
    requires br.Valid() && outpos <= out.Length
    modifies br`pos, br`bitbuf, br`bitcnt, out
    ensures opos <= out.Length
    ensures ok ==> br.Valid() && ReadBody(br.Bits(), old(br.At()), 0, old(out[..outpos]), out.Length) == Done(out[..opos], br.At())
    ensures !ok ==> ReadBody(br.Bits(), old(br.At()), 0, old(out[..outpos]), out.Length) == Corrupt
  {
    hide ReadStored;
    hide ReadCodes;
    hide ReadHeader;
    hide Unpack;
    opos := outpos;
    ghost var at := br.At();
    br.ByteAlign();
    StoredIs(br.src, br.pos, out[..outpos], out.Length);
    if br.pos + 4 > |br.src| { return false, opos; }
    var len := LowHigh(br.src[br.pos], br.src[br.pos + 1]);
    var nlen := LowHigh(br.src[br.pos + 2], br.src[br.pos + 3]);
    br.pos := br.pos + 4;
    if 0xffff - len != nlen { return false, opos; }
    if br.pos + len > |br.src| || len > out.Length - opos { return false, opos; }
    CopyIn(out, opos, br.src, br.pos, len);
    br.pos := br.pos + len;
    opos := opos + len;
    ok := true;
  }

  /** The stream is made of these blocks, and none of their copies reaches back before the start. */
  ghost predicate Spells(src: seq<Byte>, bs: seq<Block>)
  {
    BlocksAt(Unpack(src), 0, bs) && LegalStream([], bs)
  }

  /** The body of a block of each kind. */
  method Body(br: Reader, kind: nat, out: array<Byte>, outpos: nat) returns (rc: int, opos: nat)
    requires br.Valid() && outpos <= out.Length
    modifies br`pos, br`bitbuf, br`bitcnt, out
    ensures opos <= out.Length
    ensures rc == 0 ==> br.Valid() && ReadBody(br.Bits(), old(br.At()), kind, old(out[..outpos]), out.Length) == Done(out[..opos], br.At())
    ensures rc != 0 ==> ReadBody(br.Bits(), old(br.At()), kind, old(out[..outpos]), out.Length) == if rc == -2 then Full else Corrupt
  {
    hide ReadStored;
    hide ReadCodes;
    hide ReadHeader;
    hide Unpack;
    hide Value;
    hide Oversubscribed;
    hide Tabulates;
    hide Short;
    hide FixedLengths;
    hide FixedDistances;
    if kind == 0 {
      var ok;
      ok, opos := StoredBlock(br, out, outpos);
      rc := if ok then 0 else -1;
    } else if kind == 1 {
      var lt, dt := FixedTables();
      rc, opos := Codes(br, lt, dt, FixedLengths(), FixedDistances(), out, outpos);
    } else if kind == 2 {
      var ok, lt, dt;
      ghost var v;
      ok, lt, dt, v := DynamicTables(br);
      if !ok { return -1, outpos; }
      rc, opos := Codes(br, lt, dt, v.ll, v.dl, out, outpos);
    } else {
      return -1, outpos;
    }
  }

  /** inflate_raw: succeeds exactly on what fits, and leaves what the stream means in the buffer. */
  method InflateRaw(src: seq<Byte>, out: array<Byte>) returns (rc: int, written: nat)
    modifies out
    ensures written <= out.Length
    ensures rc == 0 ==> exists bs :: Spells(src, bs) && out[..written] == Decompressed([], bs)
    ensures forall bs :: Spells(src, bs) ==> (rc == 0 <==> |Decompressed([], bs)| <= out.Length)
    ensures forall bs :: Spells(src, bs) && rc == 0 ==> out[..written] == Decompressed([], bs)
  {
    hide Unpack;
    hide Value;
    hide ReadBody;
    hide BlocksAt;
    hide LegalStream;
    hide Decompressed;
    written := 0;
    var br := new Reader(src);
    ghost var bits := br.Bits();
    ghost var want := ReadBlocks(bits, 0, [], out.Length);
    assert out[..written] == [];
    forall bs | Spells(src, bs)
      ensures (want.Done? <==> |Decompressed([], bs)| <= out.Length) && (want.Done? ==> want.out == Decompressed([], bs))
    {
      BlocksRead(bits, 0, bs, [], out.Length);
    }
    var last := 0;
    while last == 0
      invariant written <= out.Length && br.Valid() && fresh(br) && br.Bits() == bits
      invariant last == 0 ==> ReadBlocks(bits, br.At(), out[..written], out.Length) == want
      invariant last != 0 ==> want.Done? && want.out == out[..written]
      decreases if last == 0 then 1 else 0, |bits| - br.At()
    {
      ghost var at := br.At();
      var ok, kind;
      ok, last := br.GetBits(1);
      if !ok { return -1, written; }
      ok, kind := br.GetBits(2);
      if !ok { return -1, written; }
      BodyReadEnd(bits, at + 3, kind, out[..written], out.Length);
      rc, written := Body(br, kind, out, written);
      if rc != 0 { return; }
      OneBit(bits, at);
    }
    rc := 0;
    ghost var bs := BlocksSpelled(bits, 0, [], out.Length);
    assert Spells(src, bs);
  }
}
