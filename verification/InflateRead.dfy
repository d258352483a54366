/** Reading a DEFLATE stream from left to right, and that this finds exactly what the stream spells. */
module InflateRead {
  import opened Bytes
  import opened BitReader
  import opened Options
  import opened Huffman
  import opened Deflate

  /** The symbol whose code stands at p. */
  ghost function Sym(L: seq<nat>, bits: seq<Bit>, p: nat): (s: Option<nat>)
    ensures s.Some? ==> CodeAt(L, s.value, bits, p)
    ensures s.None? ==> forall t :: !CodeAt(L, t, bits, p)
  {
    if exists s :: CodeAt(L, s, bits, p) then
      var s :| CodeAt(L, s, bits, p);
      Some(s)
    else None
  }

  lemma SymIs(L: seq<nat>, bits: seq<Bit>, p: nat, s: nat)
    requires CodeAt(L, s, bits, p)
    ensures Sym(L, bits, p) == Some(s)
  {
    OneSymbol(L, bits, p, s, Sym(L, bits, p).value);
  }

  // ---- tokens ----

  datatype Step = Bad | End(at: nat) | More(t: Token, at: nat)

  /** The length and distance that follow the length symbol 257 + li. */
  ghost function ReadCopy(dl: seq<nat>, bits: seq<Bit>, p: nat, li: nat): Step
    requires li < 29
  {
    var p1 := p + LengthExtra(li);
    if p1 > |bits| then Bad else
      match Sym(dl, bits, p1)
      case None => Bad
      case Some(di) =>
        var p2 := p1 + dl[di];
        if di >= 30 || p2 + DistanceExtra(di) > |bits| then Bad
        else More(Copy(li, Value(bits, p, LengthExtra(li)), di, Value(bits, p2, DistanceExtra(di))), p2 + DistanceExtra(di))
  }

  ghost function ReadToken(ll: seq<nat>, dl: seq<nat>, bits: seq<Bit>, p: nat): Step
  {
    match Sym(ll, bits, p)
    case None => Bad
    case Some(s) =>
      if s < 256 then More(Literal(s), p + ll[s])
      else if s == END then End(p + ll[s])
      else if s <= 285 then ReadCopy(dl, bits, p + ll[s], s - 257)
      else Bad
  }

  /** The reading step finds the one token that stands there. */
  lemma ReadTokenIs(ll: seq<nat>, dl: seq<nat>, bits: seq<Bit>, p: nat, t: Token)
    requires TokenAt(ll, dl, bits, p, t)
    ensures t.Valid() && ReadToken(ll, dl, bits, p) == More(t, p + TokenSize(ll, dl, t))
  {
    hide CodeAt;
    hide LengthBase;
    hide LengthExtra;
    hide DistanceBase;
    hide DistanceExtra;
    hide Value;
    assert t.Valid() by { TokenValid(ll, dl, bits, p, t); }
    match t
    case Literal(b) => SymIs(ll, bits, p, b); CodeBounds(ll, b, bits, p);
    case Copy(li, extra, di, dextra) =>
      SymIs(ll, bits, p, 257 + li);
      CodeBounds(ll, 257 + li, bits, p);
      var p1 := p + ll[257 + li] + LengthExtra(li);
      SymIs(dl, bits, p1, di);
      CodeBounds(dl, di, bits, p1);
  }

  lemma CodeBounds(L: seq<nat>, s: int, bits: seq<Bit>, p: nat)
    requires CodeAt(L, s, bits, p)
    ensures 0 <= s < |L| && L[s] > 0 && p + L[s] <= |bits|
  {}

  lemma ReadTokenFrom(ll: seq<nat>, dl: seq<nat>, bits: seq<Bit>, p: nat)
    ensures var r := ReadToken(ll, dl, bits, p);
      && (r.End? ==> CodeAt(ll, END, bits, p) && r.at == p + Size(ll, END))
      && (r.More? ==> TokenAt(ll, dl, bits, p, r.t) && r.t.Valid() && r.at == p + TokenSize(ll, dl, r.t))
      && (!r.Bad? ==> p < r.at <= |bits|)
  {
    hide LengthBase;
    hide LengthExtra;
    hide DistanceBase;
    hide DistanceExtra;
    hide Value;
    hide Code;
    hide Big;
  }

  datatype Outcome = Done(out: seq<Byte>, at: nat) | Corrupt | Full

  /** What inflate_codes makes of the bits from p on, with a buffer of cap bytes of which out is filled. */
  ghost function ReadCodes(ll: seq<nat>, dl: seq<nat>, bits: seq<Bit>, p: nat, out: seq<Byte>, cap: nat): Outcome
    decreases |bits| - p
  {
    ReadTokenFrom(ll, dl, bits, p);
    match ReadToken(ll, dl, bits, p)
    case Bad => Corrupt
    case End(q) => Done(out, q)
    case More(t, q) =>
      if !Legal(out, t) then Corrupt
      else if |Apply(out, t)| > cap then Full
      else ReadCodes(ll, dl, bits, q, Apply(out, t), cap)
  }

  /** Tokens that the stream spells are read back, and expanded. */
  lemma {:induction false} CodesRead(ll: seq<nat>, dl: seq<nat>, bits: seq<Bit>, p: nat, ts: seq<Token>, out: seq<Byte>, cap: nat)
    requires TokensAt(ll, dl, bits, p, ts) && AllValid(ts) && AllLegal(out, ts) && |out| <= cap
    ensures ReadCodes(ll, dl, bits, p, out, cap)
         == if |Expand(out, ts)| <= cap then Done(Expand(out, ts), TokensEnd(ll, dl, p, ts)) else Full
    decreases |ts|
  {
    hide CodeAt;
    hide TokenAt;
    hide Apply;
    hide Legal;
    hide ReadToken;
    if ts == [] {
      SymIs(ll, bits, p, END);
      EndRead(ll, dl, bits, p);
    } else {
      ReadTokenIs(ll, dl, bits, p, ts[0]);
      if |Apply(out, ts[0])| <= cap {
        CodesRead(ll, dl, bits, p + TokenSize(ll, dl, ts[0]), ts[1..], Apply(out, ts[0]), cap);
      }
    }
  }

  lemma EndRead(ll: seq<nat>, dl: seq<nat>, bits: seq<Bit>, p: nat)
    requires CodeAt(ll, END, bits, p)
    ensures ReadToken(ll, dl, bits, p) == End(p + Size(ll, END))
  {
    SymIs(ll, bits, p, END);
  }

  /** When reading succeeds the stream spells legal tokens whose expansion is the output. */
  lemma {:induction false} CodesSpelled(ll: seq<nat>, dl: seq<nat>, bits: seq<Bit>, p: nat, out: seq<Byte>, cap: nat) returns (ts: seq<Token>)
    requires |out| <= cap
    requires ReadCodes(ll, dl, bits, p, out, cap).Done?
    ensures TokensAt(ll, dl, bits, p, ts) && AllValid(ts) && AllLegal(out, ts) && |Expand(out, ts)| <= cap
    ensures ReadCodes(ll, dl, bits, p, out, cap) == Done(Expand(out, ts), TokensEnd(ll, dl, p, ts))
    decreases |bits| - p
  {
    hide CodeAt;
    hide TokenAt;
    hide Apply;
    hide Legal;
    hide ReadToken;
    ReadTokenFrom(ll, dl, bits, p);
    var r := ReadToken(ll, dl, bits, p);
    if r.End? {
      ts := [];
    } else {
      var rest := CodesSpelled(ll, dl, bits, r.at, Apply(out, r.t), cap);
      ts := [r.t] + rest;
      assert ts[1..] == rest;
    }
  }

  // ---- code lengths ----

  datatype ItemStep = NoItem | NextItem(it: Item, at: nat)

  ghost function ReadItem(cl: seq<nat>, bits: seq<Bit>, p: nat): ItemStep
  {
    match Sym(cl, bits, p)
    case None => NoItem
    case Some(s) =>
      var q := p + cl[s];
      if s <= MAXBITS then NextItem(One(s), q)
      else if s == 16 && q + 2 <= |bits| then NextItem(Again(Value(bits, q, 2)), q + 2)
      else if s == 17 && q + 3 <= |bits| then NextItem(Zeros(Value(bits, q, 3)), q + 3)
      else if s == 18 && q + 7 <= |bits| then NextItem(ManyZeros(Value(bits, q, 7)), q + 7)
      else NoItem
  }

  lemma ReadItemIs(cl: seq<nat>, bits: seq<Bit>, p: nat, it: Item)
    requires ItemAt(cl, bits, p, it)
    ensures ReadItem(cl, bits, p) == NextItem(it, p + ItemSize(cl, it))
  {
    hide Code;
    hide Big;
    hide Value;
    SymIs(cl, bits, p, it.Symbol());
  }

  lemma ReadItemFrom(cl: seq<nat>, bits: seq<Bit>, p: nat)
    ensures var r := ReadItem(cl, bits, p);
      r.NextItem? ==> ItemAt(cl, bits, p, r.it) && r.at == p + ItemSize(cl, r.it) && p < r.at <= |bits|
  {
    hide Code;
    hide Big;
    hide Value;
  }

  datatype ReadOf<T> = Nothing | Read(value: T, at: nat)

  /** The loop of dynamic_tables that fills in the code lengths. */
  ghost function ReadLengths(cl: seq<nat>, bits: seq<Bit>, p: nat, lens: seq<nat>, total: nat): ReadOf<seq<nat>>
    decreases |bits| - p
  {
    if |lens| >= total then Read(lens, p)
    else
      ReadItemFrom(cl, bits, p);
      match ReadItem(cl, bits, p)
      case NoItem => Nothing
      case NextItem(it, q) =>
        if !CanExtend(lens, it) || |Extend(lens, it)| > total then Nothing
        else ReadLengths(cl, bits, q, Extend(lens, it), total)
  }

  lemma {:induction false} LengthsRead(cl: seq<nat>, bits: seq<Bit>, p: nat, items: seq<Item>, lens: seq<nat>, total: nat)
    requires ItemsAt(cl, bits, p, items, lens, total)
    ensures ReadLengths(cl, bits, p, lens, total) == Read(Unroll(lens, items), ItemsEnd(cl, p, items))
    ensures |Unroll(lens, items)| == total
    decreases |items|
  {
    hide ItemAt;
    hide Extend;
    hide CanExtend;
    hide ReadItem;
    if items != [] {
      ReadItemIs(cl, bits, p, items[0]);
      LengthsRead(cl, bits, p + ItemSize(cl, items[0]), items[1..], Extend(lens, items[0]), total);
    }
  }

  lemma {:induction false} LengthsSpelled(cl: seq<nat>, bits: seq<Bit>, p: nat, lens: seq<nat>, total: nat) returns (items: seq<Item>)
    requires ReadLengths(cl, bits, p, lens, total).Read? && |lens| <= total
    ensures ItemsAt(cl, bits, p, items, lens, total)
    decreases |bits| - p
  {
    hide ItemAt;
    hide Extend;
    hide CanExtend;
    hide ReadItem;
    items := [];
    if |lens| < total {
      ReadItemFrom(cl, bits, p);
      var r := ReadItem(cl, bits, p);
      var rest := LengthsSpelled(cl, bits, r.at, Extend(lens, r.it), total);
      items := [r.it] + rest;
      assert items[1..] == rest;
    }
  }

  /** The two length vectors of a dynamic block. */
  datatype Vectors = Vectors(ll: seq<nat>, dl: seq<nat>)

  ghost predicate Usable(lens: seq<nat>, hlit: nat)
  {
    END < hlit <= |lens| && lens[END] != 0 && !Oversubscribed(lens[..hlit]) && !Oversubscribed(lens[hlit..])
  }

  /** The code lengths that the head of a dynamic block lists, and how many are for literals and lengths. */
  datatype Listed = Listed(hlit: nat, lens: seq<nat>)

  ghost function ReadList(bits: seq<Bit>, p: nat): ReadOf<Listed>
  {
    if p + 14 > |bits| then Nothing
    else
      var hlit, hdist, hclen := Value(bits, p, 5) + 257, Value(bits, p + 5, 5) + 1, Value(bits, p + 10, 4) + 4;
      if hlit > 286 || hdist > 32 || hclen > 19 || p + 14 + 3 * hclen > |bits| then Nothing
      else
        var cl := CodeLengths(bits, p + 14, hclen);
        if Oversubscribed(cl) then Nothing
        else
          match ReadLengths(cl, bits, p + 14 + 3 * hclen, [], hlit + hdist)
          case Nothing => Nothing
          case Read(lens, q) => Read(Listed(hlit, lens), q)
  }

  /** dynamic_tables */
  ghost function ReadHeader(bits: seq<Bit>, p: nat): ReadOf<Vectors>
  {
    match ReadList(bits, p)
    case Nothing => Nothing
    case Read(l, q) => if Usable(l.lens, l.hlit) then Read(Vectors(l.lens[..l.hlit], l.lens[l.hlit..]), q) else Nothing
  }

  lemma HeaderRead(bits: seq<Bit>, p: nat, h: Header)
    requires h.At(bits, p)
    ensures ReadHeader(bits, p) == Read(Vectors(h.Lengths()[..h.hlit], h.Lengths()[h.hlit..]), h.End(p))
  {
    hide Oversubscribed;
    hide CodeLengths;
    hide Value;
    hide Pow2;
    hide ReadLengths;
    hide ItemsAt;
    hide Unroll;
    LengthsRead(h.cl, bits, p + 14 + 3 * h.hclen, h.items, [], h.hlit + h.hdist);
  }

  lemma HeaderSpelled(bits: seq<Bit>, p: nat) returns (h: Header)
    requires ReadHeader(bits, p).Read?
    ensures h.At(bits, p)
  {
    hide Oversubscribed;
    hide CodeLengths;
    hide Value;
    hide Pow2;
    hide ReadLengths;
    hide ItemsAt;
    hide Unroll;
    var hlit, hdist, hclen := Value(bits, p, 5) + 257, Value(bits, p + 5, 5) + 1, Value(bits, p + 10, 4) + 4;
    var cl := CodeLengths(bits, p + 14, hclen);
    var items := LengthsSpelled(cl, bits, p + 14 + 3 * hclen, [], hlit + hdist);
    LengthsRead(cl, bits, p + 14 + 3 * hclen, items, [], hlit + hdist);
    h := Header(hlit, hdist, hclen, cl, items);
  }

  // ---- blocks ----

  function ByteAt(bits: seq<Bit>, p: nat): (b: Byte)
    requires p + 8 <= |bits|
    ensures b == Value(bits, p, 8)
  {
    Pow2Eight();
    Value(bits, p, 8)
  }

  function DataBytes(bits: seq<Bit>, p: nat, n: nat): (data: seq<Byte>)
    requires p + 8 * n <= |bits|
    ensures |data| == n && DataAt(bits, p, data)
  {
    seq(n, (i: nat) requires i < n => ByteAt(bits, p + 8 * i))
  }

  /** A stored block from its length field on: too long for the buffer counts as wrong. */
  ghost function ReadStored(bits: seq<Bit>, q: nat, out: seq<Byte>, cap: nat): Outcome
  {
    if q + 32 > |bits| then Corrupt
    else
      var len := Value(bits, q, 16);
      if len + Value(bits, q + 16, 16) != 0xffff || q + 32 + 8 * len > |bits| || |out| + len > cap then Corrupt
      else Done(out + DataBytes(bits, q + 32, len), q + 32 + 8 * len)
  }

  /** What stands between the three bits that open a block and the next block. */
  ghost function ReadBody(bits: seq<Bit>, p: nat, kind: nat, out: seq<Byte>, cap: nat): Outcome
  {
    if kind == 0 then ReadStored(bits, Align(p), out, cap)
    else if kind == 1 then ReadCodes(FixedLengths(), FixedDistances(), bits, p, out, cap)
    else if kind == 2 then
      var r := ReadHeader(bits, p);
      if r.Nothing? then Corrupt else ReadCodes(r.value.ll, r.value.dl, bits, r.at, out, cap)
    else Corrupt
  }

  lemma BytesAre(bits: seq<Bit>, p: nat, data: seq<Byte>)
    requires DataAt(bits, p, data)
    ensures DataBytes(bits, p, |data|) == data
  {
    hide Value;
  }

  lemma {:induction false} CodesEnd(ll: seq<nat>, dl: seq<nat>, bits: seq<Bit>, p: nat, out: seq<Byte>, cap: nat)
    ensures var r := ReadCodes(ll, dl, bits, p, out, cap); r.Done? ==> p < r.at <= |bits|
    decreases |bits| - p
  {
    hide ReadToken;
    ReadTokenFrom(ll, dl, bits, p);
    var r := ReadToken(ll, dl, bits, p);
    if r.More? && Legal(out, r.t) && |Apply(out, r.t)| <= cap { CodesEnd(ll, dl, bits, r.at, Apply(out, r.t), cap); }
  }

  lemma {:induction false} LengthsEnd(cl: seq<nat>, bits: seq<Bit>, p: nat, lens: seq<nat>, total: nat)
    requires p <= |bits|
    ensures var r := ReadLengths(cl, bits, p, lens, total); r.Read? ==> p <= r.at <= |bits|
    decreases |bits| - p
  {
    hide ReadItem;
    ReadItemFrom(cl, bits, p);
    var r := ReadItem(cl, bits, p);
    if |lens| < total && r.NextItem? && CanExtend(lens, r.it) { LengthsEnd(cl, bits, r.at, Extend(lens, r.it), total); }
  }

  lemma HeaderEnd(bits: seq<Bit>, p: nat)
    ensures var r := ReadHeader(bits, p); r.Read? ==> p < r.at <= |bits|
  {
    hide Oversubscribed;
    hide CodeLengths;
    hide Value;
    hide Pow2;
    hide ReadLengths;
    if ReadHeader(bits, p).Read? {
      var hlit, hdist, hclen := Value(bits, p, 5) + 257, Value(bits, p + 5, 5) + 1, Value(bits, p + 10, 4) + 4;
      LengthsEnd(CodeLengths(bits, p + 14, hclen), bits, p + 14 + 3 * hclen, [], hlit + hdist);
    }
  }

  lemma BodyReadEnd(bits: seq<Bit>, p: nat, kind: nat, out: seq<Byte>, cap: nat)
    ensures var r := ReadBody(bits, p, kind, out, cap); r.Done? ==> p < r.at <= |bits|
  {
    hide ReadCodes;
    hide ReadHeader;
    hide Value;
    hide DataBytes;
    hide Pow2;
    if kind == 1 { CodesEnd(FixedLengths(), FixedDistances(), bits, p, out, cap); }
    if kind == 2 {
      HeaderEnd(bits, p);
      var r := ReadHeader(bits, p);
      if r.Read? { CodesEnd(r.value.ll, r.value.dl, bits, r.at, out, cap); }
    }
  }

  /** inflate_raw */
  ghost function ReadBlocks(bits: seq<Bit>, p: nat, out: seq<Byte>, cap: nat): Outcome
    decreases |bits| - p
  {
    if p + 3 > |bits| then Corrupt
    else
      var kind := Value(bits, p + 1, 2);
      BodyReadEnd(bits, p + 3, kind, out, cap);
      match ReadBody(bits, p + 3, kind, out, cap)
      case Corrupt => Corrupt
      case Full => Full
      case Done(o, q) => if Value(bits, p, 1) == 1 then Done(o, q) else ReadBlocks(bits, q, o, cap)
  }

  /** A block that the stream spells is read as what it means, when that fits. */
  lemma BodyRead(bits: seq<Bit>, p: nat, b: Block, out: seq<Byte>, cap: nat)
    requires BodyAt(bits, p, b) && LegalBlock(out, b) && |out| <= cap
    ensures ReadBody(bits, p, TypeOf(b), out, cap)
         == if |Meaning(out, b)| <= cap then Done(Meaning(out, b), BodyEnd(bits, p, b)) else if b.Stored? then Corrupt else Full
  {
    hide ReadCodes;
    hide ReadHeader;
    hide Value;
    hide DataBytes;
    hide Pow2;
    hide TokensAt;
    match b
    case Stored(data) => BytesAre(bits, Align(p) + 32, data);
    case Fixed(ts) => CodesRead(FixedLengths(), FixedDistances(), bits, p, ts, out, cap);
    case Dynamic(h, ts) =>
      HeaderRead(bits, p, h);
      CodesRead(h.Lengths()[..h.hlit], h.Lengths()[h.hlit..], bits, h.End(p), ts, out, cap);
  }

  lemma BodySpelled(bits: seq<Bit>, p: nat, kind: nat, out: seq<Byte>, cap: nat) returns (b: Block)
    requires ReadBody(bits, p, kind, out, cap).Done? && |out| <= cap
    ensures BodyAt(bits, p, b) && LegalBlock(out, b) && TypeOf(b) == kind && |Meaning(out, b)| <= cap
    ensures ReadBody(bits, p, kind, out, cap) == Done(Meaning(out, b), BodyEnd(bits, p, b))
  {
    hide ReadCodes;
    hide ReadHeader;
    hide Value;
    hide Pow2;
    hide TokensAt;
    if kind == 0 {
      b := Stored(DataBytes(bits, Align(p) + 32, Value(bits, Align(p), 16)));
      assert |b.data| < 0x10000;
    } else if kind == 1 {
      var ts := CodesSpelled(FixedLengths(), FixedDistances(), bits, p, out, cap);
      b := Fixed(ts);
    } else {
      var h := HeaderSpelled(bits, p);
      HeaderRead(bits, p, h);
      var ts := CodesSpelled(h.Lengths()[..h.hlit], h.Lengths()[h.hlit..], bits, h.End(p), out, cap);
      b := Dynamic(h, ts);
    }
  }

  /** Every stream of blocks is read as what the blocks mean, exactly when that fits the buffer. */
  lemma {:induction false} BlocksRead(bits: seq<Bit>, p: nat, bs: seq<Block>, out: seq<Byte>, cap: nat)
    requires BlocksAt(bits, p, bs) && LegalStream(out, bs) && |out| <= cap
    ensures ReadBlocks(bits, p, out, cap).Done? <==> |Decompressed(out, bs)| <= cap
    ensures ReadBlocks(bits, p, out, cap).Done? ==> ReadBlocks(bits, p, out, cap).out == Decompressed(out, bs)
    decreases |bs|
  {
    hide BodyAt;
    hide BodyEnd;
    hide ReadBody;
    hide LegalBlock;
    hide Meaning;
    hide Value;
    hide TypeOf;
    BodyRead(bits, p + 3, bs[0], out, cap);
    var o := Meaning(out, bs[0]);
    if |bs| > 1 {
      if |o| <= cap {
        BlocksRead(bits, BodyEnd(bits, p + 3, bs[0]), bs[1..], o, cap);
      }
    } else {
      assert bs[1..] == [];
    }
  }

  /** What is read is what some stream of blocks, which the bits spell, means. */
  lemma {:induction false} BlocksSpelled(bits: seq<Bit>, p: nat, out: seq<Byte>, cap: nat) returns (bs: seq<Block>)
    requires ReadBlocks(bits, p, out, cap).Done? && |out| <= cap
    ensures BlocksAt(bits, p, bs) && LegalStream(out, bs) && Decompressed(out, bs) == ReadBlocks(bits, p, out, cap).out
    decreases |bits| - p
  {
    hide BodyAt;
    hide BodyEnd;
    hide ReadBody;
    hide LegalBlock;
    hide Meaning;
    hide TypeOf;
    var kind := Value(bits, p + 1, 2);
    BodyReadEnd(bits, p + 3, kind, out, cap);
    var b := BodySpelled(bits, p + 3, kind, out, cap);
    var o, q := Meaning(out, b), BodyEnd(bits, p + 3, b);
    OneBit(bits, p);
    if Value(bits, p, 1) == 1 {
      bs := [b];
      assert bs[1..] == [];
    } else {
      var rest := BlocksSpelled(bits, q, o, cap);
      bs := [b] + rest;
      assert bs[1..] == rest;
    }
  }

  lemma OneBit(bits: seq<Bit>, p: nat)
    requires p < |bits|
    ensures Value(bits, p, 1) < 2
  {
    assert Pow2(1) == 2;
  }
}
