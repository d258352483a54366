/** The DEFLATE format (sections 3.2.3 to 3.2.7 of RFC 1951): what a stream of bits spells, and what that means. */
module Deflate {
  import opened Bytes
  import opened BitReader
  import opened Huffman

  /** Code i for a length, and i for a distance: the smallest one it writes and how many more bits follow. */
  function LengthBase(i: nat): (b: nat)
    requires i < 29
    ensures 3 <= b <= 258
  {
    [3, 4, 5, 6, 7, 8, 9, 10, 11, 13, 15, 17, 19, 23, 27, 31, 35, 43, 51, 59,
     67, 83, 99, 115, 131, 163, 195, 227, 258][i]
  }

  function LengthExtra(i: nat): (n: nat)
    requires i < 29
    ensures n <= 5
  {
    [0, 0, 0, 0, 0, 0, 0, 0, 1, 1, 1, 1, 2, 2, 2, 2, 3, 3, 3, 3, 4, 4, 4, 4, 5, 5, 5, 5, 0][i]
  }

  function DistanceBase(i: nat): (b: nat)
    requires i < 30
    ensures 1 <= b <= 24577
  {
    [1, 2, 3, 4, 5, 7, 9, 13, 17, 25, 33, 49, 65, 97, 129, 193, 257, 385, 513, 769,
     1025, 1537, 2049, 3073, 4097, 6145, 8193, 12289, 16385, 24577][i]
  }

  function DistanceExtra(i: nat): (n: nat)
    requires i < 30
    ensures n <= 13
  {
    [0, 0, 0, 0, 1, 1, 2, 2, 3, 3, 4, 4, 5, 5, 6, 6, 7, 7, 8, 8, 9, 9, 10, 10, 11, 11, 12, 12, 13, 13][i]
  }

  const END := 256

  /** A literal byte, or a copy as its length and distance codes with their extra bits. */
  datatype Token =
    | Literal(byte: Byte)
    | Copy(li: nat, extra: nat, di: nat, dextra: nat)
  {
    predicate Valid()
    {
      Literal? || (li < 29 && extra < Pow2(LengthExtra(li)) && di < 30 && dextra < Pow2(DistanceExtra(di)))
    }

    function Length(): (n: nat)
      requires Copy? && Valid()
      ensures n >= 3
    {
      LengthBase(li) + extra
    }

    function Distance(): (n: nat)
      requires Copy? && Valid()
      ensures n >= 1
    {
      DistanceBase(di) + dextra
    }
  }

  // ---- meaning ----

  /** Copying one byte at a time from a distance back: the copy may run into what it writes. */
  function CopyBack(out: seq<Byte>, distance: nat, length: nat): (r: seq<Byte>)
    requires 0 < distance <= |out|
    ensures |r| == |out| + length && out <= r
    ensures forall i :: |out| <= i < |r| ==> r[i] == r[i - distance]
    decreases length
  {
    if length == 0 then out else CopyBack(out + [out[|out| - distance]], distance, length - 1)
  }

  /** The token reaches back no further than the start. */
  predicate Legal(out: seq<Byte>, t: Token)
  {
    t.Valid() && (t.Copy? ==> t.Distance() <= |out|)
  }

  function Apply(out: seq<Byte>, t: Token): (r: seq<Byte>)
    requires Legal(out, t)
    ensures |r| > |out|
  {
    if t.Literal? then out + [t.byte] else CopyBack(out, t.Distance(), t.Length())
  }

  predicate AllLegal(out: seq<Byte>, ts: seq<Token>)
    decreases |ts|
  {
    ts == [] || (Legal(out, ts[0]) && AllLegal(Apply(out, ts[0]), ts[1..]))
  }

  function Expand(out: seq<Byte>, ts: seq<Token>): (r: seq<Byte>)
    requires AllLegal(out, ts)
    ensures |r| >= |out|
    decreases |ts|
  {
    if ts == [] then out else Expand(Apply(out, ts[0]), ts[1..])
  }

  // ---- tokens in a stream ----

  /** The n bits from p on write v, first bit lowest. */
  predicate FieldAt(bits: seq<Bit>, p: nat, n: nat, v: nat)
  {
    p + n <= |bits| && Value(bits, p, n) == v
  }

  function Size(L: seq<nat>, s: nat): nat { if s < |L| then L[s] else 0 }

  function TokenSize(ll: seq<nat>, dl: seq<nat>, t: Token): nat
    requires t.Valid()
  {
    match t
    case Literal(b) => Size(ll, b)
    case Copy(li, _, di, _) => Size(ll, 257 + li) + LengthExtra(li) + Size(dl, di) + DistanceExtra(di)
  }

  ghost predicate TokenAt(ll: seq<nat>, dl: seq<nat>, bits: seq<Bit>, p: nat, t: Token)
  {
    match t
    case Literal(b) => CodeAt(ll, b, bits, p)
    case Copy(li, extra, di, dextra) =>
      && li < 29 && di < 30
      && CodeAt(ll, 257 + li, bits, p)
      && FieldAt(bits, p + Size(ll, 257 + li), LengthExtra(li), extra)
      && CodeAt(dl, di, bits, p + Size(ll, 257 + li) + LengthExtra(li))
      && FieldAt(bits, p + Size(ll, 257 + li) + LengthExtra(li) + Size(dl, di), DistanceExtra(di), dextra)
  }

  lemma TokenValid(ll: seq<nat>, dl: seq<nat>, bits: seq<Bit>, p: nat, t: Token)
    requires TokenAt(ll, dl, bits, p, t)
    ensures t.Valid() && p + TokenSize(ll, dl, t) <= |bits| && TokenSize(ll, dl, t) > 0
  {}

  /** The tokens one after another, then the end-of-block code. */
  ghost predicate TokensAt(ll: seq<nat>, dl: seq<nat>, bits: seq<Bit>, p: nat, ts: seq<Token>)
    decreases |ts|
  {
    if ts == [] then CodeAt(ll, END, bits, p)
    else ts[0].Valid() && TokenAt(ll, dl, bits, p, ts[0]) && TokensAt(ll, dl, bits, p + TokenSize(ll, dl, ts[0]), ts[1..])
  }

  predicate AllValid(ts: seq<Token>) { forall t :: t in ts ==> t.Valid() }

  function TokensEnd(ll: seq<nat>, dl: seq<nat>, p: nat, ts: seq<Token>): nat
    requires AllValid(ts)
    decreases |ts|
  {
    if ts == [] then p + Size(ll, END) else TokensEnd(ll, dl, p + TokenSize(ll, dl, ts[0]), ts[1..])
  }

  // ---- the code lengths of a dynamic block ----

  /** One entry of the run-length coded list of code lengths. */
  datatype Item = One(len: nat) | Again(extra: nat) | Zeros(extra: nat) | ManyZeros(extra: nat)
  {
    function Symbol(): nat
    {
      match this case One(n) => n case Again(_) => 16 case Zeros(_) => 17 case ManyZeros(_) => 18
    }

    function ExtraBits(): nat
    {
      match this case One(_) => 0 case Again(_) => 2 case Zeros(_) => 3 case ManyZeros(_) => 7
    }

    predicate Valid() { One? ==> len <= MAXBITS }
  }

  function Repeat(v: nat, n: nat): (r: seq<nat>)
    ensures |r| == n && forall i :: 0 <= i < n ==> r[i] == v
  {
    seq(n, _ => v)
  }

  predicate CanExtend(lens: seq<nat>, it: Item) { it.Valid() && (it.Again? ==> |lens| > 0) }

  function Extend(lens: seq<nat>, it: Item): (r: seq<nat>)
    requires CanExtend(lens, it)
    ensures |r| > |lens|
  {
    match it
    case One(n) => lens + [n]
    case Again(e) => lens + Repeat(lens[|lens| - 1], 3 + e)
    case Zeros(e) => lens + Repeat(0, 3 + e)
    case ManyZeros(e) => lens + Repeat(0, 11 + e)
  }

  ghost predicate ItemAt(cl: seq<nat>, bits: seq<Bit>, p: nat, it: Item)
  {
    && it.Valid() && CodeAt(cl, it.Symbol(), bits, p)
    && (!it.One? ==> FieldAt(bits, p + Size(cl, it.Symbol()), it.ExtraBits(), it.extra))
  }

  function ItemSize(cl: seq<nat>, it: Item): nat { Size(cl, it.Symbol()) + it.ExtraBits() }

  /** From p on the items extend lens to a list of exactly total lengths. */
  ghost predicate ItemsAt(cl: seq<nat>, bits: seq<Bit>, p: nat, items: seq<Item>, lens: seq<nat>, total: nat)
    decreases |items|
  {
    if items == [] then |lens| == total
    else
      && ItemAt(cl, bits, p, items[0]) && CanExtend(lens, items[0]) && |Extend(lens, items[0])| <= total
      && ItemsAt(cl, bits, p + ItemSize(cl, items[0]), items[1..], Extend(lens, items[0]), total)
  }

  function Unroll(lens: seq<nat>, items: seq<Item>): (r: seq<nat>)
    decreases |items|
  {
    if items == [] || !CanExtend(lens, items[0]) then lens else Unroll(Extend(lens, items[0]), items[1..])
  }

  function ItemsEnd(cl: seq<nat>, p: nat, items: seq<Item>): nat
    decreases |items|
  {
    if items == [] then p else ItemsEnd(cl, p + ItemSize(cl, items[0]), items[1..])
  }

  /** The order in which the lengths of the code length code are written, and where each stands in it. */
  function Order(i: nat): (s: nat)
    requires i < 19
    ensures s < 19
  {
    [16, 17, 18, 0, 8, 7, 9, 6, 10, 5, 11, 4, 12, 3, 13, 2, 14, 1, 15][i]
  }

  function Place(s: nat): (i: nat)
    requires s < 19
    ensures i < 19
  {
    [3, 17, 15, 13, 11, 9, 7, 5, 4, 6, 8, 10, 12, 14, 16, 18, 0, 1, 2][s]
  }

  lemma OrderPlace()
    ensures forall s: nat {:trigger Place(s)} :: s < 19 ==> Order(Place(s)) == s
    ensures forall i: nat {:trigger Order(i)} :: i < 19 ==> Place(Order(i)) == i
  {}

  /** The length of each code length code, as hclen three-bit fields write them. */
  function CodeLengths(bits: seq<Bit>, p: nat, hclen: nat): (cl: seq<nat>)
    requires hclen <= 19 && p + 3 * hclen <= |bits|
    ensures |cl| == 19
  {
    seq(19, (s: nat) requires s < 19 => if Place(s) < hclen then Value(bits, p + 3 * Place(s), 3) else 0)
  }

  /** The head of a dynamic block: three counts and the items that spell the two length vectors. */
  datatype Header = Header(hlit: nat, hdist: nat, hclen: nat, cl: seq<nat>, items: seq<Item>)
  {
    function Lengths(): seq<nat> { Unroll([], items) }

    function End(p: nat): nat { ItemsEnd(cl, p + 14 + 3 * hclen, items) }

    ghost predicate At(bits: seq<Bit>, p: nat)
    {
      && hlit >= 257 && hdist >= 1 && hclen >= 4 && hlit <= 286 && hdist <= 32
      && FieldAt(bits, p, 5, hlit - 257) && FieldAt(bits, p + 5, 5, hdist - 1) && FieldAt(bits, p + 10, 4, hclen - 4)
      && hclen <= 19 && p + 14 + 3 * hclen <= |bits|
      && cl == CodeLengths(bits, p + 14, hclen) && !Oversubscribed(cl)
      && ItemsAt(cl, bits, p + 14 + 3 * hclen, items, [], hlit + hdist)
      && |Lengths()| == hlit + hdist && Lengths()[END] != 0
      && !Oversubscribed(Lengths()[..hlit]) && !Oversubscribed(Lengths()[hlit..])
    }
  }

  // ---- blocks ----

  /** The code lengths of section 3.2.6. */
  function FixedLengths(): (L: seq<nat>)
    ensures |L| == 288
  {
    seq(288, (i: nat) => if i < 144 then 8 else if i < 256 then 9 else if i < 280 then 7 else 8)
  }

  function FixedDistances(): (L: seq<nat>)
    ensures |L| == 32
  {
    seq(32, (i: nat) => 5)
  }

  datatype Block =
    | Stored(data: seq<Byte>)
    | Fixed(tokens: seq<Token>)
    | Dynamic(head: Header, tokens: seq<Token>)

  function Align(p: nat): (q: nat)
    ensures p <= q < p + 8 && q % 8 == 0
  {
    (p + 7) / 8 * 8
  }

  predicate DataAt(bits: seq<Bit>, p: nat, data: seq<Byte>)
  {
    p + 8 * |data| <= |bits| && forall i :: 0 <= i < |data| ==> data[i] == Value(bits, p + 8 * i, 8)
  }

  /** What follows the three bits that open a block. */
  ghost predicate BodyAt(bits: seq<Bit>, p: nat, b: Block)
  {
    match b
    case Stored(data) =>
      && |data| < 0x10000
      && FieldAt(bits, Align(p), 16, |data|) && FieldAt(bits, Align(p) + 16, 16, 0xffff - |data|)
      && DataAt(bits, Align(p) + 32, data)
    case Fixed(ts) => AllValid(ts) && TokensAt(FixedLengths(), FixedDistances(), bits, p, ts)
    case Dynamic(h, ts) =>
      h.At(bits, p) && AllValid(ts) && TokensAt(h.Lengths()[..h.hlit], h.Lengths()[h.hlit..], bits, h.End(p), ts)
  }

  ghost function BodyEnd(bits: seq<Bit>, p: nat, b: Block): nat
    requires BodyAt(bits, p, b)
  {
    match b
    case Stored(data) => Align(p) + 32 + 8 * |data|
    case Fixed(ts) => TokensEnd(FixedLengths(), FixedDistances(), p, ts)
    case Dynamic(h, ts) => TokensEnd(h.Lengths()[..h.hlit], h.Lengths()[h.hlit..], h.End(p), ts)
  }

  function TypeOf(b: Block): nat
  {
    match b case Stored(_) => 0 case Fixed(_) => 1 case Dynamic(_, _) => 2
  }

  /** The blocks one after another, the last one and no other marked as the last. */
  ghost predicate BlocksAt(bits: seq<Bit>, p: nat, bs: seq<Block>)
    decreases |bs|
  {
    && bs != []
    && FieldAt(bits, p, 1, if |bs| == 1 then 1 else 0) && FieldAt(bits, p + 1, 2, TypeOf(bs[0]))
    && BodyAt(bits, p + 3, bs[0])
    && (|bs| > 1 ==> BlocksAt(bits, BodyEnd(bits, p + 3, bs[0]), bs[1..]))
  }

  predicate LegalBlock(out: seq<Byte>, b: Block) { b.Stored? || AllLegal(out, b.tokens) }

  function Meaning(out: seq<Byte>, b: Block): (r: seq<Byte>)
    requires LegalBlock(out, b)
    ensures |r| >= |out|
  {
    if b.Stored? then out + b.data else Expand(out, b.tokens)
  }

  predicate LegalStream(out: seq<Byte>, bs: seq<Block>)
    decreases |bs|
  {
    bs == [] || (LegalBlock(out, bs[0]) && LegalStream(Meaning(out, bs[0]), bs[1..]))
  }

  /** What a list of blocks writes after out. */
  function Decompressed(out: seq<Byte>, bs: seq<Block>): (r: seq<Byte>)
    requires LegalStream(out, bs)
    ensures |r| >= |out|
    decreases |bs|
  {
    if bs == [] then out else Decompressed(Meaning(out, bs[0]), bs[1..])
  }
}
