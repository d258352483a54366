/** The Index of an .xz stream (section 4 of the .xz file format), one byte after another. */
module XzIndexSpec {
  import opened Bytes
  import opened Crc

  const WRAP := 0x1_0000_0000_0000_0000
  const LIMIT := 0x8000_0000_0000_0000

  // ---- variable-length integers ----

  /** The minimal base-128 encoding, lowest digit first, all but the last with the high bit. */
  function Vli(v: nat): (d: seq<Byte>)
    ensures |d| > 0
  {
    if v < 128 then [v] else [v % 128 + 128] + Vli(v / 128)
  }

  // ---- what the Index says ----

  datatype Record = Record(unpadded: nat, uncompressed: nat)

  predicate Encodable(r: Record) { r.unpadded < LIMIT && r.uncompressed < LIMIT }

  /** struct xz_dec_hash: running sums and a checksum over the struct itself. */
  datatype Hash = Hash(unpadded: nat, uncompressed: nat, crc32: Word)

  /** The twenty-four bytes of the struct, its last four unused. */
  function HashBytes(h: Hash): seq<Byte>
  {
    Little(h.unpadded, 8) + Little(h.uncompressed, 8) + Little(h.crc32, 4) + [0, 0, 0, 0]
  }

  function AddWrap(a: nat, b: nat): (c: nat)
    ensures c < WRAP
  {
    (a + b) % WRAP
  }

  function Hashed(h: Hash, uncompressed: nat): Hash
  {
    var g := h.(uncompressed := AddWrap(h.uncompressed, uncompressed));
    g.(crc32 := Crc32(HashBytes(g), g.crc32))
  }

  function HashRecord(h: Hash, r: Record): Hash
  {
    Hashed(h.(unpadded := AddWrap(h.unpadded, r.unpadded)), r.uncompressed)
  }

  function HashAll(h: Hash, rs: seq<Record>): Hash
    decreases |rs|
  {
    if rs == [] then h else HashAll(HashRecord(h, rs[0]), rs[1..])
  }

  const NO_HASH := Hash(0, 0, 0)

  function TotalUnpadded(rs: seq<Record>): nat
    decreases |rs|
  {
    if rs == [] then 0 else rs[0].unpadded + TotalUnpadded(rs[1..])
  }

  function TotalUncompressed(rs: seq<Record>): nat
    decreases |rs|
  {
    if rs == [] then 0 else rs[0].uncompressed + TotalUncompressed(rs[1..])
  }

  lemma AddsUp(a: nat, b: nat, c: nat)
    ensures AddWrap(AddWrap(a, b), c) == AddWrap(a, b + c)
    ensures a < WRAP ==> AddWrap(a, 0) == a
  {}

  lemma SumWraps(a: nat, b: nat)
    ensures AddWrap(a, b) == (a + b) % 0x1_0000_0000_0000_0000
  {}

  lemma {:induction false} Wrapped(h: Hash, rs: seq<Record>)
    requires h.unpadded < WRAP && h.uncompressed < WRAP
    ensures HashAll(h, rs).unpadded == AddWrap(h.unpadded, TotalUnpadded(rs))
    ensures HashAll(h, rs).uncompressed == AddWrap(h.uncompressed, TotalUncompressed(rs))
    decreases |rs|
  {
    hide Crc32, AddWrap, HashBytes;
    if rs == [] {
      AddsUp(h.unpadded, 0, 0);
      AddsUp(h.uncompressed, 0, 0);
    } else {
      var r, more := rs[0], rs[1..];
      AddsUp(h.unpadded, r.unpadded, TotalUnpadded(more));
      AddsUp(h.uncompressed, r.uncompressed, TotalUncompressed(more));
      Wrapped(HashRecord(h, r), more);
    }
  }

  /** The hash holds the totals of both sizes modulo 2 to the 64: equal hashes, equal totals. */
  lemma HashTotals(h: Hash, rs: seq<Record>)
    requires h.unpadded < WRAP && h.uncompressed < WRAP
    ensures HashAll(h, rs).unpadded == (h.unpadded + TotalUnpadded(rs)) % 0x1_0000_0000_0000_0000
    ensures HashAll(h, rs).uncompressed == (h.uncompressed + TotalUncompressed(rs)) % 0x1_0000_0000_0000_0000
  {
    hide *;
    Wrapped(h, rs);
    SumWraps(h.unpadded, TotalUnpadded(rs));
    SumWraps(h.uncompressed, TotalUncompressed(rs));
  }

  /** One more record: the checksum goes on over both totals, itself and four zeros, in this order. */
  lemma {:induction false} HashNext(h: Hash, rs: seq<Record>, r: Record)
    ensures var g := HashAll(h, rs);
      var u, v := (g.unpadded + r.unpadded) % 0x1_0000_0000_0000_0000, (g.uncompressed + r.uncompressed) % 0x1_0000_0000_0000_0000;
      HashAll(h, rs + [r]) == Hash(u, v, Crc32(Little(u, 8) + Little(v, 8) + Little(g.crc32, 4) + [0, 0, 0, 0], g.crc32))
    decreases |rs|
  {
    hide Crc32, Little;
    if rs == [] {
      assert rs + [r] == [r] && [r][1..] == [];
    } else {
      assert (rs + [r])[1..] == rs[1..] + [r];
      HashNext(HashRecord(h, rs[0]), rs[1..], r);
    }
  }

  function Records(rs: seq<Record>): seq<Byte>
    decreases |rs|
  {
    if rs == [] then [] else Vli(rs[0].unpadded) + Vli(rs[0].uncompressed) + Records(rs[1..])
  }

  function Pad(n: nat): (k: nat)
    ensures k < 4 && (n + k) % 4 == 0
  {
    (4 - n % 4) % 4
  }

  /** Indicator, number of records and records. */
  function Body(rs: seq<Record>): seq<Byte> { [0] + Vli(|rs|) + Records(rs) }

  /** What the checksum is over: a multiple of four bytes. */
  function IndexBytes(rs: seq<Record>): (s: seq<Byte>)
    ensures |s| % 4 == 0
  {
    Body(rs) + Zeros(Pad(|Body(rs)|))
  }

  /** The whole Index field with its checksum. */
  function Encoded(rs: seq<Record>): seq<Byte>
  {
    IndexBytes(rs) + Little(Crc32(IndexBytes(rs), 0), 4)
  }

  // ---- the decoder, one byte at a time ----

  datatype Place = AtStart | AtCount | AtUnpadded | AtUncompressed | AtPadding | AtCheck | AtFooter | Wrong

  /** What the blocks before the Index were: how many, and the hash of their sizes. */
  datatype Blocks = Blocks(count: nat, hash: Hash)

  datatype State = State(place: Place, pos: nat, vli: nat, size: nat, crc: Word, count: nat, hash: Hash)

  const INITIAL := State(AtStart, 0, 0, 0, 0, 0, NO_HASH)

  function Taken(s: State, x: Byte): State { s.(size := s.size + 1, crc := Crc32([x], s.crc)) }

  /** Padding, or the comparison with what the blocks were. */
  function Settle(b: Blocks, s: State): State
  {
    if s.size % 4 != 0 then s.(place := AtPadding)
    else if s.hash == b.hash then s.(place := AtCheck)
    else s.(place := Wrong)
  }

  /** After the last digit of a number. */
  function After(b: Blocks, s: State, v: nat): State
  {
    match s.place
    case AtCount =>
      if v != b.count then s.(place := Wrong)
      else if v == 0 then Settle(b, s.(count := 0))
      else s.(count := v, place := AtUnpadded)
    case AtUnpadded => s.(hash := s.hash.(unpadded := AddWrap(s.hash.unpadded, v)), place := AtUncompressed)
    case AtUncompressed =>
      var t := s.(hash := Hashed(s.hash, v), count := if s.count > 0 then s.count - 1 else 0);
      if t.count == 0 then Settle(b, t) else t.(place := AtUnpadded)
    case _ => s
  }

  /** The number so far with one more digit. */
  function Grown(s: State, x: Byte): nat { s.vli + x % 128 * Pow2(s.pos) }

  function Digit(b: Blocks, s: State, x: Byte): State
  {
    var v := Grown(s, x);
    if x < 128 then
      if x == 0 && s.pos != 0 then s.(place := Wrong) else After(b, s.(pos := 0, vli := 0), v)
    else if s.pos + 7 == 63 then s.(place := Wrong)
    else s.(pos := s.pos + 7, vli := v)
  }

  predicate InNumber(s: State) { s.place in {AtCount, AtUnpadded, AtUncompressed} }

  predicate Ended(s: State) { s.place in {AtFooter, Wrong} }

  /** Byte pos / 8 of the checksum. */
  function CheckByte(crc: Word, pos: nat): Byte { crc / Pow2(pos) % 256 }

  function Feed(b: Blocks, s: State, x: Byte): State
  {
    match s.place
    case AtStart => if x == 0 then Taken(s, x).(place := AtCount) else s.(place := Wrong)
    case AtPadding => if x == 0 then Settle(b, Taken(s, x)) else s.(place := Wrong)
    case AtCheck =>
      if x != CheckByte(s.crc, s.pos) then s.(place := Wrong)
      else if s.pos + 8 < 32 then s.(pos := s.pos + 8)
      else s.(pos := 0, crc := 0, place := AtFooter)
    case AtFooter => s
    case Wrong => s
    case _ => Digit(b, Taken(s, x), x)
  }

  function Run(b: Blocks, s: State, bytes: seq<Byte>): State
    decreases |bytes|
  {
    if bytes == [] then s else Run(b, Feed(b, s, bytes[0]), bytes[1..])
  }

  lemma {:induction false} RunSplit(b: Blocks, s: State, x: seq<Byte>, y: seq<Byte>)
    ensures Run(b, s, x + y) == Run(b, Run(b, s, x), y)
    decreases |x|
  {
    hide Feed;
    if x == [] {
      assert x + y == y;
    } else {
      assert (x + y)[1..] == x[1..] + y;
      RunSplit(b, Feed(b, s, x[0]), x[1..], y);
    }
  }

  /** Nothing more happens after the end. */
  lemma {:induction false} RunEnded(b: Blocks, s: State, bytes: seq<Byte>)
    requires Ended(s)
    ensures Run(b, s, bytes) == s
    decreases |bytes|
  {
    if bytes != [] { RunEnded(b, s, bytes[1..]); }
  }
}
