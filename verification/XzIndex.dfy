/** The part of the .xz decoder that reads the Index, resumable at every byte. */
module XzIndex {
  import opened Bytes
  import opened Crc
  import opened XzIndexSpec

  datatype Sequence = BlockStart | Index | IndexPadding | IndexCrc32 | StreamFooter
  datatype IndexSequence = Count | Unpadded | Uncompressed
  datatype Ret = Ok | StreamEnd | DataError

  lemma {:induction false} OneMore(b: Blocks, s: State, inp: seq<Byte>, i: nat, j: nat)
    requires i <= j < |inp|
    ensures Run(b, s, inp[i..j + 1]) == Feed(b, Run(b, s, inp[i..j]), inp[j])
  {
    hide Feed;
    RunSplit(b, s, inp[i..j], [inp[j]]);
    assert inp[i..j + 1] == inp[i..j] + [inp[j]];
    var t := Run(b, s, inp[i..j]);
    assert Run(b, t, [inp[j]]) == Run(b, Feed(b, t, inp[j]), []);
  }

  lemma PendingMore(inp: seq<Byte>, i: nat, j: nat, crc: Word)
    requires i <= j < |inp|
    ensures Crc32(inp[i..j + 1], crc) == Crc32([inp[j]], Crc32(inp[i..j], crc))
  {
    hide Crc32;
    CrcSplit(inp[i..j], [inp[j]], crc);
    assert inp[i..j + 1] == inp[i..j] + [inp[j]];
  }

  lemma NonePending(crc: Word)
    ensures Crc32([], crc) == crc
  {}

  function PlaceOf(s: Sequence, i: IndexSequence): Place
  {
    match s
    case BlockStart => AtStart
    case Index => (match i case Count => AtCount case Unpadded => AtUnpadded case Uncompressed => AtUncompressed)
    case IndexPadding => AtPadding
    case IndexCrc32 => AtCheck
    case StreamFooter => AtFooter
  }

  /** struct xz_dec, as far as the Index is concerned. */
  class Decoder {
    const blocks: Blocks
    var sequence: Sequence
    var pos: nat
    var vli: nat
    var crc: Word
    var inStart: nat
    var indexSequence: IndexSequence
    var size: nat
    var count: nat
    var hash: Hash

    constructor (blocks: Blocks)
      ensures this.blocks == blocks && View([]) == INITIAL && Valid()
    {
      this.blocks := blocks;
      sequence, pos, vli, crc, inStart := BlockStart, 0, 0, 0, 0;
      indexSequence, size, count, hash := Count, 0, 0, NO_HASH;
      new;
      NonePending(0);
    }

    /** The decoder after the bytes that size and crc do not account for yet. */
    ghost function View(pending: seq<Byte>): State
      reads this
    {
      State.State(PlaceOf(sequence, indexSequence), pos, if sequence == Index && pos != 0 then vli else 0,
                  size + |pending|, Crc32(pending, crc), count, hash)
    }

    ghost predicate Valid()
      reads this
    {
      && (sequence.Index? ==> pos < 63 && pos % 7 == 0 && (indexSequence.Uncompressed? || indexSequence.Unpadded? ==> count > 0))
      && (sequence.IndexCrc32? ==> pos < 32 && pos % 8 == 0)
      && (sequence.BlockStart? || sequence.IndexPadding? || sequence.StreamFooter? ==> pos == 0)
      && (sequence.BlockStart? ==> indexSequence.Count?)
      && (sequence.IndexPadding? ==> size % 4 != 0)
    }

    /** dec_vli */
    method DecVli(inp: seq<Byte>, from: nat) returns (ret: Ret, inPos: nat)
      requires Valid() && sequence.Index? && inStart <= from <= |inp|
      modifies `pos, `vli
      ensures (ret.DataError? || Valid()) && from <= inPos <= |inp|
      ensures ret.Ok? ==> inPos == |inp| && View(inp[inStart..inPos]) == Run(blocks, old(View(inp[inStart..from])), inp[from..inPos])
      ensures ret.DataError? ==> Run(blocks, old(View(inp[inStart..from])), inp[from..inPos]).place == Wrong
      ensures ret.StreamEnd? ==> pos == 0
      ensures ret.StreamEnd? ==> After(blocks, View(inp[inStart..inPos]), vli) == Run(blocks, old(View(inp[inStart..from])), inp[from..inPos])
    {
      hide Run;
      hide Crc32;
      hide After;
      hide Pow2;
      hide Feed;
      if pos == 0 { vli := 0; }
      inPos := from;
      ghost var s := View(inp[inStart..from]);
      NoneRun(blocks, s, inp, from);
      while inPos < |inp|
        invariant from <= inPos <= |inp| && Valid() && (pos == 0 ==> vli == 0)
        invariant View(inp[inStart..inPos]) == Run(blocks, s, inp[from..inPos])
      {
        var byte := inp[inPos];
        OneMore(blocks, s, inp, from, inPos);
        PendingMore(inp, inStart, inPos, crc);
        FeedDigit(blocks, View(inp[inStart..inPos]), byte);
        inPos := inPos + 1;
        vli := vli + byte % 128 * Pow2(pos);
        if byte < 128 {
          if byte == 0 && pos != 0 { return DataError, inPos; }
          pos := 0;
          return StreamEnd, inPos;
        }
        pos := pos + 7;
        if pos == 63 { return DataError, inPos; }
      }
      ret := Ok;
    }

    /** index_update: what is pending is accounted for. */
    method IndexUpdate(inp: seq<Byte>, inPos: nat)
      requires inStart <= inPos <= |inp|
      modifies `size, `crc
      ensures View([]) == old(View(inp[inStart..inPos])) && size == old(size) + (inPos - inStart)
    {
      size := size + (inPos - inStart);
      crc := Crc32(inp[inStart..inPos], crc);
      NonePending(crc);
    }

    /** dec_index: everything up to the padding. */
    method DecIndex(inp: seq<Byte>, from: nat) returns (ret: Ret, inPos: nat)
      requires Valid() && sequence.Index? && inStart <= from <= |inp|
      modifies `pos, `vli, `indexSequence, `count, `hash, `size, `crc
      ensures from <= inPos <= |inp|
      ensures ret.Ok? ==> Valid() && inPos == |inp| && View([]) == Run(blocks, old(View(inp[inStart..from])), inp[from..inPos])
      ensures ret.DataError? ==> Run(blocks, old(View(inp[inStart..from])), inp[from..inPos]).place == Wrong
      ensures ret.StreamEnd? ==> pos == 0
      ensures ret.StreamEnd? ==> Settle(blocks, View(inp[inStart..inPos])) == Run(blocks, old(View(inp[inStart..from])), inp[from..inPos])
    {
      hide Run;
      hide Crc32;
      hide Settle;
      hide Hashed;
      hide AddWrap;
      ghost var s := View(inp[inStart..from]);
      inPos := from;
      NoneRun(blocks, s, inp, from);
      while true
        invariant from <= inPos <= |inp| && Valid() && sequence.Index?
        invariant View(inp[inStart..inPos]) == Run(blocks, s, inp[from..inPos])
        decreases |inp| - inPos, if indexSequence.Count? then 1 else 0, count
      {
        ghost var at := inPos;
        ret, inPos := DecVli(inp, inPos);
        RunJoin(blocks, s, inp, from, at, inPos);
        if !ret.StreamEnd? {
          IndexUpdate(inp, inPos);
          return;
        }
        SettlePlace(blocks, View(inp[inStart..inPos]), vli);
        match indexSequence {
          case Count =>
            count := vli;
            if count != blocks.count { return DataError, inPos; }
            indexSequence := Unpadded;
          case Unpadded =>
            hash := hash.(unpadded := AddWrap(hash.unpadded, vli));
            indexSequence := Uncompressed;
          case Uncompressed =>
            hash := Hashed(hash, vli);
            count := count - 1;
            indexSequence := Unpadded;
        }
        if count == 0 { return StreamEnd, inPos; }
      }
    }

    /** crc_validate */
    method CrcValidate(inp: seq<Byte>, from: nat) returns (ret: Ret, inPos: nat)
      requires Valid() && sequence.IndexCrc32? && from <= |inp|
      modifies `pos, `crc
      ensures from <= inPos <= |inp|
      ensures ret.Ok? ==> Valid() && inPos == |inp| && View([]) == Run(blocks, old(View([])), inp[from..inPos])
      ensures ret.DataError? ==> Run(blocks, old(View([])), inp[from..inPos]).place == Wrong
      ensures ret.StreamEnd? ==> pos == 0 && View([]).(place := AtFooter) == Run(blocks, old(View([])), inp[from..inPos])
    {
      hide Run;
      hide Crc32;
      hide CheckByte;
      ghost var s := View([]);
      inPos := from;
      NoneRun(blocks, s, inp, from);
      NonePending(crc);
      while true
        invariant from <= inPos <= |inp| && Valid() && crc == old(crc)
        invariant View([]) == Run(blocks, s, inp[from..inPos])
        decreases |inp| - inPos
      {
        if inPos == |inp| { return Ok, inPos; }
        OneMore(blocks, s, inp, from, inPos);
        var byte := inp[inPos];
        inPos := inPos + 1;
        if CheckByte(crc, pos) != byte { return DataError, inPos; }
        pos := pos + 8;
        if pos == 32 { break; }
      }
      crc, pos := 0, 0;
      NonePending(crc);
      ret := StreamEnd;
    }

    /** The case of SEQ_INDEX_PADDING. */
    method Padding(inp: seq<Byte>, from: nat) returns (ret: Ret, inPos: nat)
      requires sequence.IndexPadding? && pos == 0 && inStart <= from <= |inp|
      modifies `sequence, `size, `crc
      ensures from <= inPos <= |inp|
      ensures ret.Ok? ==> Valid() && sequence.IndexPadding? && inPos == |inp|
      ensures ret.Ok? ==> View([]) == Run(blocks, Settle(blocks, old(View(inp[inStart..from]))), inp[from..inPos])
      ensures ret.DataError? ==> Run(blocks, Settle(blocks, old(View(inp[inStart..from]))), inp[from..inPos]).place == Wrong
      ensures ret.StreamEnd? ==> Valid() && sequence.IndexCrc32?
      ensures ret.StreamEnd? ==> View([]) == Run(blocks, Settle(blocks, old(View(inp[inStart..from]))), inp[from..inPos])
    {
      hide Run;
      hide Crc32;
      ghost var s := Settle(blocks, View(inp[inStart..from]));
      inPos := from;
      NoneRun(blocks, s, inp, from);
      while (size + (inPos - inStart)) % 4 != 0
        invariant from <= inPos <= |inp|
        invariant sequence.IndexPadding? && pos == 0 && size == old(size)
        invariant Settle(blocks, View(inp[inStart..inPos])) == Run(blocks, s, inp[from..inPos])
        decreases |inp| - inPos
      {
        if inPos == |inp| {
          SettleAgain(blocks, View(inp[inStart..inPos]));
          IndexUpdate(inp, inPos);
          return Ok, inPos;
        }
        OneMore(blocks, s, inp, from, inPos);
        PendingMore(inp, inStart, inPos, crc);
        var byte := inp[inPos];
        inPos := inPos + 1;
        if byte != 0 { return DataError, inPos; }
      }
      IndexUpdate(inp, inPos);
      if blocks.hash != hash { return DataError, inPos; }
      sequence := IndexCrc32;
      ret := StreamEnd;
    }

    /** The cases of dec_main from the Index indicator to the Index checksum. */
    method DecMain(inp: seq<Byte>) returns (ret: Ret, inPos: nat)
      requires Valid() && (sequence.BlockStart? && inp != [] ==> inp[0] == 0)
      modifies this
      ensures inPos <= |inp|
      ensures ret.Ok? ==> Valid() && inPos == |inp| && View([]) == Run(blocks, old(View([])), inp[..inPos]) && !Ended(View([]))
      ensures ret.StreamEnd? ==> Valid() && View([]) == Run(blocks, old(View([])), inp[..inPos]) && sequence.StreamFooter?
      ensures ret.DataError? ==> Run(blocks, old(View([])), inp[..inPos]).place == Wrong
    {
      hide Run;
      hide Crc32;
      hide Settle;
      hide Feed;
      ghost var s := View([]);
      inPos, inStart := 0, 0;
      NoneRun(blocks, s, inp, 0);
      assert inp[0..0] == [];
      if sequence.BlockStart? {
        if |inp| == 0 { return Ok, inPos; }
        Indicator(blocks, s, inp);
        NonePending(crc);
        inPos := inPos + 1;
        sequence := Index;
        assert View(inp[0..1]) == Run(blocks, s, inp[0..1]);
      }
      assert sequence.Index? ==> View(inp[0..inPos]) == Run(blocks, s, inp[0..inPos]);
      ghost var a := inPos;
      if sequence.Index? {
        ret, inPos := DecIndex(inp, inPos);
        RunJoin(blocks, s, inp, 0, a, inPos);
        assert inp[0..inPos] == inp[..inPos];
        if !ret.StreamEnd? { return; }
        SettleAny(blocks, View(inp[0..inPos]));
        sequence := IndexPadding;
      } else if sequence.IndexPadding? {
        SettleAgain(blocks, s);
      }
      a := inPos;
      if sequence.IndexPadding? {
        assert Settle(blocks, View(inp[0..inPos])) == Run(blocks, s, inp[0..inPos]);
        ret, inPos := Padding(inp, inPos);
        RunJoin(blocks, s, inp, 0, a, inPos);
        assert inp[0..inPos] == inp[..inPos];
        if !ret.StreamEnd? { return; }
      }
      a := inPos;
      if sequence.IndexCrc32? {
        ret, inPos := CrcValidate(inp, inPos);
        RunJoin(blocks, s, inp, 0, a, inPos);
        assert inp[0..inPos] == inp[..inPos];
        if !ret.StreamEnd? { return; }
        sequence := StreamFooter;
      }
      ret := StreamEnd;
    }
  }

  lemma FeedDigit(b: Blocks, s: State, x: Byte)
    requires InNumber(s)
    ensures x >= 128 && s.pos + 7 == 63 ==> Feed(b, s, x).place == Wrong
    ensures x >= 128 && s.pos + 7 != 63 ==> Feed(b, s, x) == Taken(s, x).(pos := s.pos + 7, vli := Grown(s, x))
    ensures x == 0 && s.pos != 0 ==> Feed(b, s, x).place == Wrong
    ensures x < 128 && (x > 0 || s.pos == 0) ==> Feed(b, s, x) == After(b, Taken(s, x).(pos := 0, vli := 0), Grown(s, x))
  {
    hide Crc32;
    hide After;
    hide Pow2;
  }

  /** Where a number ends the list, only what was read matters and not which number it was. */
  lemma SettlePlace(b: Blocks, s: State, v: nat)
    ensures s.place == AtCount && v == b.count == 0 ==> After(b, s, v) == Settle(b, s.(count := 0, place := AtUnpadded))
    ensures s.place == AtUncompressed && s.count == 1
        ==> After(b, s, v) == Settle(b, s.(hash := Hashed(s.hash, v), count := 0, place := AtUnpadded))
  {
    hide Hashed;
  }

  lemma RunJoin(b: Blocks, s: State, inp: seq<Byte>, i: nat, j: nat, k: nat)
    requires i <= j <= k <= |inp|
    ensures Run(b, s, inp[i..k]) == Run(b, Run(b, s, inp[i..j]), inp[j..k])
  {
    hide Feed;
    RunSplit(b, s, inp[i..j], inp[j..k]);
    assert inp[i..k] == inp[i..j] + inp[j..k];
  }

  lemma NoneRun(b: Blocks, s: State, inp: seq<Byte>, i: nat)
    requires i <= |inp|
    ensures Run(b, s, inp[i..i]) == s
  {}

  lemma Indicator(b: Blocks, s: State, inp: seq<Byte>)
    requires s.place == AtStart && inp != [] && inp[0] == 0
    ensures Run(b, s, inp[0..1]) == Taken(s, 0).(place := AtCount) && Crc32(inp[0..1], s.crc) == Crc32([0], s.crc)
  {
    hide Crc32;
    assert inp[0..1] == [0];
    assert Run(b, s, [0]) == Run(b, Feed(b, s, 0), []);
  }

  lemma SettleAny(b: Blocks, s: State)
    ensures forall p :: Settle(b, s.(place := p)) == Settle(b, s)
  {}

  lemma SettleAgain(b: Blocks, s: State)
    requires s.size % 4 != 0
    ensures Settle(b, s) == s.(place := AtPadding)
  {}
}
