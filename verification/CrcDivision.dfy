/** The checksum as a remainder: CRC32 is the division of the message, as a polynomial over two elements, by
    x^32 + x^26 + x^23 + x^22 + x^16 + x^12 + x^11 + x^10 + x^8 + x^7 + x^5 + x^4 + x^2 + x + 1.
    Polynomials are sequences of coefficients, the highest first. */
module CrcDivision {
  import opened Bytes
  import opened BitReader
  import opened Crc
  import opened DeflateWrite

  // ---- polynomials ----

  function Nulls(n: nat): (z: seq<Bit>)
    ensures |z| == n && forall i | 0 <= i < n :: z[i] == 0
  {
    seq(n, _ => 0)
  }

  function Plus(a: seq<Bit>, b: seq<Bit>): (c: seq<Bit>)
    requires |a| == |b|
    ensures |c| == |a| && forall i | 0 <= i < |c| :: c[i] == if a[i] == b[i] then 0 else 1
  {
    seq(|a|, (i: nat) requires i < |a| => if a[i] == b[i] then 0 else 1)
  }

  function Generator(): (g: seq<Bit>)
    ensures |g| == 33
  {
    seq(33, (i: nat) => if 32 - i in {32, 26, 23, 22, 16, 12, 11, 10, 8, 7, 5, 4, 2, 1, 0} then 1 else 0)
  }

  /** Long division: what is left of p when multiples of the generator have cleared all but 32 coefficients. */
  function Remainder(p: seq<Bit>): (r: seq<Bit>)
    requires |p| >= 32
    ensures |r| == 32
    decreases |p|
  {
    if |p| == 32 then p
    else if p[0] == 0 then Remainder(p[1..])
    else Remainder((Plus(p[..33], Generator()) + p[33..])[1..])
  }

  /** The bytes' bits, the lowest of each byte first. */
  function Message(s: seq<Byte>): (m: seq<Bit>)
    ensures |m| == 8 * |s|
    decreases |s|
  {
    if s == [] then [] else LowBits(s[0], 8) + Message(s[1..])
  }

  // ---- a register that divides bit by bit ----

  function Shift(r: seq<Bit>): (t: seq<Bit>)
    requires |r| == 32
    ensures |t| == 32
  {
    r[1..] + [0]
  }

  function Turn(r: seq<Bit>): (t: seq<Bit>)
    requires |r| == 32
    ensures |t| == 32
  {
    if r[0] == 1 then Plus(Shift(r), Generator()[1..]) else Shift(r)
  }

  function Turns(r: seq<Bit>, k: nat): (t: seq<Bit>)
    requires |r| == 32
    ensures |t| == 32
    decreases k
  {
    if k == 0 then r else Turns(Turn(r), k - 1)
  }

  function Feed(r: seq<Bit>, m: seq<Bit>): (t: seq<Bit>)
    requires |r| == 32
    ensures |t| == 32
    decreases |m|
  {
    if m == [] then r else Feed(Turn(Plus(r, [m[0]] + Nulls(31))), m[1..])
  }

  /** The message with 32 zeros after it, the register added to its beginning. */
  function Dividend(r: seq<Bit>, m: seq<Bit>): (p: seq<Bit>)
    requires |r| == 32
    ensures |p| == |m| + 32
  {
    Plus(r + Nulls(|m|), m + Nulls(32))
  }

  lemma DividendStep(r: seq<Bit>, m: seq<Bit>)
    requires |r| == 32 && m != []
    ensures var p, q := Dividend(r, m), Dividend(Turn(Plus(r, [m[0]] + Nulls(31))), m[1..]);
      q == if p[0] == 0 then p[1..] else (Plus(p[..33], Generator()) + p[33..])[1..]
  {
    hide Generator;
    var p, t := Dividend(r, m), Plus(r, [m[0]] + Nulls(31));
    var q := Dividend(Turn(t), m[1..]);
    assert p[0] == t[0];
    if p[0] == 0 {
      assert q == p[1..];
    } else {
      var d := (Plus(p[..33], Generator()) + p[33..])[1..];
      forall i | 0 <= i < |q| ensures q[i] == d[i] {
        assert p[i + 1] == if (r + Nulls(|m|))[i + 1] == (m + Nulls(32))[i + 1] then 0 else 1;
      }
    }
  }

  lemma {:induction false} Divides(r: seq<Bit>, m: seq<Bit>)
    requires |r| == 32
    ensures Feed(r, m) == Remainder(Dividend(r, m))
    decreases |m|
  {
    hide Turn, Generator;
    if m == [] {
      assert Dividend(r, m) == r;
    } else {
      DividendStep(r, m);
      Divides(Turn(Plus(r, [m[0]] + Nulls(31))), m[1..]);
    }
  }

  lemma {:induction false} FeedSplit(r: seq<Bit>, a: seq<Bit>, b: seq<Bit>)
    requires |r| == 32
    ensures Feed(r, a + b) == Feed(Feed(r, a), b)
    decreases |a|
  {
    hide Turn;
    if a == [] {
      assert a + b == b;
    } else {
      assert (a + b)[1..] == a[1..] + b;
      FeedSplit(Turn(Plus(r, [a[0]] + Nulls(31))), a[1..], b);
    }
  }

  // ---- eight bits at once ----

  /** What does not come out yet is only shifted. */
  lemma TurnShift(q: seq<Bit>, s: seq<Bit>)
    requires |q| == |s| == 32 && s[0] == 0
    ensures Turn(Plus(q, s)) == Plus(Turn(q), Shift(s))
  {
    hide Generator;
  }

  lemma {:induction false} TurnsShift(q: seq<Bit>, s: seq<Bit>, k: nat)
    requires |q| == |s| == 32 && k <= 32 && s[..k] == Nulls(k)
    ensures Turns(Plus(q, s), k) == Plus(Turns(q, k), s[k..] + Nulls(k))
    decreases k
  {
    hide Turn;
    if k == 0 {
      assert s[0..] + Nulls(0) == s;
    } else {
      assert s[0] == s[..k][0];
      TurnShift(q, s);
      var t := Shift(s);
      forall i | 0 <= i < k - 1 ensures t[i] == 0 { assert s[i + 1] == s[..k][i + 1]; }
      assert t[..k - 1] == Nulls(k - 1);
      TurnsShift(Turn(q), t, k - 1);
      assert t[k - 1..] + Nulls(k - 1) == s[k..] + Nulls(k);
    }
  }

  /** Up to 32 bits may all be added before the first turn. */
  lemma {:induction false} FeedAll(r: seq<Bit>, m: seq<Bit>)
    requires |r| == 32 && |m| <= 32
    ensures Feed(r, m) == Turns(Plus(r, m + Nulls(32 - |m|)), |m|)
    decreases |m|
  {
    hide Turn;
    if m == [] {
      assert Plus(r, m + Nulls(32)) == r;
    } else {
      var first, rest := [m[0]] + Nulls(31), [0] + m[1..] + Nulls(32 - |m|);
      var q := Plus(r, first);
      assert Plus(r, m + Nulls(32 - |m|)) == Plus(q, rest);
      TurnShift(q, rest);
      assert Shift(rest) == m[1..] + Nulls(32 - (|m| - 1));
      FeedAll(Turn(q), m[1..]);
    }
  }

  // ---- numbers and their bits ----

  lemma {:induction false} XorBits(a: nat, b: nat, n: nat)
    ensures LowBits(Xor(a, b), n) == Plus(LowBits(a, n), LowBits(b, n))
    decreases n
  {
    if n > 0 {
      XorHalves(a, b);
      XorBits(a / 2, b / 2, n - 1);
    }
  }

  lemma XorHalves(a: nat, b: nat)
    ensures Xor(a, b) % 2 == (if a % 2 == b % 2 then 0 else 1) && Xor(a, b) / 2 == Xor(a / 2, b / 2)
  {
    XorOnce(a, b);
    hide Xor;
    if a == 0 {
      XorOnce(a / 2, b / 2);
    } else {
      Parity(a, b);
      Halves((a + b) % 2, Xor(a / 2, b / 2));
    }
  }

  lemma XorOnce(a: nat, b: nat)
    ensures Xor(a, b) == if a == 0 then b else (a + b) % 2 + 2 * Xor(a / 2, b / 2)
  {}

  lemma Parity(a: nat, b: nat)
    ensures (a + b) % 2 == if a % 2 == b % 2 then 0 else 1
  {}

  lemma Halves(b: nat, x: nat)
    requires b < 2
    ensures (b + 2 * x) % 2 == b && (b + 2 * x) / 2 == x
  {}

  lemma {:induction false} TopBit(v: nat, n: nat, k: nat)
    requires v < Pow2(n)
    ensures LowBits(v, n + k) == LowBits(v, n) + Nulls(k)
    decreases n
  {
    if n > 0 {
      TopBit(v / 2, n - 1, k);
    } else {
      ZeroBits(k);
    }
  }

  lemma {:induction false} ZeroBits(k: nat)
    ensures LowBits(0, k) == Nulls(k)
  {
    if k > 0 { ZeroBits(k - 1); }
  }

  lemma HalfBits(r: Word)
    ensures LowBits(r / 2, 32) == Shift(LowBits(r, 32)) && LowBits(r, 32)[0] == r % 2
  {
    Pow2Word();
    assert Pow2(32) == 2 * Pow2(31);
    TopBit(r / 2, 31, 1);
    assert LowBits(r, 32) == [r % 2] + LowBits(r / 2, 31);
  }

  lemma NextBit(x: nat, half: nat, n: nat)
    requires half == x / 2
    ensures LowBits(x, n + 1) == [x % 2] + LowBits(half, n)
  {}

  /** Eight bits by halving. */
  lemma EightBits(x: nat, b: seq<nat>)
    requires |b| == 8 && b[0] == x && forall i | 0 <= i < 7 :: b[i + 1] == b[i] / 2
    ensures LowBits(x, 8) == [b[0] % 2, b[1] % 2, b[2] % 2, b[3] % 2, b[4] % 2, b[5] % 2, b[6] % 2, b[7] % 2]
  {
    NextBit(b[0], b[1], 7);
    NextBit(b[1], b[2], 6);
    NextBit(b[2], b[3], 5);
    NextBit(b[3], b[4], 4);
    NextBit(b[4], b[5], 3);
    NextBit(b[5], b[6], 2);
    NextBit(b[6], b[7], 1);
    assert LowBits(b[7], 1) == [b[7] % 2] + LowBits(b[7] / 2, 0);
    hide LowBits;
  }

  lemma ConstantBytes()
    ensures LowBits(0x20, 8) == [0, 0, 0, 0, 0, 1, 0, 0] && LowBits(0x83, 8) == [1, 1, 0, 0, 0, 0, 0, 1]
    ensures LowBits(0xB8, 8) == [0, 0, 0, 1, 1, 1, 0, 1] && LowBits(0xED, 8) == [1, 0, 1, 1, 0, 1, 1, 1]
  {
    hide LowBits;
    EightBits(0x20, [0x20, 0x10, 8, 4, 2, 1, 0, 0]);
    EightBits(0x83, [0x83, 0x41, 0x20, 0x10, 8, 4, 2, 1]);
    EightBits(0xB8, [0xB8, 0x5C, 0x2E, 0x17, 0xB, 5, 2, 1]);
    EightBits(0xED, [0xED, 0x76, 0x3B, 0x1D, 0xE, 7, 3, 1]);
  }

  /** The constant of the code has the generator's coefficients below the highest. */
  lemma ConstantBits()
    ensures LowBits(0xEDB88320, 32) == Generator()[1..]
  {
    ConstantBytes();
    FourBytes(0x20, 0x83, 0xB8, 0xED);
    hide LowBits;
    assert LowBits(0xEDB88320, 32) == LowBits(0x20, 8) + (LowBits(0x83, 8) + (LowBits(0xB8, 8) + LowBits(0xED, 8)));
  }

  lemma DoubleAdd(x: nat, z: nat)
    ensures (x + 2 * z) % 2 == x % 2 && (x + 2 * z) / 2 == x / 2 + z
  {}

  lemma {:induction false} LowBitsSplit(x: nat, y: nat, n: nat, k: nat)
    requires x < Pow2(n)
    ensures LowBits(x + Pow2(n) * y, n + k) == LowBits(x, n) + LowBits(y, k)
    decreases n
  {
    if n > 0 {
      assert Pow2(n) * y == 2 * (Pow2(n - 1) * y);
      DoubleAdd(x, Pow2(n - 1) * y);
      LowBitsSplit(x / 2, y, n - 1, k);
    }
  }

  /** A byte below more of them. */
  lemma LowByte(a: Byte, rest: nat, k: nat)
    ensures LowBits(a + 256 * rest, 8 + k) == LowBits(a, 8) + LowBits(rest, k)
  {
    Pow2Eight();
    hide Pow2, LowBits;
    LowBitsSplit(a, rest, 8, k);
  }

  lemma FourBytes(a: Byte, b: Byte, c: Byte, d: Byte)
    ensures LowBits(a + 256 * (b + 256 * (c + 256 * d)), 32) == LowBits(a, 8) + (LowBits(b, 8) + (LowBits(c, 8) + LowBits(d, 8)))
  {
    hide LowBits;
    LowByte(c, d, 8);
    LowByte(b, c + 256 * d, 16);
    LowByte(a, b + 256 * (c + 256 * d), 24);
  }

  lemma {:induction false} RoundsBits(r: Word, k: nat)
    ensures LowBits(Rounds(r, k), 32) == Turns(LowBits(r, 32), k)
    decreases k
  {
    hide Generator, LowBits, Xor;
    if k > 0 {
      HalfBits(r);
      ConstantBits();
      XorBits(r / 2, 0xEDB88320, 32);
      RoundsBits(if r % 2 == 1 then XorWord(r / 2, 0xEDB88320) else r / 2, k - 1);
    }
  }

  /** The register's bits, below and above the eighth. */
  lemma ByteParts(crc: Word)
    ensures var r := LowBits(crc, 32);
      LowBits(crc % 256, 8) == r[..8] && LowBits(crc / 256, 32) == r[8..] + Nulls(8)
  {
    Pow2Eight();
    Pow2Word();
    PowSplit(8, 24);
    LowBitsSplit(crc % 256, crc / 256, 8, 24);
    TopBit(crc / 256, 24, 8);
  }

  lemma {:induction false} PowSplit(m: nat, n: nat)
    ensures Pow2(m + n) == Pow2(m) * Pow2(n)
    decreases m
  {
    if m > 0 { PowSplit(m - 1, n); }
  }

  /** One byte through the table is eight bits through the register. */
  lemma StepBits(crc: Word, x: Byte)
    ensures LowBits(Step(crc, x), 32) == Feed(LowBits(crc, 32), LowBits(x, 8))
  {
    hide Turn, Turns, Feed, LowBits, Rounds, Xor, Generator;
    var r, m := LowBits(crc, 32), LowBits(x, 8);
    var low := Plus(m, r[..8]) + Nulls(24);
    var high := Nulls(8) + r[8..];
    FeedAll(r, m);
    assert Plus(r, m + Nulls(24)) == Plus(low, high);
    assert high[..8] == Nulls(8) && high[8..] == r[8..];
    TurnsShift(low, high, 8);
    ByteParts(crc);
    Pow2Eight();
    XorBits(x, crc % 256, 8);
    XorBits(x, crc % 256, 32);
    TopBit(x, 8, 24);
    TopBit(crc % 256, 8, 24);
    assert LowBits(XorWord(x, crc % 256), 32) == low;
    RoundsBits(XorWord(x, crc % 256), 8);
    XorBits(Rounds(XorWord(x, crc % 256), 8), crc / 256, 32);
  }

  lemma {:induction false} FoldBits(crc: Word, s: seq<Byte>)
    ensures LowBits(Fold(crc, s), 32) == Feed(LowBits(crc, 32), Message(s))
    decreases |s|
  {
    hide Step, Feed, LowBits;
    if s == [] {
      FeedNone(LowBits(crc, 32));
    } else {
      StepBits(crc, s[0]);
      FoldBits(Step(crc, s[0]), s[1..]);
      FeedSplit(LowBits(crc, 32), LowBits(s[0], 8), Message(s[1..]));
    }
  }

  lemma FeedNone(r: seq<Bit>)
    requires |r| == 32
    ensures Feed(r, []) == r
  {}

  // ---- the checksum ----

  function Flip(a: seq<Bit>): (c: seq<Bit>)
    ensures |c| == |a|
  {
    seq(|a|, (i: nat) requires i < |a| => 1 - a[i])
  }

  lemma {:induction false} NotBits(x: nat, n: nat)
    requires x < Pow2(n)
    ensures LowBits(Pow2(n) - 1 - x, n) == Flip(LowBits(x, n))
    decreases n
  {
    if n > 0 {
      NotBits(x / 2, n - 1);
      assert (Pow2(n) - 1 - x) / 2 == Pow2(n - 1) - 1 - x / 2 && (Pow2(n) - 1 - x) % 2 == 1 - x % 2;
    }
  }

  /** CRC32 of a message: the remainder of its division, the first 32 coefficients and the result complemented. */
  lemma CrcDivides(s: seq<Byte>)
    ensures LowBits(Crc32(s, 0), 32) == Flip(Remainder(Dividend(Flip(Nulls(32)), Message(s))))
  {
    hide Fold, LowBits, Remainder, Feed;
    var crc := Not(0);
    Pow2Word();
    NotBits(0, 32);
    ZeroBits(32);
    FoldBits(crc, s);
    Divides(LowBits(crc, 32), Message(s));
    NotBits(Fold(crc, s), 32);
  }
}
