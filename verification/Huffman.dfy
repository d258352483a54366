/** Canonical Huffman codes (section 3.2.2 of RFC 1951): the tables and the decoder. */
module Huffman {
  import opened Bytes
  import opened BitReader
  import opened Options

  const MAXBITS := 15
  const MAXCODES := 320

  // ---- the canonical code of a length vector ----

  /** How many of the first n symbols have a code of this length. */
  function Count(L: seq<nat>, n: nat, len: nat): (c: nat)
    requires n <= |L|
    ensures c <= n
  {
    if n == 0 then 0 else Count(L, n - 1, len) + if L[n - 1] == len then 1 else 0
  }

  function Total(L: seq<nat>, len: nat): nat { Count(L, |L|, len) }

  /** The first code of a length: one past the codes of the length before, with a zero appended. */
  function First(L: seq<nat>, len: nat): nat
  {
    if len <= 1 then 0 else 2 * (First(L, len - 1) + Total(L, len - 1))
  }

  /** Codes of one length are given out in the order of the symbols. */
  function Code(L: seq<nat>, s: nat): nat
    requires s < |L|
  {
    First(L, L[s]) + Count(L, s, L[s])
  }

  predicate Coded(L: seq<nat>, s: int) { 0 <= s < |L| && L[s] > 0 }

  /** Unused code space at a length. */
  function Left(L: seq<nat>, len: nat): int
  {
    if len == 0 then 1 else 2 * Left(L, len - 1) - Total(L, len)
  }

  ghost predicate Short(L: seq<nat>) { |L| <= MAXCODES && forall s :: 0 <= s < |L| ==> L[s] <= MAXBITS }

  /** Some length asks for more codes than are left. */
  ghost predicate Oversubscribed(L: seq<nat>)
  {
    exists len :: 0 <= len <= MAXBITS && Left(L, len) < 0
  }

  /** The number that n bits write, most significant first. */
  function Big(bits: seq<Bit>, p: nat, n: nat): (v: nat)
    requires p + n <= |bits|
    ensures v < Pow2(n)
    decreases n
  {
    if n == 0 then 0 else 2 * Big(bits, p, n - 1) + bits[p + n - 1]
  }

  /** The bits of a code of n bits, most significant first. */
  function Digits(v: nat, n: nat): (d: seq<Bit>)
    ensures |d| == n
    decreases n
  {
    if n == 0 then [] else Digits(v / 2, n - 1) + [v % 2]
  }

  function Codeword(L: seq<nat>, s: nat): (w: seq<Bit>)
    requires s < |L|
  {
    Digits(Code(L, s), L[s])
  }

  /** The code of symbol s stands at bit p. */
  ghost predicate CodeAt(L: seq<nat>, s: int, bits: seq<Bit>, p: nat)
  {
    Coded(L, s) && p + L[s] <= |bits| && Big(bits, p, L[s]) == Code(L, s)
  }

  // ---- counting ----

  lemma {:induction false} CountGrows(L: seq<nat>, s: nat, t: nat)
    requires s < t <= |L|
    ensures Count(L, s, L[s]) < Count(L, t, L[s])
    decreases t
  {
    if t > s + 1 { CountGrows(L, s, t - 1); }
  }

  lemma {:induction false} CountHit(L: seq<nat>, n: nat, len: nat, r: nat)
    requires n <= |L| && r < Count(L, n, len)
    ensures exists s :: 0 <= s < n && L[s] == len && Count(L, s, len) == r
  {
    if r == Count(L, n - 1, len) {
      assert L[n - 1] == len;
    } else {
      CountHit(L, n - 1, len, r);
    }
  }

  /** Code space: what is used and what is left make up all codes of a length. */
  lemma {:induction false} Kraft(L: seq<nat>, len: nat)
    requires len > 0
    ensures First(L, len) + Total(L, len) + Left(L, len) == Pow2(len)
  {
    if len == 1 {
      assert Left(L, 0) == 1 && Pow2(1) == 2 * Pow2(0);
    } else {
      Kraft(L, len - 1);
    }
  }

  /** Every symbol's code fits in its length exactly when code space suffices. */
  lemma CodeFits(L: seq<nat>, s: nat)
    requires Short(L) && !Oversubscribed(L) && Coded(L, s)
    ensures Code(L, s) < Pow2(L[s])
  {
    hide First;
    hide Left;
    hide Pow2;
    Kraft(L, L[s]);
    CountGrows(L, s, |L|);
  }

  // ---- no code begins another ----

  /** Below the codes that go on, and it stays below them. */
  lemma {:induction false} StaysBelow(L: seq<nat>, bits: seq<Bit>, p: nat, len: nat, more: nat)
    requires 0 < len < more && p + more <= |bits|
    requires Big(bits, p, len) < First(L, len) + Total(L, len)
    ensures Big(bits, p, more) < First(L, more)
    decreases more
  {
    if more > len + 1 { StaysBelow(L, bits, p, len, more - 1); }
  }

  /** At most one symbol's code stands at a place of the stream. */
  lemma OneSymbol(L: seq<nat>, bits: seq<Bit>, p: nat, s: nat, t: nat)
    requires CodeAt(L, s, bits, p) && CodeAt(L, t, bits, p)
    ensures s == t
  {
    hide First;
    hide Big;
    CountGrows(L, s, |L|);
    CountGrows(L, t, |L|);
    if L[s] < L[t] {
      StaysBelow(L, bits, p, L[s], L[t]);
    } else if L[t] < L[s] {
      StaysBelow(L, bits, p, L[t], L[s]);
    } else if s < t {
      CountGrows(L, s, t);
    } else if t < s {
      CountGrows(L, t, s);
    }
  }

  lemma {:induction false} BigDigits(v: nat, n: nat, bits: seq<Bit>, p: nat)
    requires v < Pow2(n) && p + n <= |bits| && bits[p..p + n] == Digits(v, n)
    ensures Big(bits, p, n) == v
    decreases n
  {
    if n > 0 {
      assert bits[p..p + (n - 1)] == bits[p..p + n][..n - 1] == Digits(v / 2, n - 1);
      BigDigits(v / 2, n - 1, bits, p);
      assert bits[p + n - 1] == bits[p..p + n][n - 1] == v % 2;
    }
  }

  /** A codeword in the stream stands for its symbol. */
  lemma CodewordAt(L: seq<nat>, s: nat, bits: seq<Bit>, p: nat)
    requires Short(L) && !Oversubscribed(L) && Coded(L, s)
    requires p + L[s] <= |bits| && bits[p..p + L[s]] == Codeword(L, s)
    ensures CodeAt(L, s, bits, p)
  {
    hide First;
    hide Big;
    hide Digits;
    hide Oversubscribed;
    CodeFits(L, s);
    BigDigits(Code(L, s), L[s], bits, p);
  }

  /** The code is prefix-free. */
  lemma PrefixFree(L: seq<nat>, s: nat, t: nat)
    requires Short(L) && !Oversubscribed(L) && Coded(L, s) && Coded(L, t) && s != t
    ensures !(Codeword(L, s) <= Codeword(L, t))
  {
    hide First;
    hide Code;
    hide Digits;
    hide Oversubscribed;
    var bits := Codeword(L, t);
    if Codeword(L, s) <= bits {
      assert bits[0..0 + L[s]] == Codeword(L, s);
      assert bits[0..0 + L[t]] == bits;
      CodewordAt(L, s, bits, 0);
      CodewordAt(L, t, bits, 0);
      OneSymbol(L, bits, 0, s, t);
    }
  }

  // ---- the tables ----

  /** How many of the first n symbols have a shorter code than this. */
  function Shorter(L: seq<nat>, n: nat, len: nat): (c: nat)
    requires n <= |L|
    ensures c <= n
  {
    if n == 0 then 0 else Shorter(L, n - 1, len) + if 0 < L[n - 1] < len then 1 else 0
  }

  /** Where the symbols of a length begin in the table, and where symbol s is. */
  function Start(L: seq<nat>, len: nat): nat { Shorter(L, |L|, len) }

  function Slot(L: seq<nat>, s: nat): nat
    requires s < |L|
  {
    Start(L, L[s]) + Count(L, s, L[s])
  }

  lemma {:induction false} ShorterNext(L: seq<nat>, n: nat, len: nat)
    requires n <= |L| && len > 0
    ensures Shorter(L, n, len + 1) == Shorter(L, n, len) + Count(L, n, len)
    decreases n
  {
    if n > 0 { ShorterNext(L, n - 1, len); }
  }

  lemma {:induction false} ShorterOne(L: seq<nat>, n: nat)
    requires n <= |L|
    ensures Shorter(L, n, 1) == 0
    decreases n
  {
    if n > 0 { ShorterOne(L, n - 1); }
  }

  lemma {:induction false} StartGrows(L: seq<nat>, len: nat, more: nat)
    requires 0 < len < more
    ensures Start(L, len) + Total(L, len) <= Start(L, more) <= |L|
    decreases more
  {
    if more > len + 1 {
      StartGrows(L, len, more - 1);
      ShorterNext(L, |L|, more - 1);
    } else {
      ShorterNext(L, |L|, len);
    }
  }

  /** A table slot for every coded symbol, and no two share one. */
  lemma Slots(L: seq<nat>, s: nat, t: nat)
    requires Coded(L, s) && Coded(L, t)
    ensures Slot(L, s) < |L| && (s != t ==> Slot(L, s) != Slot(L, t))
  {
    hide Count;
    hide Shorter;
    CountGrows(L, s, |L|);
    CountGrows(L, t, |L|);
    StartGrows(L, L[s], L[s] + 1);
    if L[s] < L[t] {
      StartGrows(L, L[s], L[t]);
    } else if L[t] < L[s] {
      StartGrows(L, L[t], L[s]);
    } else if s < t {
      CountGrows(L, s, t);
    } else if t < s {
      CountGrows(L, t, s);
    }
  }

  lemma NoneCounted(L: seq<nat>)
    ensures forall len :: Count(L, 0, len) == 0
    ensures Left(L, 0) == 1
  {}

  lemma OneCounted(L: seq<nat>, n: nat)
    requires n < |L|
    ensures forall len :: Count(L, n + 1, len) == Count(L, n, len) + if L[n] == len then 1 else 0
  {}

  lemma LeftNext(L: seq<nat>, len: nat)
    requires len > 0
    ensures Left(L, len) == 2 * Left(L, len - 1) - Total(L, len)
  {}

  lemma {:induction false} AllZero(L: seq<nat>, n: nat)
    requires n <= |L|
    ensures Count(L, n, 0) == n <==> forall i :: 0 <= i < n ==> L[i] == 0
    decreases n
  {
    if n > 0 { AllZero(L, n - 1); }
  }

  lemma {:induction false} NoneCoded(L: seq<nat>, len: nat)
    requires forall i :: 0 <= i < |L| ==> L[i] == 0
    ensures Left(L, len) > 0
    decreases len
  {
    if len > 0 {
      NoneCoded(L, len - 1);
      NoCount(L, |L|, len);
    }
  }

  lemma {:induction false} NoCount(L: seq<nat>, n: nat, len: nat)
    requires n <= |L| && len > 0 && forall i :: 0 <= i < |L| ==> L[i] == 0
    ensures Count(L, n, len) == 0
  {
    if n > 0 { NoCount(L, n - 1, len); }
  }

  /** The table that huff_build makes of a length vector. */
  ghost predicate Tabulates(count: seq<nat>, symbol: seq<nat>, L: seq<nat>)
  {
    && |count| == MAXBITS + 1 && |symbol| == MAXCODES
    && (forall len :: 1 <= len <= MAXBITS ==> count[len] == Total(L, len))
    && (forall s :: Coded(L, s) ==> Slot(L, s) < MAXCODES && symbol[Slot(L, s)] == s)
  }

  /** struct huffman */
  class Table {
    const count: array<nat>
    const symbol: array<nat>

    constructor ()
      ensures count.Length == MAXBITS + 1 && symbol.Length == MAXCODES
      ensures fresh(count) && fresh(symbol)
    {
      count := new nat[MAXBITS + 1];
      symbol := new nat[MAXCODES];
    }

    ghost predicate Valid()
      reads this
    {
      count != symbol && count.Length == MAXBITS + 1 && symbol.Length == MAXCODES
    }

    ghost predicate Holds(L: seq<nat>)
      reads this, count, symbol
    {
      Valid() && Short(L) && !Oversubscribed(L) && Tabulates(count[..], symbol[..], L)
    }

    /** huff_build: refuses exactly the length vectors that are too long or oversubscribed. */
    method Build(L: seq<nat>) returns (left: int)
      requires Valid() && |L| <= MAXCODES
      modifies count, symbol
      ensures left >= 0 <==> Short(L) && !Oversubscribed(L)
      ensures left >= 0 ==> Holds(L)
      ensures left >= 0 ==> left == if forall i :: 0 <= i < |L| ==> L[i] == 0 then 0 else Left(L, MAXBITS)
    {
      hide Count;
      hide Shorter;
      hide Left;
      hide Slot;
      forall k | 0 <= k < count.Length { count[k] := 0; }
      forall k | 0 <= k < symbol.Length { symbol[k] := 0; }
      var i := 0;
      NoneCounted(L);
      while i < |L|
        invariant 0 <= i <= |L|
        invariant forall s :: 0 <= s < i ==> L[s] <= MAXBITS
        invariant forall len :: 0 <= len <= MAXBITS ==> count[len] == Count(L, i, len)
      {
        if L[i] > MAXBITS { return -1; }
        OneCounted(L, i);
        count[L[i]] := count[L[i]] + 1;
        i := i + 1;
      }
      AllZero(L, |L|);
      if count[0] == |L| {
        forall len | 0 <= len <= MAXBITS ensures Left(L, len) > 0 { NoneCoded(L, len); }
        return 0;
      }
      left := 1;
      var len := 1;
      while len <= MAXBITS
        invariant 1 <= len <= MAXBITS + 1
        invariant left == Left(L, len - 1)
        invariant forall k :: 0 <= k < len ==> Left(L, k) >= 0
        invariant forall k :: 0 <= k <= MAXBITS ==> count[k] == Total(L, k)
      {
        LeftNext(L, len);
        left := 2 * left - count[len];
        if left < 0 { assert Left(L, len) < 0; return; }
        len := len + 1;
      }
      var offs := new nat[MAXBITS + 1];
      offs[1] := 0;
      ShorterOne(L, |L|);
      len := 1;
      while len < MAXBITS
        invariant 1 <= len <= MAXBITS
        invariant forall k :: 1 <= k <= len ==> offs[k] == Start(L, k)
        invariant forall k :: 0 <= k <= MAXBITS ==> count[k] == Total(L, k)
      {
        ShorterNext(L, |L|, len);
        offs[len + 1] := offs[len] + count[len];
        len := len + 1;
      }
      Fill(L, offs);
    }

    /** The last loop of huff_build. */
    method Fill(L: seq<nat>, offs: array<nat>)
      requires Valid() && Short(L) && offs != symbol && offs != count && offs.Length == MAXBITS + 1
      requires forall len :: 1 <= len <= MAXBITS ==> count[len] == Total(L, len) && offs[len] == Start(L, len)
      modifies symbol, offs
      ensures Tabulates(count[..], symbol[..], L)
    {
      var i := 0;
      while i < |L|
        invariant 0 <= i <= |L|
        invariant forall len :: 1 <= len <= MAXBITS ==> offs[len] == Start(L, len) + Count(L, i, len)
        invariant forall s :: Coded(L, s) && s < i ==> Slot(L, s) < MAXCODES && symbol[Slot(L, s)] == s
      {
        if L[i] != 0 {
          Slots(L, i, i);
          forall s | Coded(L, s) ensures Slot(L, s) < |L| && (s != i ==> Slot(L, s) != Slot(L, i)) { Slots(L, s, i); }
          symbol[offs[L[i]]] := i;
          offs[L[i]] := offs[L[i]] + 1;
        }
        i := i + 1;
      }
    }

    /** huff_decode: the one symbol whose code stands next, or failure when there is none. */
    method Decode(br: Reader, ghost L: seq<nat>) returns (ok: bool, sym: nat)
      requires Holds(L) && br.Valid()
      modifies br`pos, br`bitbuf, br`bitcnt
      ensures ok <==> exists s :: CodeAt(L, s, br.Bits(), old(br.At()))
      ensures ok ==> br.Valid() && CodeAt(L, sym, br.Bits(), old(br.At())) && br.At() == old(br.At()) + L[sym]
    {
      hide First;
      hide Big;
      hide Code;
      hide Shorter;
      hide Count;
      hide Oversubscribed;
      hide Value;
      hide Unpack;
      hide Short;
      var code, first, index := 0, 0, 0;
      ghost var at, bits := br.At(), br.Bits();
      Begin(L, bits, at);
      var len := 1;
      while len <= MAXBITS
        invariant 1 <= len <= MAXBITS + 1
        invariant br.Valid() && br.At() == at + len - 1 <= |bits|
        invariant code == 2 * Big(bits, at, len - 1) && first == First(L, len) && index == Start(L, len)
        invariant code >= first
        invariant forall s :: CodeAt(L, s, bits, at) ==> L[s] >= len
      {
        var more, bit := br.GetBits(1);
        if !more {
          forall s | CodeAt(L, s, bits, at) ensures false {}
          return false, 0;
        }
        code := code + bit;
        NextBit(L, bits, at, len);
        var count := count[len];
        if code >= first && code - first < count {
          HitSymbol(L, bits, at, len);
          return true, symbol[index + (code - first)];
        }
        MissSymbol(L, bits, at, len);
        index := index + count;
        first := first + count;
        first := 2 * first;
        code := 2 * code;
        len := len + 1;
      }
      forall s | CodeAt(L, s, bits, at) ensures false { LengthBound(L, s); }
      return false, 0;
    }
  }

  lemma Begin(L: seq<nat>, bits: seq<Bit>, p: nat)
    requires p <= |bits|
    ensures Big(bits, p, 0) == 0 && First(L, 1) == 0 && Start(L, 1) == 0
  {
    ShorterOne(L, |L|);
  }

  /** What one more bit does to the three running numbers of the decoder. */
  lemma NextBit(L: seq<nat>, bits: seq<Bit>, p: nat, len: nat)
    requires len > 0 && p + len <= |bits|
    ensures Value(bits, p + len - 1, 1) == bits[p + len - 1]
    ensures Big(bits, p, len) == 2 * Big(bits, p, len - 1) + bits[p + len - 1]
    ensures First(L, len + 1) == 2 * (First(L, len) + Total(L, len))
    ensures Start(L, len + 1) == Start(L, len) + Total(L, len)
  {
    assert Value(bits, p + len, 0) == 0;
    ShorterNext(L, |L|, len);
  }

  lemma LengthBound(L: seq<nat>, s: int)
    requires Short(L) && Coded(L, s)
    ensures L[s] <= MAXBITS
  {}

  /** A code of this length in range is some symbol's, and the table has it at its place. */
  lemma HitSymbol(L: seq<nat>, bits: seq<Bit>, p: nat, len: nat)
    requires len > 0 && p + len <= |bits| && First(L, len) <= Big(bits, p, len) < First(L, len) + Total(L, len)
    ensures exists s :: CodeAt(L, s, bits, p) && L[s] == len && Slot(L, s) == Start(L, len) + (Big(bits, p, len) - First(L, len))
  {
    hide First;
    hide Big;
    hide Shorter;
    CountHit(L, |L|, len, Big(bits, p, len) - First(L, len));
    var s :| 0 <= s < |L| && L[s] == len && Count(L, s, len) == Big(bits, p, len) - First(L, len);
    assert CodeAt(L, s, bits, p);
  }

  lemma MissSymbol(L: seq<nat>, bits: seq<Bit>, p: nat, len: nat)
    requires len > 0 && p + len <= |bits| && Big(bits, p, len) >= First(L, len) + Total(L, len)
    ensures forall s :: CodeAt(L, s, bits, p) ==> L[s] != len
  {
    hide First;
    hide Big;
    forall s | CodeAt(L, s, bits, p) && L[s] == len ensures false { CountGrows(L, s, |L|); }
  }
}
