/** Debian version numbers: the character-by-character comparison is the order of the keys of section 5.6.12
    of the Debian Policy Manual. */
module DebVersion {

  predicate IsDigit(c: char) { '0' <= c <= '9' }
  predicate IsAlpha(c: char) { 'A' <= c <= 'Z' || 'a' <= c <= 'z' }

  /** A C string holds no NUL. */
  predicate IsText(s: string) { forall c | c in s :: c != '\0' }

  /** The character at i, or the terminator. */
  function At(s: string, i: nat): char { if i < |s| then s[i] else '\0' }

  /** order_char: digits have their own code, though Policy would rank them with the end. */
  function Order(c: char): int {
    if c == '\0' then 0 else if c == '~' then -1
    else if IsDigit(c) || IsAlpha(c) then c as int else c as int + 256
  }

  function DigitValue(c: char): nat
    requires IsDigit(c)
  {
    c as int - '0' as int
  }

  // ---- keys ----

  /** End of the run of digits at i. */
  function RunEnd(s: string, i: nat): (e: nat)
    requires i <= |s|
    ensures i <= e <= |s| && (forall k | i <= k < e :: IsDigit(s[k])) && !IsDigit(At(s, e))
    ensures i < |s| && IsDigit(s[i]) ==> e > i
    decreases |s| - i
  {
    if i < |s| && IsDigit(s[i]) then RunEnd(s, i + 1) else i
  }

  /** The number that the digits in [i, j) write. */
  function Number(s: string, i: nat, j: nat): nat
    requires i <= j <= |s| && forall k | i <= k < j :: IsDigit(s[k])
    decreases j
  {
    if i == j then 0 else Number(s, i, j - 1) * 10 + DigitValue(s[j - 1])
  }

  /** The sort key from position i on: ranks of characters, 0 for the end of a non-digit part, then the number.
      Keys are compared with zeros after their end. */
  function Key(s: string, i: nat := 0): seq<int>
    requires i <= |s|
    decreases |s| - i
  {
    if i == |s| then []
    else if !IsDigit(s[i]) then [Order(s[i])] + Key(s, i + 1)
    else [0, Number(s, i, RunEnd(s, i))] + Key(s, RunEnd(s, i))
  }

  function Head(k: seq<int>): int { if k == [] then 0 else k[0] }
  function Tail(k: seq<int>): seq<int> { if k == [] then [] else k[1..] }
  function Sign(x: int, y: int): int { if x < y then -1 else if x > y then 1 else 0 }

  /** Lexicographic order of keys padded with zeros. */
  function Compare(k: seq<int>, l: seq<int>): int
    decreases |k| + |l|
  {
    if k == [] && l == [] then 0
    else if Head(k) != Head(l) then Sign(Head(k), Head(l))
    else Compare(Tail(k), Tail(l))
  }

  lemma {:induction false} CompareSelf(k: seq<int>)
    ensures Compare(k, k) == 0
  {
    if k != [] { CompareSelf(Tail(k)); }
  }

  lemma {:induction false} CompareFlip(k: seq<int>, l: seq<int>)
    ensures Compare(l, k) == -Compare(k, l)
    decreases |k| + |l|
  {
    if k != [] || l != [] { CompareFlip(Tail(k), Tail(l)); }
  }

  lemma {:induction false} CompareTrans(k: seq<int>, l: seq<int>, m: seq<int>)
    requires Compare(k, l) <= 0 && Compare(l, m) <= 0
    ensures Compare(k, m) <= 0
    ensures Compare(k, m) == 0 ==> Compare(k, l) == 0 && Compare(l, m) == 0
    decreases |k| + |l| + |m|
  {
    if k != [] || l != [] || m != [] {
      if Head(k) == Head(l) == Head(m) { CompareTrans(Tail(k), Tail(l), Tail(m)); }
      if k == [] && m == [] {
        if Head(l) == 0 { CompareTrans([], Tail(l), []); } 
      }
    }
  }

  // ---- numbers ----

  /** Digits that begin with zeros, or are cut into two runs. */
  lemma {:induction false} NumberSkip(s: string, i: nat, z: nat, j: nat)
    requires i <= z <= j <= |s| && (forall k | i <= k < j :: IsDigit(s[k])) && forall k | i <= k < z :: s[k] == '0'
    ensures Number(s, i, j) == Number(s, z, j)
    decreases j
  {
    if z < j {
      NumberSkip(s, i, z, j - 1);
    } else if i < j {
      NumberSkip(s, i, z - 1, j - 1);
    }
  }

  /** Once the leading parts differ, as many digits more do not change which number is less. */
  lemma {:induction false} NumberLess(a: string, i: nat, p: nat, b: string, j: nat, q: nat, n: nat)
    requires i <= p && p + n <= |a| && j <= q && q + n <= |b|
    requires (forall k | i <= k < p + n :: IsDigit(a[k])) && (forall k | j <= k < q + n :: IsDigit(b[k]))
    requires Number(a, i, p) < Number(b, j, q)
    ensures Number(a, i, p + n) < Number(b, j, q + n)
  {
    if n > 0 { NumberLess(a, i, p, b, j, q, n - 1); }
  }

  lemma {:induction false} NumberSame(a: string, i: nat, b: string, j: nat, n: nat)
    requires i + n <= |a| && j + n <= |b| && a[i..i + n] == b[j..j + n]
    requires (forall k | i <= k < i + n :: IsDigit(a[k])) && (forall k | j <= k < j + n :: IsDigit(b[k]))
    ensures Number(a, i, i + n) == Number(b, j, j + n)
  {
    if n > 0 {
      assert a[i..i + n][n - 1] == b[j..j + n][n - 1];
      assert a[i..i + (n - 1)] == a[i..i + n][..n - 1] && b[j..j + (n - 1)] == b[j..j + n][..n - 1];
      NumberSame(a, i, b, j, n - 1);
    }
  }

  lemma {:induction false} NumberGrows(b: string, j: nat, q: nat, n: nat)
    requires j <= q && q + n <= |b| && forall k | j <= k < q + n :: IsDigit(b[k])
    ensures Number(b, j, q) <= Number(b, j, q + n)
  {
    if n > 0 { NumberGrows(b, j, q, n - 1); }
  }

  /** More digits, none of them a leading zero, make a larger number. */
  lemma LongerIsMore(a: string, i: nat, la: nat, b: string, j: nat, lb: nat)
    requires la < lb && i + la <= |a| && j + lb <= |b| && b[j] != '0'
    requires (forall k | i <= k < i + la :: IsDigit(a[k])) && (forall k | j <= k < j + lb :: IsDigit(b[k]))
    ensures Number(a, i, i + la) < Number(b, j, j + lb)
  {
    assert Number(b, j, j + 1) == Number(b, j, j) * 10 + DigitValue(b[j]);
    NumberLess(a, i, i, b, j, j + 1, la);
    NumberGrows(b, j, j + 1 + la, lb - la - 1);
  }

  /** strncmp over n digits that differ first at k. */
  lemma FirstDifference(a: string, i: nat, b: string, j: nat, n: nat, k: nat)
    requires k < n && i + n <= |a| && j + n <= |b| && a[i..i + k] == b[j..j + k]
    requires (forall x | i <= x < i + n :: IsDigit(a[x])) && (forall x | j <= x < j + n :: IsDigit(b[x]))
    requires a[i + k] < b[j + k]
    ensures Number(a, i, i + n) < Number(b, j, j + n)
  {
    NumberSame(a, i, b, j, k);
    assert Number(a, i, i + k + 1) == Number(a, i, i + k) * 10 + DigitValue(a[i + k]);
    assert Number(b, j, j + k + 1) == Number(b, j, j + k) * 10 + DigitValue(b[j + k]);
    NumberLess(a, i, i + k + 1, b, j, j + k + 1, n - k - 1);
  }

  // ---- the comparison ----

  /** Value of the run of digits at i, 0 if there is none. */
  function RunValue(s: string, i: nat): nat
    requires i <= |s|
  {
    Number(s, i, RunEnd(s, i))
  }

  lemma KeyAtDigits(s: string, i: nat)
    requires i <= |s| && (i < |s| ==> IsDigit(s[i]))
    ensures Head(Key(s, i)) == 0 && Head(Tail(Key(s, i))) == RunValue(s, i)
    ensures Tail(Tail(Key(s, i))) == Key(s, RunEnd(s, i))
    ensures Key(s, i) == [] ==> Key(s, RunEnd(s, i)) == [] && RunValue(s, i) == 0
  {
    if i < |s| {
      assert Tail(Key(s, i)) == [RunValue(s, i)] + Key(s, RunEnd(s, i));
    }
  }

  /** At digits, or at the end, on both sides: the numbers decide, or else what follows. */
  lemma NumbersDecide(a: string, i: nat, b: string, j: nat)
    requires i <= |a| && j <= |b| && (i < |a| ==> IsDigit(a[i])) && (j < |b| ==> IsDigit(b[j]))
    ensures Compare(Key(a, i), Key(b, j)) ==
      if RunValue(a, i) != RunValue(b, j) then Sign(RunValue(a, i), RunValue(b, j))
      else Compare(Key(a, RunEnd(a, i)), Key(b, RunEnd(b, j)))
  {
    KeyAtDigits(a, i);
    KeyAtDigits(b, j);
    hide Key, RunValue, RunEnd, Head, Tail;
    TwoSteps(Key(a, i), Key(b, j));
  }

  lemma TwoSteps(k: seq<int>, l: seq<int>)
    requires Head(k) == 0 && Head(l) == 0
    ensures Compare(k, l) ==
      if Head(Tail(k)) != Head(Tail(l)) then Sign(Head(Tail(k)), Head(Tail(l))) else Compare(Tail(Tail(k)), Tail(Tail(l)))
  {
    assert Compare(k, l) == Compare(Tail(k), Tail(l));
  }

  /** A character that is no digit on one side at least: ranks decide, whatever rank a digit has. */
  lemma CharsDecide(a: string, i: nat, b: string, j: nat)
    requires IsText(a) && IsText(b) && i <= |a| && j <= |b|
    requires (i < |a| && !IsDigit(a[i])) || (j < |b| && !IsDigit(b[j]))
    ensures Order(At(a, i)) != Order(At(b, j)) ==>
      Compare(Key(a, i), Key(b, j)) == Sign(Order(At(a, i)), Order(At(b, j)))
    ensures Order(At(a, i)) == Order(At(b, j)) ==>
      i < |a| && j < |b| && Compare(Key(a, i), Key(b, j)) == Compare(Key(a, i + 1), Key(b, j + 1))
  {
    assert i < |a| ==> a[i] in a;
    assert j < |b| ==> b[j] in b;
    if i < |a| && !IsDigit(a[i]) { assert Tail(Key(a, i)) == Key(a, i + 1); }
    if j < |b| && !IsDigit(b[j]) { assert Tail(Key(b, j)) == Key(b, j + 1); }
  }

  /** Past leading zeros, then past the digits. */
  method ScanRun(s: string, i: nat) returns (z: nat, e: nat)
    requires i <= |s|
    ensures i <= z <= e == RunEnd(s, i) && (z < e ==> s[z] != '0')
    ensures Number(s, z, e) == RunValue(s, i)
  {
    z := i;
    while At(s, z) == '0'
      invariant i <= z <= RunEnd(s, i) && forall k | i <= k < z :: s[k] == '0'
      decreases |s| - z
    {
      SameRun(s, i, z);
      z := z + 1;
    }
    e := z;
    while IsDigit(At(s, e))
      invariant z <= e <= RunEnd(s, i)
      decreases |s| - e
    {
      SameRun(s, i, e);
      e := e + 1;
    }
    RunStops(s, i, e);
    NumberSkip(s, i, z, e);
  }

  /** The numbers at i and j: first how many digits, then strncmp. */
  method CompareDigits(a: string, i: nat, b: string, j: nat) returns (r: int, aa: nat, bb: nat)
    requires i <= |a| && j <= |b|
    ensures aa == RunEnd(a, i) && bb == RunEnd(b, j)
    ensures r == Sign(RunValue(a, i), RunValue(b, j))
  {
    hide Number, RunEnd, RunValue;
    var az, bz;
    az, aa := ScanRun(a, i);
    bz, bb := ScanRun(b, j);
    if aa - az != bb - bz {
      if aa - az < bb - bz {
        LongerIsMore(a, az, aa - az, b, bz, bb - bz);
        return -1, aa, bb;
      }
      LongerIsMore(b, bz, bb - bz, a, az, aa - az);
      return 1, aa, bb;
    }
    var k := 0;
    while k < aa - az && a[az + k] == b[bz + k]
      invariant 0 <= k <= aa - az && a[az..az + k] == b[bz..bz + k]
    {
      assert a[az..az + (k + 1)] == a[az..az + k] + [a[az + k]] && b[bz..bz + (k + 1)] == b[bz..bz + k] + [b[bz + k]];
      k := k + 1;
    }
    if k < aa - az {
      if a[az + k] < b[bz + k] {
        FirstDifference(a, az, b, bz, aa - az, k);
        return -1, aa, bb;
      }
      FirstDifference(b, bz, a, az, aa - az, k);
      return 1, aa, bb;
    }
    NumberSame(a, az, b, bz, aa - az);
    r := 0;
  }

  /** A digit inside the run at i does not end it. */
  lemma {:induction false} SameRun(s: string, i: nat, k: nat)
    requires i <= |s| && i <= k <= RunEnd(s, i) && IsDigit(At(s, k))
    ensures k < RunEnd(s, i)
  {}

  lemma {:induction false} RunStops(s: string, i: nat, k: nat)
    requires i <= |s| && i <= k <= RunEnd(s, i) && !IsDigit(At(s, k))
    ensures k == RunEnd(s, i)
  {}

  /** verrevcmp */
  method VerRevCmp(a: string, b: string) returns (r: int)
    requires IsText(a) && IsText(b)
    ensures r == Compare(Key(a), Key(b))
  {
    hide Key, Compare, RunEnd, RunValue, Order, IsText;
    var i: nat, j: nat := 0, 0;
    while i < |a| || j < |b|
      invariant i <= |a| && j <= |b| && Compare(Key(a), Key(b)) == Compare(Key(a, i), Key(b, j))
      decreases |a| - i + |b| - j
    {
      ghost var i0, j0 := i, j;
      while (i < |a| && !IsDigit(a[i])) || (j < |b| && !IsDigit(b[j]))
        invariant i0 <= i <= |a| && j0 <= j <= |b| && Compare(Key(a), Key(b)) == Compare(Key(a, i), Key(b, j))
        decreases |a| - i + |b| - j
      {
        CharsDecide(a, i, b, j);
        var oa, ob := Order(At(a, i)), Order(At(b, j));
        if oa != ob { return if oa < ob then -1 else 1; }
        if i < |a| { i := i + 1; }
        if j < |b| { j := j + 1; }
      }
      NumbersDecide(a, i, b, j);
      var c, aa, bb := CompareDigits(a, i, b, j);
      if c != 0 { return c; }
      i, j := aa, bb;
    }
    KeysEnd(a, b);
    r := 0;
  }

  lemma KeysEnd(a: string, b: string)
    ensures Compare(Key(a, |a|), Key(b, |b|)) == 0
  {}

  // ---- whole versions ----

  /** First position of c from i on, or the length. */
  function Find(s: string, c: char, i: nat := 0): (k: nat)
    requires i <= |s|
    ensures i <= k <= |s| && (forall x | i <= x < k :: s[x] != c) && (k < |s| ==> s[k] == c)
    decreases |s| - i
  {
    if i == |s| || s[i] == c then i else Find(s, c, i + 1)
  }

  /** Last position of c below n, or -1. */
  function FindLast(s: string, c: char, n: nat): (k: int)
    requires n <= |s|
    ensures -1 <= k < n && (forall x | k < x < n :: s[x] != c) && (k >= 0 ==> s[k] == c)
  {
    if n == 0 then -1 else if s[n - 1] == c then n - 1 else FindLast(s, c, n - 1)
  }

  const ULONG_MAX: nat := 0xFFFF_FFFF_FFFF_FFFF
  const CUT: nat := 255

  /** An epoch: digits, maybe none, before a colon. */
  predicate HasEpoch(s: string) {
    Find(s, ':') < |s| && forall k | 0 <= k < Find(s, ':') :: IsDigit(s[k])
  }

  function Epoch(s: string): nat {
    if !HasEpoch(s) then 0
    else if Number(s, 0, Find(s, ':')) > ULONG_MAX then ULONG_MAX else Number(s, 0, Find(s, ':'))
  }

  function AfterEpoch(s: string): string { if HasEpoch(s) then s[Find(s, ':') + 1..] else s }

  /** Where the upstream part ends: the last dash, or the end. */
  function UpstreamEnd(rest: string): (n: nat)
    ensures n <= |rest| && (n < |rest| ==> rest[n] == '-')
  {
    var dash := FindLast(rest, '-', |rest|);
    if dash >= 0 then dash else |rest|
  }

  /** Upstream part, cut to 255 characters. */
  function Upstream(s: string): string {
    var rest := AfterEpoch(s);
    rest[..if UpstreamEnd(rest) > CUT then CUT else UpstreamEnd(rest)]
  }

  function Revision(s: string): string {
    var rest := AfterEpoch(s);
    if UpstreamEnd(rest) < |rest| then rest[UpstreamEnd(rest) + 1..] else "0"
  }

  /** The order of versions: epoch, then upstream key, then revision key. */
  function VersionOrder(a: string, b: string): int {
    if Epoch(a) != Epoch(b) then Sign(Epoch(a), Epoch(b))
    else if Compare(Key(Upstream(a)), Key(Upstream(b))) != 0 then Compare(Key(Upstream(a)), Key(Upstream(b)))
    else Compare(Key(Revision(a)), Key(Revision(b)))
  }

  /** parse_epoch; strtoul saturates. */
  method ParseEpoch(s: string) returns (e: nat, rest: string)
    ensures e == Epoch(s) && rest == AfterEpoch(s)
  {
    var c := Find(s, ':');
    if c == |s| { return 0, s; }
    var p := 0;
    while p < c
      invariant 0 <= p <= c && forall k | 0 <= k < p :: IsDigit(s[k])
    {
      if !IsDigit(s[p]) { return 0, s; }
      p := p + 1;
    }
    e := 0;
    p := 0;
    while p < c
      invariant 0 <= p <= c && e == if Number(s, 0, p) > ULONG_MAX then ULONG_MAX else Number(s, 0, p)
    {
      e := e * 10 + DigitValue(s[p]);
      if e > ULONG_MAX { e := ULONG_MAX; }
      p := p + 1;
    }
    rest := s[c + 1..];
  }

  lemma TextParts(s: string, n: nat)
    requires IsText(s) && n <= |s|
    ensures IsText(s[..n]) && IsText(s[n..])
  {
    forall c | c in s[..n] || c in s[n..] ensures c in s { assert s == s[..n] + s[n..]; }
  }

  lemma RestIsText(s: string)
    requires IsText(s)
    ensures IsText(AfterEpoch(s))
  {
    if HasEpoch(s) { TextParts(s, Find(s, ':') + 1); }
    hide IsText, HasEpoch;
  }

  lemma PartsAreText(s: string)
    requires IsText(s)
    ensures IsText(Upstream(s)) && IsText(Revision(s))
  {
    RestIsText(s);
    var rest := AfterEpoch(s);
    hide AfterEpoch, HasEpoch, IsText, UpstreamEnd;
    var n := UpstreamEnd(rest);
    TextParts(rest, if n > CUT then CUT else n);
    if n < |rest| { TextParts(rest, n + 1); }
    Zero();
  }

  lemma Zero()
    ensures IsText("0")
  {
    assert forall c | c in "0" :: c == '0';
  }

  /** deb_version_compare */
  method VersionCompare(a: string, b: string) returns (r: int)
    requires IsText(a) && IsText(b)
    ensures r == VersionOrder(a, b)
  {
    hide IsText, Key, Compare, FindLast, Epoch, AfterEpoch, Find, HasEpoch;
    PartsAreText(a);
    PartsAreText(b);
    var ae, ar := ParseEpoch(a);
    var be, br := ParseEpoch(b);
    if ae != be { return if ae < be then -1 else 1; }
    var adash, bdash := FindLast(ar, '-', |ar|), FindLast(br, '-', |br|);
    var an := if adash >= 0 then adash else |ar|;
    var bn := if bdash >= 0 then bdash else |br|;
    assert an == UpstreamEnd(ar) && bn == UpstreamEnd(br);
    hide UpstreamEnd;
    if an > CUT { an := CUT; }
    if bn > CUT { bn := CUT; }
    var c := VerRevCmp(ar[..an], br[..bn]);
    if c != 0 { return c; }
    r := VerRevCmp(if adash >= 0 then ar[adash + 1..] else "0", if bdash >= 0 then br[bdash + 1..] else "0");
  }

  lemma OrderReflexive(a: string)
    ensures VersionOrder(a, a) == 0
  {
    CompareSelf(Key(Upstream(a)));
    CompareSelf(Key(Revision(a)));
  }

  lemma OrderFlips(a: string, b: string)
    ensures VersionOrder(b, a) == -VersionOrder(a, b)
  {
    CompareFlip(Key(Upstream(a)), Key(Upstream(b)));
    CompareFlip(Key(Revision(a)), Key(Revision(b)));
  }

  lemma OrderTransitive(a: string, b: string, c: string)
    requires VersionOrder(a, b) <= 0 && VersionOrder(b, c) <= 0
    ensures VersionOrder(a, c) <= 0
    ensures VersionOrder(a, c) == 0 ==> VersionOrder(a, b) == 0 && VersionOrder(b, c) == 0
  {
    if Epoch(a) == Epoch(b) == Epoch(c) {
      CompareTrans(Key(Upstream(a)), Key(Upstream(b)), Key(Upstream(c)));
      if Compare(Key(Upstream(a)), Key(Upstream(b))) == 0 && Compare(Key(Upstream(b)), Key(Upstream(c))) == 0 {
        CompareFlip(Key(Upstream(a)), Key(Upstream(b)));
        CompareFlip(Key(Upstream(b)), Key(Upstream(c)));
        CompareFlip(Key(Upstream(a)), Key(Upstream(c)));
        CompareTrans(Key(Upstream(c)), Key(Upstream(b)), Key(Upstream(a)));
        CompareTrans(Key(Revision(a)), Key(Revision(b)), Key(Revision(c)));
      }
    }
  }

  /** deb_version_satisfies: no operator or no version means any; an unknown operator means none. */
  function Satisfies(have: string, op: string, want: string): bool {
    if op == "" || want == "" then true
    else
      var c := VersionOrder(have, want);
      if op == "=" then c == 0
      else if op == ">=" || op == ">>=" then c >= 0
      else if op == "<=" || op == "<<=" then c <= 0
      else if op == ">>" then c > 0
      else if op == "<<" then c < 0
      else false
  }

  method VersionSatisfies(have: string, op: string, want: string) returns (ok: bool)
    requires IsText(have) && IsText(want)
    ensures ok == Satisfies(have, op, want)
  {
    if op == "" || want == "" { return true; }
    var c := VersionCompare(have, want);
    if op == "=" { return c == 0; }
    if op == ">=" || op == ">>=" { return c >= 0; }
    if op == "<=" || op == "<<=" { return c <= 0; }
    if op == ">>" { return c > 0; }
    if op == "<<" { return c < 0; }
    ok := false;
  }
}
