/** What the order of Debian versions says of strings, in the terms of section 5.6.12 of the Debian Policy Manual. */
module DebOrder {
  import opened DebVersion

  const DIGITS: string := "0123456789"

  const UPPER: string := "ABCDEFGHIJKLMNOPQRSTUVWXYZ"
  const LOWER: string := "abcdefghijklmnopqrstuvwxyz"

  /** The k-th character of a row of consecutive ones. */
  lemma InRow(row: string, first: char, c: char)
    requires forall k | 0 <= k < |row| :: row[k] as int == first as int + k
    ensures c in row <==> first as int <= c as int < first as int + |row|
  {
    if first as int <= c as int < first as int + |row| { assert row[c as int - first as int] == c; }
  }

  lemma Classes(c: char)
    ensures IsDigit(c) <==> c in DIGITS
    ensures IsAlpha(c) <==> c in UPPER || c in LOWER
  {
    InRow(DIGITS, '0', c);
    InRow(UPPER, 'A', c);
    InRow(LOWER, 'a', c);
  }

  // ---- where strings first differ ----

  /** No run of digits goes on across position n. */
  predicate Parts(a: string, n: nat)
    requires n <= |a|
  {
    n == 0 || !IsDigit(a[n - 1]) || !IsDigit(At(a, n))
  }

  lemma {:induction false} RunInside(a: string, b: string, n: nat, i: nat)
    requires i <= n <= |a| && n <= |b| && a[..n] == b[..n] && Parts(a, n) && Parts(b, n)
    requires i < n
    ensures RunEnd(a, i) == RunEnd(b, i) <= n
    decreases n - i
  {
    assert a[i] == a[..n][i] == b[..n][i] == b[i];
    if i + 1 < n { RunInside(a, b, n, i + 1); }
  }

  lemma SliceSame(a: string, b: string, n: nat, i: nat, e: nat)
    requires i <= e <= n <= |a| && n <= |b| && a[..n] == b[..n]
    ensures a[i..e] == b[i..e]
  {
    assert a[..n][i..e] == a[i..e] && b[..n][i..e] == b[i..e];
  }

  lemma KeyAt(s: string, i: nat)
    requires i < |s|
    ensures Key(s, i) == if IsDigit(s[i]) then [0, RunValue(s, i)] + Key(s, RunEnd(s, i)) else [Order(s[i])] + Key(s, i + 1)
  {}

  lemma SharedChar(a: string, b: string, i: nat)
    requires i < |a| && i < |b| && a[i] == b[i] && !IsDigit(a[i])
    ensures Compare(Key(a, i), Key(b, i)) == Compare(Key(a, i + 1), Key(b, i + 1))
  {
    hide RunEnd, Number, Order, Key;
    KeyAt(a, i);
    KeyAt(b, i);
    assert Tail(Key(a, i)) == Key(a, i + 1) && Tail(Key(b, i)) == Key(b, i + 1);
  }

  lemma SharedDigits(a: string, b: string, n: nat, i: nat)
    requires i < n <= |a| && n <= |b| && a[..n] == b[..n] && IsDigit(a[i]) && IsDigit(b[i])
    requires RunEnd(a, i) == RunEnd(b, i) <= n
    ensures Compare(Key(a, i), Key(b, i)) == Compare(Key(a, RunEnd(a, i)), Key(b, RunEnd(a, i)))
  {
    hide Key, Number, Compare, Order;
    var e := RunEnd(a, i);
    SliceSame(a, b, n, i, e);
    NumberSame(a, i, b, i, e - i);
    NumbersDecide(a, i, b, i);
  }

  /** What the strings share plays no part. */
  lemma {:induction false} SharedPart(a: string, b: string, n: nat, i: nat := 0)
    requires i <= n <= |a| && n <= |b| && a[..n] == b[..n] && Parts(a, n) && Parts(b, n)
    ensures Compare(Key(a, i), Key(b, i)) == Compare(Key(a, n), Key(b, n))
    decreases n - i
  {
    hide *;
    if i < n {
      assert a[i] == a[..n][i] == b[..n][i] == b[i];
      RunInside(a, b, n, i);
      if IsDigit(a[i]) {
        RunForward(a, i);
        SharedDigits(a, b, n, i);
        SharedPart(a, b, n, RunEnd(a, i));
      } else {
        SharedChar(a, b, i);
        SharedPart(a, b, n, i + 1);
      }
    }
  }

  /** Characters that are no digits and follow a shared part decide by rank, the end of a string by rank 0. */
  lemma FirstDecides(s: string, x: char, t: string, y: char, u: string)
    requires !IsDigit(x) && !IsDigit(y)
    ensures Order(x) != Order(y) ==> Compare(Key(s + [x] + t), Key(s + [y] + u)) == Sign(Order(x), Order(y))
    ensures Order(x) != 0 ==> Compare(Key(s + [x] + t), Key(s)) == Sign(Order(x), 0)
  {
    var a, b := s + [x] + t, s + [y] + u;
    assert a[..|s|] == b[..|s|] == s[..|s|];
    assert a[|s|] == x && b[|s|] == y;
    SharedPart(a, b, |s|);
    SharedPart(a, s, |s|);
    hide Order;
    assert Key(a, |s|) == [Order(x)] + Key(a, |s| + 1) && Key(b, |s|) == [Order(y)] + Key(b, |s| + 1);
    assert Key(s, |s|) == [];
  }

  /** A tilde sorts before everything, even the end. */
  lemma TildeFirst(s: string, t: string)
    ensures Compare(Key(s + "~" + t), Key(s)) < 0
  {
    FirstDecides(s, '~', t, '~', t);
    assert "~" == ['~'];
  }

  /** Any other character that is no digit sorts after the end. */
  lemma EndFirst(s: string, x: char, t: string)
    requires x !in DIGITS && x != '~' && x != '\0'
    ensures Compare(Key(s), Key(s + [x] + t)) < 0
  {
    Classes(x);
    FirstDecides(s, x, t, x, t);
    CompareFlip(Key(s), Key(s + [x] + t));
  }

  /** A letter sorts before what is neither letter, digit nor tilde. */
  lemma LettersFirst(s: string, x: char, t: string, y: char, u: string)
    requires (x in UPPER || x in LOWER) && !(y in UPPER || y in LOWER)
    requires y !in DIGITS && y != '~' && y != '\0'
    ensures Compare(Key(s + [x] + t), Key(s + [y] + u)) < 0
  {
    Classes(x);
    Classes(y);
    FirstDecides(s, x, t, y, u);
  }

  /** Among letters, and among the others, the smaller code comes first. */
  lemma SmallerFirst(s: string, x: char, t: string, y: char, u: string)
    requires x < y && x !in DIGITS && y !in DIGITS && x != '~' && y != '~' && x != '\0'
    requires (x in UPPER || x in LOWER) == (y in UPPER || y in LOWER)
    ensures Compare(Key(s + [x] + t), Key(s + [y] + u)) < 0
  {
    Classes(x);
    Classes(y);
    FirstDecides(s, x, t, y, u);
  }

  // ---- numbers ----

  function Digit(k: nat): (c: char)
    requires k < 10
    ensures IsDigit(c) && DigitValue(c) == k
  {
    DIGITS[k]
  }

  /** n in decimal. */
  function Decimal(n: nat): (d: string)
    ensures d != "" && (n > 0 ==> d[0] != '0')
  {
    if n < 10 then [Digit(n)] else Decimal(n / 10) + [Digit(n % 10)]
  }

  function ZeroDigits(z: nat): (d: string)
    ensures |d| == z && forall c | c in d :: c == '0'
  {
    seq(z, _ => '0')
  }

  lemma LastDigit(n: nat)
    ensures var d := Decimal(n);
      && d[|d| - 1] == Digit(n % 10) && (if n < 10 then |d| == 1 else d[..|d| - 1] == Decimal(n / 10))
  {}

  lemma {:induction false} DecimalValue(a: string, i: nat, n: nat)
    requires i + |Decimal(n)| <= |a| && a[i..i + |Decimal(n)|] == Decimal(n)
    ensures forall k | i <= k < i + |Decimal(n)| :: IsDigit(a[k])
    ensures Number(a, i, i + |Decimal(n)|) == n
  {
    var d := Decimal(n);
    var e := i + |d|;
    LastDigit(n);
    assert a[e - 1] == a[i..e][|d| - 1] == Digit(n % 10);
    if n < 10 {
      assert |d| == 1 && Number(a, i, i) == 0;
    } else {
      assert a[i..e - 1] == a[i..e][..|d| - 1] == Decimal(n / 10);
      DecimalValue(a, i, n / 10);
    }
  }

  lemma {:induction false} RunAll(a: string, i: nat, e: nat)
    requires i <= e <= |a| && (forall k | i <= k < e :: IsDigit(a[k])) && !IsDigit(At(a, e))
    ensures RunEnd(a, i) == e
    decreases e - i
  {
    if i < e { RunAll(a, i + 1, e); }
  }

  lemma Pieces(s: string, w: string, d: string, t: string)
    ensures var a := s + w + d + t;
      && a[..|s|] == s && a[|s|..|s| + |w|] == w && a[|s| + |w|..|s| + |w| + |d|] == d && a[|s| + |w| + |d|..] == t
  {}

  lemma SliceRest(a: string, p: nat, i: nat, e: nat)
    requires p <= |a| && i <= e <= |a| - p
    ensures a[p + i..p + e] == a[p..][i..e]
  {}

  lemma RunOfRest(a: string, p: nat, j: nat)
    requires p + j <= |a|
    ensures RunEnd(a, p + j) == p + RunEnd(a[p..], j)
  {
    var t := a[p..];
    var e := RunEnd(t, j);
    hide RunEnd;
    forall k | p + j <= k < p + e ensures IsDigit(a[k]) { assert a[k] == t[k - p]; }
    assert At(a, p + e) == At(t, e) by { if e < |t| { assert a[p + e] == t[e]; } }
    hide At, IsDigit;
    RunAll(a, p + j, p + e);
  }

  /** Digits at j of the rest from p on. */
  lemma SameNumber(a: string, p: nat, j: nat)
    requires p + j <= |a|
    ensures RunEnd(a, p + j) == p + RunEnd(a[p..], j) && RunValue(a, p + j) == RunValue(a[p..], j)
  {
    hide RunEnd, Number, IsDigit, At;
    RunOfRest(a, p, j);
    var e := RunEnd(a[p..], j);
    SliceRest(a, p, j, e);
    NumberSame(a, p + j, a[p..], j, e - j);
  }

  lemma {:induction false} KeyOfRest(a: string, p: nat, t: string, j: nat := 0)
    requires p <= |a| && t == a[p..] && j <= |t|
    ensures Key(a, p + j) == Key(t, j)
    decreases |t| - j
  {
    hide *;
    if j == |t| {
      KeyEnd(a);
      KeyEnd(t);
    } else {
      KeyAt(a, p + j);
      KeyAt(t, j);
      if IsDigit(t[j]) {
        SameNumber(a, p, j);
        RunForward(t, j);
        KeyOfRest(a, p, t, RunEnd(t, j));
      } else {
        KeyOfRest(a, p, t, j + 1);
      }
    }
  }

  lemma KeyEnd(s: string)
    ensures Key(s, |s|) == []
  {}

  lemma RunForward(t: string, j: nat)
    requires j < |t| && IsDigit(t[j])
    ensures j < RunEnd(t, j) <= |t|
  {}

  lemma LeadingZeros(a: string, p: nat, z: nat)
    requires p + z <= |a| && a[p..p + z] == ZeroDigits(z)
    ensures forall k | p <= k < p + z :: a[k] == '0'
  {
    forall k | p <= k < p + z ensures a[k] == '0' {
      assert a[k] == a[p..p + z][k - p];
      assert ZeroDigits(z)[k - p] in ZeroDigits(z);
    }
  }

  lemma AtRest(a: string, e: nat)
    requires e <= |a|
    ensures At(a, e) == At(a[e..], 0)
  {}

  /** The number that stands in a at p, leading zeros and all. */
  lemma NumberStands(a: string, p: nat, z: nat, n: nat, t: string)
    requires |a| == p + z + |Decimal(n)| + |t| && !IsDigit(At(t, 0))
    requires a[p..p + z] == ZeroDigits(z) && a[p + z..p + z + |Decimal(n)|] == Decimal(n) && a[p + z + |Decimal(n)|..] == t
    ensures RunValue(a, p) == n && IsDigit(a[p]) && Key(a, RunEnd(a, p)) == Key(t)
  {
    hide *;
    var e := |a| - |t|;
    AtRest(a, e);
    DigitsStand(a, p, z, n);
    KeyOfRest(a, e, t);
  }

  lemma DigitsStand(a: string, p: nat, z: nat, n: nat)
    requires var e := p + z + |Decimal(n)|; e <= |a| && !IsDigit(At(a, e))
    requires a[p..p + z] == ZeroDigits(z) && a[p + z..p + z + |Decimal(n)|] == Decimal(n)
    ensures RunEnd(a, p) == p + z + |Decimal(n)| && RunValue(a, p) == n && IsDigit(a[p])
  {
    hide Decimal, RunEnd, Number, ZeroDigits;
    var e := p + z + |Decimal(n)|;
    DecimalValue(a, p + z, n);
    LeadingZeros(a, p, z);
    hide At;
    RunAll(a, p, e);
    NumberSkip(a, p, p + z, e);
  }

  /** At p stand the digits of n in a, and those of m in b. */
  lemma ByValue(a: string, b: string, p: nat, n: nat, m: nat)
    requires p < |a| && p < |b| && a[..p] == b[..p] && Parts(a, p) && Parts(b, p)
    requires IsDigit(a[p]) && RunValue(a, p) == n && IsDigit(b[p]) && RunValue(b, p) == m
    ensures Compare(Key(a), Key(b)) == if n != m then Sign(n, m) else Compare(Key(a, RunEnd(a, p)), Key(b, RunEnd(b, p)))
  {
    hide *;
    SharedPart(a, b, p);
    NumbersDecide(a, p, b, p);
  }

  /** Numbers after a shared part decide by value, leading zeros aside, and when equal what follows decides. */
  lemma NumbersByValue(s: string, z: nat, n: nat, t: string, y: nat, m: nat, u: string)
    requires s == "" || s[|s| - 1] !in DIGITS
    requires (t == "" || t[0] !in DIGITS) && (u == "" || u[0] !in DIGITS)
    ensures Compare(Key(s + ZeroDigits(z) + Decimal(n) + t), Key(s + ZeroDigits(y) + Decimal(m) + u)) ==
      if n != m then Sign(n, m) else Compare(Key(t), Key(u))
  {
    hide Key, RunEnd, RunValue, Compare, Decimal, ZeroDigits, DIGITS, IsDigit, UPPER, LOWER;
    if s != "" { Classes(s[|s| - 1]); }
    EndsRun(t);
    EndsRun(u);
    Pieces(s, ZeroDigits(z), Decimal(n), t);
    Pieces(s, ZeroDigits(y), Decimal(m), u);
    var a, b := s + ZeroDigits(z) + Decimal(n) + t, s + ZeroDigits(y) + Decimal(m) + u;
    NumberStands(a, |s|, z, n, t);
    NumberStands(b, |s|, y, m, u);
    assert s != "" ==> a[|s| - 1] == a[..|s|][|s| - 1] && b[|s| - 1] == b[..|s|][|s| - 1];
    ByValue(a, b, |s|, n, m);
  }

  lemma EndsRun(t: string)
    requires t == "" || t[0] !in DIGITS
    ensures !IsDigit(At(t, 0))
  {
    Classes(At(t, 0));
  }

  // ---- whole versions ----

  lemma Plain(v: string)
    requires ':' !in v && '-' !in v
    ensures Epoch(v) == 0 && Upstream(v) == v[..if |v| > CUT then CUT else |v|] && Revision(v) == "0"
  {}

  /** A pre-release sorts before its release. */
  lemma PreReleaseFirst(s: string, t: string)
    requires ':' !in s + t && '-' !in s + t && |s| < CUT
    ensures VersionOrder(s + "~" + t, s) < 0
  {
    var v := s + "~" + t;
    forall c | c in [':', '-'] ensures c !in v && c !in s { assert c !in s + t; }
    assert ':' in [':', '-'] && '-' in [':', '-'];
    Plain(v);
    Plain(s);
    var cut := if |v| > CUT then CUT else |v|;
    assert v[..cut] == s + "~" + t[..cut - |s| - 1] && s[..|s|] == s;
    TildeFirst(s, t[..cut - |s| - 1]);
  }
}
