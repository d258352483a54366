/** Finite sums of natural-number functions, used for free counts, block ownership and link counts. */
module Sums {

  /** f(0) + ... + f(n-1) */
  ghost function Sum(n: nat, f: nat -> nat): nat {
    if n == 0 then 0 else Sum(n - 1, f) + f(n - 1)
  }

  lemma {:induction false} SumEqual(n: nat, f: nat -> nat, g: nat -> nat)
    requires forall i: nat | i < n :: f(i) == g(i)
    ensures Sum(n, f) == Sum(n, g)
  {
    if n > 0 {
      SumEqual(n - 1, f, g);
    }
  }

  /** Changing one term changes the sum by the difference of that term. */
  lemma {:induction false} SumUpdate(n: nat, f: nat -> nat, g: nat -> nat, k: nat)
    requires k < n
    requires forall i: nat | i < n && i != k :: f(i) == g(i)
    ensures Sum(n, f) + g(k) == Sum(n, g) + f(k)
  {
    if k == n - 1 {
      SumEqual(n - 1, f, g);
    } else {
      SumUpdate(n - 1, f, g, k);
    }
  }

  lemma {:induction false} SumZero(n: nat, f: nat -> nat)
    ensures Sum(n, f) == 0 <==> forall i: nat | i < n :: f(i) == 0
  {
    if n > 0 {
      SumZero(n - 1, f);
    }
  }

  lemma {:induction false} SumOne(n: nat, f: nat -> nat, k: nat)
    requires k < n
    requires forall i: nat | i < n && i != k :: f(i) == 0
    ensures Sum(n, f) == f(k)
  {
    if k == n - 1 {
      SumZero(n - 1, f);
    } else {
      SumOne(n - 1, f, k);
    }
  }

  lemma {:induction false} SumMember(n: nat, f: nat -> nat, k: nat)
    requires k < n
    ensures f(k) <= Sum(n, f)
  {
    if k < n - 1 {
      SumMember(n - 1, f, k);
    }
  }

  lemma {:induction false} SumTwoMembers(n: nat, f: nat -> nat, i: nat, k: nat)
    requires i < k < n
    ensures f(i) + f(k) <= Sum(n, f)
  {
    if k == n - 1 {
      SumMember(n - 1, f, i);
    } else {
      SumTwoMembers(n - 1, f, i, k);
    }
  }

  lemma {:induction false} SumBound(n: nat, f: nat -> nat, c: nat)
    requires forall i: nat | i < n :: f(i) <= c
    ensures Sum(n, f) <= n * c
  {
    if n > 0 {
      SumBound(n - 1, f, c);
      assert (n - 1) * c + c == n * c;
    }
  }

  lemma {:induction false} SumAdd(n: nat, f: nat -> nat, g: nat -> nat, h: nat -> nat)
    requires forall i: nat | i < n :: h(i) == f(i) + g(i)
    ensures Sum(n, h) == Sum(n, f) + Sum(n, g)
  {
    if n > 0 {
      SumAdd(n - 1, f, g, h);
    }
  }
}
