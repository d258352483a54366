/** Directed graphs given by an edge list, and reachability in them. */
module PlanGraph {

  datatype Edge = Edge(a: nat, b: nat)

  /** p leads from its first node to its last along edges of es. */
  ghost predicate IsPath(es: seq<Edge>, p: seq<nat>) {
    |p| > 0 && forall i | 0 <= i < |p| - 1 :: Edge(p[i], p[i + 1]) in es
  }

  ghost predicate Connects(es: seq<Edge>, p: seq<nat>, a: nat, b: nat) {
    IsPath(es, p) && p[0] == a && p[|p| - 1] == b
  }

  ghost predicate Reach(es: seq<Edge>, a: nat, b: nat) {
    exists p: seq<nat> :: Connects(es, p, a, b)
  }

  ghost predicate Mutual(es: seq<Edge>, a: nat, b: nat) { Reach(es, a, b) && Reach(es, b, a) }

  lemma ReachSelf(es: seq<Edge>, a: nat)
    ensures Reach(es, a, a)
  {
    assert Connects(es, [a], a, a);
  }

  lemma ReachEdge(es: seq<Edge>, a: nat, b: nat)
    requires Edge(a, b) in es
    ensures Reach(es, a, b)
  {
    assert Connects(es, [a, b], a, b);
  }

  lemma ReachTrans(es: seq<Edge>, a: nat, b: nat, c: nat)
    requires Reach(es, a, b) && Reach(es, b, c)
    ensures Reach(es, a, c)
  {
    var p: seq<nat> :| Connects(es, p, a, b);
    var q: seq<nat> :| Connects(es, q, b, c);
    var r := p + q[1..];
    forall i | 0 <= i < |r| - 1 ensures Edge(r[i], r[i + 1]) in es {
      if i >= |p| - 1 {
        assert r[i] == q[i - (|p| - 1)] && r[i + 1] == q[i + 1 - (|p| - 1)];
      }
    }
    assert Connects(es, r, a, c);
  }

  /** A set that no edge leaves. */
  ghost predicate Closed(es: seq<Edge>, s: set<nat>) {
    forall e | e in es && e.a in s :: e.b in s
  }

  lemma ClosedPath(es: seq<Edge>, s: set<nat>, p: seq<nat>, i: nat)
    requires Closed(es, s) && IsPath(es, p) && p[0] in s && i < |p|
    ensures p[i] in s
  {
    if i > 0 {
      ClosedPath(es, s, p, i - 1);
      assert Edge(p[i - 1], p[i - 1 + 1]) in es;
    }
  }

  lemma ClosedReach(es: seq<Edge>, s: set<nat>, a: nat, b: nat)
    requires Closed(es, s) && a in s && Reach(es, a, b)
    ensures b in s
  {
    var p: seq<nat> :| Connects(es, p, a, b);
    ClosedPath(es, s, p, |p| - 1);
  }

  /** A walk out of s takes an edge that leaves s. */
  lemma WayOut(es: seq<Edge>, s: set<nat>, p: seq<nat>) returns (i: nat)
    requires IsPath(es, p) && p[0] in s && p[|p| - 1] !in s
    ensures i + 1 < |p| && p[i] in s && p[i + 1] !in s && Edge(p[i], p[i + 1]) in es
    ensures Reach(es, p[i + 1], p[|p| - 1]) && Reach(es, p[0], p[i])
  {
    i := 0;
    while p[i + 1] in s
      invariant i + 1 < |p| && p[i] in s
      decreases |p| - i
    {
      i := i + 1;
    }
    var q := p[i + 1..];
    forall k | 0 <= k < |q| - 1 ensures Edge(q[k], q[k + 1]) in es {
      assert q[k] == p[i + 1 + k] && q[k + 1] == p[i + 1 + k + 1];
    }
    assert Connects(es, q, p[i + 1], p[|p| - 1]);
    assert Connects(es, p[..i + 1], p[0], p[i]);
  }
}
