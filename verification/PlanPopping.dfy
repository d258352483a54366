/** Closing a component: the nodes above a root leave the stack. */
module PlanPopping {
  import opened Sequences
  import opened PlanGraph
  import opened PlanSearch

  // ---- popping a component ----

  function Reversed(m: seq<nat>): (r: seq<nat>)
    ensures |r| == |m|
  {
    if m == [] then [] else [m[|m| - 1]] + Reversed(m[..|m| - 1])
  }

  /** s with all above position n taken off the stack into component c. */
  ghost function Popped(s: Search, n: nat, c: nat): Search
    requires s.Sane() && n <= |s.stack|
  {
    var m := s.stack[n..];
    s.(stack := s.stack[..n],
       onstack := seq(s.nn, (x: nat) requires x < s.nn => s.onstack[x] && x !in m),
       component := seq(s.nn, (x: nat) requires x < s.nn => if x in m then c else s.component[x]))
  }

  ghost function Closedown(s: Search, n: nat): Search
    requires s.Sane() && n <= |s.stack|
  {
    Popped(s, n, |s.comps|).(comps := s.comps + [Reversed(s.stack[n..])])
  }

  lemma {:induction false} ReversedSame(m: seq<nat>)
    ensures forall x :: x in Reversed(m) <==> x in m
    ensures Distinct(m) ==> Distinct(Reversed(m))
  {
    if m != [] {
      var k := m[..|m| - 1];
      ReversedSame(k);
      assert m == k + [m[|m| - 1]];
      if Distinct(m) {
        forall i: nat, j: nat | i < j < |Reversed(m)| ensures Reversed(m)[i] != Reversed(m)[j] {
          if i == 0 { assert Reversed(m)[j] == Reversed(k)[j - 1] && Reversed(k)[j - 1] in k; }
          else { assert Reversed(m)[i] == Reversed(k)[i - 1] && Reversed(m)[j] == Reversed(k)[j - 1]; }
        }
      }
    }
  }

  /** s0's stack under s's, all stacked nodes numbered and in no component yet. */
  ghost predicate Cut(s0: Search, s: Search) {
    && s0.Sane() && s.Sane() && s.nn == s0.nn && s.es == s0.es && s0.stack <= s.stack && Distinct(s.stack)
    && (forall x | x in s.stack :: x < s.nn && s.onstack[x] && s.index[x] >= 0 && s.component[x] < 0)
  }

  lemma DistinctStack(s: Search)
    requires s.Marks()
    ensures Distinct(s.stack)
    ensures forall x | x in s.stack :: x < s.nn && s.onstack[x] && s.index[x] >= 0 && s.component[x] < 0
  {}

  lemma IsCut(s0: Search, s: Search, gray: set<nat>, v: nat)
    requires Looping(s0, s, gray, v, |s.es|)
    ensures s.Sane() && s0.stack <= s.stack && v < s.nn
    ensures Cut(s0, s) && v in Fresh(s0, s) && s.Marks() && s0.Marks() && s.Finished() && s.Listed() && s0.stack + [v] <= s.stack
    ensures forall x | x in gray :: x in s0.stack && x < s.nn && s.component[x] < 0
  {
    hide Reach, Search.Finished, Search.Listed, Search.LowMet, Search.Grounded, Scanned, Bounded, Search.Marks;
    DistinctStack(s);
    assert s0.stack <= s.stack;
    assert v == s.stack[|s0.stack|];
    forall i: nat | i < |s0.stack| ensures s0.stack[i] != v { assert s0.stack[i] == s.stack[i]; }
  }

  /** The nodes stacked since s0. */
  ghost function Fresh(s0: Search, s: Search): set<nat> {
    set x | x in s.stack && x !in s0.stack
  }

  ghost function Finals(s: Search): set<nat>
    requires s.Sane()
  {
    set x: nat | x < s.nn && s.component[x] >= 0
  }

  /** Below s0's stack and above it. */
  lemma CutFacts(s0: Search, s: Search)
    requires Cut(s0, s)
    ensures s.stack[..|s0.stack|] == s0.stack && s.stack == s0.stack + s.stack[|s0.stack|..]
    ensures Distinct(s.stack[|s0.stack|..])
    ensures forall x: nat :: x in Fresh(s0, s) <==> x in s.stack[|s0.stack|..]
  {
    var n := |s0.stack|;
    assert s.stack[..n] == s0.stack;
    forall x: nat | x in s.stack[n..] ensures x !in s0.stack {
      var j: nat :| j < |s.stack[n..]| && s.stack[n..][j] == x;
      forall i: nat | i < n ensures s0.stack[i] != x {
        assert s.stack[i] == s0.stack[i] && s.stack[n + j] == x;
      }
    }
  }

  /** When none leads lower than v, no edge leaves the nodes stacked since s0 but into finished ones. */
  lemma Enclosed(s0: Search, s: Search, gray: set<nat>, v: nat, e: Edge)
    requires Looping(s0, s, gray, v, |s.es|) && s.low[v] == s.index[v]
    requires e in s.es && e.a in Fresh(s0, s)
    ensures e.b in Fresh(s0, s) || (s.Sane() && e.b in Finals(s))
  {
    hide Reach, Search.Finished, Search.Listed, Search.LowMet, Search.Grounded, Scanned;
    AllSeen(s0, s, gray, v);
    IsCut(s0, s, gray, v);
    assert s.index[e.b] >= 0;
    if e.b in s0.stack { OldLower(s0, s, v, e.b); }
  }

  lemma OldLower(s0: Search, s: Search, v: nat, x: nat)
    requires s.Marks() && s0.stack + [v] <= s.stack && v < s.nn && x in s0.stack
    ensures x < s.nn && s.index[x] < s.index[v]
  {
    var i: nat :| i < |s0.stack| && s0.stack[i] == x;
    assert s.stack[i] == x && s.stack[|s0.stack|] == v;
  }

  lemma EnclosedSet(s0: Search, s: Search, gray: set<nat>, v: nat)
    requires Looping(s0, s, gray, v, |s.es|) && s.low[v] == s.index[v]
    ensures s.Sane() && Closed(s.es, Fresh(s0, s) + Finals(s))
  {
    hide Reach, Search.Listed, Search.LowMet, Scanned, Bounded, Search.Marks, Search.Hangs, Fresh;
    forall e | e in s.es && e.a in Fresh(s0, s) + Finals(s) ensures e.b in Fresh(s0, s) + Finals(s) {
      if e.a in Fresh(s0, s) { Enclosed(s0, s, gray, v, e); }
    }
  }

  /** Everything stacked since s0 reaches v. */
  lemma BackToV(s0: Search, s: Search, gray: set<nat>, v: nat, y: nat)
    requires Looping(s0, s, gray, v, |s.es|) && s.low[v] == s.index[v] && y in Fresh(s0, s)
    ensures Reach(s.es, y, v)
  {
    hide Looping, Reach, Search.Finished, Search.Listed, Search.Marks, Cut, Closed;
    StackedGround(s0, s, gray, v, y);
    EnclosedSet(s0, s, gray, v);
    IsCut(s0, s, gray, v);
    var x :| x in gray + {v} && x < s.nn && y < s.nn && s.index[x] <= s.index[y] && Reach(s.es, y, x);
    ClosedReach(s.es, Fresh(s0, s) + Finals(s), y, x);
  }

  lemma FromV(s0: Search, s: Search, gray: set<nat>, v: nat, y: nat)
    requires Looping(s0, s, gray, v, |s.es|) && y in Fresh(s0, s)
    ensures Reach(s.es, v, y)
  {
    hide Reach, Search.Finished, Search.Listed, Search.LowMet, Search.Grounded, Scanned, Bounded, Search.Marks, Later;
    var i: nat :| i < |s.stack| && s.stack[i] == y;
    assert s.stack[|s0.stack|] == v;
    assert i >= |s0.stack| by {
      assert forall k: nat | k < |s0.stack| :: s.stack[k] == s0.stack[k];
    }
    assert Reach(s.es, s.stack[|s0.stack|], s.stack[i]);
  }

  /** The popped nodes are one strongly connected component. */
  lemma PoppedMutual(s0: Search, s: Search, gray: set<nat>, v: nat, x: nat, y: nat)
    requires Looping(s0, s, gray, v, |s.es|) && s.low[v] == s.index[v]
    requires x in Fresh(s0, s) && y in Fresh(s0, s)
    ensures Mutual(s.es, x, y)
  {
    hide Reach, Looping;
    BackToV(s0, s, gray, v, x);
    BackToV(s0, s, gray, v, y);
    FromV(s0, s, gray, v, x);
    FromV(s0, s, gray, v, y);
    ReachTrans(s.es, x, v, y);
    ReachTrans(s.es, y, v, x);
  }

  /** Finished nodes lead only to finished ones. */
  lemma FinalsClosed(s: Search, x: nat, y: nat)
    requires s.Sane() && s.Finished() && x in Finals(s) && Reach(s.es, x, y)
    ensures y in Finals(s)
  {
    hide Mutual;
    ClosedReach(s.es, Finals(s), x, y);
  }

  // ---- the state after popping ----

  /** Components after the pop. */
  lemma PoppedComponent(s0: Search, s: Search, x: nat)
    requires Cut(s0, s) && x < s.nn
    ensures var s2 := Closedown(s, |s0.stack|);
      && s2.component[x] == (if x in Fresh(s0, s) then |s.comps| else s.component[x])
      && s2.onstack[x] == (s.onstack[x] && x !in Fresh(s0, s))
      && s2.Sane() && s2.stack == s0.stack && s2.index == s.index && s2.low == s.low
  {
    CutFacts(s0, s);
  }

  lemma AgreeAfter(s: Search, s2: Search, f: set<nat>, n: nat)
    requires s.Sane() && s2.Sane() && s.Agree() && s2.nn == s.nn && n < |s.stack|
    requires s2.index == s.index && s2.nextIndex == s.nextIndex && |s2.comps| == |s.comps| + 1
    requires s2.stack == s.stack[..n]
    requires forall x | x in f :: x < s.nn && s.index[x] >= 0 && x !in s2.stack
    requires forall x | x in s.stack :: x in s2.stack || x in f
    requires forall x: nat | x < s.nn :: s2.onstack[x] == (s.onstack[x] && x !in f)
    requires forall x: nat | x < s.nn :: s2.component[x] == if x in f then |s.comps| else s.component[x]
    ensures s2.Agree()
  {
    forall i: nat | i < |s2.stack| ensures s2.onstack[s2.stack[i]] {
      assert s2.stack[i] == s.stack[i] && s2.stack[i] in s2.stack;
    }
  }

  lemma PopAgree(s0: Search, s: Search)
    requires Cut(s0, s) && s.Agree() && Fresh(s0, s) != {}
    ensures Closedown(s, |s0.stack|).Sane() && Closedown(s, |s0.stack|).Agree()
  {
    var s2 := Closedown(s, |s0.stack|);
    hide Closedown, Popped, Fresh, Search.Agree;
    forall x: nat | x < s.nn
      ensures s2.onstack[x] == (s.onstack[x] && x !in Fresh(s0, s))
      ensures s2.component[x] == if x in Fresh(s0, s) then |s.comps| else s.component[x]
    {
      PoppedComponent(s0, s, x);
    }
    CutFacts(s0, s);
    ClosedComps(s0, s);
    SameRest(s0, s);
    InFresh(s0, s);
    AgreeAfter(s, s2, Fresh(s0, s), |s0.stack|);
  }

  lemma InFresh(s0: Search, s: Search)
    requires Cut(s0, s)
    ensures forall x | x in Fresh(s0, s) :: x !in s0.stack && x in s.stack && x < s.nn && s.index[x] >= 0 && s.onstack[x]
    ensures Fresh(s0, s) != {} ==> |s0.stack| < |s.stack|
    ensures forall i: nat | i < |s0.stack| :: s.stack[i] == s0.stack[i] && s0.stack[i] in s0.stack
  {}

  lemma SameRest(s0: Search, s: Search)
    requires Cut(s0, s)
    ensures var s2 := Closedown(s, |s0.stack|);
      s2.stack == s0.stack && s2.index == s.index && s2.nextIndex == s.nextIndex && |s2.comps| == |s.comps| + 1
  {
    CutFacts(s0, s);
  }

  lemma PopMarks(s0: Search, s: Search)
    requires Cut(s0, s) && s.Marks() && Fresh(s0, s) != {}
    ensures Closedown(s, |s0.stack|).Marks()
  {
    var s2 := Closedown(s, |s0.stack|);
    PopAgree(s0, s);
    SameRest(s0, s);
    ClosedComps(s0, s);
    hide Search.Agree, Cut, Closedown;
    assert s2.Visited() == s.Visited();
  }

  lemma PopLater(s0: Search, s: Search)
    requires Cut(s0, s) && s0.Marks() && Later(s0, s)
    ensures Later(s0, Closedown(s, |s0.stack|))
  {
    var s2 := Closedown(s, |s0.stack|);
    forall x: nat | x < s0.nn && s0.index[x] >= 0 ensures s2.component[x] == s0.component[x] {
      PoppedComponent(s0, s, x);
      if x in Fresh(s0, s) { NotOld(s0, s, x); }
    }
    CutFacts(s0, s);
  }

  /** Nodes stacked since s0 were not numbered then. */
  lemma NotOld(s0: Search, s: Search, x: nat)
    requires Cut(s0, s) && s0.Marks() && Later(s0, s) && x in Fresh(s0, s)
    ensures x < s0.nn && s0.index[x] < 0
  {}

  lemma PopListed(s0: Search, s: Search)
    requires Cut(s0, s) && s.Listed() && Fresh(s0, s) != {} && forall x: nat | x < s.nn :: s.component[x] < |s.comps|
    ensures Closedown(s, |s0.stack|).Sane() && Closedown(s, |s0.stack|).Listed()
  {
    ClosedComps(s0, s);
    var s2, m := Closedown(s, |s0.stack|), s.stack[|s0.stack|..];
    InCut(s0, s);
    hide Cut, Closedown, Fresh;
    CutFacts(s0, s);
    ReversedSame(m);
    forall x: nat | x < s.nn
      ensures s2.component[x] == if x in m then |s.comps| else s.component[x]
    {
      PoppedComponent(s0, s, x);
    }
    hide Search.Sane, Distinct, Reversed;
    NewListed(s, s2, m);
  }

  lemma NewListed(s: Search, s2: Search, m: seq<nat>)
    requires s.Sane() && s2.Sane() && s2.nn == s.nn && s.Listed() && m != [] && Distinct(Reversed(m))
    requires s2.comps == s.comps + [Reversed(m)] && forall x :: x in Reversed(m) <==> x in m
    requires forall x | x in m :: x < s.nn && s.component[x] < 0
    requires forall x: nat | x < s.nn :: s.component[x] < |s.comps|
    requires forall x: nat | x < s.nn :: s2.component[x] == if x in m then |s.comps| else s.component[x]
    ensures s2.Listed()
  {
    hide Distinct, Reversed;
    assert |Reversed(m)| > 0 by { ReversedSame(m); assert m[0] in m; }
    forall c: nat, x: nat | c < |s2.comps| && x in s2.comps[c] ensures x < s2.nn && s2.component[x] == c {
      if c < |s.comps| { assert x in s.comps[c]; } else { assert x in m; }
    }
    forall x: nat | x < s2.nn && 0 <= s2.component[x] < |s2.comps| ensures x in s2.comps[s2.component[x]] {}
  }

  lemma InCut(s0: Search, s: Search)
    requires Cut(s0, s)
    ensures forall x | x in s.stack[|s0.stack|..] :: x < s.nn && s.component[x] < 0
    ensures Fresh(s0, s) != {} ==> s.stack[|s0.stack|..] != []
  {
    CutFacts(s0, s);
  }

  lemma ClosedComps(s0: Search, s: Search)
    requires Cut(s0, s)
    ensures var s2 := Closedown(s, |s0.stack|);
      s2.comps == s.comps + [Reversed(s.stack[|s0.stack|..])] && s2.nn == s.nn && s2.es == s.es && s2.Sane()
  {}

  lemma PopFinished(s0: Search, s: Search, gray: set<nat>, v: nat)
    requires Looping(s0, s, gray, v, |s.es|) && s.low[v] == s.index[v]
    ensures Cut(s0, s) && Closedown(s, |s0.stack|).Sane() && Closedown(s, |s0.stack|).Finished()
  {
    hide Looping, Cut, Search.Marks, Search.Listed, Closedown, Mutual, Fresh;
    IsCut(s0, s, gray, v);
    ClosedComps(s0, s);
    var s2 := Closedown(s, |s0.stack|);
    EnclosedSet(s0, s, gray, v);
    BelowCount(s);
    StackedNoFinal(s0, s);
    forall x: nat | x < s.nn
      ensures s2.component[x] == if x in Fresh(s0, s) then |s.comps| else s.component[x]
    {
      PoppedComponent(s0, s, x);
    }
    forall e | e in s2.es && s2.component[e.a] >= 0 ensures 0 <= s2.component[e.b] <= s2.component[e.a] {
      assert e.a in Fresh(s0, s) + Finals(s);
    }
    hide Search.Sane;
    forall x: nat, y: nat | x < s2.nn && y < s2.nn && s2.component[x] >= 0 && s2.component[y] >= 0
      ensures s2.component[x] == s2.component[y] <==> Mutual(s2.es, x, y)
    {
      SameOrNot(s0, s, gray, v, x, y);
    }
  }

  lemma StackedNoFinal(s0: Search, s: Search)
    requires Cut(s0, s)
    ensures forall x | x in Fresh(s0, s) :: x !in Finals(s)
  {}

  lemma BelowCount(s: Search)
    requires s.Marks()
    ensures forall x: nat | x < s.nn :: s.component[x] < |s.comps|
  {}

  lemma SameOrNot(s0: Search, s: Search, gray: set<nat>, v: nat, x: nat, y: nat)
    requires x < s.nn && y < s.nn && Cut(s0, s) && |Closedown(s, |s0.stack|).component| == s.nn
    requires Looping(s0, s, gray, v, |s.es|) && s.low[v] == s.index[v]
    requires Closedown(s, |s0.stack|).component[x] >= 0 && Closedown(s, |s0.stack|).component[y] >= 0
    ensures var c := Closedown(s, |s0.stack|).component; c[x] == c[y] <==> Mutual(s.es, x, y)
  {
    IsCut(s0, s, gray, v);
    BelowCount(s);
    PoppedComponent(s0, s, x);
    PoppedComponent(s0, s, y);
    InCut(s0, s);
    CutFacts(s0, s);
    hide Looping, Cut, Search.Marks, Search.Listed, Closedown, Fresh, Reach;
    if x in Fresh(s0, s) && y in Fresh(s0, s) {
      PoppedMutual(s0, s, gray, v, x, y);
    } else if x in Fresh(s0, s) || y in Fresh(s0, s) {
      if Mutual(s.es, x, y) {
        if x in Fresh(s0, s) { FinalsClosed(s, y, x); } else { FinalsClosed(s, x, y); }
      }
    }
  }

  lemma PopGray(s0: Search, s: Search, gray: set<nat>, v: nat)
    requires Looping(s0, s, gray, v, |s.es|)
    ensures s0.Sane() && (forall x | x in gray :: x in s0.stack) && (forall y | y in s0.stack :: s0.Grounded(gray, y))
    ensures forall i: nat, j: nat | i <= j < |s0.stack| :: Reach(s.es, s0.stack[i], s0.stack[j])
    ensures forall y | y in s0.stack :: y < s0.nn && s0.index[y] == s.index[y]
    ensures s.Sane() && s.nn == s0.nn && s.es == s0.es
    ensures forall e | e in s.es && s.index[e.a] >= 0 && e.a !in gray :: s.index[e.b] >= 0
  {
    hide Reach, Search.Listed, Search.LowMet, Search.Finished, Scanned, Bounded, Search.Grounded, Search.Marks;
    StackNumbered(s0, gray);
    AllSeen(s0, s, gray, v);
    forall e | e in s.es && s.index[e.a] >= 0 && e.a !in gray ensures s.index[e.b] >= 0 {
      if e.a != v { assert e.a !in gray + {v}; }
    }
  }

  lemma PopHangs(s0: Search, s: Search, gray: set<nat>, v: nat)
    requires Looping(s0, s, gray, v, |s.es|) && s.low[v] == s.index[v]
    ensures Cut(s0, s) && Closedown(s, |s0.stack|).Sane() && Closedown(s, |s0.stack|).Hangs(gray)
  {
    hide Looping, Cut, Closedown, Reach, Search.Listed, Search.Finished, Search.Grounded, Search.Marks, Fresh;
    IsCut(s0, s, gray, v);
    ClosedComps(s0, s);
    PoppedComponent(s0, s, v);
    PopGray(s0, s, gray, v);
    var s2 := Closedown(s, |s0.stack|);
    forall y | y in s2.stack ensures s2.Grounded(gray, y) {
      GroundKept(s0, s2, gray, gray, y);
    }
  }

  lemma PopStep(s0: Search, s: Search, gray: set<nat>, v: nat)
    requires Looping(s0, s, gray, v, |s.es|) && s.low[v] == s.index[v]
    ensures Cut(s0, s) && Called(s0, Closedown(s, |s0.stack|), gray, v)
  {
    IsCut(s0, s, gray, v);
    BelowCount(s);
    hide Reach, Search.Listed, Search.LowMet, Search.Finished, Scanned, Bounded, Search.Hangs, Search.Marks, Later, Cut,
      Closedown, Fresh;
    PopMarks(s0, s);
    PopLater(s0, s);
    PopListed(s0, s);
    PopFinished(s0, s, gray, v);
    PopHangs(s0, s, gray, v);
    PoppedComponent(s0, s, v);
    PopBounded(s0, s);
  }

  lemma PopBounded(s0: Search, s: Search)
    requires Cut(s0, s)
    ensures var s2 := Closedown(s, |s0.stack|); s2.Sane() && forall b: int :: Bounded(s0, s2, {}, b)
  {
    CutFacts(s0, s);
  }

  lemma {:induction false} ReversedCons(x: nat, m: seq<nat>)
    ensures Reversed([x] + m) == Reversed(m) + [x]
  {
    if m != [] {
      var k := m[..|m| - 1];
      ReversedCons(x, k);
      assert ([x] + m)[..|m|] == [x] + k;
    }
  }

  /** One more node off the stack. */
  lemma PopOne(s: Search, n: nat, c: nat, s2: Search, w: nat)
    requires s.Sane() && 0 < n <= |s.stack| && w == s.stack[n - 1] && w < s.nn && |Popped(s, n, c).onstack| == |Popped(s, n, c).component| == s.nn
    requires s2 == Popped(s, n, c).(stack := s.stack[..n - 1], onstack := Popped(s, n, c).onstack[w := false],
                                    component := Popped(s, n, c).component[w := c])
    ensures s2 == Popped(s, n - 1, c)
    ensures Reversed(s.stack[n - 1..]) == Reversed(s.stack[n..]) + [w]
  {
    hide Reversed;
    assert s.stack[n - 1..] == [w] + s.stack[n..];
    ReversedCons(w, s.stack[n..]);
    var t := Popped(s, n - 1, c);
    assert s.stack[..n][..n - 1] == s.stack[..n - 1];
    forall x: nat | x < s.nn ensures s2.onstack[x] == t.onstack[x] && s2.component[x] == t.component[x] {
      assert x in s.stack[n - 1..] <==> x == w || x in s.stack[n..];
    }
    assert s2.onstack == t.onstack;
    assert s2.component == t.component;
  }

  lemma PoppedNone(s: Search, c: nat)
    requires s.Sane()
    ensures Popped(s, |s.stack|, c) == s && Reversed(s.stack[|s.stack|..]) == []
  {
    var t := Popped(s, |s.stack|, c);
    assert t.onstack == s.onstack && t.component == s.component && t.stack == s.stack;
  }
}
