/** Tarjan's algorithm as the planner runs it over its edge array. */
module PlanTarjan {
  import opened Sequences
  import opened PlanGraph
  import opened PlanSearch
  import opened PlanPopping

  class Components {
    const nn: nat
    const es: seq<Edge>
    var index: seq<int>
    var low: seq<int>
    var onstack: seq<bool>
    var component: seq<int>
    var stack: seq<nat>
    var nextIndex: nat
    var comps: seq<seq<nat>>

    ghost function Now(): Search
      reads this
    {
      Search(nn, es, index, low, onstack, component, stack, nextIndex, comps)
    }

    /** The graph of a plan: at most 512 packages, edges between them. */
    constructor (nn: nat, es: seq<Edge>)
      requires nn <= MAX_NODES && forall e | e in es :: e.a < nn && e.b < nn
      ensures this.nn == nn && this.es == es
    {
      this.nn, this.es := nn, es;
      index, low, onstack, component := [], [], [], [];
      stack, nextIndex, comps := [], 0, [];
    }

    /** The part of tarjan that takes a component off the stack. */
    method PopComponent(v: nat, ghost s0: Search)
      requires v < nn && Cut(s0, Now()) && s0.stack + [v] <= stack
      modifies `stack, `onstack, `component, `comps
      ensures Now() == Closedown(old(Now()), |s0.stack|)
    {
      hide Reversed;
      ghost var s := Now();
      var members := [];
      var done := false;
      PoppedNone(s, |comps|);
      assert s.stack[|s0.stack|] == v;
      while !done
        invariant |s0.stack| <= |stack| <= |s.stack| && |onstack| == |component| == nn && comps == s.comps
        invariant Now() == Popped(s, |stack|, |comps|) && members == Reversed(s.stack[|stack|..])
        invariant done <==> |stack| == |s0.stack|
        decreases |stack|
      {
        var w := stack[|stack| - 1];
        assert w == s.stack[|stack| - 1] && w in s.stack;
        ghost var n := |stack|;
        stack := stack[..|stack| - 1];
        onstack := onstack[w := false];
        component := component[w := |comps|];
        members := members + [w];
        PopOne(s, n, |comps|, Now(), w);
        done := w == v;
      }
      comps := comps + [members];
    }

    /** tarjan: the call for v; gray are the nodes whose calls are under way. */
    method Visit(v: nat, ghost gray: set<nat>)
      requires Now().Valid(gray) && v < nn && index[v] < 0
      requires forall x | x in gray :: Reach(es, x, v)
      modifies this
      ensures Called(old(Now()), Now(), gray, v)
      decreases nn - nextIndex
    {
      hide Reach, Search.Valid, Closedown, Called, Scanned, Bounded, Search.LowMet, Later;
      ghost var s0 := Now();
      LoopBegins(s0, gray, v);
      index, low := index[v := nextIndex], low[v := nextIndex];
      nextIndex := nextIndex + 1;
      stack := stack + [v];
      onstack := onstack[v := true];
      assert Now() == Entered(s0, v);
      var i := 0;
      while i < |es|
        invariant 0 <= i <= |es| && Looping(s0, Now(), gray, v, i)
      {
        ghost var s := Now();
        if es[i].a == v {
          var w := es[i].b;
          InGraph(s0, s, gray, v, i);
          if index[w] < 0 {
            CallReady(s0, s, gray, v, i);
            Visit(w, gray + {v});
            CalledSane(s, Now(), gray + {v}, w);
            CallStep(s0, s, Now(), gray, v, i);
            if low[w] < low[v] { low := low[v := low[w]]; }
          } else {
            SeenStep(s0, s, gray, v, i);
            if onstack[w] && index[w] < low[v] { low := low[v := index[w]]; }
          }
        } else {
          SeenStep(s0, s, gray, v, i);
        }
        i := i + 1;
      }
      ghost var s := Now();
      LowBelow(s0, s, gray, v);
      if low[v] == index[v] {
        PopStep(s0, s, gray, v);
        IsCut(s0, s, gray, v);
        assert |comps| < MAX_NODES by { RoomLeft(s); }
        PopComponent(v, s0);
      } else {
        KeepStep(s0, s, gray, v);
      }
    }

    /** build_components */
    method Build()
      requires nn <= MAX_NODES && forall e | e in es :: e.a < nn && e.b < nn
      modifies this
      ensures Solved(nn, es, component, comps)
    {
      hide Search.Valid, Called, Solved, Reach;
      nextIndex, stack, comps := 0, [], [];
      index, low := seq(nn, _ => -1), seq(nn, _ => 0);
      onstack, component := seq(nn, _ => false), seq(nn, _ => -1);
      Unstarted(Now());
      var i := 0;
      while i < nn
        invariant 0 <= i <= nn && Now().Valid({}) && |index| == nn
        invariant forall x: nat | x < i :: index[x] >= 0
      {
        ghost var s := Now();
        if index[i] < 0 {
          Visit(i, {});
          CalledMeans(s, Now(), {}, i);
        }
        i := i + 1;
      }
      AllDone(Now());
    }
  }

  /** component marks exactly the strongly connected components, listed in comps with dependencies numbered first. */
  ghost predicate Solved(nn: nat, es: seq<Edge>, component: seq<int>, comps: seq<seq<nat>>) {
    && |component| == nn && |comps| <= nn && (forall e | e in es :: e.a < nn && e.b < nn)
    && (forall x: nat | x < nn :: 0 <= component[x] < |comps|)
    && (forall x: nat, y: nat | x < nn && y < nn :: component[x] == component[y] <==> Mutual(es, x, y))
    && (forall e | e in es :: component[e.b] <= component[e.a])
    && (forall c: nat, x: nat {:trigger x in comps[c]} | c < |comps| && x in comps[c] :: x < nn && component[x] == c)
    && (forall x: nat | x < nn :: x in comps[component[x]])
    && (forall c: nat | c < |comps| :: comps[c] != [] && Distinct(comps[c]))
  }

  lemma Unstarted(s: Search)
    requires s.nn <= MAX_NODES && (forall e | e in s.es :: e.a < s.nn && e.b < s.nn)
    requires s.index == seq(s.nn, _ => -1) && |s.low| == s.nn && s.onstack == seq(s.nn, _ => false)
    requires s.component == seq(s.nn, _ => -1) && s.stack == [] && s.nextIndex == 0 && s.comps == []
    ensures s.Valid({})
  {
    assert s.Visited() == {};
  }

  lemma CalledMeans(s: Search, s2: Search, gray: set<nat>, w: nat)
    requires Called(s, s2, gray, w)
    ensures s2.Valid(gray) && |s2.index| == s2.nn == s.nn == |s.index| && w < s.nn && s2.index[w] >= 0
    ensures forall x: nat | x < s.nn && s.index[x] >= 0 :: s2.index[x] == s.index[x]
  {
    hide Search.Finished, Search.Listed, Search.Hangs, Search.LowMet, Bounded, Search.Marks;
  }

  lemma SomeGround(s: Search, gray: set<nat>)
    requires s.Sane() && s.Hangs(gray) && s.stack != []
    ensures s.Grounded(gray, s.stack[0])
  {}

  lemma AllDone(s: Search)
    requires s.Valid({}) && forall x: nat | x < s.nn && x < |s.index| :: s.index[x] >= 0
    ensures Solved(s.nn, s.es, s.component, s.comps)
  {
    hide Mutual, Reach;
    hide Search.Hangs;
    if s.stack != [] {
      SomeGround(s, {});
      assert false;
    }
    VisitedBound(s);
  }

  /** The guard on the number of components never fires. */
  lemma RoomLeft(s: Search)
    requires s.Marks() && s.stack != []
    ensures |s.comps| < MAX_NODES
  {
    VisitedBound(s);
  }

  lemma LowBelow(s0: Search, s: Search, gray: set<nat>, v: nat)
    requires Looping(s0, s, gray, v, |s.es|)
    ensures v < s.nn && |s.low| == |s.index| == s.nn && s.low[v] <= s.index[v]
  {
    hide Reach, Search.Finished, Search.Listed, Search.LowMet, Search.Hangs, Scanned, Bounded;
  }

  lemma InGraph(s0: Search, s: Search, gray: set<nat>, v: nat, i: nat)
    requires Looping(s0, s, gray, v, i) && i < |s.es|
    ensures s.es[i].a < s.nn && s.es[i].b < s.nn && |s.index| == |s.onstack| == |s.low| == s.nn && v < s.nn
    ensures s.Valid(gray + {v}) && s.nextIndex > s0.nextIndex && s.nextIndex <= s.nn && s.es == s0.es && s.nn == s0.nn
  {
    hide Reach, Search.Finished, Search.Listed, Search.LowMet, Search.Hangs, Scanned, Bounded;
    assert s.es[i] in s.es;
    VisitedBound(s);
  }

  lemma CalledSane(s: Search, s2: Search, gray: set<nat>, w: nat)
    requires Called(s, s2, gray, w)
    ensures |s2.low| == s.nn && w < s.nn
  {
    hide Search.Valid, Bounded, Search.LowMet;
  }
}
