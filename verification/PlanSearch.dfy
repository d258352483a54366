/** The state of the search for strongly connected components, and what every step of it keeps. */
module PlanSearch {
  import opened Sequences
  import opened PlanGraph

  const MAX_NODES: nat := 512

  /** The fields of plan_t that the component search works on. */
  datatype Search = Search(nn: nat, es: seq<Edge>, index: seq<int>, low: seq<int>, onstack: seq<bool>,
                           component: seq<int>, stack: seq<nat>, nextIndex: nat, comps: seq<seq<nat>>)
  {
    ghost predicate Sane() {
      && nn <= MAX_NODES && (forall e | e in es :: e.a < nn && e.b < nn)
      && |index| == |low| == |onstack| == |component| == nn
    }

    ghost function Visited(): set<nat>
      requires Sane()
    {
      set x: nat | x < nn && index[x] >= 0
    }

    /** Numbers, marks and stack tell the same story. */
    ghost predicate Marks() {
      && Sane() && |Visited()| == nextIndex && Agree()
    }

    ghost predicate Agree()
      requires Sane()
    {
      && (forall x: nat | x < nn :: -1 <= index[x] < nextIndex)
      && (forall i: nat | i < |stack| :: stack[i] < nn && onstack[stack[i]] && index[stack[i]] >= 0)
      && (forall x: nat | x < nn && onstack[x] :: x in stack)
      && (forall i: nat, j: nat | i < j < |stack| :: index[stack[i]] < index[stack[j]])
      && (forall x: nat | x < nn :: component[x] >= 0 <==> index[x] >= 0 && !onstack[x])
      && (forall x: nat | x < nn :: -1 <= component[x] < |comps|)
      && |comps| + |stack| <= nextIndex
    }

    /** The members of the components are the nodes marked with them, once each. */
    ghost predicate Listed()
      requires Sane()
    {
      && (forall c: nat, x: nat {:trigger x in comps[c]} | c < |comps| && x in comps[c] :: x < nn && component[x] == c)
      && (forall x: nat | x < nn && 0 <= component[x] < |comps| :: x in comps[component[x]])
      && (forall c: nat | c < |comps| :: comps[c] != [] && Distinct(comps[c]))
    }

    /** Finished components are the strongly connected ones, numbered dependencies first. */
    ghost predicate Finished()
      requires Sane()
    {
      && (forall e | e in es && component[e.a] >= 0 :: 0 <= component[e.b] <= component[e.a])
      && (forall x: nat, y: nat | x < nn && y < nn && component[x] >= 0 && component[y] >= 0 ::
            component[x] == component[y] <==> Mutual(es, x, y))
    }

    /** y leads back to a gray node no younger than itself. */
    ghost predicate Grounded(gray: set<nat>, y: nat)
      requires Sane()
    {
      exists x :: x in gray && x < nn && y < nn && index[x] <= index[y] && Reach(es, y, x)
    }

    /** What is on the stack hangs together; gray nodes are those whose call is not over. */
    ghost predicate Hangs(gray: set<nat>)
      requires Sane()
    {
      && (forall x | x in gray :: x in stack)
      && (forall e | e in es && index[e.a] >= 0 && e.a !in gray :: index[e.b] >= 0)
      && (forall i: nat, j: nat | i <= j < |stack| :: Reach(es, stack[i], stack[j]))
      && (forall y | y in stack :: Grounded(gray, y))
    }

    ghost predicate Valid(gray: set<nat>) {
      Sane() && Marks() && Listed() && Finished() && Hangs(gray)
    }

    /** low[v] is the number of a node on the stack that v reaches. */
    ghost predicate LowMet(v: nat)
      requires Sane()
    {
      v < nn && exists y :: y in stack && y < nn && index[y] == low[v] && Reach(es, v, y)
    }
  }

  /** s2 is s after more of the search: nothing decided is changed. */
  ghost predicate Later(s: Search, s2: Search) {
    && s.Sane() && s2.Sane() && s2.nn == s.nn && s2.es == s.es
    && s.stack <= s2.stack && s.comps <= s2.comps && s.nextIndex <= s2.nextIndex
    && (forall x: nat | x < s.nn && s.index[x] >= 0 ::
          s2.index[x] == s.index[x] && s2.low[x] == s.low[x] && s2.component[x] == s.component[x])
  }

  // ---- entering a node ----

  function Entered(s: Search, v: nat): Search
    requires v < |s.index| && v < |s.low| && v < |s.onstack|
  {
    s.(index := s.index[v := s.nextIndex], low := s.low[v := s.nextIndex], nextIndex := s.nextIndex + 1,
       stack := s.stack + [v], onstack := s.onstack[v := true])
  }

  lemma EnterMarks(s: Search, v: nat)
    requires s.Marks() && v < s.nn && s.index[v] < 0
    ensures Entered(s, v).Marks()
  {
    var s2 := Entered(s, v);
    assert s2.Agree();
    hide Search.Agree;
    assert s2.Visited() == s.Visited() + {v};
  }

  lemma EnterReach(s: Search, gray: set<nat>, v: nat, i: nat, j: nat)
    requires s.Valid(gray) && v < s.nn && s.index[v] < 0
    requires forall x | x in gray :: Reach(s.es, x, v)
    requires i <= j < |s.stack| + 1
    ensures Reach(s.es, (s.stack + [v])[i], (s.stack + [v])[j])
  {
    hide Reach;
    if i == |s.stack| {
      ReachSelf(s.es, v);
    } else if j == |s.stack| {
      var y := s.stack[i];
      assert s.Grounded(gray, y);
      var x :| x in gray && x < s.nn && s.index[x] <= s.index[y] && Reach(s.es, y, x);
      ReachTrans(s.es, y, x, v);
    }
  }

  /** Ground is kept as gray grows and new nodes get numbers. */
  lemma GroundKept(s: Search, s2: Search, gray: set<nat>, gray2: set<nat>, y: nat)
    requires s.Sane() && s2.Sane() && s2.nn == s.nn && s2.es == s.es && s.Grounded(gray, y) && gray <= gray2
    requires forall x | x in gray || x == y :: x < s.nn && s2.index[x] == s.index[x]
    ensures s2.Grounded(gray2, y)
  {
    hide Reach;
    var x :| x in gray && x < s.nn && y < s.nn && s.index[x] <= s.index[y] && Reach(s.es, y, x);
    assert x in gray2;
  }

  lemma EnterStep(s: Search, gray: set<nat>, v: nat)
    requires s.Valid(gray) && v < s.nn && s.index[v] < 0
    requires forall x | x in gray :: Reach(s.es, x, v)
    ensures Entered(s, v).Valid(gray + {v})
    ensures s.nextIndex < s.nn
  {
    hide Reach, Mutual, Search.Grounded, Distinct, Search.Marks;
    var s2 := Entered(s, v);
    EnterMarks(s, v);
    VisitedBound(s2);
    assert s2.Listed() by { hide Search.Finished, Search.Hangs; }
    assert s2.Finished() by { hide Search.Listed, Search.Hangs; }
    hide Search.Listed, Search.Finished;
    forall i: nat, j: nat | i <= j < |s2.stack| ensures Reach(s.es, s2.stack[i], s2.stack[j]) {
      EnterReach(s, gray, v, i, j);
    }
    StackNumbered(s, gray);
    forall y | y in s2.stack ensures s2.Grounded(gray + {v}, y) {
      if y == v {
        NewGround(s2, gray + {v}, v);
      } else {
        assert y in s.stack;
        GroundKept(s, s2, gray, gray + {v}, y);
      }
    }
  }

  lemma NewGround(s: Search, gray: set<nat>, v: nat)
    requires s.Sane() && v < s.nn && v in gray
    ensures s.Grounded(gray, v)
  {
    ReachSelf(s.es, v);
    assert v in gray && s.index[v] <= s.index[v] && Reach(s.es, v, v);
  }

  lemma VisitedBound(s: Search)
    requires s.Marks()
    ensures s.nextIndex <= s.nn
  {
    Subset(s.Visited(), Below(s.nn));
  }

  ghost function Below(n: nat): (s: set<nat>)
    ensures |s| == n && forall x: nat :: x in s <==> x < n
  {
    if n == 0 then {} else Below(n - 1) + {n - 1}
  }

  lemma {:induction false} Subset<T>(a: set<T>, b: set<T>)
    requires a <= b
    ensures |a| <= |b|
    decreases b
  {
    if a != {} {
      var x :| x in a;
      Subset(a - {x}, b - {x});
    }
  }

  // ---- the loop over a node's edges ----

  /** No edge from a node stacked since s0 (but for those of skip) into the stack of s0 ends below bound. */
  ghost predicate Bounded(s0: Search, s: Search, skip: set<nat>, bound: int)
    requires s0.Sane() && s.Sane() && s.nn == s0.nn
  {
    forall e | e in s.es && e.a in s.stack && e.a !in s0.stack && e.a !in skip && e.b in s0.stack :: bound <= s.index[e.b]
  }

  /** The first i edges, as far as they leave v, are accounted for. */
  ghost predicate Scanned(s0: Search, s: Search, v: nat, i: nat)
    requires s0.Sane() && s.Sane() && s.nn == s0.nn && v < s.nn && i <= |s.es|
  {
    forall k: nat | k < i && s.es[k].a == v ::
      s.index[s.es[k].b] >= 0 && (s.es[k].b in s0.stack ==> s.low[v] <= s.index[s.es[k].b])
  }

  /** State of the loop in the call for v that began in s0. */
  ghost predicate Looping(s0: Search, s: Search, gray: set<nat>, v: nat, i: nat) {
    && s0.Valid(gray) && v < s0.nn && s0.index[v] < 0 && (forall x | x in gray :: Reach(s0.es, x, v))
    && Later(s0, s) && s0.stack + [v] <= s.stack && s.index[v] == s0.nextIndex && s.nextIndex > s0.nextIndex
    && s.Valid(gray + {v}) && s.low[v] <= s.index[v] && s.LowMet(v)
    && i <= |s.es| && Scanned(s0, s, v, i) && Bounded(s0, s, {v}, s.low[v])
  }

  lemma EnterLater(s: Search, v: nat)
    requires s.Marks() && v < s.nn && s.index[v] < 0
    ensures Later(s, Entered(s, v)) && Bounded(s, Entered(s, v), {v}, s.nextIndex)
  {}

  lemma LoopBegins(s: Search, gray: set<nat>, v: nat)
    requires s.Valid(gray) && v < s.nn && s.index[v] < 0
    requires forall x | x in gray :: Reach(s.es, x, v)
    ensures s.nextIndex < s.nn && |s.index| == |s.low| == |s.onstack| == s.nn
    ensures Looping(s, Entered(s, v), gray, v, 0)
  {
    hide Reach, Search.Finished, Search.Listed, Search.Hangs, Search.Marks;
    EnterStep(s, gray, v);
    ReachSelf(s.es, v);
    var s2 := Entered(s, v);
    assert v in s2.stack && s2.index[v] == s2.low[v];
    assert s2.LowMet(v);
    EnterLater(s, v);
    hide Entered;
  }

  function Lowered(s: Search, v: nat, x: int): Search
    requires v < |s.low|
  {
    if x < s.low[v] then s.(low := s.low[v := x]) else s
  }

  /** low is no part of what Valid says. */
  lemma LowFree(s: Search, s2: Search, gray: set<nat>)
    requires s.Valid(gray) && s2 == s.(low := s2.low) && |s2.low| == |s.low|
    ensures s2.Valid(gray)
  {
    hide Reach, Mutual, Search.Grounded, Distinct;
    assert s2.Marks() by {
      hide Search.Listed, Search.Finished, Search.Hangs;
      assert s2.Visited() == s.Visited();
    }
    assert s2.Listed() by { hide Search.Marks, Search.Finished, Search.Hangs; }
    assert s2.Finished() by { hide Search.Marks, Search.Listed, Search.Hangs; }
    hide Search.Listed, Search.Finished, Search.Marks;
    StackNumbered(s, gray);
    forall y | y in s2.stack ensures s2.Grounded(gray, y) {
      GroundKept(s, s2, gray, gray, y);
    }
  }

  function Seen(s: Search, v: nat, i: nat): Search
    requires s.Sane() && v < s.nn && i < |s.es|
  {
    assert s.es[i] in s.es;
    if s.es[i].a == v && s.onstack[s.es[i].b] then Lowered(s, v, s.index[s.es[i].b]) else s
  }

  lemma SeenLow(s: Search, v: nat, i: nat)
    requires s.Marks() && v < s.nn && i < |s.es| && s.LowMet(v)
    ensures Seen(s, v, i).Sane() && Seen(s, v, i).LowMet(v)
  {
    hide Reach;
    assert s.es[i] in s.es;
    var w, s2 := s.es[i].b, Seen(s, v, i);
    if s2.low[v] != s.low[v] {
      ReachEdge(s.es, v, w);
      assert w in s2.stack && s2.index[w] == s2.low[v];
    }
  }

  lemma SeenScan(s0: Search, s: Search, v: nat, i: nat)
    requires s0.Sane() && s.Marks() && s.nn == s0.nn && v < s.nn && i < |s.es| && s0.stack <= s.stack
    requires Scanned(s0, s, v, i) && Bounded(s0, s, {v}, s.low[v]) && Later(s0, s) && s0.index[v] < 0
    requires s.es[i].a == v ==> s.index[s.es[i].b] >= 0
    ensures var s2 := Seen(s, v, i);
      s2.Sane() && Scanned(s0, s2, v, i + 1) && Bounded(s0, s2, {v}, s2.low[v]) && Later(s0, s2)
  {
    assert s.es[i] in s.es;
    if s.es[i].b in s0.stack { assert s.es[i].b in s.stack; }
  }

  /** An edge to a node already numbered. */
  lemma SeenStep(s0: Search, s: Search, gray: set<nat>, v: nat, i: nat)
    requires Looping(s0, s, gray, v, i) && i < |s.es|
    requires s.es[i].a == v ==> s.index[s.es[i].b] >= 0
    ensures Looping(s0, Seen(s, v, i), gray, v, i + 1)
  {
    hide Reach, Search.Finished, Search.Listed, Search.Hangs, Search.Marks, Scanned, Bounded, Search.LowMet;
    SeenLow(s, v, i);
    SeenScan(s0, s, v, i);
    LowFree(s, Seen(s, v, i), gray + {v});
    hide Later;
  }

  /** What a call for w leaves, from the state s in which it was made. */
  ghost predicate Called(s: Search, s2: Search, gray: set<nat>, w: nat) {
    && s2.Valid(gray) && Later(s, s2) && w < s.nn && s.index[w] < 0 && s2.index[w] == s.nextIndex
    && s2.low[w] <= s2.index[w] && Bounded(s, s2, {}, s2.low[w])
    && (s2.onstack[w] ==> s2.LowMet(w))
    && (!s2.onstack[w] ==> s2.low[w] == s2.index[w])
  }

  lemma CallLater(s0: Search, s: Search, s2: Search, v: nat, x: int)
    requires Later(s0, s) && Later(s, s2) && v < s0.nn && s0.index[v] < 0
    ensures Later(s0, Lowered(s2, v, x))
  {}

  lemma CallBound(s0: Search, s: Search, s2: Search, v: nat, i: nat, w: nat)
    requires s0.Sane() && Later(s0, s) && Later(s, s2) && v < s.nn && w < s.nn && i <= |s.es| && s.index[v] >= 0
    requires s0.stack + [v] <= s.stack && s.low[v] <= s.index[v]
    requires Scanned(s0, s, v, i) && Bounded(s0, s, {v}, s.low[v]) && Bounded(s, s2, {}, s2.low[w])
    requires forall x | x in s.stack :: x < s.nn && s.index[x] >= 0
    ensures var s3 := Lowered(s2, v, s2.low[w]);
      && s3.Sane() && s3.low[v] <= s.low[v] && s0.stack + [v] <= s3.stack
      && Bounded(s0, s3, {v}, s3.low[v]) && Scanned(s0, s3, v, i)
  {
    var s3 := Lowered(s2, v, s2.low[w]);
    assert s0.stack <= s.stack <= s2.stack;
    forall e | e in s3.es && e.a in s3.stack && e.a !in s0.stack && e.a != v && e.b in s0.stack
      ensures s3.low[v] <= s3.index[e.b]
    {
      assert e.b in s.stack;
      if e.a in s.stack { assert s.low[v] <= s.index[e.b]; }
    }
    forall k: nat | k < i && s3.es[k].a == v ensures s3.index[s3.es[k].b] >= 0 {
      assert s.es[k] in s.es;
    }
  }

  lemma CallLow(s: Search, s2: Search, v: nat, w: nat)
    requires s.Sane() && s2.Sane() && s.nn == s2.nn && s.es == s2.es && v < s.nn && w < s.nn && Edge(v, w) in s.es
    requires s.LowMet(v) && s.stack <= s2.stack && s2.low[v] == s.low[v]
    requires s2.low[w] < s.low[v] ==> s2.LowMet(w)
    requires forall y | y in s.stack :: y < s.nn && s2.index[y] == s.index[y]
    ensures Lowered(s2, v, s2.low[w]).LowMet(v)
  {
    hide Reach;
    var s3 := Lowered(s2, v, s2.low[w]);
    if s2.low[w] < s2.low[v] {
      ReachEdge(s.es, v, w);
      var y :| y in s2.stack && y < s2.nn && s2.index[y] == s2.low[w] && Reach(s2.es, w, y);
      ReachTrans(s.es, v, w, y);
      assert y in s3.stack && s3.index[y] == s3.low[v];
    } else {
      var y :| y in s.stack && y < s.nn && s.index[y] == s.low[v] && Reach(s.es, v, y);
      assert y in s3.stack && s3.index[y] == s3.low[v];
    }
  }

  lemma StackNumbered(s: Search, gray: set<nat>)
    requires s.Valid(gray)
    ensures s.Marks() && forall y | y in s.stack :: y < s.nn && 0 <= s.index[y] < s.nextIndex
  {
    hide Search.Finished, Search.Listed, Search.Hangs;
  }

  lemma CallStep(s0: Search, s: Search, s2: Search, gray: set<nat>, v: nat, i: nat)
    requires Looping(s0, s, gray, v, i) && i < |s.es| && s.es[i].a == v
    requires Called(s, s2, gray + {v}, s.es[i].b)
    ensures Looping(s0, Lowered(s2, v, s2.low[s.es[i].b]), gray, v, i + 1)
  {
    hide Reach, Search.Finished, Search.Listed, Search.Hangs, Bounded, Search.Marks, Search.LowMet;
    var w := s.es[i].b;
    var s3 := Lowered(s2, v, s2.low[w]);
    assert s.es[i] in s.es;
    StackNumbered(s, gray + {v});
    assert v in s.stack by { assert v == s.stack[|s0.stack|]; }
    CallBound(s0, s, s2, v, i, w);
    CallLater(s0, s, s2, v, s2.low[w]);
    LowFree(s2, s3, gray + {v});
    CallLow(s, s2, v, w);
    NoneOfOld(s0, s, w);
  }

  lemma NoneOfOld(s0: Search, s: Search, w: nat)
    requires s0.Marks() && Later(s0, s) && w < s.nn && s.index[w] < 0
    ensures w !in s0.stack
  {}

  /** Callers of the call for the next node may make it. */
  lemma CallReady(s0: Search, s: Search, gray: set<nat>, v: nat, i: nat)
    requires Looping(s0, s, gray, v, i) && i < |s.es| && s.es[i].a == v
    ensures forall x | x in gray + {v} :: Reach(s.es, x, s.es[i].b)
  {
    hide Reach, Search.Finished, Search.Listed, Search.Hangs, Bounded, Scanned, Search.Marks;
    assert s.es[i] in s.es;
    ReachEdge(s.es, v, s.es[i].b);
    forall x | x in gray + {v} ensures Reach(s.es, x, s.es[i].b) {
      if x in gray { ReachTrans(s.es, x, v, s.es[i].b); }
    }
  }

  // ---- leaving a node ----

  /** What the loop has found once all edges are seen: nothing stacked since s0 leads below low[v]. */
  lemma AllSeen(s0: Search, s: Search, gray: set<nat>, v: nat)
    requires Looping(s0, s, gray, v, |s.es|)
    ensures Bounded(s0, s, {}, s.low[v])
    ensures forall e | e in s.es && e.a == v :: s.index[e.b] >= 0
  {
    hide Reach, Search.Finished, Search.Listed, Search.Hangs, Search.Marks, Search.LowMet;
    forall e | e in s.es && e.a == v
      ensures s.index[e.b] >= 0 && (e.b in s0.stack ==> s.low[v] <= s.index[e.b])
    {
      var k: nat :| k < |s.es| && s.es[k] == e;
    }
  }

  /** v stays on the stack and is gray no more. */
  lemma KeepGround(s0: Search, s: Search, gray: set<nat>, v: nat, y: nat)
    requires Looping(s0, s, gray, v, |s.es|) && s.low[v] < s.index[v] && y in s.stack
    ensures s.Grounded(gray, y)
  {
    hide Looping, Reach;
    StackedGround(s0, s, gray, v, y);
    Ancestor(s0, s, gray, v);
    var x :| x in gray + {v} && x < s.nn && y < s.nn && s.index[x] <= s.index[y] && Reach(s.es, y, x);
    if x == v {
      var u :| u in gray && u < s.nn && s.index[u] < s.index[v] && Reach(s.es, v, u);
      ReachTrans(s.es, y, v, u);
    } else {
      assert x in gray;
    }
  }

  lemma StackedGround(s0: Search, s: Search, gray: set<nat>, v: nat, y: nat)
    requires Looping(s0, s, gray, v, |s.es|) && y in s.stack
    ensures s.Sane() && v < s.nn && s.Grounded(gray + {v}, y)
  {
    hide Reach, Search.Finished, Search.Listed, Search.LowMet, Scanned, Bounded, Search.Marks, Search.Grounded;
  }

  /** A node whose low is below its own number reaches an older gray one. */
  lemma Ancestor(s0: Search, s: Search, gray: set<nat>, v: nat)
    requires Looping(s0, s, gray, v, |s.es|) && s.low[v] < s.index[v]
    ensures s.Sane() && v < s.nn
    ensures exists u :: u in gray && u < s.nn && s.index[u] < s.index[v] && Reach(s.es, v, u)
  {
    hide Reach, Search.Finished, Search.Listed, Search.Grounded, Bounded, Scanned, Search.Marks;
    StackNumbered(s, gray + {v});
    StackNumbered(s0, gray);
    var z :| z in s.stack && z < s.nn && s.index[z] == s.low[v] && Reach(s.es, v, z);
    OldBelow(s0, s, gray, v, z);
    assert s0.Grounded(gray, z);
    GroundMeans(s0, gray, z);
    var u :| u in gray && u < s.nn && z < s.nn && s0.index[u] <= s0.index[z] && Reach(s.es, z, u);
    ReachTrans(s.es, v, z, u);
    assert u in s0.stack;
  }

  lemma GroundMeans(s: Search, gray: set<nat>, y: nat)
    requires s.Sane() && s.Grounded(gray, y)
    ensures exists x :: x in gray && x < s.nn && y < s.nn && s.index[x] <= s.index[y] && Reach(s.es, y, x)
  {}

  /** Numbers below v's are those of the older stack. */
  lemma OldBelow(s0: Search, s: Search, gray: set<nat>, v: nat, z: nat)
    requires s0.Marks() && s.Marks() && Later(s0, s) && s0.stack + [v] <= s.stack && v < s.nn
    requires z in s.stack && z < s.nn && s.index[z] < s.index[v]
    ensures z in s0.stack
  {
    var i: nat :| i < |s.stack| && s.stack[i] == z;
    assert s.stack[|s0.stack|] == v;
    assert i < |s0.stack|;
    assert s0.stack[i] == z;
  }

  lemma KeepStep(s0: Search, s: Search, gray: set<nat>, v: nat)
    requires Looping(s0, s, gray, v, |s.es|) && s.low[v] < s.index[v]
    ensures Called(s0, s, gray, v)
  {
    hide Reach, Search.Finished, Search.Listed, Search.Marks, Search.LowMet, Search.Grounded, Scanned;
    AllSeen(s0, s, gray, v);
    forall y | y in s.stack ensures s.Grounded(gray, y) { KeepGround(s0, s, gray, v, y); }
    OnStack(s0, s, gray, v);
    hide Bounded;
    forall e | e in s.es && s.index[e.a] >= 0 && e.a !in gray ensures s.index[e.b] >= 0 {
      if e.a != v { assert e.a !in gray + {v}; }
    }
    assert forall x | x in gray :: x in gray + {v};
  }

  lemma OnStack(s0: Search, s: Search, gray: set<nat>, v: nat)
    requires Looping(s0, s, gray, v, |s.es|)
    ensures s.onstack[v] && v in s.stack && s.stack[|s0.stack|] == v && |s.stack| > |s0.stack|
  {
    hide Reach, Search.Finished, Search.Listed, Search.LowMet, Search.Hangs, Bounded, Scanned;
  }
}
