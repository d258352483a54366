/** Unpacking a plan: components in dependency order, each absent package once. */
module PlanApply {
  import opened PlanGraph
  import opened PlanSearch
  import opened PlanTarjan

  /** One call of the install callback. */
  datatype Call = Call(node: nat, ok: bool)

  /** Node y is installed once the calls have been made. */
  ghost predicate Present(absent0: set<nat>, calls: seq<Call>, y: nat) {
    y !in absent0 || Call(y, true) in calls
  }

  /** At every call all that the node needs, outside its own cycle, is present already. */
  ghost predicate Ordered(es: seq<Edge>, absent0: set<nat>, calls: seq<Call>) {
    forall i: nat, y: nat | i < |calls| && Reach(es, calls[i].node, y) && !Reach(es, y, calls[i].node) ::
      Present(absent0, calls[..i], y)
  }

  /** Only absent packages are passed, none twice, and nothing after a failure. */
  ghost predicate Proper(absent0: set<nat>, calls: seq<Call>) {
    && (forall i: nat | i < |calls| :: calls[i].node in absent0)
    && (forall i: nat, j: nat | i < j < |calls| :: calls[i].node != calls[j].node)
    && (forall i: nat | i + 1 < |calls| :: calls[i].ok)
  }

  class Unpacking {
    const nn: nat
    const es: seq<Edge>
    const component: seq<int>
    const comps: seq<seq<nat>>
    /** entry_path fails for these packages: the archive's path is too long. */
    const longPath: seq<bool>
    var installed: seq<bool>
    var emitted: seq<bool>
    var calls: seq<Call>
    ghost const absent0: set<nat>

    constructor (nn: nat, es: seq<Edge>, component: seq<int>, comps: seq<seq<nat>>, longPath: seq<bool>,
                 installed: seq<bool>)
      requires Solved(nn, es, component, comps) && |installed| == |longPath| == nn
      ensures this.nn == nn && this.es == es && this.component == component && this.comps == comps
      ensures this.longPath == longPath && this.installed == installed && calls == [] && emitted == seq(|comps|, _ => false)
      ensures absent0 == (set x: nat | x < nn && !installed[x])
      ensures Valid()
    {
      this.nn, this.es, this.component, this.comps, this.longPath := nn, es, component, comps, longPath;
      this.installed, emitted, calls := installed, seq(|comps|, _ => false), [];
      absent0 := set x: nat | x < nn && !installed[x];
    }

    ghost predicate Valid()
      reads this
    {
      && Solved(nn, es, component, comps) && |installed| == |longPath| == nn && |emitted| == |comps|
      && (forall x: nat | x < nn :: installed[x] <==> Present(absent0, calls, x))
      && (forall x | x in absent0 :: x < nn)
      && Ordered(es, absent0, calls) && Proper(absent0, calls) && (forall c | c in calls :: c.ok)
    }

    /** Everything the members of component c need, and they themselves, is installed. */
    ghost predicate Done(c: nat)
      reads this
      requires |component| == |installed| == nn
    {
      forall x: nat, y: nat | x < nn && y < nn && component[x] == c && Reach(es, x, y) :: installed[y]
    }

    /** Components up to n that were begun are done. */
    ghost predicate DoneUpto(n: int)
      reads this
      requires |component| == |installed| == nn
    {
      forall c: nat | c < n && c < |emitted| && emitted[c] :: Done(c)
    }

    /** The dependencies outside component c of node x are among those begun. */
    ghost predicate Begun(begun: seq<bool>, c: nat, x: nat, k: nat)
      requires |component| == nn && k <= |es| && forall e | e in es :: e.a < nn && e.b < nn
    {
      forall i: nat | i < k && es[i].a == x && InGraph(es[i]) && component[es[i].b] != c ::
        0 <= component[es[i].b] < |begun| && begun[component[es[i].b]]
    }

    ghost predicate InGraph(e: Edge) { e.a < nn && e.b < nn }

    /** What a component's members lead to outside it is installed once their dependencies are done. */
    lemma Outside(c: nat, x: nat, y: nat)
      requires Valid() && c < |comps| && DoneUpto(c) && x < nn && component[x] == c
      requires forall z: nat | z < nn && component[z] == c :: Begun(emitted, c, z, |es|)
      requires Reach(es, x, y) && (y >= nn || component[y] != c)
      ensures y < nn && installed[y]
    {
      var p: seq<nat> :| Connects(es, p, x, y);
      var s := set z: nat | z < nn && component[z] == c;
      var i := WayOut(es, s, p);
      var e := Edge(p[i], p[i + 1]);
      var k: nat :| k < |es| && es[k] == e;
      assert Begun(emitted, c, e.a, |es|) && InGraph(es[k]);
      var d := component[e.b];
      assert emitted[d] && Done(d);
      InsideGraph(e.b, y);
      assert Reach(es, e.b, y);
    }

    lemma InsideGraph(x: nat, y: nat)
      requires x < nn && Reach(es, x, y) && forall e | e in es :: e.a < nn && e.b < nn
      ensures y < nn
    {
      ClosedReach(es, Below(nn), x, y);
    }

    /** Why unpacking stops: the last call has failed, or an absent package whose turn it is has a path too long. */
    ghost predicate Stopped()
      reads this
    {
      || (calls != [] && !calls[|calls| - 1].ok)
      || exists x: nat :: x in absent0 && x < |longPath| && longPath[x] && forall c | c in calls :: c.node != x && c.ok
    }

    /** The callback: it may fail at will. */
    method Unpack(x: nat) returns (rc: int)
      requires Valid() && x < nn && !installed[x] && 0 <= component[x] < |comps|
      requires forall y: nat | Reach(es, x, y) && !Reach(es, y, x) :: y < nn && installed[y]
      modifies `calls, `installed
      ensures calls == old(calls) + [Call(x, rc == 0)]
      ensures rc == 0 ==> Valid() && installed == old(installed)[x := true]
      ensures rc != 0 ==> Ordered(es, absent0, calls) && Proper(absent0, calls) && Stopped() && installed == old(installed)
    {
      rc := *;
      ghost var was := calls;
      calls := calls + [Call(x, rc == 0)];
      OneMoreCall(es, absent0, was, x, rc == 0);
      if rc == 0 { installed := installed[x := true]; }
      forall y: nat | y < nn && rc == 0 ensures installed[y] <==> Present(absent0, calls, y) {
        if Call(y, true) in calls { assert Call(y, true) in was || y == x; }
        if Call(y, true) in was { assert Call(y, true) in calls; }
        assert rc == 0 ==> Call(x, true) in calls;
      }
    }

    /** apply_component */
    method ApplyComponent(ci: nat) returns (rc: int)
      requires Valid() && ci < |comps| && DoneUpto(ci + 1)
      modifies `calls, `installed, `emitted
      ensures rc == 0 ==> Valid() && DoneUpto(ci + 1) && emitted[ci]
      ensures rc == 0 ==> Onward(old(installed), old(emitted), ci)
      ensures rc != 0 ==> Ordered(es, absent0, calls) && Proper(absent0, calls) && Stopped()
      decreases ci, 1
    {
      hide Ordered, Proper, Reach, Present, Begun, Solved, Stopped;
      if emitted[ci] { return 0; }
      emitted := emitted[ci := true];
      var members := comps[ci];
      MembersOf(ci);
      var mi := 0;
      while mi < |members|
        invariant 0 <= mi <= |members| && Valid() && DoneUpto(ci) && emitted[ci]
        invariant Onward(old(installed), old(emitted), ci)
        invariant forall m: nat | m < mi :: Begun(emitted, ci, members[m], |es|)
      {
        assert members[mi] in members;
        ghost var was := emitted;
        rc := ApplyDependencies(ci, members[mi]);
        if rc != 0 { return 1; }
        forall m: nat | m < mi ensures Begun(emitted, ci, members[m], |es|) { StillBegun(was, emitted, ci, members[m]); }
        mi := mi + 1;
      }
      forall z: nat | z < nn && component[z] == ci ensures Begun(emitted, ci, z, |es|) {
        var m: nat :| m < |members| && members[m] == z;
      }
      rc := UnpackMembers(ci);
    }

    lemma MembersOf(ci: nat)
      requires Valid() && ci < |comps|
      ensures forall x: nat :: x in comps[ci] <==> x < nn && component[x] == ci
      ensures (forall e | e in es :: e.a < nn && e.b < nn) && |component| == nn
    {
      forall x: nat ensures x in comps[ci] <==> x < nn && component[x] == ci {
        if x < nn && component[x] == ci { assert x in comps[component[x]]; }
      }
    }

    lemma StillBegun(was: seq<bool>, now: seq<bool>, c: nat, x: nat)
      requires |component| == nn && forall e | e in es :: e.a < nn && e.b < nn
      requires |was| == |now| && forall k: nat | k < |was| && was[k] :: now[k]
      requires Begun(was, c, x, |es|)
      ensures Begun(now, c, x, |es|)
    {}

    /** The inner loop over the edges of member n. */
    method ApplyDependencies(ci: nat, n: nat) returns (rc: int)
      requires Valid() && ci < |comps| && DoneUpto(ci) && emitted[ci] && n in comps[ci]
      modifies `calls, `installed, `emitted
      ensures rc == 0 ==> Valid() && DoneUpto(ci) && emitted[ci] && Begun(emitted, ci, n, |es|)
      ensures rc == 0 ==> Onward(old(installed), old(emitted), ci)
      ensures rc != 0 ==> Ordered(es, absent0, calls) && Proper(absent0, calls) && Stopped()
      decreases ci, 0
    {
      hide Ordered, Proper, Reach, Present, Stopped;
      MembersOf(ci);
      var ei := 0;
      while ei < |es|
        invariant 0 <= ei <= |es| && Valid() && DoneUpto(ci) && emitted[ci] && Begun(emitted, ci, n, ei)
        invariant Onward(old(installed), old(emitted), ci)
      {
        assert es[ei] in es;
        if es[ei].a == n {
          var dc := component[es[ei].b];
          if dc != ci {
            var more := ApplyComponent(dc);
            if more != 0 { return 1; }
          }
        }
        ei := ei + 1;
      }
      rc := 0;
    }

    /** A package not installed has not been passed on. */
    lemma NotPassed(x: nat)
      requires Valid() && x < nn && !installed[x] && longPath[x]
      ensures Stopped()
    {
      hide Ordered, Proper, Solved;
      forall c | c in calls ensures c.node != x && c.ok { assert c == Call(c.node, true); }
    }

    lemma NotMutual(c: nat, x: nat, y: nat)
      requires Valid() && c < |comps| && x < nn && component[x] == c && !Reach(es, y, x)
      ensures y < nn ==> component[y] != c
    {}

    /** The loop that unpacks the members of a component whose dependencies are done. */
    method UnpackMembers(ci: nat) returns (rc: int)
      requires Valid() && ci < |comps| && DoneUpto(ci) && emitted[ci]
      requires forall z: nat | z < nn && component[z] == ci :: Begun(emitted, ci, z, |es|)
      modifies `calls, `installed
      ensures rc == 0 ==> Valid() && DoneUpto(ci + 1)
      ensures rc == 0 ==> forall x: nat | x < nn && old(installed)[x] :: installed[x]
      ensures rc != 0 ==> Ordered(es, absent0, calls) && Proper(absent0, calls) && Stopped()
    {
      hide Ordered, Proper, Reach, Present, Stopped;
      MembersOf(ci);
      var members := comps[ci];
      var mi := 0;
      while mi < |members|
        invariant 0 <= mi <= |members| && Valid() && DoneUpto(ci)
        invariant forall m: nat | m < mi :: members[m] < nn && installed[members[m]]
        invariant forall x: nat | x < nn && old(installed)[x] :: installed[x]
      {
        var x := members[mi];
        assert x in members;
        if !installed[x] {
          if longPath[x] {
            NotPassed(x);
            return 1;
          }
          forall y: nat | Reach(es, x, y) && !Reach(es, y, x) ensures y < nn && installed[y] {
            NotMutual(ci, x, y);
            Outside(ci, x, y);
          }
          var failed := Unpack(x);
          if failed != 0 { return 1; }
        }
        mi := mi + 1;
      }
      forall x: nat, y: nat | x < nn && y < nn && component[x] == ci && Reach(es, x, y) ensures installed[y] {
        if component[y] != ci { Outside(ci, x, y); } else { assert y in members; }
      }
      rc := 0;
    }

    /** Nothing is uninstalled, and components beyond ci are as they were. */
    ghost predicate Onward(installed1: seq<bool>, emitted1: seq<bool>, ci: nat)
      reads this
    {
      && |installed1| == |installed| && |emitted1| == |emitted|
      && (forall x: nat | x < |installed| && installed1[x] :: installed[x])
      && (forall c: nat | c < |emitted| && emitted1[c] :: emitted[c])
      && (forall c: nat | ci < c < |emitted| :: emitted[c] == emitted1[c])
    }

    /** pkg_plan_apply on a valid plan, from the requested package's node. */
    method Apply(ri: nat) returns (rc: int)
      requires Valid() && calls == [] && ri < nn && emitted == seq(|comps|, _ => false)
      modifies `calls, `installed, `emitted
      ensures Ordered(es, absent0, calls) && Proper(absent0, calls)
      ensures rc == 0 ==> forall x | x in absent0 :: Call(x, true) in calls
      ensures rc == 0 ==> forall c | c in calls :: c.ok
      ensures rc != 0 ==> Stopped()
    {
      rc := ApplyComponent(component[ri]);
      if rc != 0 { return 1; }
      var i := 0;
      while i < |comps|
        invariant 0 <= i <= |comps| && Valid() && DoneUpto(|comps|)
        invariant forall c: nat | c < i :: emitted[c]
      {
        if !emitted[i] {
          rc := ApplyComponent(i);
          if rc != 0 { return 1; }
        }
        i := i + 1;
      }
      forall x | x in absent0 ensures Call(x, true) in calls {
        assert Done(component[x]);
        ReachSelf(es, x);
      }
      rc := 0;
    }
  }

  lemma OneMoreCall(es: seq<Edge>, absent0: set<nat>, was: seq<Call>, x: nat, ok: bool)
    requires Ordered(es, absent0, was) && Proper(absent0, was) && (forall c | c in was :: c.ok)
    requires !Present(absent0, was, x)
    requires forall y: nat | Reach(es, x, y) && !Reach(es, y, x) :: Present(absent0, was, y)
    ensures Ordered(es, absent0, was + [Call(x, ok)]) && Proper(absent0, was + [Call(x, ok)])
  {
    var calls := was + [Call(x, ok)];
    forall i: nat, y: nat | i < |calls| && Reach(es, calls[i].node, y) && !Reach(es, y, calls[i].node)
      ensures Present(absent0, calls[..i], y)
    {
      if i == |was| {
        assert calls[..i] == was;
      } else {
        assert calls[i] == was[i] && calls[..i] == was[..i];
      }
    }
    forall i: nat | i < |was| ensures was[i].node != x {
      assert was[i] in was && was[i] == Call(was[i].node, true);
    }
  }
}
