/** pkg_plan_apply: build the plan, find its cycles, unpack in order. */
module PkgPlan {
  import opened DebVersion
  import opened PkgRepo
  import opened PlanGraph
  import opened PlanSearch
  import opened PlanTarjan
  import opened PlanApply
  import opened PlanNeeds
  import opened PlanNodes
  import opened PlanExpand

  ghost function Absent(nodes: seq<Node>): set<nat> { set x: nat | x < |nodes| && !nodes[x].installed }

  /** A plan for a package: the best entry of that name and what it needs, and nothing else, with all edges wanted;
      es has those that the plan can hold. */
  ghost predicate Planned(repo: seq<Entry>, target: map<string, string>, package: string,
                          nodes: seq<Node>, wanted: seq<Edge>, es: seq<Edge>) {
    && 0 < |nodes| && Best(repo, Matching(package, "", ""), nodes[0].entry)
    && (forall x: nat | x < |nodes| :: nodes[x].entry in repo) && AllMarked(repo, target, nodes)
    && (forall x: nat, y: nat | x < y < |nodes| :: nodes[x].entry.package != nodes[y].entry.package)
    && (forall e | e in wanted :: e.a < |nodes| && e.b < |nodes|)
    && (forall x: nat | x < |nodes| :: Reach(wanted, 0, x) && NodeMet(repo, target, nodes, wanted, x))
    && (forall x: nat | x < |nodes| :: nodes[x].installed <==> MarkedBy(repo, target, nodes, x))
    && FromFirst(repo, target, nodes) && Held(wanted, es)
  }

  /** Of the edges wanted, those that the plan can hold. */
  ghost predicate Held(wanted: seq<Edge>, es: seq<Edge>) {
    es == if |wanted| <= MAX_EDGES then wanted else wanted[..MAX_EDGES]
  }

  /** Why there is no plan: no entry of that name, or a needed one that stops it. */
  ghost predicate Refused(repo: seq<Entry>, target: map<string, string>, package: string, nodes: seq<Node>) {
    || NoneOf(repo, Matching(package, "", ""))
    || (0 < |nodes| && Best(repo, Matching(package, "", ""), nodes[0].entry) && FromFirst(repo, target, nodes) &&
        SomeBlocked(repo, target, nodes))
  }

  /** Why a plan is not carried out: the last call has failed, or an absent package has too long a path. */
  ghost predicate Halted(nodes: seq<Node>, calls: seq<Call>, tooLong: Entry -> bool) {
    || (calls != [] && !calls[|calls| - 1].ok)
    || exists x: nat :: x < |nodes| && !nodes[x].installed && tooLong(nodes[x].entry) && forall c | c in calls :: c.node != x
  }

  /** All that the entry needs is there, each group has a choice that fits, no two are versions of one package. */
  ghost predicate Plannable(repo: seq<Entry>, target: map<string, string>, first: Entry) {
    NoClash(repo, target, first) && ChoicesFit(repo, target, first) && Complete(repo, target, first)
  }

  /** build_plan up to its components: there is a plan, or a reason against one, and with all needs plannable the
      former. */
  method MakePlan(package: string, repo: Repo, target: map<string, string>)
    returns (rc: int, nodes: seq<Node>, es: seq<Edge>, ghost wanted: seq<Edge>)
    requires repo.Valid() && forall n | n in target :: IsText(target[n])
    ensures rc == 0 ==> Planned(repo.entries, target, package, nodes, wanted, es) && |nodes| <= MAX_NODES
    ensures rc != 0 ==> Refused(repo.entries, target, package, nodes)
    ensures forall first | Best(repo.entries, Matching(package, "", ""), first) && Plannable(repo.entries, target, first) ::
      rc == 0
  {
    hide VersionOrder, NodeMet, Reach, Best, MarkedBy, FromFirst, SomeBlocked, NoneOf, NoClash, ChoicesFit, Complete;
    var p := new Planner(repo, target);
    var root;
    rc, root := p.Close(package);
    nodes, wanted, es := p.nodes, p.wanted, p.es;
    forall first | Best(repo.entries, Matching(package, "", ""), first) && Plannable(repo.entries, target, first)
      ensures rc == 0
    {
      OneRoot(repo.entries, package, first, nodes, root);
    }
  }

  lemma PlannedEdges(repo: seq<Entry>, target: map<string, string>, package: string, nodes: seq<Node>,
                     wanted: seq<Edge>, es: seq<Edge>)
    requires Planned(repo, target, package, nodes, wanted, es)
    ensures 0 < |nodes| && |es| <= MAX_EDGES && forall e | e in es :: e.a < |nodes| && e.b < |nodes|
  {
    hide Best, FromFirst, AllMarked, Reach, NodeMet, MarkedBy;
  }

  /** pkg_plan_apply: nothing is passed on without a plan; what is passed on is passed in its order; on success
      every package of the plan is there, passed now or marked as present because the target has it. It fails only
      when there is a reason against the plan, an archive's path is too long, or the last call has failed. */
  method Apply(package: string, repo: Repo, target: map<string, string>, tooLong: Entry -> bool)
    returns (rc: int, calls: seq<Call>, ghost nodes: seq<Node>, ghost wanted: seq<Edge>, ghost es: seq<Edge>)
    requires repo.Valid() && forall n | n in target :: IsText(target[n])
    ensures rc == 0 || calls != [] ==> Planned(repo.entries, target, package, nodes, wanted, es)
    ensures rc != 0 && !(calls == [] && Refused(repo.entries, target, package, nodes)) ==>
      Planned(repo.entries, target, package, nodes, wanted, es) && Halted(nodes, calls, tooLong)
    ensures forall first | Best(repo.entries, Matching(package, "", ""), first) && Plannable(repo.entries, target, first) ::
      Planned(repo.entries, target, package, nodes, wanted, es) && (rc != 0 ==> Halted(nodes, calls, tooLong))
    ensures Ordered(es, Absent(nodes), calls) && Proper(Absent(nodes), calls)
    ensures rc == 0 ==> forall x: nat | x < |nodes| :: Present(Absent(nodes), calls, x)
    ensures rc == 0 ==> forall c | c in calls :: c.ok
  {
    hide VersionOrder, Planned, Refused, Plannable, Best, Solved, Reach, Ordered, Proper;
    var ns, held;
    rc, ns, held, wanted := MakePlan(package, repo, target);
    nodes, es, calls := ns, held, [];
    NoCalls(es, Absent(nodes));
    if rc != 0 { return 1, calls, nodes, wanted, es; }
    PlannedEdges(repo.entries, target, package, nodes, wanted, es);
    rc, calls := CarryOut(ns, held, tooLong);
  }

  /** The plan's components and their unpacking. */
  method CarryOut(nodes: seq<Node>, es: seq<Edge>, tooLong: Entry -> bool) returns (rc: int, calls: seq<Call>)
    requires 0 < |nodes| <= MAX_NODES && |es| <= MAX_EDGES && forall e | e in es :: e.a < |nodes| && e.b < |nodes|
    ensures Ordered(es, Absent(nodes), calls) && Proper(Absent(nodes), calls)
    ensures rc == 0 ==> forall x: nat | x < |nodes| :: Present(Absent(nodes), calls, x)
    ensures rc == 0 ==> forall c | c in calls :: c.ok
    ensures rc != 0 ==> Halted(nodes, calls, tooLong)
  {
    hide Solved, Reach, Ordered, Proper;
    var c := new Components(|nodes|, es);
    c.Build();
    var installed := seq(|nodes|, (x: nat) requires x < |nodes| => nodes[x].installed);
    var long := seq(|nodes|, (x: nat) requires x < |nodes| => tooLong(nodes[x].entry));
    var u := new Unpacking(|nodes|, es, c.component, c.comps, long, installed);
    assert u.absent0 == Absent(nodes);
    rc := u.Apply(0);
    calls := u.calls;
    assert rc != 0 ==> u.Stopped();
  }

  lemma OneRoot(repo: seq<Entry>, package: string, first: Entry, nodes: seq<Node>, root: int)
    requires Best(repo, Matching(package, "", ""), first)
    requires root == -1 ==> NoneOf(repo, Matching(package, "", ""))
    requires root != -1 ==> 0 < |nodes| && Best(repo, Matching(package, "", ""), nodes[0].entry)
    ensures root != -1 && nodes[0].entry == first
  {
    hide VersionOrder;
    assert first in repo && Matching(package, "", "")(first);
    if root != -1 {
      OneBest(repo, Matching(package, "", ""), first, nodes[0].entry);
    }
  }

  lemma NoCalls(es: seq<Edge>, absent0: set<nat>)
    ensures Ordered(es, absent0, []) && Proper(absent0, [])
  {}
}
