/** The nodes of a plan: what meets their dependencies, why they count as present, and why a plan is refused. */
module PlanNodes {
  import opened DebVersion
  import opened PkgRepo
  import opened PlanGraph
  import opened PlanNeeds
  import opened PlanSearch

  const MAX_EDGES: nat := 4096

  datatype Node = Node(entry: Entry, installed: bool, visiting: bool, finished: bool)

  /** e, chosen for alternative a: the package itself in a fitting version when there is one, or else the one that
      offers it best. */
  ghost predicate Fits(repo: seq<Entry>, e: Entry, a: Alt) {
    if Carried(repo, a) then e.package == a.name && Satisfies(e.version, a.op, a.version)
    else exists o :: Provides(repo, a, o) && o.package == e.package
  }

  /** The target has the package of e in exactly its version. */
  predicate SameVersion(target: map<string, string>, e: Entry) {
    e.package in target && VersionOrder(target[e.package], e.version) == 0
  }

  /** Choosing alternative a marks its package as present: the target meets the alternative, in whatever version,
      or has its provider in the version that the repository offers. */
  ghost predicate Marks(repo: seq<Entry>, target: map<string, string>, a: Alt, package: string) {
    if Carried(repo, a) then Installed(target, a) && a.name == package
    else !Installed(target, a) && exists o :: Provides(repo, a, o) && o.package == package && SameVersion(target, o)
  }

  ghost predicate AskedBy(repo: seq<Entry>, target: map<string, string>, nodes: seq<Node>, package: string,
                          y: nat, g: seq<Alt>, j: nat) {
    y < |nodes| && Asks(nodes[y].entry, g) && j < |g| && Chosen(repo, target, g, j) && Marks(repo, target, g[j], package)
  }

  /** Why node x counts as present: it is the package asked for and the target has just that version, or some node
      has a dependency whose choice marks it. */
  ghost predicate MarkedBy(repo: seq<Entry>, target: map<string, string>, nodes: seq<Node>, x: nat)
    requires x < |nodes|
  {
    || (x == 0 && SameVersion(target, nodes[0].entry))
    || exists y: nat, g: seq<Alt>, j: nat :: AskedBy(repo, target, nodes, nodes[x].entry.package, y, g, j)
  }

  ghost predicate AllMarked(repo: seq<Entry>, target: map<string, string>, nodes: seq<Node>) {
    forall x: nat | x < |nodes| && nodes[x].installed :: MarkedBy(repo, target, nodes, x)
  }

  /** A mark keeps its reason as the plan grows. */
  lemma StillMarked(repo: seq<Entry>, target: map<string, string>, nodes: seq<Node>, nodes2: seq<Node>)
    requires AllMarked(repo, target, nodes) && |nodes| <= |nodes2|
    requires forall x: nat | x < |nodes| :: nodes2[x].entry == nodes[x].entry
    requires forall x: nat | x < |nodes2| && nodes2[x].installed ::
      (x < |nodes| && nodes[x].installed) || MarkedBy(repo, target, nodes2, x)
    ensures AllMarked(repo, target, nodes2)
  {
    hide SameVersion, Asks, Chosen, Marks;
    forall x: nat | x < |nodes2| && nodes2[x].installed ensures MarkedBy(repo, target, nodes2, x) {
      if x < |nodes| && nodes[x].installed && !(x == 0 && SameVersion(target, nodes[0].entry)) {
        var y: nat, g, j: nat :| AskedBy(repo, target, nodes, nodes[x].entry.package, y, g, j);
        assert AskedBy(repo, target, nodes2, nodes2[x].entry.package, y, g, j);
      }
    }
  }

  lemma OneDigit(v: string, d: nat)
    requires |v| == 1 && IsDigit(v[0]) && d == DigitValue(v[0])
    ensures Epoch(v) == 0 && Upstream(v) == v && Revision(v) == "0" && Key(v) == [0, d]
  {
    assert RunEnd(v, 1) == 1 && RunEnd(v, 0) == 1;
    assert Number(v, 0, 0) == 0 && Number(v, 0, 1) == d;
    assert Key(v, 1) == [];
    assert Find(v, ':') == 1;
    assert AfterEpoch(v) == v;
    assert v[..1] == v;
  }

  lemma OneBeforeTwo()
    ensures VersionOrder("1", "2") < 0
  {
    OneDigit("1", 1);
    OneDigit("2", 2);
    assert Compare([1], [2]) == -1;
    assert [0, 1][1..] == [1] && [0, 2][1..] == [2];
  }

  /** A package that counts as present need not be there in the planned version: a depends on b, the repository has
      b 2 and the target b 1. */
  lemma PresentInAnotherVersion()
    ensures var b := Alt("b", "", "");
      var nodes := [Node(Entry("a", "1", Groups([]), Groups([[b]]), []), false, false, true),
                    Node(Entry("b", "2", Groups([]), Groups([]), []), true, false, true)];
      var repo, target := [nodes[0].entry, nodes[1].entry], map["b" := "1"];
      MarkedBy(repo, target, nodes, 1) && !SameVersion(target, nodes[1].entry)
  {
    hide VersionOrder;
    OneBeforeTwo();
    var b := Alt("b", "", "");
    var nodes := [Node(Entry("a", "1", Groups([]), Groups([[b]]), []), false, false, true),
                  Node(Entry("b", "2", Groups([]), Groups([]), []), true, false, true)];
    var repo, target := [nodes[0].entry, nodes[1].entry], map["b" := "1"];
    assert repo[1] in repo && Matches(repo[1], "b", "", "");
    assert Asks(nodes[0].entry, [b]) && Chosen(repo, target, [b], 0);
    assert AskedBy(repo, target, nodes, "b", 0, [b], 0);
  }

  ghost predicate MarkKept(repo: seq<Entry>, target: map<string, string>, n: Node, a: Alt) {
    Marks(repo, target, a, n.entry.package) ==> n.installed
  }

  /** Alternative a of node x is met: by the target alone, or along an edge. */
  ghost predicate AltMet(repo: seq<Entry>, target: map<string, string>, nodes: seq<Node>, es: seq<Edge>, x: nat, a: Alt) {
    if TargetMeets(repo, target, a) then true
    else exists d: nat :: d < |nodes| && Edge(x, d) in es && Fits(repo, nodes[d].entry, a) && MarkKept(repo, target, nodes[d], a)
  }

  /** Group g of node x is met by the first of its alternatives that can be. */
  ghost predicate Met(repo: seq<Entry>, target: map<string, string>, nodes: seq<Node>, es: seq<Edge>, x: nat, g: seq<Alt>) {
    exists j: nat :: j < |g| && Chosen(repo, target, g, j) && AltMet(repo, target, nodes, es, x, g[j])
  }

  ghost predicate FieldMet(repo: seq<Entry>, target: map<string, string>, nodes: seq<Node>, es: seq<Edge>, x: nat, f: Field)
  {
    f.Groups? && forall g | g in f.groups :: Met(repo, target, nodes, es, x, g)
  }

  /** Both dependency fields of node x are met. */
  ghost predicate NodeMet(repo: seq<Entry>, target: map<string, string>, nodes: seq<Node>, es: seq<Edge>, x: nat)
    requires x < |nodes|
  {
    FieldMet(repo, target, nodes, es, x, nodes[x].entry.preDepends) && FieldMet(repo, target, nodes, es, x, nodes[x].entry.depends)
  }

  /** The node that an alternative led to carries the mark of choosing it. */
  lemma MarkArrived(repo: seq<Entry>, target: map<string, string>, nodes: seq<Node>, es: seq<Edge>, x: nat, y: nat, g: seq<Alt>, j: nat)
    requires x < |nodes| && AskedBy(repo, target, nodes, nodes[x].entry.package, y, g, j) && Met(repo, target, nodes, es, y, g)
    requires forall v: nat, w: nat | v < w < |nodes| :: nodes[v].entry.package != nodes[w].entry.package
    ensures nodes[x].installed
  {
    hide Chosen, Installed, Carried, SameVersion, Asks, Best, VersionOrder;
    var i: nat :| i < |g| && Chosen(repo, target, g, i) && AltMet(repo, target, nodes, es, y, g[i]);
    OneChosen(repo, target, g, i, j);
    var a := g[j];
    var d: nat :| d < |nodes| && Edge(y, d) in es && Fits(repo, nodes[d].entry, a) && MarkKept(repo, target, nodes[d], a);
    if !Carried(repo, a) {
      var o :| Provides(repo, a, o) && o.package == nodes[x].entry.package && SameVersion(target, o);
      var e :| Provides(repo, a, e) && e.package == nodes[d].entry.package;
      OneBest(repo, Offering(a.name), o, e);
    }
    assert d == x;
  }

  /** In a finished plan a node counts as present exactly when there is a reason for it. */
  lemma MarksExact(repo: seq<Entry>, target: map<string, string>, nodes: seq<Node>, es: seq<Edge>, x: nat)
    requires x < |nodes| && forall y: nat | y < |nodes| :: NodeMet(repo, target, nodes, es, y)
    requires forall v: nat, w: nat | v < w < |nodes| :: nodes[v].entry.package != nodes[w].entry.package
    requires AllMarked(repo, target, nodes) && (SameVersion(target, nodes[0].entry) ==> nodes[0].installed)
    ensures nodes[x].installed <==> MarkedBy(repo, target, nodes, x)
  {
    hide Met, Chosen, Marks, SameVersion;
    if MarkedBy(repo, target, nodes, x) && !(x == 0 && SameVersion(target, nodes[0].entry)) {
      var y: nat, g, j: nat :| AskedBy(repo, target, nodes, nodes[x].entry.package, y, g, j);
      assert NodeMet(repo, target, nodes, es, y);
      MarkArrived(repo, target, nodes, es, x, y, g, j);
    }
  }

  lemma AllMarksExact(repo: seq<Entry>, target: map<string, string>, nodes: seq<Node>, es: seq<Edge>)
    requires |nodes| > 0 && forall y: nat | y < |nodes| :: NodeMet(repo, target, nodes, es, y)
    requires forall v: nat, w: nat | v < w < |nodes| :: nodes[v].entry.package != nodes[w].entry.package
    requires AllMarked(repo, target, nodes) && (SameVersion(target, nodes[0].entry) ==> nodes[0].installed)
    ensures forall x: nat | x < |nodes| :: nodes[x].installed <==> MarkedBy(repo, target, nodes, x)
  {
    hide *;
    forall x: nat | x < |nodes| ensures nodes[x].installed <==> MarkedBy(repo, target, nodes, x) {
      MarksExact(repo, target, nodes, es, x);
    }
  }

  /** More nodes and edges; nodes keep their entries, and what is installed or finished stays so. */
  ghost predicate Grown(nodes: seq<Node>, es: seq<Edge>, nodes2: seq<Node>, es2: seq<Edge>) {
    && |nodes| <= |nodes2| && es <= es2
    && (forall x: nat | x < |nodes| :: nodes2[x].entry == nodes[x].entry)
    && (forall x: nat | x < |nodes| && nodes[x].finished :: nodes2[x].finished)
    && (forall x: nat | x < |nodes| && nodes[x].installed :: nodes2[x].installed)
  }

  lemma StillMet(repo: seq<Entry>, target: map<string, string>, nodes: seq<Node>, es: seq<Edge>,
                 nodes2: seq<Node>, es2: seq<Edge>, x: nat, g: seq<Alt>)
    requires Grown(nodes, es, nodes2, es2) && Met(repo, target, nodes, es, x, g)
    ensures Met(repo, target, nodes2, es2, x, g)
  {
    hide Fits, Chosen, TargetMeets, Marks;
    var j: nat :| j < |g| && Chosen(repo, target, g, j) && AltMet(repo, target, nodes, es, x, g[j]);
    if !TargetMeets(repo, target, g[j]) {
      var d: nat :| d < |nodes| && Edge(x, d) in es && Fits(repo, nodes[d].entry, g[j]) &&
        MarkKept(repo, target, nodes[d], g[j]);
      assert d < |nodes2| && Edge(x, d) in es2 && Fits(repo, nodes2[d].entry, g[j]) && MarkKept(repo, target, nodes2[d], g[j]);
    }
    assert AltMet(repo, target, nodes2, es2, x, g[j]);
  }

  lemma StillFieldMet(repo: seq<Entry>, target: map<string, string>, nodes: seq<Node>, es: seq<Edge>,
                      nodes2: seq<Node>, es2: seq<Edge>, x: nat, f: Field)
    requires Grown(nodes, es, nodes2, es2) && FieldMet(repo, target, nodes, es, x, f)
    ensures FieldMet(repo, target, nodes2, es2, x, f)
  {
    hide Met, Grown;
    forall g | g in f.groups ensures Met(repo, target, nodes2, es2, x, g) {
      StillMet(repo, target, nodes, es, nodes2, es2, x, g);
    }
  }

  lemma GrownTwice(nodes: seq<Node>, es: seq<Edge>, nodes1: seq<Node>, es1: seq<Edge>, nodes2: seq<Node>, es2: seq<Edge>)
    requires Grown(nodes, es, nodes1, es1) && Grown(nodes1, es1, nodes2, es2)
    ensures Grown(nodes, es, nodes2, es2)
  {}

  lemma GrownNot(nodes: seq<Node>, es: seq<Edge>)
    ensures Grown(nodes, es, nodes, es)
  {}

  lemma ReachMore(es: seq<Edge>, es2: seq<Edge>, a: nat, b: nat)
    requires es <= es2 && Reach(es, a, b)
    ensures Reach(es2, a, b)
  {
    var p: seq<nat> :| Connects(es, p, a, b);
    assert Connects(es2, p, a, b);
  }

  /** A node that an edge from a reached one leads to is reached. */
  lemma StillReached(es: seq<Edge>, es2: seq<Edge>, n: nat, n2: nat, a: nat, b: nat)
    requires es <= es2 && a < n <= n2 <= n + 1 && Edge(a, b) in es2 && (n2 == n + 1 ==> b == n)
    ensures (forall x: nat | x < n :: Reach(es, 0, x)) ==> forall x: nat | x < n2 :: Reach(es2, 0, x)
  {
    hide Reach;
    if forall x: nat | x < n :: Reach(es, 0, x) {
      forall x: nat | x < n ensures Reach(es2, 0, x) { ReachMore(es, es2, 0, x); }
      ReachEdge(es2, a, b);
      ReachTrans(es2, 0, a, b);
      forall x: nat | x < n2 ensures Reach(es2, 0, x) { if x >= n { assert x == b; } }
    }
  }

  // ---- why a plan is refused ----

  ghost predicate HasPackage(nodes: seq<Node>, package: string) {
    exists y: nat :: y < |nodes| && nodes[y].entry.package == package
  }

  /** The entry d that meets a group by alternative a cannot be taken: a version of its package that does not fit is
      in the plan already, or the plan is full. */
  ghost predicate Untaken(nodes: seq<Node>, a: Alt, d: Entry) {
    || (exists y: nat :: y < |nodes| && nodes[y].entry.package == d.package && !Satisfies(nodes[y].entry.version, a.op, a.version))
    || (|nodes| == MAX_NODES && !HasPackage(nodes, d.package))
  }

  ghost predicate GroupBlocked(repo: seq<Entry>, target: map<string, string>, nodes: seq<Node>, g: seq<Alt>) {
    || (forall j: nat :: !Chosen(repo, target, g, j))
    || exists j: nat, d: Entry :: j < |g| && LeadsBy(repo, target, g, j, d) && Untaken(nodes, g[j], d)
  }

  /** Why e stops the plan: a malformed field, a group that nothing meets, or that nothing meets any more. */
  ghost predicate Blocked(repo: seq<Entry>, target: map<string, string>, nodes: seq<Node>, e: Entry) {
    || e.preDepends.Bad? || e.depends.Bad?
    || exists g :: Asks(e, g) && GroupBlocked(repo, target, nodes, g)
  }

  ghost predicate SomeBlocked(repo: seq<Entry>, target: map<string, string>, nodes: seq<Node>) {
    exists x: nat :: x < |nodes| && Blocked(repo, target, nodes, nodes[x].entry)
  }

  /** Every node is needed by the first. */
  ghost predicate FromFirst(repo: seq<Entry>, target: map<string, string>, nodes: seq<Node>) {
    forall x: nat | x < |nodes| :: Needed(repo, target, nodes[0].entry, nodes[x].entry)
  }

  /** Nodes keep their entries and their places. */
  ghost predicate Kept(nodes: seq<Node>, nodes2: seq<Node>) {
    |nodes| <= |nodes2| && forall x: nat | x < |nodes| :: nodes2[x].entry == nodes[x].entry
  }

  ghost predicate SameEntries(nodes: seq<Node>, nodes2: seq<Node>) {
    |nodes| == |nodes2| && forall x: nat | x < |nodes| :: nodes[x].entry == nodes2[x].entry
  }

  lemma EntriesOnly(repo: seq<Entry>, target: map<string, string>, nodes: seq<Node>, nodes2: seq<Node>)
    requires SameEntries(nodes, nodes2)
    ensures SomeBlocked(repo, target, nodes) ==> SomeBlocked(repo, target, nodes2)
    ensures FromFirst(repo, target, nodes) ==> FromFirst(repo, target, nodes2)
  {
    hide Needed, Chosen, LeadsBy, Asks, Satisfies;
    if SomeBlocked(repo, target, nodes) {
      var x: nat :| x < |nodes| && Blocked(repo, target, nodes, nodes[x].entry);
      assert Blocked(repo, target, nodes2, nodes2[x].entry) by { StillBlocked(repo, target, nodes, nodes2, nodes[x].entry); }
    }
  }

  lemma StillBlocked(repo: seq<Entry>, target: map<string, string>, nodes: seq<Node>, nodes2: seq<Node>, e: Entry)
    requires SameEntries(nodes, nodes2) && Blocked(repo, target, nodes, e)
    ensures Blocked(repo, target, nodes2, e)
  {
    hide Needed, Chosen, LeadsBy, Asks, Satisfies;
    if !e.preDepends.Bad? && !e.depends.Bad? {
      var g :| Asks(e, g) && GroupBlocked(repo, target, nodes, g);
      if !(forall j: nat :: !Chosen(repo, target, g, j)) {
        var j: nat, d: Entry :| j < |g| && LeadsBy(repo, target, g, j, d) && Untaken(nodes, g[j], d);
        assert Untaken(nodes2, g[j], d);
      }
      assert GroupBlocked(repo, target, nodes2, g);
    }
  }

  /** What a group leads to fits its alternative. */
  lemma ChoiceFits(repo: seq<Entry>, target: map<string, string>, g: seq<Alt>, j: nat, d: Entry)
    requires LeadsBy(repo, target, g, j, d)
    ensures j < |g| && Chosen(repo, target, g, j) && !TargetMeets(repo, target, g[j]) && Fits(repo, d, g[j])
  {
    hide Satisfies;
    if Carried(repo, g[j]) { CarriedFits(repo, g[j], d); }
  }

  /** A node added for what a group of a needed node leads to is needed. */
  lemma NodeIsNeeded(repo: seq<Entry>, target: map<string, string>, nodes: seq<Node>, nodes2: seq<Node>, x: nat,
                     g: seq<Alt>, j: nat, d: Entry)
    requires x < |nodes| && Asks(nodes[x].entry, g) && LeadsBy(repo, target, g, j, d)
    requires nodes2 == nodes || nodes2 == nodes + [Node(d, false, false, false)]
    ensures FromFirst(repo, target, nodes) ==> FromFirst(repo, target, nodes2)
  {
    hide Needed, Asks, LeadsBy;
    if FromFirst(repo, target, nodes) && nodes2 != nodes {
      assert Wants(repo, target, nodes[x].entry, d);
      NeededNext(repo, target, nodes[0].entry, nodes[x].entry, d);
    }
  }

  // ---- when it is not ----

  lemma OnlyFirst(repo: seq<Entry>, target: map<string, string>, nodes: seq<Node>)
    requires |nodes| == 1
    ensures FromFirst(repo, target, nodes)
  {
    hide Needed;
    NeededSelf(repo, target, nodes[0].entry);
  }

  /** Where all that is needed can be had at once, nothing stops a plan. */
  lemma NeverBlocked(repo: seq<Entry>, target: map<string, string>, nodes: seq<Node>)
    requires 0 < |nodes| && FromFirst(repo, target, nodes)
    requires forall x: nat | x < |nodes| :: nodes[x].entry in repo
    requires forall x: nat, y: nat | x < y < |nodes| :: nodes[x].entry.package != nodes[y].entry.package
    requires NoClash(repo, target, nodes[0].entry) && ChoicesFit(repo, target, nodes[0].entry)
    requires Complete(repo, target, nodes[0].entry)
    ensures !SomeBlocked(repo, target, nodes)
  {
    hide Needed, Chosen, LeadsBy, Asks, Satisfies, Untaken, NoClash, ChoicesFit;
    forall x: nat | x < |nodes| ensures !Blocked(repo, target, nodes, nodes[x].entry) {
      var e := nodes[x].entry;
      assert Answered(repo, target, e);
      forall g | Asks(e, g) ensures !GroupBlocked(repo, target, nodes, g) {
        forall j: nat, d: Entry | j < |g| && LeadsBy(repo, target, g, j, d) ensures !Untaken(nodes, g[j], d) {
          Taken(repo, target, nodes, x, g, j, d);
        }
      }
    }
  }

  lemma Taken(repo: seq<Entry>, target: map<string, string>, nodes: seq<Node>, x: nat, g: seq<Alt>, j: nat, d: Entry)
    requires x < |nodes| && FromFirst(repo, target, nodes) && Asks(nodes[x].entry, g)
    requires forall x: nat | x < |nodes| :: nodes[x].entry in repo
    requires forall x: nat, y: nat | x < y < |nodes| :: nodes[x].entry.package != nodes[y].entry.package
    requires NoClash(repo, target, nodes[0].entry) && ChoicesFit(repo, target, nodes[0].entry)
    requires |NeededSet(repo, target, nodes[0].entry)| <= MAX_NODES
    requires LeadsBy(repo, target, g, j, d)
    ensures j < |g| && !Untaken(nodes, g[j], d)
  {
    var first := nodes[0].entry;
    ChoiceFits(repo, target, g, j, d);
    ChoiceInRepo(repo, target, g, j, d);
    hide Needed, Chosen, LeadsBy, Asks, Satisfies, Fits;
    assert Wants(repo, target, nodes[x].entry, d);
    NeededNext(repo, target, first, nodes[x].entry, d);
    assert Satisfies(d.version, g[j].op, g[j].version);
    forall y: nat | y < |nodes| && nodes[y].entry.package == d.package ensures nodes[y].entry == d {
      assert Needed(repo, target, first, nodes[y].entry);
    }
    if !HasPackage(nodes, d.package) { OneMoreNeeded(repo, target, nodes, d); }
  }

  lemma ChoiceInRepo(repo: seq<Entry>, target: map<string, string>, g: seq<Alt>, j: nat, d: Entry)
    requires LeadsBy(repo, target, g, j, d)
    ensures d in repo
  {
    hide VersionOrder, Satisfies;
  }

  /** A needed entry that no node has: there are fewer nodes than entries needed. */
  lemma OneMoreNeeded(repo: seq<Entry>, target: map<string, string>, nodes: seq<Node>, d: Entry)
    requires 0 < |nodes| && FromFirst(repo, target, nodes) && forall x: nat | x < |nodes| :: nodes[x].entry in repo
    requires forall x: nat, y: nat | x < y < |nodes| :: nodes[x].entry.package != nodes[y].entry.package
    requires d in repo && Needed(repo, target, nodes[0].entry, d) && !HasPackage(nodes, d.package)
    ensures |nodes| < |NeededSet(repo, target, nodes[0].entry)|
  {
    hide Needed;
    var s := set x: nat | x < |nodes| :: nodes[x].entry;
    EntryCount(nodes);
    Subset(s + {d}, NeededSet(repo, target, nodes[0].entry));
  }

  lemma {:induction false} EntryCount(nodes: seq<Node>)
    requires forall x: nat, y: nat | x < y < |nodes| :: nodes[x].entry.package != nodes[y].entry.package
    ensures |set x: nat | x < |nodes| :: nodes[x].entry| == |nodes|
    decreases |nodes|
  {
    if |nodes| > 0 {
      var was, n := nodes[..|nodes| - 1], |nodes| - 1;
      EntryCount(was);
      var s := set x: nat | x < |was| :: was[x].entry;
      assert nodes[n].entry !in s;
      assert (set x: nat | x < |nodes| :: nodes[x].entry) == s + {nodes[n].entry};
    }
  }

  /** A finished plan has all that is needed. */
  lemma AllAnswered(repo: seq<Entry>, target: map<string, string>, nodes: seq<Node>, es: seq<Edge>)
    requires 0 < |nodes| <= MAX_NODES && FromFirst(repo, target, nodes) && NoClash(repo, target, nodes[0].entry)
    requires forall x: nat | x < |nodes| :: NodeMet(repo, target, nodes, es, x)
    ensures Complete(repo, target, nodes[0].entry)
  {
    hide Needed, NodeMet;
    var first := nodes[0].entry;
    var s := set x: nat | x < |nodes| :: nodes[x].entry;
    forall x, y | x in s && Wants(repo, target, x, y) ensures y in s {
      var k: nat :| k < |nodes| && nodes[k].entry == x;
      WantedIsNode(repo, target, nodes, es, k, y);
    }
    forall e | Needed(repo, target, first, e) ensures e in s && Answered(repo, target, e) {
      NeededIn(repo, target, s, first, e);
      var k: nat :| k < |nodes| && nodes[k].entry == e;
      MetAnswered(repo, target, nodes, es, k);
    }
    EntriesUpto(nodes);
    Subset(NeededSet(repo, target, first), s);
  }

  lemma NeededIn(repo: seq<Entry>, target: map<string, string>, s: set<Entry>, first: Entry, e: Entry)
    requires first in s && Needed(repo, target, first, e)
    requires forall x, y | x in s && Wants(repo, target, x, y) :: y in s
    ensures e in s
  {
    hide Wants;
    var p: seq<Entry> :| IsChain(repo, target, p) && p[0] == first && p[|p| - 1] == e;
    NeededWithin(repo, target, s, p);
  }

  lemma {:induction false} EntriesUpto(nodes: seq<Node>)
    ensures |set x: nat | x < |nodes| :: nodes[x].entry| <= |nodes|
    decreases |nodes|
  {
    if |nodes| > 0 {
      var was, n := nodes[..|nodes| - 1], |nodes| - 1;
      EntriesUpto(was);
      assert (set x: nat | x < |nodes| :: nodes[x].entry) == (set x: nat | x < |was| :: was[x].entry) + {nodes[n].entry};
    }
  }

  /** What a node wants is a node. */
  lemma WantedIsNode(repo: seq<Entry>, target: map<string, string>, nodes: seq<Node>, es: seq<Edge>, x: nat, y: Entry)
    requires x < |nodes| && FromFirst(repo, target, nodes) && NoClash(repo, target, nodes[0].entry)
    requires NodeMet(repo, target, nodes, es, x) && Wants(repo, target, nodes[x].entry, y)
    ensures exists d: nat :: d < |nodes| && nodes[d].entry == y
  {
    hide Needed, Asks, LeadsBy, Met, NoClash;
    var g: seq<Alt>, j: nat :| Asks(nodes[x].entry, g) && LeadsBy(repo, target, g, j, y);
    GroupMet(repo, target, nodes, es, x, g);
    var d := ChoiceNode(repo, target, nodes, es, x, g, j, y);
    NeededNext(repo, target, nodes[0].entry, nodes[x].entry, y);
    assert Needed(repo, target, nodes[0].entry, nodes[d].entry);
    assert nodes[d].entry == y by { Unclashed(repo, target, nodes[0].entry, nodes[d].entry, y); }
  }

  lemma Unclashed(repo: seq<Entry>, target: map<string, string>, first: Entry, e: Entry, d: Entry)
    requires NoClash(repo, target, first) && Needed(repo, target, first, e) && Needed(repo, target, first, d) && e.package == d.package
    ensures e == d
  {
    hide Needed;
  }

  lemma GroupMet(repo: seq<Entry>, target: map<string, string>, nodes: seq<Node>, es: seq<Edge>, x: nat, g: seq<Alt>)
    requires x < |nodes| && NodeMet(repo, target, nodes, es, x) && Asks(nodes[x].entry, g)
    ensures Met(repo, target, nodes, es, x, g)
  {
    hide Met;
  }

  lemma ChoiceNode(repo: seq<Entry>, target: map<string, string>, nodes: seq<Node>, es: seq<Edge>, x: nat, g: seq<Alt>,
                   j: nat, y: Entry) returns (d: nat)
    requires Met(repo, target, nodes, es, x, g) && LeadsBy(repo, target, g, j, y)
    ensures d < |nodes| && nodes[d].entry.package == y.package
  {
    hide Chosen, TargetMeets, Carried, Best, MarkKept;
    var i: nat :| i < |g| && Chosen(repo, target, g, i) && AltMet(repo, target, nodes, es, x, g[i]);
    OneChosen(repo, target, g, i, j);
    d :| d < |nodes| && Edge(x, d) in es && Fits(repo, nodes[d].entry, g[j]) && MarkKept(repo, target, nodes[d], g[j]);
    if Carried(repo, g[j]) {
      CarriedFits(repo, g[j], y);
    } else {
      var o :| Provides(repo, g[j], o) && o.package == nodes[d].entry.package;
      OneBest(repo, Offering(g[j].name), o, y);
    }
  }

  lemma MetAnswered(repo: seq<Entry>, target: map<string, string>, nodes: seq<Node>, es: seq<Edge>, x: nat)
    requires x < |nodes| && NodeMet(repo, target, nodes, es, x)
    ensures Answered(repo, target, nodes[x].entry)
  {
    hide Chosen, AltMet;
    forall g | Asks(nodes[x].entry, g) ensures exists j: nat :: Chosen(repo, target, g, j) {
      GroupMet(repo, target, nodes, es, x, g);
    }
  }
}
