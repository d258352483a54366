/** Building a plan: the closure of a package under its dependencies. */
module PlanExpand {
  import opened DebVersion
  import opened Options
  import opened PkgRepo
  import opened PlanGraph
  import opened PlanNeeds
  import opened PlanNodes
  import opened PlanSearch

  /** plan_t while it is being built. */
  class Planner {
    const repo: Repo
    const target: map<string, string>
    var nodes: seq<Node>
    var es: seq<Edge>
    var valid: bool
    /** All edges, also those beyond what es can hold. */
    ghost var wanted: seq<Edge>

    constructor (repo: Repo, target: map<string, string>)
      ensures this.repo == repo && this.target == target && nodes == [] && es == [] && wanted == [] && valid
    {
      this.repo, this.target := repo, target;
      nodes, es, valid, wanted := [], [], true, [];
    }

    /** Nodes being expanded or finished. */
    ghost function Started(): set<nat>
      reads this
    {
      set x: nat | x < |nodes| && (nodes[x].visiting || nodes[x].finished)
    }

    ghost predicate Sound()
      reads this, repo
    {
      && repo.Valid() && (forall n | n in target :: IsText(target[n]))
      && |nodes| <= MAX_NODES && es <= wanted && |es| == (if |wanted| > MAX_EDGES then MAX_EDGES else |wanted|)
      && (forall e | e in wanted :: e.a < |nodes| && e.b < |nodes|)
      && (forall x: nat | x < |nodes| :: nodes[x].entry in repo.entries)
      && (forall x: nat, y: nat | x < y < |nodes| :: nodes[x].entry.package != nodes[y].entry.package)
      && AllMarked(repo.entries, target, nodes)
      && (forall x: nat | x < |nodes| && nodes[x].finished :: NodeMet(repo.entries, target, nodes, wanted, x))
    }

    /** Every node is needed by the first, which is the package asked for. */
    ghost predicate Rooted()
      reads this
    {
      forall x: nat | x < |nodes| :: Reach(wanted, 0, x)
    }

    /** Every node but those of pending is begun. */
    ghost predicate AllBegun(pending: set<nat>)
      reads this
    {
      forall x: nat | x < |nodes| && x !in pending :: nodes[x].visiting || nodes[x].finished
    }

    /** choose_alt: entry, 1 if installed or 2 if met by the target alone, alternative; the first that can be met. */
    method ChooseAlt(g: seq<Alt>) returns (e: Option<Entry>, isInst: int, alt: Option<Alt>, ghost k: nat)
      requires Sound() && forall a | a in g :: AltText(a)
      ensures isInst == 2 || e.Some? <==> exists i: nat :: Chosen(repo.entries, target, g, i)
      ensures isInst == 2 || e.Some? ==> k < |g| && Chosen(repo.entries, target, g, k) && alt == Some(g[k])
      ensures isInst == 2 || e.Some? ==> (isInst == 2 <==> TargetMeets(repo.entries, target, g[k]))
      ensures isInst == 2 ==> e.None?
      ensures isInst in {0, 1, 2} && (isInst == 1 ==> e.Some?)
      ensures e.Some? ==> (isInst == 1 <==> Marks(repo.entries, target, g[k], e.value.package))
      ensures e.Some? ==> e.value in repo.entries && LeadsBy(repo.entries, target, g, k, e.value)
    {
      hide VersionOrder, IsText, Satisfies;
      e, isInst, alt, k := None, 0, None, |g|;
      var j := 0;
      while j < |g|
        invariant 0 <= j <= |g| && e.None? && isInst == 0 && k == |g|
        invariant forall i | 0 <= i < j :: !Usable(repo.entries, target, g[i])
      {
        var a := g[j];
        assert a in g;
        if a.name in target {
          var ok := VersionSatisfies(target[a.name], a.op, a.version);
          if ok {
            e := repo.FindBest(a.name, a.op, a.version);
            assert Chosen(repo.entries, target, g, j);
            return e, if e.Some? then 1 else 2, Some(a), j;
          }
        }
        e := repo.FindBest(a.name, a.op, a.version);
        if e.Some? {
          assert Chosen(repo.entries, target, g, j);
          return e, 0, Some(a), j;
        }
        e := repo.FindProvider(a.name);
        if e.Some? {
          assert e.value in repo.entries;
          assert Chosen(repo.entries, target, g, j);
          forall o | Provides(repo.entries, a, o) ensures o == e.value { OneBest(repo.entries, Offering(a.name), e.value, o); }
          if e.value.package in target {
            var c := VersionCompare(target[e.value.package], e.value.version);
            if c == 0 { return e, 1, Some(a), j; }
          }
          return e, 0, Some(a), j;
        }
        j := j + 1;
      }
    }

    /** Index of the node of that package, or the number of nodes. */
    method Lookup(package: string) returns (i: nat)
      ensures i <= |nodes| && (forall x | 0 <= x < i :: nodes[x].entry.package != package)
      ensures i < |nodes| ==> nodes[i].entry.package == package
    {
      i := 0;
      while i < |nodes| && nodes[i].entry.package != package
        invariant 0 <= i <= |nodes| && forall x | 0 <= x < i :: nodes[x].entry.package != package
      {
        i := i + 1;
      }
    }

    /** node_for */
    method NodeFor(e: Entry) returns (i: int)
      requires Sound() && e in repo.entries
      modifies `nodes
      ensures Sound() && Grown(old(nodes), wanted, nodes, wanted)
      ensures i == -1 ==> nodes == old(nodes) && |nodes| == MAX_NODES && !HasPackage(nodes, e.package)
      ensures i != -1 ==> 0 <= i < |nodes| && nodes[i].entry.package == e.package
      ensures nodes == old(nodes) || (i == |old(nodes)| && nodes == old(nodes) + [Node(e, false, false, false)])
    {
      hide VersionOrder, IsText, NodeMet, AllMarked;
      var j := Lookup(e.package);
      if j < |nodes| { return j; }
      if |nodes| >= MAX_NODES { return -1; }
      ghost var was := nodes;
      nodes := nodes + [Node(e, false, false, false)];
      forall x: nat | x < |nodes| && nodes[x].finished ensures NodeMet(repo.entries, target, nodes, wanted, x) {
        StillNodeMet(was, wanted, nodes, wanted, x);
      }
      OnlyOldMarks(was, nodes);
      i := j;
    }

    lemma OnlyOldMarks(was: seq<Node>, now: seq<Node>)
      requires AllMarked(repo.entries, target, was) && |was| <= |now|
      requires forall x: nat | x < |was| :: now[x].entry == was[x].entry && (now[x].installed ==> was[x].installed)
      requires forall x: nat | |was| <= x < |now| :: !now[x].installed
      ensures AllMarked(repo.entries, target, now)
    {
      StillMarked(repo.entries, target, was, now);
    }

    lemma StillNodeMet(nodes1: seq<Node>, es1: seq<Edge>, nodes2: seq<Node>, es2: seq<Edge>, x: nat)
      requires Grown(nodes1, es1, nodes2, es2) && x < |nodes1| && NodeMet(repo.entries, target, nodes1, es1, x)
      ensures NodeMet(repo.entries, target, nodes2, es2, x)
    {
      StillFieldMet(repo.entries, target, nodes1, es1, nodes2, es2, x, nodes1[x].entry.preDepends);
      StillFieldMet(repo.entries, target, nodes1, es1, nodes2, es2, x, nodes1[x].entry.depends);
    }

    /** add_edge: silently ignored when the array is full. */
    method AddEdge(a: nat, b: nat)
      requires Sound() && a < |nodes| && b < |nodes|
      modifies `es, `wanted
      ensures Sound() && Grown(nodes, old(wanted), nodes, wanted) && wanted == old(wanted) + [Edge(a, b)]
    {
      hide VersionOrder, IsText, NodeMet;
      if |es| < MAX_EDGES { es := es + [Edge(a, b)]; }
      ghost var was := wanted;
      wanted := wanted + [Edge(a, b)];
      forall x: nat | x < |nodes| && nodes[x].finished ensures NodeMet(repo.entries, target, nodes, wanted, x) {
        StillNodeMet(nodes, was, nodes, wanted, x);
      }
    }

    /** Nodes of ns are being expanded now exactly as before, new ones are not. */
    ghost predicate Same(ns: seq<Node>)
      reads this
    {
      && |ns| <= |nodes|
      && (forall x: nat | x < |nodes| :: nodes[x].visiting == (x < |ns| && ns[x].visiting))
      && (forall x: nat | x < |ns| && ns[x].visiting :: nodes[x].finished == ns[x].finished)
    }

    lemma StartedGrows(ns: seq<Node>, es1: seq<Edge>, ni: nat)
      requires Sound() && Grown(ns, es1, nodes, wanted) && ni < |ns| && !ns[ni].visiting && !ns[ni].finished
      requires nodes[ni].visiting && forall x: nat | x < |ns| && ns[x].visiting :: nodes[x].visiting
      ensures |Started()| > |set x: nat | x < |ns| && (ns[x].visiting || ns[x].finished)|
      ensures |Started()| <= MAX_NODES
    {
      hide NodeMet;
      var was := set x: nat | x < |ns| && (ns[x].visiting || ns[x].finished);
      Subset(was + {ni}, Started());
      Subset(Started(), Below(|nodes|));
    }

    /** "goto out" after an error: the node is no longer being expanded. */
    method GiveUp(ni: nat) returns (rc: int)
      requires Sound() && ni < |nodes| && SomeBlocked(repo.entries, target, nodes)
      modifies `valid, `nodes
      ensures Sound() && rc != 0 && !valid && |nodes| == |old(nodes)| && Kept(old(nodes), nodes)
      ensures SomeBlocked(repo.entries, target, nodes)
      ensures FromFirst(repo.entries, target, old(nodes)) ==> FromFirst(repo.entries, target, nodes)
    {
      hide VersionOrder, IsText, NodeMet, AllMarked, SomeBlocked, FromFirst;
      valid := false;
      ghost var was := nodes;
      nodes := nodes[ni := nodes[ni].(visiting := false)];
      forall x: nat | x < |nodes| && nodes[x].finished ensures NodeMet(repo.entries, target, nodes, wanted, x) {
        StillNodeMet(was, wanted, nodes, wanted, x);
      }
      OnlyOldMarks(was, nodes);
      EntriesOnly(repo.entries, target, was, nodes);
      rc := -1;
    }

    method SetNode(ni: nat, n: Node)
      requires Sound() && ni < |nodes| && n.entry == nodes[ni].entry && (nodes[ni].installed ==> n.installed)
      requires (nodes[ni].finished ==> n.finished) && (n.installed && !nodes[ni].installed ==> MarkedBy(repo.entries, target, nodes, ni))
      requires n.finished ==> NodeMet(repo.entries, target, nodes, wanted, ni)
      modifies `nodes
      ensures Sound() && nodes == old(nodes)[ni := n] && Grown(old(nodes), wanted, nodes, wanted)
    {
      hide VersionOrder, IsText, NodeMet, AllMarked, MarkedBy;
      ghost var was := nodes;
      nodes := nodes[ni := n];
      forall x: nat | x < |nodes| && nodes[x].finished ensures NodeMet(repo.entries, target, nodes, wanted, x) {
        StillNodeMet(was, wanted, nodes, wanted, x);
      }
      SameMark(was, nodes, ni);
      StillMarked(repo.entries, target, was, nodes);
    }

    /** A node's mark depends on entries alone. */
    lemma SameMark(was: seq<Node>, now: seq<Node>, x: nat)
      requires |now| == |was| && x < |was| && forall y: nat | y < |was| :: now[y].entry == was[y].entry
      ensures MarkedBy(repo.entries, target, was, x) ==> MarkedBy(repo.entries, target, now, x)
    {
      hide SameVersion, Asks, Chosen, Marks;
      if MarkedBy(repo.entries, target, was, x) && !(x == 0 && SameVersion(target, was[0].entry)) {
        var y: nat, g, j: nat :| AskedBy(repo.entries, target, was, was[x].entry.package, y, g, j);
        assert AskedBy(repo.entries, target, now, now[x].entry.package, y, g, j);
      }
    }

    method SetInstalled(ni: nat)
      requires Sound() && ni < |nodes| && MarkedBy(repo.entries, target, nodes, ni)
      modifies `nodes
      ensures Sound() && nodes == old(nodes)[ni := old(nodes)[ni].(installed := true)] && Grown(old(nodes), wanted, nodes, wanted)
    {
      hide VersionOrder, IsText, NodeMet, AllMarked, MarkedBy;
      SetNode(ni, nodes[ni].(installed := true));
    }

    /** The node an alternative has led to fits it. */
    lemma NodeFits(ns: seq<Node>, d: Entry, a: Alt, j: nat)
      requires Fits(repo.entries, d, a) && j < |ns| && ns[j].entry.package == d.package
      requires ns[j].entry == d || Satisfies(ns[j].entry.version, a.op, a.version)
      ensures Fits(repo.entries, ns[j].entry, a)
    {
      hide Satisfies;
    }

    /** Node of the chosen package, with the edge to it; -1 when the graph is full. */
    method Connect(ni: nat, g: seq<Alt>, ghost k: nat, d: Entry, alt: Alt, isInst: int) returns (di: int)
      requires Sound() && AllBegun({}) && ni < |nodes| && nodes[ni].visiting && !nodes[ni].finished
      requires d in repo.entries && LeadsBy(repo.entries, target, g, k, d) && alt == g[k] && Asks(nodes[ni].entry, g)
      requires isInst != 0 <==> Marks(repo.entries, target, alt, d.package)
      requires forall x: nat | x < |nodes| && nodes[x].entry.package == d.package ::
        Satisfies(nodes[x].entry.version, alt.op, alt.version)
      modifies `nodes, `es, `wanted
      ensures Sound() && Kept(old(nodes), nodes)
      ensures di >= 0 ==> di < |nodes| && AllBegun({di}) && Grown(old(nodes), old(wanted), nodes, wanted) && Same(old(nodes))
      ensures di >= 0 ==> nodes[ni].visiting && !nodes[ni].finished
      ensures di >= 0 ==> Met(repo.entries, target, nodes, wanted, ni, g)
      ensures old(Rooted()) && di >= 0 ==> Rooted()
      ensures di < 0 ==> nodes == old(nodes) && |nodes| == MAX_NODES && !HasPackage(nodes, d.package)
      ensures FromFirst(repo.entries, target, old(nodes)) ==> FromFirst(repo.entries, target, nodes)
    {
      hide VersionOrder, IsText, NodeMet, Satisfies, Fits, Sound, Chosen, TargetMeets, Reach, Marks, Asks, LeadsBy, FromFirst;
      ghost var n0, es0 := |nodes|, wanted;
      ChoiceFits(repo.entries, target, g, k, d);
      di := NodeFor(d);
      if di < 0 { return; }
      NodeIsNeeded(repo.entries, target, old(nodes), nodes, ni, g, k, d);
      ghost var nodes1 := nodes;
      if isInst != 0 {
        assert AskedBy(repo.entries, target, nodes, nodes[di].entry.package, ni, g, k);
        SetInstalled(di);
      }
      AddEdge(ni, di);
      EntriesOnly(repo.entries, target, nodes1, nodes);
      StillReached(es0, wanted, n0, |nodes|, ni, di);
      NodeFits(nodes, d, alt, di);
      assert AltMet(repo.entries, target, nodes, wanted, ni, g[k]);
    }

    /** One dependency group of node ni: choose, check, connect, expand. */
    method ExpandGroup(ni: nat, g: seq<Alt>) returns (rc: int)
      requires Sound() && AllBegun({}) && ni < |nodes| && nodes[ni].visiting && !nodes[ni].finished
      requires forall a | a in g :: AltText(a)
      requires Asks(nodes[ni].entry, g)
      modifies this
      ensures Sound() && (rc != 0 ==> !valid) && Kept(old(nodes), nodes)
      ensures rc == 0 ==> AllBegun({}) && Grown(old(nodes), old(wanted), nodes, wanted) && Same(old(nodes)) && valid == old(valid)
      ensures rc == 0 ==> Met(repo.entries, target, nodes, wanted, ni, g)
      ensures old(Rooted()) && rc == 0 ==> Rooted()
      ensures rc != 0 ==> SomeBlocked(repo.entries, target, nodes)
      ensures FromFirst(repo.entries, target, old(nodes)) ==> FromFirst(repo.entries, target, nodes)
      decreases MAX_NODES - |Started()|, 1
    {
      hide VersionOrder, IsText, NodeMet, Satisfies, Fits, Met, Grown, Sound, Chosen, TargetMeets, Marks, Asks, LeadsBy,
        SomeBlocked, FromFirst, Untaken;
      var d, isInst, alt;
      ghost var k;
      d, isInst, alt, k := ChooseAlt(g);
      if isInst == 2 {
        MetByTarget(ni, g, k);
        GrownNot(nodes, wanted);
        return 0;
      }
      if d.None? {
        BlockedHere(ni, g);
        rc := GiveUp(ni);
        return;
      }
      var j := Lookup(d.value.package);
      if j < |nodes| {
        EntryFine(j);
        ChosenText(g, k, d.value);
        var fits := VersionSatisfies(nodes[j].entry.version, alt.value.op, alt.value.version);
        if !fits {
          Misfit(g[k], d.value, j);
          BlockedBy(ni, g, k, d.value);
          rc := GiveUp(ni);
          return;
        }
      }
      ghost var nodes0, es0 := nodes, wanted;
      var di := Connect(ni, g, k, d.value, alt.value, isInst);
      if di < 0 {
        Overfull(g[k], d.value);
        BlockedBy(ni, g, k, d.value);
        rc := GiveUp(ni);
        return;
      }
      ghost var nodes1, es1 := nodes, wanted;
      StartedKept(nodes0, es0);
      rc := Expand(di);
      if rc != 0 {
        rc := GiveUp(ni);
        return;
      }
      StillMet(repo.entries, target, nodes1, es1, nodes, wanted, ni, g);
      GrownTwice(old(nodes), old(wanted), nodes1, es1, nodes, wanted);
    }

    lemma BlockedHere(x: nat, g: seq<Alt>)
      requires x < |nodes| && Asks(nodes[x].entry, g) && forall j: nat :: !Chosen(repo.entries, target, g, j)
      ensures SomeBlocked(repo.entries, target, nodes)
    {
      hide Asks, Chosen;
      assert GroupBlocked(repo.entries, target, nodes, g);
      assert Blocked(repo.entries, target, nodes, nodes[x].entry);
    }

    lemma BlockedBy(x: nat, g: seq<Alt>, j: nat, d: Entry)
      requires x < |nodes| && Asks(nodes[x].entry, g)
      requires LeadsBy(repo.entries, target, g, j, d) && j < |g| && Untaken(nodes, g[j], d)
      ensures SomeBlocked(repo.entries, target, nodes)
    {
      hide Asks, Chosen, Untaken, LeadsBy;
      assert GroupBlocked(repo.entries, target, nodes, g);
      assert Blocked(repo.entries, target, nodes, nodes[x].entry);
    }

    lemma BadField(x: nat)
      requires x < |nodes| && (nodes[x].entry.preDepends.Bad? || nodes[x].entry.depends.Bad?)
      ensures SomeBlocked(repo.entries, target, nodes)
    {
      assert Blocked(repo.entries, target, nodes, nodes[x].entry);
    }

    lemma Misfit(a: Alt, d: Entry, y: nat)
      requires y < |nodes| && nodes[y].entry.package == d.package && !Satisfies(nodes[y].entry.version, a.op, a.version)
      ensures Untaken(nodes, a, d)
    {}

    lemma Overfull(a: Alt, d: Entry)
      requires |nodes| == MAX_NODES && !HasPackage(nodes, d.package)
      ensures Untaken(nodes, a, d)
    {}

    lemma MetByTarget(x: nat, g: seq<Alt>, k: nat)
      requires k < |g| && Chosen(repo.entries, target, g, k) && TargetMeets(repo.entries, target, g[k])
      ensures Met(repo.entries, target, nodes, wanted, x, g)
    {
      hide Chosen, TargetMeets;
      assert AltMet(repo.entries, target, nodes, wanted, x, g[k]);
    }

    lemma ChosenText(g: seq<Alt>, k: nat, d: Entry)
      requires LeadsBy(repo.entries, target, g, k, d) && forall a | a in g :: AltText(a)
      ensures k < |g| && AltText(g[k])
    {}

    /** All groups of one dependency field of node ni. */
    method ExpandField(ni: nat, f: Field) returns (rc: int)
      requires Sound() && AllBegun({}) && ni < |nodes| && nodes[ni].visiting && !nodes[ni].finished
      requires FieldText(f) && (f == nodes[ni].entry.preDepends || f == nodes[ni].entry.depends)
      modifies this
      ensures Sound() && (rc != 0 ==> !valid) && Kept(old(nodes), nodes)
      ensures rc == 0 ==> AllBegun({}) && Grown(old(nodes), old(wanted), nodes, wanted) && Same(old(nodes)) && valid == old(valid)
      ensures rc == 0 ==> FieldMet(repo.entries, target, nodes, wanted, ni, f)
      ensures old(Rooted()) && rc == 0 ==> Rooted()
      ensures rc != 0 ==> SomeBlocked(repo.entries, target, nodes)
      ensures FromFirst(repo.entries, target, old(nodes)) ==> FromFirst(repo.entries, target, nodes)
      decreases MAX_NODES - |Started()|, 2
    {
      hide VersionOrder, IsText, NodeMet, Satisfies, Fits, Met, SomeBlocked, FromFirst;
      if f.Bad? {
        BadField(ni);
        rc := GiveUp(ni);
        return;
      }
      var i := 0;
      ghost var nodes0, es0 := nodes, wanted;
      while i < |f.groups|
        invariant 0 <= i <= |f.groups| && Sound() && AllBegun({}) && Grown(old(nodes), old(wanted), nodes, wanted)
        invariant Same(old(nodes)) && valid == old(valid) && !nodes[ni].finished && Kept(old(nodes), nodes)
        invariant forall k | 0 <= k < i :: Met(repo.entries, target, nodes, wanted, ni, f.groups[k])
        invariant old(Rooted()) ==> Rooted()
        invariant FromFirst(repo.entries, target, old(nodes)) ==> FromFirst(repo.entries, target, nodes)
      {
        assert f.groups[i] in f.groups && Asks(nodes[ni].entry, f.groups[i]);
        ghost var nodes1, es1 := nodes, wanted;
        StartedKept(nodes0, es0);
        rc := ExpandGroup(ni, f.groups[i]);
        if rc != 0 { return; }
        forall k | 0 <= k < i ensures Met(repo.entries, target, nodes, wanted, ni, f.groups[k]) {
          StillMet(repo.entries, target, nodes1, es1, nodes, wanted, ni, f.groups[k]);
        }
        i := i + 1;
      }
      rc := 0;
    }

    /** Nothing begun is forgotten. */
    lemma StartedKept(ns: seq<Node>, es1: seq<Edge>)
      requires Sound() && Same(ns) && Grown(ns, es1, nodes, wanted)
      ensures |set x: nat | x < |ns| && (ns[x].visiting || ns[x].finished)| <= |Started()| <= MAX_NODES
    {
      hide NodeMet;
      Subset((set x: nat | x < |ns| && (ns[x].visiting || ns[x].finished)), Started());
      Subset(Started(), Below(|nodes|));
    }

    /** expand */
    method Expand(ni: nat) returns (rc: int)
      requires Sound() && ni < |nodes| && AllBegun({ni})
      modifies this
      ensures Sound() && (rc != 0 ==> !valid) && Kept(old(nodes), nodes)
      ensures rc == 0 ==> AllBegun({}) && Grown(old(nodes), old(wanted), nodes, wanted) && Same(old(nodes)) && valid == old(valid)
      ensures old(Rooted()) && rc == 0 ==> Rooted()
      ensures rc != 0 ==> SomeBlocked(repo.entries, target, nodes)
      ensures FromFirst(repo.entries, target, old(nodes)) ==> FromFirst(repo.entries, target, nodes)
      decreases MAX_NODES - |Started()|, 0
    {
      hide VersionOrder, IsText, NodeMet, Satisfies, Fits, FieldMet, Sound, SomeBlocked, FromFirst;
      if nodes[ni].finished || nodes[ni].visiting { return 0; }
      ghost var nodes0, es0 := nodes, wanted;
      SetNode(ni, nodes[ni].(visiting := true));
      StartedGrows(nodes0, es0, ni);
      EntriesOnly(repo.entries, target, nodes0, nodes);
      rc := ExpandBoth(ni);
      if rc != 0 { return; }
      ghost var nodes1 := nodes;
      SetNode(ni, nodes[ni].(visiting := false, finished := true));
      EntriesOnly(repo.entries, target, nodes1, nodes);
    }

    /** Pre-Depends, then Depends. */
    method ExpandBoth(ni: nat) returns (rc: int)
      requires Sound() && AllBegun({}) && ni < |nodes| && nodes[ni].visiting && !nodes[ni].finished
      modifies this
      ensures Sound() && (rc != 0 ==> !valid) && Kept(old(nodes), nodes)
      ensures rc == 0 ==> AllBegun({}) && Grown(old(nodes), old(wanted), nodes, wanted) && Same(old(nodes)) && valid == old(valid)
      ensures rc == 0 ==> NodeMet(repo.entries, target, nodes, wanted, ni)
      ensures old(Rooted()) && rc == 0 ==> Rooted()
      ensures rc != 0 ==> SomeBlocked(repo.entries, target, nodes)
      ensures FromFirst(repo.entries, target, old(nodes)) ==> FromFirst(repo.entries, target, nodes)
      decreases MAX_NODES - |Started()|, 3
    {
      hide VersionOrder, IsText, NodeMet, Satisfies, Fits, FieldMet, Sound, FieldText, SomeBlocked, FromFirst;
      var e := nodes[ni].entry;
      EntryFine(ni);
      ghost var nodes0, es0 := nodes, wanted;
      rc := ExpandField(ni, e.preDepends);
      if rc != 0 { return; }
      ghost var nodes1, es1 := nodes, wanted;
      StartedKept(nodes0, es0);
      rc := ExpandField(ni, e.depends);
      if rc != 0 { return; }
      StillFieldMet(repo.entries, target, nodes1, es1, nodes, wanted, ni, e.preDepends);
      BothMet(ni);
      GrownTwice(nodes0, es0, nodes1, es1, nodes, wanted);
    }

    lemma EntryFine(x: nat)
      requires Sound() && x < |nodes|
      ensures FieldText(nodes[x].entry.preDepends) && FieldText(nodes[x].entry.depends) && IsText(nodes[x].entry.version)
      ensures forall y: nat | y < |nodes| && nodes[y].entry.package == nodes[x].entry.package :: y == x
    {
      assert EntryText(nodes[x].entry);
    }

    lemma BothMet(x: nat)
      requires x < |nodes| && FieldMet(repo.entries, target, nodes, wanted, x, nodes[x].entry.preDepends)
      requires FieldMet(repo.entries, target, nodes, wanted, x, nodes[x].entry.depends)
      ensures NodeMet(repo.entries, target, nodes, wanted, x)
    {}

    /** The node of the package asked for, present when the target has just its version. */
    method Begin(e: Entry) returns (ri: int)
      requires Sound() && nodes == [] && e in repo.entries
      modifies `nodes
      ensures Sound() && ri == 0 && nodes == [Node(e, SameVersion(target, e), false, false)]
    {
      hide VersionOrder, NodeMet, Fits, FieldMet, AllMarked;
      assert EntryText(e);
      ri := NodeFor(e);
      if e.package in target {
        var c := VersionCompare(target[e.package], e.version);
        if c == 0 { SetInstalled(ri); }
      }
    }

    /** The part of build_plan that finds the closure; the components are found by Components.Build. */
    method Close(package: string) returns (rc: int, root: int)
      requires Sound() && nodes == [] && wanted == [] && valid
      modifies this
      ensures Sound() && (rc == 0 <==> valid) && -1 <= root <= 0 && root < |nodes|
      ensures root == -1 <==> NoneOf(repo.entries, Matching(package, "", ""))
      ensures root == 0 ==> nodes[0].entry.package == package && Best(repo.entries, Matching(package, "", ""), nodes[0].entry)
      ensures root == 0 ==> FromFirst(repo.entries, target, nodes)
      ensures rc == 0 ==> root == 0 && Rooted()
      ensures rc == 0 ==> forall x: nat | x < |nodes| :: nodes[x].finished && !nodes[x].visiting
      ensures rc == 0 ==> forall x: nat | x < |nodes| :: NodeMet(repo.entries, target, nodes, wanted, x)
      ensures rc == 0 ==> forall x: nat | x < |nodes| :: nodes[x].installed <==> MarkedBy(repo.entries, target, nodes, x)
      ensures rc != 0 && root == 0 ==> SomeBlocked(repo.entries, target, nodes)
      ensures root == 0 && NoClash(repo.entries, target, nodes[0].entry) && ChoicesFit(repo.entries, target, nodes[0].entry) ==>
        (rc == 0 <==> Complete(repo.entries, target, nodes[0].entry))
    {
      hide VersionOrder, NodeMet, Fits, FieldMet, AllMarked, SomeBlocked, FromFirst, NoClash, ChoicesFit, Complete, Best;
      var best := repo.FindBest(package, "", "");
      if best.None? {
        valid := false;
        return 1, -1;
      }
      BestMatches(package, best.value);
      var ri := Begin(best.value);
      ReachSelf(wanted, 0);
      ghost var first := nodes[0];
      OnlyFirst(repo.entries, target, nodes);
      rc := Expand(ri);
      rc, root := if valid then 0 else 1, ri;
      if valid {
        assert SameVersion(target, first.entry) ==> nodes[0].installed;
        AllMarksExact(repo.entries, target, nodes, wanted);
      }
      Decided(rc);
    }

    lemma BestMatches(package: string, e: Entry)
      requires Best(repo.entries, Matching(package, "", ""), e)
      ensures e in repo.entries && e.package == package && !NoneOf(repo.entries, Matching(package, "", ""))
    {
      hide VersionOrder;
      assert e in repo.entries && Matching(package, "", "")(e);
    }

    /** On needs without conflict the outcome is decided by repository and target alone. */
    lemma Decided(rc: int)
      requires Sound() && 0 < |nodes| && FromFirst(repo.entries, target, nodes)
      requires rc == 0 ==> forall x: nat | x < |nodes| :: NodeMet(repo.entries, target, nodes, wanted, x)
      requires rc != 0 ==> SomeBlocked(repo.entries, target, nodes)
      ensures NoClash(repo.entries, target, nodes[0].entry) && ChoicesFit(repo.entries, target, nodes[0].entry) ==>
        (rc == 0 <==> Complete(repo.entries, target, nodes[0].entry))
    {
      var es, first := repo.entries, nodes[0].entry;
      hide *;
      if NoClash(es, target, first) && ChoicesFit(es, target, first) {
        if rc == 0 {
          AllAnswered(es, target, nodes, wanted);
        } else if Complete(es, target, first) {
          InRepo();
          NeverBlocked(es, target, nodes);
        }
      }
    }

    lemma InRepo()
      requires Sound()
      ensures |nodes| <= MAX_NODES && forall x: nat | x < |nodes| :: nodes[x].entry in repo.entries
      ensures forall x: nat, y: nat | x < y < |nodes| :: nodes[x].entry.package != nodes[y].entry.package
    {}
  }
}
