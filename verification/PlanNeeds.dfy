/** What a package needs, by repository and target alone: the choice in each group, and the entries it leads to. */
module PlanNeeds {
  import opened DebVersion
  import opened PkgRepo
  import opened PlanSearch

  /** The target has a package that meets alternative a. */
  predicate Installed(target: map<string, string>, a: Alt) {
    a.name in target && Satisfies(target[a.name], a.op, a.version)
  }

  /** The repository has the package itself in a fitting version. */
  ghost predicate Carried(repo: seq<Entry>, a: Alt) {
    exists e :: e in repo && Matches(e, a.name, a.op, a.version)
  }

  /** The repository has a package that offers the name. */
  ghost predicate Offered(repo: seq<Entry>, a: Alt) {
    exists o :: o in repo && a.name in o.offers
  }

  ghost predicate Usable(repo: seq<Entry>, target: map<string, string>, a: Alt) {
    Installed(target, a) || Carried(repo, a) || Offered(repo, a)
  }

  /** Alternative j is the first of its group that can be met at all. */
  ghost predicate Chosen(repo: seq<Entry>, target: map<string, string>, g: seq<Alt>, j: nat) {
    j < |g| && Usable(repo, target, g[j]) && forall i | 0 <= i < j :: !Usable(repo, target, g[i])
  }

  /** What the target alone meets: the repository does not carry it. */
  ghost predicate TargetMeets(repo: seq<Entry>, target: map<string, string>, a: Alt) {
    Installed(target, a) && !Carried(repo, a)
  }

  /** o is the best entry that offers the name. */
  ghost predicate Provides(repo: seq<Entry>, a: Alt, o: Entry) {
    Best(repo, Offering(a.name), o)
  }

  /** g is a dependency group of e. */
  predicate Asks(e: Entry, g: seq<Alt>) {
    (e.preDepends.Groups? && g in e.preDepends.groups) || (e.depends.Groups? && g in e.depends.groups)
  }

  /** e is what alternative a leads to: the best fitting entry of that name or, when there is none, the one that
      offers it best. */
  ghost predicate Choice(repo: seq<Entry>, a: Alt, e: Entry) {
    if Carried(repo, a) then Best(repo, Matching(a.name, a.op, a.version), e) else Provides(repo, a, e)
  }

  lemma OneChoice(repo: seq<Entry>, a: Alt, e: Entry, d: Entry)
    requires Choice(repo, a, e) && Choice(repo, a, d)
    ensures e == d
  {
    hide Best;
    OneBest(repo, if Carried(repo, a) then Matching(a.name, a.op, a.version) else Offering(a.name), e, d);
  }

  lemma OneChosen(repo: seq<Entry>, target: map<string, string>, g: seq<Alt>, i: nat, j: nat)
    requires Chosen(repo, target, g, i) && Chosen(repo, target, g, j)
    ensures i == j
  {
    hide Usable;
  }

  /** Group g is met by an entry of the repository: e, by its alternative j. */
  ghost predicate LeadsBy(repo: seq<Entry>, target: map<string, string>, g: seq<Alt>, j: nat, e: Entry) {
    Chosen(repo, target, g, j) && !TargetMeets(repo, target, g[j]) && Choice(repo, g[j], e)
  }

  /** Some group of x is met by y. */
  ghost predicate Wants(repo: seq<Entry>, target: map<string, string>, x: Entry, y: Entry) {
    exists g: seq<Alt>, j: nat :: Asks(x, g) && LeadsBy(repo, target, g, j, y)
  }

  ghost predicate IsChain(repo: seq<Entry>, target: map<string, string>, p: seq<Entry>) {
    |p| > 0 && forall i | 0 <= i < |p| - 1 :: Wants(repo, target, p[i], p[i + 1])
  }

  /** e is first, or needed by it over some packages. */
  ghost predicate Needed(repo: seq<Entry>, target: map<string, string>, first: Entry, e: Entry) {
    exists p: seq<Entry> :: IsChain(repo, target, p) && p[0] == first && p[|p| - 1] == e
  }

  lemma NeededSelf(repo: seq<Entry>, target: map<string, string>, first: Entry)
    ensures Needed(repo, target, first, first)
  {
    assert IsChain(repo, target, [first]);
  }

  lemma NeededNext(repo: seq<Entry>, target: map<string, string>, first: Entry, x: Entry, y: Entry)
    requires Needed(repo, target, first, x) && Wants(repo, target, x, y)
    ensures Needed(repo, target, first, y)
  {
    hide Wants;
    var p: seq<Entry> :| IsChain(repo, target, p) && p[0] == first && p[|p| - 1] == x;
    assert IsChain(repo, target, p + [y]) && (p + [y])[|p + [y]| - 1] == y;
  }

  /** A set of entries that holds first and what each of its members wants holds all that is needed. */
  lemma NeededWithin(repo: seq<Entry>, target: map<string, string>, s: set<Entry>, p: seq<Entry>)
    requires IsChain(repo, target, p) && p[0] in s
    requires forall x, y | x in s && Wants(repo, target, x, y) :: y in s
    ensures p[|p| - 1] in s
    decreases |p|
  {
    hide Wants;
    if |p| > 1 {
      assert Wants(repo, target, p[0], p[0 + 1]);
      NeededWithin(repo, target, s, p[1..]);
    }
  }

  // ---- when a plan can be made ----

  ghost function NeededSet(repo: seq<Entry>, target: map<string, string>, first: Entry): set<Entry> {
    set e | e in repo && Needed(repo, target, first, e)
  }

  /** No two packages needed are versions of one package. */
  ghost predicate NoClash(repo: seq<Entry>, target: map<string, string>, first: Entry) {
    forall e, d | Needed(repo, target, first, e) && Needed(repo, target, first, d) && e.package == d.package :: e == d
  }

  /** Whatever meets a group has a version that its alternative asks for: what is chosen by its own name always has. */
  ghost predicate ChoicesFit(repo: seq<Entry>, target: map<string, string>, first: Entry) {
    forall e: Entry, g: seq<Alt>, j: nat, d: Entry | Needed(repo, target, first, e) && Asks(e, g) && LeadsBy(repo, target, g, j, d) ::
      Satisfies(d.version, g[j].op, g[j].version)
  }

  lemma CarriedFits(repo: seq<Entry>, a: Alt, e: Entry)
    requires Carried(repo, a) && Choice(repo, a, e)
    ensures e in repo && e.package == a.name && Satisfies(e.version, a.op, a.version)
  {}

  /** The fields of e are well formed and every group can be met. */
  ghost predicate Answered(repo: seq<Entry>, target: map<string, string>, e: Entry) {
    e.preDepends.Groups? && e.depends.Groups? &&
    forall g | Asks(e, g) :: exists j: nat :: Chosen(repo, target, g, j)
  }

  /** All that is needed is answered, and fits into a plan. */
  ghost predicate Complete(repo: seq<Entry>, target: map<string, string>, first: Entry) {
    && |NeededSet(repo, target, first)| <= MAX_NODES
    && forall e | Needed(repo, target, first, e) :: Answered(repo, target, e)
  }
}
