/** The index of available packages and the searches over it. */
module PkgRepo {
  import opened DebVersion
  import opened Options

  /** One alternative of a dependency group: a name and maybe a version constraint. */
  datatype Alt = Alt(name: string, op: string, version: string)

  /** A parsed dependency field, or one that deb_dep_parse rejects. */
  datatype Field = Bad | Groups(groups: seq<seq<Alt>>)

  datatype Entry = Entry(package: string, version: string, preDepends: Field, depends: Field, offers: seq<string>)

  predicate Matches(e: Entry, name: string, op: string, version: string) {
    e.package == name && Satisfies(e.version, op, version)
  }

  function Matching(name: string, op: string, version: string): Entry -> bool {
    (e: Entry) => Matches(e, name, op, version)
  }

  function Offering(name: string): Entry -> bool { (e: Entry) => name in e.offers }

  /** e is the first of the best among the entries of es that p picks out. */
  ghost predicate Best(es: seq<Entry>, p: Entry -> bool, e: Entry) {
    exists k :: 0 <= k < |es| && es[k] == e && p(e)
      && (forall j | 0 <= j < |es| && p(es[j]) :: VersionOrder(es[j].version, e.version) <= 0)
      && (forall j | 0 <= j < k && p(es[j]) :: VersionOrder(es[j].version, e.version) < 0)
  }

  lemma OneBest(es: seq<Entry>, p: Entry -> bool, e: Entry, o: Entry)
    requires Best(es, p, e) && Best(es, p, o)
    ensures e == o
  {
    hide VersionOrder;
    var k :| 0 <= k < |es| && es[k] == e
      && (forall j | 0 <= j < |es| && p(es[j]) :: VersionOrder(es[j].version, e.version) <= 0)
      && (forall j | 0 <= j < k && p(es[j]) :: VersionOrder(es[j].version, e.version) < 0);
    var l :| 0 <= l < |es| && es[l] == o
      && (forall j | 0 <= j < |es| && p(es[j]) :: VersionOrder(es[j].version, o.version) <= 0)
      && (forall j | 0 <= j < l && p(es[j]) :: VersionOrder(es[j].version, o.version) < 0);
    OrderFlips(e.version, o.version);
  }

  ghost predicate NoneOf(es: seq<Entry>, p: Entry -> bool) { forall e | e in es :: !p(e) }

  predicate AltText(a: Alt) { IsText(a.version) }

  predicate FieldText(f: Field) { f.Groups? ==> forall g | g in f.groups :: forall a | a in g :: AltText(a) }

  predicate EntryText(e: Entry) { IsText(e.version) && FieldText(e.preDepends) && FieldText(e.depends) }

  class Repo {
    var entries: seq<Entry>

    predicate Valid()
      reads this
    {
      forall e | e in entries :: EntryText(e)
    }

    /** pkg_repo_find_best */
    method FindBest(name: string, op: string, version: string) returns (best: Option<Entry>)
      requires Valid() && IsText(version)
      ensures best.None? <==> NoneOf(entries, Matching(name, op, version))
      ensures best.Some? ==> Best(entries, Matching(name, op, version), best.value)
    {
      hide VersionOrder;
      best := None;
      ghost var k, p := 0, Matching(name, op, version);
      var i := 0;
      while i < |entries|
        invariant 0 <= i <= |entries|
        invariant best.None? ==> forall j | 0 <= j < i :: !p(entries[j])
        invariant best.Some? ==> k < i && BestAt(entries, p, i, k, best.value)
      {
        var e := entries[i];
        assert e in entries;
        if e.package == name {
          var ok := VersionSatisfies(e.version, op, version);
          if ok {
            if best.None? {
              best, k := Some(e), i;
              OrderReflexive(e.version);
            } else {
              assert best.value in entries;
              var c := VersionCompare(e.version, best.value.version);
              Improve(entries, p, i, k, best.value);
              if c > 0 { best, k := Some(e), i; }
            }
          }
        }
        i := i + 1;
      }
    }

    /** pkg_repo_find_provider */
    method FindProvider(name: string) returns (best: Option<Entry>)
      requires Valid()
      ensures best.None? <==> NoneOf(entries, Offering(name))
      ensures best.Some? ==> Best(entries, Offering(name), best.value)
    {
      hide VersionOrder;
      best := None;
      ghost var k, p := 0, Offering(name);
      var i := 0;
      while i < |entries|
        invariant 0 <= i <= |entries|
        invariant best.None? ==> forall j | 0 <= j < i :: !p(entries[j])
        invariant best.Some? ==> k < i && BestAt(entries, p, i, k, best.value)
      {
        var e := entries[i];
        assert e in entries;
        if name in e.offers {
          if best.None? {
            best, k := Some(e), i;
            OrderReflexive(e.version);
          } else {
            assert best.value in entries;
            var c := VersionCompare(e.version, best.value.version);
            Improve(entries, p, i, k, best.value);
            if c > 0 { best, k := Some(e), i; }
          }
        }
        i := i + 1;
      }
    }
  }

  /** e, at k, is the first of the best among the first i entries. */
  ghost predicate BestAt(es: seq<Entry>, p: Entry -> bool, i: nat, k: nat, e: Entry)
    requires i <= |es|
  {
    k < i && es[k] == e && p(e)
    && (forall j | 0 <= j < i && p(es[j]) :: VersionOrder(es[j].version, e.version) <= 0)
    && (forall j | 0 <= j < k && p(es[j]) :: VersionOrder(es[j].version, e.version) < 0)
  }

  /** A single scan is enough because the order is transitive. */
  lemma Improve(es: seq<Entry>, p: Entry -> bool, i: nat, k: nat, e: Entry)
    requires i < |es| && BestAt(es, p, i, k, e) && p(es[i])
    ensures if VersionOrder(es[i].version, e.version) > 0 then BestAt(es, p, i + 1, i, es[i]) else BestAt(es, p, i + 1, k, e)
  {
    hide VersionOrder;
    var v, w := es[i].version, e.version;
    if VersionOrder(v, w) > 0 {
      OrderFlips(v, w);
      OrderReflexive(v);
      forall j | 0 <= j < i && p(es[j]) ensures VersionOrder(es[j].version, v) < 0 {
        OrderTransitive(es[j].version, w, v);
      }
    }
  }
}
