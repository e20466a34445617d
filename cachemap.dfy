/** The cache-backed revision of the dependency graph: a CacheMap owns the
    map of tracked entries and changes it in place. The metadata database
    is a parameter of every method that consults it; the rank that makes
    the recursion terminate is a ghost parameter. Each method is proved to
    leave the map its specification function in module BrewGraph computes
    from the old one, so every lemma about those functions (modules
    BrewClosure, BrewPruning and BrewIngest) holds of the methods. */
module BrewCacheMap {
  import opened Base
  import opened GoStrings
  import BrewHelpers
  import opened BrewInfo
  import opened BrewEntry
  import opened BrewfileLine
  import opened BrewGraph
  import opened BrewPruning

  class CacheMap {
    var Map: Graph

    /** `CacheMap{Map: m}`. */
    constructor(m: Graph)
      ensures Map == m
    {
      Map := m;
    }

    /** FromPackages: ingest the Brewfile lines in order, keyed by full
        name; the first package without metadata ends the walk. */
    method FromPackages(entries: seq<string>, db: map<string, Info>) returns (err: Option<Error>)
      requires forall j | 0 <= j < |entries| :: HasQuoted(entries[j])
      modifies this
      ensures Outcome(Map, err) == Ingest(old(Map), db, entries, ByFullName)
    {
      var j := 0;
      while j < |entries|
        invariant 0 <= j <= |entries|
        invariant Ingest(Map, db, entries[j..], ByFullName) == Ingest(old(Map), db, entries, ByFullName)
      {
        var p := Parse(entries[j]);
        var info := FindKey(db, p.Name);
        if info.Err? {
          return Some(info.error);
        }
        var b := NewEntry(p, info.value);
        assert entries[j..][1..] == entries[j + 1..];
        Map := Map[info.value.FullName := b];
        j := j + 1;
      }
      return None;
    }

    /** ResolveRequiredDependencyMap: every entry tracked at the start
        annotates its required dependencies with its name. The keys are
        visited in an order the method chooses, which it reports. */
    method ResolveRequiredDependencyMap(db: map<string, Info>, ghost rank: string -> nat)
      returns (ghost order: seq<string>)
      requires Ranked(Map, rank) && DbRanked(db, rank)
      modifies this
      ensures Map == Resolve(old(Map), db, order, rank)
      ensures (forall k :: k in order <==> k in old(Map)) && Distinct(order)
    {
      var keys := Map.Keys;
      order := [];
      while keys != {}
        invariant Ranked(Map, rank)
        invariant Map == Resolve(old(Map), db, order, rank)
        invariant forall k :: k in old(Map) <==> k in order || k in keys
        invariant forall k | k in keys :: k !in order
        invariant Distinct(order)
        decreases |keys|
      {
        var k :| k in keys;
        ResolveSnoc(old(Map), db, order, k, rank);
        if k in Map {
          var b := Map[k];
          RequiredRanked(Map, k, rank);
          if |b.RequiredDependencies| > 0 {
            AnnotateEach(b.RequiredDependencies, b.Name, db, rank, rank(b.Name));
          }
        }
        DistinctSnoc(order, k);
        order := order + [k];
        keys := keys - {k};
      }
    }

    /** addRequiredBy(req, by): annotate the target (the tracked entry, or
        one built from metadata) with `by`, store it under its name and
        annotate its required dependencies with that name. Only the
        target's own lookup failure is reported. */
    method AddRequiredBy(req: string, requester: string, db: map<string, Info>, ghost rank: string -> nat)
      returns (err: Option<Error>)
      requires Ranked(Map, rank) && DbRanked(db, rank)
      modifies this
      ensures Map == BrewGraph.AddRequiredBy(old(Map), db, req, requester, rank)
      ensures err == (if Target(old(Map), db, req).None? then Some(InfoNotFound(req)) else None)
      decreases rank(req), 1
    {
      var t := TargetOf(req, db);
      if t.Err? {
        return Some(t.error);
      }
      AddRequiredByUnfold(Map, db, req, requester, rank);
      var e := AddRequester(t.value, requester);
      Map := Map[e.Name := e];
      if |e.RequiredDependencies| > 0 {
        AnnotateEach(e.RequiredDependencies, e.Name, db, rank, rank(e.Name));
      }
      return None;
    }

    /** The entry addRequiredBy annotates: the tracked one, or a new one
        classified from the package's metadata. */
    method TargetOf(req: string, db: map<string, Info>) returns (t: Result<Entry>)
      ensures t.Ok? <==> Target(Map, db, req).Some?
      ensures t.Ok? ==> t.value == Target(Map, db, req).value
      ensures t.Err? ==> t.error == InfoNotFound(req)
    {
      if req in Map {
        return Ok(Map[req]);
      }
      var info := FindKey(db, req);
      if info.Err? {
        return Err(info.error);
      }
      var e := FromInfoMethod(Zero, info.value);
      return Ok(e);
    }

    /** The loop `for _, d := range ds { c.addRequiredBy(d, by, db) }`,
        errors dropped. */
    method AnnotateEach(ds: seq<string>, requester: string, db: map<string, Info>, ghost rank: string -> nat,
                        ghost bound: nat)
      requires Ranked(Map, rank) && DbRanked(db, rank)
      requires forall d | d in ds :: rank(d) < bound
      modifies this
      ensures Map == AddRequiredByAll(old(Map), db, ds, requester, rank, bound)
      decreases bound, 0
    {
      var i := 0;
      while i < |ds|
        invariant 0 <= i <= |ds| && Ranked(Map, rank) && forall d | d in ds[i..] :: rank(d) < bound
        invariant AddRequiredByAll(Map, db, ds[i..], requester, rank, bound)
                  == AddRequiredByAll(old(Map), db, ds, requester, rank, bound)
      {
        AddRequiredByAllStep(Map, db, ds, i, requester, rank, bound);
        var _ := AddRequiredBy(ds[i], requester, db, rank);
        i := i + 1;
      }
    }

    /** Add(entry, opt): classify the entry against its metadata and store
        it under its full name, then by level annotate its required
        dependencies and add its recommended, optional and build ones. */
    method Add(entry: Entry, opt: DepOption, db: map<string, Info>, ghost rank: string -> nat)
      returns (err: Option<Error>)
      requires Ranked(Map, rank) && DbRanked(db, rank) && EntryRanked(db, entry, rank)
      modifies this
      ensures Map == BrewGraph.Add(old(Map), db, entry, opt, rank)
      ensures err == AddError(db, entry.Name)
      decreases rank(entry.Name), 1
    {
      var info := FindKey(db, entry.Name);
      if info.Err? {
        return Some(info.error);
      }
      var e := FromInfoMethod(entry, info.value);
      ClassifiedRanked(Map, db, entry, rank);
      ghost var bound := rank(e.Name);
      match opt {
        case All =>
          Map := Map[e.Name := e];
          AnnotateEach(e.RequiredDependencies, e.Name, db, rank, bound);
          AddEachOf(e.RecommendedDependencies, db, rank, bound);
          AddEachOf(e.OptionalDependencies, db, rank, bound);
          AddEachOf(e.BuildDependencies, db, rank, bound);
        case PackageOnly =>
          Map := Map[e.Name := e];
        case PackageAndRequired =>
          Map := Map[e.Name := e];
          AnnotateEach(e.RequiredDependencies, e.Name, db, rank, bound);
      }
      return None;
    }

    /** The loop `for _, dep := range ds { c.Add(Entry{Name: dep}, opt, db) }`
        at level All, errors dropped. */
    method AddEachOf(ds: seq<string>, db: map<string, Info>, ghost rank: string -> nat, ghost bound: nat)
      requires Ranked(Map, rank) && DbRanked(db, rank)
      requires forall d | d in ds :: rank(d) < bound
      modifies this
      ensures Map == AddEach(old(Map), db, ds, rank, bound)
      decreases bound, 0
    {
      var i := 0;
      while i < |ds|
        invariant 0 <= i <= |ds| && Ranked(Map, rank) && forall d | d in ds[i..] :: rank(d) < bound
        invariant AddEach(Map, db, ds[i..], rank, bound) == AddEach(old(Map), db, ds, rank, bound)
      {
        AddEachStep(Map, db, ds, i, rank, bound);
        var _ := Add(Stub(ds[i]), All, db, rank);
        i := i + 1;
      }
    }

    /** Remove(name, opt): on a tracked name detach it from its required
        dependencies, then by level remove the dependencies nothing
        requires any more, and delete the entry. */
    method Remove(name: string, opt: DepOption, ghost rank: string -> nat) returns (err: Option<Error>)
      requires Ranked(Map, rank) && KeysNamed(Map) && rank("") == 0
      modifies this
      ensures Map == BrewGraph.Remove(old(Map), name, opt, rank)
      ensures err == RemoveError(old(Map), name)
      decreases Measure(Map, name, rank), 1
    {
      if name !in Map {
        return Some(NothingToRemove);
      }
      var b := Map[name];
      ghost var bound := rank(name) + 1;
      ghost var detached := RemoveUnfold(Map, name, opt, rank);
      match opt {
        case All =>
          DetachEach(b.RequiredDependencies, name, rank);
          PruneOrphans(b.RequiredDependencies, opt, rank, bound);
          PruneOrphans(b.RecommendedDependencies, opt, rank, bound);
          PruneOrphans(b.OptionalDependencies, opt, rank, bound);
          PruneOrphans(b.BuildDependencies, opt, rank, bound);
          PruneAll(detached, b, rank, bound);
        case PackageOnly =>
          DetachEach(b.RequiredDependencies, name, rank);
        case PackageAndRequired =>
          DetachEach(b.RequiredDependencies, name, rank);
          PruneOrphans(b.RequiredDependencies, opt, rank, bound);
      }
      Map := Map - {name};
      return None;
    }

    /** removeRequiredBy(req, by): drop `by` from the entry's RequiredBy
        (the zero Entry's when `req` is untracked), sort it and store the
        entry under its name. */
    method RemoveRequiredBy(req: string, requester: string)
      modifies this
      ensures Map == BrewGraph.RemoveRequiredBy(old(Map), req, requester)
    {
      var b := if req in Map then Map[req] else Zero;
      var found := BrewHelpers.Contains(b.RequiredBy, requester);
      if found {
        b := b.(RequiredBy := BrewHelpers.Remove(b.RequiredBy, requester));
      }
      b := b.(RequiredBy := SortStrings(b.RequiredBy));
      Map := Map[b.Name := b];
    }

    /** The loop `for _, dep := range ds { c.removeRequiredBy(dep, name) }`. */
    method DetachEach(ds: seq<string>, requester: string, ghost rank: string -> nat)
      requires Ranked(Map, rank) && KeysNamed(Map)
      modifies this
      ensures Map == RemoveRequiredByAll(old(Map), ds, requester)
      ensures Ranked(Map, rank) && KeysNamed(Map)
    {
      var i := 0;
      while i < |ds|
        invariant 0 <= i <= |ds|
        invariant RemoveRequiredByAll(Map, ds[i..], requester) == RemoveRequiredByAll(old(Map), ds, requester)
      {
        assert ds[i..][1..] == ds[i + 1..];
        RemoveRequiredBy(ds[i], requester);
        i := i + 1;
      }
      RemoveRequiredByAllRanked(old(Map), ds, requester, rank);
    }

    /** One pruning loop of Remove:
        `for _, dep := range ds { if len(c.Map[dep].RequiredBy) < 1 { c.Remove(c.Map[dep].Name, opt) } }`. */
    method PruneOrphans(ds: seq<string>, opt: DepOption, ghost rank: string -> nat, ghost bound: nat)
      requires Ranked(Map, rank) && KeysNamed(Map) && rank("") == 0
      requires forall d | d in ds :: rank(d) + 1 < bound
      modifies this
      ensures Map == Prune(old(Map), ds, opt, rank, bound)
      decreases bound, 0
    {
      var i := 0;
      while i < |ds|
        invariant 0 <= i <= |ds| && Ranked(Map, rank) && KeysNamed(Map)
        invariant forall d | d in ds[i..] :: rank(d) + 1 < bound
        invariant Prune(Map, ds[i..], opt, rank, bound) == Prune(old(Map), ds, opt, rank, bound)
      {
        PruneStep(Map, ds, i, opt, rank, bound);
        var dep := if ds[i] in Map then Map[ds[i]] else Zero;
        if |dep.RequiredBy| < 1 {
          var _ := Remove(dep.Name, opt, rank);
        }
        i := i + 1;
      }
    }
  }

  /** One step of the loop of Add over a dependency class. */
  lemma AddEachStep(m: Graph, db: map<string, Info>, ds: seq<string>, i: nat, rank: string -> nat, bound: nat)
    requires Ranked(m, rank) && DbRanked(db, rank) && i < |ds|
    requires forall d | d in ds :: rank(d) < bound
    ensures rank(ds[i]) < bound && forall d | d in ds[i + 1..] :: rank(d) < bound
    ensures AddEach(m, db, ds[i..], rank, bound)
            == AddEach(BrewGraph.Add(m, db, Stub(ds[i]), All, rank), db, ds[i + 1..], rank, bound)
  {
    assert ds[i] in ds;
    assert ds[i..][1..] == ds[i + 1..];
  }

  /** The four pruning loops at level All are one walk over every
      dependency. */
  lemma PruneAll(m: Graph, b: Entry, rank: string -> nat, bound: nat)
    requires Ranked(m, rank) && KeysNamed(m) && rank("") == 0
    requires forall d | d in Deps(b) :: rank(d) + 1 < bound
    ensures var required := Prune(m, b.RequiredDependencies, All, rank, bound);
      var recommended := Prune(required, b.RecommendedDependencies, All, rank, bound);
      var optional := Prune(recommended, b.OptionalDependencies, All, rank, bound);
      Prune(optional, b.BuildDependencies, All, rank, bound) == Cascade(m, b, All, rank, bound)
  {
    var rr := b.RequiredDependencies + b.RecommendedDependencies;
    var rro := rr + b.OptionalDependencies;
    PruneAppend(m, b.RequiredDependencies, b.RecommendedDependencies, All, rank, bound);
    PruneAppend(m, rr, b.OptionalDependencies, All, rank, bound);
    PruneAppend(m, rro, b.BuildDependencies, All, rank, bound);
  }

  /** Walking two lists one after the other is walking their join. */
  lemma {:induction false} PruneAppend(m: Graph, a: seq<string>, c: seq<string>, opt: DepOption,
                                       rank: string -> nat, bound: nat)
    requires Ranked(m, rank) && KeysNamed(m) && rank("") == 0
    requires forall d | d in a + c :: rank(d) + 1 < bound
    ensures forall d | d in a :: rank(d) + 1 < bound
    ensures forall d | d in c :: rank(d) + 1 < bound
    ensures Prune(m, a + c, opt, rank, bound) == Prune(Prune(m, a, opt, rank, bound), c, opt, rank, bound)
    decreases |a|
  {
    assert forall d | d in a :: d in a + c;
    assert forall d | d in c :: d in a + c;
    if |a| == 0 {
      assert a + c == c;
    } else {
      assert (a + c)[0..] == a + c && a[0..] == a;
      assert (a + c)[1..] == a[1..] + c;
      PruneStep(m, a + c, 0, opt, rank, bound);
      PruneStep(m, a, 0, opt, rank, bound);
      var m1 := if Orphan(m, a[0]) then BrewGraph.Remove(m, Lookup(m, a[0]).Name, opt, rank) else m;
      PruneAppend(m1, a[1..], c, opt, rank, bound);
    }
  }

}
