/** How far the cascading Remove of the cache-backed map reaches: it
    deletes the package and only what the chosen level's dependency
    lists lead to from it, and whatever it deletes takes along each
    dependency that hung on it alone.

    As in BrewPruning, the key "" (where removeRequiredBy writes the zero
    Entry of an untracked name) is left out of these statements. */
module BrewCascade {
  import opened GoStrings
  import BrewHelpers
  import opened BrewInfo
  import opened BrewEntry
  import opened BrewGraph
  import opened BrewPruning
  import opened BrewClosure

  /** The dependency lists Remove walks at a level: none at PackageOnly,
      the required ones at PackageAndRequired, all four classes at All. */
  function LevelDeps(e: Entry, opt: DepOption): (ds: seq<string>)
    ensures forall d | d in ds :: d in Deps(e)
    ensures opt == PackageOnly ==> ds == []
    ensures opt != PackageOnly ==> forall d | d in e.RequiredDependencies :: d in ds
  {
    match opt
      case PackageOnly => []
      case PackageAndRequired => e.RequiredDependencies
      case All => Deps(e)
  }

  /** The pruning loops of a level are one Prune over its lists. */
  lemma CascadeLevel(m: Graph, b: Entry, opt: DepOption, rank: string -> nat, bound: nat)
    requires Ranked(m, rank) && KeysNamed(m) && rank("") == 0
    requires forall d | d in Deps(b) :: rank(d) + 1 < bound
    ensures forall d | d in LevelDeps(b, opt) :: rank(d) + 1 < bound
    ensures Cascade(m, b, opt, rank, bound) == Prune(m, LevelDeps(b, opt), opt, rank, bound)
  {
  }

  /** `k` is `from`, or is reached from it along the dependency lists the
      level walks, going down in rank at every step. */
  ghost predicate ReachLevel(m: Graph, opt: DepOption, from: string, k: string, rank: string -> nat)
    decreases rank(from)
  {
    k == from
    || (from in m && exists d | d in LevelDeps(m[from], opt) ::
          rank(d) < rank(from) && ReachLevel(m, opt, d, k, rank))
  }

  /** Every entry of `a` outside "" is also in `b`, with the same
      dependency lists. */
  predicate EdgesWithin(a: Graph, b: Graph) {
    forall k | k in a && k != "" :: k in b && a[k] == b[k].(RequiredBy := a[k].RequiredBy)
  }

  lemma ShrinksEdges(a: Graph, b: Graph, p: set<string>, e: set<string>)
    requires Shrinks(a, b, p, e)
    ensures EdgesWithin(b, a)
  {
  }

  lemma DetachedEdges(a: Graph, b: Graph, y: string)
    requires Detached(a, b, y)
    ensures EdgesWithin(b, a)
  {
  }

  /** What is reachable in a map that removals left is reachable in the
      map they started from. */
  lemma {:induction false} ReachShrunk(a: Graph, b: Graph, opt: DepOption, from: string, k: string,
                                       rank: string -> nat)
    requires EdgesWithin(a, b) && rank("") == 0
    requires ReachLevel(a, opt, from, k, rank)
    ensures ReachLevel(b, opt, from, k, rank)
    decreases rank(from)
  {
    if k != from {
      var d :| d in LevelDeps(a[from], opt) && rank(d) < rank(from) && ReachLevel(a, opt, d, k, rank);
      assert from != "";
      assert LevelDeps(a[from], opt) == LevelDeps(b[from], opt);
      ReachShrunk(a, b, opt, d, k, rank);
    }
  }

  /** Remove deletes nothing but the package, "" and what the level's
      dependency lists lead to from the package. */
  lemma {:induction false} RemoveOnly(m: Graph, name: string, opt: DepOption, rank: string -> nat)
    requires Ranked(m, rank) && KeysNamed(m) && rank("") == 0
    ensures forall k | k in m && k !in Remove(m, name, opt, rank) ::
      k == name || k == "" || ReachLevel(m, opt, name, k, rank)
    decreases Measure(m, name, rank), 1
  {
    if name in m {
      var b := m[name];
      var detached := RemoveUnfold(m, name, opt, rank);
      var bound := rank(name) + 1;
      var ds := LevelDeps(b, opt);
      CascadeLevel(detached, b, opt, rank, bound);
      PruneOnly(detached, ds, opt, rank, bound);
      RemoveRequiredByAllDetaches(m, b.RequiredDependencies, name);
      DetachedEdges(m, detached, name);
      forall k | k in m && k !in Remove(m, name, opt, rank) && k != name && k != ""
        ensures ReachLevel(m, opt, name, k, rank)
      {
        var d :| d in ds && ReachLevel(detached, opt, d, k, rank);
        ReachShrunk(detached, m, opt, d, k, rank);
      }
    }
  }

  /** A pruning loop deletes nothing but "" and what the level's lists
      lead to from the names it visits. */
  lemma {:induction false} PruneOnly(m: Graph, ds: seq<string>, opt: DepOption, rank: string -> nat,
                                     bound: nat)
    requires Ranked(m, rank) && KeysNamed(m) && rank("") == 0
    requires forall d | d in ds :: rank(d) + 1 < bound
    ensures forall k | k in m && k !in Prune(m, ds, opt, rank, bound) ::
      k == "" || exists d | d in ds :: ReachLevel(m, opt, d, k, rank)
    decreases bound, 0, |ds|
  {
    if |ds| > 0 {
      var dep := ds[0];
      var n := Lookup(m, dep).Name;
      assert ds[0..] == ds;
      PruneStep(m, ds, 0, opt, rank, bound);
      var m1 := if Orphan(m, dep) then Remove(m, n, opt, rank) else m;
      if Orphan(m, dep) {
        RemoveOnly(m, n, opt, rank);
        RemoveShrinks(m, n, opt, rank);
        ShrinksEdges(m, m1, {}, {n});
      }
      PruneOnly(m1, ds[1..], opt, rank, bound);
      forall k | k in m && k !in Prune(m, ds, opt, rank, bound) && k != ""
        ensures exists d | d in ds :: ReachLevel(m, opt, d, k, rank)
      {
        if k !in m1 {
          assert n == dep || n == "";
          assert ReachLevel(m, opt, dep, k, rank);
        } else {
          var d :| d in ds[1..] && ReachLevel(m1, opt, d, k, rank);
          if m1 != m {
            ReachShrunk(m1, m, opt, d, k, rank);
          }
          assert d in ds;
        }
      }
    }
  }

  // What a deletion takes along

  /** Only `d`, if anything, requires the entry under `e`. */
  predicate Solely(m: Graph, e: string, d: string) {
    e in m ==> m[e].RequiredBy == [] || m[e].RequiredBy == [d]
  }

  /** Sorting keeps a list of at most one name as it is. */
  lemma SortShort(s: seq<string>)
    requires |s| <= 1
    ensures SortStrings(s) == s
  {
    var r := SortStrings(s);
    if |s| == 1 {
      assert r[0] in multiset(r);
      assert multiset(s) == multiset{s[0]};
    }
  }

  /** removeRequiredBy on any name keeps `e` required by `d` alone. */
  lemma RemoveRequiredBySolely(m: Graph, req: string, y: string, e: string, d: string)
    requires KeysNamed(m) && e != "" && Solely(m, e, d)
    ensures Solely(RemoveRequiredBy(m, req, y), e, d)
  {
    var b := Lookup(m, req);
    if b.Name == e && e in m {
      var l := b.RequiredBy;
      var list := if y in l then BrewHelpers.Remove(l, y) else l;
      assert |list| <= 1 && (list != [] ==> list == [d]) by {
        if y in l {
          assert l == [d] && y == d;
          assert BrewHelpers.FirstIndex(l, y) == 0;
        }
      }
      SortShort(list);
    }
  }

  lemma {:induction false} RemoveRequiredByAllSolely(m: Graph, ds: seq<string>, y: string, e: string, d: string)
    requires KeysNamed(m) && e != "" && Solely(m, e, d)
    ensures Solely(RemoveRequiredByAll(m, ds, y), e, d)
    decreases |ds|
  {
    if |ds| > 0 {
      RemoveRequiredBySolely(m, ds[0], y, e, d);
      RemoveRequiredByDetaches(m, ds[0], y);
      RemoveRequiredByAllSolely(RemoveRequiredBy(m, ds[0], y), ds[1..], y, e, d);
    }
  }

  /** Remove, whatever it cascades into, keeps `e` required by `d` alone. */
  lemma {:induction false} RemoveSolely(m: Graph, name: string, opt: DepOption, rank: string -> nat,
                                        e: string, d: string)
    requires Ranked(m, rank) && KeysNamed(m) && rank("") == 0 && e != "" && Solely(m, e, d)
    ensures Solely(Remove(m, name, opt, rank), e, d)
    decreases Measure(m, name, rank), 1
  {
    if name in m {
      var b := m[name];
      var detached := RemoveUnfold(m, name, opt, rank);
      var bound := rank(name) + 1;
      RemoveRequiredByAllSolely(m, b.RequiredDependencies, name, e, d);
      CascadeLevel(detached, b, opt, rank, bound);
      PruneSolely(detached, LevelDeps(b, opt), opt, rank, bound, e, d);
    }
  }

  lemma {:induction false} PruneSolely(m: Graph, ds: seq<string>, opt: DepOption, rank: string -> nat,
                                       bound: nat, e: string, d: string)
    requires Ranked(m, rank) && KeysNamed(m) && rank("") == 0 && e != "" && Solely(m, e, d)
    requires forall x | x in ds :: rank(x) + 1 < bound
    ensures Solely(Prune(m, ds, opt, rank, bound), e, d)
    decreases bound, 0, |ds|
  {
    if |ds| > 0 {
      var dep := ds[0];
      var n := Lookup(m, dep).Name;
      assert ds[0..] == ds;
      PruneStep(m, ds, 0, opt, rank, bound);
      var m1 := if Orphan(m, dep) then Remove(m, n, opt, rank) else m;
      if Orphan(m, dep) {
        RemoveSolely(m, n, opt, rank, e, d);
      }
      PruneSolely(m1, ds[1..], opt, rank, bound, e, d);
    }
  }

  /** `e` hangs on `d`: it is one of the dependencies the level walks
      from `d`, and nothing requires it, or only `d` does as one of its
      required dependencies. */
  predicate HangsOn(m: Graph, opt: DepOption, d: string, e: string) {
    d in m && d != "" && e != "" && e in LevelDeps(m[d], opt)
    && (e in m ==> m[e].RequiredBy == [] || (m[e].RequiredBy == [d] && e in m[d].RequiredDependencies))
  }

  /** A map that removals left from `a` keeps whatever hangs on a
      surviving `d`. */
  lemma HangsOnKept(a: Graph, b: Graph, opt: DepOption, d: string, e: string)
    requires HangsOn(a, opt, d, e) && d in b && Solely(b, e, d) && EdgesWithin(b, a)
    requires forall k | k in a && k in b && k != "" :: forall x | x in b[k].RequiredBy :: x in a[k].RequiredBy
    ensures HangsOn(b, opt, d, e)
  {
    assert LevelDeps(b[d], opt) == LevelDeps(a[d], opt);
    if e in b && a[e].RequiredBy == [] {
      NoneLeft(b[e].RequiredBy, a[e].RequiredBy);
    }
  }

  /** Once a package is deleted, so is each dependency that hung on it:
      the cascade is transitive. */
  lemma {:induction false} RemoveCascades(m: Graph, name: string, opt: DepOption, rank: string -> nat,
                                          d: string, e: string)
    requires Ranked(m, rank) && KeysNamed(m) && rank("") == 0
    requires HangsOn(m, opt, d, e) && d !in Remove(m, name, opt, rank)
    ensures e !in Remove(m, name, opt, rank)
    decreases Measure(m, name, rank), 1
  {
    if d == name {
      RemovePrunes(m, name, opt, rank, e);
    } else {
      assert name in m;
      var b := m[name];
      var detached := RemoveUnfold(m, name, opt, rank);
      var bound := rank(name) + 1;
      RemoveRequiredByAllDetaches(m, b.RequiredDependencies, name);
      DetachedEdges(m, detached, name);
      RemoveRequiredByAllSolely(m, b.RequiredDependencies, name, e, d);
      HangsOnKept(m, detached, opt, d, e);
      CascadeLevel(detached, b, opt, rank, bound);
      PruneCascades(detached, LevelDeps(b, opt), opt, rank, bound, d, e);
    }
  }

  lemma {:induction false} PruneCascades(m: Graph, ds: seq<string>, opt: DepOption, rank: string -> nat,
                                         bound: nat, d: string, e: string)
    requires Ranked(m, rank) && KeysNamed(m) && rank("") == 0
    requires forall x | x in ds :: rank(x) + 1 < bound
    requires HangsOn(m, opt, d, e) && d !in Prune(m, ds, opt, rank, bound)
    ensures e !in Prune(m, ds, opt, rank, bound)
    decreases bound, 0, |ds|
  {
    assert |ds| > 0;
    var dep := ds[0];
    var n := Lookup(m, dep).Name;
    assert ds[0..] == ds;
    PruneStep(m, ds, 0, opt, rank, bound);
    var m1 := if Orphan(m, dep) then Remove(m, n, opt, rank) else m;
    PruneShrinks(m1, ds[1..], opt, rank, bound);
    if d in m1 {
      if Orphan(m, dep) {
        RemoveShrinks(m, n, opt, rank);
        ShrinksEdges(m, m1, {}, {n});
        RemoveSolely(m, n, opt, rank, e, d);
        HangsOnKept(m, m1, opt, d, e);
      }
      PruneCascades(m1, ds[1..], opt, rank, bound, d, e);
    } else {
      RemoveCascades(m, n, opt, rank, d, e);
    }
  }

  // The cacheMap_test scenarios: vim added at All, then removed

  /** A list that holds one name once is that name. */
  lemma Single(s: seq<string>, x: string)
    requires multiset(s) == multiset{x}
    ensures s == [x]
  {
    assert |s| == |multiset(s)| == 1;
    assert s[0] in multiset(s);
  }

  /** `c.Add(Entry{Name: x}, opt)` for one dependency `x` with metadata of
      its own name: it is tracked, nothing requires it yet, and nothing
      ranked above it changes. */
  lemma AddOne(m: Graph, db: map<string, Info>, x: string, rank: string -> nat, bound: nat)
    requires Ranked(m, rank) && DbRanked(db, rank) && Keyed(db) && x in db && rank(x) < bound
    ensures forall d | d in [x] :: rank(d) < bound
    ensures var r := AddEach(m, db, [x], rank, bound);
      r == Add(m, db, Stub(x), All, rank) && Keeps(m, r, rank(x) + 1, rank)
      && x in r && r[x].RequiredBy == []
  {
    var r := Add(m, db, Stub(x), All, rank);
    assert AddEach(m, db, [x], rank, bound) == AddEach(r, db, [], rank, bound) by {
      assert [x][0] == x && [x][1..] == [];
    }
    AddKeeps(m, db, Stub(x), All, rank);
    AddStores(m, db, Stub(x), All, rank);
    assert db[x].FullName == x;
  }

  /** The three Add loops at level All, over one recommended, one
      optional and one build dependency with metadata, each ranked below
      the one before: each is tracked with nothing requiring it, and
      nothing ranked above the first changes. */
  lemma CascadeLeaves(m: Graph, db: map<string, Info>, e: Entry, rank: string -> nat, bound: nat,
                      a: string, b: string, c: string)
    requires Ranked(m, rank) && DbRanked(db, rank) && Keyed(db)
    requires forall d | d in Deps(e) :: rank(d) < bound
    requires e.RecommendedDependencies == [a] && e.OptionalDependencies == [b] && e.BuildDependencies == [c]
    requires a in db && b in db && c in db && rank(c) < rank(b) < rank(a) < bound
    ensures var r := AddCascade(m, db, e, rank, bound);
      Keeps(m, r, rank(a) + 1, rank) && a in r && b in r && c in r
      && r[a].RequiredBy == [] && r[b].RequiredBy == [] && r[c].RequiredBy == []
  {
    AddOne(m, db, a, rank, bound);
    var m1 := AddEach(m, db, [a], rank, bound);
    LeafPair(m1, db, rank, bound, b, c);
    var r := AddEach(AddEach(m1, db, [b], rank, bound), db, [c], rank, bound);
    CascadeUnfold(m, db, e, rank, bound, a, b, c);
    KeptAbove(m1, r, rank(b) + 1, a, rank);
    KeepsWeaken(m1, r, rank(b) + 1, rank(a) + 1, rank);
    KeepsTransitive(m, m1, r, rank(a) + 1, rank);
  }

  /** The three loops over one recommended, one optional and one build
      dependency are three Adds in turn. */
  lemma CascadeUnfold(m: Graph, db: map<string, Info>, e: Entry, rank: string -> nat, bound: nat,
                      a: string, b: string, c: string)
    requires Ranked(m, rank) && DbRanked(db, rank)
    requires forall d | d in Deps(e) :: rank(d) < bound
    requires e.RecommendedDependencies == [a] && e.OptionalDependencies == [b] && e.BuildDependencies == [c]
    ensures rank(a) < bound && rank(b) < bound && rank(c) < bound
    ensures AddCascade(m, db, e, rank, bound)
            == AddEach(AddEach(AddEach(m, db, [a], rank, bound), db, [b], rank, bound), db, [c], rank, bound)
  {
    assert a in Deps(e) && b in Deps(e) && c in Deps(e);
  }

  /** Two of those Adds in turn, the second dependency ranked below the
      first. */
  lemma LeafPair(m: Graph, db: map<string, Info>, rank: string -> nat, bound: nat, b: string, c: string)
    requires Ranked(m, rank) && DbRanked(db, rank) && Keyed(db)
    requires b in db && c in db && rank(c) < rank(b) < bound
    ensures forall d | d in [b] :: rank(d) < bound
    ensures var m1 := AddEach(m, db, [b], rank, bound);
      forall d | d in [c] :: rank(d) < bound
    ensures var r := AddEach(AddEach(m, db, [b], rank, bound), db, [c], rank, bound);
      Keeps(m, r, rank(b) + 1, rank) && b in r && c in r && r[b].RequiredBy == [] && r[c].RequiredBy == []
  {
    AddOne(m, db, b, rank, bound);
    var m1 := AddEach(m, db, [b], rank, bound);
    AddOne(m1, db, c, rank, bound);
    var r := AddEach(m1, db, [c], rank, bound);
    KeptAbove(m1, r, rank(c) + 1, b, rank);
    KeepsWeaken(m1, r, rank(c) + 1, rank(b) + 1, rank);
    KeepsTransitive(m, m1, r, rank(b) + 1, rank);
  }

  /** A tracked key ranked at or above the bound comes through unchanged. */
  lemma KeptAbove(m: Graph, r: Graph, bound: nat, k: string, rank: string -> nat)
    requires Keeps(m, r, bound, rank) && k in m && rank(k) >= bound
    ensures k in r && r[k] == m[k]
  {
  }

  /** Add at PackageAndRequired of a package whose one required
      dependency `p` has metadata and is not tracked yet: `p` is stored
      from its metadata, required by the package alone. */
  lemma AddRequiredOne(m: Graph, db: map<string, Info>, entry: Entry, p: string, rank: string -> nat)
    requires Ranked(m, rank) && DbRanked(db, rank) && EntryRanked(db, entry, rank)
    requires Keyed(db) && entry.Name in db
    requires FromInfo(entry, db[entry.Name]).RequiredDependencies == [p] && p in db && p !in m && p != entry.Name
    ensures var r := Add(m, db, entry, PackageAndRequired, rank);
      p in r && r[p] == FromInfo(Zero, db[p]).(RequiredBy := [entry.Name])
  {
    var e := FromInfo(entry, db[entry.Name]);
    ClassifiedRanked(m, db, entry, rank);
    FromInfoFields(entry, db[entry.Name]);
    var stored := m[e.Name := e];
    var r := Add(m, db, entry, PackageAndRequired, rank);
    assert r == AddRequiredBy(stored, db, p, e.Name, rank) by {
      assert r == AddRequiredByAll(stored, db, [p], e.Name, rank, rank(e.Name));
      assert [p][1..] == [];
    }
    AddRequiredByTarget(stored, db, p, e.Name, rank);
    FromInfoFields(Zero, db[p]);
    Single(r[p].RequiredBy, e.Name);
  }

  /** Add at All of a package with one required dependency `p` and one
      recommended, optional and build dependency `a`, `b`, `c`, all with
      metadata and ranked in the order the loops visit them: the package
      as classified, `p` required by the package alone, and `a`, `b`, `c`
      required by nothing. */
  lemma AddAllLeaves(m: Graph, db: map<string, Info>, entry: Entry, rank: string -> nat,
                     p: string, a: string, b: string, c: string) returns (r: Graph)
    requires Ranked(m, rank) && DbRanked(db, rank) && EntryRanked(db, entry, rank)
    requires KeysNamed(m) && Keyed(db) && entry.Name in db
    requires var e := FromInfo(entry, db[entry.Name]);
      e.RequiredDependencies == [p] && e.RecommendedDependencies == [a]
      && e.OptionalDependencies == [b] && e.BuildDependencies == [c]
    requires p in db && p !in m && p != entry.Name && a in db && b in db && c in db
    requires rank(c) < rank(b) < rank(a) < rank(p) < rank(entry.Name)
    ensures r == Add(m, db, entry, All, rank) && KeysNamed(r)
    ensures entry.Name in r && r[entry.Name] == FromInfo(entry, db[entry.Name])
    ensures p in r && r[p] == FromInfo(Zero, db[p]).(RequiredBy := [entry.Name])
    ensures a in r && b in r && c in r && r[a].RequiredBy == [] && r[b].RequiredBy == [] && r[c].RequiredBy == []
  {
    var e := FromInfo(entry, db[entry.Name]);
    var annotated := Add(m, db, entry, PackageAndRequired, rank);
    AddRequiredOne(m, db, entry, p, rank);
    AddStores(m, db, entry, PackageAndRequired, rank);
    AddKeeps(m, db, entry, PackageAndRequired, rank);
    AddAllSplit(m, db, entry, rank);
    CascadeLeaves(annotated, db, e, rank, rank(e.Name), a, b, c);
    r := Add(m, db, entry, All, rank);
  }

  /** What Add(vim, All) leaves in an empty map: the five packages, vim
      with python required and ruby, node and go as its other classes,
      python required by vim alone, the other three by nothing. */
  lemma VimAddedAll(db: map<string, Info>, entry: Entry) returns (m: Graph)
    requires db == VimDb() && entry == VimEntry()
    ensures DbRanked(db, VimRank) && EntryRanked(db, entry, VimRank)
    ensures m == Add(map[], db, entry, All, VimRank) && KeysNamed(m)
    ensures "vim" in m && "python" in m && "ruby" in m && "node" in m && "go" in m
    ensures m["vim"].RequiredDependencies == ["python"] && m["vim"].RecommendedDependencies == ["ruby"]
    ensures m["vim"].OptionalDependencies == ["node"] && m["vim"].BuildDependencies == ["go"]
    ensures m["python"].RequiredBy == ["vim"]
    ensures m["python"].RequiredDependencies == []
    ensures m["ruby"].RequiredBy == [] && m["node"].RequiredBy == [] && m["go"].RequiredBy == []
  {
    VimFacts(db, entry);
    FromInfoFields(entry, db["vim"]);
    m := AddAllLeaves(map[], db, entry, VimRank, "python", "ruby", "node", "go");
  }

  /** A chain x -> y -> z of required dependencies, each required only
      by the one before: removing `x` at PackageAndRequired or All takes
      `y` and then `z` along. */
  lemma RemoveChain(m: Graph, x: string, y: string, z: string, opt: DepOption, rank: string -> nat)
    requires Ranked(m, rank) && KeysNamed(m) && rank("") == 0 && opt != PackageOnly
    requires x in m && y in m && y != "" && z != ""
    requires y in m[x].RequiredDependencies && m[y].RequiredBy == [x]
    requires z in m[y].RequiredDependencies && (z in m ==> m[z].RequiredBy == [y])
    ensures var r := Remove(m, x, opt, rank); y !in r && z !in r
  {
    RemovePrunes(m, x, opt, rank, y);
    RemoveCascades(m, x, opt, rank, y, z);
  }

  /** Removing `x` at PackageAndRequired when its one required dependency
      `p` has none of its own and only `x` requires it: both go, and
      every other package stays. */
  lemma RemoveRequiredLeaf(m: Graph, x: string, p: string, rank: string -> nat)
    requires Ranked(m, rank) && KeysNamed(m) && rank("") == 0
    requires x in m && p in m && x != "" && p != ""
    requires m[x].RequiredDependencies == [p] && m[p].RequiredDependencies == [] && m[p].RequiredBy == [x]
    ensures var r := Remove(m, x, PackageAndRequired, rank);
      x !in r && p !in r && forall k | k in m && k != x && k != p && k != "" :: k in r
  {
    RemoveDeletes(m, x, PackageAndRequired, rank);
    RemovePrunes(m, x, PackageAndRequired, rank, p);
    RemoveOnly(m, x, PackageAndRequired, rank);
    forall k | ReachLevel(m, PackageAndRequired, x, k, rank) ensures k == x || k == p {
      if k != x {
        var d :| d in m[x].RequiredDependencies && rank(d) < rank(x) && ReachLevel(m, PackageAndRequired, d, k, rank);
        assert d == p;
      }
    }
  }

  /** The first Remove scenario of cacheMap_test: vim added at All, then
      removed at PackageAndRequired, takes python along and leaves ruby,
      go and node. */
  lemma RemoveRequiredExample(db: map<string, Info>, entry: Entry)
    requires db == VimDb() && entry == VimEntry()
    ensures DbRanked(db, VimRank) && EntryRanked(db, entry, VimRank)
    ensures var m := Add(map[], db, entry, All, VimRank);
      KeysNamed(m)
      && var r := Remove(m, "vim", PackageAndRequired, VimRank);
      "ruby" in r && "go" in r && "node" in r && "vim" !in r && "python" !in r
  {
    var m := VimAddedAll(db, entry);
    RemoveRequiredLeaf(m, "vim", "python", VimRank);
  }

  /** The second Remove scenario of cacheMap_test: vim added at All, then
      removed at All, takes all four dependencies along. */
  lemma RemoveAllExample(db: map<string, Info>, entry: Entry)
    requires db == VimDb() && entry == VimEntry()
    ensures DbRanked(db, VimRank) && EntryRanked(db, entry, VimRank)
    ensures var m := Add(map[], db, entry, All, VimRank);
      KeysNamed(m)
      && var r := Remove(m, "vim", All, VimRank);
      "vim" !in r && "python" !in r && "ruby" !in r && "go" !in r && "node" !in r
  {
    var m := VimAddedAll(db, entry);
    var deps := Deps(m["vim"]);
    assert "python" in deps && "ruby" in deps && "node" in deps && "go" in deps;
    RemoveDeletes(m, "vim", All, VimRank);
    RemovePrunes(m, "vim", All, VimRank, "python");
    RemovePrunes(m, "vim", All, VimRank, "ruby");
    RemovePrunes(m, "vim", All, VimRank, "node");
    RemovePrunes(m, "vim", All, VimRank, "go");
  }
}
