/** The dependency graph as a value: a map from package name to Entry,
    and what each graph operation of package `brew` makes of it. Both map
    revisions (the database-backed CacheMap and the earlier Map over an
    InfoCache) run these same steps; they differ only in the metadata table
    they consult, which is a parameter here.

    Every recursion in the source follows dependency edges with no visited
    set, so each function carries a ghost `rank` that the metadata and the
    tracked entries respect (see DbRanked and Ranked); it is only a
    termination measure and never influences a result. */
module BrewGraph {
  import opened Base
  import opened GoStrings
  import BrewHelpers
  import opened BrewInfo
  import opened BrewEntry
  import opened BrewfileLine

  type Graph = map<string, Entry>

  /** The dependency levels of the cache-backed Add and Remove. */
  datatype DepOption = PackageOnly | PackageAndRequired | All

  /** Every entry is stored under its own name. */
  predicate KeysNamed(m: Graph) {
    forall k | k in m :: m[k].Name == k
  }

  /** Tracked entries respect the rank: an entry's name ranks no higher
      than its key and its dependencies rank strictly below its name. */
  ghost predicate Ranked(m: Graph, rank: string -> nat) {
    forall k | k in m ::
      rank(m[k].Name) <= rank(k) && forall d | d in Deps(m[k]) :: rank(d) < rank(m[k].Name)
  }

  /** The entry `e`, stored under its own name, keeps a graph ranked. */
  lemma RankedStore(m: Graph, e: Entry, rank: string -> nat)
    requires Ranked(m, rank)
    requires forall d | d in Deps(e) :: rank(d) < rank(e.Name)
    ensures Ranked(m[e.Name := e], rank)
  {
  }

  // addRequiredBy

  /** The entry addRequiredBy annotates: the tracked one, or else a fresh
      one built from metadata; none when both are missing. */
  function Target(m: Graph, db: map<string, Info>, req: string): Option<Entry> {
    if req in m then Some(m[req])
    else if req in db then Some(FromInfo(Zero, db[req]))
    else None
  }

  lemma TargetRanked(m: Graph, db: map<string, Info>, req: string, rank: string -> nat)
    requires Ranked(m, rank) && DbRanked(db, rank) && Target(m, db, req).Some?
    ensures rank(Target(m, db, req).value.Name) <= rank(req)
    ensures forall d | d in Deps(Target(m, db, req).value) ::
              rank(d) < rank(Target(m, db, req).value.Name)
  {
    if req !in m {
      FromInfoDeps(Zero, db[req]);
    }
  }

  /** `by` appended when it is not listed yet, then sort.Strings. */
  function WithRequester(e: Entry, requester: string): Entry {
    e.(RequiredBy := SortStrings(if requester in e.RequiredBy then e.RequiredBy else e.RequiredBy + [requester]))
  }

  /** The annotation step both revisions' addRequiredBy run: `by`
      appended when missing, then the list sorted. */
  method AddRequester(e: Entry, requester: string) returns (r: Entry)
    ensures r == WithRequester(e, requester)
  {
    r := e;
    var found := BrewHelpers.Contains(r.RequiredBy, requester);
    if !found {
      r := r.(RequiredBy := r.RequiredBy + [requester]);
    }
    r := r.(RequiredBy := SortStrings(r.RequiredBy));
  }

  /** addRequiredBy(req, by): annotate the target with `by`, store it under
      its name, then annotate each of its required dependencies with the
      target's name; a lookup failure stops only the branch it happens in. */
  ghost function AddRequiredBy(m: Graph, db: map<string, Info>, req: string, requester: string,
                               rank: string -> nat): (r: Graph)
    requires Ranked(m, rank) && DbRanked(db, rank)
    ensures Ranked(r, rank)
    decreases rank(req), 1, 0
  {
    var t := Target(m, db, req);
    if t.None? then m
    else
      var e := t.value;
      TargetRanked(m, db, req, rank);
      RankedStore(m, WithRequester(e, requester), rank);
      AddRequiredByAll(m[e.Name := WithRequester(e, requester)], db, e.RequiredDependencies, e.Name,
                       rank, rank(e.Name))
  }

  /** addRequiredBy(d, by) for each d of `ds` in order. */
  ghost function AddRequiredByAll(m: Graph, db: map<string, Info>, ds: seq<string>, requester: string,
                                  rank: string -> nat, bound: nat): (r: Graph)
    requires Ranked(m, rank) && DbRanked(db, rank)
    requires forall d | d in ds :: rank(d) < bound
    ensures Ranked(r, rank)
    decreases bound, 0, |ds|
  {
    if |ds| == 0 then m
    else AddRequiredByAll(AddRequiredBy(m, db, ds[0], requester, rank), db, ds[1..], requester, rank, bound)
  }

  // removeRequiredBy

  /** The entry removeRequiredBy reads: the tracked one or the zero Entry. */
  function Lookup(m: Graph, req: string): Entry {
    if req in m then m[req] else Zero
  }

  /** removeRequiredBy(req, by): drop `by` from the entry's RequiredBy, sort
      it and store it under the entry's name. For an untracked `req` that is
      the zero Entry, stored under "". */
  function RemoveRequiredBy(m: Graph, req: string, requester: string): Graph {
    var b := Lookup(m, req);
    var list := if requester in b.RequiredBy then BrewHelpers.Remove(b.RequiredBy, requester) else b.RequiredBy;
    m[b.Name := b.(RequiredBy := SortStrings(list))]
  }

  /** removeRequiredBy(d, by) for each d of `ds` in order. */
  function RemoveRequiredByAll(m: Graph, ds: seq<string>, requester: string): Graph
    decreases |ds|
  {
    if |ds| == 0 then m else RemoveRequiredByAll(RemoveRequiredBy(m, ds[0], requester), ds[1..], requester)
  }

  /** removeRequiredBy changes one entry's RequiredBy and nothing that
      the rank or the key discipline look at. */
  lemma RemoveRequiredByRanked(m: Graph, req: string, requester: string, rank: string -> nat)
    requires Ranked(m, rank)
    ensures Ranked(RemoveRequiredBy(m, req, requester), rank)
    ensures KeysNamed(m) ==> KeysNamed(RemoveRequiredBy(m, req, requester))
  {
  }

  lemma {:induction false} RemoveRequiredByAllRanked(m: Graph, ds: seq<string>, requester: string, rank: string -> nat)
    requires Ranked(m, rank)
    ensures Ranked(RemoveRequiredByAll(m, ds, requester), rank)
    ensures KeysNamed(m) ==> KeysNamed(RemoveRequiredByAll(m, ds, requester))
    decreases |ds|
  {
    if |ds| > 0 {
      RemoveRequiredByRanked(m, ds[0], requester, rank);
      RemoveRequiredByAllRanked(RemoveRequiredBy(m, ds[0], requester), ds[1..], requester, rank);
    }
  }

  // Remove

  /** Termination measure of Remove: tracked names rank one above their
      rank, untracked ones are at the bottom. */
  ghost function Measure(m: Graph, n: string, rank: string -> nat): nat {
    if n in m then rank(n) + 1 else 0
  }

  /** The test Remove applies before cascading into a dependency: its
      RequiredBy (the zero Entry's when untracked) is empty. */
  predicate Orphan(m: Graph, dep: string) {
    |Lookup(m, dep).RequiredBy| < 1
  }

  /** CacheMap.Remove(name, opt) on a tracked name: detach it from its
      required dependencies, remove the dependencies of the chosen levels
      that nothing requires any more, and delete the entry. */
  ghost function Remove(m: Graph, name: string, opt: DepOption, rank: string -> nat): (r: Graph)
    requires Ranked(m, rank) && KeysNamed(m) && rank("") == 0
    ensures Ranked(r, rank) && KeysNamed(r)
    decreases Measure(m, name, rank), 1, 0
  {
    if name !in m then m
    else
      var b := m[name];
      RemoveRequiredByAllRanked(m, b.RequiredDependencies, name, rank);
      var detached := RemoveRequiredByAll(m, b.RequiredDependencies, name);
      var bound := rank(name) + 1;
      assert forall d | d in Deps(b) :: rank(d) + 1 < bound;
      Cascade(detached, b, opt, rank, bound) - {name}
  }

  /** The pruning loops Remove runs at each level; at All the four loops,
      over the required, recommended, optional and build lists in turn,
      are one walk over Deps(b). */
  ghost function Cascade(m: Graph, b: Entry, opt: DepOption, rank: string -> nat, bound: nat): (r: Graph)
    requires Ranked(m, rank) && KeysNamed(m) && rank("") == 0
    requires forall d | d in Deps(b) :: rank(d) + 1 < bound
    ensures Ranked(r, rank) && KeysNamed(r)
    decreases bound, 0, |Deps(b)| + 1
  {
    match opt
      case PackageOnly => m
      case PackageAndRequired => Prune(m, b.RequiredDependencies, opt, rank, bound)
      case All => Prune(m, Deps(b), opt, rank, bound)
  }

  /** One pruning loop of Remove: each orphaned dependency is removed under
      the name its entry carries. */
  ghost function Prune(m: Graph, ds: seq<string>, opt: DepOption, rank: string -> nat, bound: nat): (r: Graph)
    requires Ranked(m, rank) && KeysNamed(m) && rank("") == 0
    requires forall d | d in ds :: rank(d) + 1 < bound
    ensures Ranked(r, rank) && KeysNamed(r)
    decreases bound, 0, |ds|
  {
    if |ds| == 0 then m
    else
      var dep := ds[0];
      assert dep in ds;
      assert Measure(m, Lookup(m, dep).Name, rank) < bound;
      var m' := if Orphan(m, dep) then Remove(m, Lookup(m, dep).Name, opt, rank) else m;
      Prune(m', ds[1..], opt, rank, bound)
  }

  /** The error Remove reports: only an untracked name fails. */
  function RemoveError(m: Graph, name: string): Option<Error> {
    if name in m then None else Some(NothingToRemove)
  }

  // Add

  /** The dependencies an entry passed to Add already carries rank below
      the name its metadata gives it (callers pass `Entry{Name: ...}`,
      which carries none). */
  ghost predicate EntryRanked(db: map<string, Info>, entry: Entry, rank: string -> nat) {
    entry.Name in db ==> forall d | d in Deps(entry) :: rank(d) < rank(db[entry.Name].FullName)
  }

  /** The entry Add stores: the caller's entry classified against its metadata. */
  lemma ClassifiedRanked(m: Graph, db: map<string, Info>, entry: Entry, rank: string -> nat)
    requires Ranked(m, rank) && DbRanked(db, rank) && EntryRanked(db, entry, rank) && entry.Name in db
    ensures Ranked(m[db[entry.Name].FullName := FromInfo(entry, db[entry.Name])], rank)
    ensures rank(db[entry.Name].FullName) <= rank(entry.Name)
    ensures forall d | d in Deps(FromInfo(entry, db[entry.Name])) :: rank(d) < rank(db[entry.Name].FullName)
  {
    FromInfoDeps(entry, db[entry.Name]);
    RankedStore(m, FromInfo(entry, db[entry.Name]), rank);
  }

  /** CacheMap.Add(entry, opt): look the package up, classify it and
      store it under its full name, then by level annotate its required
      dependencies and add each recommended, optional and build
      dependency in turn. */
  ghost function Add(m: Graph, db: map<string, Info>, entry: Entry, opt: DepOption,
                     rank: string -> nat): (r: Graph)
    requires Ranked(m, rank) && DbRanked(db, rank) && EntryRanked(db, entry, rank)
    ensures Ranked(r, rank)
    decreases rank(entry.Name), 1, 0
  {
    if entry.Name !in db then m
    else
      var e := FromInfo(entry, db[entry.Name]);
      ClassifiedRanked(m, db, entry, rank);
      var stored := m[e.Name := e];
      var bound := rank(e.Name);
      match opt
        case PackageOnly => stored
        case PackageAndRequired =>
          AddRequiredByAll(stored, db, e.RequiredDependencies, e.Name, rank, bound)
        case All =>
          AddCascade(AddRequiredByAll(stored, db, e.RequiredDependencies, e.Name, rank, bound), db, e, rank, bound)
  }

  /** The three loops Add runs at level All after the required ones: an
      Add of each recommended, then optional, then build dependency. */
  ghost function AddCascade(m: Graph, db: map<string, Info>, e: Entry, rank: string -> nat, bound: nat): (r: Graph)
    requires Ranked(m, rank) && DbRanked(db, rank)
    requires forall d | d in Deps(e) :: rank(d) < bound
    ensures Ranked(r, rank)
    decreases bound, 0, |Deps(e)| + 1
  {
    var recommended := AddEach(m, db, e.RecommendedDependencies, rank, bound);
    var optional := AddEach(recommended, db, e.OptionalDependencies, rank, bound);
    AddEach(optional, db, e.BuildDependencies, rank, bound)
  }

  /** `c.Add(Entry{Name: dep}, opt)` for each dep of `ds`; errors dropped. */
  ghost function AddEach(m: Graph, db: map<string, Info>, ds: seq<string>, rank: string -> nat,
                         bound: nat): (r: Graph)
    requires Ranked(m, rank) && DbRanked(db, rank)
    requires forall d | d in ds :: rank(d) < bound
    ensures Ranked(r, rank)
    decreases bound, 0, |ds|
  {
    if |ds| == 0 then m
    else AddEach(Add(m, db, Stub(ds[0]), All, rank), db, ds[1..], rank, bound)
  }

  /** The error Add reports: only a failed lookup of the package itself. */
  function AddError(db: map<string, Info>, name: string): Option<Error> {
    if name in db then None else Some(InfoNotFound(name))
  }

  // ResolveRequiredDependencyMap

  /** The map walk of ResolveRequiredDependencyMap, visiting keys in the
      given order: each tracked entry annotates its required dependencies
      with its own name. */
  ghost function Resolve(m: Graph, db: map<string, Info>, order: seq<string>, rank: string -> nat): (r: Graph)
    requires Ranked(m, rank) && DbRanked(db, rank)
    ensures Ranked(r, rank)
    decreases |order|
  {
    if |order| == 0 then m
    else
      var k := order[0];
      var next := if k in m then AddRequiredByAll(m, db, m[k].RequiredDependencies, m[k].Name, rank, rank(m[k].Name))
                  else m;
      Resolve(next, db, order[1..], rank)
  }

  // FromPackages / FromBrewfile

  /** The key an ingested entry is stored under: the full name in
      CacheMap.FromPackages, the short name in Map.FromBrewfile. */
  datatype KeyBy = ByFullName | ByName

  function KeyOf(i: Info, key: KeyBy): string {
    if key == ByFullName then i.FullName else i.Name
  }

  /** The entry a Brewfile line becomes: classified from its metadata,
      with the line's arguments and restart option. */
  function EntryOf(p: Parsed, i: Info): (e: Entry)
    ensures e.Name == i.FullName && e.Args == p.Args && e.RestartService == p.RestartService
    ensures e.RequiredBy == [] && e.RecommendedFor == [] && e.OptionalFor == [] && e.BuildOf == []
    ensures e.RecommendedDependencies == i.RecommendedDependencies
    ensures e.OptionalDependencies == i.OptionalDependencies
    ensures e.BuildDependencies == i.BuildDependencies
  {
    FromInfoFields(Zero, i);
    FromInfo(Zero, i).(Args := p.Args, RestartService := p.RestartService)
  }

  /** The loop body FromPackages and FromBrewfile share: classify the
      package, then copy the line's arguments and, when set, its restart
      option. */
  method NewEntry(p: Parsed, i: Info) returns (b: Entry)
    ensures b == EntryOf(p, i)
  {
    b := FromInfoMethod(Zero, i);
    b := b.(Args := p.Args);
    if |p.RestartService| > 0 {
      b := b.(RestartService := p.RestartService);
    }
  }

  /** A map together with the error that ended an operation, if any. */
  datatype Outcome = Outcome(graph: Graph, error: Option<Error>)

  /** Ingesting Brewfile lines one after the other; the first package
      without metadata stops the walk with its error, keeping what the
      earlier lines stored. */
  function Ingest(m: Graph, db: map<string, Info>, lines: seq<string>, key: KeyBy): Outcome
    requires forall j | 0 <= j < |lines| :: HasQuoted(lines[j])
    decreases |lines|
  {
    if |lines| == 0 then Outcome(m, None)
    else
      var p := Parse(lines[0]);
      if p.Name !in db then Outcome(m, Some(InfoNotFound(p.Name)))
      else
        var i := db[p.Name];
        Ingest(m[KeyOf(i, key) := EntryOf(p, i)], db, lines[1..], key)
  }

  // The Map revision: Add with a restart flag, and a Remove that does
  // not cascade.

  /** The restart option the --restart-service flag asks for: "changed"
      and "always" are translated, anything else is ignored. */
  function RestartFlag(restart: string): (r: string)
    ensures restart == "changed" ==> r == ":changed"
    ensures restart == "always" ==> r == "true"
    ensures restart != "changed" && restart != "always" ==> r == ""
  {
    if |restart| > 0 then
      if restart == "changed" then ":changed" else if restart == "always" then "true" else ""
    else ""
  }

  /** In the list lookup a record's full name ranks no higher than its
      short name, under which Map stores it. */
  ghost predicate NamesRanked(db: map<string, Info>, rank: string -> nat) {
    forall k | k in db :: rank(db[k].FullName) <= rank(db[k].Name)
  }

  /** Map.Add(name, restart, args): classify the package, give it the
      arguments and restart option, store it under its short name and
      annotate its required dependencies with the name the caller typed. */
  ghost function MapAdd(m: Graph, db: map<string, Info>, name: string, restart: string,
                        args: seq<string>, rank: string -> nat): (r: Graph)
    requires Ranked(m, rank) && DbRanked(db, rank) && NamesRanked(db, rank)
    ensures Ranked(r, rank)
  {
    if name !in db then m
    else
      var i := db[name];
      var b := FromInfo(Zero, i).(Args := args, RestartService := RestartFlag(restart));
      FromInfoDeps(Zero, i);
      RankedStore(m, b, rank);
      assert Ranked(m[i.Name := b], rank);
      AddRequiredByAll(m[i.Name := b], db, b.RequiredDependencies, name, rank, rank(i.FullName))
  }

  /** Map.Remove(name) on a tracked name: detach it from its required
      dependencies and delete it; nothing else is removed. */
  function MapRemove(m: Graph, name: string): Graph {
    if name !in m then m
    else RemoveRequiredByAll(m, m[name].RequiredDependencies, name) - {name}
  }

  // Steps of the recursions, shared by both revisions' loops

  /** One step of the annotation loop over `ds`. */
  lemma AddRequiredByAllStep(m: Graph, db: map<string, Info>, ds: seq<string>, i: nat, requester: string,
                             rank: string -> nat, bound: nat)
    requires Ranked(m, rank) && DbRanked(db, rank) && i < |ds|
    requires forall d | d in ds :: rank(d) < bound
    ensures rank(ds[i]) < bound && forall d | d in ds[i + 1..] :: rank(d) < bound
    ensures AddRequiredByAll(m, db, ds[i..], requester, rank, bound)
            == AddRequiredByAll(AddRequiredBy(m, db, ds[i], requester, rank), db, ds[i + 1..],
                                requester, rank, bound)
  {
    assert ds[i] in ds;
    assert ds[i..][1..] == ds[i + 1..];
  }

  /** One step of addRequiredBy: the annotated target stored, then its
      required dependencies annotated, all ranked below it. */
  lemma AddRequiredByUnfold(m: Graph, db: map<string, Info>, req: string, requester: string, rank: string -> nat)
    requires Ranked(m, rank) && DbRanked(db, rank) && Target(m, db, req).Some?
    ensures var e := Target(m, db, req).value;
      Ranked(m[e.Name := WithRequester(e, requester)], rank)
      && (forall d | d in e.RequiredDependencies :: rank(d) < rank(e.Name))
      && rank(e.Name) <= rank(req)
      && AddRequiredBy(m, db, req, requester, rank)
         == AddRequiredByAll(m[e.Name := WithRequester(e, requester)], db, e.RequiredDependencies, e.Name,
                             rank, rank(e.Name))
  {
    var e := Target(m, db, req).value;
    TargetRanked(m, db, req, rank);
    RankedStore(m, WithRequester(e, requester), rank);
  }

  /** A tracked entry's required dependencies rank below its name. */
  lemma RequiredRanked(m: Graph, k: string, rank: string -> nat)
    requires Ranked(m, rank) && k in m
    ensures forall d | d in m[k].RequiredDependencies :: rank(d) < rank(m[k].Name)
  {
  }

  /** Visiting one more key extends the walk by one step. */
  lemma {:induction false} ResolveSnoc(m: Graph, db: map<string, Info>, order: seq<string>, k: string,
                                       rank: string -> nat)
    requires Ranked(m, rank) && DbRanked(db, rank)
    ensures var r := Resolve(m, db, order, rank);
      Resolve(m, db, order + [k], rank)
      == if k in r then AddRequiredByAll(r, db, r[k].RequiredDependencies, r[k].Name, rank, rank(r[k].Name))
         else r
    decreases |order|
  {
    if |order| > 0 {
      var k0 := order[0];
      var next := if k0 in m then AddRequiredByAll(m, db, m[k0].RequiredDependencies, m[k0].Name, rank, rank(m[k0].Name))
                  else m;
      assert (order + [k])[1..] == order[1..] + [k];
      ResolveSnoc(next, db, order[1..], k, rank);
    }
  }

  /** One step of a pruning loop of Remove. */
  lemma PruneStep(m: Graph, ds: seq<string>, i: nat, opt: DepOption, rank: string -> nat, bound: nat)
    requires Ranked(m, rank) && KeysNamed(m) && rank("") == 0 && i < |ds|
    requires forall d | d in ds[i..] :: rank(d) + 1 < bound
    ensures Measure(m, Lookup(m, ds[i]).Name, rank) < bound
    ensures forall d | d in ds[i + 1..] :: rank(d) + 1 < bound
    ensures Prune(m, ds[i..], opt, rank, bound)
            == Prune(if Orphan(m, ds[i]) then Remove(m, Lookup(m, ds[i]).Name, opt, rank) else m,
                     ds[i + 1..], opt, rank, bound)
  {
    assert ds[i..][0] == ds[i] && ds[i] in ds[i..];
    assert ds[i..][1..] == ds[i + 1..];
  }
}
