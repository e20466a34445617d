/** What addRequiredBy, ResolveRequiredDependencyMap and the cache-backed
    Add promise about back-references: targets end up tracked with the
    requester listed, sorted, and every required dependency reachable
    from them with metadata points back at its parent.

    The lemmas assume the database the refresh command builds (records
    stored under their full name, see Keyed) and a map whose entries are
    stored under their own names (KeysNamed), which every write of the
    cache-backed revision keeps. */
module BrewClosure {
  import opened Base
  import opened GoStrings
  import opened BrewInfo
  import opened BrewEntry
  import opened BrewGraph

  /** `r` extends `m`: no key is lost, every new key has metadata and
      holds the entry classified from it, and only RequiredBy lists
      change, by growing. */
  predicate Grows(m: Graph, r: Graph, db: map<string, Info>) {
    m.Keys <= r.Keys <= m.Keys + db.Keys
    && (forall k | k in m :: r[k] == m[k].(RequiredBy := r[k].RequiredBy))
    && (forall k | k in m :: forall x | x in m[k].RequiredBy :: x in r[k].RequiredBy)
    && (forall k | k in r && k !in m :: r[k] == FromInfo(Zero, db[k]).(RequiredBy := r[k].RequiredBy))
  }

  lemma GrowsTransitive(a: Graph, b: Graph, c: Graph, db: map<string, Info>)
    requires Grows(a, b, db) && Grows(b, c, db)
    ensures Grows(a, c, db)
  {
    forall k | k in c && k !in a
      ensures c[k] == FromInfo(Zero, db[k]).(RequiredBy := c[k].RequiredBy)
    {
      if k in b {
        assert c[k] == b[k].(RequiredBy := c[k].RequiredBy);
      }
    }
  }

  /** `k` is tracked, and every required dependency of it that is tracked
      or has metadata is tracked, lists `k` in its RequiredBy and is closed
      in turn. */
  ghost predicate ClosedAt(m: Graph, db: map<string, Info>, k: string, rank: string -> nat)
    decreases rank(k)
  {
    k in m && forall d | d in m[k].RequiredDependencies && (d in m || d in db) ::
      rank(d) < rank(k) && d in m && k in m[d].RequiredBy && ClosedAt(m, db, d, rank)
  }

  /** Growing a map keeps every closed key closed. */
  lemma {:induction false} ClosedAtGrows(m: Graph, r: Graph, db: map<string, Info>, k: string,
                                         rank: string -> nat)
    requires Grows(m, r, db) && ClosedAt(m, db, k, rank)
    ensures ClosedAt(r, db, k, rank)
    decreases rank(k)
  {
    forall d | d in r[k].RequiredDependencies && (d in r || d in db)
      ensures rank(d) < rank(k) && d in r && k in r[d].RequiredBy && ClosedAt(r, db, d, rank)
    {
      assert d in m[k].RequiredDependencies && (d in m || d in db);
      ClosedAtGrows(m, r, db, d, rank);
    }
  }

  /** WithRequester lists the requester, keeps what was listed and
      touches no other field. */
  lemma WithRequesterList(e: Entry, requester: string)
    ensures requester in WithRequester(e, requester).RequiredBy
    ensures forall x | x in e.RequiredBy :: x in WithRequester(e, requester).RequiredBy
    ensures WithRequester(e, requester) == e.(RequiredBy := WithRequester(e, requester).RequiredBy)
  {
    var list := if requester in e.RequiredBy then e.RequiredBy else e.RequiredBy + [requester];
    assert multiset(SortStrings(list)) == multiset(list);
    assert requester in multiset(list);
    forall x | x in e.RequiredBy ensures x in SortStrings(list) {
      assert x in multiset(list);
    }
  }

  /** Storing an entry that only grows the RequiredBy of what was there,
      or that is classified from metadata under a new key, grows the map. */
  lemma StoreGrows(m: Graph, db: map<string, Info>, k: string, e: Entry)
    requires k in m ==> e == m[k].(RequiredBy := e.RequiredBy)
                        && forall x | x in m[k].RequiredBy :: x in e.RequiredBy
    requires k !in m ==> k in db && e == FromInfo(Zero, db[k]).(RequiredBy := e.RequiredBy)
    ensures Grows(m, m[k := e], db)
  {
  }

  /** The first step of addRequiredBy: storing the annotated target. */
  lemma StoreTargetGrows(m: Graph, db: map<string, Info>, req: string, requester: string)
    requires KeysNamed(m) && Keyed(db) && Target(m, db, req).Some?
    ensures Target(m, db, req).value.Name == req
    ensures var e := Target(m, db, req).value;
      Grows(m, m[req := WithRequester(e, requester)], db) && KeysNamed(m[req := WithRequester(e, requester)])
    ensures requester in WithRequester(Target(m, db, req).value, requester).RequiredBy
  {
    var e := Target(m, db, req).value;
    WithRequesterList(e, requester);
    if req !in m {
      FromInfoFields(Zero, db[req]);
    }
    StoreGrows(m, db, req, WithRequester(e, requester));
  }

  /** No key ranked `bound` or higher is added, removed or changed. */
  ghost predicate FrameAbove(m: Graph, r: Graph, bound: nat, rank: string -> nat) {
    forall k | rank(k) >= bound :: (k in r <==> k in m) && (k in r ==> r[k] == m[k])
  }

  /** `r` loses no key of `m`, keeps entries under their own names and
      changes nothing ranked `bound` or higher. */
  ghost predicate Keeps(m: Graph, r: Graph, bound: nat, rank: string -> nat) {
    m.Keys <= r.Keys && (KeysNamed(m) ==> KeysNamed(r)) && FrameAbove(m, r, bound, rank)
  }

  lemma KeepsTransitive(a: Graph, b: Graph, c: Graph, bound: nat, rank: string -> nat)
    requires Keeps(a, b, bound, rank) && Keeps(b, c, bound, rank)
    ensures Keeps(a, c, bound, rank)
  {
  }

  lemma KeepsWeaken(a: Graph, b: Graph, low: nat, high: nat, rank: string -> nat)
    requires Keeps(a, b, low, rank) && low <= high
    ensures Keeps(a, b, high, rank)
  {
  }

  /** Storing an entry under its own name, ranked below `bound`, keeps the map. */
  lemma StoreKeeps(m: Graph, e: Entry, bound: nat, rank: string -> nat)
    requires rank(e.Name) < bound
    ensures Keeps(m, m[e.Name := e], bound, rank)
  {
  }

  /** addRequiredBy(req, requester): the map grows; a target with
      metadata or already tracked ends up tracked and closed with the
      requester listed; every key it adds is closed. */
  lemma {:induction false} AddRequiredByCloses(m: Graph, db: map<string, Info>, req: string,
                                               requester: string, rank: string -> nat)
    requires Ranked(m, rank) && DbRanked(db, rank) && KeysNamed(m) && Keyed(db)
    ensures var r := AddRequiredBy(m, db, req, requester, rank);
      Grows(m, r, db) && KeysNamed(r)
      && ((req in m || req in db) ==> req in r && requester in r[req].RequiredBy && ClosedAt(r, db, req, rank))
      && (forall k | k in r && k !in m :: ClosedAt(r, db, k, rank))
    decreases rank(req), 1
  {
    var t := Target(m, db, req);
    if t.Some? {
      var e := t.value;
      StoreTargetGrows(m, db, req, requester);
      AddRequiredByUnfold(m, db, req, requester, rank);
      var m1 := m[req := WithRequester(e, requester)];
      var r := AddRequiredByAll(m1, db, e.RequiredDependencies, req, rank, rank(req));
      AddRequiredByAllCloses(m1, db, e.RequiredDependencies, req, rank, rank(req));
      GrowsTransitive(m, m1, r, db);
      assert r[req].RequiredDependencies == e.RequiredDependencies;
      assert ClosedAt(r, db, req, rank);
      forall k | k in r && k !in m ensures ClosedAt(r, db, k, rank) {
        if k != req { assert k !in m1; }
      }
    }
  }

  /** addRequiredBy(d, requester) for each d of `ds`: every d that is
      tracked or has metadata ends up tracked, closed, with the requester
      listed. */
  lemma {:induction false} AddRequiredByAllCloses(m: Graph, db: map<string, Info>, ds: seq<string>,
                                                  requester: string, rank: string -> nat, bound: nat)
    requires Ranked(m, rank) && DbRanked(db, rank) && KeysNamed(m) && Keyed(db)
    requires forall d | d in ds :: rank(d) < bound
    ensures var r := AddRequiredByAll(m, db, ds, requester, rank, bound);
      Grows(m, r, db) && KeysNamed(r)
      && (forall d | d in ds && (d in m || d in db) ::
            d in r && requester in r[d].RequiredBy && ClosedAt(r, db, d, rank))
      && (forall k | k in r && k !in m :: ClosedAt(r, db, k, rank))
    decreases bound, 0, |ds|
  {
    if |ds| > 0 {
      var m1 := AddRequiredBy(m, db, ds[0], requester, rank);
      AddRequiredByCloses(m, db, ds[0], requester, rank);
      var r := AddRequiredByAll(m1, db, ds[1..], requester, rank, bound);
      AddRequiredByAllCloses(m1, db, ds[1..], requester, rank, bound);
      GrowsTransitive(m, m1, r, db);
      if ds[0] in m || ds[0] in db {
        ClosedAtGrows(m1, r, db, ds[0], rank);
      }
      forall k | k in r && k !in m ensures ClosedAt(r, db, k, rank) {
        if k in m1 { ClosedAtGrows(m1, r, db, k, rank); }
      }
      forall d | d in ds && (d in m || d in db)
        ensures d in r && requester in r[d].RequiredBy && ClosedAt(r, db, d, rank)
      {
        if d != ds[0] {
          assert d in ds[1..];
        }
      }
    } else {
      assert Grows(m, m, db);
    }
  }

  /** addRequiredBy writes only keys ranked no higher than its target,
      loses no key and stores every entry under its own name. */
  lemma {:induction false} AddRequiredByFrame(m: Graph, db: map<string, Info>, req: string,
                                              requester: string, rank: string -> nat)
    requires Ranked(m, rank) && DbRanked(db, rank)
    ensures Keeps(m, AddRequiredBy(m, db, req, requester, rank), rank(req) + 1, rank)
    decreases rank(req), 1
  {
    var t := Target(m, db, req);
    if t.Some? {
      var e := t.value;
      AddRequiredByUnfold(m, db, req, requester, rank);
      var m1 := m[e.Name := WithRequester(e, requester)];
      var bound := rank(e.Name);
      var r := AddRequiredByAll(m1, db, e.RequiredDependencies, e.Name, rank, bound);
      StoreKeeps(m, WithRequester(e, requester), rank(req) + 1, rank);
      AddRequiredByAllFrame(m1, db, e.RequiredDependencies, e.Name, rank, bound);
      KeepsWeaken(m1, r, bound, rank(req) + 1, rank);
      KeepsTransitive(m, m1, r, rank(req) + 1, rank);
    } else {
      assert AddRequiredBy(m, db, req, requester, rank) == m;
    }
  }

  lemma {:induction false} AddRequiredByAllFrame(m: Graph, db: map<string, Info>, ds: seq<string>,
                                                 requester: string, rank: string -> nat, bound: nat)
    requires Ranked(m, rank) && DbRanked(db, rank)
    requires forall d | d in ds :: rank(d) < bound
    ensures Keeps(m, AddRequiredByAll(m, db, ds, requester, rank, bound), bound, rank)
    decreases bound, 0, |ds|
  {
    if |ds| > 0 {
      assert ds[0] in ds;
      var m1 := AddRequiredBy(m, db, ds[0], requester, rank);
      AddRequiredByFrame(m, db, ds[0], requester, rank);
      KeepsWeaken(m, m1, rank(ds[0]) + 1, bound, rank);
      AddRequiredByAllFrame(m1, db, ds[1..], requester, rank, bound);
      KeepsTransitive(m, m1, AddRequiredByAll(m1, db, ds[1..], requester, rank, bound), bound, rank);
    } else {
      assert AddRequiredByAll(m, db, ds, requester, rank, bound) == m;
    }
  }

  /** The target addRequiredBy stores under its name: the requester added
      once when missing, the list sorted, every other field as it was. */
  lemma AddRequiredByTarget(m: Graph, db: map<string, Info>, req: string, requester: string,
                            rank: string -> nat)
    requires Ranked(m, rank) && DbRanked(db, rank) && Target(m, db, req).Some?
    ensures var e := Target(m, db, req).value;
      var r := AddRequiredBy(m, db, req, requester, rank);
      e.Name in r && r[e.Name] == e.(RequiredBy := r[e.Name].RequiredBy)
      && Sorted(r[e.Name].RequiredBy)
      && multiset(r[e.Name].RequiredBy)
           == multiset(e.RequiredBy) + (if requester in e.RequiredBy then multiset{} else multiset{requester})
  {
    var e := Target(m, db, req).value;
    AddRequiredByUnfold(m, db, req, requester, rank);
    var w := WithRequester(e, requester);
    var m1 := m[e.Name := w];
    var r := AddRequiredByAll(m1, db, e.RequiredDependencies, e.Name, rank, rank(e.Name));
    AddRequiredByAllFrame(m1, db, e.RequiredDependencies, e.Name, rank, rank(e.Name));
    assert r[e.Name] == w;
    WithRequesterSorted(e, requester);
  }

  /** The requester's list is sorted and gains the requester once when missing. */
  lemma WithRequesterSorted(e: Entry, requester: string)
    ensures var w := WithRequester(e, requester);
      Sorted(w.RequiredBy) && w == e.(RequiredBy := w.RequiredBy)
      && multiset(w.RequiredBy)
           == multiset(e.RequiredBy) + (if requester in e.RequiredBy then multiset{} else multiset{requester})
  {
    var list := if requester in e.RequiredBy then e.RequiredBy else e.RequiredBy + [requester];
    assert WithRequester(e, requester).RequiredBy == SortStrings(list);
  }

  /** With the requester listed at most once before, it is listed exactly
      once after. */
  lemma AddRequiredByOnce(m: Graph, db: map<string, Info>, req: string, requester: string,
                          rank: string -> nat)
    requires Ranked(m, rank) && DbRanked(db, rank) && Target(m, db, req).Some?
    requires multiset(Target(m, db, req).value.RequiredBy)[requester] <= 1
    ensures var e := Target(m, db, req).value;
      var r := AddRequiredBy(m, db, req, requester, rank);
      e.Name in r && multiset(r[e.Name].RequiredBy)[requester] == 1
  {
    AddRequiredByTarget(m, db, req, requester, rank);
  }

  /** Without metadata and not tracked, addRequiredBy changes nothing. */
  lemma AddRequiredByUnknown(m: Graph, db: map<string, Info>, req: string, requester: string,
                             rank: string -> nat)
    requires Ranked(m, rank) && DbRanked(db, rank) && req !in m && req !in db
    ensures AddRequiredBy(m, db, req, requester, rank) == m
  {
  }

  /** Every tracked entry points back from its required dependencies. */
  ghost predicate Closed(m: Graph, db: map<string, Info>, rank: string -> nat) {
    forall k | k in m :: ClosedAt(m, db, k, rank)
  }

  /** ResolveRequiredDependencyMap: the map grows, and every key visited
      and every key added ends up closed. */
  lemma {:induction false} ResolveCloses(m: Graph, db: map<string, Info>, order: seq<string>,
                                         rank: string -> nat)
    requires Ranked(m, rank) && DbRanked(db, rank) && KeysNamed(m) && Keyed(db)
    ensures var r := Resolve(m, db, order, rank);
      Grows(m, r, db) && KeysNamed(r)
      && (forall k | k in order && k in m :: ClosedAt(r, db, k, rank))
      && (forall k | k in r && k !in m :: ClosedAt(r, db, k, rank))
    decreases |order|
  {
    if |order| == 0 {
      assert Grows(m, m, db);
    } else {
      var k := order[0];
      var next := if k in m then AddRequiredByAll(m, db, m[k].RequiredDependencies, m[k].Name, rank, rank(m[k].Name))
                  else m;
      if k in m {
        AddRequiredByAllCloses(m, db, m[k].RequiredDependencies, k, rank, rank(k));
        assert ClosedAt(next, db, k, rank);
      } else {
        assert Grows(m, m, db);
      }
      var r := Resolve(next, db, order[1..], rank);
      ResolveCloses(next, db, order[1..], rank);
      GrowsTransitive(m, next, r, db);
      forall k' | k' in order && k' in m ensures ClosedAt(r, db, k', rank) {
        if k' == k { ClosedAtGrows(next, r, db, k, rank); } else { assert k' in order[1..]; }
      }
      forall k' | k' in r && k' !in m ensures ClosedAt(r, db, k', rank) {
        if k' in next { ClosedAtGrows(next, r, db, k', rank); }
      }
    }
  }

  /** After a walk over every tracked key, each required dependency that
      is tracked or has metadata lists the entry that requires it. */
  lemma ResolveAnnotates(m: Graph, db: map<string, Info>, order: seq<string>, rank: string -> nat)
    requires Ranked(m, rank) && DbRanked(db, rank) && KeysNamed(m) && Keyed(db)
    requires forall k | k in m :: k in order
    ensures var r := Resolve(m, db, order, rank);
      Closed(r, db, rank)
      && forall k, d | k in r && d in r[k].RequiredDependencies && (d in r || d in db) ::
           d in r && k in r[d].RequiredBy
  {
    ResolveCloses(m, db, order, rank);
  }

  // Add

  /** Add at the levels below All keeps the map. */
  lemma AddStoredKeeps(m: Graph, db: map<string, Info>, entry: Entry, opt: DepOption, rank: string -> nat)
    requires Ranked(m, rank) && DbRanked(db, rank) && EntryRanked(db, entry, rank)
    requires entry.Name in db && opt != All
    ensures Keeps(m, Add(m, db, entry, opt, rank), rank(entry.Name) + 1, rank)
  {
    var top := rank(entry.Name) + 1;
    var e := FromInfo(entry, db[entry.Name]);
    ClassifiedRanked(m, db, entry, rank);
    var stored := m[e.Name := e];
    var bound := rank(e.Name);
    StoreKeeps(m, e, top, rank);
    if opt == PackageAndRequired {
      var annotated := AddRequiredByAll(stored, db, e.RequiredDependencies, e.Name, rank, bound);
      AddRequiredByAllFrame(stored, db, e.RequiredDependencies, e.Name, rank, bound);
      KeepsWeaken(stored, annotated, bound, top, rank);
      KeepsTransitive(m, stored, annotated, top, rank);
    }
  }

  /** Add at level All is the cascade run on the map Add builds at level
      PackageAndRequired. */
  lemma AddAllSplit(m: Graph, db: map<string, Info>, entry: Entry, rank: string -> nat)
    requires Ranked(m, rank) && DbRanked(db, rank) && EntryRanked(db, entry, rank)
    requires entry.Name in db
    ensures var e := FromInfo(entry, db[entry.Name]);
      (forall d | d in Deps(e) :: rank(d) < rank(e.Name)) && rank(e.Name) <= rank(entry.Name)
      && Add(m, db, entry, All, rank)
         == AddCascade(Add(m, db, entry, PackageAndRequired, rank), db, e, rank, rank(e.Name))
  {
    ClassifiedRanked(m, db, entry, rank);
    FromInfoFields(entry, db[entry.Name]);
  }

  /** Add and the Adds it cascades into lose no key, store every entry
      under its own name and write only keys ranked no higher than the
      package added. */
  lemma {:induction false} AddKeeps(m: Graph, db: map<string, Info>, entry: Entry, opt: DepOption,
                                    rank: string -> nat)
    requires Ranked(m, rank) && DbRanked(db, rank) && EntryRanked(db, entry, rank)
    ensures Keeps(m, Add(m, db, entry, opt, rank), rank(entry.Name) + 1, rank)
    decreases rank(entry.Name), 1
  {
    if entry.Name !in db {
      assert Add(m, db, entry, opt, rank) == m;
    } else if opt != All {
      AddStoredKeeps(m, db, entry, opt, rank);
    } else {
      var top := rank(entry.Name) + 1;
      var e := FromInfo(entry, db[entry.Name]);
      var annotated := Add(m, db, entry, PackageAndRequired, rank);
      AddStoredKeeps(m, db, entry, PackageAndRequired, rank);
      AddAllSplit(m, db, entry, rank);
      AddCascadeKeeps(annotated, db, e, rank, rank(e.Name));
      KeepsWeaken(annotated, Add(m, db, entry, All, rank), rank(e.Name), top, rank);
      KeepsTransitive(m, annotated, Add(m, db, entry, All, rank), top, rank);
    }
  }

  lemma {:induction false} AddCascadeKeeps(m: Graph, db: map<string, Info>, e: Entry,
                                           rank: string -> nat, bound: nat)
    requires Ranked(m, rank) && DbRanked(db, rank)
    requires forall d | d in Deps(e) :: rank(d) < bound
    ensures Keeps(m, AddCascade(m, db, e, rank, bound), bound, rank)
    decreases bound, 0, |Deps(e)| + 1
  {
    var recommended := AddEach(m, db, e.RecommendedDependencies, rank, bound);
    var optional := AddEach(recommended, db, e.OptionalDependencies, rank, bound);
    var r := AddEach(optional, db, e.BuildDependencies, rank, bound);
    AddEachKeeps(m, db, e.RecommendedDependencies, rank, bound);
    AddEachKeeps(recommended, db, e.OptionalDependencies, rank, bound);
    AddEachKeeps(optional, db, e.BuildDependencies, rank, bound);
    KeepsTransitive(m, recommended, optional, bound, rank);
    KeepsTransitive(m, optional, r, bound, rank);
  }

  lemma {:induction false} AddEachKeeps(m: Graph, db: map<string, Info>, ds: seq<string>,
                                        rank: string -> nat, bound: nat)
    requires Ranked(m, rank) && DbRanked(db, rank)
    requires forall d | d in ds :: rank(d) < bound
    ensures Keeps(m, AddEach(m, db, ds, rank, bound), bound, rank)
    decreases bound, 0, |ds|
  {
    if |ds| > 0 {
      assert ds[0] in ds;
      var m1 := Add(m, db, Stub(ds[0]), All, rank);
      AddKeeps(m, db, Stub(ds[0]), All, rank);
      KeepsWeaken(m, m1, rank(ds[0]) + 1, bound, rank);
      AddEachKeeps(m1, db, ds[1..], rank, bound);
      KeepsTransitive(m, m1, AddEach(m1, db, ds[1..], rank, bound), bound, rank);
    }
  }

  /** Without metadata, Add reports the failed lookup and changes nothing. */
  lemma AddUnknown(m: Graph, db: map<string, Info>, entry: Entry, opt: DepOption, rank: string -> nat)
    requires Ranked(m, rank) && DbRanked(db, rank) && EntryRanked(db, entry, rank)
    requires entry.Name !in db
    ensures Add(m, db, entry, opt, rank) == m
    ensures AddError(db, entry.Name) == Some(InfoNotFound(entry.Name))
  {
  }

  /** With metadata, the classified entry is stored under its full name at
      every level and nothing later overwrites it, so whatever RequiredBy a
      tracked entry of that name had is replaced by the caller's. */
  lemma AddStores(m: Graph, db: map<string, Info>, entry: Entry, opt: DepOption, rank: string -> nat)
    requires Ranked(m, rank) && DbRanked(db, rank) && EntryRanked(db, entry, rank)
    requires entry.Name in db
    ensures var e := FromInfo(entry, db[entry.Name]);
      var r := Add(m, db, entry, opt, rank);
      e.Name == db[entry.Name].FullName && e.Name in r && r[e.Name] == e
      && r[e.Name].RequiredBy == entry.RequiredBy && r[e.Name].Args == entry.Args
    ensures AddError(db, entry.Name) == None
  {
    var e := FromInfo(entry, db[entry.Name]);
    ClassifiedRanked(m, db, entry, rank);
    FromInfoFields(entry, db[entry.Name]);
    var stored := m[e.Name := e];
    var bound := rank(e.Name);
    AddRequiredByAllFrame(stored, db, e.RequiredDependencies, e.Name, rank, bound);
    if opt == All {
      AddCascadeKeeps(AddRequiredByAll(stored, db, e.RequiredDependencies, e.Name, rank, bound), db, e, rank, bound);
    }
  }

  /** At PackageOnly nothing but that one entry is written. */
  lemma AddPackageOnly(m: Graph, db: map<string, Info>, entry: Entry, rank: string -> nat)
    requires Ranked(m, rank) && DbRanked(db, rank) && EntryRanked(db, entry, rank)
    requires entry.Name in db
    ensures var r := Add(m, db, entry, PackageOnly, rank);
      r.Keys == m.Keys + {db[entry.Name].FullName}
      && forall k | k in m && k != db[entry.Name].FullName :: r[k] == m[k]
  {
    FromInfoFields(entry, db[entry.Name]);
  }

  /** At PackageAndRequired the added package is closed: each required
      dependency with metadata is tracked, lists it, and so on down. */
  lemma AddRequiredCloses(m: Graph, db: map<string, Info>, entry: Entry, rank: string -> nat)
    requires Ranked(m, rank) && DbRanked(db, rank) && EntryRanked(db, entry, rank)
    requires KeysNamed(m) && Keyed(db) && entry.Name in db
    ensures var r := Add(m, db, entry, PackageAndRequired, rank);
      ClosedAt(r, db, entry.Name, rank) && KeysNamed(r)
  {
    var e := FromInfo(entry, db[entry.Name]);
    ClassifiedRanked(m, db, entry, rank);
    FromInfoFields(entry, db[entry.Name]);
    var stored := m[e.Name := e];
    assert e.Name == entry.Name;
    var r := AddRequiredByAll(stored, db, e.RequiredDependencies, e.Name, rank, rank(e.Name));
    AddRequiredByAllCloses(stored, db, e.RequiredDependencies, e.Name, rank, rank(e.Name));
    assert r[e.Name].RequiredDependencies == e.RequiredDependencies;
  }

  /** With the requester's metadata stored under its full name, an
      `Entry{Name: d}` Add leaves `d` tracked. */
  lemma {:induction false} AddEachTracks(m: Graph, db: map<string, Info>, ds: seq<string>,
                                         rank: string -> nat, bound: nat)
    requires Ranked(m, rank) && DbRanked(db, rank) && Keyed(db)
    requires forall d | d in ds :: rank(d) < bound
    ensures var r := AddEach(m, db, ds, rank, bound);
      m.Keys <= r.Keys && forall d | d in ds && d in db :: d in r
    decreases |ds|
  {
    if |ds| > 0 {
      var m1 := Add(m, db, Stub(ds[0]), All, rank);
      AddKeeps(m, db, Stub(ds[0]), All, rank);
      if ds[0] in db { AddStores(m, db, Stub(ds[0]), All, rank); }
      AddEachTracks(m1, db, ds[1..], rank, bound);
      forall d | d in ds && d in db ensures d in AddEach(m, db, ds, rank, bound) {
        if d != ds[0] { assert d in ds[1..]; }
      }
    }
  }

  /** At All every recommended, optional and build dependency with
      metadata ends up tracked, besides the package itself. */
  lemma AddAllTracks(m: Graph, db: map<string, Info>, entry: Entry, rank: string -> nat)
    requires Ranked(m, rank) && DbRanked(db, rank) && EntryRanked(db, entry, rank)
    requires Keyed(db) && entry.Name in db
    ensures var e := FromInfo(entry, db[entry.Name]);
      var r := Add(m, db, entry, All, rank);
      m.Keys <= r.Keys && entry.Name in r
      && forall d | d in e.RecommendedDependencies + e.OptionalDependencies + e.BuildDependencies
                    && d in db :: d in r
  {
    var e := FromInfo(entry, db[entry.Name]);
    var annotated := Add(m, db, entry, PackageAndRequired, rank);
    AddStoredKeeps(m, db, entry, PackageAndRequired, rank);
    AddAllSplit(m, db, entry, rank);
    AddCascadeTracks(annotated, db, e, rank, rank(e.Name));
    AddStores(m, db, entry, All, rank);
  }

  lemma AddCascadeTracks(m: Graph, db: map<string, Info>, e: Entry, rank: string -> nat, bound: nat)
    requires Ranked(m, rank) && DbRanked(db, rank) && Keyed(db)
    requires forall d | d in Deps(e) :: rank(d) < bound
    ensures var r := AddCascade(m, db, e, rank, bound);
      m.Keys <= r.Keys
      && forall d | d in e.RecommendedDependencies + e.OptionalDependencies + e.BuildDependencies
                    && d in db :: d in r
  {
    var recommended := AddEach(m, db, e.RecommendedDependencies, rank, bound);
    var optional := AddEach(recommended, db, e.OptionalDependencies, rank, bound);
    AddEachTracks(m, db, e.RecommendedDependencies, rank, bound);
    AddEachTracks(recommended, db, e.OptionalDependencies, rank, bound);
    AddEachTracks(optional, db, e.BuildDependencies, rank, bound);
  }

  // What Add at PackageAndRequired brings in

  /** `k` is `from`, or is reached from it along required dependencies:
      those of the tracked entry when there is one, else those classified
      from its metadata, as addRequiredBy follows them. Each step goes
      down in rank. */
  ghost predicate ReachRequired(m: Graph, db: map<string, Info>, from: string, k: string, rank: string -> nat)
    decreases rank(from)
  {
    k == from
    || (Target(m, db, from).Some?
        && exists d | d in Target(m, db, from).value.RequiredDependencies ::
             rank(d) < rank(from) && ReachRequired(m, db, d, k, rank))
  }

  /** `g` and `h` give every name ranked below `bound` the same target
      presence and the same required dependencies. */
  ghost predicate EdgesAgree(g: Graph, h: Graph, db: map<string, Info>, bound: nat, rank: string -> nat) {
    forall x | rank(x) < bound ::
      Target(g, db, x).Some? == Target(h, db, x).Some?
      && (Target(g, db, x).Some? ==>
            Target(g, db, x).value.RequiredDependencies == Target(h, db, x).value.RequiredDependencies)
  }

  /** A grown map follows the same required edges as the map it grew from. */
  lemma GrowsEdges(m: Graph, r: Graph, db: map<string, Info>, bound: nat, rank: string -> nat)
    requires Grows(m, r, db)
    ensures EdgesAgree(m, r, db, bound, rank)
  {
    forall x | rank(x) < bound
      ensures Target(m, db, x).Some? == Target(r, db, x).Some?
      ensures Target(m, db, x).Some? ==>
                Target(m, db, x).value.RequiredDependencies == Target(r, db, x).value.RequiredDependencies
    {
      if x in r && x !in m {
        assert r[x] == FromInfo(Zero, db[x]).(RequiredBy := r[x].RequiredBy);
      }
    }
  }

  /** Storing an entry leaves the edges of every name ranked below it alone. */
  lemma StoreEdges(m: Graph, db: map<string, Info>, e: Entry, bound: nat, rank: string -> nat)
    requires bound <= rank(e.Name)
    ensures EdgesAgree(m, m[e.Name := e], db, bound, rank)
  {
  }

  /** Reachability carries over between maps whose edges agree below the
      starting rank. */
  lemma {:induction false} ReachTransfer(g: Graph, h: Graph, db: map<string, Info>, from: string, k: string,
                                         bound: nat, rank: string -> nat)
    requires EdgesAgree(g, h, db, bound, rank) && rank(from) < bound
    requires ReachRequired(h, db, from, k, rank)
    ensures ReachRequired(g, db, from, k, rank)
    decreases rank(from)
  {
    if k != from {
      var d :| d in Target(h, db, from).value.RequiredDependencies
               && rank(d) < rank(from) && ReachRequired(h, db, d, k, rank);
      ReachTransfer(g, h, db, d, k, bound, rank);
      assert d in Target(g, db, from).value.RequiredDependencies;
    }
  }

  /** addRequiredBy(req, requester) adds only `req` and keys reached from
      it along required dependencies. */
  lemma {:induction false} AddRequiredByReach(m: Graph, db: map<string, Info>, req: string,
                                              requester: string, rank: string -> nat)
    requires Ranked(m, rank) && DbRanked(db, rank) && KeysNamed(m) && Keyed(db)
    ensures forall k | k in AddRequiredBy(m, db, req, requester, rank) && k !in m ::
              ReachRequired(m, db, req, k, rank)
    decreases rank(req), 1
  {
    var t := Target(m, db, req);
    if t.Some? {
      var e := t.value;
      StoreTargetGrows(m, db, req, requester);
      AddRequiredByUnfold(m, db, req, requester, rank);
      var m1 := m[req := WithRequester(e, requester)];
      var r := AddRequiredByAll(m1, db, e.RequiredDependencies, req, rank, rank(req));
      AddRequiredByAllReach(m1, db, e.RequiredDependencies, req, rank, rank(req));
      GrowsEdges(m, m1, db, rank(req), rank);
      forall k | k in r && k !in m ensures ReachRequired(m, db, req, k, rank) {
        if k != req {
          assert k !in m1;
          var d :| d in e.RequiredDependencies && ReachRequired(m1, db, d, k, rank);
          ReachTransfer(m, m1, db, d, k, rank(req), rank);
        }
      }
    }
  }

  /** addRequiredBy for each of `ds` adds only keys reached from one of them. */
  lemma {:induction false} AddRequiredByAllReach(m: Graph, db: map<string, Info>, ds: seq<string>,
                                                 requester: string, rank: string -> nat, bound: nat)
    requires Ranked(m, rank) && DbRanked(db, rank) && KeysNamed(m) && Keyed(db)
    requires forall d | d in ds :: rank(d) < bound
    ensures forall k | k in AddRequiredByAll(m, db, ds, requester, rank, bound) && k !in m ::
              exists d | d in ds :: ReachRequired(m, db, d, k, rank)
    decreases bound, 0, |ds|
  {
    if |ds| > 0 {
      var m1 := AddRequiredBy(m, db, ds[0], requester, rank);
      AddRequiredByReach(m, db, ds[0], requester, rank);
      AddRequiredByCloses(m, db, ds[0], requester, rank);
      var r := AddRequiredByAll(m1, db, ds[1..], requester, rank, bound);
      AddRequiredByAllReach(m1, db, ds[1..], requester, rank, bound);
      GrowsEdges(m, m1, db, bound, rank);
      forall k | k in r && k !in m ensures exists d | d in ds :: ReachRequired(m, db, d, k, rank) {
        if k in m1 {
          assert ds[0] in ds;
        } else {
          var d :| d in ds[1..] && ReachRequired(m1, db, d, k, rank);
          ReachTransfer(m, m1, db, d, k, bound, rank);
          assert d in ds;
        }
      }
    }
  }

  /** From a closed key, every name reached that has metadata is tracked. */
  lemma {:induction false} ClosedReach(m: Graph, db: map<string, Info>, x: string, k: string, rank: string -> nat)
    requires ClosedAt(m, db, x, rank) && ReachRequired(m, db, x, k, rank) && k in db
    ensures k in m
    decreases rank(x)
  {
    if k != x {
      var d :| d in Target(m, db, x).value.RequiredDependencies && rank(d) < rank(x)
               && ReachRequired(m, db, d, k, rank);
      assert d in m[x].RequiredDependencies;
      if d in m || d in db {
        ClosedReach(m, db, d, k, rank);
      }
    }
  }

  /** Annotating a key that is already closed brings in no key, so a walk
      that meets it again adds nothing to the map's keys. */
  lemma AddRequiredByClosedKeys(m: Graph, db: map<string, Info>, req: string, requester: string,
                                rank: string -> nat)
    requires Ranked(m, rank) && DbRanked(db, rank) && KeysNamed(m) && Keyed(db)
    requires ClosedAt(m, db, req, rank)
    ensures AddRequiredBy(m, db, req, requester, rank).Keys == m.Keys
  {
    var r := AddRequiredBy(m, db, req, requester, rank);
    AddRequiredByReach(m, db, req, requester, rank);
    AddRequiredByCloses(m, db, req, requester, rank);
    forall k | k in r ensures k in m {
      if k !in m {
        ClosedReach(m, db, req, k, rank);
      }
    }
  }

  /** At PackageAndRequired nothing is added but the package and what its
      required dependencies reach: recommended, optional and build
      dependencies are left out unless a required path leads to them. */
  lemma AddRequiredOnly(m: Graph, db: map<string, Info>, entry: Entry, rank: string -> nat)
    requires Ranked(m, rank) && DbRanked(db, rank) && EntryRanked(db, entry, rank)
    requires KeysNamed(m) && Keyed(db) && entry.Name in db
    ensures var e := FromInfo(entry, db[entry.Name]);
      forall k | k in Add(m, db, entry, PackageAndRequired, rank) && k !in m ::
        k == entry.Name || exists d | d in e.RequiredDependencies :: ReachRequired(m, db, d, k, rank)
  {
    var e := FromInfo(entry, db[entry.Name]);
    ClassifiedRanked(m, db, entry, rank);
    FromInfoFields(entry, db[entry.Name]);
    assert e.Name == entry.Name;
    var stored := m[e.Name := e];
    var bound := rank(e.Name);
    var r := AddRequiredByAll(stored, db, e.RequiredDependencies, e.Name, rank, bound);
    AddRequiredByAllReach(stored, db, e.RequiredDependencies, e.Name, rank, bound);
    StoreEdges(m, db, e, bound, rank);
    forall k | k in r && k !in m && k != entry.Name
      ensures exists d | d in e.RequiredDependencies :: ReachRequired(m, db, d, k, rank)
    {
      var d :| d in e.RequiredDependencies && ReachRequired(stored, db, d, k, rank);
      ReachTransfer(m, stored, db, d, k, bound, rank);
    }
  }

  /** The metadata of the cacheMap_test scenario: vim requires python and
      has ruby, node and go as recommended, optional and build
      dependencies. */
  function VimDb(): (db: map<string, Info>)
    ensures Keyed(db)
  {
    map[
      "vim" := Info("", "vim", "", [], ["python"], ["ruby"], ["node"], ["go"]),
      "python" := Info("", "python", "", [], [], [], [], []),
      "ruby" := Info("", "ruby", "", [], [], [], [], []),
      "go" := Info("", "go", "", [], [], [], [], []),
      "node" := Info("", "node", "", [], [], [], [], [])]
  }

  /** Each package ranks above the ones the walk reaches after it:
      vim, then python, ruby, node and go. */
  function VimRank(s: string): nat {
    if s == "vim" then 4 else if s == "python" then 3 else if s == "ruby" then 2 else if s == "node" then 1 else 0
  }

  /** The entry the test adds. */
  function VimEntry(): Entry {
    Zero.(Name := "vim", RestartService := "true", Args := ["with-override-system-vim"])
  }

  lemma VimRanked()
    ensures DbRanked(VimDb(), VimRank) && EntryRanked(VimDb(), VimEntry(), VimRank)
  {
    var db := VimDb();
    forall k | k in db
      ensures VimRank(db[k].FullName) <= VimRank(k)
      ensures forall d | d in AllDeps(db[k]) :: VimRank(d) < VimRank(db[k].FullName)
    {
      if k == "vim" {
        var deps := AllDeps(db[k]);
        assert deps == ["python", "ruby", "node", "go"];
        assert VimRank("python") == 3 && VimRank("ruby") == 2 && VimRank("node") == 1 && VimRank("go") == 0;
      } else {
        assert k in {"python", "ruby", "go", "node"};
        assert AllDeps(db[k]) == [];
      }
    }
    assert Deps(VimEntry()) == [];
  }

  /** A one-name list keeps its name when another name is removed. */
  lemma RemoveOther(x: string, y: string)
    requires x != y
    ensures RemoveEach([x], [y]) == [x]
  {
    assert [y][..0] == [];
  }

  /** Classified, vim keeps python, and only python, required; python
      has no required dependency. */
  lemma VimRequired()
    ensures FromInfo(VimEntry(), VimDb()["vim"]).RequiredDependencies == ["python"]
    ensures FromInfo(Zero, VimDb()["python"]).RequiredDependencies == []
  {
    var i := VimDb()["vim"];
    assert i.Dependencies == ["python"] && i.OptionalDependencies == ["node"];
    assert i.BuildDependencies == ["go"] && i.RecommendedDependencies == ["ruby"];
    assert VimEntry().RequiredDependencies + i.Dependencies == ["python"];
    RemoveOther("python", "node");
    RemoveOther("python", "go");
    RemoveOther("python", "ruby");
    var p := VimDb()["python"];
    assert Zero.RequiredDependencies + p.Dependencies == [];
  }

  /** A required dependency without required dependencies of its own
      reaches only itself. */
  lemma ReachLeaf(m: Graph, db: map<string, Info>, d: string, k: string, rank: string -> nat)
    requires Target(m, db, d).Some? ==> Target(m, db, d).value.RequiredDependencies == []
    requires ReachRequired(m, db, d, k, rank)
    ensures k == d
  {
  }

  /** When the required dependencies of the package have none of their
      own, Add at PackageAndRequired tracks the package and those of them
      that are tracked or have metadata, and adds nothing else. */
  lemma AddRequiredLeaves(m: Graph, db: map<string, Info>, entry: Entry, rank: string -> nat)
    requires Ranked(m, rank) && DbRanked(db, rank) && EntryRanked(db, entry, rank)
    requires KeysNamed(m) && Keyed(db) && entry.Name in db
    requires forall d | d in FromInfo(entry, db[entry.Name]).RequiredDependencies ::
               Target(m, db, d).Some? ==> Target(m, db, d).value.RequiredDependencies == []
    ensures Add(m, db, entry, PackageAndRequired, rank).Keys
            == m.Keys + {entry.Name}
               + set d | d in FromInfo(entry, db[entry.Name]).RequiredDependencies && (d in m || d in db)
  {
    var e := FromInfo(entry, db[entry.Name]);
    var r := Add(m, db, entry, PackageAndRequired, rank);
    var added := set d | d in e.RequiredDependencies && (d in m || d in db);
    AddLeavesTracks(m, db, entry, rank);
    forall k | k in r ensures k in m.Keys + {entry.Name} + added {
      if k !in m && k != entry.Name {
        AddLeavesOnly(m, db, entry, k, rank);
      }
    }
  }

  /** The package and each of its required dependencies that is tracked
      or has metadata are tracked after Add at PackageAndRequired. */
  lemma AddLeavesTracks(m: Graph, db: map<string, Info>, entry: Entry, rank: string -> nat)
    requires Ranked(m, rank) && DbRanked(db, rank) && EntryRanked(db, entry, rank)
    requires KeysNamed(m) && Keyed(db) && entry.Name in db
    ensures var r := Add(m, db, entry, PackageAndRequired, rank);
      m.Keys + {entry.Name} <= r.Keys
      && forall d | d in FromInfo(entry, db[entry.Name]).RequiredDependencies && (d in m || d in db) :: d in r
  {
    var e := FromInfo(entry, db[entry.Name]);
    var r := Add(m, db, entry, PackageAndRequired, rank);
    AddKeeps(m, db, entry, PackageAndRequired, rank);
    AddStores(m, db, entry, PackageAndRequired, rank);
    AddRequiredCloses(m, db, entry, rank);
    FromInfoFields(entry, db[entry.Name]);
    assert r[entry.Name].RequiredDependencies == e.RequiredDependencies;
  }

  /** A key Add brings in besides the package is one of its leaf
      dependencies. */
  lemma AddLeavesOnly(m: Graph, db: map<string, Info>, entry: Entry, k: string, rank: string -> nat)
    requires Ranked(m, rank) && DbRanked(db, rank) && EntryRanked(db, entry, rank)
    requires KeysNamed(m) && Keyed(db) && entry.Name in db
    requires forall d | d in FromInfo(entry, db[entry.Name]).RequiredDependencies ::
               Target(m, db, d).Some? ==> Target(m, db, d).value.RequiredDependencies == []
    requires k in Add(m, db, entry, PackageAndRequired, rank) && k !in m && k != entry.Name
    ensures k in FromInfo(entry, db[entry.Name]).RequiredDependencies && k in db
  {
    var e := FromInfo(entry, db[entry.Name]);
    AddRequiredOnly(m, db, entry, rank);
    var d :| d in e.RequiredDependencies && ReachRequired(m, db, d, k, rank);
    ReachLeaf(m, db, d, k, rank);
    AddNewKnown(m, db, entry, rank);
  }

  /** Every key Add brings in besides the package has metadata. */
  lemma AddNewKnown(m: Graph, db: map<string, Info>, entry: Entry, rank: string -> nat)
    requires Ranked(m, rank) && DbRanked(db, rank) && EntryRanked(db, entry, rank)
    requires KeysNamed(m) && Keyed(db) && entry.Name in db
    ensures forall k | k in Add(m, db, entry, PackageAndRequired, rank) && k !in m && k != entry.Name :: k in db
  {
    var e := FromInfo(entry, db[entry.Name]);
    ClassifiedRanked(m, db, entry, rank);
    FromInfoFields(entry, db[entry.Name]);
    var stored := m[e.Name := e];
    AddRequiredByAllCloses(stored, db, e.RequiredDependencies, e.Name, rank, rank(e.Name));
  }

  /** What the scenario's metadata gives AddRequiredLeaves. */
  lemma VimFacts(db: map<string, Info>, entry: Entry)
    requires db == VimDb() && entry == VimEntry()
    ensures DbRanked(db, VimRank) && EntryRanked(db, entry, VimRank) && Keyed(db)
    ensures entry.Name == "vim" && "vim" in db && "python" in db
    ensures FromInfo(entry, db["vim"]).RequiredDependencies == ["python"]
    ensures FromInfo(Zero, db["python"]).RequiredDependencies == []
  {
    VimRanked();
    VimRequired();
  }

  /** The cacheMap_test scenario: adding vim at PackageAndRequired tracks
      vim and python; ruby, node and go stay out. */
  lemma AddRequiredExample(db: map<string, Info>, entry: Entry)
    requires db == VimDb() && entry == VimEntry()
    ensures DbRanked(db, VimRank) && EntryRanked(db, entry, VimRank)
    ensures Add(map[], db, entry, PackageAndRequired, VimRank).Keys == {"vim", "python"}
  {
    VimFacts(db, entry);
    var m: Graph := map[];
    AddRequiredLeaves(m, db, entry, VimRank);
    OneKnown(FromInfo(entry, db["vim"]).RequiredDependencies, m, db, "python");
  }

  /** The keys a one-name dependency list with metadata contributes. */
  lemma OneKnown(ds: seq<string>, m: Graph, db: map<string, Info>, x: string)
    requires ds == [x] && x in db
    ensures (set d | d in ds && (d in m || d in db)) == {x}
  {
  }
}
