/** The earlier revision of the dependency graph: a Map is itself the map
    of tracked entries, changed in place by its methods, and it looks
    packages up in the list an InfoCache holds. Entries read from a Brewfile
    or added are stored under their short name; Remove does not cascade.
    Each method is proved to leave the map its specification function in
    module BrewGraph computes, over the table LookupOf(cache) that the
    list search amounts to. */
module BrewMap {
  import opened Base
  import opened GoStrings
  import BrewHelpers
  import opened BrewInfo
  import opened BrewEntry
  import opened BrewfileLine
  import opened BrewGraph
  import BrewIngest
  import BrewClosure

  class Map {
    var Entries: Graph

    /** `Map{}` with the given entries. */
    constructor(m: Graph)
      ensures Entries == m
    {
      Entries := m;
    }

    /** FromBrewfile: ingest the Brewfile lines in order, keyed by short
        name; the first package the cache does not know ends the walk. */
    method FromBrewfile(entries: seq<string>, cache: seq<Info>) returns (err: Option<Error>)
      requires forall j | 0 <= j < |entries| :: HasQuoted(entries[j])
      modifies this
      ensures Outcome(Entries, err) == Ingest(old(Entries), LookupOf(cache), entries, ByName)
    {
      ghost var db := LookupOf(cache);
      var j := 0;
      while j < |entries|
        invariant 0 <= j <= |entries|
        invariant Ingest(Entries, db, entries[j..], ByName) == Ingest(old(Entries), db, entries, ByName)
      {
        var p := Parse(entries[j]);
        var info := Find(cache, p.Name);
        if info.Err? {
          return Some(info.error);
        }
        var b := NewEntry(p, info.value);
        assert entries[j..][1..] == entries[j + 1..];
        Entries := Entries[info.value.Name := b];
        j := j + 1;
      }
      return None;
    }

    /** ResolveDependencies: every entry tracked at the start annotates its
        required dependencies with its name, in an order the method
        chooses and reports. */
    method ResolveDependencies(cache: seq<Info>, ghost rank: string -> nat) returns (ghost order: seq<string>)
      requires Ranked(Entries, rank) && CacheRanked(cache, rank)
      modifies this
      ensures DbRanked(LookupOf(cache), rank) && Entries == Resolve(old(Entries), LookupOf(cache), order, rank)
      ensures (forall k :: k in order <==> k in old(Entries)) && Distinct(order)
    {
      ghost var db := LookupOf(cache);
      LookupOfRanked(cache, rank);
      var keys := Entries.Keys;
      order := [];
      while keys != {}
        invariant Ranked(Entries, rank)
        invariant Entries == Resolve(old(Entries), db, order, rank)
        invariant forall k :: k in old(Entries) <==> k in order || k in keys
        invariant forall k | k in keys :: k !in order
        invariant Distinct(order)
        decreases |keys|
      {
        var k :| k in keys;
        ResolveSnoc(old(Entries), db, order, k, rank);
        if k in Entries {
          var b := Entries[k];
          RequiredRanked(Entries, k, rank);
          if |b.RequiredDependencies| > 0 {
            AnnotateEach(b.RequiredDependencies, b.Name, cache, rank, rank(b.Name));
          }
        }
        DistinctSnoc(order, k);
        order := order + [k];
        keys := keys - {k};
      }
    }

    /** RemoveRequiredBy(req, by): drop `by` from the entry's RequiredBy
        (the zero Entry's when `req` is untracked), sort it and store the
        entry under its name. The cache is not consulted. */
    method RemoveRequiredBy(req: string, requester: string, cache: seq<Info>)
      modifies this
      ensures Entries == BrewGraph.RemoveRequiredBy(old(Entries), req, requester)
    {
      var b := if req in Entries then Entries[req] else Zero;
      var found := BrewHelpers.Contains(b.RequiredBy, requester);
      if found {
        b := b.(RequiredBy := BrewHelpers.Remove(b.RequiredBy, requester));
      }
      b := b.(RequiredBy := SortStrings(b.RequiredBy));
      Entries := Entries[b.Name := b];
    }

    /** AddRequiredBy(req, by): annotate the target (the tracked entry, or
        one built from the cache) with `by`, store it under its name and
        annotate its required dependencies with that name. Only the
        target's own lookup failure is reported. */
    method AddRequiredBy(req: string, requester: string, cache: seq<Info>, ghost rank: string -> nat)
      returns (err: Option<Error>)
      requires Ranked(Entries, rank) && CacheRanked(cache, rank)
      modifies this
      ensures DbRanked(LookupOf(cache), rank) &&
        Entries == BrewGraph.AddRequiredBy(old(Entries), LookupOf(cache), req, requester, rank)
      ensures err == (if Target(old(Entries), LookupOf(cache), req).None? then Some(InfoNotFound(req)) else None)
      decreases rank(req), 1
    {
      ghost var db := LookupOf(cache);
      LookupOfRanked(cache, rank);
      var t := TargetOf(req, cache);
      if t.Err? {
        return Some(t.error);
      }
      AddRequiredByUnfold(Entries, db, req, requester, rank);
      var e := AddRequester(t.value, requester);
      Entries := Entries[e.Name := e];
      if |e.RequiredDependencies| > 0 {
        AnnotateEach(e.RequiredDependencies, e.Name, cache, rank, rank(e.Name));
      }
      return None;
    }

    /** The entry AddRequiredBy annotates: the tracked one, or a new one
        classified from the package's cache record. */
    method TargetOf(req: string, cache: seq<Info>) returns (t: Result<Entry>)
      ensures t.Ok? <==> Target(Entries, LookupOf(cache), req).Some?
      ensures t.Ok? ==> t.value == Target(Entries, LookupOf(cache), req).value
      ensures t.Err? ==> t.error == InfoNotFound(req)
    {
      if req in Entries {
        return Ok(Entries[req]);
      }
      var info := Find(cache, req);
      if info.Err? {
        return Err(info.error);
      }
      var e := FromInfoMethod(Zero, info.value);
      return Ok(e);
    }

    /** The loop `for _, d := range ds { m.AddRequiredBy(d, by, i) }`,
        errors dropped. */
    method AnnotateEach(ds: seq<string>, requester: string, cache: seq<Info>, ghost rank: string -> nat,
                        ghost bound: nat)
      requires Ranked(Entries, rank) && CacheRanked(cache, rank)
      requires forall d | d in ds :: rank(d) < bound
      modifies this
      ensures DbRanked(LookupOf(cache), rank) &&
        Entries == AddRequiredByAll(old(Entries), LookupOf(cache), ds, requester, rank, bound)
      decreases bound, 0
    {
      ghost var db := LookupOf(cache);
      LookupOfRanked(cache, rank);
      var i := 0;
      while i < |ds|
        invariant 0 <= i <= |ds| && Ranked(Entries, rank) && forall d | d in ds[i..] :: rank(d) < bound
        invariant AddRequiredByAll(Entries, db, ds[i..], requester, rank, bound)
                  == AddRequiredByAll(old(Entries), db, ds, requester, rank, bound)
      {
        AddRequiredByAllStep(Entries, db, ds, i, requester, rank, bound);
        var _ := AddRequiredBy(ds[i], requester, cache, rank);
        i := i + 1;
      }
    }

    /** Remove(name): on a tracked name detach it from its required
        dependencies and delete it; the dependencies stay. */
    method Remove(name: string, cache: seq<Info>) returns (err: Option<Error>)
      modifies this
      ensures Entries == MapRemove(old(Entries), name)
      ensures err == RemoveError(old(Entries), name)
    {
      if name !in Entries {
        return Some(NothingToRemove);
      }
      var b := Entries[name];
      var ds := b.RequiredDependencies;
      if |ds| > 0 {
        var i := 0;
        while i < |ds|
          invariant 0 <= i <= |ds|
          invariant RemoveRequiredByAll(Entries, ds[i..], name) == RemoveRequiredByAll(old(Entries), ds, name)
        {
          assert ds[i..][1..] == ds[i + 1..];
          RemoveRequiredBy(ds[i], name, cache);
          i := i + 1;
        }
      }
      Entries := Entries - {name};
      return None;
    }

    /** Add(name, restart, args): classify the package, give it the
        arguments and the translated restart option, store it under its
        short name and annotate its required dependencies with the name
        the caller typed. */
    method Add(name: string, restart: string, args: seq<string>, cache: seq<Info>, ghost rank: string -> nat)
      returns (err: Option<Error>)
      requires Ranked(Entries, rank) && CacheRanked(cache, rank)
      modifies this
      ensures DbRanked(LookupOf(cache), rank) && NamesRanked(LookupOf(cache), rank) &&
        Entries == MapAdd(old(Entries), LookupOf(cache), name, restart, args, rank)
      ensures err == AddError(LookupOf(cache), name)
    {
      ghost var db := LookupOf(cache);
      LookupOfRanked(cache, rank);
      LookupOfNamesRanked(cache, rank);
      var info := Find(cache, name);
      if info.Err? {
        return Some(info.error);
      }
      assert name in db && db[name] == info.value;
      ghost var stored := BrewIngest.MapAddUnfold(Entries, db, name, restart, args, rank);
      var b := Build(info.value, restart, args);
      assert b == stored;
      Entries := Entries[info.value.Name := b];
      if |b.RequiredDependencies| > 0 {
        AnnotateEach(b.RequiredDependencies, name, cache, rank, rank(info.value.FullName));
      }
      return None;
    }
  }

  /** The entry Map.Add builds: classified from the record, the arguments
      appended one by one, the restart flag translated. */
  method Build(info: Info, restart: string, args: seq<string>) returns (b: Entry)
    ensures b == FromInfo(Zero, info).(Args := args, RestartService := RestartFlag(restart))
  {
    b := FromInfoMethod(Zero, info);
    FromInfoFields(Zero, info);
    if BrewHelpers.HasArgs(args) {
      var i := 0;
      while i < |args|
        invariant 0 <= i <= |args|
        invariant b == FromInfo(Zero, info).(Args := args[..i])
      {
        PrefixSnoc(args, i);
        b := b.(Args := b.Args + [args[i]]);
        i := i + 1;
      }
      assert args[..|args|] == args;
    }
    if BrewHelpers.HasRestartService(restart) {
      if restart == "changed" {
        b := b.(RestartService := ":changed");
      } else if restart == "always" {
        b := b.(RestartService := "true");
      }
    }
  }

  /** The records the list search returns are ranked like the list: short
      names rank no lower than full names. */
  lemma LookupOfNamesRanked(cache: seq<Info>, rank: string -> nat)
    requires CacheRanked(cache, rank)
    ensures NamesRanked(LookupOf(cache), rank)
  {
    var db := LookupOf(cache);
    forall k | k in db ensures rank(db[k].FullName) <= rank(db[k].Name) {
      var j :| 0 <= j < |cache| && cache[j] == Find(cache, k).value && Matches(cache[j], k)
               && forall i :: 0 <= i < j ==> !Matches(cache[i], k);
      assert FirstMatch(cache, j, k);
    }
  }

  // Short-name keying against full-name storing

  /** A core formula `foo` and a tap formula `u/t/foo` that shares its
      short name and depends on it. No dependency cycle: Find("foo")
      returns the core record, which depends on nothing. */
  function TwinCache(): seq<Info> {
    [Info("foo", "foo", "", [], [], [], [], []),
     Info("foo", "u/t/foo", "", [], ["foo"], [], [], [])]
  }

  /** The two lookups: "foo" finds the core record, "u/t/foo" the tap one. */
  lemma TwinLookups(cache: seq<Info>)
    requires cache == TwinCache()
    ensures Find(cache, "foo") == Ok(cache[0]) && Find(cache, "u/t/foo") == Ok(cache[1])
  {
    assert Matches(cache[0], "foo");
    assert !Matches(cache[0], "u/t/foo") && Matches(cache[1], "u/t/foo");
  }

  /** No ranking admits these records: storing the tap entry under its
      short name makes it its own required dependency. */
  lemma TwinUnranked(cache: seq<Info>, rank: string -> nat)
    requires cache == TwinCache()
    ensures !CacheRanked(cache, rank)
  {
    assert FirstMatch(cache, 1, "u/t/foo");
    assert "foo" in AllDeps(cache[1]);
  }

  /** A record whose short name differs from its full name and is one of
      its own required dependencies, stored under the short name as
      Map.Add (brew/map.go:161) and FromBrewfile (:49) do. Then
      AddRequiredBy(short, full) finds that entry, stores it under its full
      name (:98) and makes, for the dependency `short`, the identical call
      AddRequiredBy(short, full) (:102); from the state it left, that call
      finds the same target and leaves the same state. So the recursion
      never ends. */
  lemma ShortKeyLoops(m: Graph, db: map<string, Info>, i: Info)
    requires i.Name != i.FullName && i.Name in FromInfo(Zero, i).RequiredDependencies
    ensures var e := FromInfo(Zero, i);
      var stored := m[i.Name := e];
      var next := stored[e.Name := WithRequester(e, e.Name)];
      e.Name == i.FullName
      && Target(stored, db, i.Name) == Some(e)
      && Target(next, db, i.Name) == Some(e)
      && next[e.Name := WithRequester(e, e.Name)] == next
  {
    FromInfoFields(Zero, i);
  }

  /** The twin records meet ShortKeyLoops: Map.Add("u/t/foo") and a
      Brewfile line `brew 'u/t/foo'` both store the tap entry under "foo". */
  lemma TwinRepeats(cache: seq<Info>)
    requires cache == TwinCache()
    ensures var db := LookupOf(cache);
      "u/t/foo" in db && db["u/t/foo"].Name == "foo" && db["u/t/foo"].FullName == "u/t/foo"
      && db["u/t/foo"].Name in FromInfo(Zero, db["u/t/foo"]).RequiredDependencies
  {
    TwinLookups(cache);
    var db := LookupOf(cache);
    assert "u/t/foo" in db;
    assert db["u/t/foo"] == cache[1];
    TwinTapEntry(cache[1]);
  }

  /** The twin records as the cache-backed revision keys them: each under
      its full name (brew/cacheMap.go:50, :93). */
  function TwinDb(): (db: map<string, Info>)
    ensures Keyed(db)
  {
    var c := TwinCache();
    map[c[0].FullName := c[0], c[1].FullName := c[1]]
  }

  function TwinRank(s: string): nat {
    if s == "u/t/foo" then 1 else 0
  }

  lemma TwinKeyedFacts(db: map<string, Info>)
    requires db == TwinDb()
    ensures DbRanked(db, TwinRank) && "foo" in db && "u/t/foo" in db
    ensures FromInfo(Stub("u/t/foo"), db["u/t/foo"]).RequiredDependencies == ["foo"]
    ensures FromInfo(Zero, db["foo"]).RequiredDependencies == []
  {
    var c := TwinCache();
    assert db.Keys == {"foo", "u/t/foo"} && db["foo"] == c[0] && db["u/t/foo"] == c[1];
    assert AllDeps(c[1]) == ["foo"] && AllDeps(c[0]) == [];
    TwinTapEntry(c[1]);
    assert Zero.(Name := "foo").RequiredDependencies + c[0].Dependencies == [];
  }

  /** Keyed by full name, the same records give a ranked table, and adding
      the tap formula at PackageAndRequired ends with both formulas
      tracked, each under its own name. */
  lemma TwinKeyedEnds(db: map<string, Info>)
    requires db == TwinDb()
    ensures DbRanked(db, TwinRank) && EntryRanked(db, Stub("u/t/foo"), TwinRank)
    ensures Add(map[], db, Stub("u/t/foo"), PackageAndRequired, TwinRank).Keys == {"u/t/foo", "foo"}
  {
    TwinKeyedFacts(db);
    var m: Graph := map[];
    BrewClosure.AddRequiredLeaves(m, db, Stub("u/t/foo"), TwinRank);
    BrewClosure.OneKnown(FromInfo(Stub("u/t/foo"), db["u/t/foo"]).RequiredDependencies, m, db, "foo");
  }

  /** The tap record classified: named by its full name, requiring foo. */
  lemma TwinTapEntry(i: Info)
    requires i == TwinCache()[1]
    ensures FromInfo(Zero, i).Name == "u/t/foo" && FromInfo(Zero, i).RequiredDependencies == ["foo"]
  {
    assert Zero.(Name := "u/t/foo").RequiredDependencies + i.Dependencies == ["foo"];
    FromInfoFields(Zero, i);
  }

  lemma PrefixSnoc(s: seq<string>, i: nat)
    requires i < |s|
    ensures s[..i + 1] == s[..i] + [s[i]]
  {
  }
}
