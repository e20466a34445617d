/** Package metadata as `brew info` reports it, reduced to the names and the
    four dependency lists, and the two ways the program looks it up: the
    linear search of `InfoCache.Find` and the keyed lookup of the cache
    database, whose records are stored under their full name. */
module BrewInfo {
  import opened Base

  datatype Info = Info(
    Name: string,
    FullName: string,
    Oldname: string,
    Aliases: seq<string>,
    Dependencies: seq<string>,
    RecommendedDependencies: seq<string>,
    OptionalDependencies: seq<string>,
    BuildDependencies: seq<string>)

  /** Every name an Info depends on, whatever the class. */
  function AllDeps(i: Info): seq<string> {
    i.Dependencies + i.RecommendedDependencies + i.OptionalDependencies + i.BuildDependencies
  }

  /** The test `Find` applies to each record: name, full name or old name. */
  predicate Matches(i: Info, pkg: string) {
    pkg == i.Name || pkg == i.FullName || pkg == i.Oldname
  }

  /** InfoCache.Find: the first record, in list order, that matches. */
  function Find(cache: seq<Info>, pkg: string): (r: Result<Info>)
    ensures r.Ok? <==> exists k :: 0 <= k < |cache| && Matches(cache[k], pkg)
    ensures r.Ok? ==> exists k :: 0 <= k < |cache| && cache[k] == r.value && Matches(cache[k], pkg)
                        && forall j :: 0 <= j < k ==> !Matches(cache[j], pkg)
    ensures r.Err? ==> r.error == InfoNotFound(pkg)
  {
    if |cache| == 0 then Err(InfoNotFound(pkg))
    else if Matches(cache[0], pkg) then Ok(cache[0])
    else
      var r := Find(cache[1..], pkg);
      if r.Ok? then
        assert forall k :: 0 <= k < |cache| - 1 ==> cache[1..][k] == cache[k + 1];
        var k :| 0 <= k < |cache| - 1 && cache[1..][k] == r.value && Matches(cache[1..][k], pkg)
                 && forall j :: 0 <= j < k ==> !Matches(cache[1..][j], pkg);
        assert forall j :: 0 <= j < k + 1 ==> !Matches(cache[j], pkg) by {
          forall j | 0 <= j < k + 1 ensures !Matches(cache[j], pkg) {
            if j > 0 { assert cache[j] == cache[1..][j - 1]; }
          }
        }
        r
      else
        assert forall k :: 1 <= k < |cache| ==> cache[k] == cache[1..][k - 1];
        r
  }

  /** A record is found by its full name even when its short name and old
      name differ, as long as no earlier record claims that name. */
  lemma {:induction false} FindByFullName(cache: seq<Info>, k: nat)
    requires k < |cache|
    requires forall j :: 0 <= j < k ==> !Matches(cache[j], cache[k].FullName)
    ensures Find(cache, cache[k].FullName) == Ok(cache[k])
  {
    if k > 0 {
      assert forall j :: 0 <= j < k - 1 ==> cache[1..][j] == cache[j + 1];
      FindByFullName(cache[1..], k - 1);
    }
  }

  /** Aliases are never consulted: changing them changes no lookup. */
  lemma {:induction false} FindIgnoresAliases(cache: seq<Info>, other: seq<Info>, pkg: string)
    requires |other| == |cache|
    requires forall k :: 0 <= k < |cache| ==> other[k] == cache[k].(Aliases := other[k].Aliases)
    ensures Find(other, pkg).Ok? <==> Find(cache, pkg).Ok?
    ensures Find(other, pkg).Ok? ==>
      Find(other, pkg).value == Find(cache, pkg).value.(Aliases := Find(other, pkg).value.Aliases)
  {
    if |cache| > 0 {
      FindIgnoresAliases(cache[1..], other[1..], pkg);
    }
  }

  /** Looking up the empty string finds the first record with an empty
      name, full name or old name (most records have no old name). */
  lemma FindEmpty(cache: seq<Info>, k: nat)
    requires k < |cache| && cache[k].Oldname == ""
    requires forall j :: 0 <= j < k ==> !Matches(cache[j], "")
    ensures Find(cache, "") == Ok(cache[k])
  {
    var r := Find(cache, "");
    var k' :| 0 <= k' < |cache| && cache[k'] == r.value && Matches(cache[k'], "")
              && forall j :: 0 <= j < k' ==> !Matches(cache[j], "");
    if k' < k {
    } else if k < k' {
    }
  }

  /** Cache.Find of the database-backed cache: the record stored under
      exactly that key. */
  function FindKey(db: map<string, Info>, pkg: string): (r: Result<Info>)
    ensures r.Ok? <==> pkg in db
    ensures r.Ok? ==> r.value == db[pkg]
    ensures r.Err? ==> r.error == InfoNotFound(pkg)
  {
    if pkg in db then Ok(db[pkg]) else Err(InfoNotFound(pkg))
  }

  /** The database the refresh command builds stores each record under its
      own full name. */
  predicate Keyed(db: map<string, Info>) {
    forall k | k in db :: db[k].FullName == k
  }

  /** Every name some record of the list answers to. */
  function Names(cache: seq<Info>): set<string> {
    (set i | i in cache :: i.Name) + (set i | i in cache :: i.FullName)
      + (set i | i in cache :: i.Oldname)
  }

  /** The linear search seen as a table: for every name that some record
      answers to, the record Find returns. */
  function LookupOf(cache: seq<Info>): (db: map<string, Info>)
    ensures forall s :: s in db <==> Find(cache, s).Ok?
    ensures forall s | s in db :: db[s] == Find(cache, s).value
  {
    assert forall s :: Find(cache, s).Ok? ==> s in Names(cache) by {
      forall s | Find(cache, s).Ok? ensures s in Names(cache) {
        var k :| 0 <= k < |cache| && Matches(cache[k], s);
        assert cache[k] in cache;
      }
    }
    map s | s in Names(cache) && Find(cache, s).Ok? :: Find(cache, s).value
  }

  /** Acyclic metadata for a table: the full name of a record ranks no
      higher than the key it is found under, and each dependency ranks
      strictly below that full name. `addRequiredBy` follows required
      dependencies with no visited set, so this is what makes it stop. */
  ghost predicate DbRanked(db: map<string, Info>, rank: string -> nat) {
    forall k | k in db ::
      rank(db[k].FullName) <= rank(k) &&
      forall d | d in AllDeps(db[k]) :: rank(d) < rank(db[k].FullName)
  }

  /** Record `j` is the one Find returns for `pkg`: it matches, and no
      earlier record does. */
  predicate FirstMatch(cache: seq<Info>, j: int, pkg: string) {
    0 <= j < |cache| && Matches(cache[j], pkg) && forall i | 0 <= i < j :: !Matches(cache[i], pkg)
  }

  /** The same for the list, bounding a record only under the names Find
      returns it for: its full name ranks no higher than such a name or its
      short name (under which Map.Add stores it), and its dependencies rank
      strictly below its full name. */
  ghost predicate CacheRanked(cache: seq<Info>, rank: string -> nat) {
    forall j, pkg | FirstMatch(cache, j, pkg) ::
      rank(cache[j].FullName) <= rank(pkg) && rank(cache[j].FullName) <= rank(cache[j].Name) &&
      forall d | d in AllDeps(cache[j]) :: rank(d) < rank(cache[j].FullName)
  }

  /** A ranked list gives a ranked table. */
  lemma LookupOfRanked(cache: seq<Info>, rank: string -> nat)
    requires CacheRanked(cache, rank)
    ensures DbRanked(LookupOf(cache), rank)
  {
    var db := LookupOf(cache);
    forall k | k in db
      ensures rank(db[k].FullName) <= rank(k)
      ensures forall d | d in AllDeps(db[k]) :: rank(d) < rank(db[k].FullName)
    {
      var j :| 0 <= j < |cache| && cache[j] == db[k] && Matches(cache[j], k)
               && forall i :: 0 <= i < j ==> !Matches(cache[i], k);
      assert FirstMatch(cache, j, k);
    }
  }
}
