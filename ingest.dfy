/** What reading a Brewfile into the graph promises (FromPackages in the
    cache-backed revision, FromBrewfile in the Map revision), and what the
    Map revision's Add stores. */
module BrewIngest {
  import opened Base
  import opened BrewInfo
  import opened BrewEntry
  import opened BrewfileLine
  import opened BrewGraph
  import opened BrewClosure

  /** The package a line names has metadata. */
  predicate Known(db: map<string, Info>, line: string) {
    HasQuoted(line) && Parse(line).Name in db
  }

  /** The key and the entry a line with metadata is stored as. */
  function KeyOfLine(db: map<string, Info>, line: string, key: KeyBy): string
    requires Known(db, line)
  {
    KeyOf(db[Parse(line).Name], key)
  }

  function EntryOfLine(db: map<string, Info>, line: string): Entry
    requires Known(db, line)
  {
    EntryOf(Parse(line), db[Parse(line).Name])
  }

  /** One step of Ingest on a line with metadata. */
  lemma IngestStep(m: Graph, db: map<string, Info>, lines: seq<string>, key: KeyBy)
    requires forall j | 0 <= j < |lines| :: HasQuoted(lines[j])
    requires |lines| > 0 && Known(db, lines[0])
    ensures Ingest(m, db, lines, key)
      == Ingest(m[KeyOfLine(db, lines[0], key) := EntryOfLine(db, lines[0])], db, lines[1..], key)
  {
  }

  /** Every one of the first `n` lines names a package with metadata. */
  predicate KnownBefore(db: map<string, Info>, lines: seq<string>, n: int) {
    forall i | 0 <= i < n && i < |lines| :: Known(db, lines[i])
  }

  /** Line `j` is the first without metadata. */
  predicate FirstUnknown(db: map<string, Info>, lines: seq<string>, j: int) {
    0 <= j < |lines| && !Known(db, lines[j]) && KnownBefore(db, lines, j)
  }

  lemma KnownBeforeShift(db: map<string, Info>, lines: seq<string>, n: int)
    requires |lines| > 0 && Known(db, lines[0])
    ensures KnownBefore(db, lines, n + 1) <==> KnownBefore(db, lines[1..], n)
  {
    forall i | 0 <= i < |lines| - 1 ensures lines[1..][i] == lines[i + 1] {
    }
    if KnownBefore(db, lines[1..], n) {
      forall i | 0 <= i < n + 1 && i < |lines| ensures Known(db, lines[i]) {
        if i > 0 { assert lines[i] == lines[1..][i - 1]; }
      }
    }
  }

  lemma FirstUnknownShift(db: map<string, Info>, lines: seq<string>, j: int)
    requires |lines| > 0 && Known(db, lines[0]) && FirstUnknown(db, lines[1..], j)
    ensures FirstUnknown(db, lines, j + 1) && lines[j + 1] == lines[1..][j]
  {
    KnownBeforeShift(db, lines, j);
  }

  /** Ingest fails exactly when some line names a package without metadata,
      and then with the first such name. */
  lemma {:induction false} IngestError(m: Graph, db: map<string, Info>, lines: seq<string>, key: KeyBy)
    requires forall j | 0 <= j < |lines| :: HasQuoted(lines[j])
    ensures var r := Ingest(m, db, lines, key);
      (r.error.None? <==> KnownBefore(db, lines, |lines|))
      && (r.error.Some? ==>
            exists j :: FirstUnknown(db, lines, j) && r.error == Some(InfoNotFound(Parse(lines[j]).Name)))
    decreases |lines|
  {
    if |lines| > 0 {
      if Known(db, lines[0]) {
        var i := db[Parse(lines[0]).Name];
        var m1 := m[KeyOf(i, key) := EntryOf(Parse(lines[0]), i)];
        var r := Ingest(m1, db, lines[1..], key);
        assert Ingest(m, db, lines, key) == r;
        IngestError(m1, db, lines[1..], key);
        KnownBeforeShift(db, lines, |lines| - 1);
        if r.error.Some? {
          var j :| FirstUnknown(db, lines[1..], j) && r.error == Some(InfoNotFound(Parse(lines[1..][j]).Name));
          FirstUnknownShift(db, lines, j);
        }
      } else {
        assert FirstUnknown(db, lines, 0);
      }
    }
  }

  /** Some line with metadata stores `e` under `k`. */
  predicate StoredBy(db: map<string, Info>, lines: seq<string>, key: KeyBy, k: string, e: Entry) {
    exists j | 0 <= j < |lines| ::
      Known(db, lines[j]) && KeyOfLine(db, lines[j], key) == k && e == EntryOfLine(db, lines[j])
  }

  lemma StoredByShift(db: map<string, Info>, lines: seq<string>, key: KeyBy, k: string, e: Entry)
    requires |lines| > 0 && StoredBy(db, lines[1..], key, k, e)
    ensures StoredBy(db, lines, key, k, e)
  {
    var j :| 0 <= j < |lines[1..]| && Known(db, lines[1..][j]) && KeyOfLine(db, lines[1..][j], key) == k
             && e == EntryOfLine(db, lines[1..][j]);
    assert lines[1..][j] == lines[j + 1];
  }

  lemma StoredByFirst(db: map<string, Info>, lines: seq<string>, key: KeyBy)
    requires |lines| > 0 && Known(db, lines[0])
    ensures StoredBy(db, lines, key, KeyOfLine(db, lines[0], key), EntryOfLine(db, lines[0]))
  {
    var j := 0;
    assert Known(db, lines[j]) && KeyOfLine(db, lines[j], key) == KeyOfLine(db, lines[0], key);
  }

  /** Nothing is deleted by Ingest. */
  lemma {:induction false} IngestKeeps(m: Graph, db: map<string, Info>, lines: seq<string>, key: KeyBy)
    requires forall j | 0 <= j < |lines| :: HasQuoted(lines[j])
    ensures m.Keys <= Ingest(m, db, lines, key).graph.Keys
    decreases |lines|
  {
    if |lines| > 0 && Known(db, lines[0]) {
      var m1 := m[KeyOfLine(db, lines[0], key) := EntryOfLine(db, lines[0])];
      IngestStep(m, db, lines, key);
      IngestKeeps(m1, db, lines[1..], key);
    }
  }

  /** Every entry after Ingest is either untouched or what some line with
      metadata stored under its key. */
  lemma {:induction false} IngestStores(m: Graph, db: map<string, Info>, lines: seq<string>, key: KeyBy)
    requires forall j | 0 <= j < |lines| :: HasQuoted(lines[j])
    ensures var r := Ingest(m, db, lines, key).graph;
      forall k | k in r :: (k in m && r[k] == m[k]) || StoredBy(db, lines, key, k, r[k])
    decreases |lines|
  {
    if |lines| > 0 && Known(db, lines[0]) {
      var k0 := KeyOfLine(db, lines[0], key);
      var m1 := m[k0 := EntryOfLine(db, lines[0])];
      var r := Ingest(m1, db, lines[1..], key).graph;
      IngestStep(m, db, lines, key);
      IngestStores(m1, db, lines[1..], key);
      forall k | k in r ensures (k in m && r[k] == m[k]) || StoredBy(db, lines, key, k, r[k]) {
        if k in m1 && r[k] == m1[k] {
          if k == k0 {
            StoredByFirst(db, lines, key);
          }
        } else {
          StoredByShift(db, lines, key, k, r[k]);
        }
      }
    }
  }

  /** Every line of the prefix before the first failure is tracked. */
  lemma {:induction false} IngestTracks(m: Graph, db: map<string, Info>, lines: seq<string>, key: KeyBy)
    requires forall j | 0 <= j < |lines| :: HasQuoted(lines[j])
    ensures var r := Ingest(m, db, lines, key).graph;
      forall j | 0 <= j < |lines| && KnownBefore(db, lines, j + 1) :: KeyOfLine(db, lines[j], key) in r
    decreases |lines|
  {
    if |lines| > 0 && Known(db, lines[0]) {
      var k0 := KeyOfLine(db, lines[0], key);
      var m1 := m[k0 := EntryOfLine(db, lines[0])];
      var r := Ingest(m1, db, lines[1..], key).graph;
      IngestStep(m, db, lines, key);
      IngestTracks(m1, db, lines[1..], key);
      IngestKeeps(m1, db, lines[1..], key);
      forall j | 0 <= j < |lines| && KnownBefore(db, lines, j + 1)
        ensures KeyOfLine(db, lines[j], key) in r
      {
        if j > 0 {
          KnownBeforeShift(db, lines, j);
          assert KnownBefore(db, lines[1..], j);
          assert lines[1..][j - 1] == lines[j];
          assert KeyOfLine(db, lines[1..][j - 1], key) in r;
        } else {
          assert k0 in m1;
        }
      }
    }
  }

  /** A line's entry has no back-references and its arguments and restart
      option are the line's; under ByFullName it is stored under its own
      name. */
  lemma EntryOfLineFields(db: map<string, Info>, line: string, key: KeyBy)
    requires Known(db, line)
    ensures var e := EntryOfLine(db, line);
      e.Name == db[Parse(line).Name].FullName
      && e.Args == Parse(line).Args && e.RestartService == Parse(line).RestartService
      && e.RequiredBy == [] && e.RecommendedFor == [] && e.OptionalFor == [] && e.BuildOf == []
      && (key == ByFullName ==> KeyOfLine(db, line, key) == e.Name)
      && (key == ByName ==> KeyOfLine(db, line, key) == db[Parse(line).Name].Name)
  {
  }

  /** Keying by full name keeps every entry under its own name. */
  lemma {:induction false} IngestKeysNamed(m: Graph, db: map<string, Info>, lines: seq<string>)
    requires forall j | 0 <= j < |lines| :: HasQuoted(lines[j])
    requires KeysNamed(m)
    ensures KeysNamed(Ingest(m, db, lines, ByFullName).graph)
    decreases |lines|
  {
    if |lines| > 0 && Known(db, lines[0]) {
      var i := db[Parse(lines[0]).Name];
      IngestKeysNamed(m[KeyOf(i, ByFullName) := EntryOf(Parse(lines[0]), i)], db, lines[1..]);
    }
  }

  /** The ingested graph respects the rank the metadata respects, so that
      resolving it terminates. */
  lemma {:induction false} IngestRanked(m: Graph, db: map<string, Info>, lines: seq<string>, key: KeyBy,
                                        rank: string -> nat)
    requires forall j | 0 <= j < |lines| :: HasQuoted(lines[j])
    requires Ranked(m, rank) && DbRanked(db, rank) && (key == ByName ==> NamesRanked(db, rank))
    ensures Ranked(Ingest(m, db, lines, key).graph, rank)
    decreases |lines|
  {
    if |lines| > 0 && Known(db, lines[0]) {
      var i := db[Parse(lines[0]).Name];
      var e := EntryOf(Parse(lines[0]), i);
      RankedStoreAt(m, KeyOf(i, key), e, rank) by {
        FromInfoDeps(Zero, i);
        assert Deps(e) == Deps(FromInfo(Zero, i));
      }
      IngestRanked(m[KeyOf(i, key) := e], db, lines[1..], key, rank);
    }
  }

  // The Map revision's Add

  /** Map.Add on a name without metadata fails and changes nothing. */
  lemma MapAddUnknown(m: Graph, db: map<string, Info>, name: string, restart: string, args: seq<string>,
                      rank: string -> nat)
    requires Ranked(m, rank) && DbRanked(db, rank) && NamesRanked(db, rank)
    requires name !in db
    ensures MapAdd(m, db, name, restart, args, rank) == m
    ensures AddError(db, name) == Some(InfoNotFound(name))
  {
  }

  /** An entry whose name ranks no higher than its key and whose
      dependencies rank below its name keeps a graph ranked. */
  lemma RankedStoreAt(m: Graph, k: string, e: Entry, rank: string -> nat)
    requires Ranked(m, rank) && rank(e.Name) <= rank(k)
    requires forall d | d in Deps(e) :: rank(d) < rank(e.Name)
    ensures Ranked(m[k := e], rank)
  {
  }

  /** The entry Map.Add stores and the annotation walk that follows. */
  lemma MapAddUnfold(m: Graph, db: map<string, Info>, name: string, restart: string, args: seq<string>,
                     rank: string -> nat) returns (b: Entry)
    requires Ranked(m, rank) && DbRanked(db, rank) && NamesRanked(db, rank) && name in db
    ensures b == FromInfo(Zero, db[name]).(Args := args, RestartService := RestartFlag(restart))
    ensures b.Name == db[name].FullName && b.Args == args && b.RequiredBy == []
    ensures Ranked(m[db[name].Name := b], rank)
      && (forall d | d in b.RequiredDependencies :: rank(d) < rank(db[name].FullName))
      && MapAdd(m, db, name, restart, args, rank)
         == AddRequiredByAll(m[db[name].Name := b], db, b.RequiredDependencies, name, rank, rank(db[name].FullName))
  {
    var i := db[name];
    b := FromInfo(Zero, i).(Args := args, RestartService := RestartFlag(restart));
    FromInfoFields(Zero, i);
    FromInfoDeps(Zero, i);
    assert Deps(b) == Deps(FromInfo(Zero, i));
    RankedStoreAt(m, i.Name, b, rank);
  }

  /** With metadata, Map.Add stores the classified entry under the short
      name with the caller's arguments and the translated restart option,
      no back-references, and keeps every key. */
  lemma MapAddStores(m: Graph, db: map<string, Info>, name: string, restart: string, args: seq<string>,
                     rank: string -> nat)
    requires Ranked(m, rank) && DbRanked(db, rank) && NamesRanked(db, rank)
    requires name in db
    ensures var i := db[name];
      var r := MapAdd(m, db, name, restart, args, rank);
      m.Keys <= r.Keys && i.Name in r
      && r[i.Name] == FromInfo(Zero, i).(Args := args, RestartService := RestartFlag(restart))
      && r[i.Name].Name == i.FullName && r[i.Name].Args == args && r[i.Name].RequiredBy == []
    ensures AddError(db, name) == None
  {
    var i := db[name];
    var b := MapAddUnfold(m, db, name, restart, args, rank);
    AddRequiredByAllFrame(m[i.Name := b], db, b.RequiredDependencies, name, rank, rank(i.FullName));
  }

  /** A dependency that is in none of the three specific classes is
      classified as required. */
  lemma RequiredOf(i: Info, d: string)
    requires d in i.Dependencies && d !in i.RecommendedDependencies
    requires d !in i.OptionalDependencies && d !in i.BuildDependencies
    ensures d in FromInfo(Zero, i).RequiredDependencies
  {
    var all := multiset(i.Dependencies);
    RequiredDependencies(Zero.(Name := i.FullName), i);
    assert [] + i.Dependencies == i.Dependencies;
    assert multiset(i.OptionalDependencies)[d] == 0 && multiset(i.BuildDependencies)[d] == 0;
    assert multiset(i.RecommendedDependencies)[d] == 0;
    var left := all - multiset(i.OptionalDependencies) - multiset(i.BuildDependencies)
                - multiset(i.RecommendedDependencies);
    assert left[d] == all[d];
    assert multiset(FromInfo(Zero, i).RequiredDependencies) == left;
  }

  /** On a lookup keyed by full names, and for a package whose short name
      is its full name, Map.Add lists the name the caller typed in the
      back-references of each required dependency with metadata. */
  lemma MapAddAnnotates(m: Graph, db: map<string, Info>, name: string, restart: string, args: seq<string>,
                        rank: string -> nat)
    requires Ranked(m, rank) && DbRanked(db, rank) && NamesRanked(db, rank)
    requires KeysNamed(m) && Keyed(db) && name in db && db[name].Name == db[name].FullName
    ensures var r := MapAdd(m, db, name, restart, args, rank);
      KeysNamed(r)
      && forall d | d in db[name].Dependencies && d in db && d !in db[name].RecommendedDependencies
                    && d !in db[name].OptionalDependencies && d !in db[name].BuildDependencies ::
           d in r && name in r[d].RequiredBy
  {
    var i := db[name];
    var b := MapAddUnfold(m, db, name, restart, args, rank);
    forall d | d in i.Dependencies && d !in i.RecommendedDependencies
               && d !in i.OptionalDependencies && d !in i.BuildDependencies
      ensures d in b.RequiredDependencies
    {
      RequiredOf(i, d);
    }
    AddRequiredByAllCloses(m[i.Name := b], db, b.RequiredDependencies, name, rank, rank(i.FullName));
  }
}
