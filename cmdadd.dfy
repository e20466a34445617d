/** The add command's line builders and its two package branches: a new
    tap, cask or mas line appended to its section, and a new brew added to
    the dependency map and the whole brew section rendered again. */
module CmdAdd {
  import opened Base
  import opened GoStrings
  import opened BrewInfo
  import opened BrewEntry
  import opened BrewGraph
  import opened CmdHelpers
  import BrewMap
  import BrewIngest

  /** appendMasId: the mas app's store id after the base entry. */
  function AppendMasId(entry: string, id: string): string {
    entry + ", id: " + id
  }

  /** hasMasId: an id was given. */
  predicate HasMasId(id: string) {
    |id| > 0
  }

  lemma MasIdExamples()
    ensures HasMasId("with") && !HasMasId("")
    ensures AppendMasId("mas 'bfm'", "1235644") == "mas 'bfm', id: 1235644"
  {
  }

  /** addPackage: the base entry of the new package, with the id for a mas
      app, appended after the existing lines. */
  function AddPackage(t: string, n: string, id: string, packages: seq<string>): seq<string> {
    packages + [if t == "mas" then AppendMasId(BaseEntry(t, n), id) else BaseEntry(t, n)]
  }

  /** The existing lines are kept in place and the one new line names the
      package. */
  lemma AddPackageAppends(t: string, n: string, id: string, packages: seq<string>)
    ensures var r := AddPackage(t, n, id, packages);
      |r| == |packages| + 1 && r[..|packages|] == packages
      && HasPrefix(r[|packages|], BaseEntry(t, n))
      && (t != "mas" ==> r[|packages|] == BaseEntry(t, n))
  {
    var r := AddPackage(t, n, id, packages);
    assert r[..|packages|] == packages;
    var b := BaseEntry(t, n);
    assert (if t == "mas" then AppendMasId(b, id) else b)[..|b|] == b;
  }

  lemma AddPackageExample()
    ensures AddPackage("brew", "bfm", "", ["brew 'vim'"]) == ["brew 'vim'", "brew 'bfm'"]
  {
    assert BaseEntry("brew", "bfm") == "brew 'bfm'";
  }

  /** The quoted arguments the loop of appendArgs collects, joined, are the
      argument list Format writes. */
  lemma {:induction false} JoinQuoted(quoted: seq<string>, args: seq<string>)
    requires |quoted| == |args| > 0
    requires forall j | 0 <= j < |args| :: quoted[j] == "'" + args[j] + "'"
    ensures Join(quoted, ", ") == "'" + Join(args, "', '") + "'"
    decreases |args|
  {
    if |args| > 1 {
      JoinQuoted(quoted[1..], args[1..]);
      assert quoted[0] + ", " + Join(quoted[1..], ", ")
        == "'" + args[0] + "', '" + Join(args[1..], "', '") + "'";
    }
  }

  lemma ArgsList(entry: string, list: string)
    ensures entry + ", " + "args: [" + ("'" + list + "'") + "]" == entry + (", args: ['" + list + "']")
  {
  }

  /** appendArgs: the arguments, each quoted, in an `args:` list. With at
      least one argument this is exactly the clause Format writes for them. */
  method AppendArgs(entry: string, args: seq<string>) returns (r: string)
    ensures |args| > 0 ==> r == entry + ArgsClause(args)
    ensures |args| == 0 ==> r == entry + ", args: []"
  {
    var quoted: seq<string> := [];
    var i := 0;
    while i < |args|
      invariant 0 <= i <= |args|
      invariant |quoted| == i
      invariant forall j | 0 <= j < i :: quoted[j] == "'" + args[j] + "'"
    {
      quoted := quoted + ["'" + args[i] + "'"];
      i := i + 1;
    }
    r := entry + ", " + "args: [" + Join(quoted, ", ") + "]";
    if |args| > 0 {
      JoinQuoted(quoted, args);
      ArgsList(entry, Join(args, "', '"));
    }
  }

  /** appendRestartService: "changed" and "always" become the clause Format
      writes for the option Map.Add stores; anything else ends the command. */
  function AppendRestartService(entry: string, restart: string): (r: Result<string>)
    ensures r.Ok? <==> restart == "changed" || restart == "always"
    ensures r.Ok? ==> r.value == entry + RestartClause(RestartFlag(restart))
    ensures r.Err? ==> r.error == InvalidRestartService
  {
    if restart == "changed" then Ok(entry + ", restart_service: :changed")
    else if restart == "always" then Ok(entry + ", restart_service: true")
    else Err(InvalidRestartService)
  }

  // hasCorrectTapFormat: the regular expression `.+/.+`

  /** No character of `s` is a newline, the one character `.` does not match. */
  predicate NoNewline(s: string) {
    forall c | c in s :: c != '\n'
  }

  /** `s[i..j]` matches `.+/.+` with the slash at `k`. */
  predicate MatchAt(s: string, i: int, k: int, j: int) {
    0 <= i < k && k + 1 < j <= |s| && s[k] == '/' && NoNewline(s[i..k]) && NoNewline(s[k + 1..j])
  }

  /** A slash with a character other than a newline on each side. */
  predicate SlashAt(s: string, k: int) {
    1 <= k && k + 1 < |s| && s[k] == '/' && s[k - 1] != '\n' && s[k + 1] != '\n'
  }

  /** The scan for a qualifying slash at `k` or later. */
  function SlashFrom(s: string, k: nat): bool
    decreases |s| - k
  {
    if k + 1 >= |s| then false else SlashAt(s, k) || SlashFrom(s, k + 1)
  }

  lemma {:induction false} SlashFromIff(s: string, k: nat)
    ensures SlashFrom(s, k) <==> exists m :: k <= m && SlashAt(s, m)
    decreases |s| - k
  {
    if k + 1 < |s| {
      SlashFromIff(s, k + 1);
      if SlashAt(s, k) {
        assert k <= k && SlashAt(s, k);
      }
      forall m | k <= m && SlashAt(s, m) ensures SlashAt(s, k) || (k + 1 <= m && SlashAt(s, m)) {
      }
    }
  }

  /** hasCorrectTapFormat: the name contains a match of `.+/.+`. */
  function HasCorrectTapFormat(s: string): (ok: bool)
    ensures ok <==> exists i, k, j :: MatchAt(s, i, k, j)
  {
    SlashFromIff(s, 1);
    if SlashFrom(s, 1) then
      var k :| 1 <= k && SlashAt(s, k);
      assert MatchAt(s, k - 1, k, k + 2) by {
        assert s[k - 1..k] == [s[k - 1]];
        assert s[k + 1..k + 2] == [s[k + 1]];
      }
      true
    else
      assert forall i, k, j | MatchAt(s, i, k, j) :: SlashAt(s, k) by {
        forall i, k, j | MatchAt(s, i, k, j) ensures SlashAt(s, k) {
          assert s[k - 1] in s[i..k];
          assert s[k + 1] in s[k + 1..j];
        }
      }
      false
  }

  lemma TapFormatExamples()
    ensures HasCorrectTapFormat("homebrew/correct")
    ensures !HasCorrectTapFormat("incorrect")
    ensures HasCorrectTapFormat("homebrew/dupes")
    ensures !HasCorrectTapFormat("tap")
  {
    assert SlashAt("homebrew/correct", 8);
    assert SlashFrom("homebrew/correct", 1);
    assert SlashAt("homebrew/dupes", 8);
    assert SlashFrom("homebrew/dupes", 1);
    assert !SlashFrom("incorrect", 1);
    assert !SlashFrom("tap", 1);
  }

  // The tap branch of the add command

  /** The tap branch as written: the format test is given the package
      type, "tap", rather than the name being added. */
  function AddTapAsWritten(name: string, tapLines: seq<string>): Result<seq<string>> {
    if !HasCorrectTapFormat("tap") then Err(InvalidTapFormat)
    else Ok(SortStrings(AddPackage("tap", name, "", tapLines)))
  }

  /** As written, every tap is rejected, including the help text's own
      example `homebrew/dupes`. */
  lemma TapAlwaysRejected(name: string, tapLines: seq<string>)
    ensures AddTapAsWritten(name, tapLines) == Err(InvalidTapFormat)
    ensures AddTapAsWritten("homebrew/dupes", []) == Err(InvalidTapFormat)
  {
    TapFormatExamples();
  }

  /** The tap branch as intended: the name is tested, and a well-formed tap
      joins the sorted tap section. */
  function AddTap(name: string, tapLines: seq<string>): (r: Result<seq<string>>)
    ensures r.Ok? <==> HasCorrectTapFormat(name)
    ensures r.Err? ==> r.error == InvalidTapFormat
    ensures r.Ok? ==> (Sorted(r.value)
      && multiset(r.value) == multiset(tapLines) + multiset{BaseEntry("tap", name)})
  {
    if !HasCorrectTapFormat(name) then Err(InvalidTapFormat)
    else Ok(SortStrings(AddPackage("tap", name, "", tapLines)))
  }

  /** The help text's example is accepted once the name is tested. */
  lemma AddTapExample()
    ensures AddTap("homebrew/dupes", []) == Ok(["tap 'homebrew/dupes'"])
  {
    TapFormatExamples();
    assert BaseEntry("tap", "homebrew/dupes") == "tap 'homebrew/dupes'";
    assert AddPackage("tap", "homebrew/dupes", "", []) == [] + ["tap 'homebrew/dupes'"];
    SortSorted(["tap 'homebrew/dupes'"]);
  }

  // The brew branch: addBrewPackage

  /** addBrewPackage: Map.Add, then the map rendered as sorted lines. A
      package without metadata ends the command with the lookup error. */
  method AddBrewPackage(add: string, restart: string, args: seq<string>, m: BrewMap.Map,
                        cache: seq<Info>, ghost rank: string -> nat)
    returns (r: Result<seq<string>>)
    requires Ranked(m.Entries, rank) && CacheRanked(cache, rank)
    modifies m
    ensures DbRanked(LookupOf(cache), rank) && NamesRanked(LookupOf(cache), rank) &&
      m.Entries == MapAdd(old(m.Entries), LookupOf(cache), add, restart, args, rank)
    ensures r == if add in LookupOf(cache) then Ok(Rendered(m.Entries)) else Err(InfoNotFound(add))
  {
    var err := m.Add(add, restart, args, cache, rank);
    if err.Some? {
      return Err(err.value);
    }
    var lines := FormatLines(m.Entries);
    r := Ok(lines);
  }

  /** With metadata, the rendered brew section holds the new package's
      line, which starts with its full name. */
  lemma AddedLineRendered(m: Graph, db: map<string, Info>, add: string, restart: string,
                          args: seq<string>, rank: string -> nat)
    requires Ranked(m, rank) && DbRanked(db, rank) && NamesRanked(db, rank)
    requires add in db
    ensures var r := MapAdd(m, db, add, restart, args, rank);
      db[add].Name in r && Format(r[db[add].Name]) in Rendered(r)
      && HasPrefix(Format(r[db[add].Name]), BaseEntry("brew", db[add].FullName))
  {
    var r := MapAdd(m, db, add, restart, args, rank);
    BrewIngest.MapAddStores(m, db, add, restart, args, rank);
    RenderedLines(r);
    FormatStartsWithBase(r[db[add].Name]);
  }
}
