/** The clean command: read the Brewfile into its sections, rebuild the
    brew section from the dependency map (every brew classified against its
    metadata and annotated with the packages that require it) and render
    the file again with the other sections untouched. */
module CmdClean {
  import opened GoStrings
  import opened BrewInfo
  import opened BrewEntry
  import opened BrewfileLine
  import opened BrewGraph
  import opened CmdHelpers
  import BrewCacheMap
  import BrewfilePackages
  import BrewIngest

  /** cleanBrews: every entry of the map rendered, sorted. */
  method CleanBrews(c: BrewCacheMap.CacheMap) returns (clean: seq<string>)
    ensures clean == Rendered(c.Map)
  {
    clean := FormatLines(c.Map);
  }

  /** Every brew line of the file holds a quoted name; on any other brew
      line the reader's slice panics. */
  predicate BrewLinesQuoted(contents: string) {
    forall line | line in Split(contents, '\n') && HasPrefix(line, "brew") :: HasQuoted(line)
  }

  /** The brew section as FromBrewfile reads it. */
  function SortedBrews(contents: string): seq<string> {
    SortStrings(BrewfilePackages.Kept("brew", Split(contents, '\n')))
  }

  /** The brew section as read holds only quoted brew lines. */
  lemma SortedBrewsQuoted(contents: string)
    requires BrewLinesQuoted(contents)
    ensures forall j | 0 <= j < |SortedBrews(contents)| :: HasQuoted(SortedBrews(contents)[j])
  {
    var lines := Split(contents, '\n');
    var brews := SortedBrews(contents);
    forall j | 0 <= j < |brews| ensures HasQuoted(brews[j]) {
      var x := brews[j];
      assert x in multiset(brews);
      BrewfilePackages.KeptExactly("brew", lines, x);
    }
  }

  /** The dependency map Clean builds from the sorted brew section: every
      brew with metadata stored under its full name, up to the first one
      without. */
  function Tracked(contents: string, db: map<string, Info>): Graph
    requires BrewLinesQuoted(contents)
  {
    SortedBrewsQuoted(contents);
    Ingest(map[], db, SortedBrews(contents), ByFullName).graph
  }

  /** The map of the brew lines, resolved and rendered. */
  method Rebuild(brews: seq<string>, db: map<string, Info>, ghost rank: string -> nat)
    returns (clean: seq<string>, ghost order: seq<string>)
    requires forall j | 0 <= j < |brews| :: HasQuoted(brews[j])
    requires DbRanked(db, rank)
    ensures var g := Ingest(map[], db, brews, ByFullName).graph;
      Ranked(g, rank) && Enumerates(g, order) && clean == Rendered(Resolve(g, db, order, rank))
  {
    var c := new BrewCacheMap.CacheMap(map[]);
    var _ := c.FromPackages(brews, db);
    BrewIngest.IngestRanked(map[], db, brews, ByFullName, rank);
    order := c.ResolveRequiredDependencyMap(db, rank);
    clean := CleanBrews(c);
  }

  /** The brew section of `p` replaced by its rebuilt rendering. */
  method RebuildBrew(p: BrewfilePackages.Packages, db: map<string, Info>, ghost rank: string -> nat)
    returns (ghost order: seq<string>)
    requires forall j | 0 <= j < |p.Brew| :: HasQuoted(p.Brew[j])
    requires DbRanked(db, rank)
    modifies p
    ensures var g := Ingest(map[], db, old(p.Brew), ByFullName).graph;
      Ranked(g, rank) && Enumerates(g, order) && p.Brew == Rendered(Resolve(g, db, order, rank))
    ensures p.Tap == old(p.Tap) && p.Cask == old(p.Cask) && p.Mas == old(p.Mas)
  {
    var clean;
    clean, order := Rebuild(p.Brew, db, rank);
    p.Brew := clean;
  }

  /** Clean: read the sections, build and resolve the dependency map,
      replace the brew section with its rendering and render the file. An
      error from building the map is ignored, as the command ignores it:
      the brews read before the first one without metadata are kept. */
  method Clean(contents: string, p: BrewfilePackages.Packages, db: map<string, Info>,
               ghost rank: string -> nat)
    returns (out: string, ghost order: seq<string>)
    requires BrewLinesQuoted(contents) && DbRanked(db, rank)
    modifies p
    ensures p.Tap == SortStrings(BrewfilePackages.Kept("tap", Split(contents, '\n')))
    ensures p.Cask == SortStrings(BrewfilePackages.Kept("cask", Split(contents, '\n')))
    ensures p.Mas == SortStrings(BrewfilePackages.Kept("mas", Split(contents, '\n')))
    ensures Ranked(Tracked(contents, db), rank) && Enumerates(Tracked(contents, db), order)
      && p.Brew == Rendered(Resolve(Tracked(contents, db), db, order, rank))
    ensures out == BrewfilePackages.Render(p.Tap, p.Brew, p.Cask, p.Mas)
  {
    p.FromBrewfile(contents);
    assert p.Brew == SortedBrews(contents);
    SortedBrewsQuoted(contents);
    order := RebuildBrew(p, db, rank);
    out := p.Bytes();
  }

  /** The cleaned brew section has one line per tracked brew, each the
      rendering of its resolved entry. */
  lemma CleanedSection(contents: string, db: map<string, Info>, order: seq<string>, rank: string -> nat)
    requires BrewLinesQuoted(contents) && DbRanked(db, rank)
    requires Ranked(Tracked(contents, db), rank)
    ensures var g := Resolve(Tracked(contents, db), db, order, rank);
      |Rendered(g)| == |g| && Sorted(Rendered(g))
      && forall k | k in g :: Format(g[k]) in Rendered(g)
  {
    var g := Resolve(Tracked(contents, db), db, order, rank);
    RenderedCount(g);
    RenderedLines(g);
  }
}
