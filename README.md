# bfm: the Brewfile dependency graph, modelled in Dafny

bfm manages a Homebrew `Brewfile`. It reads the file into four sorted
sections: taps, brews, casks and mas apps. It builds an in-memory
dependency graph of the brews: a map from package name to an `Entry` that
records the package's dependencies, split into four classes (required,
recommended, optional, build), and its back-references (which tracked
packages require it). It adds or removes packages in that graph, with
dependencies pulled in or pruned according to a dependency level. Then it
renders every entry back to a `brew '…'` line, annotated with its
back-references, and writes the file again.

This project models that core. Each part follows the form of its source.

- The two revisions of the graph are classes:
  - `BrewCacheMap.CacheMap`, the metadata-database-backed one with
    level-aware `Add` and a cascading `Remove`;
  - `BrewMap.Map`, the earlier one over a list of metadata records.

  Each has one field, its map of entries. Their methods change that
  field, loop over dependency lists and recurse the way the Go methods do.
  Each method is proved equal to a ghost function of the old state, in
  `BrewGraph`.
- The lemmas in `BrewClosure`, `BrewPruning` and `BrewIngest` prove what
  those functions promise:
  - back-references are closed after resolution;
  - a requester is listed exactly once, in a sorted list;
  - each level of `Add` inserts what it should;
  - `Remove` deletes the package and prunes only dependencies that nothing
    still requires;
  - ingestion stops at the first package without metadata, keeping what
    it stored before.
- The lemmas in `BrewCascade` bound the cascade of `Remove` from both
  sides:
  - it deletes nothing the chosen level's lists do not lead to;
  - whatever it deletes takes along every dependency that hung on it
    alone, at any depth;
  - it reproduces the two `Remove` scenarios of brew/cacheMap_test.go.
- `BrewEntry` holds the entry datatype. It has the classification loop of
  `DetermineDependencies`, a method proved equal to a function. It also
  has `Format`, the rendered line, as a function of the fields.
- `BrewInfo` holds the record search of `InfoCache.Find`.
- `BrewfileLine` holds the regular expressions that read a Brewfile line,
  written out as scanners with their leftmost and greedy match semantics.
- `BrewfilePackages` reads sections from the file and writes the file
  (`Packages.FromBrewfile`, `Packages.Bytes`, `separate`). Its round-trip
  lemma shows that reading back a written file restores every section.
- `CmdHelpers`, `CmdAdd`, `CmdRemove`, `CmdClean` and `CmdRoot` hold the
  command-line helpers: line builders, filters and the render-and-sort
  loops.
  - Go visits a map's keys in no fixed order. The render loop is therefore
    specified against a chosen order of keys, and `RenderedAnyOrder`
    proves that the sorted output does not depend on that order.
- `GoStrings` holds the Go library functions the code relies on:
  - `strings.Split`, `strings.Join`, `strings.HasPrefix` and
    `strings.Contains`;
  - byte-wise string order and `sort.Strings`, modelled as a verified
    insertion sort;
  - `strings.ToLower` over ASCII.

The metadata table is a parameter throughout:
- the database lookup of the cache-backed revision is a `map<string, Info>`;
- the record list of the earlier revision is a `seq<Info>`, searched by
  `BrewInfo.Find`.

Termination of the recursions, which follow dependency edges with no
visited set, rests on a ghost `rank`. It decreases along every dependency
edge of the metadata (`DbRanked`, `CacheRanked`) and of the tracked
entries (`Ranked`). It never influences a result. For the Map revision
the ranking also demands that a record's full name rank no higher than
its short name. That excludes records on which brew/map.go recurses for
ever without any dependency cycle (see Findings).

Where the tests disagree with the code, the code is followed:
- brew/entry_test.go:91-105 expects annotations without brackets, while
  brew/entry.go:62-68 writes them in brackets;
- brew/cacheMap_test.go:59-67 expects unknown packages to be skipped,
  while brew/cacheMap.go:28-31 stops at the first one;
- the tests call `Add(entry, Required)`, a one-argument `FromPackages` and
  an `Entry.Info` field, none of which exist in the code.

## Model

| member | source | states |
|---|---|---|
| BrewHelpers.HasArgs | brew/helpers.go:3-5 | a one-expression test for a non-empty argument list; Map.Add appends arguments only when it holds (BrewMap.Build) |
| BrewHelpers.HasRestartService | brew/helpers.go:7-9 | a one-expression test for a non-empty option; Map.Add translates the option only when it holds (BrewGraph.RestartFlag) |
| BrewHelpers.Remove | brew/helpers.go:20-27 | the definition of remove; RemovePresent, RemoveAbsent, RemoveMultiset, RemoveSubset and RemoveSubsequence state what it does, and RemoveInPlace performs it on an array |
| BrewHelpers.Contains | brew/helpers.go:11-18 | the search loop returns true exactly when the element occurs in the list |
| BrewHelpers.FirstIndex | brew/helpers.go:21-22 | the index of the first occurrence, or the length when absent; nothing before it equals the element |
| BrewHelpers.RemovePresent | brew/helpers.go:20-24 | with the element present, exactly its first occurrence is dropped and the length falls by one |
| BrewHelpers.RemoveAbsent | brew/helpers.go:26 | with the element absent, the list is returned unchanged |
| BrewHelpers.RemoveMultiset | brew/helpers.go:20-27 | the result holds the same elements less one copy of the removed one |
| BrewHelpers.RemoveSubset | brew/helpers.go:20-27 | every element of the result was in the input |
| BrewHelpers.RemoveSubsequence | brew/helpers.go:23 | the remaining elements keep their relative order |
| BrewHelpers.RemoveInPlace | brew/helpers.go:23 | `append(s[:i], s[i+1:]...)` on the backing array: the prefix of the array becomes `Remove` of the old prefix, the slot after it keeps the old last element, and the tail beyond the old length is untouched |
| BrewHelpers.FirstIndexAt | brew/helpers.go:21-22 | any index with no earlier occurrence that holds the element (or is the end) is the first index |
| BrewInfo.Find | brew/info.go:120-128 | succeeds exactly when some record matches by Name, FullName or Oldname; the record returned is the first match in list order; otherwise the error names the package |
| BrewInfo.FindByFullName | brew/info.go:122 | a match on the full name alone finds the record |
| BrewInfo.FindIgnoresAliases | brew/info.go:122 | changing the Aliases of the records changes neither success nor the record found |
| BrewInfo.FindEmpty | brew/info.go:122 | searching for "" finds the first record with an empty Oldname when no earlier record matches "" |
| BrewInfo.FindKey | brew/cacheMap.go:28-31 | the database lookup succeeds exactly for stored keys, returns the stored record, and otherwise fails with the package's error |
| BrewInfo.LookupOf | brew/info.go:120-128 | the table of a record list holds exactly the names Find succeeds on, each with the record Find returns |
| BrewInfo.LookupOfRanked | brew/info.go:120-128 | records found in a ranked list are ranked: dependencies rank below the full name, which ranks no higher than the name searched |
| BrewEntry.RemoveEach | brew/entry.go:35-48 | the `Remove` calls of the classification loops, each taken as the first-occurrence remove of brew/helpers.go:20-27; RemoveEachMultiset, RemoveEachSubsequence and RemoveEachSubset state it |
| BrewEntry.Classify | brew/entry.go:30-49 | the definition of the classification; RequiredDependencies, FromInfoFields, TwiceListedStaysRequired and FromInfoDeps state what it computes, and DetermineDependencies performs it |
| BrewEntry.FromInfo | brew/entry.go:25-28 | the definition of FromInfo; FromInfoFields states the fields it sets and keeps, and FromInfoMethod performs it |
| BrewEntry.MoveEach | brew/entry.go:35-48 | one classification loop: each name leaves the required list (first occurrence) and is appended to its class, in metadata order |
| BrewEntry.DetermineDependencies | brew/entry.go:30-49 | the four loops compute Classify: dependencies appended to required, then optional, build and recommended names moved to their classes |
| BrewEntry.FromInfoMethod | brew/entry.go:25-28 | FromInfo sets the name and then classifies |
| BrewEntry.FromInfoFields | brew/entry.go:25-28 | the name becomes the full name; the three specific classes are the old lists plus the metadata lists in order; args, restart option and the four back-reference lists are untouched |
| BrewEntry.RemoveEachMultiset | brew/entry.go:36 | removing each of a list of names takes away exactly one copy of each |
| BrewEntry.RemoveEachSubsequence | brew/entry.go:36 | removal keeps the order of what remains |
| BrewEntry.RequiredDependencies | brew/entry.go:30-49 | the required list is the dependency list minus one copy of each optional, build and recommended name, in the original order |
| BrewEntry.TwiceListedStaysRequired | brew/entry.go:36 | a dependency listed twice and classified once keeps one copy in the required list |
| BrewEntry.RemoveEachSubset | brew/entry.go:36 | removal only drops names |
| BrewEntry.FromInfoDeps | brew/entry.go:30-49 | every dependency recorded comes from the entry or the metadata |
| BrewEntry.RemoveSecond | brew/helpers.go:20-24 | proof step of ClassifyMixedExample: removing the second element of a list whose head differs from it leaves head and tail |
| BrewEntry.RemoveEachPair | brew/entry.go:45-48 | proof step of ClassifyMixedExample: removing two names is removing the first, then the second |
| BrewEntry.MixedOptional | brew/entry_test.go:56-76 | proof step of ClassifyMixedExample: the optional loop of the mixed-classes scenario |
| BrewEntry.MixedBuild | brew/entry_test.go:56-76 | proof step of ClassifyMixedExample: the build loop of the mixed-classes scenario |
| BrewEntry.MixedRecommended | brew/entry_test.go:56-76 | proof step of ClassifyMixedExample: the recommended loop of the mixed-classes scenario |
| BrewEntry.ClassifyMixedExample | brew/entry_test.go:56-76 | b, c, d, e and f with c optional, d build and e, f recommended leave only b required |
| BrewEntry.Format | brew/entry.go:51-77 | the definition of the rendered line; FormatPrefix, FormatBare, FormatExample and FormatHashIff state its shape |
| BrewEntry.ArgsClause | brew/entry.go:56 | the arguments clause of the line; CmdAdd.JoinQuoted and CmdAdd.AppendArgs show that appendArgs writes the same text |
| BrewEntry.RestartClause | brew/entry.go:58 | the restart clause of the line; CmdAdd.AppendRestartService writes the same text |
| BrewEntry.Annotation | brew/entry.go:62-68 | one bracketed back-reference list; AnnotationHashFree and FormatExample state its text |
| BrewEntry.FormatBare | brew/entry.go:54 | an entry with only a name renders as `brew '<name>'` |
| BrewEntry.FormatExample | brew/entry.go:54-68 | arguments, then the restart option, then ` #` and the bracketed requesters in stored order |
| BrewEntry.FormatPrefix | brew/entry.go:54 | every rendered line starts with `brew '<name>'` |
| BrewEntry.JoinChars | brew/entry.go:56-68 | a character in neither the parts nor the separator is not in the join |
| BrewEntry.AnnotationHashFree | brew/entry.go:62-68 | an annotation of `#`-free names has no `#` |
| BrewEntry.FormatHashIff | brew/entry.go:60 | for `#`-free names and options, a rendered line contains `#` exactly when some back-reference list is non-empty |
| BrewfileLine.RunEnd | brew/cacheMap.go:19-20 | the end of the longest run of non-space (or non-newline) characters from a position |
| BrewfileLine.LastOf | brew/cacheMap.go:19-20 | the largest index in a range holding a character, or none |
| BrewfileLine.QuotedEnd | brew/cacheMap.go:19 | from a quote, the greedy end of a `'\S+'` match: it matches, and no match from there ends later |
| BrewfileLine.BracketedEnd | brew/cacheMap.go:20 | from `[`, the greedy end of a `\[.*\]` match within the line |
| BrewfileLine.FindQuoted | brew/cacheMap.go:25 | FindString of `'\S+'`: the leftmost start with a match, extended greedily; none when nothing matches |
| BrewfileLine.FindBracketed | brew/cacheMap.go:36 | FindString of `\[.*\]`: the leftmost bracketed match, greedy |
| BrewfileLine.QuotedTokens | brew/cacheMap.go:38-42 | FindAllString of `'\S+'` with the quotes trimmed: each match after the previous one |
| BrewfileLine.QuotedTokensShape | brew/cacheMap.go:38-42 | every argument read is a non-empty run without white space |
| BrewfileLine.FindRestart | brew/cacheMap.go:45 | the leftmost position where `restart_service: (:changed\|true)` matches |
| BrewfileLine.FindValue | brew/cacheMap.go:47 | FindString of `(:changed\|true)`: "" exactly when nothing matches, otherwise one of the two values found in the text |
| BrewfileLine.RestartValue | brew/cacheMap.go:45-48 | the value read from a restart clause is the alternative the clause ends in |
| BrewfileLine.KeyHoldsNoValue | brew/cacheMap.go:47 | no value match starts inside the key `restart_service: ` |
| BrewfileLine.Leftmost | brew/cacheMap.go:47 | the value found is the one at the first matching position |
| BrewfileLine.ClauseValue | brew/cacheMap.go:47 | the option carried by each restart clause |
| BrewfileLine.RestartOption | brew/cacheMap.go:45-48 | "" without a restart clause; otherwise `:changed` or `true`, as the first clause says |
| BrewfileLine.Inner | brew/cacheMap.go:26 | the match with its two quotes trimmed; ParseShape states it is a non-empty run without white space |
| BrewfileLine.ArgsOf | brew/cacheMap.go:36-43 | the quoted tokens inside the bracketed stretch, and none without one; QuotedTokensShape and ParseShape state their shape |
| BrewfileLine.Parse | brew/cacheMap.go:24-48 | one line read into its name, arguments and restart option, as both loading loops read it; ParseShape states what it yields |
| BrewfileLine.ParseShape | brew/cacheMap.go:24-48 | a parsed line has a non-empty name without white space, arguments that are non-empty runs without white space, and an option that is "", `:changed` or `true` |
| BrewGraph.Target | brew/cacheMap.go:160-172 | the entry addRequiredBy works on: the tracked one, one classified from the metadata, or none; TargetRanked and BrewClosure.AddRequiredByTarget state what becomes of it |
| BrewGraph.WithRequester | brew/cacheMap.go:174-178 | the definition of the requester update; BrewClosure.WithRequesterSorted and AddRequiredByOnce state it |
| BrewGraph.AddRequester | brew/cacheMap.go:174-178 | the requester appended when missing, then the list sorted |
| BrewGraph.AddRequiredBy | brew/cacheMap.go:159-189 | the recursive annotation keeps the graph ranked |
| BrewGraph.AddRequiredByAll | brew/cacheMap.go:182-186 | the annotation loop over a dependency list keeps the graph ranked; BrewClosure.AddRequiredByAllCloses states what it annotates |
| BrewGraph.Lookup | brew/cacheMap.go:192 | the tracked entry, or the zero Entry that reading a missing Go map key gives |
| BrewGraph.RemoveRequiredBy | brew/cacheMap.go:191-201 | the definition of removeRequiredBy; BrewPruning.RemoveRequiredByDetaches and RemoveRequiredByRanked state it |
| BrewGraph.RemoveRequiredByAll | brew/cacheMap.go:140-142 | the definition of the detach loop; BrewPruning.RemoveRequiredByAllDetaches and RemoveRequiredByAllKeeps state it |
| BrewGraph.RemoveRequiredByAllRanked | brew/cacheMap.go:140-142 | the detach loop keeps the graph ranked and every entry under its own name |
| BrewGraph.Orphan | brew/cacheMap.go:117 | the pruning test: the dependency's RequiredBy, or the zero Entry's when untracked, is empty |
| BrewGraph.Remove | brew/cacheMap.go:103-157 | the cascading removal keeps the graph ranked and every entry under its own name; BrewCascade.RemoveOnly states that it deletes only the package, "" and what the level's lists lead to from it, BrewCascade.RemoveCascades that it deletes whatever hung on a deleted package, and BrewPruning.RemoveShrinks that every deleted dependency was an orphan |
| BrewGraph.Cascade | brew/cacheMap.go:110-153 | the pruning loops of each level keep the graph ranked and keyed by names; BrewCascade.CascadeLevel states that they walk exactly the level's lists, and BrewPruning.CascadeShrinks, RemovePrunes and BrewCascade.RemoveCascades state what they delete |
| BrewGraph.Prune | brew/cacheMap.go:116-120 | one pruning loop keeps the graph ranked and keyed by names; BrewPruning.PruneShrinks and PruneRemoves and BrewCascade.PruneOnly and PruneCascades state what it deletes |
| BrewGraph.RemoveError | brew/cacheMap.go:104-106 | "Nothing to remove." exactly for an untracked name; BrewPruning.RemoveUntracked states that nothing changes then |
| BrewGraph.AddError | brew/cacheMap.go:67-70 | the lookup failure of the package itself; BrewClosure.AddUnknown states that nothing changes then |
| BrewGraph.Add | brew/cacheMap.go:66-101 | the level-aware insertion keeps the graph ranked |
| BrewGraph.AddCascade | brew/cacheMap.go:81-89 | the three loops at level All keep the graph ranked; BrewClosure.AddCascadeTracks states what they track |
| BrewGraph.AddEach | brew/cacheMap.go:81-83 | one loop of Adds keeps the graph ranked; BrewClosure.AddEachTracks states what it tracks |
| BrewGraph.Resolve | brew/cacheMap.go:56-64 | the walk over the keys keeps the graph ranked |
| BrewGraph.KeyOf | brew/cacheMap.go:50 | the key an ingested entry is stored under: the full name here, the short name in brew/map.go:49; BrewIngest.IngestKeysNamed states what the full-name keying gives |
| BrewGraph.Ingest | brew/cacheMap.go:24-51 | the definition of the loading loop; BrewIngest.IngestError, IngestTracks and IngestStores state it |
| BrewGraph.EntryOf | brew/cacheMap.go:33-48 | a line's entry: named by the full name, the line's arguments and restart option, no back-references, the specific classes from the metadata |
| BrewGraph.NewEntry | brew/cacheMap.go:33-48 | the loop body builds EntryOf: classify, append each argument, set the restart option |
| BrewGraph.RestartFlag | brew/map.go:151-159 | "changed" becomes `:changed`, "always" becomes `true`, anything else is ignored |
| BrewGraph.MapAdd | brew/map.go:136-173 | Map.Add keeps the graph ranked |
| BrewGraph.MapRemove | brew/map.go:109-134 | the definition of Map.Remove; BrewPruning.MapRemoveDeletes and MapRemoveDetaches and CmdRemove.RemovedLineGone state it |
| BrewGraph.RemoveRequiredByRanked | brew/cacheMap.go:191-201 | removeRequiredBy keeps the graph ranked and keyed by names, even when it writes the zero entry under "" |
| BrewGraph.ResolveSnoc | brew/cacheMap.go:57-63 | visiting one more key runs that entry's annotation loop, if the key is still tracked |
| BrewClosure.AddRequiredByCloses | brew/cacheMap.go:159-189 | the map only grows; a tracked target or one with metadata ends up tracked, lists the requester, and every required dependency beneath it with metadata is tracked and points back; every added key is closed too |
| BrewClosure.AddRequiredByAllCloses | brew/cacheMap.go:182-186 | after annotating each dependency of a list, each one that is tracked or has metadata lists the requester and is closed |
| BrewClosure.AddRequiredByFrame | brew/cacheMap.go:159-189 | annotation writes only keys ranked no higher than its target, each under its own name, and loses none |
| BrewClosure.AddRequiredByTarget | brew/cacheMap.go:174-180 | the stored target gains the requester once when missing, keeps the list sorted, and keeps every other field |
| BrewClosure.WithRequesterSorted | brew/cacheMap.go:174-178 | the requester list is sorted and gains exactly the missing requester |
| BrewClosure.AddRequiredByOnce | brew/cacheMap.go:174-176 | with the requester listed at most once before, it is listed exactly once after |
| BrewClosure.AddRequiredByUnknown | brew/cacheMap.go:162-166 | an untracked target without metadata leaves the map unchanged |
| BrewClosure.ResolveCloses | brew/cacheMap.go:56-64 | the walk only grows the map, and every visited key and every added key ends up closed |
| BrewClosure.ResolveAnnotates | brew/cacheMap.go:56-64 | after a walk over every key, each required dependency that is tracked or has metadata lists the entry requiring it |
| BrewClosure.AddStoredKeeps | brew/cacheMap.go:90-97 | below level All, Add writes only keys ranked no higher than the package |
| BrewClosure.AddKeeps | brew/cacheMap.go:66-101 | Add and the Adds it cascades into lose no key and store every entry under its own name |
| BrewClosure.AddUnknown | brew/cacheMap.go:67-70 | without metadata Add reports the failed lookup and changes nothing |
| BrewClosure.AddStores | brew/cacheMap.go:72-76 | with metadata, the classified entry is stored under its full name, keeping the caller's back-references and arguments |
| BrewClosure.AddPackageOnly | brew/cacheMap.go:90-91 | at PackageOnly only the package's own key is written |
| BrewClosure.AddRequiredCloses | brew/cacheMap.go:92-97 | at PackageAndRequired the added package is closed: its required closure is tracked and points back; AddRequiredOnly states that nothing else is added |
| BrewClosure.AddRequiredByReach | brew/cacheMap.go:159-189 | addRequiredBy adds no key except its target and names reached from it along required dependencies: those of the tracked entry, or else those classified from its metadata |
| BrewClosure.AddRequiredByAllReach | brew/cacheMap.go:184-188 | the annotation loop over a dependency list adds only names required-reachable from one of the list's names |
| BrewClosure.ClosedReach | brew/cacheMap.go:159-189 | from a closed key, every required-reachable name with metadata is already tracked |
| BrewClosure.AddRequiredByClosedKeys | brew/cacheMap.go:159-189 | addRequiredBy on a key that is already closed leaves the set of keys as it was |
| BrewClosure.AddRequiredOnly | brew/cacheMap.go:92-97 | at PackageAndRequired each new key is the package or is reached from one of its required dependencies; recommended, optional and build dependencies come in only through a required path |
| BrewClosure.AddLeavesTracks | brew/cacheMap.go:92-97 | proof step of AddRequiredLeaves: the package, the old keys and every required dependency that is tracked or has metadata are tracked |
| BrewClosure.AddNewKnown | brew/cacheMap.go:92-97 | proof step of AddRequiredLeaves: every key added besides the package has metadata |
| BrewClosure.AddLeavesOnly | brew/cacheMap.go:92-97 | proof step of AddRequiredLeaves: with leaf dependencies, a new key is one of them |
| BrewClosure.AddRequiredLeaves | brew/cacheMap.go:92-97 | when the required dependencies have none of their own, the keys after Add at PackageAndRequired are exactly the old keys, the package, and those dependencies that are tracked or have metadata |
| BrewClosure.AddRequiredExample | brew/cacheMap_test.go:86-101 | adding vim at PackageAndRequired tracks exactly vim and python; ruby, go and node stay out |
| BrewClosure.AddAllTracks | brew/cacheMap.go:75-89 | at All every recommended, optional and build dependency with metadata ends up tracked, and no key is lost |
| BrewClosure.AddEachTracks | brew/cacheMap.go:81-89 | each `Add(Entry{Name: dep})` of a loop tracks every dependency with metadata |
| BrewClosure.AddCascadeTracks | brew/cacheMap.go:81-89 | the three loops at All track every dependency with metadata |
| BrewPruning.RemoveShrinks | brew/cacheMap.go:103-157 | everything Remove deletes besides the package (and "") had no requester left; survivors gain no requester, and lose only requesters that are gone |
| BrewPruning.RemoveTrackedShrinks | brew/cacheMap.go:108-155 | the state before the final delete shrinks the map with only the package's name pending |
| BrewPruning.CascadeShrinks | brew/cacheMap.go:110-153 | the pruning loops at each level only delete orphans |
| BrewPruning.PruneShrinks | brew/cacheMap.go:116-120 | each pruning step removes only an entry that nothing requires |
| BrewPruning.RemoveDeletes | brew/cacheMap.go:155 | Remove never leaves the package behind and adds no key except "" |
| BrewPruning.RemoveUntracked | brew/cacheMap.go:104-106 | an untracked name is exactly the error case, and then nothing changes |
| BrewPruning.RemoveKeepsRequired | brew/cacheMap.go:117 | a package that a surviving package still requires survives |
| BrewPruning.RemoveKeepsFields | brew/cacheMap.go:191-201 | survivors keep every field but back-references, which only lose names |
| BrewPruning.RemovePackageOnly | brew/cacheMap.go:139-142 | at PackageOnly Remove only detaches the name and deletes it, as Map.Remove does; no other package goes |
| BrewPruning.PruneRemoves | brew/cacheMap.go:116-120 | a listed dependency with no requesters is removed by the pruning loop |
| BrewPruning.DetachEmpties | brew/cacheMap.go:112-114 | detaching the name empties a dependency's list that held only that name |
| BrewPruning.RemovePrunes | brew/cacheMap.go:110-153 | above PackageOnly, a dependency at the chosen level that only the removed package required is removed too |
| BrewPruning.RemoveRequiredByDetaches | brew/cacheMap.go:191-201 | removeRequiredBy only drops the one name from one list, keeping the list sorted |
| BrewPruning.RemoveRequiredByAllDetaches | brew/cacheMap.go:140-142 | the detach loop drops the name and changes nothing else |
| BrewPruning.RemoveRequiredByAllKeeps | brew/cacheMap.go:140-142 | detaching never loses a key |
| BrewPruning.DetachedList | brew/cacheMap.go:194-198 | the stored list drops the name once and keeps every other name |
| BrewPruning.RemoveKeepsOthers | brew/helpers.go:20-27 | remove keeps every element other than the removed one, and adds none |
| BrewPruning.MapRemoveDeletes | brew/map.go:109-134 | Map.Remove of an untracked name fails and changes nothing; otherwise the name is gone and every other key stays |
| BrewPruning.MapRemoveDetaches | brew/map.go:116-131 | Map.Remove changes the survivors only by dropping the name from back-references |
| BrewCascade.LevelDeps | brew/cacheMap.go:110-153 | the lists each level prunes: none at PackageOnly, at least the required ones above it, and only dependencies of the entry |
| BrewCascade.CascadeLevel | brew/cacheMap.go:110-153 | the pruning loops of a level are one pruning walk over that level's lists |
| BrewCascade.ReachLevel | brew/cacheMap.go:116-119 | the definition of what the recursive `Remove(c.Map[dep].Name, opt)` calls can reach: the package and, step by step, the dependencies on the level's lists |
| BrewCascade.ShrinksEdges | brew/cacheMap.go:191-201 | proof step of RemoveOnly: removals keep every surviving entry's dependency lists |
| BrewCascade.DetachedEdges | brew/cacheMap.go:140-142 | proof step of RemoveOnly: detaching keeps every entry's dependency lists |
| BrewCascade.ReachShrunk | brew/cacheMap.go:116-119 | what is reachable in the map removals left was reachable in the map they started from |
| BrewCascade.RemoveOnly | brew/cacheMap.go:103-157 | every key Remove deletes is the package, "" or reachable from the package along the level's lists: at PackageAndRequired along required dependencies only, at PackageOnly nothing but the package |
| BrewCascade.PruneOnly | brew/cacheMap.go:116-120 | a pruning loop deletes only "" and what is reachable from the names it visits |
| BrewCascade.SortShort | brew/cacheMap.go:198 | sorting a list of at most one name leaves it as it is |
| BrewCascade.RemoveRequiredBySolely | brew/cacheMap.go:191-201 | removeRequiredBy keeps an entry required by one given name alone, or by none |
| BrewCascade.RemoveRequiredByAllSolely | brew/cacheMap.go:140-142 | the detach loop keeps an entry required by one given name alone, or by none |
| BrewCascade.RemoveSolely | brew/cacheMap.go:103-157 | Remove, with everything it cascades into, keeps an entry required by one given name alone, or by none |
| BrewCascade.PruneSolely | brew/cacheMap.go:116-120 | a pruning loop keeps an entry required by one given name alone, or by none |
| BrewCascade.HangsOn | brew/cacheMap.go:116-119 | the definition of a dependency that goes with its package: on the package's level lists, and required by nothing, or only by the package as one of its required dependencies |
| BrewCascade.HangsOnKept | brew/cacheMap.go:191-201 | proof step of RemoveCascades: removals that spare a package keep what hangs on it |
| BrewCascade.RemoveCascades | brew/cacheMap.go:110-153 | whenever Remove deletes a package, it also deletes every dependency that hung on that package, at any depth |
| BrewCascade.PruneCascades | brew/cacheMap.go:116-120 | whenever a pruning loop deletes a package, it also deletes what hung on it |
| BrewCascade.RemoveChain | brew/cacheMap.go:144-153 | for a chain x, y, z of required dependencies, each required only by the one before, Remove(x) above PackageOnly deletes y and z |
| BrewCascade.RemoveRequiredLeaf | brew/cacheMap.go:144-155 | Remove(x) at PackageAndRequired, when x's one required dependency has none of its own and only x requires it, deletes both and keeps every other package |
| BrewCascade.Single | brew/cacheMap.go:178 | proof step of AddRequiredOne: a list holding one name once is that name |
| BrewCascade.AddOne | brew/cacheMap.go:81-89 | one `c.Add(Entry{Name: dep}, opt)` of a dependency with metadata tracks it with no requester and changes nothing ranked above it |
| BrewCascade.CascadeUnfold | brew/cacheMap.go:81-89 | the three loops over one-name lists are three Adds in turn |
| BrewCascade.LeafPair | brew/cacheMap.go:81-86 | proof step of CascadeLeaves: two such Adds in turn |
| BrewCascade.KeptAbove | brew/cacheMap.go:81-89 | proof step of CascadeLeaves: a key ranked above what an Add writes comes through unchanged |
| BrewCascade.CascadeLeaves | brew/cacheMap.go:81-89 | the three loops over one recommended, one optional and one build dependency track each with no requester and change nothing ranked above them |
| BrewCascade.AddRequiredOne | brew/cacheMap.go:92-97 | Add at PackageAndRequired with one untracked required dependency that has metadata stores it from that metadata, required by the package alone |
| BrewCascade.AddAllLeaves | brew/cacheMap.go:66-100 | Add at All of a package with one dependency of each class stores the package as classified, the required one required by the package alone, and the other three with no requester |
| BrewCascade.VimAddedAll | brew/cacheMap_test.go:120 | `Add(vim, Build)` on an empty map tracks vim, python, ruby, go and node; python is required by vim alone, the other three by nothing |
| BrewCascade.RemoveRequiredExample | brew/cacheMap_test.go:116-130 | after `Add(vim, Build)`, `Remove("vim", Required)` keeps ruby, go and node and deletes vim and python |
| BrewCascade.RemoveAllExample | brew/cacheMap_test.go:132-143 | after `Add(vim, Build)`, `Remove("vim", Build)` deletes vim, python, ruby, go and node |
| BrewIngest.IngestStep | brew/cacheMap.go:24-51 | one line with metadata stores its entry and goes on with the rest |
| BrewIngest.IngestError | brew/cacheMap.go:28-31 | ingestion fails exactly when some line names a package without metadata, and then with the first such name |
| BrewIngest.IngestKeeps | brew/cacheMap.go:50 | ingestion deletes nothing |
| BrewIngest.IngestStores | brew/cacheMap.go:50 | every entry afterwards is untouched or what some line with metadata stored under its key |
| BrewIngest.IngestTracks | brew/cacheMap.go:24-51 | every line before the first failure is tracked under its key |
| BrewIngest.EntryOfLineFields | brew/cacheMap.go:33-48 | a line's entry has no back-references and the line's arguments and option |
| BrewIngest.IngestKeysNamed | brew/cacheMap.go:50 | keying by full name keeps every entry under its own name |
| BrewIngest.IngestRanked | brew/map.go:49 | the ingested graph is ranked, for either key |
| BrewIngest.MapAddUnknown | brew/map.go:137-140 | Map.Add on a name without metadata fails and changes nothing |
| BrewIngest.MapAddUnfold | brew/map.go:142-166 | the entry Map.Add stores and the annotation walk that follows |
| BrewIngest.MapAddStores | brew/map.go:161 | with metadata the entry is stored under the short name, with the caller's arguments, the translated option and no back-references, and no key is lost |
| BrewIngest.RequiredOf | brew/entry.go:30-49 | a dependency in none of the three specific classes stays required |
| BrewIngest.MapAddAnnotates | brew/map.go:163-166 | each required dependency with metadata lists the name the caller typed |
| BrewCacheMap.CacheMap.constructor | cmd/clean.go:78 | the map starts with the entries given, empty in clean.go |
| BrewCacheMap.CacheMap.FromPackages | brew/cacheMap.go:18-54 | the map and error after the loop are Ingest of the lines, keyed by full name |
| BrewCacheMap.CacheMap.ResolveRequiredDependencyMap | brew/cacheMap.go:56-64 | the map after the loop is Resolve over an order listing each key tracked at the start once |
| BrewCacheMap.CacheMap.AddRequiredBy | brew/cacheMap.go:159-189 | the new map is AddRequiredBy of the old; only the target's own lookup failure is returned |
| BrewCacheMap.CacheMap.TargetOf | brew/cacheMap.go:160-172 | the tracked entry, one classified from the stored record, or exactly the lookup error when neither exists |
| BrewCacheMap.CacheMap.AnnotateEach | brew/cacheMap.go:182-186 | the loop over the dependencies is AddRequiredByAll; nested errors are dropped |
| BrewCacheMap.CacheMap.Add | brew/cacheMap.go:66-101 | the new map is Add of the old at the level given; the error is the package's own lookup failure |
| BrewCacheMap.CacheMap.AddEachOf | brew/cacheMap.go:81-89 | the loop of Adds over a class is AddEach; their errors are dropped |
| BrewCacheMap.CacheMap.Remove | brew/cacheMap.go:103-157 | the new map is Remove of the old; the error is "Nothing to remove." exactly for an untracked name; what Remove deletes and keeps is stated by BrewCascade.RemoveOnly and RemoveCascades and BrewPruning.RemoveShrinks and RemovePrunes |
| BrewCacheMap.CacheMap.RemoveRequiredBy | brew/cacheMap.go:191-201 | the new map is RemoveRequiredBy of the old |
| BrewCacheMap.CacheMap.DetachEach | brew/cacheMap.go:112-114 | the detach loop is RemoveRequiredByAll and keeps the map ranked and keyed by names |
| BrewCacheMap.CacheMap.PruneOrphans | brew/cacheMap.go:116-120 | the pruning loop is Prune |
| BrewCacheMap.PruneAll | brew/cacheMap.go:111-138 | the four loops at level All are one walk over every dependency class |
| BrewCacheMap.PruneAppend | brew/cacheMap.go:111-138 | walking two lists one after the other is walking their join |
| BrewMap.Map.constructor | cmd/add.go:123 | the map starts with the entries given, empty in add.go |
| BrewMap.Map.FromBrewfile | brew/map.go:17-53 | the map and error after the loop are Ingest of the lines over the table of the record list, keyed by short name |
| BrewMap.Map.ResolveDependencies | brew/map.go:55-63 | the map after the loop is Resolve over an order listing each key tracked at the start once |
| BrewMap.Map.RemoveRequiredBy | brew/map.go:65-75 | the new map is RemoveRequiredBy of the old |
| BrewMap.Map.AddRequiredBy | brew/map.go:77-107 | the new map is AddRequiredBy of the old over the record table; only the target's own failure is returned |
| BrewMap.Map.TargetOf | brew/map.go:79-91 | the tracked entry, or one classified from the found record, or the lookup error |
| BrewMap.Map.AnnotateEach | brew/map.go:101-105 | the loop over the dependencies is AddRequiredByAll; nested errors are dropped |
| BrewMap.Map.Remove | brew/map.go:109-134 | the new map is MapRemove of the old, with no cascade; the error is "Nothing to remove." exactly for an untracked name |
| BrewMap.Map.Add | brew/map.go:136-173 | the new map is MapAdd of the old; the error is the package's lookup failure |
| BrewMap.Build | brew/map.go:142-159 | the entry built: classified, the arguments appended in order, the restart option translated |
| BrewMap.LookupOfNamesRanked | brew/map.go:49 | the record a short name finds ranks its full name no higher |
| BrewMap.TwinLookups | brew/info.go:120-128 | proof step of TwinRepeats: "foo" finds the core record and "u/t/foo" the tap record |
| BrewMap.TwinUnranked | brew/map.go:49 | for a core `foo` and a tap `u/t/foo` that depends on `foo`, no ranking of the record list exists, although the records have no dependency cycle |
| BrewMap.ShortKeyLoops | brew/map.go:80-102 | a record stored under a short name that is one of its own required dependencies makes AddRequiredBy(short, full) store its target under the full name and repeat the identical call, from a state that the call leaves unchanged |
| BrewMap.TwinRepeats | brew/map.go:161 | the tap record of the twin pair meets ShortKeyLoops: its short name is `foo`, its full name `u/t/foo`, and it requires `foo` |
| BrewMap.TwinTapEntry | brew/entry.go:25-49 | proof step of TwinRepeats: the classified tap entry is named `u/t/foo` and requires `foo` |
| BrewMap.TwinKeyedFacts | brew/cacheMap.go:50 | proof step of TwinKeyedEnds: keyed by full name, the twin records are ranked and classify as expected |
| BrewMap.TwinKeyedEnds | brew/cacheMap.go:66-97 | keyed by full name, the same records give a ranked table, and Add of `u/t/foo` at PackageAndRequired ends with exactly `u/t/foo` and `foo` tracked |
| BrewfilePackages.Packages.constructor | brewfile/packages.go:11-13 | the four sections start as given |
| BrewfilePackages.Kept | brewfile/packages.go:100-109 | the definition of separate; KeptExactly, KeptInOrder and KeptAppend state it, and Separate performs it |
| BrewfilePackages.Group | brewfile/packages.go:46-52 | the definition of the brew grouping; GroupMembers, GroupPartition and GroupInOrder state it |
| BrewfilePackages.Section | brewfile/packages.go:40-42 | one section through the template: each line followed by a newline; SectionEmpty and SplitSection state it |
| BrewfilePackages.Blocks | brewfile/packages.go:77-95 | the non-empty rendered sections, in output order; BlocksEmpty and BlocksEnd state it |
| BrewfilePackages.Render | brewfile/packages.go:39-98 | the definition of the output; RenderShape and RoundTrip state it |
| BrewfilePackages.ReadBack | brewfile/packages.go:16-35 | the sections FromBrewfile reads from a written file; RoundTrip states that they are the sections written |
| BrewfilePackages.Packages.FromBrewfile | brewfile/packages.go:22-32 | each section is the lines of its kind, sorted |
| BrewfilePackages.Packages.Bytes | brewfile/packages.go:39-98 | the output is Render of the four sections |
| BrewfilePackages.AppendBuffer | brewfile/packages.go:78-95 | a section's buffer is kept only when non-empty |
| BrewfilePackages.GroupBrews | brewfile/packages.go:44-52 | the brew loop splits the lines into unmarked and marked groups |
| BrewfilePackages.ReadSection | brewfile/packages.go:24-32 | one section: the lines of its kind, sorted |
| BrewfilePackages.Separate | brewfile/packages.go:100-109 | the loop keeps exactly the lines with the prefix, in order |
| BrewfilePackages.KeptExactly | brewfile/packages.go:103 | a line is kept, as often as it occurs, exactly when it has the prefix |
| BrewfilePackages.KeptInOrder | brewfile/packages.go:102-106 | kept lines keep their order |
| BrewfilePackages.KeptAppend | brewfile/packages.go:102-106 | separating a join is joining the separated parts |
| BrewfilePackages.KeptAll | brewfile/packages.go:103 | a list all of whose lines have the prefix is kept whole |
| BrewfilePackages.KeptNone | brewfile/packages.go:103 | a list none of whose lines has the prefix contributes nothing |
| BrewfilePackages.KeptKind | brewfile/packages.go:24-27 | the four keywords start with different letters, so a section of one kind is kept only by its own keyword |
| BrewfilePackages.GroupMembers | brewfile/packages.go:47 | a brew line goes to the marked group exactly when it contains `#` |
| BrewfilePackages.GroupPartition | brewfile/packages.go:46-52 | the two groups together hold every brew line exactly once |
| BrewfilePackages.GroupInOrder | brewfile/packages.go:46-52 | each group keeps the brews' relative order |
| BrewfilePackages.GroupsEmpty | brewfile/packages.go:46-52 | both groups are empty exactly when there are no brews |
| BrewfilePackages.ContainsHash | brewfile/packages.go:47 | the marker test is a test for the `#` character |
| BrewfilePackages.SectionEmpty | brewfile/packages.go:40-42 | a section renders to nothing exactly when it is empty, and otherwise ends in a newline |
| BrewfilePackages.BlocksEmpty | brewfile/packages.go:77-95 | no block is kept exactly when every section is empty |
| BrewfilePackages.BlocksEnd | brewfile/packages.go:77-95 | every kept block ends in a newline |
| BrewfilePackages.RenderShape | brewfile/packages.go:77-97 | the output is empty exactly when every section is empty, and otherwise ends in a newline |
| BrewfilePackages.SplitSection | brewfile/packages.go:40-42 | splitting a rendered section at newlines gives back its lines |
| BrewfilePackages.KeptJoin | brewfile/packages.go:97 | reading lines of one kind from the joined blocks reads them section by section |
| BrewfilePackages.ReadKind | brewfile/packages.go:77-97 | each kind reads back exactly the sections holding its lines |
| BrewfilePackages.GroupLines | brewfile/packages.go:46-52 | the groups of well-formed brew lines are well-formed |
| BrewfilePackages.RoundTrip | brewfile/packages.go:16-98 | reading back a written Brewfile restores each sorted, well-formed section |
| CmdHelpers.FlagProvided | cmd/helpers.go:19-21 | some package-kind flag is set; PackageType is "" exactly when it fails |
| CmdHelpers.BaseEntry | cmd/helpers.go:43-45 | the definition of the base entry; BaseEntryInjective, FormatStartsWithBase and CmdRemove.BasePrefixUnique state it |
| CmdHelpers.EntryExists | cmd/helpers.go:47-55 | the definition of entryExists; EntryExistsIff, EntryExistsExample and EntryMissingExample state it |
| CmdHelpers.PackageType | cmd/helpers.go:23-41 | the first flag set in the order tap, brew, cask, mas; "" exactly when no flag is set |
| CmdHelpers.BaseEntryInjective | cmd/helpers.go:43-45 | two base entries of one kind are equal exactly when the names are |
| CmdHelpers.FormatStartsWithBase | cmd/helpers.go:43-45 | every rendered brew line starts with the base entry of its name |
| CmdHelpers.ContainsAt | cmd/helpers.go:50 | strings.Contains holds exactly when the substring occurs at some offset |
| CmdHelpers.EntryExistsIff | cmd/helpers.go:47-55 | an entry exists exactly when its base entry occurs at some offset of the contents |
| CmdHelpers.ContainsWitness | cmd/helpers.go:50 | a substring found at an offset is contained |
| CmdHelpers.ContainsFirst | cmd/helpers.go:50 | a substring whose first character is absent is not contained |
| CmdHelpers.EntryExistsExample | cmd/helpers_test.go:104-128 | a brew on the second line of the contents exists |
| CmdHelpers.EntryMissingExample | cmd/helpers_test.go:104-128 | a cask is missing from contents that list only brews |
| CmdHelpers.GetPackages | cmd/helpers.go:57-66 | the loop keeps exactly the lines of the kind, in order, as separate does |
| CmdHelpers.EnumerationExists | cmd/clean.go:103 | some order visits every key of a map once |
| CmdHelpers.FormatEach | cmd/clean.go:103-110 | the lines of the visited keys in visiting order; FormatEachAppend, FormatEachPermutation and FormatEachLines state it |
| CmdHelpers.Rendered | cmd/clean.go:100-114 | the sorted lines of a map; RenderedAnyOrder, RenderedCount and RenderedLines state it, and FormatLines performs it |
| CmdHelpers.FormatEachAppend | cmd/clean.go:103-110 | rendering two runs of keys renders each in turn |
| CmdHelpers.FormatEachPermutation | cmd/clean.go:103-112 | orders with the same keys render the same lines with the same multiplicities |
| CmdHelpers.EnumerationsAgree | cmd/clean.go:103 | two orders visiting every key once hold the same keys |
| CmdHelpers.RenderedAnyOrder | cmd/clean.go:103-112 | the sorted rendering is the same whatever order the map walk visits the keys in |
| CmdHelpers.FormatEachLines | cmd/clean.go:103-110 | one line per visited key, each an entry's Format |
| CmdHelpers.RenderedCount | cmd/clean.go:103-110 | the rendering has one line per entry of the map |
| CmdHelpers.EnumerationCount | cmd/clean.go:103 | an order visiting every key once is as long as the map |
| CmdHelpers.RenderedLines | cmd/clean.go:103-110 | every entry's line is rendered, and every rendered line is some entry's Format |
| CmdHelpers.FormatLines | cmd/clean.go:100-114 | the loop over the map, then sort.Strings, gives the sorted rendering |
| CmdAdd.HasMasId | cmd/add.go:211-213 | a one-expression test for a non-empty id; MasIdExamples checks it on the test values |
| CmdAdd.AppendMasId | cmd/add.go:240-242 | the id clause of a mas line; MasIdExamples and AddPackageAppends state its text |
| CmdAdd.AddPackage | cmd/add.go:195-204 | the definition of addPackage; AddPackageAppends, AddPackageExample and CmdRemove.RemoveUndoesAdd state it |
| CmdAdd.MasIdExamples | cmd/add_test.go:26-54 | an id is present exactly when non-empty, and appendMasId writes `, id: <id>` |
| CmdAdd.AddPackageAppends | cmd/add.go:195-204 | existing lines are kept in place and one new line starting with the base entry is appended; it is exactly the base entry except for mas apps |
| CmdAdd.AddPackageExample | cmd/add_test.go:56-67 | adding a brew to a one-line section appends its base entry |
| CmdAdd.JoinQuoted | cmd/add.go:218-222 | the quoted arguments joined by ", " are the argument list Format writes |
| CmdAdd.AppendArgs | cmd/add.go:215-223 | with arguments, appendArgs writes exactly the clause Format writes for them; with none, an empty list |
| CmdAdd.AppendRestartService | cmd/add.go:225-238 | succeeds exactly for "changed" and "always", writing the clause for the option Map.Add stores; anything else is the restart error |
| CmdAdd.SlashFrom | cmd/add.go:207 | the scan for a slash with a non-newline character on each side; SlashFromIff states it |
| CmdAdd.SlashFromIff | cmd/add.go:206-209 | the scan finds a slash with a non-newline character on each side exactly when there is one |
| CmdAdd.HasCorrectTapFormat | cmd/add.go:206-209 | true exactly when the name contains a match of `.+/.+` |
| CmdAdd.TapFormatExamples | cmd/add_test.go:8-24 | `homebrew/correct` and `homebrew/dupes` match; `incorrect` and `tap` do not |
| CmdAdd.AddTapAsWritten | cmd/add.go:127-134 | the tap branch as written, testing the package type rather than the name; TapAlwaysRejected states that it rejects every tap |
| CmdAdd.TapAlwaysRejected | cmd/add.go:127-134 | as written, every tap is rejected, including `homebrew/dupes` |
| CmdAdd.AddTap | cmd/add.go:127-134 | with the name tested: accepted exactly for names of the form `.+/.+`, and then the sorted section gains the tap's line |
| CmdAdd.AddTapExample | cmd/add.go:75 | the help text's example is accepted once the name is tested |
| CmdAdd.AddBrewPackage | cmd/add.go:174-193 | the map becomes MapAdd of the old; the lines are its sorted rendering, or the lookup error without metadata |
| CmdAdd.AddedLineRendered | cmd/add.go:180-192 | with metadata, the rendered section holds the new package's line, which starts with its full name |
| CmdRemove.Unmatched | cmd/remove.go:169-182 | the definition of the filter; UnmatchedExactly, UnmatchedInOrder and UnmatchedIdempotent state it, and RemovePackage performs it |
| CmdRemove.RemovePackage | cmd/remove.go:169-182 | the loop keeps exactly the lines that do not start with the base entry, in order |
| CmdRemove.UnmatchedExactly | cmd/remove.go:174 | a line survives, as often as it occurred, exactly when it does not start with the base entry |
| CmdRemove.UnmatchedInOrder | cmd/remove.go:173-179 | the surviving lines keep their order |
| CmdRemove.UnmatchedIdempotent | cmd/remove.go:169-182 | removal never adds lines, and removing twice is removing once |
| CmdRemove.UnmatchedAppend | cmd/remove.go:173-179 | filtering a list with one more line filters that line on its own |
| CmdRemove.RemoveUndoesAdd | cmd/remove.go:169-182 | removing a package just appended by addPackage gives the section without it |
| CmdRemove.RemoveExamples | cmd/remove.go:171-174 | removing `vim` keeps `vim-x` because of the closing quote, and drops `vim` lines with arguments |
| CmdRemove.RemoveBrewPackage | cmd/remove.go:148-167 | the map becomes MapRemove of the old; the lines are its sorted rendering, or "Nothing to remove." for an untracked name |
| CmdRemove.RemovedRendered | cmd/remove.go:154-166 | every other tracked package keeps its line, and no line comes from the removed key |
| CmdRemove.BasePrefixUnique | cmd/remove.go:174 | a line starts with the base entry of at most one quote-free name, so the prefix test picks out one package |
| CmdRemove.RemovedLineGone | cmd/remove.go:148-167 | on a map keyed by quote-free entry names, the removed package's line is no longer rendered |
| CmdRemove.RemoveLeavesTwin | brew/map.go:98 | an entry stored under its short name (brew/map.go:49) and again under its full name (brew/map.go:98) keeps its line when the short name is removed |
| CmdClean.CleanBrews | cmd/clean.go:100-114 | one rendered line per entry, sorted |
| CmdClean.SortedBrewsQuoted | cmd/clean.go:74-79 | the brew section read holds only lines with a quoted name |
| CmdClean.Rebuild | cmd/clean.go:78-82 | ingest, resolve and render: the rendering of the resolved graph of the brew lines |
| CmdClean.RebuildBrew | cmd/clean.go:78-87 | only the brew section is replaced; the other sections are unchanged |
| CmdClean.Clean | cmd/clean.go:73-98 | tap, cask and mas sections as read; brew section the rendering of the resolved graph of the brews; output the rendering of the four sections |
| CmdClean.CleanedSection | cmd/clean.go:100-114 | the cleaned brew section is sorted and has one line per tracked brew, each the rendering of its entry |
| CmdRoot.LevelName | cmd/root.go:98-105 | the name each level is read from; NamesDistinct and LevelRoundTrip state it |
| CmdRoot.ResolveDependencyLevel | cmd/root.go:96-109 | a level exactly when the lowered string is one of the four names, and then that level; otherwise (0, the level error) |
| CmdRoot.NamesDistinct | brew/constants.go:12-17 | the four level names differ |
| CmdRoot.LevelRoundTrip | cmd/root.go:97-106 | each level's name reads back as that level |
| CmdRoot.CaseInsensitive | cmd/root.go:97 | the case of the setting does not matter |
| CmdRoot.LevelExample | cmd/root.go:102-103 | "Optional" reads as the optional level |
| CmdRoot.UnknownLevelExample | cmd/root.go:108 | "all" is not a level |
| CmdRoot.ToLowerIdempotent | cmd/root.go:97 | lowering twice is lowering once |
| GoStrings.HasPrefix | brewfile/packages.go:103 | strings.HasPrefix; BrewfilePackages.KeptExactly and CmdRemove.UnmatchedExactly state what the filters built on it keep |
| GoStrings.Contains | cmd/helpers.go:50 | strings.Contains; CmdHelpers.ContainsAt states that it holds exactly when the substring occurs at some offset |
| GoStrings.Join | brewfile/packages.go:97 | strings.Join; JoinSplit states that splitting a join gives the parts back |
| GoStrings.Split | brewfile/packages.go:22 | strings.Split yields at least one piece |
| GoStrings.JoinSplit | brewfile/packages.go:22 | joining the pieces with the separator gives the string back |
| GoStrings.SplitPieces | brewfile/packages.go:22 | no piece contains the separator |
| GoStrings.LessEqTotal | brewfile/packages.go:29-32 | byte-wise string order is total |
| GoStrings.LessEqAntisymmetric | brewfile/packages.go:29-32 | byte-wise string order is antisymmetric |
| GoStrings.LessEqTransitive | brewfile/packages.go:29-32 | byte-wise string order is transitive |
| GoStrings.Insert | brewfile/packages.go:29-32 | inserting into a sorted list keeps it sorted and adds exactly the element |
| GoStrings.SortStrings | brewfile/packages.go:29-32 | sort.Strings gives a sorted permutation |
| GoStrings.SortedUnique | brewfile/packages.go:29-32 | two sorted permutations of one list are equal, so the sort's result is determined |
| GoStrings.SortSorted | brewfile/packages.go:29-32 | sorting a sorted list changes nothing |
| GoStrings.SortDistinct | brew/cacheMap.go:178 | sorting keeps a list duplicate-free |
| GoStrings.DistinctCount | brew/cacheMap.go:174-176 | a duplicate-free list holds each element at most once |
| GoStrings.ToLower | cmd/root.go:97 | strings.ToLower on ASCII letters: same length, each upper-case letter lowered, everything else kept |

## Left out

- I/O is left out: reading and writing the Brewfile and the metadata
  cache, the bolt database, running `brew info`, printing, `os.Exit`,
  homedir and viper configuration (cmd/root.go:56-94), and cmd/check.go,
  cmd/refresh.go and cmd/docs.go. The metadata table and the file contents
  are parameters.
- `InfoCache.Refresh` and `InfoCache.Read` (brew/info.go:89-118) and brew/cache.go
  are left out. The database lookup `Cache.Find(pkg, db)` is the map
  lookup `BrewInfo.FindKey`.
- The Info record keeps only Name, FullName, Oldname, Aliases and the four
  dependency lists. The other fields are never read by the core.
- The cobra `Run` closures of add and remove are left out. Only their
  tap branch is modelled (`CmdAdd.AddTap`, `CmdAdd.AddTapAsWritten`),
  because it holds the finding below.
- Go's map iteration order is a nondeterministic choice:
  - the resolve loops range over the keys tracked at the start, in an
    order chosen by `:|` and returned as a ghost result;
  - the render loops use a chosen enumeration;
  - `CmdHelpers.RenderedAnyOrder` shows that the sorted output does not
    depend on that order.

  Resolution itself can depend on the order. Go's range over a map may
  or may not visit a key added during the walk. The model follows the
  walk over the starting keys, which is as far as Go guarantees
  anything. Revisiting a key that addRequiredBy has already closed adds
  no key (`BrewClosure.AddRequiredByClosedKeys`).
- `sort.Strings` sorts in place. The model sorts values with a verified
  insertion sort: a sorted permutation, unique by `GoStrings.SortedUnique`.
- `text/template` cannot fail on these values, so `Format` and `Bytes`
  are total. The error paths of brew/entry.go:72-74,
  brewfile/packages.go:57-75, cmd/clean.go:105-107, cmd/add.go:183-186
  and cmd/remove.go:157-160 are not modelled.
- `strings.ToLower` is modelled on ASCII letters only. Unicode case
  mapping is not modelled.
- The mas id is the global flag `i` in cmd/add.go:199. In the model it is
  a parameter of `CmdAdd.AddPackage`.
- cmd/remove.go:102-108 builds a CacheMap with the fields `C` and `M`,
  and cmd/remove.go:149 calls a one-argument `Remove`. That revision of
  brew/cacheMap.go is not part of this model.
  `CmdRemove.RemoveBrewPackage` is modelled with the non-cascading
  `BrewMap.Map.Remove`, whose signature fits.
- The messages `Map.Remove` and `Map.Add` print (brew/map.go:120-129,
  :167-170) are left out. The loop that only prints is not modelled.
- The invalid restart option in `Map.Add` (brew/map.go:157) makes an error
  value and drops it. Its text says the input is ignored. The model stores
  no option (`BrewGraph.RestartFlag` returns "").
- `CmdClean.Clean` ignores the error of `FromPackages`, as cmd/clean.go:79
  does. The brews read before the first one without metadata are kept.
- `appendArgs` and `appendRestartService` are not called by the
  commands. They are modelled and related to `Format`'s clauses.
  `appendRestartService` exits the process on a bad option; the model
  returns `InvalidRestartService`.
- BrewEntry.RemoveEach: brew/entry.go:36, :41 and :46 call a `Remove` from the dot-imported package `github.com/lgug2z/bfm/helpers` (brew/entry.go:8), which is not part of this model; it is taken to be brew/helpers.go:20-27's `remove`, which drops the first occurrence only.
- CmdRemove.RemovedLineGone: holds for maps whose keys are their entries' quote-free names. `BrewMap.Map` stores a loaded entry under its short name (brew/map.go:49) but `AddRequiredBy` stores it again under its full name (brew/map.go:98), so a package whose two names differ can keep a line after removal (`CmdRemove.RemoveLeavesTwin`).
- BrewCacheMap.CacheMap.AddRequiredBy: requires metadata and entries ranked (acyclic dependencies), because the source recursion has no visited set and does not end on a cycle.
- BrewCacheMap.CacheMap.ResolveRequiredDependencyMap: requires ranked metadata and entries, for the same reason.
- BrewCacheMap.CacheMap.Add: requires ranked metadata and entries, and that the caller's entry carries only ranked dependencies (every caller passes `Entry{Name: n}`), because the recursion into Add and addRequiredBy has no visited set.
- BrewCacheMap.CacheMap.Remove: requires a ranked map kept under entry names, with rank("") == 0. `FromPackages` builds such maps (`BrewIngest.IngestKeysNamed`). The only other key is the zero entry under "", which has no dependencies. The cascade has no visited set.
- BrewMap.Map.AddRequiredBy: requires a ranked record list and entries, because the recursion has no visited set. The ranking also excludes inputs without any dependency cycle on which brew/map.go never returns: a core `foo` next to a tap `u/t/foo` that depends on `foo` (see Findings; `BrewMap.TwinUnranked`, `BrewMap.ShortKeyLoops`).
- BrewMap.Map.ResolveDependencies: requires a ranked record list and entries, for the same two reasons. A Brewfile line `brew 'u/t/foo'` with those records is stored under `foo` (brew/map.go:49) and loops at :59.
- BrewMap.Map.Add: requires a ranked record list and entries, for the same two reasons. `Add("u/t/foo")` with those records stores under `foo` (brew/map.go:161) and loops at :165.
- BrewCacheMap.CacheMap.FromPackages: requires every line to hold a quoted name, because the slice at brew/cacheMap.go:25-26 panics otherwise. BrewMap.Map.FromBrewfile and CmdClean.Clean carry the same requirement.
- BrewEntry.FormatHashIff: holds for names and options without `#`. A name containing `#` would be grouped as a dependent brew by `Bytes` without any back-reference.
- BrewClosure.ResolveAnnotates: stated for a lookup keyed by full names (`Keyed`), as the bolt cache is, so that an entry is stored under the key it is looked up by.

## Findings

| source | as written | input that shows it | evidently intended | confidence | as-written member | corrected member |
|---|---|---|---|---|---|---|
| cmd/add.go:128 | the tap format test is given `packageType`, which is always "tap" on that branch | `bfm add -t homebrew/dupes`, the help text's own example (cmd/add.go:75), is rejected as an unrecognised tap format | test the name being added, `packageToAdd` | not executed | CmdAdd.TapAlwaysRejected | CmdAdd.AddTap |
| brew/map.go:49, :98, :161 | `Map` stores an entry under its record's short name (:49, :161), but `AddRequiredBy` stores it under the entry's name, the full name (:98), and looks targets up by the name it is given (:80, :89) | records `{Name: foo, FullName: foo}` and `{Name: foo, FullName: u/t/foo, Dependencies: [foo]}`; `Add("u/t/foo")` stores the tap entry under `foo` and `AddRequiredBy("foo", "u/t/foo")` repeats itself for ever (:102), though the metadata has no cycle | key entries by full name, as the cache-backed revision does (brew/cacheMap.go:50, :93) | not executed | BrewMap.ShortKeyLoops | BrewMap.TwinKeyedEnds |
