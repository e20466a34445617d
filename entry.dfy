/** One tracked package of the dependency graph: what it depends on, split
    into four classes, which packages point back at it, and how it is
    written back as a Brewfile `brew` line. */
module BrewEntry {
  import opened GoStrings
  import opened BrewHelpers
  import opened BrewInfo

  datatype Entry = Entry(
    Args: seq<string>,
    BuildDependencies: seq<string>,
    BuildOf: seq<string>,
    Name: string,
    OptionalDependencies: seq<string>,
    OptionalFor: seq<string>,
    RecommendedDependencies: seq<string>,
    RecommendedFor: seq<string>,
    RequiredBy: seq<string>,
    RequiredDependencies: seq<string>,
    RestartService: string)

  /** Go's zero value `Entry{}`. */
  const Zero: Entry := Entry([], [], [], "", [], [], [], [], [], [], "")

  /** `Entry{Name: n}`. */
  function Stub(n: string): Entry {
    Zero.(Name := n)
  }

  /** Every name an entry depends on, whatever the class. */
  function Deps(e: Entry): seq<string> {
    e.RequiredDependencies + e.RecommendedDependencies + e.OptionalDependencies + e.BuildDependencies
  }

  /** The entry carries no dependency of any class. */
  predicate NoDeps(e: Entry) {
    e.RequiredDependencies == [] && e.RecommendedDependencies == []
      && e.OptionalDependencies == [] && e.BuildDependencies == []
  }

  /** Removes, one after the other, the first occurrence of each of `rs`. */
  function RemoveEach(s: seq<string>, rs: seq<string>): seq<string>
    decreases |rs|
  {
    if |rs| == 0 then s else Remove(RemoveEach(s, rs[..|rs| - 1]), rs[|rs| - 1])
  }

  /** The classification DetermineDependencies computes: every dependency is
      first required, and each optional, build and recommended name then
      moves out of the required list to its own class. */
  function Classify(e: Entry, i: Info): Entry {
    var all := e.RequiredDependencies + i.Dependencies;
    var afterOptional := RemoveEach(all, i.OptionalDependencies);
    var afterBuild := RemoveEach(afterOptional, i.BuildDependencies);
    e.(RequiredDependencies := RemoveEach(afterBuild, i.RecommendedDependencies),
       OptionalDependencies := e.OptionalDependencies + i.OptionalDependencies,
       BuildDependencies := e.BuildDependencies + i.BuildDependencies,
       RecommendedDependencies := e.RecommendedDependencies + i.RecommendedDependencies)
  }

  /** One of the three loops of DetermineDependencies: each name moves
      from the required list to its class, in metadata order. */
  method MoveEach(required: seq<string>, group: seq<string>, names: seq<string>)
    returns (required': seq<string>, group': seq<string>)
    ensures required' == RemoveEach(required, names)
    ensures group' == group + names
  {
    required', group' := required, group;
    for k := 0 to |names|
      invariant required' == RemoveEach(required, names[..k])
      invariant group' == group + names[..k]
    {
      required' := Remove(required', names[k]);
      group' := group' + [names[k]];
      assert names[..k + 1][..k] == names[..k];
      assert names[..k + 1] == names[..k] + [names[k]];
    }
    assert names[..|names|] == names;
  }

  /** Entry.DetermineDependencies: every dependency is appended to the
      required list, then the optional, build and recommended names move to
      their own classes. */
  method DetermineDependencies(e: Entry, i: Info) returns (r: Entry)
    ensures r == Classify(e, i)
  {
    var required := e.RequiredDependencies;
    for k := 0 to |i.Dependencies|
      invariant required == e.RequiredDependencies + i.Dependencies[..k]
    {
      required := required + [i.Dependencies[k]];
      assert i.Dependencies[..k + 1] == i.Dependencies[..k] + [i.Dependencies[k]];
    }
    assert i.Dependencies[..|i.Dependencies|] == i.Dependencies;
    var optional, build, recommended;
    required, optional := MoveEach(required, e.OptionalDependencies, i.OptionalDependencies);
    required, build := MoveEach(required, e.BuildDependencies, i.BuildDependencies);
    required, recommended := MoveEach(required, e.RecommendedDependencies, i.RecommendedDependencies);
    r := e.(RequiredDependencies := required, OptionalDependencies := optional,
            BuildDependencies := build, RecommendedDependencies := recommended);
  }

  /** Entry.FromInfo as a value: the name becomes the full name, then the
      dependencies are classified. */
  function FromInfo(e: Entry, i: Info): Entry {
    Classify(e.(Name := i.FullName), i)
  }

  /** Entry.FromInfo. */
  method FromInfoMethod(e: Entry, i: Info) returns (r: Entry)
    ensures r == FromInfo(e, i)
  {
    r := e.(Name := i.FullName);
    r := DetermineDependencies(r, i);
  }

  /** FromInfo sets the name to the full name, appends the three specific
      classes in metadata order and touches neither the arguments, the
      restart option nor any of the four back-reference lists. */
  lemma FromInfoFields(e: Entry, i: Info)
    ensures FromInfo(e, i).Name == i.FullName
    ensures FromInfo(e, i).OptionalDependencies == e.OptionalDependencies + i.OptionalDependencies
    ensures FromInfo(e, i).BuildDependencies == e.BuildDependencies + i.BuildDependencies
    ensures FromInfo(e, i).RecommendedDependencies == e.RecommendedDependencies + i.RecommendedDependencies
    ensures FromInfo(e, i).Args == e.Args && FromInfo(e, i).RestartService == e.RestartService
    ensures FromInfo(e, i).RequiredBy == e.RequiredBy && FromInfo(e, i).RecommendedFor == e.RecommendedFor
    ensures FromInfo(e, i).OptionalFor == e.OptionalFor && FromInfo(e, i).BuildOf == e.BuildOf
  {
  }

  lemma {:induction false} RemoveEachMultiset(s: seq<string>, rs: seq<string>)
    ensures multiset(RemoveEach(s, rs)) == multiset(s) - multiset(rs)
    decreases |rs|
  {
    if |rs| > 0 {
      var front, last := rs[..|rs| - 1], rs[|rs| - 1];
      var t := RemoveEach(s, front);
      RemoveEachMultiset(s, front);
      RemoveMultiset(t, last);
      SplitLast(rs);
      MinusTwice(multiset(s), multiset(front), last);
    }
  }

  lemma SplitLast(rs: seq<string>)
    requires |rs| > 0
    ensures multiset(rs) == multiset(rs[..|rs| - 1]) + multiset{rs[|rs| - 1]}
  { assert rs == rs[..|rs| - 1] + [rs[|rs| - 1]]; }

  /** Taking away a multiset and then one more element is taking away both. */
  lemma MinusTwice(a: multiset<string>, b: multiset<string>, x: string)
    ensures (a - b) - multiset{x} == a - (b + multiset{x})
  {
  }

  lemma {:induction false} RemoveEachSubsequence(s: seq<string>, rs: seq<string>)
    ensures Subsequence(RemoveEach(s, rs), s)
    decreases |rs|
  {
    if |rs| == 0 {
      SubsequenceReflexive(s);
    } else {
      var front := rs[..|rs| - 1];
      RemoveEachSubsequence(s, front);
      RemoveSubsequence(RemoveEach(s, front), rs[|rs| - 1]);
      SubsequenceTransitive(RemoveEach(s, rs), RemoveEach(s, front), s);
    }
  }

  /** The required list is the dependency list minus one copy of each
      optional, build and recommended name, in the order of the dependency
      list. */
  lemma RequiredDependencies(e: Entry, i: Info)
    ensures multiset(Classify(e, i).RequiredDependencies)
      == multiset(e.RequiredDependencies + i.Dependencies) - multiset(i.OptionalDependencies)
         - multiset(i.BuildDependencies) - multiset(i.RecommendedDependencies)
    ensures Subsequence(Classify(e, i).RequiredDependencies, e.RequiredDependencies + i.Dependencies)
  {
    var all := e.RequiredDependencies + i.Dependencies;
    var afterOptional := RemoveEach(all, i.OptionalDependencies);
    var afterBuild := RemoveEach(afterOptional, i.BuildDependencies);
    RemoveEachMultiset(all, i.OptionalDependencies);
    RemoveEachMultiset(afterOptional, i.BuildDependencies);
    RemoveEachMultiset(afterBuild, i.RecommendedDependencies);
    RemoveEachSubsequence(all, i.OptionalDependencies);
    RemoveEachSubsequence(afterOptional, i.BuildDependencies);
    RemoveEachSubsequence(afterBuild, i.RecommendedDependencies);
    SubsequenceTransitive(afterBuild, afterOptional, all);
    SubsequenceTransitive(Classify(e, i).RequiredDependencies, afterBuild, all);
  }

  /** Removal is first-occurrence only: a name listed twice as a dependency
      and once as optional stays required once. */
  lemma TwiceListedStaysRequired(i: Info, d: string)
    requires multiset(i.Dependencies)[d] == 2 && multiset(i.OptionalDependencies)[d] == 1
    requires d !in i.BuildDependencies && d !in i.RecommendedDependencies
    ensures multiset(FromInfo(Zero, i).RequiredDependencies)[d] == 1
  {
    var z := Zero.(Name := i.FullName);
    RequiredDependencies(z, i);
    assert z.RequiredDependencies + i.Dependencies == i.Dependencies;
    var afterOptional := multiset(i.Dependencies) - multiset(i.OptionalDependencies);
    assert afterOptional[d] == 1;
    var afterBuild := afterOptional - multiset(i.BuildDependencies);
    assert afterBuild[d] == 1;
    assert (afterBuild - multiset(i.RecommendedDependencies))[d] == 1;
  }

  lemma {:induction false} RemoveEachSubset(s: seq<string>, rs: seq<string>)
    ensures forall x | x in RemoveEach(s, rs) :: x in s
    decreases |rs|
  {
    if |rs| > 0 {
      RemoveEachSubset(s, rs[..|rs| - 1]);
      RemoveSubset(RemoveEach(s, rs[..|rs| - 1]), rs[|rs| - 1]);
    }
  }

  /** Every dependency FromInfo records is one the entry already had or
      one the metadata lists. */
  lemma FromInfoDeps(e: Entry, i: Info)
    ensures forall d | d in Deps(FromInfo(e, i)) :: d in Deps(e) || d in AllDeps(i)
  {
    var all := e.RequiredDependencies + i.Dependencies;
    var afterOptional := RemoveEach(all, i.OptionalDependencies);
    var afterBuild := RemoveEach(afterOptional, i.BuildDependencies);
    RemoveEachSubset(all, i.OptionalDependencies);
    RemoveEachSubset(afterOptional, i.BuildDependencies);
    RemoveEachSubset(afterBuild, i.RecommendedDependencies);
  }

  /** Removing the name at index 1 of a list whose head differs from it. */
  lemma RemoveSecond(s: seq<string>)
    requires |s| >= 2 && s[0] != s[1]
    ensures RemoveEach(s, [s[1]]) == [s[0]] + s[2..]
  {
    assert FirstIndex(s, s[1]) == 1;
    assert [s[1]][..0] == [];
  }

  /** Removing two names, the second after the first. */
  lemma RemoveEachPair(s: seq<string>, x: string, y: string)
    ensures RemoveEach(s, [x, y]) == Remove(RemoveEach(s, [x]), y)
  {
    assert [x, y][..1] == [x];
  }

  lemma MixedOptional()
    ensures RemoveEach(["b", "c", "d", "e", "f"], ["c"]) == ["b", "d", "e", "f"]
  {
    RemoveSecond(["b", "c", "d", "e", "f"]);
  }

  lemma MixedBuild()
    ensures RemoveEach(["b", "d", "e", "f"], ["d"]) == ["b", "e", "f"]
  {
    RemoveSecond(["b", "d", "e", "f"]);
  }

  lemma MixedRecommended()
    ensures RemoveEach(["b", "e", "f"], ["e", "f"]) == ["b"]
  {
    RemoveEachPair(["b", "e", "f"], "e", "f");
    RemoveSecond(["b", "e", "f"]);
    assert FirstIndex(["b", "f"], "f") == 1;
  }

  /** The metadata of the test for mixed classes: b, c, d, e and f, with c
      optional, d build and e and f recommended, leave only b required. */
  lemma ClassifyMixedExample()
    ensures FromInfo(Zero, Info("", "a", "", [], ["b", "c", "d", "e", "f"], ["e", "f"], ["c"], ["d"]))
              .RequiredDependencies == ["b"]
  {
    var deps: seq<string> := ["b", "c", "d", "e", "f"];
    assert [] + deps == deps;
    MixedOptional();
    MixedBuild();
    MixedRecommended();
  }

  // Rendering

  /** The `args:` clause, present when there are arguments. */
  function ArgsClause(args: seq<string>): string {
    if |args| > 0 then ", args: ['" + Join(args, "', '") + "']" else ""
  }

  /** The `restart_service:` clause, present when the option is set. */
  function RestartClause(r: string): string {
    if |r| > 0 then ", restart_service: " + r else ""
  }

  /** A back-reference annotation, present when the list is non-empty. */
  function Annotation(tag: string, names: seq<string>): string {
    if |names| > 0 then " [" + tag + ": " + Join(names, ", ") + "]" else ""
  }

  predicate HasBackReferences(e: Entry) {
    |e.RequiredBy| > 0 || |e.RecommendedFor| > 0 || |e.OptionalFor| > 0 || |e.BuildOf| > 0
  }

  /** Entry.Format: the text the template renders, whitespace trimmed as
      the template's `{{-` and `-}}` markers trim it. */
  function Format(e: Entry): string {
    "brew '" + e.Name + "'" + ArgsClause(e.Args) + RestartClause(e.RestartService)
      + (if HasBackReferences(e) then " #" else "")
      + Annotation("required by", e.RequiredBy)
      + Annotation("recommended for", e.RecommendedFor)
      + Annotation("optional for", e.OptionalFor)
      + Annotation("build for", e.BuildOf)
  }

  /** An entry with only a name renders as the bare line. */
  lemma FormatBare(n: string)
    ensures Format(Stub(n)) == "brew '" + n + "'"
  {
  }

  /** Arguments, a restart option and requesters, rendered in that order;
      the requesters keep their stored order and take the bracketed form. */
  lemma FormatExample()
    ensures Format(Zero.(Name := "a", Args := ["with-tests"], RestartService := ":changed",
                         RequiredBy := ["z", "y"]))
      == "brew 'a'" + ", args: ['with-tests']" + ", restart_service: :changed" + " #"
         + " [required by: z, y]"
  {
    var e := Zero.(Name := "a", Args := ["with-tests"], RestartService := ":changed", RequiredBy := ["z", "y"]);
    assert ArgsClause(e.Args) == ", args: ['with-tests']";
    assert RestartClause(e.RestartService) == ", restart_service: :changed";
    assert Join(["z", "y"], ", ") == "z" + ", " + "y";
    assert Annotation("required by", e.RequiredBy) == " [required by: z, y]";
    assert Annotation("recommended for", e.RecommendedFor) == "";
    assert Annotation("optional for", e.OptionalFor) == "";
    assert Annotation("build for", e.BuildOf) == "";
    assert HasBackReferences(e);
    assert Format(e) == "brew 'a'" + ", args: ['with-tests']" + ", restart_service: :changed" + " #"
      + " [required by: z, y]" + "" + "" + "";
  }

  /** Every rendered line starts with the base entry for its name, which is
      what the remove command matches on. */
  lemma FormatPrefix(e: Entry)
    ensures HasPrefix(Format(e), "brew '" + e.Name + "'")
  {
    var head := "brew '" + e.Name + "'";
    assert Format(e)[..|head|] == head;
  }

  lemma {:induction false} JoinChars(parts: seq<string>, sep: string, c: char)
    requires c !in sep
    requires forall k :: 0 <= k < |parts| ==> c !in parts[k]
    ensures c !in Join(parts, sep)
  {
    if |parts| > 1 {
      JoinChars(parts[1..], sep, c);
    }
  }

  /** Names that cannot be mistaken for the comment marker. */
  predicate HashFree(names: seq<string>) {
    forall k :: 0 <= k < |names| ==> '#' !in names[k]
  }

  lemma AnnotationHashFree(tag: string, names: seq<string>)
    requires '#' !in tag && HashFree(names)
    ensures '#' !in Annotation(tag, names)
  {
    JoinChars(names, ", ", '#');
  }

  /** A rendered line carries the `#` marker (what Packages.Bytes sorts the
      dependent brews by) exactly when the entry has a back-reference, as
      long as none of its own strings contains `#`. */
  lemma FormatHashIff(e: Entry)
    requires '#' !in e.Name && '#' !in e.RestartService && HashFree(e.Args)
    requires HashFree(e.RequiredBy) && HashFree(e.RecommendedFor)
    requires HashFree(e.OptionalFor) && HashFree(e.BuildOf)
    ensures '#' in Format(e) <==> HasBackReferences(e)
  {
    JoinChars(e.Args, "', '", '#');
    AnnotationHashFree("required by", e.RequiredBy);
    AnnotationHashFree("recommended for", e.RecommendedFor);
    AnnotationHashFree("optional for", e.OptionalFor);
    AnnotationHashFree("build for", e.BuildOf);
    var head := "brew '" + e.Name + "'" + ArgsClause(e.Args) + RestartClause(e.RestartService);
    assert '#' !in head;
    if HasBackReferences(e) {
      assert Format(e)[|head| + 1] == '#';
    }
  }
}
