/** The --level setting of the root command: a level name, in any case,
    read as one of the four dependency levels. */
module CmdRoot {
  import opened Base
  import opened GoStrings

  /** The dependency levels, in the order brew/constants.go numbers them. */
  const Required := 0
  const Recommended := 1
  const Optional := 2
  const Build := 3

  /** The name a level is written as, in lower case. */
  function LevelName(level: nat): string
    requires level <= Build
  {
    if level == Required then "required"
    else if level == Recommended then "recommended"
    else if level == Optional then "optional"
    else "build"
  }

  /** resolveDependencyLevel: the level whose name the string is, ignoring
      the case of ASCII letters; (0, DependencyLevelNotSet) for anything else. */
  function ResolveDependencyLevel(level: string): (r: (int, Option<Error>))
    ensures r.1.None? <==> exists l | 0 <= l <= Build :: ToLower(level) == LevelName(l)
    ensures forall l | 0 <= l <= Build :: ToLower(level) == LevelName(l) ==> r == (l, None)
    ensures r.1.Some? ==> r == (0, Some(DependencyLevelNotSet))
  {
    NamesDistinct();
    var lower := ToLower(level);
    if lower == LevelName(Required) then (Required, None)
    else if lower == LevelName(Recommended) then (Recommended, None)
    else if lower == LevelName(Optional) then (Optional, None)
    else if lower == LevelName(Build) then (Build, None)
    else
      assert forall l | 0 <= l <= Build :: lower != LevelName(l);
      (0, Some(DependencyLevelNotSet))
  }

  /** The four names are different. */
  lemma NamesDistinct()
    ensures forall l, m | 0 <= l < m <= Build :: LevelName(l) != LevelName(m)
  {
    assert |LevelName(Required)| == 8 && |LevelName(Recommended)| == 11;
    assert |LevelName(Optional)| == 8 && |LevelName(Build)| == 5;
    assert LevelName(Required)[0] == 'r' && LevelName(Optional)[0] == 'o';
  }

  /** Lowering the case twice is lowering it once. */
  lemma ToLowerIdempotent(s: string)
    ensures ToLower(ToLower(s)) == ToLower(s)
  {
    var once := ToLower(s);
    var twice := ToLower(once);
    forall k | 0 <= k < |s| ensures twice[k] == once[k] {
      assert !('A' <= once[k] <= 'Z');
    }
  }

  /** Names already in lower case are left as they are. */
  lemma LevelNamesLower(level: nat)
    requires level <= Build
    ensures ToLower(LevelName(level)) == LevelName(level)
  {
    var n := LevelName(level);
    forall k | 0 <= k < |n| ensures !('A' <= n[k] <= 'Z') {
    }
    assert ToLower(n) == n;
  }

  /** Each level's name reads back as that level. */
  lemma LevelRoundTrip(level: nat)
    requires level <= Build
    ensures ResolveDependencyLevel(LevelName(level)) == (level, None)
  {
    LevelNamesLower(level);
  }

  /** The case of the setting does not matter. */
  lemma CaseInsensitive(level: string)
    ensures ResolveDependencyLevel(ToLower(level)) == ResolveDependencyLevel(level)
  {
    ToLowerIdempotent(level);
  }

  lemma LevelExample()
    ensures ResolveDependencyLevel("Optional") == (Optional, None)
  {
    var lower := ToLower("Optional");
    assert lower[0] == 'o';
    assert lower == "optional";
    assert LevelName(Optional) == "optional";
  }

  lemma UnknownLevelExample()
    ensures ResolveDependencyLevel("all") == (0, Some(DependencyLevelNotSet))
  {
    assert ToLower("all") == "all";
  }
}
