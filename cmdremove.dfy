/** The remove command's two package branches: the lines of a tap, cask
    or mas app dropped from their section by their base entry, and a brew
    taken out of the dependency map with the brew section rendered again. */
module CmdRemove {
  import opened Base
  import opened GoStrings
  import opened BrewEntry
  import opened BrewGraph
  import opened CmdHelpers
  import BrewHelpers
  import CmdAdd
  import BrewMap
  import BrewPruning

  /** The lines that do not start with `entry`, in their order. */
  function Unmatched(entry: string, packages: seq<string>): seq<string>
    decreases |packages|
  {
    if |packages| == 0 then []
    else (if HasPrefix(packages[0], entry) then [] else [packages[0]]) + Unmatched(entry, packages[1..])
  }

  /** removePackage: keep every line that does not start with the base
      entry of the package. */
  method RemovePackage(t: string, n: string, packages: seq<string>) returns (updated: seq<string>)
    ensures updated == Unmatched(BaseEntry(t, n), packages)
  {
    updated := [];
    var entry := BaseEntry(t, n);
    var i := 0;
    while i < |packages|
      invariant 0 <= i <= |packages|
      invariant updated + Unmatched(entry, packages[i..]) == Unmatched(entry, packages)
    {
      assert packages[i..][1..] == packages[i + 1..];
      if !HasPrefix(packages[i], entry) {
        updated := updated + [packages[i]];
      }
      i := i + 1;
    }
    assert packages[i..] == [];
  }

  /** A line survives, as often as it occurred, exactly when it does not
      start with the entry. */
  lemma {:induction false} UnmatchedExactly(entry: string, packages: seq<string>, x: string)
    ensures multiset(Unmatched(entry, packages))[x] == if HasPrefix(x, entry) then 0 else multiset(packages)[x]
    ensures x in Unmatched(entry, packages) <==> x in packages && !HasPrefix(x, entry)
    decreases |packages|
  {
    if |packages| > 0 {
      UnmatchedExactly(entry, packages[1..], x);
      assert packages == [packages[0]] + packages[1..];
      assert multiset(packages) == multiset{packages[0]} + multiset(packages[1..]);
    } else {
      assert multiset(packages) == multiset{};
    }
  }

  /** The surviving lines keep their relative order. */
  lemma {:induction false} UnmatchedInOrder(entry: string, packages: seq<string>)
    ensures BrewHelpers.Subsequence(Unmatched(entry, packages), packages)
    decreases |packages|
  {
    if |packages| > 0 {
      UnmatchedInOrder(entry, packages[1..]);
      var rest := Unmatched(entry, packages[1..]);
      if HasPrefix(packages[0], entry) {
        assert Unmatched(entry, packages) == rest;
        BrewHelpers.SubsequenceTail(rest, packages);
      } else {
        assert ([packages[0]] + rest)[1..] == rest;
      }
    }
  }

  /** Removing never adds lines, and removing twice is removing once. */
  lemma {:induction false} UnmatchedIdempotent(entry: string, packages: seq<string>)
    ensures |Unmatched(entry, packages)| <= |packages|
    ensures Unmatched(entry, Unmatched(entry, packages)) == Unmatched(entry, packages)
    decreases |packages|
  {
    if |packages| > 0 {
      UnmatchedIdempotent(entry, packages[1..]);
      var rest := Unmatched(entry, packages[1..]);
      if !HasPrefix(packages[0], entry) {
        assert ([packages[0]] + rest)[1..] == rest;
      } else {
        assert Unmatched(entry, packages) == rest;
      }
    }
  }

  lemma UnmatchedAppend(entry: string, packages: seq<string>, x: string)
    ensures Unmatched(entry, packages + [x])
      == Unmatched(entry, packages) + (if HasPrefix(x, entry) then [] else [x])
    decreases |packages|
  {
    if |packages| == 0 {
      assert [x][1..] == [];
    } else {
      assert (packages + [x])[1..] == packages[1..] + [x];
      UnmatchedAppend(entry, packages[1..], x);
    }
  }

  /** Removing a package the add command has just appended gives the
      section without it: removal undoes addPackage. */
  lemma RemoveUndoesAdd(t: string, n: string, id: string, packages: seq<string>)
    ensures Unmatched(BaseEntry(t, n), CmdAdd.AddPackage(t, n, id, packages))
      == Unmatched(BaseEntry(t, n), packages)
  {
    var r := CmdAdd.AddPackage(t, n, id, packages);
    CmdAdd.AddPackageAppends(t, n, id, packages);
    assert r == packages + [r[|packages|]];
    UnmatchedAppend(BaseEntry(t, n), packages, r[|packages|]);
  }

  /** The closing quote of the base entry keeps `vim-x` when `vim` is
      removed, while every line for `vim` itself goes, whatever follows
      the name. */
  lemma RemoveExamples()
    ensures Unmatched(BaseEntry("brew", "vim"), ["brew 'vim-x'", "brew 'vim', args: ['HEAD']"])
      == ["brew 'vim-x'"]
    ensures Unmatched(BaseEntry("brew", "bfm"), ["brew 'vim'", "brew 'bfm'"]) == ["brew 'vim'"]
  {
    var vim := BaseEntry("brew", "vim");
    assert vim == "brew 'vim'";
    assert !HasPrefix("brew 'vim-x'", vim) by {
      assert "brew 'vim-x'"[..|vim|] != vim by {
        assert "brew 'vim-x'"[9] == '-' && vim[9] == '\'';
      }
    }
    assert HasPrefix("brew 'vim', args: ['HEAD']", vim);
    var pair := ["brew 'vim-x'", "brew 'vim', args: ['HEAD']"];
    assert pair[1..][1..] == [];
    var bfm := BaseEntry("brew", "bfm");
    assert bfm == "brew 'bfm'";
    assert !HasPrefix("brew 'vim'", bfm) by {
      assert "brew 'vim'"[6] == 'v' && bfm[6] == 'b';
    }
    var two := ["brew 'vim'", "brew 'bfm'"];
    assert two[1..][1..] == [];
  }

  /** removeBrewPackage: Map.Remove, then the map rendered as sorted
      lines. An untracked package ends the command with the error. */
  method RemoveBrewPackage(remove: string, m: BrewMap.Map, cache: seq<BrewInfo.Info>)
    returns (r: Result<seq<string>>)
    modifies m
    ensures m.Entries == MapRemove(old(m.Entries), remove)
    ensures r == if remove in old(m.Entries) then Ok(Rendered(m.Entries)) else Err(NothingToRemove)
  {
    var err := m.Remove(remove, cache);
    if err.Some? {
      return Err(err.value);
    }
    var lines := FormatLines(m.Entries);
    r := Ok(lines);
  }

  /** After a removal every other tracked package still has its line, and
      no line is rendered from the removed key. */
  lemma RemovedRendered(m: Graph, remove: string)
    ensures var r := MapRemove(m, remove);
      (forall k | k in m && k != remove :: k in r && Format(r[k]) in Rendered(r))
      && forall x | x in Rendered(r) :: exists k | k in r && k != remove :: x == Format(r[k])
  {
    var r := MapRemove(m, remove);
    BrewPruning.MapRemoveDeletes(m, remove);
    RenderedLines(r);
  }

  /** A line starts with the base entry of at most one quote-free name. */
  lemma BasePrefixUnique(s: string, a: string, b: string)
    requires '\'' !in a && '\'' !in b
    requires HasPrefix(s, BaseEntry("brew", a)) && HasPrefix(s, BaseEntry("brew", b))
    ensures a == b
  {
    var ea, eb := BaseEntry("brew", a), BaseEntry("brew", b);
    assert s[..|ea|] == ea && s[..|eb|] == eb;
    assert forall i | 0 <= i < |a| :: s[6 + i] == ea[6 + i] == a[i];
    assert forall i | 0 <= i < |b| :: s[6 + i] == eb[6 + i] == b[i];
    assert s[6 + |a|] == ea[6 + |a|] == '\'' && s[6 + |b|] == eb[6 + |b|] == '\'';
    assert forall i | 0 <= i < |a| :: a[i] != '\'';
    assert forall i | 0 <= i < |b| :: b[i] != '\'';
    assert |a| == |b|;
  }

  /** On a map keyed by quote-free entry names, the removed package's line
      is no longer rendered. */
  lemma RemovedLineGone(m: Graph, remove: string)
    requires KeysNamed(m) && forall k | k in m :: '\'' !in k
    ensures remove in m ==> Format(m[remove]) !in Rendered(MapRemove(m, remove))
  {
    if remove in m {
      var r := MapRemove(m, remove);
      BrewPruning.MapRemoveDetaches(m, remove);
      RenderedLines(r);
      if Format(m[remove]) in Rendered(r) {
        var k :| k in r && Format(m[remove]) == Format(r[k]);
        assert k in m - {remove} || k == "";
        assert r[k].Name == k && '\'' !in k;
        FormatStartsWithBase(m[remove]);
        FormatStartsWithBase(r[k]);
        BasePrefixUnique(Format(r[k]), remove, k);
        assert false;
      }
    }
  }

  /** Without that keying the line can stay: an entry stored under its short
      name and again under its full name, as Map.FromBrewfile and
      Map.AddRequiredBy store it, keeps its line after the short name is
      removed. */
  lemma RemoveLeavesTwin()
    ensures var e := Zero.(Name := "u/t/foo");
      var m := map["foo" := e, "u/t/foo" := e];
      "foo" in m && Format(m["foo"]) in Rendered(MapRemove(m, "foo"))
  {
    var e := Zero.(Name := "u/t/foo");
    var m := map["foo" := e, "u/t/foo" := e];
    assert e.RequiredDependencies == [];
    var r := MapRemove(m, "foo");
    assert r == map["u/t/foo" := e];
    RenderedLines(r);
    assert "u/t/foo" in r && r["u/t/foo"] == m["foo"];
  }
}
