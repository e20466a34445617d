/** The Brewfile as four sorted sections of lines, one per package kind,
    and the text written back to disk: taps, brews without a dependency
    comment, brews with one, casks and mas apps, each non-empty section a
    block of lines ending in newlines, the blocks separated by blank lines. */
module BrewfilePackages {
  import opened GoStrings
  import BrewHelpers

  /** separate(t, lines): the lines that start with `t`, in their order. */
  function Kept(t: string, lines: seq<string>): seq<string>
    decreases |lines|
  {
    if |lines| == 0 then []
    else (if HasPrefix(lines[0], t) then [lines[0]] else []) + Kept(t, lines[1..])
  }

  /** The lines that do (`marked`) or do not carry the `#` comment marker. */
  function Group(brews: seq<string>, marked: bool): seq<string>
    decreases |brews|
  {
    if |brews| == 0 then []
    else (if Contains(brews[0], "#") == marked then [brews[0]] else []) + Group(brews[1..], marked)
  }

  /** The text the `entries` template renders for a section: each line
      followed by a newline (the template's `{{-` and `-}}` trim the
      newlines around the range markers). */
  function Section(lines: seq<string>): string
    decreases |lines|
  {
    if |lines| == 0 then "" else lines[0] + "\n" + Section(lines[1..])
  }

  /** A section's rendered block, or nothing when the section is empty
      (an empty buffer is not appended). */
  function Block(lines: seq<string>): seq<string> {
    if |lines| > 0 then [Section(lines)] else []
  }

  /** The rendered sections that are not empty, in order. */
  function Blocks(sections: seq<seq<string>>): seq<string>
    decreases |sections|
  {
    if |sections| == 0 then [] else Block(sections[0]) + Blocks(sections[1..])
  }

  /** The five sections Bytes writes, in output order. */
  function Sections(tap: seq<string>, brew: seq<string>, cask: seq<string>, mas: seq<string>): seq<seq<string>> {
    [tap, Group(brew, false), Group(brew, true), cask, mas]
  }

  /** Packages.Bytes as a value: the non-empty blocks joined by newlines. */
  function Render(tap: seq<string>, brew: seq<string>, cask: seq<string>, mas: seq<string>): string {
    Join(Blocks(Sections(tap, brew, cask, mas)), "\n")
  }

  class Packages {
    var Tap: seq<string>
    var Brew: seq<string>
    var Cask: seq<string>
    var Mas: seq<string>

    constructor(tap: seq<string>, brew: seq<string>, cask: seq<string>, mas: seq<string>)
      ensures Tap == tap && Brew == brew && Cask == cask && Mas == mas
    {
      Tap, Brew, Cask, Mas := tap, brew, cask, mas;
    }

    /** FromBrewfile on the file's contents: split into lines, keep each
        kind's lines and sort every section. */
    method FromBrewfile(contents: string)
      modifies this
      ensures Tap == SortStrings(Kept("tap", Split(contents, '\n')))
      ensures Brew == SortStrings(Kept("brew", Split(contents, '\n')))
      ensures Cask == SortStrings(Kept("cask", Split(contents, '\n')))
      ensures Mas == SortStrings(Kept("mas", Split(contents, '\n')))
    {
      var lines := Split(contents, '\n');
      Tap := ReadSection("tap", lines);
      Brew := ReadSection("brew", lines);
      Cask := ReadSection("cask", lines);
      Mas := ReadSection("mas", lines);
    }

    /** Bytes: group the brews by the comment marker, render the five
        sections and join the non-empty ones. */
    method Bytes() returns (out: string)
      ensures out == Render(Tap, Brew, Cask, Mas)
    {
      var primary, dependent := GroupBrews(Brew);
      var lines: seq<string> := [];
      lines := AppendBuffer(lines, Tap);
      lines := AppendBuffer(lines, primary);
      lines := AppendBuffer(lines, dependent);
      lines := AppendBuffer(lines, Cask);
      lines := AppendBuffer(lines, Mas);
      BlocksOfFive(Sections(Tap, Brew, Cask, Mas));
      assert lines == Blocks(Sections(Tap, Brew, Cask, Mas));
      out := Join(lines, "\n");
    }
  }

  /** One section of Bytes: render it into a buffer and keep the buffer
      when it is not empty. */
  method AppendBuffer(lines: seq<string>, section: seq<string>) returns (r: seq<string>)
    ensures r == lines + Block(section)
  {
    var buffer := Section(section);
    SectionEmpty(section);
    r := lines;
    if |buffer| > 0 {
      r := r + [buffer];
    }
  }

  /** The loop of Bytes that sorts the brews into the two groups. */
  method GroupBrews(brews: seq<string>) returns (primary: seq<string>, dependent: seq<string>)
    ensures primary == Group(brews, false) && dependent == Group(brews, true)
  {
    primary, dependent := [], [];
    var i := 0;
    while i < |brews|
      invariant 0 <= i <= |brews|
      invariant primary + Group(brews[i..], false) == Group(brews, false)
      invariant dependent + Group(brews[i..], true) == Group(brews, true)
    {
      assert brews[i..][1..] == brews[i + 1..];
      if Contains(brews[i], "#") {
        dependent := dependent + [brews[i]];
      } else {
        primary := primary + [brews[i]];
      }
      i := i + 1;
    }
    assert brews[i..] == [];
  }

  /** One section as FromBrewfile reads it: the lines of one kind, sorted. */
  method ReadSection(t: string, lines: seq<string>) returns (section: seq<string>)
    ensures section == SortStrings(Kept(t, lines))
  {
    section := Separate(t, lines);
    section := SortStrings(section);
  }

  /** separate: the loop that appends every line with the prefix. */
  method Separate(t: string, lines: seq<string>) returns (packages: seq<string>)
    ensures packages == Kept(t, lines)
  {
    packages := [];
    var i := 0;
    while i < |lines|
      invariant 0 <= i <= |lines|
      invariant packages + Kept(t, lines[i..]) == Kept(t, lines)
    {
      assert lines[i..][1..] == lines[i + 1..];
      if HasPrefix(lines[i], t) {
        packages := packages + [lines[i]];
      }
      i := i + 1;
    }
    assert lines[i..] == [];
  }

  lemma BlocksOfFive(s: seq<seq<string>>)
    requires |s| == 5
    ensures Blocks(s) == Block(s[0]) + Block(s[1]) + Block(s[2]) + Block(s[3]) + Block(s[4])
  {
    var s1 := s[1..];
    var s2 := s1[1..];
    var s3 := s2[1..];
    var s4 := s3[1..];
    assert s1[0] == s[1] && s2[0] == s[2] && s3[0] == s[3] && s4[0] == s[4];
    assert s4[1..] == [];
    assert Blocks(s4) == Block(s[4]) + Blocks([]);
    assert Blocks(s3) == Block(s[3]) + Blocks(s4);
    assert Blocks(s2) == Block(s[2]) + Blocks(s3);
    assert Blocks(s1) == Block(s[1]) + Blocks(s2);
  }

  // separate

  /** separate keeps exactly the lines with the prefix, each as often as it
      occurs, in their original order. */
  lemma {:induction false} KeptExactly(t: string, lines: seq<string>, x: string)
    ensures multiset(Kept(t, lines))[x] == if HasPrefix(x, t) then multiset(lines)[x] else 0
    ensures x in Kept(t, lines) <==> x in lines && HasPrefix(x, t)
  {
    if |lines| > 0 {
      KeptExactly(t, lines[1..], x);
      assert lines == [lines[0]] + lines[1..];
      assert multiset(lines) == multiset{lines[0]} + multiset(lines[1..]);
    } else {
      assert multiset(lines) == multiset{};
    }
  }

  lemma {:induction false} KeptInOrder(t: string, lines: seq<string>)
    ensures BrewHelpers.Subsequence(Kept(t, lines), lines)
  {
    if |lines| > 0 {
      KeptInOrder(t, lines[1..]);
      var rest := Kept(t, lines[1..]);
      if HasPrefix(lines[0], t) {
        assert ([lines[0]] + rest)[1..] == rest;
      } else {
        assert Kept(t, lines) == rest;
        BrewHelpers.SubsequenceTail(rest, lines);
      }
    }
  }

  lemma {:induction false} KeptAppend(t: string, a: seq<string>, b: seq<string>)
    ensures Kept(t, a + b) == Kept(t, a) + Kept(t, b)
  {
    if |a| > 0 {
      assert (a + b)[0] == a[0] && (a + b)[1..] == a[1..] + b;
      KeptAppend(t, a[1..], b);
    } else {
      assert a + b == b;
    }
  }

  /** A section all of whose lines have the prefix is kept whole. */
  lemma {:induction false} KeptAll(t: string, lines: seq<string>)
    requires forall k | 0 <= k < |lines| :: HasPrefix(lines[k], t)
    ensures Kept(t, lines) == lines
  {
    if |lines| > 0 {
      KeptAll(t, lines[1..]);
    }
  }

  /** A section none of whose lines has the prefix contributes nothing. */
  lemma {:induction false} KeptNone(t: string, lines: seq<string>)
    requires forall k | 0 <= k < |lines| :: !HasPrefix(lines[k], t)
    ensures Kept(t, lines) == []
  {
    if |lines| > 0 {
      KeptNone(t, lines[1..]);
    }
  }

  // Grouping the brews

  /** The two groups split the brews by the marker: each keeps its lines
      in their order, and together they hold every brew exactly once. */
  lemma {:induction false} GroupMembers(brews: seq<string>, marked: bool)
    ensures forall x :: x in Group(brews, marked) <==> x in brews && Contains(x, "#") == marked
  {
    if |brews| > 0 {
      GroupMembers(brews[1..], marked);
      assert brews == [brews[0]] + brews[1..];
    }
  }

  lemma {:induction false} GroupPartition(brews: seq<string>)
    ensures multiset(Group(brews, false)) + multiset(Group(brews, true)) == multiset(brews)
  {
    if |brews| > 0 {
      GroupPartition(brews[1..]);
      assert brews == [brews[0]] + brews[1..];
      assert multiset(brews) == multiset{brews[0]} + multiset(brews[1..]);
    }
  }

  lemma {:induction false} GroupInOrder(brews: seq<string>, marked: bool)
    ensures BrewHelpers.Subsequence(Group(brews, marked), brews)
  {
    if |brews| > 0 {
      GroupInOrder(brews[1..], marked);
      var rest := Group(brews[1..], marked);
      if Contains(brews[0], "#") == marked {
        assert ([brews[0]] + rest)[1..] == rest;
      } else {
        assert Group(brews, marked) == rest;
        BrewHelpers.SubsequenceTail(rest, brews);
      }
    }
  }

  lemma GroupsEmpty(brews: seq<string>)
    ensures |brews| == 0 <==> |Group(brews, false)| == 0 && |Group(brews, true)| == 0
  {
    GroupPartition(brews);
    assert |multiset(Group(brews, false))| + |multiset(Group(brews, true))| == |multiset(brews)|;
  }

  /** The marker test of Bytes is a test for the `#` character. */
  lemma {:induction false} ContainsHash(s: string)
    ensures Contains(s, "#") <==> '#' in s
  {
    if |s| > 0 {
      ContainsHash(s[1..]);
      assert s == [s[0]] + s[1..];
    }
  }

  // Rendering

  /** A section renders to nothing exactly when it is empty. */
  lemma SectionEmpty(lines: seq<string>)
    ensures |Section(lines)| == 0 <==> |lines| == 0
    ensures |lines| > 0 ==> Section(lines)[|Section(lines)| - 1] == '\n'
  {
    if |lines| > 0 {
      var rest := Section(lines[1..]);
      if |rest| > 0 {
        SectionEmpty(lines[1..]);
      }
    }
  }

  lemma {:induction false} BlocksEmpty(sections: seq<seq<string>>)
    ensures |Blocks(sections)| == 0 <==> forall k | 0 <= k < |sections| :: |sections[k]| == 0
  {
    if |sections| > 0 {
      BlocksEmpty(sections[1..]);
      if |sections[0]| == 0 {
        assert forall k | 1 <= k < |sections| :: sections[k] == sections[1..][k - 1];
      }
    }
  }

  predicate EndsInNewline(x: string) {
    |x| > 0 && x[|x| - 1] == '\n'
  }

  lemma {:induction false} BlocksEnd(sections: seq<seq<string>>)
    ensures forall b | b in Blocks(sections) :: EndsInNewline(b)
  {
    if |sections| > 0 {
      BlocksEnd(sections[1..]);
      SectionEmpty(sections[0]);
    }
  }

  lemma {:induction false} JoinLast(parts: seq<string>, sep: string)
    requires |parts| > 0 && |parts[|parts| - 1]| > 0
    ensures |Join(parts, sep)| > 0
    ensures Join(parts, sep)[|Join(parts, sep)| - 1] == parts[|parts| - 1][|parts[|parts| - 1]| - 1]
  {
    if |parts| > 1 {
      JoinLast(parts[1..], sep);
    }
  }

  /** The written Brewfile is empty when every section is empty and ends
      in a newline otherwise. */
  lemma RenderShape(tap: seq<string>, brew: seq<string>, cask: seq<string>, mas: seq<string>)
    ensures var out := Render(tap, brew, cask, mas);
      (|out| == 0 <==> |tap| == 0 && |brew| == 0 && |cask| == 0 && |mas| == 0)
      && (|out| > 0 ==> out[|out| - 1] == '\n')
  {
    var s := Sections(tap, brew, cask, mas);
    var b := Blocks(s);
    BlocksEmpty(s);
    GroupsEmpty(brew);
    assert s[0] == tap && s[1] == Group(brew, false) && s[2] == Group(brew, true) && s[3] == cask && s[4] == mas;
    if |b| > 0 {
      BlocksEnd(s);
      assert EndsInNewline(b[|b| - 1]) by { assert b[|b| - 1] in b; }
      JoinLast(b, "\n");
    }
  }

  // Reading back what was written

  /** Splitting at a newline-free line followed by the newline. */
  lemma {:induction false} SplitLine(x: string, rest: string)
    requires '\n' !in x
    ensures Split(x + "\n" + rest, '\n') == [x] + Split(rest, '\n')
  {
    if |x| == 0 {
      assert x + "\n" + rest == ['\n'] + rest;
      assert (x + "\n" + rest)[1..] == rest;
    } else {
      assert (x + "\n" + rest)[1..] == x[1..] + "\n" + rest;
      SplitLine(x[1..], rest);
      assert x == [x[0]] + x[1..];
    }
  }

  predicate LineFree(lines: seq<string>) {
    forall k | 0 <= k < |lines| :: '\n' !in lines[k]
  }

  lemma {:induction false} SplitSection(lines: seq<string>, rest: string)
    requires LineFree(lines)
    ensures Split(Section(lines) + rest, '\n') == lines + Split(rest, '\n')
  {
    if |lines| > 0 {
      assert Section(lines) + rest == lines[0] + "\n" + (Section(lines[1..]) + rest);
      SplitLine(lines[0], Section(lines[1..]) + rest);
      SplitSection(lines[1..], rest);
      assert lines + Split(rest, '\n') == [lines[0]] + (lines[1..] + Split(rest, '\n'));
    } else {
      assert Section(lines) + rest == rest;
    }
  }

  /** The lines of each section with the prefix, section by section. */
  function KeptEach(t: string, sections: seq<seq<string>>): seq<string>
    decreases |sections|
  {
    if |sections| == 0 then [] else Kept(t, sections[0]) + KeptEach(t, sections[1..])
  }

  lemma {:induction false} KeptEachEmpty(t: string, sections: seq<seq<string>>)
    requires |Blocks(sections)| == 0
    ensures KeptEach(t, sections) == []
  {
    BlocksEmpty(sections);
    if |sections| > 0 {
      assert |sections[0]| == 0;
      assert forall k | 0 <= k < |sections| - 1 :: sections[1..][k] == sections[k + 1];
      KeptEachEmpty(t, sections[1..]);
    }
  }

  lemma {:induction false} KeptJoin(t: string, sections: seq<seq<string>>)
    requires |t| > 0 && forall k | 0 <= k < |sections| :: LineFree(sections[k])
    ensures Kept(t, Split(Join(Blocks(sections), "\n"), '\n')) == KeptEach(t, sections)
    decreases |sections|
  {
    if |sections| == 0 {
      assert Split("", '\n') == [""];
    } else {
      var s := sections[0];
      var rest := Blocks(sections[1..]);
      assert forall k | 0 <= k < |sections| - 1 :: sections[1..][k] == sections[k + 1];
      KeptJoin(t, sections[1..]);
      if |s| == 0 {
        assert Blocks(sections) == rest;
      } else {
        assert Blocks(sections) == [Section(s)] + rest;
        KeptJoinStep(t, s, rest);
      }
    }
  }

  /** A non-empty section in front of the other blocks contributes its own
      kept lines. */
  lemma KeptJoinStep(t: string, s: seq<string>, rest: seq<string>)
    requires |t| > 0 && LineFree(s) && |s| > 0
    ensures Kept(t, Split(Join([Section(s)] + rest, "\n"), '\n'))
      == Kept(t, s) + Kept(t, Split(Join(rest, "\n"), '\n'))
  {
    SectionEmpty(s);
    if |rest| == 0 {
      KeptJoinLast(t, s);
    } else {
      KeptJoinMiddle(t, s, rest);
    }
  }

  lemma KeptJoinLast(t: string, s: seq<string>)
    requires |t| > 0 && LineFree(s)
    ensures Kept(t, Split(Join([Section(s)], "\n"), '\n')) == Kept(t, s) + Kept(t, Split("", '\n'))
  {
    assert Join([Section(s)], "\n") == Section(s) + "";
    SplitSection(s, "");
    KeptAppend(t, s, Split("", '\n'));
  }

  lemma KeptJoinMiddle(t: string, s: seq<string>, rest: seq<string>)
    requires |t| > 0 && LineFree(s) && |rest| > 0
    ensures Kept(t, Split(Join([Section(s)] + rest, "\n"), '\n'))
      == Kept(t, s) + Kept(t, Split(Join(rest, "\n"), '\n'))
  {
    var j := Join(rest, "\n");
    var parts := [Section(s)] + rest;
    assert parts[0] == Section(s) && parts[1..] == rest;
    assert Join(parts, "\n") == Section(s) + "\n" + j;
    Associate(Section(s), "\n", j);
    SplitSection(s, "\n" + j);
    assert ("\n" + j)[1..] == j;
    var tail := Split(j, '\n');
    assert Split("\n" + j, '\n') == [""] + tail;
    KeptAppend(t, s, [""] + tail);
    KeptAppend(t, [""], tail);
    assert Kept(t, [""]) == [];
    AppendNil(Kept(t, tail));
  }

  lemma Associate(a: string, b: string, c: string)
    ensures a + b + c == a + (b + c)
  {
  }

  /** Every line starts with the kind's keyword. */
  predicate OfKind(lines: seq<string>, kind: string) {
    forall n | 0 <= n < |lines| :: HasPrefix(lines[n], kind)
  }

  /** A well-formed set of sections: every line newline-free and starting
      with its own kind, every section sorted. */
  predicate WellFormed(tap: seq<string>, brew: seq<string>, cask: seq<string>, mas: seq<string>) {
    OfKind(tap, "tap") && Sorted(tap) && LineFree(tap)
    && OfKind(brew, "brew") && Sorted(brew) && LineFree(brew)
    && OfKind(cask, "cask") && Sorted(cask) && LineFree(cask)
    && OfKind(mas, "mas") && Sorted(mas) && LineFree(mas)
  }

  /** The four keywords start with different letters, so a section of one
      kind holds no line of another. */
  lemma KeptKind(t: string, kind: string, lines: seq<string>)
    requires |t| > 0 && |kind| > 0 && (kind == t || kind[0] != t[0]) && OfKind(lines, kind)
    ensures Kept(t, lines) == if kind == t then lines else []
  {
    if kind == t {
      KeptAll(t, lines);
    } else {
      forall n | 0 <= n < |lines| ensures !HasPrefix(lines[n], t) {
        assert lines[n][0] == kind[0];
      }
      KeptNone(t, lines);
    }
  }

  lemma GroupLines(brew: seq<string>, marked: bool)
    requires OfKind(brew, "brew") && LineFree(brew)
    ensures OfKind(Group(brew, marked), "brew") && LineFree(Group(brew, marked))
  {
    GroupMembers(brew, marked);
    var g := Group(brew, marked);
    forall k | 0 <= k < |g| ensures HasPrefix(g[k], "brew") && '\n' !in g[k] {
      assert g[k] in brew;
    }
  }

  /** The lines of one kind read back from the written Brewfile, sorted. */
  function ReadBack(t: string, tap: seq<string>, brew: seq<string>, cask: seq<string>, mas: seq<string>): seq<string> {
    SortStrings(Kept(t, Split(Render(tap, brew, cask, mas), '\n')))
  }

  /** Reading back a written Brewfile restores every section. */
  lemma RoundTrip(tap: seq<string>, brew: seq<string>, cask: seq<string>, mas: seq<string>)
    requires WellFormed(tap, brew, cask, mas)
    ensures ReadBack("tap", tap, brew, cask, mas) == tap
    ensures ReadBack("brew", tap, brew, cask, mas) == brew
    ensures ReadBack("cask", tap, brew, cask, mas) == cask
    ensures ReadBack("mas", tap, brew, cask, mas) == mas
  {
    var s := Sections(tap, brew, cask, mas);
    GroupLines(brew, false);
    GroupLines(brew, true);
    var p := Group(brew, false);
    var d := Group(brew, true);
    assert forall k | 0 <= k < |s| :: LineFree(s[k]);
    ReadKind("tap", s);
    ReadKind("brew", s);
    ReadKind("cask", s);
    ReadKind("mas", s);
    KeptJoin("tap", s);
    KeptJoin("brew", s);
    KeptJoin("cask", s);
    KeptJoin("mas", s);
    SortSorted(tap);
    SortSorted(cask);
    SortSorted(mas);
    GroupPartition(brew);
    SortedUnique(SortStrings(p + d), brew);
  }

  /** Each kind reads back the sections holding its lines. */
  lemma ReadKind(t: string, s: seq<seq<string>>)
    requires t == "tap" || t == "brew" || t == "cask" || t == "mas"
    requires |s| == 5 && OfKind(s[0], "tap") && OfKind(s[1], "brew") && OfKind(s[2], "brew")
    requires OfKind(s[3], "cask") && OfKind(s[4], "mas")
    ensures KeptEach(t, s) == if t == "brew" then s[1] + s[2] else if t == "tap" then s[0]
                              else if t == "cask" then s[3] else s[4]
  {
    assert "tap"[0] == 't' && "brew"[0] == 'b' && "cask"[0] == 'c' && "mas"[0] == 'm';
    KeptEachOfFive(t, s);
    KeptKind(t, "tap", s[0]);
    KeptKind(t, "brew", s[1]);
    KeptKind(t, "brew", s[2]);
    KeptKind(t, "cask", s[3]);
    KeptKind(t, "mas", s[4]);
    var k0, k1, k2, k3, k4 := Kept(t, s[0]), Kept(t, s[1]), Kept(t, s[2]), Kept(t, s[3]), Kept(t, s[4]);
    assert KeptEach(t, s) == k0 + (k1 + (k2 + (k3 + k4)));
    if t == "brew" {
      assert k0 == [] && k3 == [] && k4 == [] && k1 == s[1] && k2 == s[2];
      AppendNil(k2);
      AppendNil(k1 + k2);
    } else if t == "tap" {
      assert k1 == [] && k2 == [] && k3 == [] && k4 == [] && k0 == s[0];
      AppendNil(k0);
    } else if t == "cask" {
      assert k0 == [] && k1 == [] && k2 == [] && k4 == [] && k3 == s[3];
      AppendNil(k3);
    } else {
      assert k0 == [] && k1 == [] && k2 == [] && k3 == [] && k4 == s[4];
      AppendNil(k4);
    }
  }

  lemma AppendNil(a: seq<string>)
    ensures [] + a == a && a + [] == a
  {
  }

  lemma KeptEachOfFive(t: string, s: seq<seq<string>>)
    requires |s| == 5
    ensures KeptEach(t, s) == Kept(t, s[0]) + (Kept(t, s[1]) + (Kept(t, s[2]) + (Kept(t, s[3]) + Kept(t, s[4]))))
  {
    var s1 := s[1..];
    var s2 := s1[1..];
    var s3 := s2[1..];
    var s4 := s3[1..];
    assert s1[0] == s[1] && s2[0] == s[2] && s3[0] == s[3] && s4[0] == s[4];
    assert s4[1..] == [];
    assert KeptEach(t, s4) == Kept(t, s[4]) + KeptEach(t, []);
    AppendNil(Kept(t, s[4]));
    assert KeptEach(t, s3) == Kept(t, s[3]) + KeptEach(t, s4);
    assert KeptEach(t, s2) == Kept(t, s[2]) + KeptEach(t, s3);
    assert KeptEach(t, s1) == Kept(t, s[1]) + KeptEach(t, s2);
    assert KeptEach(t, s) == Kept(t, s[0]) + KeptEach(t, s1);
  }
}
