/** The command-line helpers shared by the add, remove, check and clean
    commands: choosing the package kind from the flags, the base entry a
    Brewfile line starts with, the substring test for an entry, the filter
    for one kind of line, and the loop that renders a dependency map as
    sorted Brewfile lines. */
module CmdHelpers {
  import opened GoStrings
  import opened BrewEntry
  import opened BrewGraph
  import BrewfilePackages

  /** The package-kind flags of a command. */
  datatype Flags = Flags(Tap: bool, Brew: bool, Cask: bool, Mas: bool)

  /** flagProvided: some package-kind flag is set. */
  predicate FlagProvided(f: Flags) {
    f.Tap || f.Brew || f.Cask || f.Mas
  }

  /** getPackageType: the first kind, in the order tap, brew, cask, mas,
      whose flag is set; "" when none is. */
  function PackageType(f: Flags): (t: string)
    ensures t == "" <==> !FlagProvided(f)
    ensures t == "tap" <==> f.Tap
    ensures t == "brew" <==> !f.Tap && f.Brew
    ensures t == "cask" <==> !f.Tap && !f.Brew && f.Cask
    ensures t == "mas" <==> !f.Tap && !f.Brew && !f.Cask && f.Mas
  {
    if f.Tap then "tap" else if f.Brew then "brew" else if f.Cask then "cask"
    else if f.Mas then "mas" else ""
  }

  /** constructBaseEntry: the kind, a space and the quoted name. */
  function BaseEntry(t: string, n: string): string {
    t + " '" + n + "'"
  }

  /** A base entry names one package: the name can be read back from it. */
  lemma BaseEntryInjective(t: string, n1: string, n2: string)
    ensures BaseEntry(t, n1) == BaseEntry(t, n2) <==> n1 == n2
  {
    if BaseEntry(t, n1) == BaseEntry(t, n2) {
      var e := BaseEntry(t, n1);
      assert |n1| == |n2|;
      assert n1 == e[|t| + 2..|e| - 1];
      assert n2 == BaseEntry(t, n2)[|t| + 2..|e| - 1];
    }
  }

  /** Every rendered brew line starts with the base entry of its name. */
  lemma FormatStartsWithBase(e: Entry)
    ensures HasPrefix(Format(e), BaseEntry("brew", e.Name))
  {
    FormatPrefix(e);
    assert BaseEntry("brew", e.Name) == "brew '" + e.Name + "'";
  }

  /** `sub` occurs in `s` at position `i`. */
  predicate OccursAt(s: string, sub: string, i: int) {
    0 <= i && i + |sub| <= |s| && s[i..i + |sub|] == sub
  }

  /** strings.Contains holds exactly when the substring occurs somewhere. */
  lemma {:induction false} ContainsAt(s: string, sub: string)
    ensures Contains(s, sub) <==> exists i :: OccursAt(s, sub, i)
    decreases |s|
  {
    if |s| == 0 {
      if Contains(s, sub) {
        assert OccursAt(s, sub, 0);
      }
    } else {
      ContainsAt(s[1..], sub);
      if Contains(s, sub) {
        if HasPrefix(s, sub) {
          assert OccursAt(s, sub, 0);
        } else {
          var i :| OccursAt(s[1..], sub, i);
          assert s[1..][i..i + |sub|] == s[i + 1..i + 1 + |sub|];
          assert OccursAt(s, sub, i + 1);
        }
      } else {
        forall i | 0 <= i && i + |sub| <= |s| ensures !OccursAt(s, sub, i) {
          if i > 0 {
            assert s[1..][i - 1..i - 1 + |sub|] == s[i..i + |sub|];
            assert !OccursAt(s[1..], sub, i - 1);
          }
        }
      }
    }
  }

  /** entryExists: the base entry is a substring of the file's contents. */
  predicate EntryExists(contents: string, t: string, n: string) {
    Contains(contents, BaseEntry(t, n))
  }

  /** An entry exists exactly when its base entry occurs at some offset of
      the contents. */
  lemma EntryExistsIff(contents: string, t: string, n: string)
    ensures EntryExists(contents, t, n) <==> exists i :: OccursAt(contents, BaseEntry(t, n), i)
  {
    ContainsAt(contents, BaseEntry(t, n));
  }

  /** A substring that occurs somewhere is contained. */
  lemma ContainsWitness(s: string, sub: string, i: int)
    requires OccursAt(s, sub, i)
    ensures Contains(s, sub)
  {
    ContainsAt(s, sub);
  }

  /** A substring whose first character does not occur is not contained. */
  lemma ContainsFirst(s: string, sub: string)
    requires |sub| > 0 && sub[0] !in s
    ensures !Contains(s, sub)
  {
    ContainsAt(s, sub);
    forall i | 0 <= i && i + |sub| <= |s| ensures !OccursAt(s, sub, i) {
      assert s[i..i + |sub|][0] == s[i];
      assert s[i] in s;
    }
  }

  /** The base entry is found in the second line of the contents. */
  lemma EntryExistsExample()
    ensures EntryExists("brew 'vim'\nbrew 'neovim'", "brew", "neovim")
  {
    var c := "brew 'vim'\nbrew 'neovim'";
    assert c[11..24] == BaseEntry("brew", "neovim");
    ContainsWitness(c, BaseEntry("brew", "neovim"), 11);
  }

  /** A cask entry is not found in contents that only list brews. */
  lemma EntryMissingExample()
    ensures !EntryExists("brew 'vim'\nbrew 'neovim'", "cask", "macvim")
  {
    var c := "brew 'vim'\nbrew 'neovim'";
    assert 'c' !in c;
    ContainsFirst(c, BaseEntry("cask", "macvim"));
  }

  /** getPackages: the lines of one kind, in their order. It is the same
      prefix filter as `separate` when the Brewfile is read. */
  method GetPackages(t: string, lines: seq<string>) returns (packages: seq<string>)
    ensures packages == BrewfilePackages.Kept(t, lines)
  {
    packages := BrewfilePackages.Separate(t, lines);
  }

  // Rendering a dependency map

  /** The keys are listed once each, and they are the map's keys. */
  ghost predicate Enumerates(g: Graph, keys: seq<string>) {
    Distinct(keys) && forall k :: k in keys <==> k in g
  }

  /** The rendered lines of the entries under `keys`, in that order. */
  function FormatEach(g: Graph, keys: seq<string>): seq<string>
    requires forall k | k in keys :: k in g
    decreases |keys|
  {
    if |keys| == 0 then []
    else FormatEach(g, keys[..|keys| - 1]) + [Format(g[keys[|keys| - 1]])]
  }

  /** Some order visits every key once. */
  lemma {:induction false} EnumerationExists(g: Graph)
    ensures exists keys :: Enumerates(g, keys)
    decreases |g|
  {
    if |g| == 0 {
      assert Enumerates(g, []);
    } else {
      var k :| k in g;
      var rest := g - {k};
      assert |rest| < |g|;
      EnumerationExists(rest);
      var keys :| Enumerates(rest, keys);
      assert k !in keys;
      DistinctSnoc(keys, k);
      assert Enumerates(g, keys + [k]);
    }
  }

  /** The lines a map walk renders, sorted. Go visits the keys in no fixed
      order; RenderedAnyOrder shows the sorted result is the same for every
      order, so one is chosen here. */
  ghost function Rendered(g: Graph): seq<string> {
    EnumerationExists(g);
    var keys :| Enumerates(g, keys);
    SortStrings(FormatEach(g, keys))
  }

  /** One step of the walk: the last key's line after the others'. */
  lemma FormatEachUnfold(g: Graph, a: seq<string>, n: nat)
    requires (forall k | k in a :: k in g) && n + 1 == |a|
    ensures a[n] in g && FormatEach(g, a) == FormatEach(g, a[..n]) + [Format(g[a[n]])]
  {
  }

  lemma {:induction false} FormatEachAppend(g: Graph, u: seq<string>, v: seq<string>)
    requires forall k | k in u + v :: k in g
    ensures FormatEach(g, u + v) == FormatEach(g, u) + FormatEach(g, v)
    decreases |v|
  {
    if |v| > 0 {
      var w := v[..|v| - 1];
      assert (u + v)[..|u + v| - 1] == u + w;
      assert (u + v)[|u + v| - 1] == v[|v| - 1];
      FormatEachAppend(g, u, w);
    } else {
      assert u + v == u;
    }
  }

  /** Taking one key out of the walk takes its line out of the rendering. */
  lemma FormatEachRemoveAt(g: Graph, b: seq<string>, i: nat)
    requires (forall k | k in b :: k in g) && i < |b|
    ensures multiset(FormatEach(g, b))
      == multiset(FormatEach(g, b[..i] + b[i + 1..])) + multiset{Format(g[b[i]])}
  {
    var u, v := b[..i], b[i + 1..];
    var w := u + [b[i]];
    assert b == w + v;
    assert w[..i] == u;
    FormatEachAppend(g, w, v);
    FormatEachLast(g, w, i);
    FormatEachAppend(g, u, v);
  }

  lemma RemoveAtMultiset(b: seq<string>, i: nat)
    requires i < |b|
    ensures multiset(b[..i] + b[i + 1..]) == multiset(b) - multiset{b[i]}
  {
    assert b == b[..i] + [b[i]] + b[i + 1..];
  }

  /** The last key's line comes last. */
  lemma FormatEachLast(g: Graph, a: seq<string>, n: nat)
    requires (forall k | k in a :: k in g) && n + 1 == |a|
    ensures a[n] in g
    ensures multiset(FormatEach(g, a)) == multiset(FormatEach(g, a[..n])) + multiset{Format(g[a[n]])}
  {
    FormatEachUnfold(g, a, n);
  }

  lemma DropLastMultiset(a: seq<string>)
    requires |a| > 0
    ensures multiset(a[..|a| - 1]) == multiset(a) - multiset{a[|a| - 1]}
  {
    assert a == a[..|a| - 1] + [a[|a| - 1]];
  }

  /** Keys listed with the same multiplicities render the same lines with
      the same multiplicities. */
  lemma {:induction false} FormatEachPermutation(g: Graph, a: seq<string>, b: seq<string>)
    requires (forall k | k in a :: k in g) && (forall k | k in b :: k in g)
    requires multiset(a) == multiset(b)
    ensures multiset(FormatEach(g, a)) == multiset(FormatEach(g, b))
    decreases |a|
  {
    if |a| > 0 {
      var n := |a| - 1;
      var x := a[n];
      assert x in multiset(b);
      var i :| 0 <= i < |b| && b[i] == x;
      var b' := b[..i] + b[i + 1..];
      RemoveAtMultiset(b, i);
      DropLastMultiset(a);
      assert forall k | k in b' :: k in b;
      FormatEachPermutation(g, a[..n], b');
      FormatEachRemoveAt(g, b, i);
      FormatEachLast(g, a, n);
    } else {
      assert |b| == |multiset(b)| == 0;
    }
  }

  /** Two enumerations of a map list the same keys with the same multiplicities. */
  lemma EnumerationsAgree(g: Graph, a: seq<string>, b: seq<string>)
    requires Enumerates(g, a) && Enumerates(g, b)
    ensures multiset(a) == multiset(b)
  {
    forall x ensures multiset(a)[x] == multiset(b)[x] {
      DistinctCount(a, x);
      DistinctCount(b, x);
      if x in g {
        assert x in multiset(a) && x in multiset(b);
      } else {
        assert x !in multiset(a) && x !in multiset(b);
      }
    }
  }

  /** The sorted rendering does not depend on the order the keys are visited. */
  lemma RenderedAnyOrder(g: Graph, keys: seq<string>)
    requires Enumerates(g, keys)
    ensures Rendered(g) == SortStrings(FormatEach(g, keys))
  {
    EnumerationExists(g);
    var chosen :| Enumerates(g, chosen) && Rendered(g) == SortStrings(FormatEach(g, chosen));
    EnumerationsAgree(g, chosen, keys);
    FormatEachPermutation(g, chosen, keys);
    SortedUnique(SortStrings(FormatEach(g, chosen)), SortStrings(FormatEach(g, keys)));
  }

  lemma {:induction false} FormatEachLines(g: Graph, keys: seq<string>)
    requires forall k | k in keys :: k in g
    ensures |FormatEach(g, keys)| == |keys|
    ensures forall x :: x in FormatEach(g, keys) <==> exists k | k in keys :: x == Format(g[k])
    decreases |keys|
  {
    if |keys| > 0 {
      var n := |keys| - 1;
      var init := keys[..n];
      assert keys == init + [keys[n]];
      FormatEachUnfold(g, keys, n);
      FormatEachLines(g, init);
      forall x ensures x in FormatEach(g, keys) <==> exists k | k in keys :: x == Format(g[k]) {
        if x == Format(g[keys[n]]) {
          assert keys[n] in keys;
        } else if exists k | k in keys :: x == Format(g[k]) {
          var k :| k in keys && x == Format(g[k]);
          assert k in init;
        }
      }
    }
  }

  lemma {:induction false} DistinctCard(s: seq<string>)
    requires Distinct(s)
    ensures |set k | k in s| == |s|
    decreases |s|
  {
    if |s| > 0 {
      var n := |s| - 1;
      assert s == s[..n] + [s[n]];
      DistinctCard(s[..n]);
      assert (set k | k in s) == (set k | k in s[..n]) + {s[n]};
      assert s[n] !in s[..n];
    }
  }

  /** The rendering has one line per entry of the map. */
  lemma RenderedCount(g: Graph)
    ensures |Rendered(g)| == |g|
  {
    EnumerationExists(g);
    var keys :| Enumerates(g, keys);
    RenderedAnyOrder(g, keys);
    FormatEachLines(g, keys);
    EnumerationCount(g, keys);
  }

  /** An enumeration is as long as the map. */
  lemma EnumerationCount(g: Graph, keys: seq<string>)
    requires Enumerates(g, keys)
    ensures |keys| == |g|
  {
    DistinctCard(keys);
    assert (set k | k in keys) == g.Keys;
  }

  /** Every line of the rendering is an entry's Format, and every entry's
      Format is a line of it. */
  lemma RenderedLines(g: Graph)
    ensures forall k | k in g :: Format(g[k]) in Rendered(g)
    ensures forall x | x in Rendered(g) :: exists k | k in g :: x == Format(g[k])
  {
    EnumerationExists(g);
    var keys :| Enumerates(g, keys);
    RenderedAnyOrder(g, keys);
    FormatEachLines(g, keys);
    assert forall x :: x in Rendered(g) <==> x in FormatEach(g, keys) by {
      forall x ensures x in Rendered(g) <==> x in FormatEach(g, keys) {
        assert x in Rendered(g) <==> x in multiset(Rendered(g));
        assert x in FormatEach(g, keys) <==> x in multiset(FormatEach(g, keys));
      }
    }
  }

  /** The loop over the map shared by cleanBrews, addBrewPackage and
      removeBrewPackage: format every entry, then sort. */
  method FormatLines(g: Graph) returns (lines: seq<string>)
    ensures lines == Rendered(g)
  {
    var rest := g.Keys;
    ghost var order: seq<string> := [];
    var acc: seq<string> := [];
    while rest != {}
      invariant rest <= g.Keys
      invariant forall k :: k in order <==> k in g && k !in rest
      invariant Distinct(order)
      invariant acc == FormatEach(g, order)
      decreases |rest|
    {
      var k :| k in rest;
      DistinctSnoc(order, k);
      acc := acc + [Format(g[k])];
      assert (order + [k])[..|order|] == order;
      order := order + [k];
      rest := rest - {k};
    }
    lines := SortStrings(acc);
    RenderedAnyOrder(g, order);
  }
}
