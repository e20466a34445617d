/** What the cascading Remove of the cache-backed map and the
    non-cascading Remove of the Map revision promise: the named package
    goes, a dependency goes only once nothing left requires it, and the
    survivors lose back-references only to packages that went.

    The key "" is special: removeRequiredBy on an untracked name writes
    the zero Entry there, and the cascade may delete it again, so the
    statements below leave that key out. */
module BrewPruning {
  import opened Base
  import opened GoStrings
  import BrewHelpers
  import opened BrewInfo
  import opened BrewEntry
  import opened BrewGraph

  /** `b` is what removals left of `a`. Only the key "" may appear; a
      surviving entry changes only by losing back-references; it keeps
      every requester that survives, except those in `pending` (still due
      to be deleted); and every deleted key outside `exempt` had only
      requesters that are gone or pending. */
  predicate Shrinks(a: Graph, b: Graph, pending: set<string>, exempt: set<string>) {
    b.Keys <= a.Keys + {""}
    && (forall k | k in a && k in b && k != "" ::
          b[k] == a[k].(RequiredBy := b[k].RequiredBy)
          && forall x | x in b[k].RequiredBy :: x in a[k].RequiredBy)
    && (forall k, x | k in a && k in b && k != "" && x in a[k].RequiredBy && x != "" && x in b ::
          x in pending || x in b[k].RequiredBy)
    && (forall k, x | k in a && k !in b && k != "" && k !in exempt && x in a[k].RequiredBy && x != "" ::
          x !in b || x in pending)
  }

  lemma ShrinksReflexive(a: Graph)
    ensures Shrinks(a, a, {}, {})
  {
  }

  lemma ShrinksTransitive(a: Graph, b: Graph, c: Graph, p: set<string>, e: set<string>)
    requires Shrinks(a, b, p, e) && Shrinks(b, c, p, e)
    ensures Shrinks(a, c, p, e)
  {
    forall k, x | k in a && k in c && k != "" && x in a[k].RequiredBy && x != "" && x in c
      ensures x in p || x in c[k].RequiredBy
    {
      assert k in b && x in b;
    }
    forall k, x | k in a && k !in c && k != "" && k !in e && x in a[k].RequiredBy && x != ""
      ensures x !in c || x in p
    {
      if k in b && x in b && x !in p {
        assert x in b[k].RequiredBy;
      }
    }
  }

  lemma ShrinksWeaken(a: Graph, b: Graph, p: set<string>, e: set<string>, p': set<string>, e': set<string>)
    requires Shrinks(a, b, p, e) && p <= p' && e <= e'
    ensures Shrinks(a, b, p', e')
  {
  }

  /** Once the pending names are gone they need no exception. */
  lemma ShrinksSettle(a: Graph, b: Graph, p: set<string>, e: set<string>)
    requires Shrinks(a, b, p, e)
    requires forall x | x in p :: x !in b
    ensures Shrinks(a, b, {}, e)
  {
  }

  /** An exempt key that nothing required needs no exemption. */
  lemma ShrinksOrphan(a: Graph, b: Graph, p: set<string>, e: set<string>, d: string)
    requires Shrinks(a, b, p, e + {d})
    requires d in a && d != "" ==> a[d].RequiredBy == []
    ensures Shrinks(a, b, p, e)
  {
  }

  lemma DeleteShrinks(a: Graph, n: string)
    ensures Shrinks(a, a - {n}, {}, {n})
  {
  }

  /** What detaching `y` does: no key is lost, only "" may appear, and
      each entry except the one under "" keeps all its fields and every
      requester other than `y`. */
  predicate Detached(a: Graph, b: Graph, y: string) {
    a.Keys <= b.Keys <= a.Keys + {""}
    && (forall k | k in a && k != "" ::
          b[k] == a[k].(RequiredBy := b[k].RequiredBy)
          && (forall x | x in b[k].RequiredBy :: x in a[k].RequiredBy)
          && forall x | x in a[k].RequiredBy && x != y :: x in b[k].RequiredBy)
  }

  lemma DetachedShrinks(a: Graph, b: Graph, y: string)
    requires Detached(a, b, y)
    ensures Shrinks(a, b, {y}, {})
  {
  }

  lemma DetachedTransitive(a: Graph, b: Graph, c: Graph, y: string)
    requires Detached(a, b, y) && Detached(b, c, y)
    ensures Detached(a, c, y)
  {
    forall k | k in a && k != ""
      ensures c[k] == a[k].(RequiredBy := c[k].RequiredBy)
      ensures forall x | x in c[k].RequiredBy :: x in a[k].RequiredBy
      ensures forall x | x in a[k].RequiredBy && x != y :: x in c[k].RequiredBy
    {
      assert k in b;
    }
  }

  /** remove(s, r) keeps every element other than `r`. */
  lemma RemoveKeepsOthers(s: seq<string>, r: string)
    ensures forall x | x in s && x != r :: x in BrewHelpers.Remove(s, r)
    ensures forall x | x in BrewHelpers.Remove(s, r) :: x in s
  {
    var t := BrewHelpers.Remove(s, r);
    BrewHelpers.RemoveMultiset(s, r);
    forall x | x in s && x != r ensures x in t {
      assert multiset(s)[x] > 0;
      assert multiset(t)[x] == multiset(s)[x];
    }
    BrewHelpers.RemoveSubset(s, r);
  }

  /** The list removeRequiredBy stores: `y` dropped once and sorted. */
  lemma DetachedList(l: seq<string>, y: string)
    ensures var l' := SortStrings(if y in l then BrewHelpers.Remove(l, y) else l);
      (forall x | x in l' :: x in l) && (forall x | x in l && x != y :: x in l')
  {
    var list := if y in l then BrewHelpers.Remove(l, y) else l;
    RemoveKeepsOthers(l, y);
    assert multiset(SortStrings(list)) == multiset(list);
    forall x | x in SortStrings(list) ensures x in l {
      assert x in multiset(list);
    }
    forall x | x in l && x != y ensures x in SortStrings(list) {
      assert x in multiset(list);
    }
  }

  /** removeRequiredBy(req, y) on a map keyed by names detaches `y`. */
  lemma RemoveRequiredByDetaches(m: Graph, req: string, y: string)
    requires KeysNamed(m)
    ensures Detached(m, RemoveRequiredBy(m, req, y), y) && KeysNamed(RemoveRequiredBy(m, req, y))
  {
    DetachedList(Lookup(m, req).RequiredBy, y);
  }

  lemma {:induction false} RemoveRequiredByAllDetaches(m: Graph, ds: seq<string>, y: string)
    requires KeysNamed(m)
    ensures Detached(m, RemoveRequiredByAll(m, ds, y), y) && KeysNamed(RemoveRequiredByAll(m, ds, y))
    decreases |ds|
  {
    if |ds| > 0 {
      var m1 := RemoveRequiredBy(m, ds[0], y);
      RemoveRequiredByDetaches(m, ds[0], y);
      RemoveRequiredByAllDetaches(m1, ds[1..], y);
      DetachedTransitive(m, m1, RemoveRequiredByAll(m1, ds[1..], y), y);
    }
  }

  /** removeRequiredBy never loses a key, whatever the keys are. */
  lemma {:induction false} RemoveRequiredByAllKeeps(m: Graph, ds: seq<string>, y: string)
    ensures m.Keys <= RemoveRequiredByAll(m, ds, y).Keys
    decreases |ds|
  {
    if |ds| > 0 {
      RemoveRequiredByAllKeeps(RemoveRequiredBy(m, ds[0], y), ds[1..], y);
    }
  }

  /** Remove(name): everything deleted besides `name` (and "") was required
      only by packages that are gone, and survivors keep their surviving
      requesters. */
  lemma {:induction false} RemoveShrinks(m: Graph, name: string, opt: DepOption, rank: string -> nat)
    requires Ranked(m, rank) && KeysNamed(m) && rank("") == 0
    ensures Shrinks(m, Remove(m, name, opt, rank), {}, {name})
    decreases Measure(m, name, rank), 1
  {
    if name !in m {
      ShrinksReflexive(m);
      ShrinksWeaken(m, m, {}, {}, {}, {name});
    } else {
      var p := {name};
      var pruned := RemoveTrackedShrinks(m, name, opt, rank);
      DeleteShrinks(pruned, name);
      ShrinksWeaken(pruned, pruned - p, {}, p, p, p);
      ShrinksTransitive(m, pruned, pruned - p, p, p);
      ShrinksSettle(m, pruned - p, p, p);
    }
  }

  /** The state of Remove(name) just before `name` itself is deleted. */
  lemma {:induction false} RemoveTrackedShrinks(m: Graph, name: string, opt: DepOption, rank: string -> nat)
    returns (pruned: Graph)
    requires Ranked(m, rank) && KeysNamed(m) && rank("") == 0 && name in m
    ensures Remove(m, name, opt, rank) == pruned - {name}
    ensures Shrinks(m, pruned, {name}, {name})
    decreases Measure(m, name, rank), 0
  {
    var b := m[name];
    var p := {name};
    var detached := RemoveUnfold(m, name, opt, rank);
    var bound := rank(name) + 1;
    pruned := Cascade(detached, b, opt, rank, bound);
    assert Shrinks(m, detached, p, p) by {
      RemoveRequiredByAllDetaches(m, b.RequiredDependencies, name);
      DetachedShrinks(m, detached, name);
      ShrinksWeaken(m, detached, p, {}, p, p);
    }
    assert Shrinks(detached, pruned, p, p) by {
      CascadeShrinks(detached, b, opt, rank, bound);
      ShrinksWeaken(detached, pruned, {}, {}, p, p);
    }
    ShrinksTransitive(m, detached, pruned, p, p);
  }

  /** One unfolding of Remove on a tracked name. */
  lemma RemoveUnfold(m: Graph, name: string, opt: DepOption, rank: string -> nat) returns (detached: Graph)
    requires Ranked(m, rank) && KeysNamed(m) && rank("") == 0 && name in m
    ensures detached == RemoveRequiredByAll(m, m[name].RequiredDependencies, name)
    ensures Ranked(detached, rank) && KeysNamed(detached)
      && (forall d | d in Deps(m[name]) :: rank(d) + 1 < rank(name) + 1)
      && Remove(m, name, opt, rank) == Cascade(detached, m[name], opt, rank, rank(name) + 1) - {name}
  {
    RemoveRequiredByAllRanked(m, m[name].RequiredDependencies, name, rank);
    detached := RemoveRequiredByAll(m, m[name].RequiredDependencies, name);
  }

  lemma {:induction false} CascadeShrinks(m: Graph, b: Entry, opt: DepOption, rank: string -> nat, bound: nat)
    requires Ranked(m, rank) && KeysNamed(m) && rank("") == 0
    requires forall d | d in Deps(b) :: rank(d) + 1 < bound
    ensures Shrinks(m, Cascade(m, b, opt, rank, bound), {}, {})
    decreases bound, 0, |Deps(b)| + 1
  {
    match opt {
      case PackageOnly => ShrinksReflexive(m);
      case PackageAndRequired => PruneShrinks(m, b.RequiredDependencies, opt, rank, bound);
      case All => PruneShrinks(m, Deps(b), opt, rank, bound);
    }
  }

  /** Each pruning step deletes only an entry nothing requires. */
  lemma {:induction false} PruneShrinks(m: Graph, ds: seq<string>, opt: DepOption, rank: string -> nat, bound: nat)
    requires Ranked(m, rank) && KeysNamed(m) && rank("") == 0
    requires forall d | d in ds :: rank(d) + 1 < bound
    ensures Shrinks(m, Prune(m, ds, opt, rank, bound), {}, {})
    decreases bound, 0, |ds|
  {
    if |ds| == 0 {
      ShrinksReflexive(m);
    } else {
      var dep := ds[0];
      assert dep in ds;
      var n := Lookup(m, dep).Name;
      assert Measure(m, n, rank) < bound;
      var m1 := if Orphan(m, dep) then Remove(m, n, opt, rank) else m;
      if Orphan(m, dep) {
        RemoveShrinks(m, n, opt, rank);
        ShrinksOrphan(m, m1, {}, {}, n);
      } else {
        ShrinksReflexive(m);
      }
      PruneShrinks(m1, ds[1..], opt, rank, bound);
      ShrinksTransitive(m, m1, Prune(m1, ds[1..], opt, rank, bound), {}, {});
    }
  }

  /** Remove(name) never leaves `name` behind, and adds no key except "". */
  lemma RemoveDeletes(m: Graph, name: string, opt: DepOption, rank: string -> nat)
    requires Ranked(m, rank) && KeysNamed(m) && rank("") == 0
    ensures name !in Remove(m, name, opt, rank)
    ensures Remove(m, name, opt, rank).Keys <= m.Keys + {""}
  {
    if name in m {
      var detached := RemoveUnfold(m, name, opt, rank);
    }
    RemoveShrinks(m, name, opt, rank);
  }

  /** Remove on an untracked name changes nothing (and reports
      NothingToRemove). */
  lemma RemoveUntracked(m: Graph, name: string, opt: DepOption, rank: string -> nat)
    requires Ranked(m, rank) && KeysNamed(m) && rank("") == 0
    ensures name !in m <==> RemoveError(m, name).Some?
    ensures name !in m ==> Remove(m, name, opt, rank) == m
  {
  }

  /** A package that a surviving package still requires survives Remove,
      keeping that back-reference; no package besides `name` is deleted
      while something that survives requires it. */
  lemma RemoveKeepsRequired(m: Graph, name: string, opt: DepOption, rank: string -> nat)
    requires Ranked(m, rank) && KeysNamed(m) && rank("") == 0
    ensures var r := Remove(m, name, opt, rank);
      forall k, x | k in m && k != "" && k != name && x in m[k].RequiredBy && x != "" && x in r ::
        k in r && x in r[k].RequiredBy
  {
    RemoveShrinks(m, name, opt, rank);
  }

  /** Survivors of Remove keep every field but RequiredBy, which only
      loses names. */
  lemma RemoveKeepsFields(m: Graph, name: string, opt: DepOption, rank: string -> nat)
    requires Ranked(m, rank) && KeysNamed(m) && rank("") == 0
    ensures var r := Remove(m, name, opt, rank);
      forall k | k in m && k in r && k != "" ::
        r[k] == m[k].(RequiredBy := r[k].RequiredBy)
        && forall x | x in r[k].RequiredBy :: x in m[k].RequiredBy
  {
    RemoveShrinks(m, name, opt, rank);
  }

  /** At PackageOnly no other package is removed: Remove only detaches
      the name from its required dependencies and deletes it. */
  lemma RemovePackageOnly(m: Graph, name: string, rank: string -> nat)
    requires Ranked(m, rank) && KeysNamed(m) && rank("") == 0 && name in m
    ensures Remove(m, name, PackageOnly, rank) == MapRemove(m, name)
    ensures forall k | k in m && k != name :: k in Remove(m, name, PackageOnly, rank)
  {
    var detached := RemoveUnfold(m, name, PackageOnly, rank);
    RemoveRequiredByAllKeeps(m, m[name].RequiredDependencies, name);
  }

  /** An entry with no requesters loses none and gains none while others
      are removed: it is either gone or still unrequired. */
  lemma {:induction false} PruneRemoves(m: Graph, ds: seq<string>, opt: DepOption, rank: string -> nat,
                                        bound: nat, d: string)
    requires Ranked(m, rank) && KeysNamed(m) && rank("") == 0
    requires forall x | x in ds :: rank(x) + 1 < bound
    requires d in ds && d != "" && (d in m ==> m[d].RequiredBy == [])
    ensures d !in Prune(m, ds, opt, rank, bound)
    decreases |ds|
  {
    var dep := ds[0];
    var n := Lookup(m, dep).Name;
    assert ds[0..] == ds;
    PruneStep(m, ds, 0, opt, rank, bound);
    var m1 := if Orphan(m, dep) then Remove(m, n, opt, rank) else m;
    PruneShrinks(m1, ds[1..], opt, rank, bound);
    if Orphan(m, dep) {
      RemoveDeletes(m, n, opt, rank);
      RemoveShrinks(m, n, opt, rank);
    }
    if dep == d {
      assert d !in m1;
    } else {
      assert d in ds[1..];
      if d in m1 {
        NoneLeft(m1[d].RequiredBy, m[d].RequiredBy);
      }
      PruneRemoves(m1, ds[1..], opt, rank, bound, d);
    }
  }

  /** A list whose elements all lie in an empty list is empty. */
  lemma NoneLeft(s: seq<string>, t: seq<string>)
    requires forall x | x in s :: x in t
    ensures t == [] ==> s == []
  {
    assert s != [] ==> s[0] in t;
  }

  /** Detaching `y` from a list that holds at most `y` empties it once
      the entry is visited. */
  lemma {:induction false} DetachEmpties(m: Graph, ds: seq<string>, y: string, d: string)
    requires KeysNamed(m) && d != ""
    requires d in m ==> m[d].RequiredBy == [] || (m[d].RequiredBy == [y] && d in ds)
    ensures var r := RemoveRequiredByAll(m, ds, y); d in r ==> r[d].RequiredBy == []
    decreases |ds|
  {
    if |ds| > 0 {
      var m1 := RemoveRequiredBy(m, ds[0], y);
      RemoveRequiredByDetaches(m, ds[0], y);
      if ds[0] == d && d in m && m[d].RequiredBy == [y] {
        assert BrewHelpers.Remove([y], y) == [];
        assert m1[d].RequiredBy == SortStrings([]);
        assert m1[d].RequiredBy == [];
      }
      assert d in m1 ==> m1[d].RequiredBy == [] || (m1[d].RequiredBy == [y] && d in ds[1..]) by {
        if d in m1 && ds[0] != d {
          assert m1[d] == m[d];
        }
      }
      DetachEmpties(m1, ds[1..], y, d);
    }
  }

  /** A dependency at the chosen level that nothing but `name` required
      goes with it: at PackageAndRequired the required ones, at All every
      dependency. */
  lemma RemovePrunes(m: Graph, name: string, opt: DepOption, rank: string -> nat, d: string)
    requires Ranked(m, rank) && KeysNamed(m) && rank("") == 0 && name in m && opt != PackageOnly
    requires d != "" && d in (if opt == All then Deps(m[name]) else m[name].RequiredDependencies)
    requires d in m ==> m[d].RequiredBy == [] || (m[d].RequiredBy == [name] && d in m[name].RequiredDependencies)
    ensures d !in Remove(m, name, opt, rank)
  {
    var b := m[name];
    var detached := RemoveUnfold(m, name, opt, rank);
    var bound := rank(name) + 1;
    DetachEmpties(m, b.RequiredDependencies, name, d);
    var ds := if opt == All then Deps(b) else b.RequiredDependencies;
    assert Cascade(detached, b, opt, rank, bound) == Prune(detached, ds, opt, rank, bound);
    PruneRemoves(detached, ds, opt, rank, bound, d);
  }

  // The Map revision's Remove

  /** Map.Remove on an untracked name fails and changes nothing; on a
      tracked one the name goes and every other key stays. */
  lemma MapRemoveDeletes(m: Graph, name: string)
    ensures name !in m ==> MapRemove(m, name) == m && RemoveError(m, name) == Some(NothingToRemove)
    ensures name !in MapRemove(m, name)
    ensures forall k | k in m && k != name :: k in MapRemove(m, name)
  {
    if name in m {
      RemoveRequiredByAllKeeps(m, m[name].RequiredDependencies, name);
    }
  }

  /** On a map keyed by names, Map.Remove changes the survivors only by
      dropping `name` from their RequiredBy lists: no dependency is
      pruned, and no key but "" appears. */
  lemma MapRemoveDetaches(m: Graph, name: string)
    requires KeysNamed(m)
    ensures Detached(m - {name}, MapRemove(m, name), name) && KeysNamed(MapRemove(m, name))
  {
    if name in m {
      RemoveRequiredByAllDetaches(m, m[name].RequiredDependencies, name);
    }
  }
}
