/** The slice helpers of package `brew`: emptiness tests, membership and
    removal of the first occurrence of a name. */
module BrewHelpers {

  /** hasArgs: the argument list is non-empty. */
  predicate HasArgs(a: seq<string>) {
    |a| > 0
  }

  /** hasRestartService: the restart option is non-empty. */
  predicate HasRestartService(r: string) {
    |r| > 0
  }

  /** contains: a read-only linear search that stops at the first match. */
  method Contains(s: seq<string>, e: string) returns (found: bool)
    ensures found <==> e in s
  {
    var i := 0;
    while i < |s|
      invariant 0 <= i <= |s|
      invariant e !in s[..i]
    {
      if s[i] == e {
        return true;
      }
      i := i + 1;
    }
    assert s[..i] == s;
    return false;
  }

  /** Index of the first occurrence of `r` in `s`, or |s| when absent. */
  function FirstIndex(s: seq<string>, r: string): (i: nat)
    ensures i <= |s|
    ensures r !in s[..i]
    ensures i < |s| <==> r in s
    ensures i < |s| ==> s[i] == r
  {
    if |s| == 0 then 0
    else if s[0] == r then 0
    else
      var j := FirstIndex(s[1..], r);
      assert s[..j + 1] == [s[0]] + s[1..][..j];
      j + 1
  }

  /** remove: `append(s[:i], s[i+1:]...)` at the first index holding `r`,
      and `s` itself when there is none. */
  function Remove(s: seq<string>, r: string): seq<string> {
    var i := FirstIndex(s, r);
    if i < |s| then s[..i] + s[i + 1..] else s
  }

  /** With `r` present, exactly its first occurrence is dropped: what comes
      before it is untouched, what comes after it moves one place left. */
  lemma RemovePresent(s: seq<string>, r: string)
    requires r in s
    ensures |Remove(s, r)| == |s| - 1
    ensures exists i :: 0 <= i < |s| && s[i] == r && r !in s[..i]
              && Remove(s, r) == s[..i] + s[i + 1..]
  {
    var i := FirstIndex(s, r);
    assert 0 <= i < |s| && s[i] == r && r !in s[..i];
  }

  /** With `r` absent the slice comes back unchanged. */
  lemma RemoveAbsent(s: seq<string>, r: string)
    requires r !in s
    ensures Remove(s, r) == s
  {
  }

  /** The multiset of a removal is the input minus one copy of `r`. */
  lemma RemoveMultiset(s: seq<string>, r: string)
    ensures multiset(Remove(s, r)) == multiset(s) - multiset{r}
  {
    var i := FirstIndex(s, r);
    if i < |s| {
      assert s == s[..i] + [s[i]] + s[i + 1..];
    } else {
      assert multiset(s)[r] == 0;
    }
  }

  /** Every element of a removal comes from the input. */
  lemma RemoveSubset(s: seq<string>, r: string)
    ensures forall x :: x in Remove(s, r) ==> x in s
  {
    RemoveMultiset(s, r);
    forall x | x in Remove(s, r) ensures x in s {
      assert x in multiset(Remove(s, r));
    }
  }

  /** `t` can be read off `s` left to right, skipping elements: the
      relative order of what `t` keeps is the order in `s`. */
  predicate Subsequence(t: seq<string>, s: seq<string>)
    decreases |s|
  {
    if |t| == 0 then true
    else if |s| == 0 then false
    else if t[0] == s[0] then Subsequence(t[1..], s[1..])
    else Subsequence(t, s[1..])
  }

  lemma {:induction false} SubsequenceReflexive(s: seq<string>)
    ensures Subsequence(s, s)
  {
    if |s| > 0 { SubsequenceReflexive(s[1..]); }
  }

  lemma {:induction false} SubsequenceDropFirst(t: seq<string>, s: seq<string>)
    requires |t| > 0 && Subsequence(t, s)
    ensures Subsequence(t[1..], s)
    decreases |s|, 1
  {
    if t[0] == s[0] {
      SubsequenceTail(t[1..], s);
    } else {
      SubsequenceDropFirst(t, s[1..]);
      SubsequenceTail(t[1..], s);
    }
  }

  /** Putting an element in front of `s` keeps any subsequence of `s`. */
  lemma {:induction false} SubsequenceTail(t: seq<string>, s: seq<string>)
    requires |s| > 0 && Subsequence(t, s[1..])
    ensures Subsequence(t, s)
    decreases |s|, 0
  {
    if |t| > 0 && t[0] == s[0] {
      SubsequenceDropFirst(t, s[1..]);
    }
  }

  lemma {:induction false} SubsequenceTransitive(a: seq<string>, b: seq<string>, c: seq<string>)
    requires Subsequence(a, b) && Subsequence(b, c)
    ensures Subsequence(a, c)
    decreases |c|
  {
    if |a| > 0 {
      if b[0] == c[0] {
        if a[0] == b[0] {
          SubsequenceTransitive(a[1..], b[1..], c[1..]);
        } else {
          SubsequenceTransitive(a, b[1..], c[1..]);
        }
      } else {
        SubsequenceTransitive(a, b, c[1..]);
        if a[0] == c[0] { SubsequenceDropFirst(a, c[1..]); }
      }
    }
  }

  lemma {:induction false} SubsequenceSkip(s: seq<string>, i: nat)
    requires i < |s|
    ensures Subsequence(s[..i] + s[i + 1..], s)
  {
    if i == 0 {
      assert s[..0] + s[1..] == s[1..];
      SubsequenceReflexive(s[1..]);
      SubsequenceTail(s[1..], s);
    } else {
      SubsequenceSkip(s[1..], i - 1);
      assert s[..i] + s[i + 1..] == [s[0]] + (s[1..][..i - 1] + s[1..][i..]);
    }
  }

  /** remove keeps the relative order of the other elements. */
  lemma RemoveSubsequence(s: seq<string>, r: string)
    ensures Subsequence(Remove(s, r), s)
  {
    var i := FirstIndex(s, r);
    if i < |s| { SubsequenceSkip(s, i); } else { SubsequenceReflexive(s); }
  }

  /** remove on the slice's backing array, as `append(s[:i], s[i+1:]...)`
      does it: the tail is shifted one place left inside the array, the new
      length is returned, and the last old slot keeps its old value, which
      other slices over the same array still see. */
  method RemoveInPlace(a: array<string>, n: nat, r: string) returns (len: nat)
    requires n <= a.Length
    modifies a
    ensures len == n || len == n - 1
    ensures a[..len] == Remove(old(a[..n]), r)
    ensures len == n - 1 ==> a[len] == old(a[n - 1])
    ensures a[n..] == old(a[n..])
  {
    ghost var s := a[..n];
    var i := 0;
    while i < n && a[i] != r
      invariant 0 <= i <= n
      invariant r !in s[..i]
      invariant a[..] == old(a[..])
    {
      i := i + 1;
    }
    if i == n {
      assert s[..i] == s;
      assert FirstIndex(s, r) == n by { FirstIndexAt(s, r, n); }
      return n;
    }
    assert FirstIndex(s, r) == i by { FirstIndexAt(s, r, i); }
    var j := i;
    while j + 1 < n
      invariant i <= j < n
      invariant forall k :: 0 <= k < i ==> a[k] == s[k]
      invariant forall k :: i <= k < j ==> a[k] == s[k + 1]
      invariant forall k :: j <= k < n ==> a[k] == s[k]
      invariant a[n..] == old(a[n..])
    {
      a[j] := a[j + 1];
      j := j + 1;
    }
    assert a[..n - 1] == s[..i] + s[i + 1..];
    return n - 1;
  }

  /** Pins down FirstIndex by the position it finds. */
  lemma FirstIndexAt(s: seq<string>, r: string, i: nat)
    requires i <= |s| && r !in s[..i]
    requires i < |s| ==> s[i] == r
    ensures FirstIndex(s, r) == i
  {
  }
}
