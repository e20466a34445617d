/** The four regular expressions that read a Brewfile `brew` line, written
    out as scanners whose contracts state the matching rule of Go's regexp
    package: the leftmost match wins and, at that position, the greedy
    repetition takes the longest text that still lets the match end.

      quotes   '\S+'                           a quoted run of non-space
      args     \[.*\]                          a bracketed stretch of one line
      restart  restart_service: (:changed|true)
      value    (:changed|true)                                            */
module BrewfileLine {
  import opened Base
  import opened GoStrings

  /** `\s` in Go's syntax: tab, newline, form feed, carriage return, space. */
  predicate IsSpace(c: char) {
    c == ' ' || c == '\t' || c == '\n' || c == '\r' || c == 12 as char
  }

  /** `'\S+'` matches s[p..q + 1]. */
  predicate QuotedAt(s: string, p: int, q: int) {
    0 <= p && p + 2 <= q < |s| && s[p] == '\'' && s[q] == '\'' &&
    forall k :: p < k < q ==> !IsSpace(s[k])
  }

  /** `\[.*\]` matches s[p..q + 1]: `.` is anything but a newline. */
  predicate BracketedAt(s: string, p: int, q: int) {
    0 <= p < q < |s| && s[p] == '[' && s[q] == ']' &&
    forall k :: p < k < q ==> s[k] != '\n'
  }

  /** The end of the stretch starting at `i` with no character `stop`
      accepts. */
  function RunEnd(s: string, i: nat, spaces: bool): (j: nat)
    requires i <= |s|
    ensures i <= j <= |s|
    ensures forall k :: i <= k < j ==> (if spaces then !IsSpace(s[k]) else s[k] != '\n')
    ensures j < |s| ==> (if spaces then IsSpace(s[j]) else s[j] == '\n')
    decreases |s| - i
  {
    if i == |s| then i
    else if (if spaces then IsSpace(s[i]) else s[i] == '\n') then i
    else RunEnd(s, i + 1, spaces)
  }

  /** The largest index in [lo, hi) holding `c`. */
  function LastOf(s: string, c: char, lo: nat, hi: nat): (r: Option<nat>)
    requires hi <= |s|
    ensures r.Some? ==> lo <= r.value < hi && s[r.value] == c
    ensures r.Some? ==> forall k :: r.value < k < hi ==> s[k] != c
    ensures r.None? ==> forall k :: lo <= k < hi ==> s[k] != c
    decreases hi
  {
    if hi <= lo then None
    else if s[hi - 1] == c then Some(hi - 1)
    else LastOf(s, c, lo, hi - 1)
  }

  /** The greedy end of a quoted match starting at `p`, if any. */
  function QuotedEnd(s: string, p: nat): (r: Option<nat>)
    requires p < |s|
    ensures r.Some? ==> QuotedAt(s, p, r.value)
    ensures r.Some? ==> forall q :: QuotedAt(s, p, q) ==> q <= r.value
    ensures r.None? ==> forall q :: !QuotedAt(s, p, q)
  {
    if s[p] != '\'' then None
    else
      var end := RunEnd(s, p + 1, true);
      var r := LastOf(s, '\'', p + 2, end);
      assert forall q :: QuotedAt(s, p, q) ==> q < end;
      r
  }

  /** The greedy end of a bracketed match starting at `p`, if any. */
  function BracketedEnd(s: string, p: nat): (r: Option<nat>)
    requires p < |s|
    ensures r.Some? ==> BracketedAt(s, p, r.value)
    ensures r.Some? ==> forall q :: BracketedAt(s, p, q) ==> q <= r.value
    ensures r.None? ==> forall q :: !BracketedAt(s, p, q)
  {
    if s[p] != '[' then None
    else
      var end := RunEnd(s, p + 1, false);
      var r := LastOf(s, ']', p + 1, end);
      assert forall q :: BracketedAt(s, p, q) ==> q < end;
      r
  }

  datatype Span = Span(start: nat, end: nat)

  /** FindString of `'\S+'` from `from` on: the leftmost quoted match,
      greedy at that position. */
  function FindQuoted(s: string, from: nat): (r: Option<Span>)
    ensures r.Some? ==> from <= r.value.start && QuotedAt(s, r.value.start, r.value.end)
    ensures r.Some? ==> forall q :: QuotedAt(s, r.value.start, q) ==> q <= r.value.end
    ensures r.Some? ==> forall p, q :: from <= p < r.value.start ==> !QuotedAt(s, p, q)
    ensures r.None? ==> forall p, q :: from <= p ==> !QuotedAt(s, p, q)
    decreases |s| - from
  {
    if from >= |s| then None
    else
      var here := QuotedEnd(s, from);
      if here.Some? then Some(Span(from, here.value))
      else FindQuoted(s, from + 1)
  }

  /** FindString of `\[.*\]`: the leftmost bracketed match, greedy. */
  function FindBracketed(s: string, from: nat): (r: Option<Span>)
    ensures r.Some? ==> from <= r.value.start && BracketedAt(s, r.value.start, r.value.end)
    ensures r.Some? ==> forall q :: BracketedAt(s, r.value.start, q) ==> q <= r.value.end
    ensures r.Some? ==> forall p, q :: from <= p < r.value.start ==> !BracketedAt(s, p, q)
    ensures r.None? ==> forall p, q :: from <= p ==> !BracketedAt(s, p, q)
    decreases |s| - from
  {
    if from >= |s| then None
    else
      var here := BracketedEnd(s, from);
      if here.Some? then Some(Span(from, here.value))
      else FindBracketed(s, from + 1)
  }

  /** The text between the quotes of a quoted match. */
  function Inner(s: string, m: Span): string
    requires m.start < m.end <= |s|
  {
    s[m.start + 1..m.end]
  }

  /** FindAllString of `'\S+'` with the quotes trimmed: successive
      non-overlapping leftmost matches, each search resuming after the
      previous match. */
  function QuotedTokens(s: string, from: nat): (r: seq<string>)
    ensures FindQuoted(s, from).None? ==> r == []
    ensures FindQuoted(s, from).Some? ==>
      |r| > 0 && r[0] == Inner(s, FindQuoted(s, from).value)
    decreases |s| - from
  {
    var m := FindQuoted(s, from);
    if m.None? then []
    else [Inner(s, m.value)] + QuotedTokens(s, m.value.end + 1)
  }

  /** Every token FindAllString yields is a non-empty run with no white
      space in it. */
  lemma {:induction false} QuotedTokensShape(s: string, from: nat)
    ensures forall k :: 0 <= k < |QuotedTokens(s, from)| ==>
      |QuotedTokens(s, from)[k]| > 0 && forall j :: 0 <= j < |QuotedTokens(s, from)[k]| ==> !IsSpace(QuotedTokens(s, from)[k][j])
    decreases |s| - from
  {
    var m := FindQuoted(s, from);
    if m.Some? {
      QuotedTokensShape(s, m.value.end + 1);
      var t := Inner(s, m.value);
      assert forall j :: 0 <= j < |t| ==> t[j] == s[m.value.start + 1 + j];
    }
  }

  const RestartChanged: string := "restart_service: :changed"
  const RestartTrue: string := "restart_service: true"

  /** `restart_service: (:changed|true)` matches at `p`. */
  predicate RestartAt(s: string, p: int) {
    0 <= p <= |s| && (HasPrefix(s[p..], RestartChanged) || HasPrefix(s[p..], RestartTrue))
  }

  /** FindString of the restart pattern: the leftmost matching position. */
  function FindRestart(s: string, from: nat): (r: Option<nat>)
    ensures r.Some? ==> from <= r.value && RestartAt(s, r.value)
    ensures r.Some? ==> forall p :: from <= p < r.value ==> !RestartAt(s, p)
    ensures r.None? ==> forall p :: from <= p ==> !RestartAt(s, p)
    decreases |s| - from
  {
    if from > |s| then None
    else if RestartAt(s, from) then Some(from)
    else
      var r := FindRestart(s, from + 1);
      assert forall p :: from < p ==> p > |s| ==> !RestartAt(s, p);
      r
  }

  /** `(:changed|true)` matches at `p`; the alternatives are tried in
      order, and at one position at most one of them can match. */
  predicate ValueAt(s: string, p: int) {
    0 <= p <= |s| && (HasPrefix(s[p..], ":changed") || HasPrefix(s[p..], "true"))
  }

  /** FindString of `(:changed|true)`: the text of the leftmost match, or
      "" when there is none. */
  function FindValue(s: string, from: nat): (r: string)
    ensures r == "" <==> forall p :: from <= p ==> !ValueAt(s, p)
    ensures r != "" ==> exists p :: from <= p <= |s| && HasPrefix(s[p..], r) && (r == ":changed" || r == "true")
                          && forall p' :: from <= p' < p ==> !ValueAt(s, p')
    decreases |s| - from
  {
    if from > |s| then ""
    else if HasPrefix(s[from..], ":changed") then assert ValueAt(s, from); ":changed"
    else if HasPrefix(s[from..], "true") then assert ValueAt(s, from); "true"
    else
      var r := FindValue(s, from + 1);
      assert forall p :: from < p ==> p > |s| ==> !ValueAt(s, p);
      r
  }

  /** The option a restart match carries is the alternative it ended in. */
  lemma RestartValue()
    ensures FindValue(RestartChanged, 0) == ":changed"
    ensures FindValue(RestartTrue, 0) == "true"
  {
    ChangedValue();
    TrueValue();
  }

  /** Neither value starts inside the clause's key `restart_service: `. */
  lemma KeyHoldsNoValue(s: string, p: nat)
    requires 17 < |s| && s[..17] == "restart_service: " && p < 17
    ensures !ValueAt(s, p)
  {
    assert s[p..][0] == s[p] == "restart_service: "[p];
    if p < 16 {
      assert s[p..][1] == s[p + 1] == "restart_service: "[p + 1];
    }
  }

  lemma ChangedValue()
    ensures FindValue(RestartChanged, 0) == ":changed"
  {
    var c := RestartChanged;
    assert c[..17] == "restart_service: ";
    forall p | 0 <= p < 17 ensures !ValueAt(c, p) {
      KeyHoldsNoValue(c, p);
    }
    assert ValueAt(c, 17) && c[17..][..8] == ":changed";
    Leftmost(c, 17);
  }

  lemma TrueValue()
    ensures FindValue(RestartTrue, 0) == "true"
  {
    var t := RestartTrue;
    assert t[..17] == "restart_service: ";
    forall p | 0 <= p < 17 ensures !ValueAt(t, p) {
      KeyHoldsNoValue(t, p);
    }
    assert ValueAt(t, 17) && t[17..][..4] == "true";
    assert !HasPrefix(t[17..], ":changed");
    Leftmost(t, 17);
  }

  /** FindValue returns the value at the first valid position. */
  lemma {:induction false} Leftmost(s: string, p: nat)
    requires p <= |s| && ValueAt(s, p)
    requires forall p' :: 0 <= p' < p ==> !ValueAt(s, p')
    ensures FindValue(s, 0) == (if HasPrefix(s[p..], ":changed") then ":changed" else "true")
  {
    LeftmostFrom(s, 0, p);
  }

  lemma {:induction false} LeftmostFrom(s: string, from: nat, p: nat)
    requires from <= p <= |s| && ValueAt(s, p)
    requires forall p' :: from <= p' < p ==> !ValueAt(s, p')
    ensures FindValue(s, from) == (if HasPrefix(s[p..], ":changed") then ":changed" else "true")
    decreases p - from
  {
    if from < p {
      assert !ValueAt(s, from);
      LeftmostFrom(s, from + 1, p);
    }
  }

  /** What a `brew` line says about its package. */
  datatype Parsed = Parsed(Name: string, Args: seq<string>, RestartService: string)

  /** The line holds a quoted token; without one the slice in the source
      panics. */
  predicate HasQuoted(line: string) {
    FindQuoted(line, 0).Some?
  }

  /** The option a restart clause carries. */
  function ClauseValue(clause: string): (r: string)
    requires clause == RestartChanged || clause == RestartTrue
    ensures r == (if clause == RestartChanged then ":changed" else "true")
  {
    RestartValue();
    FindValue(clause, 0)
  }

  /** The restart option of a line: the value inside its first restart
      clause, or "" when it has none. */
  function RestartOption(line: string): (r: string)
    ensures FindRestart(line, 0).None? ==> r == ""
    ensures (FindRestart(line, 0).Some? && HasPrefix(line[FindRestart(line, 0).value..], RestartChanged))
              ==> r == ":changed"
    ensures (FindRestart(line, 0).Some? && !HasPrefix(line[FindRestart(line, 0).value..], RestartChanged))
              ==> r == "true"
  {
    var restart := FindRestart(line, 0);
    if restart.None? then ""
    else
      var p := restart.value;
      var n := if HasPrefix(line[p..], RestartChanged) then |RestartChanged| else |RestartTrue|;
      assert p + n <= |line|;
      assert line[p..p + n] == line[p..][..n];
      ClauseValue(line[p..p + n])
  }

  /** The quoted tokens of the bracketed stretch, or none without one. */
  function ArgsOf(line: string): seq<string> {
    var bracket := FindBracketed(line, 0);
    if bracket.Some? then QuotedTokens(line[bracket.value.start..bracket.value.end + 1], 0)
    else []
  }

  /** Reads one Brewfile line the way FromPackages and FromBrewfile do: the
      name is the first quoted token, the arguments are the quoted tokens
      inside the bracketed stretch, the restart option is the value of the
      first restart clause. */
  function Parse(line: string): Parsed
    requires HasQuoted(line)
  {
    Parsed(Inner(line, FindQuoted(line, 0).value), ArgsOf(line), RestartOption(line))
  }

  /** What a parsed line holds: a non-empty name without white space,
      arguments that are non-empty runs without white space, and a restart
      option that is "", `:changed` or `true`. */
  lemma ParseShape(line: string)
    requires HasQuoted(line)
    ensures var p := Parse(line);
      |p.Name| > 0 && (forall j | 0 <= j < |p.Name| :: !IsSpace(p.Name[j]))
      && (forall k | 0 <= k < |p.Args| ::
            |p.Args[k]| > 0 && forall j | 0 <= j < |p.Args[k]| :: !IsSpace(p.Args[k][j]))
      && (p.RestartService == "" || p.RestartService == ":changed" || p.RestartService == "true")
  {
    var m := FindQuoted(line, 0).value;
    var name := Inner(line, m);
    assert forall j | 0 <= j < |name| :: name[j] == line[m.start + 1 + j];
    var bracket := FindBracketed(line, 0);
    if bracket.Some? {
      QuotedTokensShape(line[bracket.value.start..bracket.value.end + 1], 0);
    }
  }
}
