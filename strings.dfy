/** Python's `str.split(sep)` and `sep.join(parts)` for a non-empty separator, on character sequences. */
module Strings {
  import opened Wrappers

  /** `sep` occurs in `s` starting at index `i`. */
  predicate OccursAt(s: string, sep: string, i: nat) {
    i + |sep| <= |s| && s[i..i + |sep|] == sep
  }

  /** `sep in s` */
  ghost predicate Contains(s: string, sep: string) {
    exists i: nat :: OccursAt(s, sep, i)
  }

  /** `s.find(sep, from)`: the leftmost occurrence at or after `from`, or none. */
  function FindFrom(s: string, sep: string, from: nat): (r: Option<nat>)
    requires from <= |s|
    ensures r.Some? ==> from <= r.value && OccursAt(s, sep, r.value)
    ensures r.Some? ==> forall j: nat :: from <= j < r.value ==> !OccursAt(s, sep, j)
    ensures r.None? ==> forall j: nat :: from <= j ==> !OccursAt(s, sep, j)
    decreases |s| - from
  {
    if from + |sep| > |s| then None
    else if s[from..from + |sep|] == sep then Some(from)
    else FindFrom(s, sep, from + 1)
  }

  /** `sep.join(parts)` for a non-empty list of parts. */
  function JoinWith(parts: seq<string>, sep: string): string
    requires |parts| >= 1
  {
    if |parts| == 1 then parts[0] else parts[0] + sep + JoinWith(parts[1..], sep)
  }

  /** A prefix of `s` that ends before every occurrence in `s` has no occurrence of its own. */
  lemma NoOccurrenceInPrefix(s: string, sep: string, i: nat)
    requires |sep| > 0 && i <= |s|
    requires forall j: nat :: j < i ==> !OccursAt(s, sep, j)
    ensures !Contains(s[..i], sep)
  {
    if Contains(s[..i], sep) {
      var j: nat :| OccursAt(s[..i], sep, j);
      assert s[..i][j..j + |sep|] == s[j..j + |sep|];
      assert OccursAt(s, sep, j);
    }
  }

  /**
   * Every cut of `parts` is at the leftmost occurrence of `sep` after the
   * previous cut: no occurrence starts inside the first part of the joined
   * text, and the same holds for the remaining parts.
   */
  ghost predicate LeftmostCuts(parts: seq<string>, sep: string)
    requires |parts| >= 1
    decreases |parts|
  {
    && (forall j: nat :: j < |parts[0]| ==> !OccursAt(JoinWith(parts, sep), sep, j))
    && (|parts| > 1 ==> LeftmostCuts(parts[1..], sep))
  }

  /**
   * `s.split(sep)`: cut at the leftmost occurrence, then split the rest.
   * Joining the parts back gives `s`, no part contains `sep`, and every
   * cut is at the leftmost occurrence after the previous one.
   */
  function Split(s: string, sep: string): (parts: seq<string>)
    requires |sep| > 0
    ensures |parts| >= 1
    ensures JoinWith(parts, sep) == s
    ensures forall p :: p in parts ==> !Contains(p, sep)
    ensures forall j: nat :: j < |parts[0]| ==> !OccursAt(s, sep, j)
    ensures |parts| > 1 ==> OccursAt(s, sep, |parts[0]|)
    ensures LeftmostCuts(parts, sep)
    decreases |s|
  {
    match FindFrom(s, sep, 0)
    case None =>
      NoOccurrenceInPrefix(s, sep, |s|);
      assert s[..|s|] == s;
      [s]
    case Some(i) =>
      var rest := Split(s[i + |sep|..], sep);
      NoOccurrenceInPrefix(s, sep, i);
      assert s == s[..i] + sep + s[i + |sep|..];
      assert ([s[..i]] + rest)[1..] == rest;
      [s[..i]] + rest
  }

  /**
   * The contract of Split determines it: any parts that join back to `s`
   * with every cut at the leftmost occurrence after the previous one are
   * `Split(s, sep)`.
   */
  lemma {:induction false} SplitUnique(s: string, sep: string, parts: seq<string>)
    requires |sep| > 0 && |parts| >= 1
    requires JoinWith(parts, sep) == s && LeftmostCuts(parts, sep)
    ensures parts == Split(s, sep)
    decreases |parts|
  {
    if |parts| == 1 {
      SplitWhole(s, sep);
    } else {
      var i, tail := |parts[0]|, JoinWith(parts[1..], sep);
      assert s == parts[0] + sep + tail;
      assert s[i..i + |sep|] == sep && s[..i] == parts[0] && s[i + |sep|..] == tail;
      SplitCut(s, sep, i);
      SplitUnique(tail, sep, parts[1..]);
      assert parts == [parts[0]] + parts[1..];
    }
  }

  /** A text with no occurrence of `sep` splits into itself alone. */
  lemma SplitWhole(s: string, sep: string)
    requires |sep| > 0
    requires forall j: nat :: j < |s| ==> !OccursAt(s, sep, j)
    ensures Split(s, sep) == [s]
  {
    assert FindFrom(s, sep, 0).None?;
  }

  /** A text whose leftmost occurrence of `sep` is at `i` is cut there first. */
  lemma SplitCut(s: string, sep: string, i: nat)
    requires |sep| > 0 && OccursAt(s, sep, i)
    requires forall j: nat :: j < i ==> !OccursAt(s, sep, j)
    ensures Split(s, sep) == [s[..i]] + Split(s[i + |sep|..], sep)
  {
    assert FindFrom(s, sep, 0) == Some(i);
  }
}
