/** JavaScript string primitives the engine relies on: substring search, split and join. */
module Strings {
  import opened Seqs

  /** `pat` occurs in `s` starting at index `i`. */
  predicate OccursAt(s: string, pat: string, i: nat) {
    i + |pat| <= |s| && s[i..i + |pat|] == pat
  }

  /** `s.indexOf(pat, from)`: the first index at or after `from` where `pat` occurs, or -1. */
  function IndexOfFrom(s: string, pat: string, from: nat): (r: int)
    ensures r == -1 || (from <= r && OccursAt(s, pat, r))
    ensures r == -1 ==> forall k: nat :: from <= k ==> !OccursAt(s, pat, k)
    ensures r >= 0 ==> forall k: nat :: from <= k < r ==> !OccursAt(s, pat, k)
    decreases |s| - from + 1
  {
    if from + |pat| > |s| then -1
    else if s[from..from + |pat|] == pat then from
    else IndexOfFrom(s, pat, from + 1)
  }

  /** `s.indexOf(pat)`. */
  function IndexOf(s: string, pat: string): (r: int)
    ensures r == -1 || (r >= 0 && OccursAt(s, pat, r))
    ensures r == -1 ==> forall k: nat :: !OccursAt(s, pat, k)
    ensures r >= 0 ==> forall k: nat :: k < r ==> !OccursAt(s, pat, k)
  {
    IndexOfFrom(s, pat, 0)
  }

  /** The search answers `p` when `p` is the first place `pat` occurs. */
  lemma IndexOfIs(s: string, pat: string, p: nat)
    requires OccursAt(s, pat, p)
    requires forall k: nat :: k < p ==> !OccursAt(s, pat, k)
    ensures IndexOf(s, pat) == p
  {
  }

  /** Two strings that agree on their first `m` characters agree on every occurrence inside them. */
  lemma OccursInPrefix(s1: string, s2: string, pat: string, k: nat, m: nat)
    requires m <= |s1| && m <= |s2| && s1[..m] == s2[..m] && k + |pat| <= m
    ensures OccursAt(s1, pat, k) <==> OccursAt(s2, pat, k)
  {
    assert s1[k..k + |pat|] == s1[..m][k..k + |pat|];
    assert s2[k..k + |pat|] == s2[..m][k..k + |pat|];
  }

  /** `parts.join(sep)`. */
  function Join(parts: seq<string>, sep: string): string {
    if |parts| == 0 then ""
    else if |parts| == 1 then parts[0]
    else parts[0] + sep + Join(parts[1..], sep)
  }

  /** `s.split(sep)` for a one-character separator: every piece between separators, empty ones included. */
  function Split(s: string, sep: char): (r: seq<string>)
    ensures |r| >= 1
    ensures forall k :: 0 <= k < |r| ==> sep !in r[k]
    decreases |s|
  {
    var i := Position(s, sep);
    if i == |s| then [s] else [s[..i]] + Split(s[i + 1..], sep)
  }

  /** Joining pieces without the separator and splitting again gives the pieces back. */
  lemma {:induction false} SplitJoin(parts: seq<string>, sep: char)
    requires |parts| >= 1 && forall k :: 0 <= k < |parts| ==> sep !in parts[k]
    ensures Split(Join(parts, [sep]), sep) == parts
    decreases |parts|
  {
    var s := Join(parts, [sep]);
    if |parts| == 1 {
      assert Position(s, sep) == |s|;
    } else {
      var rest := Join(parts[1..], [sep]);
      assert s == parts[0] + [sep] + rest;
      var i := |parts[0]|;
      assert s[i] == sep && s[..i] == parts[0];
      assert Position(s, sep) == i by {
        assert sep !in s[..i];
      }
      assert s[i + 1..] == rest;
      SplitJoin(parts[1..], sep);
      assert Split(s, sep) == [parts[0]] + parts[1..];
    }
  }

  /** Splitting and joining again with the same separator gives the original string back. */
  lemma {:induction false} JoinSplit(s: string, sep: char)
    ensures Join(Split(s, sep), [sep]) == s
    decreases |s|
  {
    var i := Position(s, sep);
    if i < |s| {
      var rest := Split(s[i + 1..], sep);
      var parts := Split(s, sep);
      assert parts == [s[..i]] + rest;
      assert parts[1..] == rest;
      assert Join(parts, [sep]) == s[..i] + [sep] + Join(rest, [sep]);
      JoinSplit(s[i + 1..], sep);
      assert s == s[..i] + [sep] + s[i + 1..];
    }
  }
}
