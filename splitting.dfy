/**
 * Python's `str.find` and `str.split` on a non-empty separator, and the facts
 * about them the model relies on.
 */
module Splitting {
  import opened Wrappers

  /** `sep` occurs in `s` starting at index `k`. */
  predicate OccursAt(s: string, sep: string, k: int)
  {
    0 <= k && k + |sep| <= |s| && s[k..k + |sep|] == sep
  }

  predicate Contains(s: string, sep: string)
  {
    exists k :: 0 <= k <= |s| && OccursAt(s, sep, k)
  }

  /** The first occurrence of `sep` in `s` at or after `from` (`s.find(sep, from)`). */
  function FindFrom(s: string, sep: string, from: nat): (r: Option<nat>)
    decreases |s| - from
    ensures r.Some? ==> from <= r.value && OccursAt(s, sep, r.value)
    ensures r.Some? ==> forall k :: from <= k < r.value ==> !OccursAt(s, sep, k)
    ensures r.None? ==> forall k :: from <= k ==> !OccursAt(s, sep, k)
  {
    if from + |sep| > |s| then None
    else if OccursAt(s, sep, from) then Some(from)
    else FindFrom(s, sep, from + 1)
  }

  /** `s.split(sep)` for a non-empty separator: cut at each leftmost occurrence. */
  function Split(s: string, sep: string): (parts: seq<string>)
    requires |sep| > 0
    decreases |s|
    ensures |parts| >= 1
    ensures |parts| >= 2 <==> Contains(s, sep)
    ensures |parts[0]| <= |s| && parts[0] == s[..|parts[0]|]
    ensures |parts[0]| < |s| ==> OccursAt(s, sep, |parts[0]|)
  {
    match FindFrom(s, sep, 0)
    case None => [s]
    case Some(i) =>
      assert OccursAt(s, sep, i);
      [s[..i]] + Split(s[i + |sep|..], sep)
  }

  /** No piece of a split contains the separator. */
  lemma {:induction false} SplitPiecesFree(s: string, sep: string)
    requires |sep| > 0
    decreases |s|
    ensures forall i :: 0 <= i < |Split(s, sep)| ==> !Contains(Split(s, sep)[i], sep)
  {
    match FindFrom(s, sep, 0)
    case None =>
      assert Split(s, sep) == [s];
    case Some(i) =>
      var parts := Split(s, sep);
      var tail := s[i + |sep|..];
      SplitAt(s, sep, i);
      NoOccurrenceInPrefix(s, sep, i);
      SplitPiecesFree(tail, sep);
      forall k | 0 <= k < |parts| ensures !Contains(parts[k], sep) {
        if k > 0 {
          assert parts[k] == parts[1..][k - 1];
        }
      }
  }

  lemma NoOccurrenceInPrefix(s: string, sep: string, i: nat)
    requires |sep| > 0 && i <= |s|
    requires forall k :: 0 <= k < i ==> !OccursAt(s, sep, k)
    ensures !Contains(s[..i], sep)
  {
    if Contains(s[..i], sep) {
      var k :| 0 <= k <= i && OccursAt(s[..i], sep, k);
      assert s[..i][k..k + |sep|] == s[k..k + |sep|];
      assert OccursAt(s, sep, k);
    }
  }

  /** `sep.join(parts)`. */
  function Join(parts: seq<string>, sep: string): string
  {
    if |parts| == 0 then ""
    else if |parts| == 1 then parts[0]
    else parts[0] + sep + Join(parts[1..], sep)
  }

  /** Splitting and joining again gives back the string. */
  lemma {:induction false} JoinSplit(s: string, sep: string)
    requires |sep| > 0
    decreases |s|
    ensures Join(Split(s, sep), sep) == s
  {
    var found := FindFrom(s, sep, 0);
    if found.Some? {
      var i := found.value;
      SplitAt(s, sep, i);
      JoinSplit(s[i + |sep|..], sep);
      JoinAtCut(s, sep, i, Split(s, sep));
    } else {
      assert Split(s, sep) == [s];
    }
  }

  /** Joining pieces whose head is the text before a separator at `i` and whose
      tail joins back to the text after it. */
  lemma JoinAtCut(s: string, sep: string, i: nat, parts: seq<string>)
    requires i + |sep| <= |s| && |parts| >= 2
    requires parts[0] == s[..i] && s[i..i + |sep|] == sep
    requires Join(parts[1..], sep) == s[i + |sep|..]
    ensures Join(parts, sep) == s
  {
    JoinStep(parts, sep);
    Reassemble(s, i, |sep|);
  }

  lemma JoinStep(parts: seq<string>, sep: string)
    requires |parts| >= 2
    ensures Join(parts, sep) == parts[0] + sep + Join(parts[1..], sep)
  {
  }

  lemma Reassemble(s: string, i: nat, k: nat)
    requires i + k <= |s|
    ensures s == s[..i] + s[i..i + k] + s[i + k..]
  {
  }

  /** One step of `Split`: cut at the first occurrence. */
  lemma SplitAt(s: string, sep: string, i: nat)
    requires |sep| > 0 && FindFrom(s, sep, 0) == Some(i)
    ensures i + |sep| <= |s|
    ensures |Split(s, sep)| >= 2 && Split(s, sep)[0] == s[..i] && Split(s, sep)[1..] == Split(s[i + |sep|..], sep)
  {
    var tail := s[i + |sep|..];
    var parts := [s[..i]] + Split(tail, sep);
    assert Split(s, sep) == parts;
    assert parts[1..] == Split(tail, sep);
  }

  /** Where the piece after the first separator sits: right after that separator,
      ending at the next one or at the end. */
  lemma SecondPieceLocation(s: string, sep: string, i: nat)
    requires |sep| > 0 && FindFrom(s, sep, 0) == Some(i)
    ensures var a := Split(s[i + |sep|..], sep)[0];
            && i + |sep| + |a| <= |s|
            && !Contains(s[..i], sep)
            && s[i..i + |sep|] == sep
            && s[i + |sep|..i + |sep| + |a|] == a
            && (i + |sep| + |a| == |s| || OccursAt(s, sep, i + |sep| + |a|))
  {
    NoOccurrenceInPrefix(s, sep, i);
    var rest := s[i + |sep|..];
    var a := Split(rest, sep)[0];
    ShiftedPiece(s, sep, i, a);
  }

  /** Positions inside the tail after an occurrence at `i`, read back in `s`. */
  lemma ShiftedPiece(s: string, sep: string, i: nat, a: string)
    requires OccursAt(s, sep, i)
    requires |a| <= |s| - i - |sep| && s[i + |sep|..][..|a|] == a
    requires |a| < |s| - i - |sep| ==> OccursAt(s[i + |sep|..], sep, |a|)
    ensures s[i + |sep|..i + |sep| + |a|] == a
    ensures i + |sep| + |a| == |s| || OccursAt(s, sep, i + |sep| + |a|)
  {
    var rest := s[i + |sep|..];
    assert s[i + |sep|..i + |sep| + |a|] == rest[..|a|];
    if |a| < |rest| {
      assert rest[|a|..|a| + |sep|] == s[i + |sep| + |a|..i + |sep| + |a| + |sep|];
    }
  }
}
