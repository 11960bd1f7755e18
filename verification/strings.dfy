/** The string operations the step parser and the metadata filter rely on,
    with Rust's `str` semantics: prefix test, whitespace trimming, splitting
    on a separator, and splitting once at a character. */
module Strings {
  import opened Wrappers
  import Seqs

  /** Unicode `White_Space`, the set `char::is_whitespace` tests. */
  predicate IsWhitespace(c: char) {
    || ('\t' <= c <= '\r')
    || c == ' '
    || c == '\U{85}'
    || c == '\U{A0}'
    || c == '\U{1680}'
    || ('\U{2000}' <= c <= '\U{200A}')
    || c == '\U{2028}'
    || c == '\U{2029}'
    || c == '\U{202F}'
    || c == '\U{205F}'
    || c == '\U{3000}'
  }

  /** Every character of `w` is whitespace. */
  predicate AllWhitespace(w: string) {
    forall i :: 0 <= i < |w| ==> IsWhitespace(w[i])
  }

  /** `s` without its leading whitespace. */
  function TrimStart(s: string): (r: string)
    ensures |r| <= |s| && r == s[|s| - |r|..]
    ensures AllWhitespace(s[..|s| - |r|])
    ensures |r| > 0 ==> !IsWhitespace(r[0])
  {
    if |s| > 0 && IsWhitespace(s[0]) then TrimStart(s[1..]) else s
  }

  /** `s` without its trailing whitespace. */
  function TrimEnd(s: string): (r: string)
    ensures |r| <= |s| && r == s[..|r|]
    ensures AllWhitespace(s[|r|..])
    ensures |r| > 0 ==> !IsWhitespace(r[|r| - 1])
  {
    if |s| > 0 && IsWhitespace(s[|s| - 1]) then TrimEnd(s[..|s| - 1]) else s
  }

  /** `str::trim`: `s` without leading and trailing whitespace. The result
      is a prefix of a suffix of `s`; everything cut before it and after it
      is whitespace, and it neither starts nor ends with whitespace. */
  function Trim(s: string): (r: string)
    ensures |r| <= |s|
    ensures |r| > 0 ==> !IsWhitespace(r[0]) && !IsWhitespace(r[|r| - 1])
    ensures var t := TrimStart(s);
      && |t| <= |s| && t == s[|s| - |t|..] && |r| <= |t| && r == t[..|r|]
      && AllWhitespace(s[..|s| - |t|]) && AllWhitespace(t[|r|..])
  {
    TrimEnd(TrimStart(s))
  }

  /** A string that neither starts nor ends with whitespace is its own trim. */
  lemma TrimUnchanged(s: string)
    requires |s| > 0 ==> !IsWhitespace(s[0]) && !IsWhitespace(s[|s| - 1])
    ensures Trim(s) == s
  {
  }

  /** `sep` occurs in `s` at position `i`. */
  predicate OccursAt(s: string, sep: string, i: nat) {
    i + |sep| <= |s| && s[i..i + |sep|] == sep
  }

  /** `sep` occurs somewhere in `s`. */
  predicate Contains(s: string, sep: string) {
    exists i :: 0 <= i <= |s| && OccursAt(s, sep, i)
  }

  /** The leftmost occurrence of `sep` in `s` at or after `from`. */
  function FindFrom(s: string, sep: string, from: nat): (r: Option<nat>)
    requires |sep| > 0
    ensures r.Some? ==> from <= r.value && OccursAt(s, sep, r.value)
    ensures r.Some? ==> forall i :: from <= i < r.value ==> !OccursAt(s, sep, i)
    ensures r.None? ==> forall i :: from <= i ==> !OccursAt(s, sep, i)
    decreases |s| - from
  {
    if from + |sep| > |s| then None
    else if s[from..from + |sep|] == sep then Some(from)
    else FindFrom(s, sep, from + 1)
  }

  /** `str::split` with a string pattern: the pieces between the leftmost
      non-overlapping occurrences of `sep`, scanning from the left. */
  function Split(s: string, sep: string): (r: seq<string>)
    requires |sep| > 0
    ensures |r| >= 1
    ensures Join(r, sep) == s
    ensures forall k :: 0 <= k < |r| ==> !Contains(r[k], sep)
    decreases |s|
  {
    match FindFrom(s, sep, 0)
    case None => [s]
    case Some(i) =>
      var piece, rest := s[..i], s[i + |sep|..];
      assert s == piece + sep + rest;
      forall j | 0 <= j <= |piece|
        ensures !OccursAt(piece, sep, j)
      {
        if j + |sep| <= |piece| {
          assert !OccursAt(s, sep, j);
          assert s[j..j + |sep|] == piece[j..j + |sep|];
        }
      }
      [piece] + Split(rest, sep)
  }

  /** The pieces glued back together with `sep` between neighbours. */
  function Join(pieces: seq<string>, sep: string): string
    requires |pieces| >= 1
  {
    if |pieces| == 1 then pieces[0]
    else pieces[0] + sep + Join(pieces[1..], sep)
  }

  /** The separator of the step list. */
  const Arrow: string := "->"

  /** Splitting on `"->"` undoes joining with `"->"`: pieces that contain no
      arrow come back unchanged and in order. */
  lemma {:induction false} SplitJoin(pieces: seq<string>)
    requires |pieces| >= 1
    requires forall k :: 0 <= k < |pieces| ==> !Contains(pieces[k], Arrow)
    ensures Split(Join(pieces, Arrow), Arrow) == pieces
  {
    var p := pieces[0];
    if |pieces| == 1 {
      assert FindFrom(p, Arrow, 0).None?;
    } else {
      var rest := Join(pieces[1..], Arrow);
      var s := p + Arrow + rest;
      assert OccursAt(s, Arrow, |p|);
      forall i | 0 <= i < |p|
        ensures !OccursAt(s, Arrow, i)
      {
        if i + 1 < |p| {
          assert !OccursAt(p, Arrow, i);
          assert s[i..i + 2] == p[i..i + 2];
        } else {
          assert s[i + 1] == '-' && s[i..i + 2][1] == s[i + 1];
        }
      }
      assert FindFrom(s, Arrow, 0) == Some(|p|);
      assert s[|p| + 2..] == rest;
      SplitJoin(pieces[1..]);
    }
  }

  /** `str::split_once` at a character: the parts before and after its first
      occurrence, or nothing when it does not occur. */
  function SplitOnce(s: string, c: char): (r: Option<(string, string)>)
    ensures r.None? <==> c !in s
    ensures r.Some? ==> c !in r.value.0 && s == r.value.0 + [c] + r.value.1
  {
    if c in s then
      var i := Seqs.FirstIndex(s, c);
      assert s == s[..i] + [c] + s[i + 1..];
      Some((s[..i], s[i + 1..]))
    else None
  }
}
