/**
 * The string operations of Rust's `str` that the core relies on: substring
 * search (`contains`, `find`, and regex lookups that consist of literal
 * characters only), `ends_with`, `split` on one character and
 * `replacen(pat, to, 1)`. Strings are sequences of Unicode scalar values;
 * Rust works on UTF-8 bytes, but every position these operations report lies
 * on a character boundary, so counting in characters gives the same results.
 */
module Text {
  import opened Wrappers

  /** `pat` occurs in `s` starting at index `i`. */
  predicate OccursAt(s: string, pat: string, i: nat) {
    i + |pat| <= |s| && s[i..i + |pat|] == pat
  }

  /** `i` is the leftmost occurrence of `pat` in `s`. */
  predicate IsFirstOccurrence(s: string, pat: string, i: nat) {
    OccursAt(s, pat, i) && forall j: nat :: j < i ==> !OccursAt(s, pat, j)
  }

  /** `pat` is a substring of `s`. */
  predicate Contains(s: string, pat: string) {
    exists i: nat :: i <= |s| && OccursAt(s, pat, i)
  }

  /** The leftmost occurrence of `pat` in `s` at or after `from`. */
  function FindFrom(s: string, pat: string, from: nat): (r: Option<nat>)
    decreases |s| + 1 - from
    ensures r.Some? ==> from <= r.value && OccursAt(s, pat, r.value)
    ensures r.Some? ==> forall j: nat :: from <= j < r.value ==> !OccursAt(s, pat, j)
    ensures r.None? ==> forall j: nat :: from <= j ==> !OccursAt(s, pat, j)
  {
    if from + |pat| > |s| then None
    else if OccursAt(s, pat, from) then Some(from)
    else FindFrom(s, pat, from + 1)
  }

  /** Rust's `str::find`: the index of the leftmost occurrence of `pat`. */
  function FindFirst(s: string, pat: string): (r: Option<nat>)
    ensures r.None? <==> !Contains(s, pat)
    ensures r.Some? ==> IsFirstOccurrence(s, pat, r.value)
  {
    FindFrom(s, pat, 0)
  }

  /**
   * Where a regex `.*` that starts at `p` stops: at the first line feed at or
   * after `p`, or at the end of `s` (`.` does not match `\n`).
   */
  function LineEnd(s: string, p: nat): (e: nat)
    requires p <= |s|
    decreases |s| - p
    ensures p <= e <= |s|
    ensures e == |s| || s[e] == '\n'
    ensures forall k :: p <= k < e ==> s[k] != '\n'
  {
    if p == |s| || s[p] == '\n' then p else LineEnd(s, p + 1)
  }

  /** Rust's `str::ends_with`. */
  predicate EndsWith(s: string, suffix: string) {
    |suffix| <= |s| && s[|s| - |suffix|..] == suffix
  }

  /**
   * Rust's `str::split` on one character: the pieces between the separators,
   * empty pieces included; a string without separator is one piece.
   */
  function Split(s: string, sep: char): (parts: seq<string>)
    decreases |s|
    ensures |parts| >= 1
    ensures forall k :: 0 <= k < |parts| ==> sep !in parts[k]
  {
    match FindFirst(s, [sep])
    case None =>
      assert forall k :: 0 <= k < |s| ==> s[k] != sep by {
        forall k | 0 <= k < |s| ensures s[k] != sep {
          assert !OccursAt(s, [sep], k);
        }
      }
      [s]
    case Some(i) =>
      assert forall k :: 0 <= k < i ==> s[k] != sep by {
        forall k | 0 <= k < i ensures s[k] != sep {
          assert !OccursAt(s, [sep], k);
        }
      }
      [s[..i]] + Split(s[i + 1..], sep)
  }

  /** The pieces glued back together with `sep` between consecutive ones. */
  function Join(parts: seq<string>, sep: char): string
    requires |parts| >= 1
  {
    if |parts| == 1 then parts[0] else parts[0] + [sep] + Join(parts[1..], sep)
  }

  /** Splitting loses nothing: joining the pieces gives the string back. */
  lemma {:induction false} JoinSplit(s: string, sep: char)
    decreases |s|
    ensures Join(Split(s, sep), sep) == s
  {
    match FindFirst(s, [sep])
    case None =>
      assert Split(s, sep) == [s];
    case Some(i) =>
      var rest := Split(s[i + 1..], sep);
      assert Split(s, sep) == [s[..i]] + rest;
      assert ([s[..i]] + rest)[1..] == rest;
      assert Join([s[..i]] + rest, sep) == s[..i] + [sep] + Join(rest, sep);
      JoinSplit(s[i + 1..], sep);
      assert s[i..i + 1] == [sep];
      assert s == s[..i] + [sep] + s[i + 1..];
  }

  /**
   * Rust's `str::replacen(pat, rep, 1)`: the leftmost occurrence of `pat` is
   * replaced by `rep`. The empty pattern occurs at index 0, so it prefixes `s`.
   */
  function ReplaceFirst(s: string, pat: string, rep: string): (r: string)
    ensures !Contains(s, pat) ==> r == s
    ensures Contains(s, pat) ==>
      exists i: nat :: IsFirstOccurrence(s, pat, i) && r == s[..i] + rep + s[i + |pat|..]
  {
    match FindFirst(s, pat)
    case None => s
    case Some(i) => s[..i] + rep + s[i + |pat|..]
  }

  /** With the empty pattern, `replacen` puts `rep` in front of the whole string. */
  lemma ReplaceFirstEmptyPattern(s: string, rep: string)
    ensures ReplaceFirst(s, "", rep) == rep + s
  {
    assert OccursAt(s, "", 0);
  }

  /**
   * Only the first occurrence is replaced: any later occurrence of `pat` that
   * does not overlap the first one survives, shifted by the change in length.
   */
  lemma ReplaceFirstKeepsLaterOccurrences(s: string, pat: string, rep: string, i: nat, j: nat)
    requires IsFirstOccurrence(s, pat, i)
    requires i + |pat| <= j && OccursAt(s, pat, j)
    ensures OccursAt(ReplaceFirst(s, pat, rep), pat, j - |pat| + |rep|)
  {
    var r := ReplaceFirst(s, pat, rep);
    assert FindFirst(s, pat) == Some(i);
    assert r == s[..i] + rep + s[i + |pat|..];
    var j' := j - |pat| + |rep|;
    assert r[j'..j' + |pat|] == s[j..j + |pat|];
  }
}
