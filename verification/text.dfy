/** Text helpers of the catalog: prefix and substring tests, and the keyword
    normalisation that search applies to keywords and stored labels. */
module Text {

  /** `s.startswith(prefix)` */
  predicate StartsWith(s: string, prefix: string) {
    |prefix| <= |s| && s[..|prefix|] == prefix
  }

  /** Python's `needle in haystack` on strings: some suffix of the haystack
      starts with the needle. */
  predicate IsSubstring(needle: string, haystack: string) {
    StartsWith(haystack, needle) || (|haystack| > 0 && IsSubstring(needle, haystack[1..]))
  }

  predicate IsAscii(ch: char) {
    ch as int < 128
  }

  predicate IsUpperLetter(ch: char) {
    'A' <= ch <= 'Z'
  }

  function LowerChar(ch: char): char {
    if IsUpperLetter(ch) then (ch as int + 32) as char else ch
  }

  function UpperChar(ch: char): char {
    if 'a' <= ch <= 'z' then (ch as int - 32) as char else ch
  }

  /** `s.upper()` on ASCII letters; every other character is kept. */
  function UpperAscii(s: string): string {
    if s == [] then [] else [UpperChar(s[0])] + UpperAscii(s[1..])
  }

  /** A string that normalisation leaves alone: ASCII only, no upper-case letter. */
  predicate IsNormal(s: string) {
    forall i :: 0 <= i < |s| ==> IsAscii(s[i]) && !IsUpperLetter(s[i])
  }

  /** The search normalisation: decompose, drop what is not ASCII, lower-case.
      The decomposition step is not modelled, so a non-ASCII character is
      dropped rather than replaced by its base letter. */
  function Normalize(s: string): (r: string)
    ensures |r| <= |s|
    ensures IsNormal(r)
    ensures (forall i :: 0 <= i < |s| ==> !IsAscii(s[i])) ==> r == []
  {
    if s == [] then []
    else (if IsAscii(s[0]) then [LowerChar(s[0])] else []) + Normalize(s[1..])
  }

  /** A string already in normal form is its own normalisation. */
  lemma {:induction false} NormalizeFixesNormal(s: string)
    requires IsNormal(s)
    ensures Normalize(s) == s
  {
    if s != [] {
      NormalizeFixesNormal(s[1..]);
      assert s == [s[0]] + s[1..];
    }
  }

  /** Normalising twice is normalising once. */
  lemma NormalizeIdempotent(s: string)
    ensures Normalize(Normalize(s)) == Normalize(s)
  {
    NormalizeFixesNormal(Normalize(s));
  }

  /** Upper-casing the ASCII letters of a string does not change its
      normalisation: search is case-insensitive. */
  lemma {:induction false} NormalizeIgnoresCase(s: string)
    ensures Normalize(UpperAscii(s)) == Normalize(s)
  {
    if s != [] {
      NormalizeIgnoresCase(s[1..]);
      var u := UpperAscii(s);
      assert u[0] == UpperChar(s[0]) && u[1..] == UpperAscii(s[1..]);
      assert IsAscii(u[0]) == IsAscii(s[0]);
      assert LowerChar(u[0]) == LowerChar(s[0]);
    }
  }

  /** `needle` occurs in `haystack` starting at position `i`. */
  predicate OccursAt(needle: string, haystack: string, i: nat) {
    i + |needle| <= |haystack| && haystack[i..i + |needle|] == needle
  }

  /** A slice of the tail is the slice one position further on. */
  lemma SliceOfTail(s: string, i: nat, j: nat)
    requires i <= j < |s|
    ensures s[1..][i..j] == s[i + 1..j + 1]
  {
    forall k | 0 <= k < j - i ensures s[1..][i..j][k] == s[i + 1..j + 1][k] {
    }
  }

  /** The substring test finds the needle exactly when it occurs at some
      position of the haystack. */
  lemma {:induction false} IsSubstringOccurs(needle: string, haystack: string)
    ensures IsSubstring(needle, haystack) <==> exists i: nat :: OccursAt(needle, haystack, i)
    decreases |haystack|
  {
    var n := |needle|;
    if StartsWith(haystack, needle) {
      assert OccursAt(needle, haystack, 0);
    } else if |haystack| > 0 {
      var tail := haystack[1..];
      IsSubstringOccurs(needle, tail);
      if IsSubstring(needle, tail) {
        var i: nat :| OccursAt(needle, tail, i);
        SliceOfTail(haystack, i, i + n);
        assert OccursAt(needle, haystack, i + 1);
      }
      if exists i: nat :: OccursAt(needle, haystack, i) {
        var i: nat :| OccursAt(needle, haystack, i);
        assert i != 0;
        SliceOfTail(haystack, i - 1, i - 1 + n);
        assert OccursAt(needle, tail, i - 1);
      }
    }
  }

  /** The empty needle is found in every haystack, and every string is found
      in itself. */
  lemma SubstringBasics(needle: string, haystack: string)
    ensures IsSubstring([], haystack)
    ensures IsSubstring(needle, needle)
  {
    assert haystack[..0] == [];
    assert needle[..|needle|] == needle;
  }
}
