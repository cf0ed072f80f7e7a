/**
 * The case-insensitive substring search used where the C library has no
 * `strcasestr`: every start position is tried in turn, and the first one
 * at which each needle character equals the haystack character, both
 * taken to upper case, is returned. C strings are modelled as their
 * characters before the terminating NUL, a null pointer as `None`, and the
 * returned pointer as the offset into the haystack.
 */
module StringSearch {
  import opened Wrappers

  /** `size_t` of a 64-bit build: arithmetic wraps modulo 2^64. */
  const SizeModulus: nat := 0x1_0000_0000_0000_0000

  /** `toupper` in the C locale: only the ASCII lower-case letters change. */
  function Upper(c: char): (u: char)
    ensures ('a' <= c <= 'z') == (u != c)
  {
    if 'a' <= c <= 'z' then (c as int - 32) as char else c
  }

  /** The needle occurs at start position `i`, case ignored. */
  predicate MatchAt(haystack: string, needle: string, i: nat)
  {
    i + |needle| <= |haystack|
    && forall j :: 0 <= j < |needle| ==> Upper(haystack[i + j]) == Upper(needle[j])
  }

  /** The search: `None` for a null argument or when the needle occurs
    * nowhere, otherwise the first start position where it occurs. */
  method StringLocateSubstring(haystack: Option<string>, needle: Option<string>) returns (r: Option<nat>)
    ensures haystack.None? || needle.None? ==> r.None?
    ensures r.Some? ==> haystack.Some? && needle.Some? && MatchAt(haystack.value, needle.value, r.value)
    ensures r.Some? ==> forall i: nat :: i < r.value ==> !MatchAt(haystack.value, needle.value, i)
    ensures r.None? && haystack.Some? && needle.Some? ==> forall i: nat :: !MatchAt(haystack.value, needle.value, i)
  {
    if haystack.None? || needle.None? {
      return None;
    }
    var h, n := haystack.value, needle.value;
    // A needle longer than the haystack occurs nowhere; without this test
    // the unsigned bound below wraps (see `LengthHaystackAsWritten`).
    if |n| > |h| {
      return None;
    }
    var lengthHaystack := |h| - |n| + 1;
    var i := 0;
    while i < lengthHaystack
      invariant 0 <= i <= lengthHaystack
      invariant forall k: nat :: k < i ==> !MatchAt(h, n, k)
    {
      var j := 0;
      while j < |n|
        invariant 0 <= j <= |n|
        invariant forall m :: 0 <= m < j ==> Upper(h[i + m]) == Upper(n[m])
      {
        if Upper(h[i + j]) != Upper(n[j]) {
          break;
        }
        j := j + 1;
      }
      if j == |n| {
        return Some(i);
      }
      i := i + 1;
    }
    return None;
  }

  /** The needle occurs at a position exactly when it occurs there in any
    * mix of cases: the search only sees upper-cased characters. */
  lemma MatchIgnoresCase(haystack: string, needle: string, other: string, i: nat)
    requires |other| == |needle| && forall j :: 0 <= j < |needle| ==> Upper(other[j]) == Upper(needle[j])
    ensures MatchAt(haystack, needle, i) <==> MatchAt(haystack, other, i)
  {
    if MatchAt(haystack, needle, i) {
      forall j | 0 <= j < |other|
        ensures Upper(haystack[i + j]) == Upper(other[j])
      {
        assert Upper(haystack[i + j]) == Upper(needle[j]);
      }
    }
  }

  /** The empty needle occurs at the start of every haystack, and a needle
    * longer than the haystack nowhere. */
  lemma MatchBounds(haystack: string, needle: string)
    ensures needle == [] ==> MatchAt(haystack, needle, 0)
    ensures |needle| > |haystack| ==> forall i: nat :: !MatchAt(haystack, needle, i)
  {
  }

  /** As written, the number of start positions is computed in `size_t`:
    * the haystack's length minus the needle's, plus one, modulo 2^64. A
    * string and its terminator fit in memory, so each length is below
    * 2^64 - 1. */
  function LengthHaystackAsWritten(haystackLength: nat, needleLength: nat): (n: nat)
    requires haystackLength < SizeModulus - 1 && needleLength < SizeModulus - 1
    ensures n < SizeModulus
  {
    (haystackLength - needleLength + 1) % SizeModulus
  }

  /** Where the needle is at most one longer than the haystack, the bound
    * as written is the number of start positions the corrected search
    * tries (none when the needle is longer). When it is two or more
    * longer, the bound wraps past `haystackLength + 1`, so start position
    * `haystackLength + 1` is tried, whose first comparison reads the byte
    * after the haystack's terminator. */
  lemma LengthHaystackWraps(haystackLength: nat, needleLength: nat)
    requires haystackLength < SizeModulus - 1 && needleLength < SizeModulus - 1
    ensures needleLength <= haystackLength + 1 ==>
      LengthHaystackAsWritten(haystackLength, needleLength) == haystackLength + 1 - needleLength
    ensures needleLength >= haystackLength + 2 ==>
      LengthHaystackAsWritten(haystackLength, needleLength) > haystackLength + 1
  {
    var d: int := haystackLength - needleLength + 1;
    if needleLength >= haystackLength + 2 {
      assert d < 0 && 0 <= d + SizeModulus < SizeModulus;
      assert d % SizeModulus == d + SizeModulus;
    } else {
      assert 0 <= d < SizeModulus;
    }
  }

  /** The empty haystack and the needle "ab": the bound as written is
    * 2^64 - 1, where no start position can match. */
  lemma EmptyHaystackOverRead()
    ensures LengthHaystackAsWritten(|""|, |"ab"|) == SizeModulus - 1
    ensures forall i: nat :: !MatchAt("", "ab", i)
  {
    LengthHaystackWraps(0, 2);
    MatchBounds("", "ab");
  }
}
