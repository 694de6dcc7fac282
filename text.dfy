/** Case-insensitive substring search, as `contains_ci` in library-management.c.
    Case folding is ASCII only: 'A'..'Z' become 'a'..'z', every other character
    is left as it is. */
module Text {

  /** ASCII lower-casing of one character. */
  function Lower(c: char): char
  {
    if 'A' <= c <= 'Z' then (c as int + 32) as char else c
  }

  /** The whole string lower-cased, character by character. */
  function LowerAll(s: string): string
  {
    seq(|s|, k requires 0 <= k < |s| => Lower(s[k]))
  }

  /** `needle` occurs in `hay` at offset `i`, ignoring case. */
  predicate MatchesAt(hay: string, needle: string, i: nat)
  {
    i + |needle| <= |hay| &&
    forall k :: 0 <= k < |needle| ==> Lower(hay[i + k]) == Lower(needle[k])
  }

  /** `needle` occurs somewhere in `hay`, ignoring case. */
  ghost predicate ContainsIgnoringCase(hay: string, needle: string)
  {
    exists i: nat :: MatchesAt(hay, needle, i)
  }

  /** Plain, case-sensitive occurrence of `needle` in `hay` at offset `i`. */
  predicate IsSliceAt(hay: string, needle: string, i: nat)
  {
    i + |needle| <= |hay| && hay[i..i + |needle|] == needle
  }

  /** Plain, case-sensitive substring test. */
  ghost predicate IsSubstring(hay: string, needle: string)
  {
    exists i: nat :: IsSliceAt(hay, needle, i)
  }

  /** The nested loops of `contains_ci`: try every offset `i` with
      `i + N <= H`, compare characters until the first mismatch. */
  method ContainsCi(hay: string, needle: string) returns (found: bool)
    ensures found == ContainsIgnoringCase(hay, needle)
  {
    var h, n := |hay|, |needle|;
    if n == 0 {
      assert MatchesAt(hay, needle, 0);
      return true;
    }
    var i := 0;
    while i + n <= h
      invariant forall j: nat :: j < i ==> !MatchesAt(hay, needle, j)
    {
      var k := 0;
      while k < n
        invariant 0 <= k <= n
        invariant forall m :: 0 <= m < k ==> Lower(hay[i + m]) == Lower(needle[m])
      {
        if Lower(hay[i + k]) != Lower(needle[k]) {
          break;
        }
        k := k + 1;
      }
      if k == n {
        assert MatchesAt(hay, needle, i);
        return true;
      }
      i := i + 1;
    }
    return false;
  }

  /** An empty needle is found in every haystack. */
  lemma EmptyNeedleMatches(hay: string)
    ensures ContainsIgnoringCase(hay, [])
  {
    assert MatchesAt(hay, [], 0);
  }

  /** A needle longer than the haystack is never found. */
  lemma LongNeedleNeverMatches(hay: string, needle: string)
    requires |needle| > |hay|
    ensures !ContainsIgnoringCase(hay, needle)
  {
    forall i: nat ensures !MatchesAt(hay, needle, i) {
    }
  }

  /** Lower-casing twice is lower-casing once. */
  lemma LowerIdempotent(c: char)
    ensures Lower(Lower(c)) == Lower(c)
  {
  }

  /** The reference definition: matching ignoring case is exactly plain
      substring search on the lower-cased strings. */
  lemma ContainsIffLoweredSubstring(hay: string, needle: string)
    ensures ContainsIgnoringCase(hay, needle) <==> IsSubstring(LowerAll(hay), LowerAll(needle))
  {
    var lh, ln := LowerAll(hay), LowerAll(needle);
    if ContainsIgnoringCase(hay, needle) {
      var i: nat :| MatchesAt(hay, needle, i);
      assert lh[i..i + |needle|] == ln;
      assert IsSliceAt(lh, ln, i);
    }
    if IsSubstring(lh, ln) {
      var i: nat :| IsSliceAt(lh, ln, i);
      forall k | 0 <= k < |needle| ensures Lower(hay[i + k]) == Lower(needle[k]) {
        assert lh[i..i + |ln|][k] == lh[i + k];
      }
      assert MatchesAt(hay, needle, i);
    }
  }

  /** Lower-casing the needle does not change the answer. */
  lemma CaseOfNeedleIrrelevant(hay: string, needle: string)
    ensures ContainsIgnoringCase(hay, needle) <==> ContainsIgnoringCase(hay, LowerAll(needle))
  {
    var ln := LowerAll(needle);
    forall i: nat ensures MatchesAt(hay, needle, i) <==> MatchesAt(hay, ln, i) {
      forall k | 0 <= k < |needle| ensures Lower(ln[k]) == Lower(needle[k]) {
        LowerIdempotent(needle[k]);
      }
    }
    if ContainsIgnoringCase(hay, needle) {
      var i: nat :| MatchesAt(hay, needle, i);
      assert MatchesAt(hay, ln, i);
    }
    if ContainsIgnoringCase(hay, ln) {
      var i: nat :| MatchesAt(hay, ln, i);
      assert MatchesAt(hay, needle, i);
    }
  }

  /** Lower-casing the haystack does not change the answer either. */
  lemma CaseOfHaystackIrrelevant(hay: string, needle: string)
    ensures ContainsIgnoringCase(hay, needle) <==> ContainsIgnoringCase(LowerAll(hay), needle)
  {
    var lh := LowerAll(hay);
    forall j | 0 <= j < |hay| ensures Lower(lh[j]) == Lower(hay[j]) {
      LowerIdempotent(hay[j]);
    }
    if ContainsIgnoringCase(hay, needle) {
      var i: nat :| MatchesAt(hay, needle, i);
      assert MatchesAt(lh, needle, i);
    }
    if ContainsIgnoringCase(lh, needle) {
      var i: nat :| MatchesAt(lh, needle, i);
      assert MatchesAt(hay, needle, i);
    }
  }

  /** "tom" and "SAWYER" are found in "Tom Sawyer", at offsets 0 and 4;
      "Tom Sawyer" is not found in "Tom". */
  lemma TomSawyer()
    ensures ContainsIgnoringCase("Tom Sawyer", "tom")
    ensures ContainsIgnoringCase("Tom Sawyer", "SAWYER")
    ensures !ContainsIgnoringCase("Tom", "Tom Sawyer")
  {
    assert MatchesAt("Tom Sawyer", "tom", 0);
    assert MatchesAt("Tom Sawyer", "SAWYER", 4);
    LongNeedleNeverMatches("Tom", "Tom Sawyer");
  }
}
