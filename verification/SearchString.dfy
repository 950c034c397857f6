/** The entry point: forward and backward search over plain memory. */
module SearchStrings {
  import opened Matching
  import opened Vectors
  import opened StringSearches

  lemma ReverseTwice(s: seq<Char>)
    ensures Reverse(Reverse(s)) == s
  {
    ReverseAt(s);
    ReverseAt(Reverse(s));
  }

  lemma MatchReflects(p: seq<Char>, s: seq<Char>, i: int)
    requires MatchAt(p, s, i)
    ensures MatchAt(Reverse(p), Reverse(s), |s| - |p| - i)
  {
    hide Reverse;
    ReverseAt(p);
    ReverseAt(s);
    var r, rp, rs := |s| - |p| - i, Reverse(p), Reverse(s);
    forall x | 0 <= x < |p| ensures rs[r + x] == rp[x] {
      var y := |p| - 1 - x;
      assert s[i + y] == p[y];
    }
  }

  /** Reversing both strings reflects every match about the middle of the possible positions. */
  lemma Reflection(p: seq<Char>, s: seq<Char>, i: int)
    ensures MatchAt(Reverse(p), Reverse(s), i) <==> MatchAt(p, s, |s| - |p| - i)
  {
    hide MatchAt, Reverse;
    ReverseTwice(p);
    ReverseTwice(s);
    if MatchAt(p, s, |s| - |p| - i) { MatchReflects(p, s, |s| - |p| - i); }
    if MatchAt(Reverse(p), Reverse(s), i) { MatchReflects(Reverse(p), Reverse(s), i); }
  }

  /** The first match of the reversed strings is the last match of the strings. */
  lemma FirstOfReverseIsLast(p: seq<Char>, s: seq<Char>, start: nat)
    requires 0 < |p| <= |s|
    ensures var diff := |s| - |p|;
            var r := FirstMatch(Reverse(p), Reverse(s), if diff < start then 0 else diff - start);
            LastMatch(p, s, start) == if r == |s| then |s| else diff - r
  {
    var diff, rp, rs := |s| - |p|, Reverse(p), Reverse(s);
    var from := if diff < start then 0 else diff - start;
    var r := FirstMatch(rp, rs, from);
    FirstMatchExact(rp, rs, from, r);
    var answer: int := if r == |s| then |s| else diff - r;
    forall i | 0 <= i <= start && MatchAt(p, s, i) ensures i <= answer && r != |s| {
      Reflection(p, s, diff - i);
    }
    if r != |s| { Reflection(p, s, r); }
    LastMatchExact(p, s, start, answer);
  }

  /**
   * The least match at or after startIndex going forward, the greatest at or before it going backward,
   * and the haystack length when there is none.
   */
  method SearchString(layout: Layout, haystack: seq<Char>, needle: seq<Char>, startIndex: nat, isForward: bool)
    returns (r: nat, ghost compared: nat, ghost scanned: nat, ghost inspected: nat)
    requires |needle| > 0 && Fits(layout, haystack) && Fits(layout, needle)
    requires isForward && |needle| == 1 && |haystack| > 0 ==> startIndex <= |haystack|
    ensures r == if isForward then FirstMatch(needle, haystack, startIndex)
                 else LastMatch(needle, haystack, startIndex)
    ensures r != |haystack| ==> r + |needle| <= |haystack|
    ensures compared <= if |needle| < BM_MIN_PATTERN_LENGTH then 6 * |haystack| else 9 + 5 * |needle|
    ensures scanned <= 3 * |haystack| && inspected <= 2 * |needle| + |haystack|
  {
    hide FirstMatch, LastMatch, Reverse, NoMatch;
    FirstMatchExact(needle, haystack, startIndex, FirstMatch(needle, haystack, startIndex));
    LastMatchExact(needle, haystack, startIndex, LastMatch(needle, haystack, startIndex));
    if |haystack| < |needle| {
      return |haystack|, 0, 0, 0;
    }
    var vNeedle := Vector(needle, isForward);
    var vHaystack := Vector(haystack, isForward);
    var diff := |haystack| - |needle|;
    var relativeStart := if isForward then startIndex else if diff < startIndex then 0 else diff - startIndex;
    var search := new StringSearch(layout, vNeedle);
    var pos;
    pos, compared, scanned, inspected := search.Search(vHaystack, relativeStart);
    if !isForward { FirstOfReverseIsLast(needle, haystack, startIndex); }
    if pos == |haystack| {
      return pos, compared, scanned, inspected;
    }
    return if isForward then pos else |haystack| - |needle| - pos, compared, scanned, inspected;
  }
}
