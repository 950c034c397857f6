/** The bad-character rule: characters are told apart only modulo 256. */
module BadCharacter {
  import opened Matching

  const ALPHABET_SIZE: nat := 256

  /** Last index in [start, end) holding a character of the class, or start - 1. */
  function LastOccurrence(p: seq<Char>, start: nat, end: nat, class_: nat): (r: int)
    requires end <= |p|
    ensures start - 1 <= r && (r < end || r == start - 1)
    decreases end
  {
    if end <= start then start - 1
    else if p[end - 1] % ALPHABET_SIZE == class_ then end - 1
    else LastOccurrence(p, start, end - 1, class_)
  }

  lemma {:induction false} LastOccurrenceExact(p: seq<Char>, start: nat, end: nat, class_: nat)
    requires end <= |p|
    ensures var r := LastOccurrence(p, start, end, class_);
            (r == start - 1 || (start <= r < end && p[r] % ALPHABET_SIZE == class_)) &&
            forall x :: r < x < end ==> p[x] % ALPHABET_SIZE != class_
    decreases end
  {
    if start >= end || p[end - 1] % ALPHABET_SIZE == class_ {
    } else {
      LastOccurrenceExact(p, start, end - 1, class_);
    }
  }

  /** The table the Horspool phase reads: one entry per class, the last pattern character left out. */
  ghost predicate BadCharTable(p: seq<Char>, start: nat, table: seq<int>) {
    |p| > 0 && |table| == ALPHABET_SIZE &&
    forall k :: 0 <= k < ALPHABET_SIZE ==> table[k] == LastOccurrence(p, start, |p| - 1, k)
  }

  /**
   * Having failed at index (at pattern position x), aligning the subject character at position j with
   * its last occurrence skips no match. Two characters in one class only make the skip shorter, and
   * from the last position it always makes progress.
   */
  lemma BadCharSkip(p: seq<Char>, s: seq<Char>, start: nat, index: nat, j: nat, x: nat, table: seq<int>)
    requires BadCharTable(p, start, table) && start < |p|
    requires j < |p| && x < |p| && index + |p| <= |s| && s[index + x] != p[x]
    ensures NoMatch(p, s, index, index + (j - table[s[index + j] % ALPHABET_SIZE]))
    ensures j == |p| - 1 ==> 1 <= j - table[s[index + j] % ALPHABET_SIZE] <= |p|
  {
    var c := s[index + j];
    LastOccurrenceExact(p, start, |p| - 1, c % ALPHABET_SIZE);
    forall i | index < i < index + (j - table[c % ALPHABET_SIZE])
      ensures !MatchAt(p, s, i)
    {
      var y := j - (i - index);
      assert s[i + y] == c;
      assert p[y] % ALPHABET_SIZE != c % ALPHABET_SIZE;
    }
  }

  /** Where bad-character shifts from index end: at agreeing last characters, or beyond the subject. */
  ghost function SkipEnd(p: seq<Char>, s: seq<Char>, start: nat, index: nat): nat
    requires start < |p|
    decreases |s| - index
  {
    if index + |p| > |s| || s[index + |p| - 1] == p[|p| - 1] then index
    else SkipEnd(p, s, start, index + (|p| - 1 - LastOccurrence(p, start, |p| - 1, s[index + |p| - 1] % ALPHABET_SIZE)))
  }
}
