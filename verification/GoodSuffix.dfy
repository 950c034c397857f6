/**
 * The strong good-suffix rule and the border (suffix) table it is built from.
 * Positions are pattern indices; only the covered part p[start..] takes part.
 */
module GoodSuffix {
  import opened Matching

  ghost predicate Agrees(p: seq<Char>, x: int, shift: int) {
    0 <= x - shift && 0 <= x < |p| && shift >= 0 && p[x - shift] == p[x]
  }

  ghost predicate AgreeFrom(p: seq<Char>, from: int, shift: int) {
    forall x :: from <= x < |p| ==> Agrees(p, x, shift)
  }

  // ---------------------------------------------------------------- borders

  /** p[b..] is a proper border of p[i..]. */
  ghost predicate Border(p: seq<Char>, i: int, b: int) {
    0 <= i < b <= |p| && AgreeFrom(p, b, b - i)
  }

  /** The first border of p[i..] that starts at b or later; |p| + 1 when there is none. */
  ghost function BorderFrom(p: seq<Char>, i: int, b: int): (r: int)
    requires b <= |p| + 1
    ensures b <= r <= |p| + 1
    decreases |p| - b
  {
    if b > |p| || Border(p, i, b) then b else BorderFrom(p, i, b + 1)
  }

  /** Start of the longest proper border of p[i..]; |p| + 1 beyond the empty suffix, which has none. */
  ghost function LongestBorder(p: seq<Char>, i: int): (r: int)
    requires i <= |p|
    ensures i < r <= |p| + 1
  {
    BorderFrom(p, i, i + 1)
  }

  lemma {:induction false} BorderFromExact(p: seq<Char>, i: int, b: int, r: int)
    requires b <= |p| + 1
    ensures r == BorderFrom(p, i, b) <==>
            b <= r <= |p| + 1 && (r <= |p| ==> Border(p, i, r)) && forall c :: b <= c < r ==> !Border(p, i, c)
    decreases |p| - b
  {
    if b > |p| || Border(p, i, b) {
    } else {
      BorderFromExact(p, i, b + 1, r);
    }
  }

  lemma BorderTrans(p: seq<Char>, i: int, s: int, b: int)
    requires Border(p, i, s) && Border(p, s, b)
    ensures Border(p, i, b)
  {
    var d := b - i;
    forall x | b <= x < |p| ensures Agrees(p, x, d) {
      assert Agrees(p, x, b - s) && Agrees(p, x - (b - s), s - i);
    }
  }

  lemma BorderBetween(p: seq<Char>, i: int, s: int, b: int)
    requires Border(p, i, s) && Border(p, i, b) && s < b
    ensures Border(p, s, b)
  {
    var d := b - s;
    forall x | b <= x < |p| ensures Agrees(p, x, d) {
      assert Agrees(p, x, b - i) && Agrees(p, x - (b - s), s - i);
    }
  }

  lemma BorderExtend(p: seq<Char>, i: int, b: int)
    requires 0 < i < b <= |p|
    ensures Border(p, i - 1, b - 1) <==> Border(p, i, b) && p[b - 1] == p[i - 1]
  {
    assert b - 1 - (i - 1) == b - i;
    if Border(p, i - 1, b - 1) {
      assert Agrees(p, b - 1, b - i);
    }
    if Border(p, i, b) && p[b - 1] == p[i - 1] {
      assert Agrees(p, b - 1, b - i);
    }
  }

  /** The border of a border is the next shorter border: nothing is passed over. */
  lemma NextBorder(p: seq<Char>, i: int, s: int)
    requires Border(p, i, s)
    ensures LongestBorder(p, s) == BorderFrom(p, i, s + 1)
  {
    var next := LongestBorder(p, s);
    BorderFromExact(p, s, s + 1, next);
    forall b | s < b < next && Border(p, i, b) ensures false { BorderBetween(p, i, s, b); }
    if next <= |p| { BorderTrans(p, i, s, next); }
    BorderFromExact(p, i, s + 1, next);
  }

  /**
   * Walking the borders s of p[i..] looking for the longest border of p[i-1..]: none was found before s.
   */
  ghost predicate Walking(p: seq<Char>, i: int, s: int) {
    0 < i < s <= |p| + 1 && (s <= |p| ==> Border(p, i, s)) &&
    LongestBorder(p, i - 1) == BorderFrom(p, i - 1, s - 1)
  }

  lemma WalkBegins(p: seq<Char>, i: int)
    requires 0 < i <= |p|
    ensures Walking(p, i, LongestBorder(p, i))
  {
    WalkOn(p, i, i, LongestBorder(p, i));
  }

  /** Border starts that p[i..] does not have cannot be extended either. */
  lemma {:induction false} WalkOn(p: seq<Char>, i: int, from: int, s: int)
    requires 0 < i <= from <= |p| && s == BorderFrom(p, i, from + 1)
    ensures s <= |p| + 1 && (s <= |p| ==> Border(p, i, s))
    ensures BorderFrom(p, i - 1, from) == BorderFrom(p, i - 1, s - 1)
    decreases |p| - from
  {
    if from + 1 >= s {
    } else {
      BorderExtend(p, i, from + 1);
      WalkOn(p, i, from + 1, s);
    }
  }

  lemma WalkStep(p: seq<Char>, i: int, s: int)
    requires Walking(p, i, s) && s <= |p| && p[s - 1] != p[i - 1]
    ensures Walking(p, i, LongestBorder(p, s)) && LongestBorder(p, s) == BorderFrom(p, i, s + 1)
  {
    NextBorder(p, i, s);
    BorderExtend(p, i, s);
    WalkOn(p, i, s, LongestBorder(p, s));
  }

  /** Where the walk stops decides the longest border of p[i-1..]. */
  lemma WalkEnds(p: seq<Char>, i: int, s: int)
    requires Walking(p, i, s)
    requires s <= |p| ==> p[s - 1] == p[i - 1]
    ensures LongestBorder(p, i - 1) == s - 1
  {}

  /** With only the empty border at i, one more character makes a border iff it equals the last one. */
  lemma OnlyEmptyBorder(p: seq<Char>, i: int)
    requires 0 < i < |p| && LongestBorder(p, i) == |p|
    ensures LongestBorder(p, i - 1) == if p[i - 1] == p[|p| - 1] then |p| - 1 else |p|
  {
    WalkBegins(p, i);
    if p[i - 1] != p[|p| - 1] { WalkStep(p, i, |p|); }
    WalkEnds(p, i, if p[i - 1] == p[|p| - 1] then |p| else |p| + 1);
  }

  // ---------------------------------------------------------------- the rule

  /**
   * Shift by s after p[i..] matched and p[i-1] did not: whatever part of the matched text the shifted
   * pattern still covers agrees, and the character now facing the mismatch is another one (strong rule).
   */
  ghost predicate GoodShift(p: seq<Char>, start: nat, i: int, s: int)
    requires 0 < i <= |p|
  {
    0 < s &&
    (forall x :: i <= x < |p| && start <= x - s ==> Agrees(p, x, s)) &&
    (start <= i - 1 - s ==> p[i - 1 - s] != p[i - 1])
  }

  ghost function ShiftFrom(p: seq<Char>, start: nat, i: int, s: int): (r: int)
    requires 0 < i <= |p|
    ensures s <= r && (r == s || r <= |p| - start)
    decreases |p| - s
  {
    if s >= |p| - start || GoodShift(p, start, i, s) then s else ShiftFrom(p, start, i, s + 1)
  }

  /** The least shift the rule allows; shifting past the covered part is always allowed. */
  ghost function LeastGoodShift(p: seq<Char>, start: nat, i: int): int
    requires 0 < i <= |p|
  {
    ShiftFrom(p, start, i, 1)
  }

  lemma {:induction false} ShiftFromExact(p: seq<Char>, start: nat, i: int, s: int, r: int)
    requires start < i <= |p| && 0 < s <= |p| - start
    ensures r == ShiftFrom(p, start, i, s) <==>
            s <= r && GoodShift(p, start, i, r) && forall t :: s <= t < r ==> !GoodShift(p, start, i, t)
    decreases |p| - s
  {
    if s < |p| - start && !GoodShift(p, start, i, s) {
      ShiftFromExact(p, start, i, s + 1, r);
    } else {
      assert GoodShift(p, start, i, s);
    }
  }

  // ---------------------------------------------------------------- shift entries

  /** Inside the covered part, shifting k onto a is a strong good-suffix shift for k. */
  ghost predicate Strong(p: seq<Char>, a: int, k: int) {
    0 < a && Border(p, a, k) && p[a - 1] != p[k - 1]
  }

  /** Shifts that keep the mismatch inside the covered part are the strong positions. */
  lemma InnerShift(p: seq<Char>, start: nat, i: int, s: int)
    requires start < i < |p| && 0 < s < i - start
    ensures GoodShift(p, start, i, s) <==> Strong(p, i - s, i)
  {}

  /** Shifts that push the mismatch off the start are the borders of the covered part. */
  lemma OuterShift(p: seq<Char>, start: nat, i: int, s: int)
    requires start < i < |p| && i - start <= s <= |p| - start
    ensures GoodShift(p, start, i, s) <==> Border(p, start, start + s)
  {}

  /**
   * The entry of k once every p[a-1] with a > i has been compared: the distance to the nearest
   * strong a, or still the sentinel |p| - start.
   */
  ghost function Entry(p: seq<Char>, start: nat, i: int, k: int): int
    decreases k - i
  {
    if i + 1 >= k then |p| - start
    else
      var v := Entry(p, start, i + 1, k);
      if v == |p| - start && Strong(p, i + 1, k) then k - (i + 1) else v
  }

  /** A real entry is never the sentinel, and it is the least inner shift. */
  lemma {:induction false} EntryExact(p: seq<Char>, start: nat, i: int, k: int)
    requires start <= i < k < |p|
    ensures var v := Entry(p, start, i, k);
            (v == |p| - start && forall a :: i < a < k ==> !Strong(p, a, k)) ||
            (0 < v < k - i && Strong(p, k - v, k) && forall a :: k - v < a < k ==> !Strong(p, a, k))
    decreases k - i
  {
    if i + 1 == k {
    } else {
      EntryExact(p, start, i + 1, k);
    }
  }

  /** Once nothing is left to compare, a real entry is final and the sentinel stands for an outer shift. */
  lemma SettledShift(p: seq<Char>, start: nat, i: int)
    requires start < i < |p|
    ensures var v := Entry(p, start, start, i);
            LeastGoodShift(p, start, i) == if v == |p| - start then BorderFrom(p, start, i) - start else v
  {
    EntryExact(p, start, start, i);
    var border := BorderFrom(p, start, i);
    BorderFromExact(p, start, i, border);
    BorderFromExact(p, start, i, |p|);
    var v := Entry(p, start, start, i);
    var s := if v == |p| - start then border - start else v;
    forall t | 0 < t < s ensures !GoodShift(p, start, i, t) {
      if t < i - start { InnerShift(p, start, i, t); } else { OuterShift(p, start, i, t); }
    }
    if v == |p| - start { OuterShift(p, start, i, s); } else { InnerShift(p, start, i, s); }
    ShiftFromExact(p, start, i, 1, s);
  }

  /** A border of p[i..] behind the stopping point s is strong at i only if it was strong before. */
  lemma BehindStop(p: seq<Char>, start: nat, i: int, s: int, k: int)
    requires start < i < s < k < |p|
    requires Border(p, i, s) && p[s - 1] == p[i - 1]
    ensures Entry(p, start, i - 1, k) == Entry(p, start, i, k)
  {
    if Strong(p, i, k) {
      EntryExact(p, start, i, k);
      BorderBetween(p, i, s, k);
      assert Strong(p, s, k);
    }
  }

  /** Positions between two consecutive borders of p[i..] are not touched by comparisons at i. */
  lemma NoBorderNoEntry(p: seq<Char>, start: nat, i: int, from: int, k: int)
    requires start < i < from <= k < |p| && k < BorderFrom(p, i, from)
    ensures Entry(p, start, i - 1, k) == Entry(p, start, i, k)
  {
    BorderFromExact(p, i, from, BorderFrom(p, i, from));
  }

  // ---------------------------------------------------------------- whole tables, indexed from start

  /** Border table entries from position i on. */
  ghost predicate BorderTable(p: seq<Char>, start: nat, i: int, table: seq<int>) {
    start <= i <= |p| < start + |table| &&
    forall q :: i - start <= q <= |p| - start ==> table[q] == LongestBorder(p, start + q)
  }

  /** The table begins with a suffix that has no border. */
  lemma BorderTableBegins(p: seq<Char>, start: nat, table: seq<int>)
    requires start <= |p| && BorderTable(p, start, |p|, table)
    ensures table[|p| - start] == |p| + 1
  {}

  /** The table grows towards the front by the longest border of the suffix one longer. */
  lemma BorderTableGrows(p: seq<Char>, start: nat, i: int, table: seq<int>, value: int)
    requires start < i && BorderTable(p, start, i, table) && value == LongestBorder(p, i - 1)
    ensures BorderTable(p, start, i - 1, table[i - 1 - start := value])
  {}

  /** Shift entries with all comparisons above i made, and below bound those at i too. */
  ghost predicate ShiftEntries(p: seq<Char>, start: nat, i: int, bound: int, shifts: seq<int>) {
    start <= |p| < start + |shifts| && shifts[|p| - start] == 1 &&
    forall q :: 0 < q < |p| - start ==>
      shifts[q] == Entry(p, start, if start + q < bound then i - 1 else i, start + q)
  }

  lemma SentinelIsFree(p: seq<Char>, start: nat, i: int, bound: int, shifts: seq<int>)
    requires ShiftEntries(p, start, i, bound, shifts) && |p| - start > 1
    ensures shifts[|p| - start] != |p| - start
  {}

  /** The finished table. */
  ghost predicate GoodSuffixTable(p: seq<Char>, start: nat, table: seq<int>) {
    start < |p| < start + |table| && table[|p| - start] == 1 &&
    forall q :: 0 < q < |p| - start ==> table[q] == LeastGoodShift(p, start, start + q)
  }

  /** One step along the borders of p[i..]: s gets its entry, the positions skipped need none. */
  lemma ShiftEntriesStep(p: seq<Char>, start: nat, i: int, s: int, shifts: seq<int>)
    requires start < i && Walking(p, i, s) && s <= |p| && p[s - 1] != p[i - 1]
    requires |p| - start > 1 && ShiftEntries(p, start, i, s, shifts)
    ensures ShiftEntries(p, start, i, LongestBorder(p, s),
                         if shifts[s - start] == |p| - start then shifts[s - start := s - i] else shifts)
  {
    hide Border;
    NextBorder(p, i, s);
    var bound := LongestBorder(p, s);
    var after := if shifts[s - start] == |p| - start then shifts[s - start := s - i] else shifts;
    forall q | 0 < q < |p| - start
      ensures after[q] == Entry(p, start, if start + q < bound then i - 1 else i, start + q)
    {
      if s < start + q < bound { NoBorderNoEntry(p, start, i, s + 1, start + q); }
    }
  }

  lemma ShiftEntriesDone(p: seq<Char>, start: nat, i: int, s: int, shifts: seq<int>)
    requires start < i && Walking(p, i, s) && (s <= |p| ==> p[s - 1] == p[i - 1])
    requires ShiftEntries(p, start, i, s, shifts)
    ensures ShiftEntries(p, start, i - 1, 0, shifts)
  {
    forall q | 0 < q < |p| - start ensures shifts[q] == Entry(p, start, i - 1, start + q) {
      if s < start + q { BehindStop(p, start, i, s, start + q); }
    }
  }

  /** Before the longest border of p[i..] there is no border, so comparing at i concerns no entry there. */
  lemma ShiftEntriesBegin(p: seq<Char>, start: nat, i: int, shifts: seq<int>)
    requires start < i <= |p| && ShiftEntries(p, start, i, 0, shifts)
    ensures ShiftEntries(p, start, i, LongestBorder(p, i), shifts)
  {
    var bound := LongestBorder(p, i);
    forall q | 0 < q < |p| - start
      ensures shifts[q] == Entry(p, start, if start + q < bound then i - 1 else i, start + q)
    {
      if i < start + q < bound { NoBorderNoEntry(p, start, i, i + 1, start + q); }
    }
  }

  /** With no border but the empty one at i, comparing at i concerns no entry at all. */
  lemma ShiftEntriesIdle(p: seq<Char>, start: nat, i: int, shifts: seq<int>)
    requires start < i < |p| && LongestBorder(p, i) == |p| && ShiftEntries(p, start, i, 0, shifts)
    ensures ShiftEntries(p, start, i - 1, 0, shifts)
  {
    ShiftEntriesBegin(p, start, i, shifts);
    forall q | 0 < q < |p| - start ensures shifts[q] == Entry(p, start, i - 1, start + q) {}
  }

  /** The last pass before position i: entries below i are final. */
  ghost predicate Settling(p: seq<Char>, start: nat, i: int, shifts: seq<int>) {
    start < |p| < start + |shifts| && shifts[|p| - start] == 1 && |p| - start > 1 && start <= i <= |p| + 1 &&
    forall q :: 0 < q < |p| - start ==>
      shifts[q] == if start + q < i then LeastGoodShift(p, start, start + q) else Entry(p, start, start, start + q)
  }

  lemma SettleStep(p: seq<Char>, start: nat, i: int, border: int, shifts: seq<int>)
    requires i <= |p| && Settling(p, start, i, shifts)
    requires border == if i == start then LongestBorder(p, start) else BorderFrom(p, start, i)
    ensures Settling(p, start, i + 1,
                     if shifts[i - start] == |p| - start then shifts[i - start := border - start] else shifts)
    ensures border <= |p|
    ensures BorderFrom(p, start, i + 1) == if i == border then LongestBorder(p, border) else border
  {
    if start < i < |p| { SettledShift(p, start, i); }
    BorderFromExact(p, start, i, border);
    assert Border(p, start, |p|);
    if i == border < |p| { NextBorder(p, start, border); }
  }

  /** Without a border but the empty one, every entry still unset is right as it is. */
  lemma SettledAlready(p: seq<Char>, start: nat, shifts: seq<int>)
    requires Settling(p, start, start, shifts) && LongestBorder(p, start) >= |p|
    ensures GoodSuffixTable(p, start, shifts)
  {
    BorderFromExact(p, start, start + 1, LongestBorder(p, start));
    assert Border(p, start, |p|);
    forall q | 0 < q < |p| - start ensures shifts[q] == LeastGoodShift(p, start, start + q) {
      BorderFromExact(p, start, start + q, |p|);
      SettledShift(p, start, start + q);
    }
  }

  // ---------------------------------------------------------------- what the table is for

  /** A later match, seen from a mismatch at pattern position j, is a shift the strong rule allows. */
  lemma MatchIsGoodShift(p: seq<Char>, s: seq<Char>, start: nat, index: nat, j: nat, t: nat)
    requires start <= j < |p| - 1 && index + |p| <= |s| && t > 0
    requires forall x :: j < x < |p| ==> s[index + x] == p[x]
    requires s[index + j] != p[j]
    requires MatchAt(p, s, index + t)
    ensures GoodShift(p, start, j + 1, t)
  {}

  /** After p[j+1..] matched at index and p[j] did not, no shift below the table's finds a match. */
  lemma GoodSuffixSkip(p: seq<Char>, s: seq<Char>, start: nat, index: nat, j: nat)
    requires start <= j < |p| - 1 && index + |p| <= |s|
    requires forall x :: j < x < |p| ==> s[index + x] == p[x]
    requires s[index + j] != p[j]
    ensures NoMatch(p, s, index, index + LeastGoodShift(p, start, j + 1))
    ensures LeastGoodShift(p, start, j + 1) > 0
  {
    ShiftFromExact(p, start, j + 1, 1, LeastGoodShift(p, start, j + 1));
    forall i | index <= i < index + LeastGoodShift(p, start, j + 1) && MatchAt(p, s, i) ensures false {
      if i > index { MatchIsGoodShift(p, s, start, index, j, i - index); }
    }
  }
}
