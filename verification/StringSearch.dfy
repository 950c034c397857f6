/** The adaptive search object: it starts simple and upgrades itself, for good, while searching. */
module StringSearches {
  import opened Matching
  import opened Vectors
  import opened BadCharacter
  import opened GoodSuffix

  const BM_MAX_SHIFT: nat := 250
  const BM_MIN_PATTERN_LENGTH: nat := 8

  datatype Strategy = BoyerMooreHorspool | BoyerMoore | Initial | Linear | SingleChar

  /** Position of a strategy in the order in which an object may adopt them. */
  function Rank(strategy: Strategy): nat {
    match strategy
    case BoyerMooreHorspool => 1
    case BoyerMoore => 2
    case _ => 0
  }

  ghost function Max(a: int, b: int): int { if a > b then a else b }

  /** One table write, told in terms of the whole table. */
  method Store(table: array<int>, at: nat, value: int)
    requires at < table.Length
    modifies table
    ensures table[..] == old(table[..])[at := value]
  {
    table[at] := value;
  }

  class StringSearch {
    const layout: Layout
    const pattern: Vector
    const start: nat
    const badChar: array<int>
    // The next two are indexed from `start`: entry q is about pattern position start + q.
    const goodSuffix: array<int>
    const suffixTable: array<int>
    var strategy: Strategy

    /** What never changes: table sizes, and which part of the pattern the tables cover. */
    ghost predicate Shape() {
      var m := |pattern.mem|;
      && badChar.Length == ALPHABET_SIZE
      && goodSuffix.Length == BM_MAX_SHIFT + 1 && suffixTable.Length == BM_MAX_SHIFT + 1
      && badChar != goodSuffix && badChar != suffixTable && goodSuffix != suffixTable
      && m > 0 && Fits(layout, pattern.mem)
      && (m >= BM_MAX_SHIFT ==> start == m - BM_MAX_SHIFT) && (m < BM_MAX_SHIFT ==> start == 0)
    }

    ghost predicate Valid()
      reads this, badChar, goodSuffix, suffixTable
    {
      var m := |pattern.mem|;
      && Shape()
      && (m == 1 <==> strategy.SingleChar?)
      && (1 < m < BM_MIN_PATTERN_LENGTH <==> strategy.Linear?)
      && (Rank(strategy) >= 1 ==> BadCharTable(pattern.View(), start, badChar[..]))
      && (Rank(strategy) >= 2 ==> GoodSuffixTable(pattern.View(), start, goodSuffix[..]))
    }

    /** Every table entry a search reads lies between -1 and the pattern length. */
    lemma EntriesBounded()
      requires Valid()
      ensures Rank(strategy) >= 1 ==> forall k :: 0 <= k < ALPHABET_SIZE ==> -1 <= badChar[k] < |pattern.mem|
      ensures Rank(strategy) >= 2 ==>
                forall q :: 0 < q <= |pattern.mem| - start ==> 1 <= goodSuffix[q] <= |pattern.mem| - start
    {
      if Rank(strategy) >= 1 {
        forall k | 0 <= k < ALPHABET_SIZE ensures -1 <= badChar[k] < |pattern.mem| {
          assert badChar[k] == badChar[..][k];
        }
      }
      if Rank(strategy) >= 2 {
        forall q | 0 < q <= |pattern.mem| - start ensures 1 <= goodSuffix[q] <= |pattern.mem| - start {
          assert goodSuffix[q] == goodSuffix[..][q];
        }
      }
    }

    ghost predicate Searchable(subject: Vector) {
      |pattern.mem| <= |subject.mem| && Fits(layout, subject.mem)
    }

    /** The answer of the naive search. */
    ghost function Answer(subject: Vector, index: nat): nat {
      FirstMatch(pattern.View(), subject.View(), index)
    }

    constructor (layout: Layout, pattern: Vector)
      requires |pattern.mem| > 0 && Fits(layout, pattern.mem)
      ensures Valid() && Rank(strategy) == 0
      ensures this.pattern == pattern && this.layout == layout
      ensures fresh(badChar) && fresh(goodSuffix) && fresh(suffixTable)
    {
      this.layout := layout;
      this.pattern := pattern;
      badChar := new int[ALPHABET_SIZE];
      goodSuffix := new int[BM_MAX_SHIFT + 1];
      suffixTable := new int[BM_MAX_SHIFT + 1];
      start := if |pattern.mem| >= BM_MAX_SHIFT then |pattern.mem| - BM_MAX_SHIFT else 0;
      if |pattern.mem| < BM_MIN_PATTERN_LENGTH {
        strategy := if |pattern.mem| == 1 then SingleChar else Linear;
      } else {
        strategy := Initial;
      }
    }

    function CharOccurrence(c: Char): int
      requires badChar.Length == ALPHABET_SIZE
      requires layout.OneByte? ==> c < ALPHABET_SIZE
      reads badChar
    {
      if layout.OneByte? then badChar[c] else badChar[c % ALPHABET_SIZE]
    }

    // -------------------------------------------------------------- tables

    method PopulateBoyerMooreHorspoolTable()
      requires Valid() && Rank(strategy) == 0
      modifies badChar
      ensures Valid()
      ensures BadCharTable(pattern.View(), start, badChar[..])
    {
      var m := |pattern.mem|;
      ghost var p := pattern.View();
      if start == 0 {
        // memset
        forall k | 0 <= k < ALPHABET_SIZE { badChar[k] := -1; }
      } else {
        for k := 0 to ALPHABET_SIZE
          invariant forall x :: 0 <= x < k ==> badChar[x] == start - 1
        {
          badChar[k] := start - 1;
        }
      }
      for i := start to m - 1
        invariant forall k :: 0 <= k < ALPHABET_SIZE ==> badChar[k] == LastOccurrence(p, start, i, k)
      {
        var c := pattern.At(i);
        var bucket := if layout.OneByte? then c else c % ALPHABET_SIZE;
        badChar[bucket] := i;
      }
    }

    /** Walks the borders of pattern[i..] until one can be extended by pattern[i-1], noting shifts. */
    method ExtendSuffix(i: nat, suffix: nat) returns (s: nat)
      requires Shape() && |pattern.mem| >= BM_MIN_PATTERN_LENGTH && i > start
      requires BorderTable(pattern.View(), start, i, suffixTable[..]) && suffix == suffixTable[i - start]
      requires ShiftEntries(pattern.View(), start, i, 0, goodSuffix[..])
      modifies goodSuffix
      ensures s == LongestBorder(pattern.View(), i - 1) + 1
      ensures ShiftEntries(pattern.View(), start, i - 1, 0, goodSuffix[..])
    {
      hide ShiftEntries, Border, BorderFrom, LongestBorder, Vector.View;
      var length := |pattern.mem| - start;
      ghost var p := pattern.View();
      var c := pattern.At(i - 1);
      s := suffix;
      WalkBegins(p, i);
      ShiftEntriesBegin(p, start, i, goodSuffix[..]);
      ghost var shifts := goodSuffix[..];
      while s <= |pattern.mem| && c != pattern.At(s - 1)
        invariant Walking(p, i, s)
        invariant shifts == goodSuffix[..] && ShiftEntries(p, start, i, s, shifts)
        decreases |p| + 1 - s
      {
        WalkStep(p, i, s);
        ShiftEntriesStep(p, start, i, s, shifts);
        if goodSuffix[s - start] == length {
          Store(goodSuffix, s - start, s - i);
          shifts := shifts[s - start := s - i];
        }
        s := suffixTable[s - start];
      }
      ShiftEntriesDone(p, start, i, s, shifts);
      WalkEnds(p, i, s);
    }

    /** Only the empty border is left, and it grows exactly when the last character comes up again. */
    method PassOtherCharacters(from: nat, lastChar: Char) returns (i: nat)
      requires Shape() && |pattern.mem| >= BM_MIN_PATTERN_LENGTH && start <= from < |pattern.mem|
      requires lastChar == pattern.At(|pattern.mem| - 1)
      requires BorderTable(pattern.View(), start, from, suffixTable[..])
      requires LongestBorder(pattern.View(), from) == |pattern.mem| && suffixTable[from - start] == |pattern.mem|
      requires ShiftEntries(pattern.View(), start, from, 0, goodSuffix[..])
      modifies suffixTable
      ensures start <= i <= from && (i > start ==> pattern.At(i - 1) == lastChar)
      ensures BorderTable(pattern.View(), start, i, suffixTable[..])
      ensures LongestBorder(pattern.View(), i) == |pattern.mem| && suffixTable[i - start] == |pattern.mem|
      ensures ShiftEntries(pattern.View(), start, i, 0, goodSuffix[..])
    {
      hide BorderTable, ShiftEntries, Border, BorderFrom, LongestBorder, Vector.View;
      var m := |pattern.mem|;
      var length := m - start;
      ghost var p, borders := pattern.View(), suffixTable[..];
      ghost var shifts := goodSuffix[..];
      i := from;
      while i > start && pattern.At(i - 1) != lastChar
        invariant start <= i <= from && borders == suffixTable[..] && shifts == goodSuffix[..]
        invariant borders[i - start] == LongestBorder(p, i) == m
        invariant BorderTable(p, start, i, borders) && ShiftEntries(p, start, i, 0, shifts)
      {
        SentinelIsFree(p, start, i, 0, shifts);
        if goodSuffix[length] == length {
          assert false;  // the entry is 1, and length is at least 8
        }
        OnlyEmptyBorder(p, i);
        ShiftEntriesIdle(p, start, i, shifts);
        BorderTableGrows(p, start, i, borders, m);
        i := i - 1;
        Store(suffixTable, i - start, m);
        borders := borders[i - start := m];
      }
    }

    /** Fills the border table from the back, and every shift that stays inside the covered part. */
    method FindSuffixes() returns (suffix: nat)
      requires Shape() && |pattern.mem| >= BM_MIN_PATTERN_LENGTH
      requires BorderTable(pattern.View(), start, |pattern.mem|, suffixTable[..])
      requires ShiftEntries(pattern.View(), start, |pattern.mem|, 0, goodSuffix[..])
      modifies goodSuffix, suffixTable
      ensures BorderTable(pattern.View(), start, start, suffixTable[..]) && suffix == suffixTable[0]
      ensures ShiftEntries(pattern.View(), start, start, 0, goodSuffix[..])
    {
      hide BorderTable, ShiftEntries, Border, BorderFrom, LongestBorder, Vector.View;
      var m := |pattern.mem|;
      var length := m - start;
      ghost var p, borders := pattern.View(), suffixTable[..];
      var lastChar := pattern.At(m - 1);
      suffix := m + 1;
      BorderTableBegins(p, start, borders);
      var i := m;
      while i > start
        invariant start <= i <= m && borders == suffixTable[..] && suffix == borders[i - start]
        invariant BorderTable(p, start, i, borders) && ShiftEntries(p, start, i, 0, goodSuffix[..])
      {
        suffix := ExtendSuffix(i, suffix);
        i, suffix := i - 1, suffix - 1;
        BorderTableGrows(p, start, i + 1, borders, suffix);
        Store(suffixTable, i - start, suffix);
        borders := borders[i - start := suffix];
        if suffix == m {
          i := PassOtherCharacters(i, lastChar);
          borders := suffixTable[..];
          if i > start {
            OnlyEmptyBorder(p, i);
            ShiftEntriesIdle(p, start, i, goodSuffix[..]);
            i, suffix := i - 1, suffix - 1;
            BorderTableGrows(p, start, i + 1, borders, suffix);
            Store(suffixTable, i - start, suffix);
            borders := borders[i - start := suffix];
          }
        }
      }
    }

    /** Gives the entries still unset the least shift that runs off the start of the covered part. */
    method BuildShifts(firstSuffix: nat)
      requires Shape() && |pattern.mem| >= BM_MIN_PATTERN_LENGTH
      requires BorderTable(pattern.View(), start, start, suffixTable[..]) && firstSuffix == suffixTable[0]
      requires Settling(pattern.View(), start, start, goodSuffix[..])
      modifies goodSuffix
      ensures GoodSuffixTable(pattern.View(), start, goodSuffix[..])
    {
      hide Entry, Border, BorderFrom, LongestBorder, LeastGoodShift, Vector.View;
      var m := |pattern.mem|;
      var length := m - start;
      ghost var p := pattern.View();
      var suffix := firstSuffix;
      ghost var shifts := goodSuffix[..];
      if suffix < m {
        for i := start to m + 1
          invariant suffix == if i == start then LongestBorder(p, start) else BorderFrom(p, start, i)
          invariant shifts == goodSuffix[..] && Settling(p, start, i, shifts)
        {
          SettleStep(p, start, i, suffix, shifts);
          if goodSuffix[i - start] == length {
            Store(goodSuffix, i - start, suffix - start);
            shifts := shifts[i - start := suffix - start];
          }
          if i == suffix {
            suffix := suffixTable[suffix - start];
          }
        }
      } else {
        SettledAlready(p, start, shifts);
      }
    }

    /**
     * Builds the border table and from it the good-suffix shifts of the last 250 characters.
     * The entry for |pattern| is written once, as 1, and cannot look like the sentinel `length`.
     */
    method PopulateBoyerMooreTable()
      requires Valid() && strategy == BoyerMooreHorspool
      modifies goodSuffix, suffixTable
      ensures Valid()
      ensures GoodSuffixTable(pattern.View(), start, goodSuffix[..])
      ensures forall q :: 0 <= q <= |pattern.mem| - start ==>
                suffixTable[q] == LongestBorder(pattern.View(), start + q)
    {
      var m := |pattern.mem|;
      var length := m - start;
      for i := start to m
        invariant forall q :: 0 <= q < i - start ==> goodSuffix[q] == length
      {
        goodSuffix[i - start] := length;
      }
      goodSuffix[length] := 1;
      suffixTable[length] := m + 1;
      var suffix := FindSuffixes();
      BuildShifts(suffix);
    }

    // -------------------------------------------------------------- upgrades

    method UpgradeToHorspool()
      requires Valid() && strategy == Initial
      modifies this`strategy, badChar
      ensures Valid() && strategy == BoyerMooreHorspool
    {
      PopulateBoyerMooreHorspoolTable();
      strategy := BoyerMooreHorspool;
    }

    method UpgradeToBoyerMoore()
      requires Valid() && strategy == BoyerMooreHorspool
      modifies this`strategy, goodSuffix, suffixTable
      ensures Valid() && strategy == BoyerMoore
    {
      PopulateBoyerMooreTable();
      strategy := BoyerMoore;
    }

    // -------------------------------------------------------------- searches

    /** What the searches rely on to stay inside their tables and the subject. */
    lemma InBounds(subject: Vector)
      requires Valid() && Searchable(subject)
      ensures badChar.Length == ALPHABET_SIZE && goodSuffix.Length == BM_MAX_SHIFT + 1
      ensures start < |pattern.mem| <= start + BM_MAX_SHIFT && |pattern.mem| <= |subject.mem|
      ensures Rank(strategy) >= 1 ==> |pattern.mem| >= BM_MIN_PATTERN_LENGTH
      ensures layout.OneByte? ==> pattern.At(|pattern.mem| - 1) < ALPHABET_SIZE
    {}

    /** Last occurrence of a character's class in the covered part, the last character left out. */
    ghost function LastOf(c: Char): int
      requires |pattern.mem| > 0
    {
      LastOccurrence(pattern.View(), start, |pattern.mem| - 1, c % ALPHABET_SIZE)
    }

    ghost predicate NoneBefore(subject: Vector, from: int, index: int) {
      NoMatch(pattern.View(), subject.View(), from, index)
    }

    /** After a mismatch at x, the bad-character shift for position j. */
    lemma BadCharStep(subject: Vector, from: nat, index: nat, j: nat, x: nat)
      requires Valid() && Rank(strategy) >= 1 && Searchable(subject)
      requires index + |pattern.mem| <= |subject.mem| && j < |pattern.mem| && x < |pattern.mem|
      requires pattern.At(x) != subject.At(index + x) && NoneBefore(subject, from, index)
      ensures layout.OneByte? ==> subject.At(index + j) < ALPHABET_SIZE
      ensures CharOccurrence(subject.At(index + j)) == LastOf(subject.At(index + j))
      ensures var shift := j - CharOccurrence(subject.At(index + j));
              NoneBefore(subject, from, index + shift) &&
              (j == |pattern.mem| - 1 ==> 1 <= shift <= |pattern.mem|)
    {
      BadCharSkip(pattern.View(), subject.View(), start, index, j, x, badChar[..]);
    }

    /** After a mismatch at x with agreeing last characters, the Horspool shift. */
    lemma LastCharStep(subject: Vector, from: nat, index: nat, x: nat)
      requires Valid() && Rank(strategy) >= 1 && Searchable(subject)
      requires index + |pattern.mem| <= |subject.mem| && x < |pattern.mem|
      requires subject.At(index + (|pattern.mem| - 1)) == pattern.At(|pattern.mem| - 1)
      requires pattern.At(x) != subject.At(index + x) && NoneBefore(subject, from, index)
      ensures layout.OneByte? ==> pattern.At(|pattern.mem| - 1) < ALPHABET_SIZE
      ensures var shift := |pattern.mem| - 1 - CharOccurrence(pattern.At(|pattern.mem| - 1));
              NoneBefore(subject, from, index + shift) && 1 <= shift <= |pattern.mem|
    {
      hide Valid, NoneBefore;
      BadCharStep(subject, from, index, |pattern.mem| - 1, x);
    }

    /** After pattern[j+1..] matched and pattern[j] did not, the good-suffix shift. */
    lemma GoodSuffixStep(subject: Vector, from: nat, index: nat, j: nat)
      requires Valid() && strategy == BoyerMoore && Searchable(subject)
      requires index + |pattern.mem| <= |subject.mem| && start <= j < |pattern.mem| - 1
      requires forall x :: j < x < |pattern.mem| ==> subject.At(index + x) == pattern.At(x)
      requires pattern.At(j) != subject.At(index + j) && NoneBefore(subject, from, index)
      ensures goodSuffix[j + 1 - start] == LeastGoodShift(pattern.View(), start, j + 1)
      ensures var shift := goodSuffix[j + 1 - start];
              shift > 0 && NoneBefore(subject, from, index + shift)
    {
      var p, t := pattern.View(), subject.View();
      forall x | j < x < |p| ensures t[index + x] == p[x] {
        assert subject.At(index + x) == pattern.At(x);
      }
      GoodSuffixSkip(p, t, start, index, j);
    }

    /** Where the skip loop ends, by the rule. */
    ghost function SkipsTo(subject: Vector, index: nat): nat {
      if start < |pattern.mem| then SkipEnd(pattern.View(), subject.View(), start, index) else index
    }

    lemma SkipOnce(subject: Vector, index: nat)
      requires Valid() && index + |pattern.mem| <= |subject.mem|
      requires pattern.At(|pattern.mem| - 1) != subject.At(index + (|pattern.mem| - 1))
      ensures var next := index + (|pattern.mem| - 1 - LastOf(subject.At(index + (|pattern.mem| - 1))));
              next >= 0 && SkipsTo(subject, index) == SkipsTo(subject, next)
    {}

    lemma SkipStops(subject: Vector, index: nat)
      requires Valid()
      requires index + |pattern.mem| <= |subject.mem| ==>
                 pattern.At(|pattern.mem| - 1) == subject.At(index + (|pattern.mem| - 1))
      ensures SkipsTo(subject, index) == index
    {}

    lemma Hit(subject: Vector, from: nat, index: nat)
      requires Valid() && NoneBefore(subject, from, index) && from <= index
      requires index + |pattern.mem| <= |subject.mem|
      requires forall x :: 0 <= x < |pattern.mem| ==> subject.At(index + x) == pattern.At(x)
      ensures Answer(subject, from) == index
    {
      var p, t := pattern.View(), subject.View();
      forall x | 0 <= x < |p| ensures t[index + x] == p[x] {
        assert subject.At(index + x) == pattern.At(x);
      }
      FirstMatchExact(p, t, from, index);
    }

    lemma Miss(subject: Vector, from: nat, index: nat)
      requires Valid() && NoneBefore(subject, from, index) && index + |pattern.mem| > |subject.mem|
      ensures Answer(subject, from) == |subject.mem|
    {
      FirstMatchExact(pattern.View(), subject.View(), from, |subject.mem|);
    }

    lemma Resume(subject: Vector, from: nat, index: nat)
      requires Valid() && NoneBefore(subject, from, index) && from <= index
      ensures Answer(subject, from) == Answer(subject, index)
    {
      var p, t := pattern.View(), subject.View();
      FirstMatchExact(p, t, from, FirstMatch(p, t, index));
      FirstMatchExact(p, t, index, FirstMatch(p, t, index));
    }

    lemma NothingBefore(subject: Vector, from: nat)
      ensures NoneBefore(subject, from, from)
    {}

    /** One shift of the skip loop: it passes no match and stays on the way the rule leads. */
    method SkipShift(subject: Vector, ghost from: nat, index: nat) returns (shift: nat)
      requires Valid() && Rank(strategy) >= 1 && Searchable(subject)
      requires index + |pattern.mem| <= |subject.mem| && NoneBefore(subject, from, index)
      requires pattern.At(|pattern.mem| - 1) != subject.At(index + (|pattern.mem| - 1))
      ensures 1 <= shift <= |pattern.mem| && NoneBefore(subject, from, index + shift)
      ensures SkipsTo(subject, index) == SkipsTo(subject, index + shift)
    {
      InBounds(subject);
      hide Valid, Searchable, NoneBefore, Vector.At, LastOf, SkipsTo;
      var last := |pattern.mem| - 1;
      BadCharStep(subject, from, index, last, last);
      SkipOnce(subject, index);
      shift := last - CharOccurrence(subject.At(index + last));
    }

    /**
     * Shifts by the bad-character rule until the last characters agree or the subject is exhausted.
     * `saved` is what the skips are worth: characters passed less characters that did not agree.
     * `inspected` counts every subject character read, the agreeing one included.
     */
    method SkipToLastChar(subject: Vector, ghost from: nat, index: nat)
      returns (next: nat, saved: nat, ghost inspected: nat)
      requires Valid() && Rank(strategy) >= 1 && Searchable(subject)
      requires index + |pattern.mem| <= |subject.mem| && NoneBefore(subject, from, index)
      ensures index <= next <= |subject.mem| && NoneBefore(subject, from, next)
      ensures next + |pattern.mem| <= |subject.mem| ==>
                subject.At(next + |pattern.mem| - 1) == pattern.At(|pattern.mem| - 1)
      ensures saved == (next - index) - inspected + (if next + |pattern.mem| <= |subject.mem| then 1 else 0)
      ensures next == SkipsTo(subject, index)
    {
      InBounds(subject);
      hide Valid, Searchable, NoneBefore, Vector.At, LastOf, SkipsTo;
      var n, m := |subject.mem|, |pattern.mem|;
      var lastChar := pattern.At(m - 1);
      next, saved, inspected := index, 0, 0;
      while lastChar != subject.At(next + (m - 1))
        invariant index <= next <= n - m
        invariant NoneBefore(subject, from, next)
        invariant saved == (next - index) - inspected
        invariant SkipsTo(subject, index) == SkipsTo(subject, next)
        decreases n - next
      {
        inspected := inspected + 1;
        var shift := SkipShift(subject, from, next);
        next := next + shift;
        saved := saved + (shift - 1);
        if next > n - m {
          SkipStops(subject, next);
          return;
        }
      }
      inspected := inspected + 1;
      SkipStops(subject, next);
    }

    /** Compares backwards from position `from`; the position of the first mismatch, or -1 after a full match. */
    method CompareBackwards(subject: Vector, index: nat, from: nat) returns (j: int, ghost inspected: nat)
      requires from < |pattern.mem| && index + |pattern.mem| <= |subject.mem|
      ensures -1 <= j <= from
      ensures forall x :: j < x <= from ==> subject.At(index + x) == pattern.At(x)
      ensures j >= 0 ==> pattern.At(j) != subject.At(index + j)
      ensures inspected == if j < 0 then from + 1 else from + 1 - j
    {
      j, inspected := from, 0;
      while pattern.At(j) == subject.At(index + j)
        invariant 0 <= j <= from
        invariant forall x :: j < x <= from ==> subject.At(index + x) == pattern.At(x)
        invariant inspected == from - j
        decreases j
      {
        inspected := inspected + 1;
        if j == 0 {
          return -1, inspected;
        }
        j := j - 1;
      }
      inspected := inspected + 1;
    }

    /**
     * How far Boyer-Moore moves after pattern[j+1..] matched and pattern[j] did not: by the better of the
     * two rules, or by the Horspool shift when more matched than the good-suffix table covers.
     */
    method ShiftAfterMismatch(subject: Vector, ghost from: nat, index: nat, j: nat) returns (shift: nat)
      requires Valid() && strategy == BoyerMoore && Searchable(subject)
      requires index + |pattern.mem| <= |subject.mem| && j < |pattern.mem| - 1
      requires forall x :: j < x < |pattern.mem| ==> subject.At(index + x) == pattern.At(x)
      requires pattern.At(j) != subject.At(index + j) && NoneBefore(subject, from, index)
      ensures shift > 0 && NoneBefore(subject, from, index + shift)
      ensures shift ==
              if j < start then |pattern.mem| - 1 - LastOf(pattern.At(|pattern.mem| - 1))
              else Max(LeastGoodShift(pattern.View(), start, j + 1), j - LastOf(subject.At(index + j)))
    {
      InBounds(subject);
      hide Valid, Searchable, NoneBefore, Vector.At, LeastGoodShift, LastOf;
      var m := |pattern.mem|;
      var c := subject.At(index + j);
      BadCharStep(subject, from, index, m - 1, j);
      if j < start {
        // The mismatch lies in front of the covered part, so there is no good-suffix entry for it.
        shift := m - 1 - CharOccurrence(pattern.At(m - 1));
      } else {
        GoodSuffixStep(subject, from, index, j);
        BadCharStep(subject, from, index, j, j);
        var gsShift := goodSuffix[j + 1 - start];
        var bcOcc := CharOccurrence(c);
        var best := j - bcOcc;
        if gsShift > best {
          best := gsShift;
        }
        shift := best;
      }
    }

    method BoyerMooreSearch(subject: Vector, startIndex: nat) returns (r: nat)
      requires Valid() && strategy == BoyerMoore && Searchable(subject)
      ensures r == Answer(subject, startIndex)
    {
      InBounds(subject);
      hide Valid, Searchable, Answer, NoneBefore, Vector.At, Vector.View, SkipsTo, LastOf;
      var n, m := |subject.mem|, |pattern.mem|;
      var lastChar := pattern.At(m - 1);
      var index := startIndex;
      NothingBefore(subject, startIndex);
      while index <= n - m
        invariant startIndex <= index && NoneBefore(subject, startIndex, index)
        decreases n - index
      {
        var saved;
        ghost var read;
        index, saved, read := SkipToLastChar(subject, startIndex, index);
        if index > n - m {
          Miss(subject, startIndex, index);
          return n;
        }
        var j;
        j, read := CompareBackwards(subject, index, m - 1);
        if j < 0 {
          Hit(subject, startIndex, index);
          return index;
        }
        var shift := ShiftAfterMismatch(subject, startIndex, index, j);
        index := index + shift;
      }
      Miss(subject, startIndex, index);
      return n;
    }

    /**
     * Horspool search that watches its own cost. `inspected` counts subject characters read in this
     * phase and `advanced` how far it moved; a switch to Boyer-Moore hands over the current index.
     */
    method BoyerMooreHorspoolSearch(subject: Vector, startIndex: nat)
      returns (r: nat, ghost inspected: nat, ghost advanced: nat)
      requires Valid() && strategy == BoyerMooreHorspool && Searchable(subject)
      modifies this`strategy, goodSuffix, suffixTable
      ensures Valid() && r == Answer(subject, startIndex)
      ensures strategy == BoyerMooreHorspool || strategy == BoyerMoore
      ensures inspected <= 2 * |pattern.mem| + advanced
      ensures advanced == 0 || startIndex + advanced <= |subject.mem|
      ensures strategy == BoyerMoore ==> inspected > |pattern.mem| + advanced
    {
      InBounds(subject);
      hide Valid, Searchable, Answer, NoneBefore, Vector.At, Vector.View, SkipsTo, LastOf;
      var n, m := |subject.mem|, |pattern.mem|;
      inspected := 0;
      var badness := -m;
      var lastChar := pattern.At(m - 1);
      var lastCharShift := m - 1 - CharOccurrence(lastChar);
      var index := startIndex;
      NothingBefore(subject, startIndex);
      while index <= n - m
        invariant Valid() && strategy == BoyerMooreHorspool
        invariant startIndex <= index && NoneBefore(subject, startIndex, index)
        invariant index == startIndex || index <= n
        invariant badness == inspected - (index - startIndex) - m && badness <= 0
        decreases n - index
      {
        var saved, j;
        ghost var read;
        index, saved, read := SkipToLastChar(subject, startIndex, index);
        badness := badness - saved;
        inspected := inspected + read;
        if index > n - m {
          Miss(subject, startIndex, index);
          return n, inspected, index - startIndex;
        }
        j, read := CompareBackwards(subject, index, m - 2);
        inspected := inspected + read;
        if j < 0 {
          Hit(subject, startIndex, index);
          return index, inspected, index - startIndex;
        }
        LastCharStep(subject, startIndex, index, j);
        index := index + lastCharShift;
        badness := badness + (m - j) - lastCharShift;
        if badness > 0 {
          UpgradeToBoyerMoore();
          r := BoyerMooreSearch(subject, index);
          Resume(subject, startIndex, index);
          return r, inspected, index - startIndex;
        }
      }
      Miss(subject, startIndex, index);
      return n, inspected, index - startIndex;
    }

    /** Characters of the subject from index on. */
    ghost function Left(subject: Vector, index: nat): nat {
      if index <= |subject.mem| then |subject.mem| - index else 0
    }

    /** What a Horspool phase that starts at index or later may inspect: linear in pattern and subject. */
    ghost function HorspoolBound(subject: Vector, index: nat): nat {
      2 * |pattern.mem| + Left(subject, index)
    }

    /** Pattern comparisons of a linear search from index: its patterns are short, or it stops by itself. */
    ghost function ComparedBound(subject: Vector, index: nat): nat {
      if |pattern.mem| < BM_MIN_PATTERN_LENGTH then (BM_MIN_PATTERN_LENGTH - 2) * Left(subject, index)
      else 9 + 5 * |pattern.mem|
    }

    /** Positions at which the first character is absent hold no match. */
    lemma ScanStep(subject: Vector, from: nat, index: nat, found: nat)
      requires Valid() && |pattern.mem| <= |subject.mem| && NoneBefore(subject, from, index)
      requires index <= |subject.mem| - |pattern.mem| + 1
      requires IsScan(subject.View(), pattern.At(0), index, |subject.mem| - |pattern.mem| + 1, found)
      ensures NoneBefore(subject, from, found)
      ensures found == |subject.mem| ==> Answer(subject, from) == found
      ensures found < |subject.mem| ==> index <= found <= |subject.mem| - |pattern.mem| &&
                                        subject.At(found) == pattern.At(0)
    {
      var p, t := pattern.View(), subject.View();
      assert p[0] == pattern.At(0);
      forall i | index <= i < found ensures !MatchAt(p, t, i) {
        if i + |p| <= |t| { assert t[i + 0] != p[0]; }
      }
      assert found < |t| ==> t[found] == subject.At(found);
      FirstMatchExact(p, t, from, |t|);
    }

    lemma MismatchStep(subject: Vector, from: nat, index: nat, x: nat)
      requires Valid() && NoneBefore(subject, from, index)
      requires index + |pattern.mem| <= |subject.mem| && x < |pattern.mem|
      requires pattern.At(x) != subject.At(index + x)
      ensures NoneBefore(subject, from, index + 1)
    {}

    method SingleCharSearch(subject: Vector, index: nat) returns (r: nat, ghost scanned: nat)
      requires Valid() && strategy == SingleChar && Searchable(subject) && index <= |subject.mem|
      ensures r == Answer(subject, index)
      ensures scanned <= 3 * Left(subject, index)
    {
      r, scanned := FindFirstCharacter(layout, pattern, subject, index);
      ScanStep(subject, index, index, r);
      if r < |subject.mem| { Hit(subject, index, r); }
    }

    /** Compares forwards behind the first character, which matched; the first mismatch, or the pattern length. */
    method CompareRest(subject: Vector, index: nat) returns (j: nat, ghost compared: nat)
      requires 1 < |pattern.mem| && index + |pattern.mem| <= |subject.mem|
      requires subject.At(index) == pattern.At(0)
      ensures 1 <= j <= |pattern.mem|
      ensures forall x :: 0 <= x < j ==> subject.At(index + x) == pattern.At(x)
      ensures j < |pattern.mem| ==> pattern.At(j) != subject.At(index + j)
      ensures compared == if j < |pattern.mem| then j else j - 1
    {
      j, compared := 1, 0;
      while j < |pattern.mem|
        invariant 1 <= j <= |pattern.mem| && compared == j - 1
        invariant forall x :: 0 <= x < j ==> subject.At(index + x) == pattern.At(x)
      {
        compared := compared + 1;
        if pattern.At(j) != subject.At(index + j) {
          break;
        }
        j := j + 1;
      }
    }

    /**
     * Linear search for a short pattern. `compared` counts pattern comparisons, `scanned` what the searches
     * for the first character read: both stay linear in the part of the subject that was passed.
     */
    method LinearSearch(subject: Vector, index: nat) returns (r: nat, ghost compared: nat, ghost scanned: nat)
      requires Valid() && strategy == Linear && Searchable(subject)
      ensures r == Answer(subject, index)
      ensures compared <= ComparedBound(subject, index) && scanned <= 3 * Left(subject, index)
    {
      InBounds(subject);
      assert |pattern.mem| < BM_MIN_PATTERN_LENGTH;
      compared, scanned := 0, 0;
      hide Valid, Searchable, Answer, NoneBefore, Vector.At, Vector.View, SkipsTo, LastOf;
      var n := |subject.mem| - |pattern.mem|;
      var i := index;
      while i <= n
        invariant index <= i && NoneBefore(subject, index, i)
        invariant i == index || i <= |subject.mem|
        invariant compared <= (BM_MIN_PATTERN_LENGTH - 2) * (i - index) && scanned <= 3 * (i - index)
        decreases n - i
      {
        ghost var tried, read := i, 0;
        i, read := FindFirstCharacter(layout, pattern, subject, i);
        scanned := scanned + read;
        ScanStep(subject, index, tried, i);
        if i == |subject.mem| {
          return |subject.mem|, compared, scanned;
        }
        var j;
        j, read := CompareRest(subject, i);
        compared := compared + read;
        if j == |pattern.mem| {
          Hit(subject, index, i);
          return i, compared, scanned;
        }
        MismatchStep(subject, index, i, j);
        i := i + 1;
      }
      Miss(subject, index, i);
      return |subject.mem|, compared, scanned;
    }

    /**
     * Linear search until it has done too much work, then Horspool from the position reached.
     * `compared` counts pattern comparisons of the linear phase, `scanned` what its searches
     * for the first character read, `rounds` the positions tried, and `inspected` characters of the Horspool phase.
     */
    method InitialSearch(subject: Vector, index: nat)
      returns (r: nat, ghost compared: nat, ghost scanned: nat, ghost inspected: nat, ghost rounds: nat)
      requires Valid() && strategy == Initial && Searchable(subject)
      modifies this`strategy, badChar, goodSuffix, suffixTable
      ensures Valid() && r == Answer(subject, index)
      ensures compared < 10 + 5 * |pattern.mem|
      ensures scanned <= 3 * Left(subject, index)
      ensures inspected <= HorspoolBound(subject, index)
      ensures strategy == Initial ==> inspected == 0
      ensures strategy != Initial ==> rounds + compared > 10 + 4 * |pattern.mem|
      ensures rounds <= Left(subject, index) + 1
    {
      InBounds(subject);
      hide Valid, Searchable, Answer, NoneBefore, Vector.At, Vector.View, SkipsTo, LastOf;
      compared, scanned, inspected, rounds := 0, 0, 0, 0;
      var m := |pattern.mem|;
      var badness := -10 - 4 * m;
      var i, n := index, |subject.mem| - m;
      NothingBefore(subject, index);
      while i <= n
        invariant Valid() && strategy == Initial
        invariant index <= i && NoneBefore(subject, index, i)
        invariant (i == index || i <= |subject.mem|) && scanned <= 3 * (i - index) && rounds <= i - index
        invariant badness == -10 - 4 * m + rounds + compared && compared < 10 + 5 * m
        decreases n - i
      {
        badness := badness + 1;
        rounds := rounds + 1;
        if badness <= 0 {
          ghost var tried, read := i, 0;
          i, read := FindFirstCharacter(layout, pattern, subject, i);
          scanned := scanned + read;
          ScanStep(subject, index, tried, i);
          if i == |subject.mem| {
            r := |subject.mem|;
            return;
          }
          var j;
          j, read := CompareRest(subject, i);
          compared := compared + read;
          if j == m {
            Hit(subject, index, i);
            r := i;
            return;
          }
          MismatchStep(subject, index, i, j);
          badness := badness + j;
        } else {
          UpgradeToHorspool();
          ghost var advanced;
          r, inspected, advanced := BoyerMooreHorspoolSearch(subject, i);
          Resume(subject, index, i);
          return;
        }
        i := i + 1;
      }
      Miss(subject, index, i);
      r := |subject.mem|;
    }

    /**
     * One search. The object answers as the naive search would, whatever strategy it is in. `compared`
     * counts the pattern comparisons of a linear search, `scanned` what its searches for the first character
     * read, `inspected` the subject characters of the Horspool phase; a phase that is skipped costs nothing.
     */
    method Search(subject: Vector, index: nat)
      returns (r: nat, ghost compared: nat, ghost scanned: nat, ghost inspected: nat)
      requires Valid() && Searchable(subject)
      requires |pattern.mem| == 1 ==> index <= |subject.mem|
      modifies this`strategy, badChar, goodSuffix, suffixTable
      ensures Valid() && r == Answer(subject, index)
      ensures Rank(old(strategy)) <= Rank(strategy)
      ensures old(strategy) != Initial && old(strategy) != BoyerMooreHorspool ==> strategy == old(strategy)
      ensures compared <= ComparedBound(subject, index) && scanned <= 3 * Left(subject, index)
      ensures inspected <= HorspoolBound(subject, index) && (Rank(strategy) == 0 ==> inspected == 0)
      ensures Rank(old(strategy)) >= 1 ==> compared == scanned == 0
      ensures old(strategy) == SingleChar ==> compared == 0
      ensures old(strategy) == BoyerMoore ==> inspected == 0
    {
      compared, scanned, inspected := 0, 0, 0;
      match strategy {
        case BoyerMooreHorspool =>
          ghost var advanced;
          r, inspected, advanced := BoyerMooreHorspoolSearch(subject, index);
        case BoyerMoore => r := BoyerMooreSearch(subject, index);
        case Initial =>
          ghost var rounds;
          r, compared, scanned, inspected, rounds := InitialSearch(subject, index);
        case Linear => r, compared, scanned := LinearSearch(subject, index);
        case SingleChar => r, scanned := SingleCharSearch(subject, index);
      }
    }

    /** What one search may spend before Boyer-Moore takes over. */
    ghost predicate WithinBounds(subject: Vector, index: nat, compared: nat, scanned: nat, inspected: nat) {
      compared <= ComparedBound(subject, index) && scanned <= 3 * Left(subject, index) &&
      inspected <= HorspoolBound(subject, index)
    }

    /**
     * Any run of searches on one object: every answer is the naive one, every call keeps to the work
     * bounds, and the strategy never goes back.
     */
    method SearchAll(subjects: seq<Vector>, indices: seq<nat>)
      returns (answers: seq<nat>, ghost compared: seq<nat>, ghost scanned: seq<nat>, ghost inspected: seq<nat>)
      requires Valid() && |subjects| == |indices|
      requires forall k :: 0 <= k < |subjects| ==>
                 Searchable(subjects[k]) && (|pattern.mem| == 1 ==> indices[k] <= |subjects[k].mem|)
      modifies this`strategy, badChar, goodSuffix, suffixTable
      ensures Valid() && Rank(old(strategy)) <= Rank(strategy)
      ensures |answers| == |compared| == |scanned| == |inspected| == |subjects|
      ensures forall k :: 0 <= k < |subjects| ==> answers[k] == Answer(subjects[k], indices[k])
      ensures forall k :: 0 <= k < |subjects| ==>
                WithinBounds(subjects[k], indices[k], compared[k], scanned[k], inspected[k])
    {
      answers, compared, scanned, inspected := [], [], [], [];
      for k := 0 to |subjects|
        invariant Valid() && Rank(old(strategy)) <= Rank(strategy)
        invariant |answers| == |compared| == |scanned| == |inspected| == k
        invariant forall x :: 0 <= x < k ==> answers[x] == Answer(subjects[x], indices[x])
        invariant forall x :: 0 <= x < k ==>
                    WithinBounds(subjects[x], indices[x], compared[x], scanned[x], inspected[x])
      {
        var r;
        ghost var c, d, i;
        r, c, d, i := Search(subjects[k], indices[k]);
        answers, compared, scanned, inspected := answers + [r], compared + [c], scanned + [d], inspected + [i];
      }
    }
  }
}
