/** What a substring search must return, stated without any algorithm. */
module Matching {

  /** A character of either width: uint8_t and uint16_t values both fit. */
  type Char = c: nat | c < 0x1_0000

  /** The pattern occurs in the subject at position i. */
  ghost predicate MatchAt(p: seq<Char>, s: seq<Char>, i: int) {
    0 <= i && i + |p| <= |s| && forall x :: 0 <= x < |p| ==> s[i + x] == p[x]
  }

  /** No occurrence starts in [lo, hi). */
  ghost predicate NoMatch(p: seq<Char>, s: seq<Char>, lo: int, hi: int) {
    forall i :: lo <= i < hi ==> !MatchAt(p, s, i)
  }

  /** The naive forward search: try every position from `from` upwards. */
  ghost function FirstMatch(p: seq<Char>, s: seq<Char>, from: nat): nat
    decreases |s| - from
  {
    if from + |p| > |s| then |s|
    else if MatchAt(p, s, from) then from
    else FirstMatch(p, s, from + 1)
  }

  /** The naive backward search: try every position from `from` downwards. */
  ghost function LastMatch(p: seq<Char>, s: seq<Char>, from: int): nat
    decreases from
  {
    if from < 0 then |s|
    else if MatchAt(p, s, from) then from
    else LastMatch(p, s, from - 1)
  }

  /** A value is FirstMatch exactly when it is the least occurrence, or the length and there is none. */
  lemma {:induction false} FirstMatchExact(p: seq<Char>, s: seq<Char>, from: nat, r: nat)
    requires |p| > 0
    ensures r == FirstMatch(p, s, from) <==>
            ((from <= r && MatchAt(p, s, r) && NoMatch(p, s, from, r)) ||
             (r == |s| && NoMatch(p, s, from, |s|)))
    decreases |s| - from
  {
    if from + |p| > |s| {
    } else if MatchAt(p, s, from) {
    } else {
      FirstMatchExact(p, s, from + 1, r);
    }
  }

  /** A value is LastMatch exactly when it is the greatest occurrence, or the length and there is none. */
  lemma {:induction false} LastMatchExact(p: seq<Char>, s: seq<Char>, from: int, r: nat)
    requires |p| > 0
    ensures r == LastMatch(p, s, from) <==>
            ((r <= from && MatchAt(p, s, r) && NoMatch(p, s, r + 1, from + 1)) ||
             (r == |s| && NoMatch(p, s, 0, from + 1)))
    decreases from
  {
    if from < 0 {
    } else if MatchAt(p, s, from) {
    } else {
      LastMatchExact(p, s, from - 1, r);
    }
  }

  /** A position that was found is never mistaken for the not-found sentinel, the subject length. */
  lemma FoundIsNotSentinel(p: seq<Char>, s: seq<Char>, from: nat)
    requires |p| > 0
    ensures FirstMatch(p, s, from) == |s| <==> NoMatch(p, s, from, |s|)
    ensures LastMatch(p, s, from) == |s| <==> NoMatch(p, s, 0, from + 1)
  {
    FirstMatchExact(p, s, from, FirstMatch(p, s, from));
    LastMatchExact(p, s, from, LastMatch(p, s, from));
  }
}
