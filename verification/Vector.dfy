/** Memory as the search code sees it: directed views, raw bytes, and the byte searches over them. */
module Vectors {
  import opened Matching
  import opened Wrappers

  type ByteValue = b: nat | b < 0x100

  /** Which instance of the template, and for two-byte characters the machine's byte order. */
  datatype Layout = OneByte | TwoByte(littleEndian: bool)

  ghost predicate Fits(layout: Layout, s: seq<Char>) {
    layout.OneByte? ==> forall i :: 0 <= i < |s| ==> s[i] < 0x100
  }

  /** A view of characters in memory, front to back or back to front. */
  datatype Vector = Vector(mem: seq<Char>, forward: bool) {

    function At(index: nat): Char
      requires index < |mem|
    {
      mem[if forward then index else |mem| - index - 1]
    }

    /** The characters in view order. */
    ghost function View(): (v: seq<Char>)
      ensures |v| == |mem|
      ensures forall i {:trigger At(i)} :: 0 <= i < |mem| ==> v[i] == At(i)
    {
      if forward then mem else (ReverseAt(mem); Reverse(mem))
    }
  }

  ghost function Reverse(s: seq<Char>): (r: seq<Char>)
    ensures |r| == |s|
  {
    if s == [] then [] else Reverse(s[1..]) + [s[0]]
  }

  lemma {:induction false} ReverseAt(s: seq<Char>)
    ensures forall i :: 0 <= i < |s| ==> Reverse(s)[i] == s[|s| - 1 - i]
  {
    if s == [] {
    } else {
      ReverseAt(s[1..]);
    }
  }

  // ---------------------------------------------------------------- raw bytes

  function HighestValueByte(c: Char): (b: ByteValue)
    ensures b in {c % 0x100, c / 0x100} && b >= c % 0x100 && b >= c / 0x100
  {
    if c % 0x100 >= c / 0x100 then c % 0x100 else c / 0x100
  }

  /** The bytes of an aligned buffer of two-byte characters. */
  function Bytes(mem: seq<Char>, littleEndian: bool): (bs: seq<ByteValue>)
    ensures |bs| == 2 * |mem|
  {
    seq(2 * |mem|, b requires 0 <= b < 2 * |mem| =>
      if (b % 2 == 0) == littleEndian then mem[b / 2] % 0x100 else mem[b / 2] / 0x100)
  }

  /** memchr over [lo, hi): the offset of the first such byte, or None for a null pointer. */
  function Memchr(bytes: seq<nat>, byte: nat, lo: nat, hi: nat): (r: Option<nat>)
    requires lo <= hi <= |bytes|
    ensures r.None? ==> forall i :: lo <= i < hi ==> bytes[i] != byte
    ensures r.Some? ==> lo <= r.value < hi && bytes[r.value] == byte &&
                        forall i :: lo <= i < r.value ==> bytes[i] != byte
    decreases hi - lo
  {
    if lo == hi then None
    else if bytes[lo] == byte then Some(lo)
    else Memchr(bytes, byte, lo + 1, hi)
  }

  /** How many bytes memchr reads to give the answer r: up to the hit, or all. */
  ghost function MemchrReads(lo: nat, hi: nat, r: Option<nat>): int {
    if r.Some? then r.value + 1 - lo else hi - lo
  }

  /** The portable back-to-front byte search over [lo, lo + length). It reads from the end to the hit, or all. */
  method MemrchrFill(bytes: seq<nat>, byte: nat, lo: nat, length: nat)
    returns (r: Option<nat>, ghost scanned: nat)
    requires lo + length <= |bytes|
    ensures r.None? ==> forall i :: lo <= i < lo + length ==> bytes[i] != byte
    ensures r.Some? ==> lo <= r.value < lo + length && bytes[r.value] == byte &&
                        forall i :: r.value < i < lo + length ==> bytes[i] != byte
    ensures scanned == if r.Some? then lo + length - r.value else length
  {
    scanned := 0;
    var i := length - 1;
    while i != -1
      invariant -1 <= i < length
      invariant forall x :: lo + i < x < lo + length ==> bytes[x] != byte
      invariant scanned == length - 1 - i
    {
      scanned := scanned + 1;
      if bytes[lo + i] == byte {
        return Some(lo + i), scanned;
      }
      i := i - 1;
    }
    return None, scanned;
  }

  // ---------------------------------------------------------------- first character

  /** r is what a plain scan of s[from..to) for c returns, with |s| for "not there". */
  ghost predicate IsScan(s: seq<Char>, c: Char, from: nat, to: nat, r: nat)
    requires to <= |s|
  {
    (from <= r < to && s[r] == c && forall i :: from <= i < r ==> s[i] != c) ||
    (r == |s| && forall i :: from <= i < to ==> s[i] != c)
  }

  /** How many characters of s[from..to) a scan with the result r passes, the found one included. */
  ghost function Passed(from: nat, to: nat, length: nat, r: nat): int {
    if r == length then to - from else r + 1 - from
  }

  /** A character whose two bytes both differ from the searched byte is not the wanted character. */
  lemma AbsentByteAbsentChar(mem: seq<Char>, littleEndian: bool, k: nat, c: Char)
    requires k < |mem|
    requires Bytes(mem, littleEndian)[2 * k] != HighestValueByte(c)
    requires Bytes(mem, littleEndian)[2 * k + 1] != HighestValueByte(c)
    ensures mem[k] != c
  {}

  /**
   * One byte search from view position pos on, aligned down: the first character that has the byte, `maxN`
   * being the end of the positions to search. `scanned` counts the bytes read.
   */
  method NextCandidate(littleEndian: bool, c: Char, subject: Vector, maxN: nat, pos: nat)
    returns (next: Option<nat>, ghost scanned: nat)
    requires pos <= maxN <= |subject.mem|
    ensures next.Some? ==> pos <= next.value < maxN && scanned <= 2 * (next.value + 1 - pos)
    ensures next.None? ==> scanned == 2 * (maxN - pos)
    ensures forall i :: pos <= i < (if next.Some? then next.value else maxN) ==> subject.At(i) != c
  {
    hide Bytes, HighestValueByte;
    var length := |subject.mem|;
    var bytes := Bytes(subject.mem, littleEndian);
    var found;
    if subject.forward {
      found := Memchr(bytes, HighestValueByte(c), 2 * pos, 2 * maxN);
      scanned := MemchrReads(2 * pos, 2 * maxN, found);
    } else {
      found, scanned := MemrchrFill(bytes, HighestValueByte(c), 2 * (length - maxN), 2 * (maxN - pos));
    }
    next := if found.None? then None
            else Some(if subject.forward then found.value / 2 else length - found.value / 2 - 1);
    forall i | pos <= i < (if next.Some? then next.value else maxN) ensures subject.At(i) != c {
      AbsentByteAbsentChar(subject.mem, littleEndian, if subject.forward then i else length - i - 1, c);
    }
  }

  /**
   * Looks for pattern[0] by way of the larger of its bytes, and rechecks the character around each hit.
   * `scanned` counts the bytes the byte searches read, `rechecked` the characters compared whole: however
   * many byte searches it takes, at most two and one for every character passed.
   */
  method FindFirstCharacterTwoByte(littleEndian: bool, pattern: Vector, subject: Vector, index: nat)
    returns (r: nat, ghost scanned: nat, ghost rechecked: nat)
    requires 0 < |pattern.mem| <= |subject.mem|
    requires index <= |subject.mem| - |pattern.mem| + 1
    ensures IsScan(subject.View(), pattern.At(0), index, |subject.mem| - |pattern.mem| + 1, r)
    ensures scanned <= 2 * Passed(index, |subject.mem| - |pattern.mem| + 1, |subject.mem|, r)
    ensures rechecked <= Passed(index, |subject.mem| - |pattern.mem| + 1, |subject.mem|, r)
  {
    hide Vector.View, Vector.At;
    var first := pattern.At(0);
    var length := |subject.mem|;
    var maxN := length - |pattern.mem| + 1;
    ghost var s := subject.View();
    assert forall i :: 0 <= i < length ==> s[i] == subject.At(i);
    var pos := index;
    scanned, rechecked := 0, 0;
    while true
      invariant index <= pos <= maxN
      invariant forall i :: index <= i < pos ==> s[i] != first
      invariant scanned <= 2 * (pos - index) && rechecked <= pos - index
      decreases maxN - pos
    {
      var next;
      ghost var read;
      next, read := NextCandidate(littleEndian, first, subject, maxN, pos);
      scanned := scanned + read;
      if next.None? {
        return length, scanned, rechecked;
      }
      pos := next.value;
      rechecked := rechecked + 1;
      if subject.At(pos) == first {
        return pos, scanned, rechecked;
      }
      pos := pos + 1;
      if pos >= maxN {
        return length, scanned, rechecked;
      }
    }
  }

  /** The one-byte specialisation: a single memchr or memrchr call. */
  method FindFirstCharacterOneByte(pattern: Vector, subject: Vector, index: nat)
    returns (r: nat, ghost scanned: nat)
    requires 0 < |pattern.mem| <= |subject.mem|
    requires index <= |subject.mem| - |pattern.mem| + 1
    ensures IsScan(subject.View(), pattern.At(0), index, |subject.mem| - |pattern.mem| + 1, r)
    ensures scanned == Passed(index, |subject.mem| - |pattern.mem| + 1, |subject.mem|, r)
  {
    var length := |subject.mem|;
    var maxN := length - |pattern.mem| + 1;
    assert forall i :: 0 <= i < length ==> subject.View()[i] == subject.At(i);
    var found;
    if subject.forward {
      found := Memchr(subject.mem, pattern.At(0), index, maxN);
      scanned := MemchrReads(index, maxN, found);
    } else {
      found, scanned := MemrchrFill(subject.mem, pattern.At(0), |pattern.mem| - 1, maxN - index);
    }
    if found.None? {
      return length, scanned;
    }
    return if subject.forward then found.value else length - found.value - 1, scanned;
  }

  /** `scanned` counts bytes read and characters compared: at most three for every character passed. */
  method FindFirstCharacter(layout: Layout, pattern: Vector, subject: Vector, index: nat)
    returns (r: nat, ghost scanned: nat)
    requires 0 < |pattern.mem| <= |subject.mem|
    requires index <= |subject.mem| - |pattern.mem| + 1
    ensures IsScan(subject.View(), pattern.At(0), index, |subject.mem| - |pattern.mem| + 1, r)
    ensures scanned <= 3 * Passed(index, |subject.mem| - |pattern.mem| + 1, |subject.mem|, r)
  {
    if layout.OneByte? {
      r, scanned := FindFirstCharacterOneByte(pattern, subject, index);
    } else {
      ghost var rechecked;
      r, scanned, rechecked := FindFirstCharacterTwoByte(layout.littleEndian, pattern, subject, index);
      scanned := scanned + rechecked;
    }
  }
}
