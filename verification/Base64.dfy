/** The base64 decoder: a packed fast path, a slow path that skips junk, and output buffers of any size. */
module Base64 {
  import opened Base64Bits

  // Source units are integers: the narrowing conversion to uint8_t is reduction modulo 256 for any of them.

  /** unbase64_table read as unsigned bytes: a value below 64, or (negative in the table) at least 128. */
  ghost predicate DecodingTable(table: seq<Byte>) {
    |table| == 256 && table['=' as int] >= 128 &&
    forall c :: 0 <= c < 256 ==> table[c] < 64 || table[c] >= 128
  }

  /** The legal values of src[i..] in front of the first '='. */
  ghost function LegalValues(table: seq<Byte>, src: seq<int>, i: nat): (values: seq<Byte>)
    requires |table| == 256
    decreases |src| - i
  {
    if i >= |src| then []
    else if table[src[i] % 256] < 64 then [table[src[i] % 256]] + LegalValues(table, src, i + 1)
    else if src[i] % 256 == '=' as int then []
    else LegalValues(table, src, i + 1)
  }

  /**
   * The positions of src[i..] whose units are legal, in order: those with a table value below 64 and no '='
   * in front of them. All other units are skipped.
   */
  ghost predicate LegalUnits(table: seq<Byte>, src: seq<int>, i: nat, at: seq<nat>)
    requires |table| == 256
  {
    (forall j, k :: 0 <= j < k < |at| ==> at[j] < at[k]) &&
    forall n :: n in at <==>
      i <= n < |src| && table[src[n] % 256] < 64 && forall m :: i <= m < n ==> src[m] % 256 != '=' as int
  }

  /** The table's values at those positions. */
  ghost function ValuesAt(table: seq<Byte>, src: seq<int>, at: seq<nat>): (values: seq<Byte>)
    requires |table| == 256 && forall n :: n in at ==> n < |src|
    ensures |values| == |at|
  {
    assert forall k :: 0 <= k < |at| ==> at[k] in at;
    seq(|at|, k requires 0 <= k < |at| => table[src[at[k]] % 256])
  }

  /** A legal unit is the first of the legal units from there on. */
  lemma LegalHere(table: seq<Byte>, src: seq<int>, i: nat, rest: seq<nat>)
    requires DecodingTable(table) && i < |src| && table[src[i] % 256] < 64
    requires LegalUnits(table, src, i + 1, rest)
    ensures LegalUnits(table, src, i, [i] + rest)
  {
    assert forall k :: 0 <= k < |rest| ==> rest[k] in rest;
    assert src[i] % 256 != '=' as int;
    forall n ensures n in [i] + rest <==>
      i <= n < |src| && table[src[n] % 256] < 64 && forall m :: i <= m < n ==> src[m] % 256 != '=' as int
    {
      assert n in [i] + rest <==> n == i || n in rest;
    }
  }

  /** A unit that is not legal changes nothing, unless it is '='. */
  lemma SkippedHere(table: seq<Byte>, src: seq<int>, i: nat, rest: seq<nat>)
    requires DecodingTable(table) && i < |src| && table[src[i] % 256] >= 64 && src[i] % 256 != '=' as int
    requires LegalUnits(table, src, i + 1, rest)
    ensures LegalUnits(table, src, i, rest)
  {}

  lemma InTail(a: seq<nat>)
    requires a != [] && forall j, k :: 0 <= j < k < |a| ==> a[j] < a[k]
    ensures forall n :: n in a[1..] <==> n in a && n != a[0]
  {
    assert a == [a[0]] + a[1..];
  }

  /** The legal units are unique. */
  lemma {:induction false} SameUnits(a: seq<nat>, b: seq<nat>)
    requires forall j, k :: 0 <= j < k < |a| ==> a[j] < a[k]
    requires forall j, k :: 0 <= j < k < |b| ==> b[j] < b[k]
    requires forall n :: n in a <==> n in b
    ensures a == b
  {
    SameFirst(a, b);
    if a == [] {
    } else {
      InTail(a);
      InTail(b);
      SameUnits(a[1..], b[1..]);
      assert a == [a[0]] + a[1..] && b == [b[0]] + b[1..];
    }
  }

  lemma SameFirst(a: seq<nat>, b: seq<nat>)
    requires forall j, k :: 0 <= j < k < |a| ==> a[j] < a[k]
    requires forall j, k :: 0 <= j < k < |b| ==> b[j] < b[k]
    requires forall n :: n in a <==> n in b
    ensures (a == [] <==> b == []) && (a != [] ==> a[0] == b[0])
  {
    if a != [] { assert a[0] in b; }
    if b != [] { assert b[0] in a; }
  }

  lemma NothingLegal(table: seq<Byte>, src: seq<int>, i: nat)
    requires DecodingTable(table) && (i >= |src| || src[i] % 256 == '=' as int)
    ensures LegalUnits(table, src, i, [])
  {}

  lemma MoreValues(table: seq<Byte>, src: seq<int>, i: nat, rest: seq<nat>)
    requires |table| == 256 && i < |src| && forall n :: n in rest ==> n < |src|
    ensures ValuesAt(table, src, [i] + rest) == [table[src[i] % 256]] + ValuesAt(table, src, rest)
  {
    assert forall k :: 0 <= k < |rest| ==> rest[k] in rest;
  }

  /** Exactly the values at the legal units are read, whatever stands between them. */
  lemma {:induction false} FindLegalUnits(table: seq<Byte>, src: seq<int>, i: nat) returns (at: seq<nat>)
    requires DecodingTable(table)
    ensures LegalUnits(table, src, i, at) && LegalValues(table, src, i) == ValuesAt(table, src, at)
    decreases |src| - i
  {
    if i >= |src| || src[i] % 256 == '=' as int {
      at := [];
      NothingLegal(table, src, i);
    } else {
      at := FindLegalUnits(table, src, i + 1);
      assert forall n :: n in at ==> n < |src|;
      hide LegalUnits, ValuesAt;
      if table[src[i] % 256] < 64 {
        LegalHere(table, src, i, at);
        MoreValues(table, src, i, at);
        at := [i] + at;
      } else {
        SkippedHere(table, src, i, at);
      }
    }
  }

  lemma LegalValuesExact(table: seq<Byte>, src: seq<int>, i: nat, at: seq<nat>)
    requires DecodingTable(table) && LegalUnits(table, src, i, at)
    ensures LegalValues(table, src, i) == ValuesAt(table, src, at)
  {
    var found := FindLegalUnits(table, src, i);
    SameUnits(found, at);
  }

  function Min(a: int, b: int): (r: int)
    ensures r <= a && r <= b && (r == a || r == b)
  {
    if a < b then a else b
  }

  // ---------------------------------------------------------------- sizes

  datatype Mode = Normal | Url

  /** The ceiling of 4 * size / 3 is taken in integers. */
  function EncodedSize(size: nat, mode: Mode): nat {
    if mode == Normal then (size + 2) / 3 * 4 else (4 * size + 2) / 3
  }

  function DecodedSizeFast(size: nat): nat {
    if size > 1 then size / 4 * 3 + (size % 4 + 1) / 2 else 0
  }

  function DecodedSize(src: seq<int>): nat {
    if |src| < 2 then 0
    else if src[|src| - 1] == '=' as int then
      if src[|src| - 2] == '=' as int then DecodedSizeFast(|src| - 2) else DecodedSizeFast(|src| - 1)
    else DecodedSizeFast(|src|)
  }

  /** Rounded down, three bytes for four units; one more when a single unit is left over, except for a lone one. */
  lemma DecodedSizeFastExact(size: nat)
    ensures DecodedSizeFast(size) == 3 * size / 4 + if size > 1 && size % 4 == 1 then 1 else 0
  {}

  /** Trailing '=', at most two of them, are not counted. */
  lemma DecodedSizeExact(src: seq<int>, n: nat)
    requires n <= |src| <= n + 2 && forall j :: n <= j < |src| ==> src[j] == '=' as int
    requires |src| < n + 2 && n > 0 ==> src[n - 1] != '=' as int
    ensures DecodedSize(src) == 3 * n / 4 + if n > 1 && n % 4 == 1 then 1 else 0
  {
    DecodedSizeFastExact(n);
  }

  /** How far the computed size is off for a text of n legal units and nothing but padding: by one, or not at all. */
  lemma SizeOvershoot(table: seq<Byte>, src: seq<int>, n: nat)
    requires DecodingTable(table) && n <= |src| <= n + 2
    requires forall j :: 0 <= j < n ==> table[src[j] % 256] < 64
    requires forall j :: n <= j < |src| ==> src[j] == '=' as int
    ensures DecodedSize(src) - |Decoded(LegalValues(table, src, 0))| == if n > 1 && n % 4 == 1 then 1 else 0
  {
    var at := seq(n, j requires 0 <= j < n => j);
    forall k ensures k in at <==> 0 <= k < n { if 0 <= k < n { assert at[k] == k; } }
    assert n < |src| ==> src[n] % 256 == '=' as int;
    LegalValuesExact(table, src, 0, at);
    DecodedSizeExact(src, n);
  }

  lemma EncodedSizeExact(size: nat)
    ensures EncodedSize(size, Normal) % 4 == 0 && 0 <= 3 * EncodedSize(size, Normal) - 4 * size < 12
    ensures 0 <= 3 * EncodedSize(size, Url) - 4 * size < 3
  {
    var groups, units, padded := (size + 2) / 3, EncodedSize(size, Url), EncodedSize(size, Normal);
    hide EncodedSize;
    assert padded == 4 * groups;
  }

  lemma UnpaddedSizeInverts(size: nat)
    ensures DecodedSizeFast(EncodedSize(size, Url)) == size
  {}

  /** No more legal values than units before an '=' (or before the end). */
  lemma {:induction false} LegalCount(table: seq<Byte>, src: seq<int>, i: nat, end: nat)
    requires DecodingTable(table) && i <= end <= |src|
    requires end < |src| ==> src[end] == '=' as int
    ensures |LegalValues(table, src, i)| <= end - i
    decreases end - i
  {
    if i == end {
    } else {
      LegalCount(table, src, i + 1, end);
    }
  }

  /** The size computed up front is never too small for what the input decodes to. */
  lemma SizeSuffices(table: seq<Byte>, src: seq<int>)
    requires DecodingTable(table)
    ensures |Decoded(LegalValues(table, src, 0))| <= DecodedSize(src)
  {
    var n := |src|;
    LegalCount(table, src, 0, n);
    if n >= 2 && src[n - 1] == '=' as int {
      LegalCount(table, src, 0, if src[n - 2] == '=' as int then n - 2 else n - 1);
    }
  }

  // ---------------------------------------------------------------- decoding

  /** Reads on to the next legal character; fails at '=' or at the end. */
  method NextLegal(table: seq<Byte>, src: seq<int>, start: nat) returns (ok: bool, lo: Byte, i: nat)
    requires DecodingTable(table) && start < |src|
    ensures start < i <= |src|
    ensures ok ==> LegalValues(table, src, start) == [lo] + LegalValues(table, src, i)
    ensures !ok ==> LegalValues(table, src, start) == []
    ensures ok ==> lo == table[src[i - 1] % 256] && lo < 64
    ensures !ok ==> i == |src| || src[i - 1] % 256 == '=' as int
    ensures forall n :: start <= n < (if ok then i - 1 else i) ==> table[src[n] % 256] >= 64
    ensures forall n :: start <= n < i - 1 ==> src[n] % 256 != '=' as int
  {
    i := start;
    while true
      invariant start <= i < |src|
      invariant forall n :: start <= n < i ==> table[src[n] % 256] >= 64 && src[n] % 256 != '=' as int
      invariant LegalValues(table, src, start) == LegalValues(table, src, i)
      decreases |src| - i
    {
      var c := src[i] % 256;
      lo := table[c];
      i := i + 1;
      if lo < 64 {
        return true, lo, i;
      }
      if c == '=' as int || i >= |src| {
        return false, lo, i;
      }
    }
  }

  /**
   * Decodes one group of four values, from source position i0 to buffer position k0. It goes on only
   * after a full group with input and room left; otherwise everything that fits has been written.
   */
  method DecodeGroupSlow(table: seq<Byte>, dst: array<Byte>, src: seq<int>, i0: nat, k0: nat)
    returns (more: bool, i: nat, k: nat)
    requires DecodingTable(table) && i0 < |src| && k0 < dst.Length
    modifies dst
    ensures i0 < i <= |src| && k0 <= k <= dst.Length && k <= k0 + 3
    ensures var values := LegalValues(table, src, i0);
            && k - k0 <= |Decoded(values)|
            && (forall n :: 0 <= n < k - k0 ==> dst[k0 + n] == DecodedByte(values, n))
            && (more ==> |values| >= 4 && k == k0 + 3 && i < |src| && k < dst.Length &&
                         LegalValues(table, src, i) == values[4..])
            && (!more ==> k - k0 == Min(dst.Length - k0, |Decoded(values)|))
    ensures forall n :: 0 <= n < dst.Length && !(k0 <= n < k) ==> dst[n] == old(dst[n])
  {
    hide LegalValues, DecodedByte, Decoded, First, Second, Third;
    ghost var values := LegalValues(table, src, i0);
    GroupBytes(values);
    more, k := false, k0;
    var ok, lo, hi;
    ok, lo, i := NextLegal(table, src, i0);
    if !ok || i >= |src| || k >= dst.Length { EndOfValues(table, src, i); return; }
    assert values[1..] == LegalValues(table, src, i);
    hi := lo;
    ok, lo, i := NextLegal(table, src, i);
    if !ok { return; }
    assert values[2..] == LegalValues(table, src, i);
    dst[k] := First(hi, lo);
    k := k + 1;
    if i >= |src| || k >= dst.Length { EndOfValues(table, src, i); return; }
    hi := lo;
    ok, lo, i := NextLegal(table, src, i);
    if !ok { return; }
    assert values[3..] == LegalValues(table, src, i);
    dst[k] := Second(hi, lo);
    k := k + 1;
    if i >= |src| || k >= dst.Length { EndOfValues(table, src, i); return; }
    hi := lo;
    ok, lo, i := NextLegal(table, src, i);
    if !ok { return; }
    assert values[4..] == LegalValues(table, src, i);
    dst[k] := Third(hi, lo);
    k := k + 1;
    if i >= |src| || k >= dst.Length { EndOfValues(table, src, i); return; }
    more := true;
  }

  lemma EndOfValues(table: seq<Byte>, src: seq<int>, i: nat)
    requires |table| == 256
    ensures i >= |src| ==> LegalValues(table, src, i) == []
  {}

  lemma OneLegal(table: seq<Byte>, src: seq<int>, i: nat)
    requires |table| == 256 && i < |src| && table[src[i] % 256] < 64
    ensures LegalValues(table, src, i) == [table[src[i] % 256]] + LegalValues(table, src, i + 1)
  {}

  /** Four legal characters in a row. */
  lemma FourLegal(table: seq<Byte>, src: seq<int>, i: nat)
    requires |table| == 256 && i + 4 <= |src|
    requires table[src[i] % 256] < 64 && table[src[i + 1] % 256] < 64
    requires table[src[i + 2] % 256] < 64 && table[src[i + 3] % 256] < 64
    ensures LegalValues(table, src, i) ==
            [table[src[i] % 256], table[src[i + 1] % 256], table[src[i + 2] % 256], table[src[i + 3] % 256]] +
            LegalValues(table, src, i + 4)
  {
    hide LegalValues;
    OneLegal(table, src, i);
    OneLegal(table, src, i + 1);
    OneLegal(table, src, i + 2);
    OneLegal(table, src, i + 3);
  }

  /** What is left of the values after a number of whole groups. */
  ghost function AfterGroups(values: seq<Byte>, groups: nat): seq<Byte>
    requires 4 * groups <= |values|
  {
    values[4 * groups..]
  }

  /** The decoder has consumed whole groups up to i and written their bytes up to k. */
  ghost predicate Progress(table: seq<Byte>, src: seq<int>, i: nat, k: nat, written: seq<Byte>)
    requires |table| == 256
  {
    var values := LegalValues(table, src, 0);
    && i <= |src| && k % 3 == 0 && k <= |written|
    && 4 * (k / 3) <= |values| && LegalValues(table, src, i) == AfterGroups(values, k / 3)
    && written[..k] == Decoded(values)[..k]
  }

  /** Bytes written behind whole groups, decoded from what is left, continue the simple decoding. */
  lemma Written(table: seq<Byte>, src: seq<int>, i: nat, k: nat, before: seq<Byte>, k': nat, after: seq<Byte>)
    requires |table| == 256 && Progress(table, src, i, k, before) && |before| == |after|
    requires k <= k' <= |after| && k' - k <= |Decoded(LegalValues(table, src, i))|
    requires after[..k] == before[..k]
    requires forall n :: 0 <= n < k' - k ==> after[k + n] == DecodedByte(LegalValues(table, src, i), n)
    ensures var bytes := Decoded(LegalValues(table, src, 0));
            |bytes| == k + |Decoded(LegalValues(table, src, i))| && after[..k'] == bytes[..k']
  {
    hide DecodedByte, LegalValues;
    var values := LegalValues(table, src, 0);
    var bytes := Decoded(values);
    forall n | k <= n < k' ensures after[n] == bytes[n] {
      DecodedByteShift(values, k / 3, n - k);
      assert after[k + (n - k)] == after[n];
    }
    assert forall n :: 0 <= n < k ==>
      after[n] == after[..k][n] && before[n] == before[..k][n] && bytes[n] == bytes[..k][n];
  }

  /** A whole group more. */
  lemma GroupWritten(table: seq<Byte>, src: seq<int>, i: nat, k: nat, before: seq<Byte>, i': nat, after: seq<Byte>)
    requires |table| == 256 && Progress(table, src, i, k, before) && |before| == |after| && k + 3 <= |after|
    requires |LegalValues(table, src, i)| >= 4 && i' <= |src|
    requires LegalValues(table, src, i') == LegalValues(table, src, i)[4..]
    requires after[..k] == before[..k]
    requires forall n :: 0 <= n < 3 ==> after[k + n] == DecodedByte(LegalValues(table, src, i), n)
    ensures Progress(table, src, i', k + 3, after)
  {
    hide DecodedByte, LegalValues;
    Written(table, src, i, k, before, k + 3, after);
    var values := LegalValues(table, src, 0);
    assert values[4 * (k / 3)..][4..] == values[4 * ((k + 3) / 3)..];
  }

  /** What is done and what is left add up. */
  lemma ProgressSum(table: seq<Byte>, src: seq<int>, i: nat, k: nat, buffer: seq<Byte>)
    requires DecodingTable(table) && Progress(table, src, i, k, buffer)
    ensures k % 3 == 0 && k <= |buffer|
    ensures |Decoded(LegalValues(table, src, 0))| == k + |Decoded(LegalValues(table, src, i))|
    ensures |LegalValues(table, src, i)| <= |src| - i
    ensures buffer[..k] == Decoded(LegalValues(table, src, 0))[..k]
  {
    hide LegalValues;
    LegalCount(table, src, i, |src|);
  }

  lemma Begin(table: seq<Byte>, src: seq<int>, buffer: seq<Byte>)
    requires DecodingTable(table)
    ensures Progress(table, src, 0, 0, buffer)
  {}

  /** The table entries of four source units, packed. */
  function ReadGroup(table: seq<Byte>, src: seq<int>, i: nat): bv32
    requires |table| == 256 && i + 4 <= |src|
  {
    ReadUint32BE(table[src[i] % 256], table[src[i + 1] % 256], table[src[i + 2] % 256], table[src[i + 3] % 256])
  }

  /** One packed step on four legal characters. */
  method StoreGroup(table: seq<Byte>, dst: array<Byte>, src: seq<int>, i: nat, k: nat, v: bv32)
    requires DecodingTable(table) && i + 4 <= |src| && k + 3 <= dst.Length
    requires v == ReadGroup(table, src, i) && v & 0x8080_8080 == 0
    requires Progress(table, src, i, k, dst[..])
    modifies dst
    ensures Progress(table, src, i + 4, k + 3, dst[..])
    ensures forall n :: 0 <= n < dst.Length && !(k <= n < k + 3) ==> dst[n] == old(dst[n])
  {
    hide LegalValues, DecodedByte, Decoded, Progress, ReadUint32BE, Packed0, Packed1, Packed2, First, Second, Third;
    ghost var before := dst[..];
    ghost var p0, p1 := table[src[i] % 256], table[src[i + 1] % 256];
    ghost var p2, p3 := table[src[i + 2] % 256], table[src[i + 3] % 256];
    MaskFindsIllegal(p0, p1, p2, p3);
    FourLegal(table, src, i);
    PackedIsGroup(p0, p1, p2, p3);
    GroupBytes(LegalValues(table, src, i));
    dst[k] := Packed0(v);
    dst[k + 1] := Packed1(v);
    dst[k + 2] := Packed2(v);
    GroupWritten(table, src, i, k, before, i + 4, dst[..]);
  }

  /** One slow group in the course of a decoding, told in terms of the whole input. */
  method SlowGroup(table: seq<Byte>, dst: array<Byte>, src: seq<int>, i0: nat, k0: nat)
    returns (more: bool, i: nat, k: nat)
    requires DecodingTable(table) && i0 < |src| && k0 < dst.Length
    requires Progress(table, src, i0, k0, dst[..])
    modifies dst
    ensures i0 < i <= |src| && k0 <= k <= dst.Length && k <= k0 + 3
    ensures more ==> k == k0 + 3 < dst.Length && Progress(table, src, i, k, dst[..])
    ensures more ==> |LegalValues(table, src, i0)| >= 4
    ensures var bytes := Decoded(LegalValues(table, src, 0));
            k <= |bytes| && dst[..k] == bytes[..k] && (!more ==> k == Min(dst.Length, |bytes|))
    ensures forall n :: 0 <= n < dst.Length && !(k0 <= n < k) ==> dst[n] == old(dst[n])
  {
    hide LegalValues, DecodedByte, Decoded, Progress;
    ghost var before := dst[..];
    more, i, k := DecodeGroupSlow(table, dst, src, i0, k0);
    ProgressSum(table, src, i0, k0, before);
    Written(table, src, i0, k0, before, k, dst[..]);
    if more { GroupWritten(table, src, i0, k0, before, i, dst[..]); }
  }

  // The arithmetic of DecodeFast, on integers alone: `room` is the buffer's length, `left` the number of
  // legal values not yet decoded, k the bytes written before a step and k' those written after it.

  lemma WholeGroupFits(room: nat, decodedSize: nat, k: nat)
    requires k % 3 == 0 && k < Min(room, decodedSize) / 3 * 3
    ensures k + 3 <= Min(room, decodedSize) / 3 * 3 <= room
  {}

  lemma StoppedInLoop(room: nat, decodedSize: nat, bytes: nat, k: nat, k': nat)
    requires k % 3 == 0 && k < Min(room, decodedSize) / 3 * 3
    requires k' <= k + 3 && k' == Min(room, bytes)
    ensures k' == Min(Min(room, bytes), Min(room, decodedSize) / 3 * 3 + 3)
  {}

  /** After the loop, one more slow group always suffices, and none is needed without input or room. */
  lemma StoppedAfterLoop(
      room: nat, decodedSize: nat, units: nat, i: nat, k: nat, left: nat, more: bool, k': nat)
    requires i <= units && left <= units - i && k % 3 == 0 && k <= Min(room, decodedSize) / 3 * 3
    requires (units - i) / 4 == 0 || k == Min(room, decodedSize) / 3 * 3
    requires if i == units || k >= room then k' == k
             else k' <= k + 3 && k' <= room &&
                  if more then left >= 4 && k' == k + 3 else k' == Min(room, k + 3 * left / 4)
    ensures k' == Min(Min(room, k + 3 * left / 4), Min(room, decodedSize) / 3 * 3 + 3)
  {}

  /** The group that may follow the whole groups: what is left of the input, as far as there is room. */
  method LastGroup(table: seq<Byte>, dst: array<Byte>, src: seq<int>, decodedSize: nat, i0: nat, k0: nat)
    returns (k: nat)
    requires DecodingTable(table) && Progress(table, src, i0, k0, dst[..])
    requires i0 <= |src| && k0 <= Min(dst.Length, decodedSize) / 3 * 3
    requires (|src| - i0) / 4 == 0 || k0 == Min(dst.Length, decodedSize) / 3 * 3
    modifies dst
    ensures var bytes := Decoded(LegalValues(table, src, 0));
            && k == Min(Min(dst.Length, |bytes|), Min(dst.Length, decodedSize) / 3 * 3 + 3)
            && dst[..k] == bytes[..k]
    ensures k0 <= k <= dst.Length && forall n :: 0 <= n < dst.Length && !(k0 <= n < k) ==> dst[n] == old(dst[n])
  {
    hide LegalValues, DecodedByte, Decoded, Progress, Min;
    ProgressSum(table, src, i0, k0, dst[..]);
    ghost var left := |LegalValues(table, src, i0)|;
    var more, i := false, i0;
    k := k0;
    if i < |src| && k < dst.Length {
      more, i, k := SlowGroup(table, dst, src, i, k);
    }
    StoppedAfterLoop(dst.Length, decodedSize, |src|, i0, k0, left, more, k);
  }

  /**
   * Decodes into a buffer of any length, with any idea of the decoded size: the result is the simple
   * decoding cut off at the buffer's end, and at the one group that may follow the whole groups of
   * min(buffer, size). Nothing behind the result is touched.
   */
  method DecodeFast(table: seq<Byte>, dst: array<Byte>, src: seq<int>, decodedSize: nat) returns (k: nat)
    requires |table| == 256 && DecodingTable(table)
    modifies dst
    ensures var bytes := Decoded(LegalValues(table, src, 0));
            && k == Min(Min(dst.Length, |bytes|), Min(dst.Length, decodedSize) / 3 * 3 + 3)
            && dst[..k] == bytes[..k]
    ensures forall n :: k <= n < dst.Length ==> dst[n] == old(dst[n])
  {
    hide LegalValues, DecodedByte, Decoded, Progress, AfterGroups, ReadGroup, DecodingTable, Min;
    var available := Min(dst.Length, decodedSize);
    var maxK := available / 3 * 3;
    var maxI := |src| / 4 * 4;
    var i: nat := 0;
    k := 0;
    Begin(table, src, dst[..]);
    ghost var bytes := |Decoded(LegalValues(table, src, 0))|;
    while i < maxI && k < maxK
      invariant i <= |src| && maxI == i + (|src| - i) / 4 * 4
      invariant k <= maxK && Progress(table, src, i, k, dst[..])
      invariant forall n :: k <= n < dst.Length ==> dst[n] == old(dst[n])
      decreases |src| - i
    {
      var v := ReadGroup(table, src, i);
      ProgressSum(table, src, i, k, dst[..]);
      WholeGroupFits(dst.Length, decodedSize, k);
      if v & 0x8080_8080 != 0 {
        var more;
        ghost var k0 := k;
        more, i, k := SlowGroup(table, dst, src, i, k);
        if !more {
          StoppedInLoop(dst.Length, decodedSize, bytes, k0, k);
          return k;
        }
        maxI := i + (|src| - i) / 4 * 4;
      } else {
        StoreGroup(table, dst, src, i, k, v);
        i := i + 4;
        k := k + 3;
      }
    }
    k := LastGroup(table, dst, src, decodedSize, i, k);
  }

  /** What the simple decoding is, without its own words. */
  lemma DecodedInNumbers(table: seq<Byte>, src: seq<int>, at: seq<nat>, front: seq<Byte>)
    requires DecodingTable(table) && LegalUnits(table, src, 0, at)
    requires |front| <= |Decoded(LegalValues(table, src, 0))|
    requires front == Decoded(LegalValues(table, src, 0))[..|front|]
    ensures |Decoded(LegalValues(table, src, 0))| == 3 * |at| / 4
    ensures forall n :: 0 <= n < |front| ==> front[n] == ByteOf(ValuesAt(table, src, at), n)
  {
    hide DecodedByte, ByteOf, LegalValues;
    LegalValuesExact(table, src, 0, at);
    var values := ValuesAt(table, src, at);
    forall k | 0 <= k < |at| ensures values[k] < 64 { assert at[k] in at; }
    forall n | 0 <= n < |front| ensures front[n] == ByteOf(values, n) {
      DecodedByteExact(values, n);
    }
  }

  /** The decoder as called: the simple decoding of the values before the first '=', cut off at the buffer's end. */
  method Decode(table: seq<Byte>, dst: array<Byte>, src: seq<int>) returns (k: nat)
    requires DecodingTable(table)
    modifies dst
    ensures var bytes := Decoded(LegalValues(table, src, 0));
            k == Min(dst.Length, |bytes|) && dst[..k] == bytes[..k] && |bytes| <= DecodedSize(src)
    ensures forall at: seq<nat> :: LegalUnits(table, src, 0, at) ==>
              var values := ValuesAt(table, src, at);
              k == Min(dst.Length, 3 * |values| / 4) && forall n :: 0 <= n < k ==> dst[n] == ByteOf(values, n)
    ensures forall n :: k <= n < dst.Length ==> dst[n] == old(dst[n])
  {
    hide DecodedSize, LegalValues, Decoded;
    var decodedSize := DecodedSize(src);
    SizeSuffices(table, src);
    k := DecodeFast(table, dst, src, decodedSize);
    forall at: seq<nat> | LegalUnits(table, src, 0, at)
      ensures var values := ValuesAt(table, src, at);
              k == Min(dst.Length, 3 * |values| / 4) && forall n :: 0 <= n < k ==> dst[n] == ByteOf(values, n)
    {
      DecodedInNumbers(table, src, at, dst[..k]);
    }
  }

  // ---------------------------------------------------------------- round trip

  /** A symbol for each six-bit value that the table maps back to it. */
  ghost predicate AlphabetOf(alphabet: Byte -> int, table: seq<Byte>)
    requires |table| == 256
  {
    forall v: Byte :: v < 64 ==> table[alphabet(v) % 256] == v
  }

  function Symbols(alphabet: Byte -> int, values: seq<Byte>): (text: seq<int>)
    ensures |text| == |values|
  {
    seq(|values|, k requires 0 <= k < |values| => alphabet(values[k]))
  }

  /** The encoding of RFC 4648: with padding to whole groups in section 4, without in section 5. */
  function EncodedText(alphabet: Byte -> int, bytes: seq<Byte>, mode: Mode): seq<int> {
    var text := Symbols(alphabet, Encoded(bytes));
    if mode == Url || |text| % 4 == 0 then text
    else if |text| % 4 == 2 then text + ['=' as int, '=' as int]
    else text + ['=' as int]
  }

  lemma EncodedValuesAreLegal(bytes: seq<Byte>, k: nat)
    requires k < |Encoded(bytes)|
    ensures Encoded(bytes)[k] < 64
  {}

  /** Symbols followed by nothing or by '=' are read back as the values they stand for. */
  lemma {:induction false} SymbolsReadBack(
      table: seq<Byte>, alphabet: Byte -> int, values: seq<Byte>, text: seq<int>, i: nat)
    requires DecodingTable(table) && AlphabetOf(alphabet, table)
    requires i <= |values| <= |text| && text[..|values|] == Symbols(alphabet, values)
    requires |values| < |text| ==> text[|values|] == '=' as int
    requires forall k :: 0 <= k < |values| ==> values[k] < 64
    ensures LegalValues(table, text, i) == values[i..]
    decreases |values| - i
  {
    if i == |values| {
    } else {
      assert text[i] == text[..|values|][i] == alphabet(values[i]);
      SymbolsReadBack(table, alphabet, values, text, i + 1);
    }
  }

  lemma TextSizes(table: seq<Byte>, alphabet: Byte -> int, bytes: seq<Byte>, mode: Mode)
    requires DecodingTable(table) && AlphabetOf(alphabet, table)
    ensures var text := EncodedText(alphabet, bytes, mode);
            |text| == EncodedSize(|bytes|, mode) && DecodedSize(text) == |bytes|
  {
    hide Encoded;
    var values := Encoded(bytes);
    var text := EncodedText(alphabet, bytes, mode);
    if |values| > 0 {
      EncodedValuesAreLegal(bytes, |values| - 1);
      assert alphabet(values[|values| - 1]) != '=' as int;
      assert text[|values| - 1] == alphabet(values[|values| - 1]);
    }
    UnpaddedSizeInverts(|bytes|);
  }

  /** Without a look at the padding, the size is over by exactly one byte for every '='. */
  lemma FastSizeCountsPadding(alphabet: Byte -> int, bytes: seq<Byte>, mode: Mode)
    ensures var text := EncodedText(alphabet, bytes, mode);
            DecodedSizeFast(|text|) - |bytes| == |text| - |Encoded(bytes)| <= 2
  {
    hide Encoded, Symbols;
    var n := |bytes|;
    assert n % 3 == 0 || n % 3 == 1 || n % 3 == 2;
  }

  /** Any byte string, encoded with or without padding, comes back whole, and its size is predicted exactly. */
  lemma RoundTrip(table: seq<Byte>, alphabet: Byte -> int, bytes: seq<Byte>, mode: Mode)
    requires DecodingTable(table) && AlphabetOf(alphabet, table)
    ensures var text := EncodedText(alphabet, bytes, mode);
            Decoded(LegalValues(table, text, 0)) == bytes &&
            |text| == EncodedSize(|bytes|, mode) && DecodedSize(text) == |bytes|
  {
    hide Encoded, Decoded, LegalValues;
    var values, text := Encoded(bytes), EncodedText(alphabet, bytes, mode);
    forall k | 0 <= k < |values| ensures values[k] < 64 { EncodedValuesAreLegal(bytes, k); }
    assert text[..|values|] == Symbols(alphabet, values);
    SymbolsReadBack(table, alphabet, values, text, 0);
    DecodedOfEncoded(bytes);
    TextSizes(table, alphabet, bytes, mode);
  }

  /** The round trip through the decoder: the buffer then begins with the byte string, and no other byte changed. */
  method DecodeEncoded(table: seq<Byte>, alphabet: Byte -> int, bytes: seq<Byte>, mode: Mode, dst: array<Byte>)
    returns (k: nat)
    requires DecodingTable(table) && AlphabetOf(alphabet, table)
    requires dst.Length >= |bytes|
    modifies dst
    ensures k == |bytes| && dst[..k] == bytes
    ensures forall n :: k <= n < dst.Length ==> dst[n] == old(dst[n])
  {
    hide EncodedText, LegalValues, Decoded;
    RoundTrip(table, alphabet, bytes, mode);
    var text := EncodedText(alphabet, bytes, mode);
    k := Decode(table, dst, text);
  }
}
