/** The macro step: three tokens replaced line by line, each line edited in place. */
module Macros {

  /** The token stands at position i. */
  predicate At(s: string, token: string, i: int) {
    0 <= i && i + |token| <= |s| && s[i..i + |token|] == token
  }

  const NPOS: int := -1

  /** std::string::find: the leftmost occurrence at or after from. */
  function Find(s: string, token: string, from: nat): (r: int)
    ensures r != NPOS ==> from <= r && At(s, token, r)
    ensures forall i :: from <= i && (r == NPOS || i < r) ==> !At(s, token, i)
    decreases |s| - from
  {
    if from + |token| > |s| then NPOS
    else if At(s, token, from) then from
    else Find(s, token, from + 1)
  }

  lemma FindIs(s: string, token: string, from: nat, r: int)
    requires r != NPOS ==> from <= r && At(s, token, r)
    requires forall i :: from <= i && (r == NPOS || i < r) ==> !At(s, token, i)
    ensures r == Find(s, token, from)
  {}

  /** Searching on from a position is searching the rest. */
  lemma FindInRest(s: string, token: string, from: nat)
    requires from <= |s|
    ensures Find(s, token, from) ==
            if Find(s[from..], token, 0) == NPOS then NPOS else from + Find(s[from..], token, 0)
  {
    var r := Find(s[from..], token, 0);
    forall i | from <= i ensures At(s, token, i) <==> At(s[from..], token, i - from) {
      if i + |token| <= |s| { assert s[i..i + |token|] == s[from..][i - from..i - from + |token|]; }
    }
    FindIs(s, token, from, if r == NPOS then NPOS else from + r);
  }

  // ---------------------------------------------------------------- replacement

  /** Leftmost, non-overlapping replacement, computed on the original line only. */
  function ReplaceAll(token: string, macro: string, line: string): string
    requires token != ""
    decreases |line|
  {
    var p := Find(line, token, 0);
    if p == NPOS then line else line[..p] + macro + ReplaceAll(token, macro, line[p + |token|..])
  }

  function Quoted(s: string, isText: bool): string {
    if isText then "\"" + s + "\"" else s
  }

  lemma Regroup(text: string, start: nat, position: nat, next: nat, macro: string, tail: string)
    requires start <= position <= next <= |text|
    ensures text[start..][next - start..] == text[next..]
    ensures text[..start] + (text[start..][..position - start] + macro + tail) == text[..position] + macro + tail
  {}

  /** The part before start is final; the first token behind it is replaced next. */
  lemma ReplaceNext(token: string, macro: string, text: string, start: nat, position: nat)
    requires token != "" && start <= |text| && position == Find(text, token, start)
    ensures start <= position && position + |token| <= |text|
    ensures text[..start] + ReplaceAll(token, macro, text[start..]) ==
            text[..position] + macro + ReplaceAll(token, macro, text[position + |token|..])
  {
    hide At;
    FindInRest(text, token, start);
    FoundInside(text, token, position);
    var next := position + |token|;
    Regroup(text, start, position, next, macro, ReplaceAll(token, macro, text[next..]));
  }

  lemma FoundInside(text: string, token: string, position: int)
    requires At(text, token, position)
    ensures position + |token| <= |text|
  {}

  lemma ReplaceNone(token: string, macro: string, text: string, start: nat)
    requires token != "" && start <= |text| && Find(text, token, start) == NPOS
    ensures text[..start] + ReplaceAll(token, macro, text[start..]) == text
  {
    FindInRest(text, token, start);
  }

  lemma Spliced(front: string, macro: string, back: string)
    ensures (front + macro + back)[..|front| + |macro|] == front + macro
    ensures (front + macro + back)[|front| + |macro|..] == back
  {}

  // An independent account: cut the line at the tokens found from the left, and join the pieces anew.

  function Join(pieces: seq<string>, separator: string): string {
    if pieces == [] then ""
    else if |pieces| == 1 then pieces[0]
    else pieces[0] + separator + Join(pieces[1..], separator)
  }

  /** Every cut is at the first token from the previous cut on, and the last piece holds none. */
  ghost predicate LeftmostCuts(pieces: seq<string>, token: string) {
    pieces != [] &&
    (forall k :: 0 <= k < |pieces| - 1 ==> Find(pieces[k] + token, token, 0) == |pieces[k]|) &&
    Find(pieces[|pieces| - 1], token, 0) == NPOS
  }

  function Cut(token: string, line: string): (pieces: seq<string>)
    requires token != ""
    ensures pieces != []
    decreases |line|
  {
    var p := Find(line, token, 0);
    if p == NPOS then [line] else [line[..p]] + Cut(token, line[p + |token|..])
  }

  /** A first occurrence does not depend on what follows it. */
  lemma FirstOccurrence(piece: string, token: string, rest: string)
    requires token != ""
    ensures Find(piece + token, token, 0) == |piece| <==> Find(piece + token + rest, token, 0) == |piece|
  {
    var a, b := piece + token, piece + token + rest;
    forall i | 0 <= i <= |piece| ensures At(a, token, i) <==> At(b, token, i) {
      assert b[i..i + |token|] == a[i..i + |token|];
    }
    assert a[|piece|..|piece| + |token|] == token;
    if Find(a, token, 0) == |piece| { FindIs(b, token, 0, |piece|); }
    if Find(b, token, 0) == |piece| { FindIs(a, token, 0, |piece|); }
  }

  /** One more piece in front. */
  lemma OneMorePiece(piece: string, pieces: seq<string>, token: string)
    requires LeftmostCuts(pieces, token) && Find(piece + token, token, 0) == |piece|
    ensures LeftmostCuts([piece] + pieces, token)
    ensures Join([piece] + pieces, token) == piece + token + Join(pieces, token)
  {
    hide At, Find;
    var all := [piece] + pieces;
    assert all[1..] == pieces;
    forall k | 0 <= k < |all| - 1 ensures Find(all[k] + token, token, 0) == |all[k]| {
      if k > 0 { assert all[k] == pieces[k - 1]; }
    }
  }

  /** Every line has leftmost cuts that join back to it. */
  lemma {:induction false} CutIsLeftmost(token: string, line: string)
    requires token != ""
    ensures LeftmostCuts(Cut(token, line), token) && Join(Cut(token, line), token) == line
    decreases |line|
  {
    var p := Find(line, token, 0);
    if p == NPOS {
    } else {
      var front, rest := line[..p], line[p + |token|..];
      assert line == front + token + rest;
      FirstOccurrence(front, token, rest);
      assert Cut(token, line) == [front] + Cut(token, rest);
      hide At, Find, LeftmostCuts, Join, Cut;
      CutIsLeftmost(token, rest);
      OneMorePiece(front, Cut(token, rest), token);
    }
  }

  /** However a line is cut leftmost, replacing its tokens is joining the pieces with the replacement. */
  lemma {:induction false} ReplaceIsRejoin(pieces: seq<string>, token: string, macro: string)
    requires token != "" && LeftmostCuts(pieces, token)
    ensures ReplaceAll(token, macro, Join(pieces, token)) == Join(pieces, macro)
    decreases |pieces|
  {
    if |pieces| <= 1 {
    } else {
      var rest := pieces[1..];
      forall k | 0 <= k < |rest| - 1 ensures Find(rest[k] + token, token, 0) == |rest[k]| {
        assert rest[k] == pieces[k + 1];
      }
      ReplaceIsRejoin(rest, token, macro);
      var tail := Join(rest, token);
      FirstOccurrence(pieces[0], token, tail);
      var line := pieces[0] + token + tail;
      assert line[..|pieces[0]|] == pieces[0] && line[|pieces[0]| + |token|..] == tail;
    }
  }

  /** Replacing with text, or with text in double quotes, told by the cuts alone. */
  lemma ReplaceByCuts(token: string, line: string, replaceWith: string, isText: bool)
    requires token != ""
    ensures forall pieces: seq<string>, w: string ::
              LeftmostCuts(pieces, token) && Join(pieces, token) == line &&
              (if isText then |w| == |replaceWith| + 2 && w[0] == w[|w| - 1] == '"' && w[1..|w| - 1] == replaceWith
               else w == replaceWith) ==>
              ReplaceAll(token, Quoted(replaceWith, isText), line) == Join(pieces, w)
  {
    forall pieces: seq<string>, w: string |
      LeftmostCuts(pieces, token) && Join(pieces, token) == line &&
      (if isText then |w| == |replaceWith| + 2 && w[0] == w[|w| - 1] == '"' && w[1..|w| - 1] == replaceWith
       else w == replaceWith)
      ensures ReplaceAll(token, Quoted(replaceWith, isText), line) == Join(pieces, w)
    {
      assert isText ==> w == [w[0]] + w[1..|w| - 1] + [w[|w| - 1]];
      assert w == Quoted(replaceWith, isText);
      ReplaceIsRejoin(pieces, token, w);
    }
  }

  /** The in-place loop; the search resumes behind the text just inserted. */
  method ReplaceToken(token: string, line: string, replaceWith: string, isText: bool) returns (text: string)
    requires token != ""
    ensures text == ReplaceAll(token, Quoted(replaceWith, isText), line)
    ensures forall pieces: seq<string>, w: string ::
              LeftmostCuts(pieces, token) && Join(pieces, token) == line &&
              (if isText then |w| == |replaceWith| + 2 && w[0] == w[|w| - 1] == '"' && w[1..|w| - 1] == replaceWith
               else w == replaceWith) ==>
              text == Join(pieces, w)
  {
    ReplaceByCuts(token, line, replaceWith, isText);
    hide ReplaceAll, At, LeftmostCuts, Join;
    var quotesSpace := if isText then 2 else 0;
    ghost var macro := Quoted(replaceWith, isText);
    text := line;
    assert line[..0] == "" && line[0..] == line;
    var position: int := 0;
    while true
      invariant 0 <= position <= |text|
      invariant text[..position] + ReplaceAll(token, macro, text[position..]) == ReplaceAll(token, macro, line)
      decreases |text| - position
    {
      ghost var start := position;
      position := Find(text, token, position);
      if position == NPOS {
        ReplaceNone(token, macro, text, start);
        return;
      }
      ReplaceNext(token, macro, text, start, position);
      Spliced(text[..position], macro, text[position + |token|..]);
      if isText {
        text := text[..position] + ("\"" + replaceWith + "\"") + text[position + |token|..];
      } else {
        text := text[..position] + replaceWith + text[position + |token|..];
      }
      position := position + (|replaceWith| + quotesSpace);
    }
  }

  // ---------------------------------------------------------------- lines

  /** What repeated getline calls deliver: an unterminated last line counts, an empty remainder does not. */
  function Lines(text: string): seq<string>
    decreases |text|
  {
    if text == "" then []
    else
      var p := Find(text, "\n", 0);
      if p == NPOS then [text] else [text[..p]] + Lines(text[p + 1..])
  }

  /** Position of the last '/', or -1. */
  function LastSlash(path: string): (r: int)
    ensures -1 <= r < |path|
    ensures r >= 0 ==> path[r] == '/'
    ensures forall i :: r < i < |path| ==> path[i] != '/'
  {
    if path == "" then -1
    else if path[|path| - 1] == '/' then |path| - 1
    else LastSlash(path[..|path| - 1])
  }

  /** Without a '/', both names are the whole path. */
  function Directory(path: string): string {
    if LastSlash(path) == -1 then path else path[..LastSlash(path)]
  }

  function FileName(path: string): string {
    path[LastSlash(path) + 1..]
  }

  /** The directory and the file name are the path cut at its last '/'. */
  lemma PathParts(path: string)
    ensures '/' !in FileName(path)
    ensures path == if '/' in path then Directory(path) + "/" + FileName(path) else FileName(path)
    ensures '/' !in path ==> Directory(path) == path
  {
    var k := LastSlash(path);
    if k >= 0 { assert path == path[..k] + [path[k]] + path[k + 1..]; }
  }

  /** The number a string of decimal digits stands for. */
  function Value(digits: string): int {
    if digits == "" then 0
    else 10 * Value(digits[..|digits| - 1]) + (digits[|digits| - 1] as int - '0' as int)
  }

  /** Digits without a leading zero, or a lone zero. */
  predicate IsDecimal(digits: string) {
    digits != "" && (forall i :: 0 <= i < |digits| ==> '0' <= digits[i] <= '9') && (|digits| > 1 ==> digits[0] != '0')
  }

  function Digit(d: nat): char
    requires d < 10
  {
    '0' + d as char
  }

  /** std::to_string of a number that is not negative. */
  function Decimal(n: nat): (digits: string)
    ensures IsDecimal(digits) && Value(digits) == n
  {
    var last := [Digit(n % 10)];
    if n < 10 then last
    else
      var front := Decimal(n / 10);
      assert (front + last)[..|front + last| - 1] == front;
      front + last
  }

  lemma SplitValue(digits: string)
    requires digits != "" && '0' <= digits[|digits| - 1] <= '9'
    ensures var front, last := digits[..|digits| - 1], digits[|digits| - 1] as int - '0' as int;
            digits == front + [Digit(last)] && Value(digits) == 10 * Value(front) + last
  {}

  lemma ZeroDecimal()
    ensures Decimal(0) == "0"
  {}

  lemma DecimalSteps(n: nat)
    requires n >= 10
    ensures Decimal(n) == Decimal(n / 10) + [Digit(n % 10)]
  {}

  /** There is only one such string of digits for a number. */
  lemma {:induction false} DecimalExact(digits: string, n: nat)
    requires IsDecimal(digits) && Value(digits) == n
    ensures digits == Decimal(n)
    decreases |digits|
  {
    var front := digits[..|digits| - 1];
    SplitValue(digits);
    if front == "" {
      assert Value(front) == 0;
    } else {
      assert front[0] == digits[0] != '0';
      ValueOfDigits(front);
      ZeroDecimal();
      hide Value, Digit, Decimal;
      DecimalExact(front, n / 10);
      assert n >= 10;
      DecimalSteps(n);
    }
  }

  lemma {:induction false} ValueOfDigits(digits: string)
    requires forall i :: 0 <= i < |digits| ==> '0' <= digits[i] <= '9'
    ensures Value(digits) >= 0
  {
    if digits == "" {
    } else {
      ValueOfDigits(digits[..|digits| - 1]);
    }
  }

  const DIRNAME: string := "__dirname"
  const FILENAME: string := "__filename"

  /** One line: the three replacements, each on the result of the one before. */
  function Expand(path: string, line: string, number: nat): string {
    ReplaceAll("__line_number", Decimal(number),
      ReplaceAll(FILENAME, Quoted(FileName(path), true),
        ReplaceAll(DIRNAME, Quoted(Directory(path), true), line)))
  }

  /** The lines from number + 1 on, expanded and newline-terminated. */
  function Output(path: string, lines: seq<string>, number: nat): string {
    if lines == [] then "" else Expand(path, lines[0], number + 1) + "\n" + Output(path, lines[1..], number + 1)
  }

  /** getline on a stream that is not exhausted. */
  method GetLine(input: string) returns (line: string, rest: string)
    requires input != ""
    ensures Lines(input) == [line] + Lines(rest) && |rest| < |input|
  {
    var p := Find(input, "\n", 0);
    if p == NPOS {
      return input, "";
    }
    return input[..p], input[p + 1..];
  }

  lemma OutputStep(path: string, line: string, lines: seq<string>, number: nat, out: string)
    ensures out + Output(path, [line] + lines, number) ==
            out + (Expand(path, line, number + 1) + "\n") + Output(path, lines, number + 1)
  {}

  ghost function Expanded(path: string, lines: seq<string>, number: nat): (r: seq<string>)
    ensures |r| == |lines|
  {
    if lines == [] then [] else [Expand(path, lines[0], number + 1)] + Expanded(path, lines[1..], number + 1)
  }

  /** The lines, each followed by a newline. */
  function Terminated(lines: seq<string>): string {
    if lines == [] then "" else lines[0] + "\n" + Terminated(lines[1..])
  }

  lemma {:induction false} ExpandedAt(path: string, lines: seq<string>, number: nat, k: nat)
    requires k < |lines|
    ensures Expanded(path, lines, number)[k] == Expand(path, lines[k], number + k + 1)
    decreases k
  {
    hide Expand;
    if k == 0 {
    } else {
      ExpandedAt(path, lines[1..], number + 1, k - 1);
    }
  }

  lemma {:induction false} OutputIsTerminated(path: string, lines: seq<string>, number: nat)
    ensures Output(path, lines, number) == Terminated(Expanded(path, lines, number))
    decreases |lines|
  {
    hide Expand;
    if lines == [] {
    } else {
      OutputIsTerminated(path, lines[1..], number + 1);
      var first, rest := Expand(path, lines[0], number + 1), Expanded(path, lines[1..], number + 1);
      assert ([first] + rest)[1..] == rest;
    }
  }

  /**
   * What a line expands to, told by cuts: the directory and the file name in double quotes and the line's
   * number stand where the three tokens stood, each looked for in what the replacement before it left.
   */
  ghost predicate ExpandsTo(path: string, line: string, number: nat, result: string) {
    exists atDir: seq<string>, atFile: seq<string>, atNumber: seq<string>, digits: string ::
      LeftmostCuts(atDir, "__dirname") && Join(atDir, "__dirname") == line &&
      LeftmostCuts(atFile, "__filename") &&
      Join(atFile, "__filename") == Join(atDir, "\"" + Directory(path) + "\"") &&
      LeftmostCuts(atNumber, "__line_number") &&
      Join(atNumber, "__line_number") == Join(atFile, "\"" + FileName(path) + "\"") &&
      IsDecimal(digits) && Value(digits) == number && Join(atNumber, digits) == result
  }

  /** Expanding a line gives that, and nothing else is that. */
  lemma ExpandExact(path: string, line: string, number: nat, result: string)
    ensures ExpandsTo(path, line, number, result) <==> result == Expand(path, line, number)
  {
    hide ReplaceAll, LeftmostCuts, Join, Decimal, Directory, FileName, Value, IsDecimal, Cut;
    var dir, file := "\"" + Directory(path) + "\"", "\"" + FileName(path) + "\"";
    if ExpandsTo(path, line, number, result) {
      var atDir: seq<string>, atFile: seq<string>, atNumber: seq<string>, digits: string :|
        LeftmostCuts(atDir, "__dirname") && Join(atDir, "__dirname") == line &&
        LeftmostCuts(atFile, "__filename") && Join(atFile, "__filename") == Join(atDir, dir) &&
        LeftmostCuts(atNumber, "__line_number") && Join(atNumber, "__line_number") == Join(atFile, file) &&
        IsDecimal(digits) && Value(digits) == number && Join(atNumber, digits) == result;
      DecimalExact(digits, number);
      ReplaceIsRejoin(atDir, "__dirname", dir);
      ReplaceIsRejoin(atFile, "__filename", file);
      ReplaceIsRejoin(atNumber, "__line_number", digits);
    }
    CutIsLeftmost("__dirname", line);
    var atDir := Cut("__dirname", line);
    ReplaceIsRejoin(atDir, "__dirname", dir);
    CutIsLeftmost("__filename", Join(atDir, dir));
    var atFile := Cut("__filename", Join(atDir, dir));
    ReplaceIsRejoin(atFile, "__filename", file);
    CutIsLeftmost("__line_number", Join(atFile, file));
    var atNumber := Cut("__line_number", Join(atFile, file));
    ReplaceIsRejoin(atNumber, "__line_number", Decimal(number));
  }

  /** The line loop. */
  method ApplyStream(text: string, path: string) returns (out: string)
    ensures out == Output(path, Lines(text), 0)
  {
    hide ReplaceAll, Output, Lines, LeftmostCuts, Join;
    var directory, fileName := Directory(path), FileName(path);
    var rest, lineNumber: nat := text, 0;
    out := "";
    while rest != ""
      invariant out + Output(path, Lines(rest), lineNumber) == Output(path, Lines(text), 0)
      decreases |rest|
    {
      var line;
      line, rest := GetLine(rest);
      OutputStep(path, line, Lines(rest), lineNumber, out);
      lineNumber := lineNumber + 1;
      line := ReplaceToken(DIRNAME, line, directory, true);
      line := ReplaceToken(FILENAME, line, fileName, true);
      line := ReplaceToken("__line_number", line, Decimal(lineNumber), false);
      out := out + (line + "\n");
    }
    OutputOfNothing(path, lineNumber);
  }

  lemma ExpandedFacts(text: string, path: string)
    ensures var expanded, out := Expanded(path, Lines(text), 0), Output(path, Lines(text), 0);
            && out == Terminated(expanded)
            && (forall k :: 0 <= k < |expanded| ==> ExpandsTo(path, Lines(text)[k], k + 1, expanded[k]))
            && ((forall k :: 0 <= k < |Lines(text)| ==> StaysOneLine(path, Lines(text)[k])) ==> Lines(out) == expanded)
  {
    hide *;
    var lines := Lines(text);
    var expanded := Expanded(path, lines, 0);
    OutputIsTerminated(path, lines, 0);
    LineCountExact(text, path);
    forall k | 0 <= k < |expanded| ensures ExpandsTo(path, lines[k], k + 1, expanded[k]) {
      ExpandedAt(path, lines, 0, k);
      ExpandExact(path, lines[k], 0 + k + 1, expanded[k]);
    }
  }

  /**
   * The macro step. The output is one expanded line for each line of the text, terminated by newlines: the
   * directory and the file name in double quotes and the number of the line, counted from 1, stand where the
   * three tokens stood. Without newlines in them, the expanded lines are the lines of the output.
   */
  method Apply(text: string, path: string) returns (out: string, ghost expanded: seq<string>)
    ensures out == Output(path, Lines(text), 0) && expanded == Expanded(path, Lines(text), 0)
    ensures out == Terminated(expanded) && |expanded| == |Lines(text)|
    ensures forall k :: 0 <= k < |expanded| ==>
              ExpandsTo(path, Lines(text)[k], k + 1, expanded[k])
    ensures (forall k :: 0 <= k < |Lines(text)| ==> StaysOneLine(path, Lines(text)[k])) ==> Lines(out) == expanded
  {
    ExpandedFacts(text, path);
    hide *;
    expanded := Expanded(path, Lines(text), 0);
    out := ApplyStream(text, path);
  }

  lemma OutputOfNothing(path: string, number: nat)
    ensures Output(path, Lines(""), number) == ""
  {}

  function Newlines(s: string): nat {
    if s == "" then 0 else (if s[0] == '\n' then 1 else 0) + Newlines(s[1..])
  }

  lemma {:induction false} NoNewlines(s: string)
    ensures Newlines(s) == 0 <==> '\n' !in s
  {
    if s == "" {
    } else {
      NoNewlines(s[1..]);
      assert s == [s[0]] + s[1..];
    }
  }

  /** Text in front of a newline is cut into one line more than it has newlines. */
  lemma {:induction false} LinesOfPrefix(s: string, rest: string)
    ensures |Lines(s + "\n" + rest)| == Newlines(s) + 1 + |Lines(rest)|
    ensures '\n' !in s ==> Lines(s + "\n" + rest) == [s] + Lines(rest)
    decreases |s|
  {
    var text := s + "\n" + rest;
    var p := Find(text, "\n", 0);
    assert At(text, "\n", |s|);
    if p == |s| {
      forall i | 0 <= i < |s| ensures s[i] != '\n' { assert !At(text, "\n", i); assert text[i..i + 1] == [s[i]]; }
      NoNewlines(s);
      assert text[..p] == s && text[p + 1..] == rest;
    } else {
      assert text[p..p + 1] == "\n" && s[p] == '\n';
      forall i | 0 <= i < p ensures s[i] != '\n' { assert !At(text, "\n", i); assert text[i..i + 1] == [s[i]]; }
      NewlinesSplit(s, p);
      var after := s[p + 1..];
      assert text[p + 1..] == after + "\n" + rest;
      LinesOfPrefix(after, rest);
    }
  }

  lemma {:induction false} NewlinesSplit(s: string, p: nat)
    requires p < |s| && s[p] == '\n' && '\n' !in s[..p]
    ensures Newlines(s) == 1 + Newlines(s[p + 1..])
  {
    if p == 0 {
    } else {
      assert s[..p][0] == s[0] && s[1..][..p - 1] == s[..p][1..];
      NewlinesSplit(s[1..], p - 1);
      assert s[1..][p..] == s[p + 1..];
    }
  }

  /**
   * Line by line: no line of the result is split or lost, if and only if no expansion holds a newline.
   * The result then reads back, with getline, as exactly the expanded lines.
   */
  lemma {:induction false} LinesOfOutput(path: string, lines: seq<string>, number: nat)
    ensures |Lines(Output(path, lines, number))| >= |lines|
    ensures |Lines(Output(path, lines, number))| == |lines| <==>
            forall k :: 0 <= k < |lines| ==> '\n' !in Expand(path, lines[k], number + 1 + k)
    ensures (forall k :: 0 <= k < |lines| ==> '\n' !in Expand(path, lines[k], number + 1 + k)) ==>
            Lines(Output(path, lines, number)) == Expanded(path, lines, number)
    decreases |lines|
  {
    hide Expand, Lines;
    if lines == [] {
      LinesOfNothing();
    } else {
      var first, rest := Expand(path, lines[0], number + 1), lines[1..];
      LinesOfOutput(path, rest, number + 1);
      LinesOfPrefix(first, Output(path, rest, number + 1));
      NoNewlines(first);
      assert (forall k :: 0 <= k < |lines| ==> '\n' !in Expand(path, lines[k], number + 1 + k)) <==>
             '\n' !in first && forall k :: 0 <= k < |rest| ==> '\n' !in Expand(path, rest[k], number + 1 + 1 + k) by {
        assert forall k :: 0 <= k < |rest| ==> rest[k] == lines[k + 1];
      }
    }
  }

  lemma LinesOfNothing()
    ensures Lines("") == []
  {}

  /** An unterminated last line is delivered like any other. */
  lemma LastLine(s: string)
    requires s != "" && '\n' !in s
    ensures Lines(s) == [s]
  {
    forall i | 0 <= i < |s| ensures !At(s, "\n", i) {
      assert s[i..i + 1][0] == s[i];
    }
  }

  /** getline never delivers a newline. */
  lemma {:induction false} LinesHaveNoNewline(text: string)
    ensures forall k :: 0 <= k < |Lines(text)| ==> '\n' !in Lines(text)[k]
    decreases |text|
  {
    if text == "" {
    } else {
      var p := Find(text, "\n", 0);
      var end := if p == NPOS then |text| else p;
      forall i | 0 <= i < end ensures text[..end][i] != '\n' {
        assert !At(text, "\n", i) && text[i..i + 1] == [text[i]];
      }
      if p == NPOS { assert text[..end] == text; } else { LinesHaveNoNewline(text[p + 1..]); }
    }
  }

  // ---------------------------------------------------------------- when lines stay lines

  predicate Contains(s: string, token: string) {
    Find(s, token, 0) != NPOS
  }

  /** An occurrence inside the middle part is an occurrence of the whole. */
  lemma AtShift(a: string, m: string, b: string, token: string, i: nat)
    requires i + |token| <= |m|
    ensures At(m, token, i) <==> At(a + m + b, token, |a| + i)
  {
    assert m[i..i + |token|] == (a + m + b)[|a| + i..|a| + i + |token|];
  }

  /** When no occurrence touches the middle part, every occurrence lies in front of it or behind it. */
  lemma ContainsAround(a: string, m: string, b: string, token: string)
    requires forall i :: |a| - |token| < i < |a| + |m| ==> !At(a + m + b, token, i)
    ensures Contains(a + m + b, token) <==> Contains(a, token) || Contains(b, token)
  {
    hide At;
    var s := a + m + b;
    assert s == "" + a + (m + b) && s == (a + m) + b + "";
    var r, ra, rb := Find(s, token, 0), Find(a, token, 0), Find(b, token, 0);
    if r != NPOS {
      FoundInside(s, token, r);
      if r <= |a| - |token| { AtShift("", a, m + b, token, r); } else { AtShift(a + m, b, "", token, r - |a| - |m|); }
    }
    if ra != NPOS {
      FoundInside(a, token, ra);
      AtShift("", a, m + b, token, ra);
    }
    if rb != NPOS {
      FoundInside(b, token, rb);
      AtShift(a + m, b, "", token, rb);
    }
  }

  /** No occurrence straddles a character that the token does not have. */
  lemma ContainsBeside(a: string, c: char, b: string, token: string)
    requires c !in token
    ensures Contains(a + [c] + b, token) <==> Contains(a, token) || Contains(b, token)
  {
    var s := a + [c] + b;
    forall i | |a| - |token| < i < |a| + 1 ensures !At(s, token, i) {
      if 0 <= i && i + |token| <= |s| { assert s[i..i + |token|][|a| - i] == c; }
    }
    ContainsAround(a, [c], b, token);
  }

  /** The two tokens never overlap, in whatever text they stand. */
  lemma NoOverlap(a: string, b: string, i: int)
    requires |a| - |FILENAME| < i < |a| + |DIRNAME|
    ensures !At(a + DIRNAME + b, FILENAME, i)
  {
    var s, shift := a + DIRNAME + b, i - |a|;
    var j := if shift >= 2 then 0 else if shift == 1 then 1 else if shift >= -1 then 2 else -shift;
    if 0 <= i && i + |FILENAME| <= |s| {
      assert s[i + j] == DIRNAME[shift + j];
      assert s[i..i + |FILENAME|][j] == s[i + j];
    }
  }

  /** Replacing directory names makes a file name token only out of the directory name itself. */
  lemma {:induction false} FileNameAfterDirectory(line: string, directory: string)
    ensures Contains(ReplaceAll(DIRNAME, Quoted(directory, true), line), FILENAME) <==>
            Contains(line, FILENAME) || (Contains(line, DIRNAME) && Contains(directory, FILENAME))
    decreases |line|
  {
    hide At, Contains, Quoted;
    var p := Find(line, DIRNAME, 0);
    ContainsMeans(line, DIRNAME);
    if p == NPOS {
    } else {
      FoundInside(line, DIRNAME, p);
      var front, rest := line[..p], line[p + |DIRNAME|..];
      FileNameAfterDirectory(rest, directory);
      SplitAtFound(line, DIRNAME, p);
      forall i | |front| - |FILENAME| < i < |front| + |DIRNAME| ensures !At(front + DIRNAME + rest, FILENAME, i) {
        NoOverlap(front, rest, i);
      }
      ContainsAround(front, DIRNAME, rest, FILENAME);
      var tail := ReplaceAll(DIRNAME, Quoted(directory, true), rest);
      ContainsAroundQuoted(front, directory, tail);
    }
  }

  lemma ContainsAroundQuoted(front: string, directory: string, tail: string)
    ensures Contains(front + Quoted(directory, true) + tail, FILENAME) <==>
            Contains(front, FILENAME) || Contains(directory, FILENAME) || Contains(tail, FILENAME)
  {
    hide Contains;
    ContainsBeside(directory, '"', tail, FILENAME);
    ContainsBeside(front, '"', directory + ['"'] + tail, FILENAME);
    assert front + Quoted(directory, true) + tail == front + ['"'] + (directory + ['"'] + tail);
  }

  lemma ContainsMeans(s: string, token: string)
    ensures Contains(s, token) <==> Find(s, token, 0) != NPOS
  {}

  lemma SplitAtFound(s: string, token: string, p: int)
    requires At(s, token, p)
    ensures s == s[..p] + token + s[p + |token|..]
  {}

  /** Replacement brings in a character of the replacement, if there is a token, and loses none the token lacks. */
  lemma {:induction false} CharAfterReplace(token: string, macro: string, line: string, c: char)
    requires token != "" && c !in token
    ensures c in ReplaceAll(token, macro, line) <==> c in line || (c in macro && Contains(line, token))
    decreases |line|
  {
    hide At;
    var p := Find(line, token, 0);
    if p == NPOS {
    } else {
      FoundInside(line, token, p);
      var front, rest := line[..p], line[p + |token|..];
      CharAfterReplace(token, macro, rest, c);
      SplitAtFound(line, token, p);
      CharIn3(front, token, rest, c);
      CharIn3(front, macro, ReplaceAll(token, macro, rest), c);
    }
  }

  lemma CharIn3(a: string, b: string, d: string, c: char)
    ensures c in a + b + d <==> c in a || c in b || c in d
  {}

  /** What can be read off the path and a line: expanding the line brings in no newline. */
  predicate StaysOneLine(path: string, line: string) {
    ('\n' in Directory(path) ==> !Contains(line, DIRNAME)) &&
    ('\n' in FileName(path) ==>
       !Contains(line, FILENAME) && !(Contains(line, DIRNAME) && Contains(Directory(path), FILENAME)))
  }

  lemma ExpandStaysOneLine(path: string, line: string, number: nat)
    requires '\n' !in line
    ensures '\n' !in Expand(path, line, number) <==> StaysOneLine(path, line)
  {
    hide ReplaceAll, Contains, Directory, FileName, Find;
    var dir, file := Quoted(Directory(path), true), Quoted(FileName(path), true);
    CharIn3("\"", Directory(path), "\"", '\n');
    CharIn3("\"", FileName(path), "\"", '\n');
    CharAfterReplace(DIRNAME, dir, line, '\n');
    var line1 := ReplaceAll(DIRNAME, dir, line);
    FileNameAfterDirectory(line, Directory(path));
    CharAfterReplace(FILENAME, file, line1, '\n');
    var line2 := ReplaceAll(FILENAME, file, line1);
    assert '\n' !in Decimal(number);
    CharAfterReplace("__line_number", Decimal(number), line2, '\n');
  }

  /**
   * The number of lines is kept if and only if every line of the text stays one line under this path;
   * the output then reads back as the lines, line n expanded with number n.
   */
  lemma LineCountExact(text: string, path: string)
    ensures var lines := Lines(text);
            var kept := forall k :: 0 <= k < |lines| ==> StaysOneLine(path, lines[k]);
            (|Lines(Output(path, lines, 0))| == |lines| <==> kept) &&
            (kept ==> Lines(Output(path, lines, 0)) == Expanded(path, lines, 0)) &&
            |Lines(Output(path, lines, 0))| >= |lines|
  {
    hide Expand, Expanded, Lines, Output, StaysOneLine;
    LinesHaveNoNewline(text);
    var lines := Lines(text);
    forall k | 0 <= k < |lines| ensures '\n' !in Expand(path, lines[k], 0 + 1 + k) <==> StaysOneLine(path, lines[k]) {
      ExpandStaysOneLine(path, lines[k], 0 + 1 + k);
    }
    LinesOfOutput(path, lines, 0);
  }

  lemma NewlineInDirectory()
    ensures '\n' in Directory("a\nb/c")
  {
    var path := "a\nb/c";
    assert path[3] == '/' && path[4] == 'c';
    assert LastSlash(path) == 3 && Directory(path)[1] == '\n';
  }

  /** A directory whose name holds a newline breaks a line that asks for it. */
  lemma NewlineInPathSplitsLine()
    ensures |Lines(Output("a\nb/c", Lines("__dirname"), 0))| > |Lines("__dirname")|
  {
    hide Output, Expanded, Directory, FileName;
    NewlineInDirectory();
    LineCountExact("__dirname", "a\nb/c");
    LastLine("__dirname");
    hide Lines;
    assert At("__dirname", DIRNAME, 0);
    assert !StaysOneLine("a\nb/c", Lines("__dirname")[0]);
  }

  /** For a path without a newline, every text keeps its number of lines and line n is expanded with number n. */
  lemma ApplyKeepsLines(text: string, path: string)
    requires '\n' !in path
    ensures Lines(Output(path, Lines(text), 0)) == Expanded(path, Lines(text), 0)
    ensures |Lines(Output(path, Lines(text), 0))| == |Lines(text)|
  {
    hide Expanded, Lines, Output, Contains;
    LineCountExact(text, path);
  }
}
