/** Texts and their lines, as `str.splitlines(keepends=True)` and `"".join` relate them. */
module TextLines {

  type Line = string

  const CR: char := '\r'
  const LF: char := '\n'

  /** The characters that end a line. */
  predicate IsBreak(c: char) {
    || '\U{0A}' <= c <= '\U{0D}'
    || '\U{1C}' <= c <= '\U{1E}'
    || c == '\U{85}'
    || '\U{2028}' <= c <= '\U{2029}'
  }

  /** Length of the first line with its break; CR LF is one break. */
  function LineEnd(t: string): (n: nat)
    requires t != ""
    ensures 1 <= n <= |t|
  {
    if t[0] == CR && |t| > 1 && t[1] == LF then 2
    else if IsBreak(t[0]) || |t| == 1 then 1
    else 1 + LineEnd(t[1..])
  }

  function SplitLines(t: string): seq<Line> {
    if t == "" then [] else [t[..LineEnd(t)]] + SplitLines(t[LineEnd(t)..])
  }

  function Join(lines: seq<Line>): string {
    if lines == [] then "" else lines[0] + Join(lines[1..])
  }

  /** Exactly one line, with or without its break. */
  predicate IsSingle(line: Line) {
    line != "" && LineEnd(line) == |line|
  }

  /** Nothing of the text is left on an unterminated line. */
  predicate Closed(t: string) {
    t == "" || IsBreak(t[|t| - 1])
  }

  /** The end of `a` is no line end once the text `b` follows it. */
  predicate Fuses(a: string, b: string) {
    !Closed(a) || (a != "" && a[|a| - 1] == CR && b != "" && b[0] == LF)
  }

  /** The last line of one list and the first of the next stay apart. */
  predicate Meets(a: seq<Line>, b: seq<Line>) {
    a == [] || b == [] || !Fuses(a[|a| - 1], b[0])
  }

  /** A list of lines that a text can have. */
  predicate WellSplit(lines: seq<Line>) {
    && (forall i :: 0 <= i < |lines| ==> IsSingle(lines[i]))
    && (forall i, j :: 0 <= i && j == i + 1 < |lines| ==> !Fuses(lines[i], lines[j]))
  }

  // ------------------------------------------------------------------
  // Joining
  // ------------------------------------------------------------------

  lemma {:induction false} JoinConcat(a: seq<Line>, b: seq<Line>)
    ensures Join(a + b) == Join(a) + Join(b)
  {
    if a == [] {
      assert a + b == b;
    } else {
      assert (a + b)[1..] == a[1..] + b;
      JoinConcat(a[1..], b);
    }
  }

  lemma JoinOne(line: Line)
    ensures Join([line]) == line
  {
    assert [line][1..] == [];
  }

  lemma {:induction false} JoinSplit(t: string)
    ensures Join(SplitLines(t)) == t
  {
    if t != "" {
      var n := LineEnd(t);
      JoinSplit(t[n..]);
      assert SplitLines(t)[1..] == SplitLines(t[n..]);
      assert t == t[..n] + t[n..];
    }
  }

  // ------------------------------------------------------------------
  // First lines
  // ------------------------------------------------------------------

  /** Where the first line ends when more text follows a single line. */
  lemma {:induction false} FirstLineEnd(line: Line, rest: string)
    requires IsSingle(line)
    ensures LineEnd(line + rest) ==
            if !Fuses(line, rest) || rest == "" then |line|
            else if Closed(line) then |line| + 1
            else |line| + LineEnd(rest)
  {
    var t := line + rest;
    if |line| == 1 {
      assert t[1..] == rest;
    } else if line[0] == CR && line[1] == LF {
    } else {
      assert t[1..] == line[1..] + rest;
      assert !IsBreak(line[0]);
      FirstLineEnd(line[1..], rest);
    }
  }

  /** Everything before the break of a single line is free of breaks. */
  lemma {:induction false} FirstLineIsSingle(t: string)
    requires t != ""
    ensures IsSingle(t[..LineEnd(t)])
    ensures LineEnd(t) < |t| ==> !Fuses(t[..LineEnd(t)], t[LineEnd(t)..])
  {
    var n := LineEnd(t);
    if t[0] == CR && |t| > 1 && t[1] == LF {
    } else if IsBreak(t[0]) || |t| == 1 {
    } else {
      FirstLineIsSingle(t[1..]);
      var line, rest := t[..n], t[1..];
      assert line[1..] == rest[..n - 1];
      assert t[n..] == rest[n - 1..];
      assert line[|line| - 1] == rest[..n - 1][n - 2];
    }
  }

  lemma FirstOfSplit(t: string)
    requires t != ""
    ensures SplitLines(t) != [] && SplitLines(t)[0] == t[..LineEnd(t)] && SplitLines(t)[1..] == SplitLines(t[LineEnd(t)..])
    ensures SplitLines(t)[0] != "" && SplitLines(t)[0][0] == t[0]
  {
  }

  // ------------------------------------------------------------------
  // Which lists are the lines of a text
  // ------------------------------------------------------------------

  lemma WellSplitStep(first: Line, rest: seq<Line>)
    ensures WellSplit([first] + rest) <==> IsSingle(first) && WellSplit(rest) && Meets([first], rest)
  {
    if WellSplit([first] + rest) {
      WellSplitSlice([first] + rest, 0, 1);
      WellSplitSlice([first] + rest, 1, |rest| + 1);
      assert ([first] + rest)[0] == first && ([first] + rest)[1..|rest| + 1] == rest;
      var one := 1;
      assert rest != [] ==> ([first] + rest)[one] == rest[0];
    }
    if IsSingle(first) && WellSplit(rest) && Meets([first], rest) {
      WellSplitCons(first, rest);
    }
  }

  lemma WellSplitSlice(lines: seq<Line>, from: nat, to: nat)
    requires WellSplit(lines) && from <= to <= |lines|
    ensures WellSplit(lines[from..to])
  {
    hide IsSingle, Fuses;
    var part := lines[from..to];
    forall i, j | 0 <= i && j == i + 1 < |part| ensures !Fuses(part[i], part[j]) {
      var u, v := from + i, from + j;
      assert part[i] == lines[u] && part[j] == lines[v];
    }
  }

  lemma WellSplitCons(first: Line, rest: seq<Line>)
    requires IsSingle(first) && WellSplit(rest) && Meets([first], rest)
    ensures WellSplit([first] + rest)
  {
    hide IsSingle, Fuses;
    var lines := [first] + rest;
    forall i | 0 <= i < |lines| ensures IsSingle(lines[i]) {
      assert i > 0 ==> lines[i] == rest[i - 1];
    }
    forall i, j | 0 <= i && j == i + 1 < |lines| ensures !Fuses(lines[i], lines[j]) {
      assert lines[j] == rest[i];
      if i > 0 {
        var k := i - 1;
        assert lines[i] == rest[k];
        assert !Fuses(rest[k], rest[i]);
      }
    }
  }

  lemma {:induction false} WellSplitConcat(a: seq<Line>, b: seq<Line>)
    ensures WellSplit(a + b) <==> WellSplit(a) && WellSplit(b) && Meets(a, b)
  {
    hide IsSingle, Fuses, WellSplit;
    if a == [] {
      assert a + b == b;
      NothingWellSplit();
    } else {
      assert a == [a[0]] + a[1..];
      assert a + b == [a[0]] + (a[1..] + b);
      WellSplitStep(a[0], a[1..]);
      WellSplitStep(a[0], a[1..] + b);
      WellSplitConcat(a[1..], b);
    }
  }

  lemma NothingWellSplit()
    ensures WellSplit([])
  {
  }

  lemma {:induction false} SplitIsWellSplit(t: string)
    ensures WellSplit(SplitLines(t))
  {
    hide IsSingle, Fuses, WellSplit, LineEnd;
    if t == "" {
      NothingWellSplit();
    } else {
      var n := LineEnd(t);
      SplitIsWellSplit(t[n..]);
      FirstLineIsSingle(t);
      if t[n..] != "" {
        FirstOfSplit(t[n..]);
        FusesByFirst(t[..n], t[n..], SplitLines(t[n..])[0]);
      }
      WellSplitStep(t[..n], SplitLines(t[n..]));
    }
  }

  /** Fusing looks at the first character of what follows only. */
  lemma FusesByFirst(a: string, b: string, c: string)
    requires b != "" && c != "" && b[0] == c[0]
    ensures Fuses(a, b) <==> Fuses(a, c)
  {
  }

  /** Lines in front of a text split off unchanged, unless the last of them fuses with it. */
  lemma {:induction false} SplitAfterLines(lines: seq<Line>, rest: string)
    requires WellSplit(lines)
    requires lines == [] || rest == "" || !Fuses(lines[|lines| - 1], rest)
    ensures SplitLines(Join(lines) + rest) == lines + SplitLines(rest)
  {
    hide IsSingle, Fuses, WellSplit, LineEnd;
    if lines == [] {
      assert Join(lines) + rest == rest;
      assert lines + SplitLines(rest) == SplitLines(rest);
    } else {
      var first, more := lines[0], lines[1..];
      assert lines == [first] + more;
      WellSplitStep(first, more);
      SplitAfterLines(more, rest);
      var t := Join(more) + rest;
      assert Join(lines) + rest == first + t;
      FirstOfJoin(more);
      if more != [] {
        FusesByFirst(first, t, more[0]);
      } else {
        assert t == rest;
      }
      FirstSplitsOff(first, t);
    }
  }

  lemma FirstOfJoin(lines: seq<Line>)
    requires WellSplit(lines)
    ensures lines != [] ==> lines[0] != "" && Join(lines) != "" && Join(lines)[0] == lines[0][0]
  {
  }

  lemma FirstSplitsOff(first: Line, t: string)
    requires IsSingle(first) && (t == "" || !Fuses(first, t))
    ensures SplitLines(first + t) == [first] + SplitLines(t)
  {
    hide Fuses, LineEnd;
    FirstLineEnd(first, t);
    SingleIsNonempty(first);
    assert (first + t)[..|first|] == first && (first + t)[|first|..] == t;
  }

  lemma SingleIsNonempty(line: Line)
    requires IsSingle(line)
    ensures line != ""
  {
  }

  /** Joining and splitting again gives a list back exactly when it is well split. */
  lemma SplitOfJoin(lines: seq<Line>)
    ensures SplitLines(Join(lines)) == lines <==> WellSplit(lines)
  {
    hide WellSplit, SplitLines, Fuses;
    SplitIsWellSplit(Join(lines));
    if WellSplit(lines) {
      SplitAfterLines(lines, "");
      EmptySplit();
      assert Join(lines) + "" == Join(lines);
      assert lines + [] == lines;
    }
  }

  lemma EmptySplit()
    ensures SplitLines("") == []
  {
  }

  /** A line with a first character that is no break is single exactly when the rest is, or is empty. */
  lemma SignedLine(sign: char, payload: string)
    requires !IsBreak(sign)
    ensures IsSingle([sign] + payload) <==> payload == "" || IsSingle(payload)
    ensures Closed([sign] + payload) <==> payload != "" && Closed(payload)
  {
    var line := [sign] + payload;
    assert line[1..] == payload;
  }

  predicate Unbroken(s: string) {
    forall i :: 0 <= i < |s| ==> !IsBreak(s[i])
  }

  /** A break-free text in front of a single line makes a longer single line. */
  lemma {:induction false} UnbrokenLine(s: string, line: Line)
    requires Unbroken(s) && IsSingle(line)
    ensures IsSingle(s + line) && (Closed(s + line) <==> Closed(line))
  {
    if s == "" {
      assert s + line == line;
    } else {
      UnbrokenLine(s[1..], line);
      assert s + line == [s[0]] + (s[1..] + line);
      SignedLine(s[0], s[1..] + line);
    }
  }

  /** An unterminated single line has no break at all. */
  lemma {:induction false} OpenLineIsUnbroken(line: Line)
    requires IsSingle(line) && !Closed(line)
    ensures Unbroken(line)
  {
    if |line| > 1 {
      OpenLineIsUnbroken(line[1..]);
    }
  }

  // ------------------------------------------------------------------
  // Splitting, character by character
  // ------------------------------------------------------------------

  /** The ten characters that `str.splitlines` ends a line at. */
  const BREAKS: set<char> :=
    {'\n', '\r', '\U{0B}', '\U{0C}', '\U{1C}', '\U{1D}', '\U{1E}', '\U{85}', '\U{2028}', '\U{2029}'}

  /** No character but the last is a break, or the last two are one CR LF. */
  predicate OneLine(line: Line) {
    line != "" && forall i :: 0 <= i < |line| - 1 && line[i] in BREAKS ==> i == |line| - 2 && line[i] == '\r' && line[i + 1] == '\n'
  }

  /** The first line ends in a break, which is not the CR of a CR LF across the two. */
  predicate EndsBefore(line: Line, next: Line) {
    && line != "" && line[|line| - 1] in BREAKS
    && !(line[|line| - 1] == '\r' && next != "" && next[0] == '\n')
  }

  lemma BreaksAre(c: char)
    ensures IsBreak(c) <==> c in BREAKS
  {
  }

  lemma {:induction false} SingleIsOneLine(line: Line)
    ensures IsSingle(line) <==> OneLine(line)
  {
    if |line| > 1 {
      var rest := line[1..];
      SingleIsOneLine(rest);
      BreaksAre(line[0]);
      assert line == [line[0]] + rest;
      if OneLine(line) {
        forall i | 0 <= i < |rest| - 1 && rest[i] in BREAKS ensures i == |rest| - 2 && rest[i] == '\r' && rest[i + 1] == '\n' {
          assert line[i + 1] == rest[i];
        }
      }
      if IsSingle(line) && !(line[0] == CR && line[1] == LF) {
        assert !IsBreak(line[0]) && IsSingle(rest);
        forall i | 0 <= i < |line| - 1 && line[i] in BREAKS ensures i == |line| - 2 && line[i] == '\r' && line[i + 1] == '\n' {
          assert i > 0 && rest[i - 1] == line[i];
        }
      }
    }
  }

  lemma UnfusedEndsBefore(line: Line, next: Line)
    requires line != "" && next != ""
    ensures !Fuses(line, next) <==> EndsBefore(line, next)
  {
    BreaksAre(line[|line| - 1]);
  }

  /**
   What splitting gives, without naming how: the one list of lines that joins to the text, each
   free of inner breaks and each but the last ending in one.
   */
  lemma SplitExactly(t: string, lines: seq<Line>)
    ensures lines == SplitLines(t) <==>
              && Join(lines) == t
              && (forall i :: 0 <= i < |lines| ==> OneLine(lines[i]))
              && (forall i, j :: 0 <= i && j == i + 1 < |lines| ==> EndsBefore(lines[i], lines[j]))
  {
    hide SplitLines, Join, IsSingle, Fuses, OneLine, EndsBefore;
    forall i | 0 <= i < |lines| ensures IsSingle(lines[i]) <==> OneLine(lines[i]) {
      SingleIsOneLine(lines[i]);
    }
    forall i, j | 0 <= i && j == i + 1 < |lines| && OneLine(lines[i]) && OneLine(lines[j])
      ensures !Fuses(lines[i], lines[j]) <==> EndsBefore(lines[i], lines[j])
    {
      LinesAreNonempty(lines[i]);
      LinesAreNonempty(lines[j]);
      UnfusedEndsBefore(lines[i], lines[j]);
    }
    SplitOfJoin(lines);
    JoinSplit(t);
  }

  lemma LinesAreNonempty(line: Line)
    requires OneLine(line)
    ensures line != ""
  {
  }
}
