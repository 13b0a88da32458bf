/** Which texts a single-hunk patch can turn into which, given that a patch is a text too. */
module PatchExistence {
  import opened Wrappers
  import opened HunkHeader
  import opened TextLines
  import opened UnifiedPatch
  import opened PatchLaws
  import opened PatchTexts

  // ------------------------------------------------------------------
  // The last line
  // ------------------------------------------------------------------

  lemma JoinWithLast(lines: seq<Line>)
    requires lines != []
    ensures Join(lines) == Join(lines[..|lines| - 1]) + Last(lines)
  {
    hide Join;
    assert lines == lines[..|lines| - 1] + [Last(lines)];
    JoinConcat(lines[..|lines| - 1], [Last(lines)]);
    JoinOne(Last(lines));
  }

  /** A text ends as its last line does. */
  lemma TextEndsWithLastLine(t: string)
    requires t != ""
    ensures SplitLines(t) != [] && Last(SplitLines(t)) != ""
    ensures t == Join(SplitLines(t)[..|SplitLines(t)| - 1]) + Last(SplitLines(t))
    ensures Closed(t) <==> Closed(Last(SplitLines(t)))
  {
    hide Join, SplitLines, WellSplit;
    FirstOfSplit(t);
    JoinSplit(t);
    SplitIsWellSplit(t);
    LastIsSingle(SplitLines(t));
    JoinWithLast(SplitLines(t));
  }

  predicate AllClosed(lines: seq<Line>) {
    forall i :: 0 <= i < |lines| ==> lines[i] != "" && Closed(lines[i])
  }

  lemma ClosedFront(lines: seq<Line>)
    requires WellSplit(lines) && lines != []
    ensures AllClosed(lines[..|lines| - 1])
  {
    hide Closed;
    forall i | 0 <= i < |lines| - 1 ensures lines[i] != "" && Closed(lines[i]) {
      ClosedBeforeOthers(lines, i);
    }
  }

  lemma ClosedTextsHaveClosedLines(t: string)
    requires Closed(t)
    ensures AllClosed(SplitLines(t))
  {
    hide Closed, WellSplit, SplitLines, AllClosed, Join;
    if t != "" {
      var lines := SplitLines(t);
      TextEndsWithLastLine(t);
      SplitIsWellSplit(t);
      ClosedFront(lines);
      ClosedWith(lines[..|lines| - 1], Last(lines));
      assert lines == lines[..|lines| - 1] + [Last(lines)];
    } else {
      EmptySplit();
      NothingClosed();
    }
  }

  lemma ClosedWith(front: seq<Line>, last: Line)
    requires AllClosed(front) && last != "" && Closed(last)
    ensures AllClosed(front + [last])
  {
  }

  lemma NothingClosed()
    ensures AllClosed([])
  {
  }

  lemma JoinOfClosed(lines: seq<Line>)
    requires AllClosed(lines)
    ensures Closed(Join(lines))
  {
    hide Join;
    if lines != [] {
      JoinWithLast(lines);
    } else {
      NothingJoined();
    }
  }

  // ------------------------------------------------------------------
  // Writing a patch from one text to another
  // ------------------------------------------------------------------

  /** The unterminated last line of a text. */
  function OpenTail(t: string): Line
    requires !Closed(t)
  {
    FirstOfSplit(t);
    Last(SplitLines(t))
  }

  predicate EndsWith(t: string, tail: string) {
    |tail| <= |t| && t[|t| - |tail|..] == tail
  }

  /** A patch holds at most one line without a break: its last. */
  predicate Reachable(a: string, b: string) {
    Closed(a) || Closed(b) || a <= b || EndsWith(b, OpenTail(a))
  }

  /** Edits whose lines are single, and closed up to the last, can be written. */
  lemma WritableEdits(edits: seq<Edit>)
    requires forall i :: 0 <= i < |edits| ==> IsSingle(edits[i].line)
    requires forall i :: 0 <= i < |edits| - 1 ==> Closed(edits[i].line)
    ensures Writable(edits)
  {
    hide IsSingle, Closed, LineOf;
    var lines := LinesOf(edits);
    forall i | 0 <= i < |edits| ensures IsSingle(lines[i]) && Closed(lines[i]) == Closed(edits[i].line) && IsBodyLine(lines[i]) {
      WrittenLine(edits[i]);
    }
    forall i, j | 0 <= i && j == i + 1 < |lines| ensures !Fuses(lines[i], lines[j]) {
      FusesWithBody(lines[i], lines[j]);
    }
  }

  lemma WrittenLine(e: Edit)
    requires IsSingle(e.line)
    ensures IsSingle(LineOf(e)) && Closed(LineOf(e)) == Closed(e.line) && IsBodyLine(LineOf(e))
  {
    SignedLine(' ', e.line);
    SignedLine('-', e.line);
    SignedLine('+', e.line);
  }

  /** Two blocks of lines, the first of them closed, one dropped and one added in that order or the other. */
  lemma WritableBlocks(first: seq<Edit>, second: seq<Edit>, a: seq<Line>, b: seq<Line>)
    requires WellSplit(a) && AllClosed(a) && WellSplit(b)
    requires |first| == |a| && forall i :: 0 <= i < |a| ==> first[i].line == a[i]
    requires |second| == |b| && forall i :: 0 <= i < |b| ==> second[i].line == b[i]
    ensures Writable(first + second)
  {
    hide IsSingle, Closed;
    var edits := first + second;
    forall i | 0 <= i < |edits|
      ensures IsSingle(edits[i].line) && (i < |edits| - 1 ==> Closed(edits[i].line))
    {
      if i < |a| {
        assert edits[i].line == a[i];
      } else {
        assert edits[i].line == b[i - |a|];
        if i < |edits| - 1 {
          ClosedBeforeOthers(b, i - |a|);
        }
      }
    }
    WritableEdits(edits);
  }

  /** Replace everything between `before` and `after`, dropping first. */
  lemma DropsThenAdds(path: string, lines: seq<Line>, added: seq<Line>, after: seq<Line>)
    requires PathWritable(path) && WellSplit(lines + after) && AllClosed(lines) && WellSplit(added)
    ensures Patched(Join(lines + after), RenderText(path, 0, Drops(lines) + Adds(added)), path) == Some(Join(added + after))
  {
    hide Patched, RenderText, PathWritable, Join, OldSide, NewSide, WellSplit;
    var edits := Drops(lines) + Adds(added);
    WellSplitConcat(lines, after);
    WritableBlocks(Drops(lines), Adds(added), lines, added);
    SidesOfDrops(lines);
    SidesOfAdds(added);
    SidesConcat(Drops(lines), Adds(added));
    assert [] + OldSide(edits) + after == lines + after && [] + NewSide(edits) + after == added + after;
    WrittenTextApplies(path, [], edits, after);
  }

  /** Replace the whole text, adding first. */
  lemma AddsThenDrops(path: string, lines: seq<Line>, added: seq<Line>)
    requires PathWritable(path) && WellSplit(lines) && WellSplit(added) && AllClosed(added)
    ensures Patched(Join(lines), RenderText(path, 0, Adds(added) + Drops(lines)), path) == Some(Join(added))
  {
    hide Patched, RenderText, PathWritable, Join, OldSide, NewSide, WellSplit;
    var edits := Adds(added) + Drops(lines);
    WritableBlocks(Adds(added), Drops(lines), added, lines);
    SidesOfDrops(lines);
    SidesOfAdds(added);
    SidesConcat(Adds(added), Drops(lines));
    assert [] + OldSide(edits) + [] == lines && [] + NewSide(edits) + [] == added;
    WrittenTextApplies(path, [], edits, []);
  }

  /** Append to the text, even behind an unterminated line. */
  lemma AddsBehind(path: string, before: seq<Line>, added: seq<Line>)
    requires PathWritable(path) && WellSplit(before) && WellSplit(added)
    ensures Patched(Join(before), RenderText(path, |before|, Adds(added)), path) == Some(Join(before + added))
  {
    hide Patched, RenderText, PathWritable, Join, OldSide, NewSide, WellSplit;
    NothingWellSplit();
    WritableBlocks([], Adds(added), [], added);
    assert [] + Adds(added) == Adds(added);
    SidesOfAdds(added);
    assert before + OldSide(Adds(added)) + [] == before && before + NewSide(Adds(added)) + [] == before + added;
    WrittenTextApplies(path, before, Adds(added), []);
  }

  lemma PatchFor(path: string, a: string, b: string) returns (patch: string)
    requires PathWritable(path) && Reachable(a, b)
    ensures Patched(a, patch, path) == Some(b)
  {
    hide Patched, RenderText, PathWritable, Join, SplitLines, WellSplit, Closed, AllClosed;
    var lines, added := SplitLines(a), SplitLines(b);
    SplitIsWellSplit(a);
    SplitIsWellSplit(b);
    JoinSplit(a);
    JoinSplit(b);
    if Closed(a) {
      ClosedTextsHaveClosedLines(a);
      assert lines + [] == lines && added + [] == added;
      DropsThenAdds(path, lines, added, []);
      patch := RenderText(path, 0, Drops(lines) + Adds(added));
    } else if Closed(b) {
      ClosedTextsHaveClosedLines(b);
      AddsThenDrops(path, lines, added);
      patch := RenderText(path, 0, Adds(added) + Drops(lines));
    } else if a <= b {
      var more := b[|a|..];
      SplitIsWellSplit(more);
      JoinSplit(more);
      JoinConcat(lines, SplitLines(more));
      assert b == a + more;
      AddsBehind(path, lines, SplitLines(more));
      patch := RenderText(path, |lines|, Adds(SplitLines(more)));
    } else {
      patch := PatchBeforeTail(path, a, b);
    }
  }

  /** When the open tail stays, everything before it can be replaced. */
  lemma PatchBeforeTail(path: string, a: string, b: string) returns (patch: string)
    requires PathWritable(path) && !Closed(a) && EndsWith(b, OpenTail(a))
    ensures Patched(a, patch, path) == Some(b)
  {
    hide Patched, RenderText, PathWritable, Join, SplitLines, WellSplit, Closed, AllClosed;
    var lines, tail := SplitLines(a), OpenTail(a);
    SplitIsWellSplit(a);
    JoinSplit(a);
    OpenIsNonempty(a);
    FirstOfSplit(a);
    var front, rest := lines[..|lines| - 1], b[..|b| - |tail|];
    ClosedFront(lines);
    assert lines == front + [tail];
    WellSplitConcat(front, [tail]);
    SplitIsWellSplit(rest);
    JoinSplit(rest);
    JoinConcat(SplitLines(rest), [tail]);
    JoinOne(tail);
    assert b == rest + tail;
    DropsThenAdds(path, front, SplitLines(rest), [tail]);
    patch := RenderText(path, 0, Drops(front) + Adds(SplitLines(rest)));
  }

  lemma OpenIsNonempty(t: string)
    requires !Closed(t)
    ensures t != ""
  {
  }

  // ------------------------------------------------------------------
  // No other change has a patch
  // ------------------------------------------------------------------

  lemma {:induction false} BreaksEndSingleLines(line: Line, i: nat)
    requires IsSingle(line) && i < |line| && IsBreak(line[i])
    ensures i == |line| - 1 || (i == |line| - 2 && line[i] == CR && line[i + 1] == LF)
  {
    if i > 0 {
      BreaksEndSingleLines(line[1..], i - 1);
    }
  }

  lemma {:induction false} StrippedEnds(line: Line)
    ensures Stripped(line) <= line
    ensures Stripped(line) != "" ==> Stripped(line)[|Stripped(line)| - 1] !in {CR, LF}
  {
    if line != [] && line[|line| - 1] in {CR, LF} {
      StrippedEnds(line[..|line| - 1]);
    }
  }

  /** A name on a file header line has no break, but perhaps for a last one that is neither CR nor LF. */
  lemma HeaderNamesAreWritable(line: Line, opening: string, path: string)
    requires IsSingle(line) && Stripped(line) == opening + path
    ensures PathWritable(path)
  {
    hide IsBreak, IsSingle;
    StrippedEnds(line);
    var name := opening + path;
    forall i | 0 <= i < |path| && IsBreak(path[i]) ensures i == |path| - 1 && path[i] !in {CR, LF} {
      var k := |opening| + i;
      assert name[k] == path[i] == line[k];
      BreaksEndSingleLines(line, k);
      assert name[|name| - 1] == path[|path| - 1] == line[|name| - 1];
    }
  }

  lemma {:induction false} SidesOfClosed(edits: seq<Edit>)
    requires forall i :: 0 <= i < |edits| ==> edits[i].line != "" && Closed(edits[i].line)
    ensures AllClosed(OldSide(edits)) && AllClosed(NewSide(edits))
  {
    hide Closed;
    if edits != [] {
      SidesOfClosed(edits[..|edits| - 1]);
    }
  }

  /** All lines of a hunk body but the last carry their breaks. */
  lemma ClosedEdits(lines: seq<Line>, h: Hunk)
    requires WellSplit(lines) && IsOneHunk(lines, h)
    ensures forall i :: 0 <= i < |h.edits| - 1 ==> h.edits[i].line != "" && Closed(h.edits[i].line)
  {
    hide ParseHeader, Stripped, DecodeBody, Closed, IsSingle;
    WholeBody(lines[3..]);
    forall i | 0 <= i < |h.edits| - 1 ensures h.edits[i].line != "" && Closed(h.edits[i].line) {
      var line := lines[3 + i];
      assert lines[3..][i] == line && h.edits[i] == EditOf(line);
      ClosedBeforeOthers(lines, 3 + i);
      SignIsNoBreak(line);
      SignedLine(line[0], line[1..]);
      assert line == [line[0]] + line[1..];
    }
  }

  lemma {:induction false} SidesWithLast(edits: seq<Edit>)
    requires edits != []
    ensures var front, last := edits[..|edits| - 1], edits[|edits| - 1];
            && OldSide(edits) == OldSide(front) + (if last.Add? then [] else [last.line])
            && NewSide(edits) == NewSide(front) + (if last.Drop? then [] else [last.line])
  {
  }

  /** A hunk that takes the open tail of the text either keeps it or leaves only closed lines. */
  lemma TakingTheTail(before: seq<Line>, edits: seq<Edit>, tail: Line)
    requires AllClosed(before) && OldSide(edits) != [] && Last(OldSide(edits)) == tail && tail != "" && !Closed(tail)
    requires forall i :: 0 <= i < |edits| - 1 ==> edits[i].line != "" && Closed(edits[i].line)
    ensures Closed(Join(before + NewSide(edits))) || EndsWith(Join(before + NewSide(edits)), tail)
  {
    hide Join, Closed, OldSide, NewSide;
    if edits == [] {
      SidesOfNone();
    } else {
      var front, last := edits[..|edits| - 1], edits[|edits| - 1];
      SidesWithLast(edits);
      SidesOfClosed(front);
      assert OldSide(front) + [] == OldSide(front) && NewSide(front) + [] == NewSide(front);
      if last.Keep? {
        assert before + NewSide(edits) == (before + NewSide(front)) + [tail];
        JoinConcat(before + NewSide(front), [tail]);
        JoinOne(tail);
      } else if last.Drop? {
        JoinOfClosed(before + NewSide(front));
      } else {
        assert false;
      }
    }
  }

  lemma OnlyReachableTexts(path: string, a: string, b: string, patch: string)
    requires Patched(a, patch, path) == Some(b)
    ensures PathWritable(path) && Reachable(a, b)
  {
    hide Patched, Join, SplitLines, WellSplit, Closed, HunkOf, IsOneHunk, OldSide, NewSide, Fits, PathWritable, Stripped;
    var source, lines := SplitLines(a), SplitLines(patch);
    PatchedByHunk(a, patch, path);
    var h := HunkOf(lines).value;
    assert IsOneHunk(lines, h);
    SplitIsWellSplit(a);
    SplitIsWellSplit(patch);
    FirstHeaderIsSingle(lines);
    HeaderNamesAreWritable(lines[0], "--- a/", path);
    if !Closed(a) {
      ResultOf(source, h);
      ClosedEdits(lines, h);
      OpenIsNonempty(a);
      TextEndsWithLastLine(a);
      JoinSplit(a);
      ReachedFrom(a, Before(source, h), h.edits, After(source, h));
    }
  }

  lemma FirstHeaderIsSingle(lines: seq<Line>)
    requires WellSplit(lines) && lines != []
    ensures IsSingle(lines[0])
  {
  }

  lemma ReachedFrom(a: string, before: seq<Line>, edits: seq<Edit>, after: seq<Line>)
    requires !Closed(a) && SplitLines(a) == before + OldSide(edits) + after
    requires forall i :: 0 <= i < |edits| - 1 ==> edits[i].line != "" && Closed(edits[i].line)
    ensures Reachable(a, Join(before + NewSide(edits) + after))
  {
    hide Join, SplitLines, WellSplit, Closed, OldSide, NewSide, AllClosed;
    var tail, source := OpenTail(a), SplitLines(a);
    OpenIsNonempty(a);
    TextEndsWithLastLine(a);
    SplitIsWellSplit(a);
    JoinSplit(a);
    if after != [] {
      assert Last(after) == tail;
      JoinWithLast(before + NewSide(edits) + after);
      assert Last(before + NewSide(edits) + after) == tail;
    } else {
      assert before + OldSide(edits) + after == before + OldSide(edits);
      assert before + NewSide(edits) + after == before + NewSide(edits);
      if OldSide(edits) == [] {
        assert before + [] == before;
        JoinConcat(before, NewSide(edits));
      } else {
        assert Last(OldSide(edits)) == tail;
        ClosedFront(source);
        ClosedPart(source[..|source| - 1], before);
        TakingTheTail(before, edits, tail);
      }
    }
  }

  lemma ClosedPart(lines: seq<Line>, part: seq<Line>)
    requires AllClosed(lines) && part <= lines
    ensures AllClosed(part)
  {
    hide Closed;
    assert forall i :: 0 <= i < |part| ==> part[i] == lines[i];
  }

  /**
   One text can be patched into another if and only if one of the two ends its last line, or
   the result goes on where the source stops, or the source's unterminated last line is the end
   of the result as well; and the path fits on a header line.
   */
  lemma EveryChangeHasAPatchExactlyWhen(path: string, a: string, b: string)
    ensures (exists patch :: Patched(a, patch, path) == Some(b)) <==> PathWritable(path) && Reachable(a, b)
  {
    hide Patched, PathWritable, Reachable;
    if exists patch :: Patched(a, patch, path) == Some(b) {
      var patch :| Patched(a, patch, path) == Some(b);
      OnlyReachableTexts(path, a, b, patch);
    }
    if PathWritable(path) && Reachable(a, b) {
      var patch := PatchFor(path, a, b);
    }
  }

  /** Two different unterminated lines are out of reach of one another. */
  lemma NoPatchBetweenOpenLines(path: string, patch: string)
    ensures Patched("a", patch, path) != Some("b")
  {
    hide Patched, PathWritable;
    if Patched("a", patch, path) == Some("b") {
      OnlyReachableTexts(path, "a", "b", patch);
      OneOpenLine();
    }
  }

  lemma OneOpenLine()
    ensures !Closed("a") && OpenTail("a") == "a" && !Reachable("a", "b")
  {
    assert LineEnd("a") == 1 && "a"[..1] == "a" && "a"[1..] == "";
  }
}
