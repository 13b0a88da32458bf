/**
 Which texts share a patched text: all that an accepted patch can forget of its source is the
 line feed behind a carriage return, at the end of the line in front of its hunk.
 */
module PatchSources {
  import opened Wrappers
  import opened TextLines
  import opened UnifiedPatch
  import opened PatchLaws
  import opened PatchTexts

  // ------------------------------------------------------------------
  // Lists of lines in front of one text
  // ------------------------------------------------------------------

  /** The lines of texts are determined by what they join to. */
  lemma JoinIsInjective(a: seq<Line>, b: seq<Line>)
    requires WellSplit(a) && WellSplit(b) && Join(a) == Join(b)
    ensures a == b
  {
    hide WellSplit, SplitLines, Join;
    SplitOfJoin(a);
    SplitOfJoin(b);
  }

  /** Two openings of one text, the shorter first. */
  lemma LongerOpening(x: string, p: string, y: string, q: string) returns (more: string)
    requires x + p == y + q && |x| <= |y|
    ensures y == x + more && p == more + q
  {
    more := y[|x|..];
    assert (x + p)[..|x|] == x && (x + p)[|x|..] == p;
    assert (y + q)[..|y|] == y;
    assert (y + q)[..|x|] == y[..|x|] && (y + q)[|x|..] == more + q;
  }

  /** `b` is `a` with a line feed behind its carriage return. */
  predicate LineFeedApart(a: Line, b: Line) {
    a != "" && a[|a| - 1] == CR && b == a + "\n"
  }

  /** A single line that is longer than another it begins with. */
  lemma LongerLine(a: Line, more: string)
    requires IsSingle(a) && IsSingle(a + more) && Closed(a) && more != ""
    ensures LineFeedApart(a, a + more)
  {
    hide Fuses;
    FirstLineEnd(a, more);
    FusedClosed(a, more);
    assert more == [more[0]];
  }

  /** What follows the lines in front of the last one. */
  lemma SplitBeforeLast(front: seq<Line>, last: Line, more: string)
    requires WellSplit(front + [last])
    ensures IsSingle(last)
    ensures Join(front + [last]) + more == Join(front) + (last + more)
    ensures SplitLines(Join(front) + (last + more)) == front + SplitLines(last + more)
  {
    hide WellSplit, Fuses, SplitLines, Join, IsSingle;
    WellSplitConcat(front, [last]);
    LastIsSingle([last]);
    SingleIsNonempty(last);
    if front != [] {
      FusesByFirst(front[|front| - 1], last, last + more);
    }
    SplitAfterLines(front, last + more);
    JoinConcat(front, [last]);
    JoinOne(last);
  }

  /** As many lines, joining to a longer text: only the last of them has grown. */
  lemma SameNumberOfLines(front: seq<Line>, last: Line, b: seq<Line>, more: string)
    requires WellSplit(front + [last]) && WellSplit(b) && |b| == |front| + 1
    requires Join(b) == Join(front + [last]) + more
    ensures b == front + [last + more] && IsSingle(last) && IsSingle(last + more)
  {
    hide WellSplit, SplitLines, Join, IsSingle;
    SplitBeforeLast(front, last, more);
    SplitOfJoin(b);
    OneLineLeft(front, SplitLines(last + more), b);
    JoinSplit(last + more);
    JoinOne(SplitLines(last + more)[0]);
    LastIsSingle(b);
  }

  lemma OneLineLeft(front: seq<Line>, rest: seq<Line>, all: seq<Line>)
    requires all == front + rest && |all| == |front| + 1
    ensures rest == [rest[0]] && all[|all| - 1] == rest[0]
  {
  }

  /**
   Two fronts of as many lines with one text between them and what follows: they are the same,
   or all the same but for one line feed at their end.
   */
  lemma FrontsOfOneText(a: seq<Line>, b: seq<Line>, p: string, q: string)
    requires WellSplit(a) && WellSplit(b) && |a| == |b|
    requires Join(a) + p == Join(b) + q && |Join(a)| <= |Join(b)|
    requires a != [] && !Closed(Last(a)) ==> |p| <= |q|
    ensures (a == b && p == q) ||
            (a != [] && a[..|a| - 1] == b[..|b| - 1] && LineFeedApart(Last(a), Last(b)))
  {
    hide WellSplit, Join, IsSingle, LineFeedApart, Closed;
    var more := LongerOpening(Join(a), p, Join(b), q);
    if more == "" {
      assert Join(b) == Join(a) && p == q;
      JoinIsInjective(a, b);
    } else {
      assert a != [];
      var front, last := a[..|a| - 1], Last(a);
      assert a == front + [last];
      SameNumberOfLines(front, last, b, more);
      LongerLine(last, more);
    }
  }

  // ------------------------------------------------------------------
  // Sources with one result
  // ------------------------------------------------------------------

  /** The line in front of the hunk, if there is one. */
  function LineBefore(text: string, patch: string): Option<Line>
    requires HunkOf(SplitLines(patch)).Some?
  {
    var source, k := SplitLines(text), HunkOf(SplitLines(patch)).value.header.oldStart - 1;
    if 1 <= k <= |source| then Some(source[k - 1]) else None
  }

  /** The lines in front of that one. */
  function LinesAbove(text: string, patch: string): seq<Line>
    requires HunkOf(SplitLines(patch)).Some?
  {
    var source, k := SplitLines(text), HunkOf(SplitLines(patch)).value.header.oldStart - 1;
    if 1 <= k <= |source| then source[..k - 1] else []
  }

  lemma FrontMeans(text: string, patch: string)
    requires HunkOf(SplitLines(patch)).Some? && Fits(SplitLines(text), 0, HunkOf(SplitLines(patch)).value)
    ensures var before := Before(SplitLines(text), HunkOf(SplitLines(patch)).value);
            && LineBefore(text, patch) == (if before == [] then None else Some(Last(before)))
            && LinesAbove(text, patch) == (if before == [] then [] else before[..|before| - 1])
  {
    hide HunkOf, SplitLines, OldSide, NewSide;
  }

  /** What an accepted patch makes of a text, piece by piece. */
  lemma Pieces(text: string, patch: string, path: string) returns (front: seq<Line>, back: seq<Line>)
    requires Patched(text, patch, path).Some?
    ensures HunkOf(SplitLines(patch)).Some? && Fits(SplitLines(text), 0, HunkOf(SplitLines(patch)).value)
    ensures var h := HunkOf(SplitLines(patch)).value;
            && front == Before(SplitLines(text), h) && |front| == h.header.oldStart - 1
            && WellSplit(front) && WellSplit(back)
            && text == Join(front) + (Join(OldSide(h.edits)) + Join(back))
            && Patched(text, patch, path) == Some(Join(front) + (Join(NewSide(h.edits)) + Join(back)))
            && (front != [] && !Closed(Last(front)) ==> back == [])
  {
    hide HunkOf, SplitLines, Patched, Join, WellSplit, OldSide, NewSide, Fuses, Fits;
    PatchedByHunk(text, patch, path);
    var source, h := SplitLines(text), HunkOf(SplitLines(patch)).value;
    front, back := Before(source, h), After(source, h);
    ResultOf(source, h);
    HunkCounts(source, h);
    SplitIsWellSplit(text);
    JoinSplit(text);
    JoinOfThree(front, OldSide(h.edits), back);
    JoinOfThree(front, NewSide(h.edits), back);
    WellSplitConcat(front + OldSide(h.edits), back);
    WellSplitConcat(front, OldSide(h.edits));
    if front != [] && back != [] {
      assert source[|front| - 1] == Last(front);
      ClosedBeforeOthers(source, |front| - 1);
    }
  }

  /** The shorter front first. */
  lemma OneResult(a: string, b: string, patch: string, path: string)
    requires Patched(a, patch, path).Some? && Patched(a, patch, path) == Patched(b, patch, path)
    requires HunkOf(SplitLines(patch)).Some?
    requires Fits(SplitLines(a), 0, HunkOf(SplitLines(patch)).value)
    requires Fits(SplitLines(b), 0, HunkOf(SplitLines(patch)).value)
    requires |Join(Before(SplitLines(a), HunkOf(SplitLines(patch)).value))|
             <= |Join(Before(SplitLines(b), HunkOf(SplitLines(patch)).value))|
    ensures a == b || (
              && LinesAbove(a, patch) == LinesAbove(b, patch)
              && LineBefore(a, patch).Some? && LineBefore(b, patch).Some?
              && LineFeedApart(LineBefore(a, patch).value, LineBefore(b, patch).value))
  {
    hide HunkOf, SplitLines, Patched, Join, WellSplit, OldSide, NewSide, Fits, Before, LineBefore, LinesAbove, Closed,
         LineFeedApart;
    var front, back := Pieces(a, patch, path);
    var otherFront, otherBack := Pieces(b, patch, path);
    FrontMeans(a, patch);
    FrontMeans(b, patch);
    var added := Join(NewSide(HunkOf(SplitLines(patch)).value.edits));
    var p, q := added + Join(back), added + Join(otherBack);
    if front != [] && !Closed(Last(front)) {
      NothingJoined();
    }
    FrontsOfOneText(front, otherFront, p, q);
    if front == otherFront && p == q {
      assert p[|added|..] == Join(back) && q[|added|..] == Join(otherBack);
    }
  }

  /**
   Two texts that one patch takes to the same text are the same if and only if the lines in
   front of its hunk are; and if those differ, then by one line feed behind a carriage return,
   with the same lines above them.
   */
  lemma SameSourceExactlyWhen(a: string, b: string, patch: string, path: string)
    requires Patched(a, patch, path).Some? && Patched(a, patch, path) == Patched(b, patch, path)
    ensures HunkOf(SplitLines(patch)).Some?
    ensures a == b <==> LineBefore(a, patch) == LineBefore(b, patch)
    ensures a != b ==>
              && LinesAbove(a, patch) == LinesAbove(b, patch)
              && LineBefore(a, patch).Some? && LineBefore(b, patch).Some?
              && var one, other := LineBefore(a, patch).value, LineBefore(b, patch).value;
                 LineFeedApart(one, other) || LineFeedApart(other, one)
  {
    hide HunkOf, SplitLines, Patched, Join, OldSide, NewSide, Fits, Before, LineBefore, LinesAbove;
    var front, back := Pieces(a, patch, path);
    var otherFront, otherBack := Pieces(b, patch, path);
    if |Join(front)| <= |Join(otherFront)| {
      OneResult(a, b, patch, path);
    } else {
      OneResult(b, a, patch, path);
    }
  }

  /** A line of a text keeps its characters in the text. */
  lemma {:induction false} LineIsInText(lines: seq<Line>, i: nat, c: char)
    requires i < |lines| && c in lines[i]
    ensures c in Join(lines)
  {
    if i > 0 {
      LineIsInText(lines[1..], i - 1, c);
    }
  }

  lemma LineBeforeIsInText(text: string, patch: string, c: char)
    requires HunkOf(SplitLines(patch)).Some? && LineBefore(text, patch).Some? && c in LineBefore(text, patch).value
    ensures c in text
  {
    hide HunkOf, SplitLines, Join;
    LineIsInText(SplitLines(text), HunkOf(SplitLines(patch)).value.header.oldStart - 2, c);
    JoinSplit(text);
  }

  /** Among texts without carriage returns the patched text determines its source, whatever the patch. */
  lemma ReturnFreeSourcesAreDetermined(a: string, b: string, patch: string, path: string)
    requires Patched(a, patch, path).Some? && Patched(a, patch, path) == Patched(b, patch, path)
    requires CR !in a && CR !in b
    ensures a == b
  {
    hide HunkOf, SplitLines, Patched, LineBefore, LinesAbove;
    SameSourceExactlyWhen(a, b, patch, path);
    if a != b {
      var one, other := LineBefore(a, patch).value, LineBefore(b, patch).value;
      if LineFeedApart(one, other) {
        LineBeforeIsInText(a, patch, CR);
      } else {
        LineBeforeIsInText(b, patch, CR);
      }
    }
  }

  // ------------------------------------------------------------------
  // Different sources
  // ------------------------------------------------------------------

  /** The patch that exchanges the lines `dropped` for `added` behind `before` others. */
  function ExchangeText(path: string, before: nat, dropped: seq<Line>, added: seq<Line>): string {
    RenderText(path, before, Drops(dropped) + Adds(added))
  }

  lemma ExchangeApplies(path: string, before: seq<Line>, dropped: seq<Line>, added: seq<Line>, after: seq<Line>)
    requires PathWritable(path) && Writable(Drops(dropped) + Adds(added)) && WellSplit(before + dropped + after)
    ensures var text, patch := Join(before + dropped + after), ExchangeText(path, |before|, dropped, added);
            && Patched(text, patch, path) == Some(Join(before + added + after))
            && (PatchesCleanly(text, patch) <==> WellSplit(before + added + after))
  {
    hide Patched, RenderText, PathWritable, Writable, OldSide, NewSide, WellSplit, Join, PatchesCleanly, Drops, Adds;
    SidesOfDrops(dropped);
    SidesOfAdds(added);
    SidesConcat(Drops(dropped), Adds(added));
    assert dropped + [] == dropped && [] + added == added;
    WrittenTextApplies(path, before, Drops(dropped) + Adds(added), after);
  }

  /**
   Two texts that one patch takes to the same text, cleanly from the second only: the line feed
   put in behind a carriage return is taken for the end of its line.
   */
  lemma TwoSourcesOneResult(path: string)
    requires PathWritable(path)
    ensures var patch := ExchangeText(path, 1, ["b\n"], ["\n"]);
            && Patched("x\rb\n\n", patch, path) == Some("x\r\n\n") == Patched("x\r\nb\n", patch, path)
            && !PatchesCleanly("x\rb\n\n", patch) && PatchesCleanly("x\r\nb\n", patch)
  {
    hide Patched, ExchangeText, PathWritable, Writable, WellSplit, Join, PatchesCleanly, Drops, Adds;
    SampleLines();
    SampleEdit();
    SampleTexts();
    ExchangeApplies(path, ["x\r"], ["b\n"], ["\n"], ["\n"]);
    ExchangeApplies(path, ["x\r\n"], ["b\n"], ["\n"], []);
  }

  /** The same cleanly from neither: the patch ends in an empty addition as well. */
  lemma TwoSourcesNeitherClean(path: string)
    requires PathWritable(path)
    ensures var patch := ExchangeText(path, 1, ["b\n"], ["\n", ""]);
            && Patched("x\rb\n\n", patch, path) == Some("x\r\n\n") == Patched("x\r\nb\n", patch, path)
            && !PatchesCleanly("x\rb\n\n", patch) && !PatchesCleanly("x\r\nb\n", patch)
  {
    hide Patched, ExchangeText, PathWritable, Writable, WellSplit, Join, PatchesCleanly, Drops, Adds;
    SampleLines();
    SampleEditBeforeEmpty();
    SampleTexts();
    ExchangeApplies(path, ["x\r"], ["b\n"], ["\n", ""], ["\n"]);
    ExchangeApplies(path, ["x\r\n"], ["b\n"], ["\n", ""], []);
  }

  lemma SampleLines()
    ensures WellSplit(["x\r"] + ["b\n"] + ["\n"]) && WellSplit(["x\r\n"] + ["b\n"] + [])
    ensures !WellSplit(["x\r"] + ["\n"] + ["\n"]) && WellSplit(["x\r\n"] + ["\n"] + [])
    ensures !WellSplit(["x\r"] + ["\n", ""] + ["\n"]) && !WellSplit(["x\r\n"] + ["\n", ""] + [])
  {
    assert LineEnd("x\r") == 2 && LineEnd("b\n") == 2 && LineEnd("\n") == 1 && LineEnd("x\r\n") == 3;
    var broken := ["x\r"] + ["\n"] + ["\n"];
    assert Fuses(broken[0], broken[1]);
    var longer, other := ["x\r"] + ["\n", ""] + ["\n"], ["x\r\n"] + ["\n", ""] + [];
    assert longer[2] == "" && other[2] == "";
  }

  lemma SampleEdit()
    ensures Writable(Drops(["b\n"]) + Adds(["\n"]))
  {
    assert LineEnd("-b\n") == 3 && LineEnd("+\n") == 2;
    assert Drops(["b\n"]) + Adds(["\n"]) == [Drop("b\n"), Add("\n")];
    assert ['-'] + "b\n" == "-b\n" && ['+'] + "\n" == "+\n";
    assert LinesOf([Drop("b\n"), Add("\n")]) == ["-b\n", "+\n"];
  }

  lemma SampleEditBeforeEmpty()
    ensures Writable(Drops(["b\n"]) + Adds(["\n", ""]))
  {
    hide WellSplit, Drops, Adds;
    SampleEdit();
    SampleSplit();
    var edits := Drops(["b\n"]) + Adds(["\n"]);
    assert LineOf(Add("")) == ['+'] + "" == "+";
    assert LinesOf(edits + [Add("")]) == LinesOf(edits) + ["+"];
    WellSplitConcat(LinesOf(edits), ["+"]);
  }

  lemma SampleSplit()
    ensures Drops(["b\n"]) + Adds(["\n", ""]) == Drops(["b\n"]) + Adds(["\n"]) + [Add("")]
    ensures WellSplit(["+"]) && Meets(LinesOf(Drops(["b\n"]) + Adds(["\n"])), ["+"])
  {
    assert LineEnd("+") == 1;
    assert Adds(["\n", ""]) == Adds(["\n"]) + [Add("")];
  }

  lemma SampleTexts()
    ensures Join(["x\r"] + ["b\n"] + ["\n"]) == "x\rb\n\n" && Join(["x\r\n"] + ["b\n"] + []) == "x\r\nb\n"
    ensures Join(["x\r"] + ["\n"] + ["\n"]) == "x\r\n\n" == Join(["x\r\n"] + ["\n"] + [])
    ensures Join(["x\r"] + ["\n", ""] + ["\n"]) == "x\r\n\n" == Join(["x\r\n"] + ["\n", ""] + [])
  {
    hide Join;
    JoinOfThree(["x\r"], ["b\n"], ["\n"]);
    JoinOfThree(["x\r\n"], ["b\n"], []);
    JoinOfThree(["x\r"], ["\n"], ["\n"]);
    JoinOfThree(["x\r\n"], ["\n"], []);
    JoinOfThree(["x\r"], ["\n", ""], ["\n"]);
    JoinOfThree(["x\r\n"], ["\n", ""], []);
    NothingJoined();
    JoinOne("x\r");
    JoinOne("b\n");
    JoinOne("\n");
    JoinOne("x\r\n");
    JoinPair("\n", "");
  }
}
