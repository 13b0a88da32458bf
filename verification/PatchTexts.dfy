/**
 What the patch applier means for texts: its result is joined, and whoever reads it next splits
 it again.  Reversal and the existence of a patch hold exactly where line ends survive that.
 */
module PatchTexts {
  import opened Wrappers
  import opened HunkHeader
  import opened TextLines
  import opened UnifiedPatch
  import opened PatchLaws

  // ------------------------------------------------------------------
  // The hunk of a patch
  // ------------------------------------------------------------------

  function HunkOf(patch: seq<Line>): (r: Option<Hunk>)
    ensures forall h :: IsOneHunk(patch, h) <==> r == Some(h)
  {
    if |patch| < 3 || ParseHeader(Stripped(patch[2])).None? then None
    else
      var body := DecodeBody(patch[3..]);
      if body.None? || body.value.1 != [] then None
      else Some(Hunk(ParseHeader(Stripped(patch[2])).value, body.value.0))
  }

  /** The source lines in front of a hunk, and those behind it. */
  function Before(source: seq<Line>, h: Hunk): seq<Line>
    requires Fits(source, 0, h)
  {
    source[..h.header.oldStart - 1]
  }

  function After(source: seq<Line>, h: Hunk): seq<Line>
    requires Fits(source, 0, h)
  {
    source[h.header.oldStart - 1 + h.header.oldCount..]
  }

  /**
   No two lines that the hunk brings together run into one: an addition without a line break
   needs the end of the text, a line feed must not meet a lone carriage return, and an empty
   addition leaves no line at all.
   */
  predicate CleanSeams(source: seq<Line>, h: Hunk) {
    && Fits(source, 0, h)
    && WellSplit(NewSide(h.edits))
    && Meets(Before(source, h), NewSide(h.edits))
    && Meets(NewSide(h.edits), After(source, h))
    && (NewSide(h.edits) == [] ==> Meets(Before(source, h), After(source, h)))
  }

  predicate PatchesCleanly(text: string, patch: string) {
    HunkOf(SplitLines(patch)).Some? && CleanSeams(SplitLines(text), HunkOf(SplitLines(patch)).value)
  }

  /** An accepted patch in terms of its hunk, on lines. */
  lemma LinesByHunk(source: seq<Line>, lines: seq<Line>, path: string)
    ensures PatchedLines(source, lines, path) ==
            if HasFileHeaders(lines, path) && HunkOf(lines).Some? && Fits(source, 0, HunkOf(lines).value)
            then Some(Before(source, HunkOf(lines).value) + NewSide(HunkOf(lines).value.edits)
                      + After(source, HunkOf(lines).value))
            else None
  {
    hide HunkOf, Stripped, ParseHeader, Fits, IsOneHunk, Applies, Decode, NewSide, Splice;
    if HasFileHeaders(lines, path) {
      var hunk, decoded := HunkOf(lines), Decode(lines[2..]);
      if hunk.Some? {
        OneHunkDecodes(lines, hunk.value);
        OneHunkSplice(source, hunk.value);
        if Fits(source, 0, hunk.value) {
          ResultOf(source, hunk.value);
        }
      } else if decoded.Some? && |decoded.value| == 1 {
        assert decoded.value == [decoded.value[0]];
        OneHunkDecodes(lines, decoded.value[0]);
      }
    }
  }

  /** An accepted patch in terms of its hunk. */
  lemma PatchedByHunk(text: string, patch: string, path: string)
    ensures var source, lines := SplitLines(text), SplitLines(patch);
            Patched(text, patch, path) ==
            if HasFileHeaders(lines, path) && HunkOf(lines).Some? && Fits(source, 0, HunkOf(lines).value)
            then Some(Join(Before(source, HunkOf(lines).value) + NewSide(HunkOf(lines).value.edits)
                           + After(source, HunkOf(lines).value)))
            else None
  {
    hide HunkOf, PatchedLines, Fits, HasFileHeaders, SplitLines, Join, NewSide, Before, After;
    LinesByHunk(SplitLines(text), SplitLines(patch), path);
  }

  lemma ResultOf(source: seq<Line>, h: Hunk)
    requires Fits(source, 0, h)
    ensures var start := h.header.oldStart - 1;
            0 <= start && start + h.header.oldCount <= |source|
            && Before(source, h) == source[..start] && After(source, h) == source[start + h.header.oldCount..]
    ensures source == Before(source, h) + OldSide(h.edits) + After(source, h)
  {
    hide OldSide, NewSide;
    SplitAround(source, 0, h.header.oldStart - 1, OldSide(h.edits));
    assert source[0..] == source && source[0..h.header.oldStart - 1] == source[..h.header.oldStart - 1];
  }

  /** The seams are clean exactly when the resulting lines are the lines of a text. */
  lemma SeamsDecide(source: seq<Line>, h: Hunk)
    requires WellSplit(source) && Fits(source, 0, h)
    ensures CleanSeams(source, h) <==> WellSplit(Before(source, h) + NewSide(h.edits) + After(source, h))
  {
    hide WellSplit, Fuses, Fits, OldSide, NewSide;
    var before, after, added := Before(source, h), After(source, h), NewSide(h.edits);
    ResultOf(source, h);
    WellSplitConcat(before + OldSide(h.edits), after);
    WellSplitConcat(before, OldSide(h.edits));
    WellSplitConcat(before + added, after);
    WellSplitConcat(before, added);
    if added == [] {
      assert before + added == before;
    } else {
      assert (before + added)[|before + added| - 1] == added[|added| - 1];
    }
  }

  // ------------------------------------------------------------------
  // Reversal
  // ------------------------------------------------------------------

  /** The textual reversal of a patch. */
  function ReversedText(patch: string): string
    requires HunkOf(SplitLines(patch)).Some?
  {
    Join(Reversed(SplitLines(patch)))
  }

  lemma HeaderLineIsSingle(h: Header, heading: string := "")
    requires Unbroken(heading)
    ensures var line := HeaderLine(h, heading);
            IsSingle(line) && Closed(line) && line != "" && line[0] == '@' && line[|line| - 1] == LF
  {
    hide RenderHeader, IsSingle;
    HeaderIsUnbroken(h);
    HeaderOpens(h);
    LineFeedIsLine();
    UnbrokenLine(RenderHeader(h) + heading, "\n");
  }

  lemma LineFeedIsLine()
    ensures IsSingle("\n") && Closed("\n")
  {
  }

  lemma HeaderOpens(h: Header)
    ensures RenderHeader(h) != "" && RenderHeader(h)[0] == '@'
  {
  }

  lemma HeaderIsUnbroken(h: Header)
    ensures Unbroken(RenderHeader(h))
  {
    hide Decimal;
    DigitsAreUnbroken(Decimal(h.oldStart));
    DigitsAreUnbroken(Decimal(h.oldCount));
    DigitsAreUnbroken(Decimal(h.newStart));
    DigitsAreUnbroken(Decimal(h.newCount));
  }

  lemma DigitsAreUnbroken(s: string)
    requires forall i :: 0 <= i < |s| ==> IsDigit(s[i])
    ensures Unbroken(s)
  {
  }

  lemma SwappedLine(line: Line)
    requires IsBodyLine(line)
    ensures IsSingle(SwapSign(line)) == IsSingle(line) && Closed(SwapSign(line)) == Closed(line)
    ensures |SwapSign(line)| == |line| && SwapSign(line)[1..] == line[1..] && SwapSign(line)[0] != LF && SwapSign(line)[0] != CR
  {
    assert line == [line[0]] + line[1..];
    SignedLine(line[0], line[1..]);
    SignedLine('+', line[1..]);
    SignedLine('-', line[1..]);
  }

  /** Whether a line runs into a following body line depends on its own end only. */
  lemma FusesWithBody(a: Line, b: Line)
    requires IsBodyLine(b)
    ensures Fuses(a, b) <==> !Closed(a)
  {
  }

  lemma SwappedBodyWellSplit(lines: seq<Line>)
    requires WellSplit(lines) && AllBody(lines)
    ensures WellSplit(SwapSigns(lines)) && forall i :: 0 <= i < |lines| ==> IsBodyLine(SwapSigns(lines)[i])
  {
    hide IsSingle, Fuses, IsBodyLine, SwapSign, Closed;
    var swapped := SwapSigns(lines);
    forall i | 0 <= i < |lines| ensures IsSingle(swapped[i]) && Closed(swapped[i]) == Closed(lines[i]) && IsBodyLine(swapped[i]) {
      SwappedLine(lines[i]);
      SwapSignInverts(lines[i]);
    }
    forall i, j | 0 <= i && j == i + 1 < |lines| ensures !Fuses(swapped[i], swapped[j]) {
      assert !Fuses(lines[i], lines[j]);
      FusesWithBody(lines[i], lines[j]);
      FusesWithBody(swapped[i], swapped[j]);
    }
  }

  /** The reversed patch is a text like any other: splitting it gives its lines back. */
  lemma ReversedTextSplits(patch: string)
    requires HunkOf(SplitLines(patch)).Some?
    ensures SplitLines(ReversedText(patch)) == Reversed(SplitLines(patch))
  {
    hide HunkOf, ParseHeader, Stripped, DecodeBody, HeaderLine, Fuses, IsSingle, SplitLines;
    var lines := SplitLines(patch);
    var h := HunkOf(lines).value;
    assert IsOneHunk(lines, h);
    SplitIsWellSplit(patch);
    WholeBody(lines[3..]);
    var header := HeaderLine(SwapCounts(h.header));
    var body := SwapSigns(lines[3..]);
    WellSplitSlice(lines, 0, 2);
    WellSplitSlice(lines, 3, |lines|);
    assert lines[0..2] == lines[..2] && lines[3..|lines|] == lines[3..];
    SwappedBodyWellSplit(lines[3..]);
    HeaderLineIsSingle(SwapCounts(h.header));
    HeaderMeets(lines, SwapCounts(h.header), body);
    WellSplitStep(header, body);
    WellSplitConcat(lines[..2], [header] + body);
    assert Reversed(lines) == lines[..2] + ([header] + body);
    SplitOfJoin(Reversed(lines));
  }

  lemma HeaderMeets(lines: seq<Line>, h: Header, body: seq<Line>)
    requires WellSplit(lines) && |lines| >= 3 && forall i :: 0 <= i < |body| ==> IsBodyLine(body[i])
    ensures var header := HeaderLine(h);
            Meets([header], body) && Meets(lines[..2], [header] + body)
  {
    hide HeaderLine, IsSingle, WellSplit;
    HeaderLineIsSingle(h);
    ClosedBeforeOthers(lines, 1);
    assert lines[..2][1] == lines[1] && ([HeaderLine(h)] + body)[0][0] == '@';
    if body != [] {
      assert IsBodyLine(body[0]);
    }
  }

  /** Every line of a text but the last has its break. */
  lemma ClosedBeforeOthers(lines: seq<Line>, i: nat)
    requires WellSplit(lines) && i + 1 < |lines|
    ensures Closed(lines[i])
  {
    var next := i + 1;
    assert !Fuses(lines[i], lines[next]);
  }

  /** Where the text up to the seam is split as before, only a well split result is restored. */
  lemma RestoredPastSeam(before: seq<Line>, added: seq<Line>, after: seq<Line>)
    requires WellSplit(before) && WellSplit(after)
    requires Meets(before, [Join(added) + Join(after)]) || Join(added) + Join(after) == ""
    requires var lines := SplitLines(Join(before) + (Join(added) + Join(after)));
             |before| <= |lines| && added <= lines[|before|..]
    ensures WellSplit(before + added + after)
  {
    hide WellSplit, Fuses, SplitLines, Join;
    var rest := Join(added) + Join(after);
    SplitAfterLines(before, rest);
    var split := SplitLines(rest);
    assert (before + split)[|before|..] == split;
    var tail := split[|added|..];
    assert split == added + tail;
    JoinSplit(rest);
    JoinConcat(added, tail);
    assert (Join(added) + Join(tail))[|Join(added)|..] == (Join(added) + Join(after))[|Join(added)|..];
    assert Join(tail) == Join(after);
    SplitIsWellSplit(rest);
    WellSplitConcat(added, tail);
    SplitOfJoin(tail);
    SplitOfJoin(after);
    SplitIsWellSplit(Join(before) + rest);
    assert before + split == before + added + after;
  }

  /** The last line in front of a seam that fuses takes some of what follows. */
  lemma SplitAcrossSeam(before: seq<Line>, rest: string)
    requires WellSplit(before) && before != [] && rest != "" && Fuses(before[|before| - 1], rest)
    ensures var k, last := |before|, before[|before| - 1];
            var lines := SplitLines(Join(before) + rest);
            && |lines| >= k
            && |Join(lines[..k])| > |Join(before)|
            && (Closed(last) ==> Join(lines[..k]) == Join(before) + "\n")
  {
    hide WellSplit, Fuses, SplitLines, Join, LineEnd, IsSingle;
    var front, last := before[..|before| - 1], before[|before| - 1];
    assert before == front + [last];
    WellSplitConcat(front, [last]);
    LastIsSingle(before);
    if front != [] {
      FusesByFirst(front[|front| - 1], last, last + rest);
    }
    SplitAfterLines(front, last + rest);
    JoinConcat(front, [last]);
    JoinOne(last);
    assert Join(before) + rest == Join(front) + (last + rest);
    var lines := SplitLines(Join(before) + rest);
    var across := SplitLines(last + rest);
    FirstOfSplit(last + rest);
    FirstLineEnd(last, rest);
    var first := across[0];
    assert across == [first] + across[1..];
    assert lines[..|before|] == front + [first];
    JoinConcat(front, [first]);
    JoinOne(first);
    if Closed(last) {
      FusedClosed(last, rest);
      assert first == (last + rest)[..|last| + 1] == last + "\n";
    }
  }

  lemma LastIsSingle(lines: seq<Line>)
    requires WellSplit(lines) && lines != []
    ensures IsSingle(lines[|lines| - 1]) && lines[|lines| - 1] != ""
  {
  }

  lemma FusedClosed(a: string, b: string)
    requires a != "" && Fuses(a, b) && Closed(a)
    ensures a[|a| - 1] == CR && b != "" && b[0] == LF
  {
  }

  /** If taking back one replacement gives the text back, no line end was lost by it. */
  lemma RestoringNeedsCleanSeams(before: seq<Line>, removed: seq<Line>, added: seq<Line>, after: seq<Line>)
    requires WellSplit(before + removed + after)
    requires var lines, k := SplitLines(Join(before + added + after)), |before|;
             && k <= |lines| && added <= lines[k..]
             && Join(lines[..k] + removed + lines[k + |added|..]) == Join(before + removed + after)
    ensures WellSplit(before + added + after)
  {
    hide WellSplit, Fuses, SplitLines, Join;
    var rest, k := Join(added) + Join(after), |before|;
    WellSplitConcat(before + removed, after);
    WellSplitConcat(before, removed);
    JoinOfThree(before, added, after);
    JoinOfThree(before, removed, after);
    var lines := SplitLines(Join(before) + rest);
    if before == [] || rest == "" || !Fuses(before[k - 1], rest) {
      RestoredPastSeam(before, added, after);
    } else {
      SplitAcrossSeam(before, rest);
      JoinOfThree(lines[..k], removed, lines[k + |added|..]);
      NothingFusedIsRestored(before, removed, added, after, Join(lines[..k]), Join(lines[k + |added|..]));
      assert false;
    }
  }

  lemma JoinOfThree(a: seq<Line>, b: seq<Line>, c: seq<Line>)
    ensures Join(a + b + c) == Join(a) + (Join(b) + Join(c))
  {
    hide Join;
    JoinConcat(a + b, c);
    JoinConcat(a, b);
  }

  /** A replacement that ran into the line before it cannot give the old text back. */
  lemma NothingFusedIsRestored(before: seq<Line>, removed: seq<Line>, added: seq<Line>, after: seq<Line>,
                               front: string, back: string)
    requires WellSplit(before + removed + after) && before != []
    requires Join(added) + Join(after) != "" && Fuses(before[|before| - 1], Join(added) + Join(after))
    requires |front| > |Join(before)| && (Closed(before[|before| - 1]) ==> front == Join(before) + "\n")
    ensures front + (Join(removed) + back) != Join(before) + (Join(removed) + Join(after))
  {
    hide WellSplit, Fuses, Join;
    var last, rest := before[|before| - 1], removed + after;
    assert before + removed + after == before + rest;
    WellSplitConcat(before, rest);
    JoinConcat(removed, after);
    if rest == [] {
      assert removed == [] && after == [];
      NothingJoined();
    } else {
      FirstOfJoin(rest);
      UnfusedClosed(last, rest[0]);
      LastIsSingle(before);
      FusedClosed(last, Join(added) + Join(after));
      UnfusedAfterReturn(last, rest[0]);
      Diverges(Join(before), Join(rest), Join(removed) + back);
    }
  }

  lemma Diverges(p: string, a: string, b: string)
    requires a != "" && a[0] != LF
    ensures p + "\n" + b != p + a
  {
    assert (p + "\n" + b)[|p|] == LF;
    assert (p + a)[|p|] == a[0];
  }

  lemma NothingJoined()
    ensures Join([]) == ""
  {
  }

  lemma UnfusedClosed(a: string, b: string)
    requires !Fuses(a, b)
    ensures Closed(a)
  {
  }

  lemma UnfusedAfterReturn(a: string, b: string)
    requires !Fuses(a, b) && a != "" && a[|a| - 1] == CR && b != ""
    ensures b[0] != LF
  {
  }

  /**
   Reversal of texts: the reversed patch gives the original text back if and only if the patch
   left clean seams.
   */
  lemma ReversalRestoresExactlyWhenSeamsAreClean(text: string, patch: string, path: string)
    requires Patched(text, patch, path).Some?
    ensures HunkOf(SplitLines(patch)).Some?
    ensures Patched(Patched(text, patch, path).value, ReversedText(patch), path) == Some(text) <==>
              PatchesCleanly(text, patch)
  {
    hide HunkOf, ParseHeader, Stripped, SplitLines, Join, WellSplit, Fits, IsOneHunk, Reversed, OldSide, NewSide,
         HasFileHeaders, CleanSeams, Patched;
    PatchedByHunk(text, patch, path);
    var source, lines := SplitLines(text), SplitLines(patch);
    var h := HunkOf(lines).value;
    assert IsOneHunk(lines, h);
    var before, removed, added, after := Before(source, h), OldSide(h.edits), NewSide(h.edits), After(source, h);
    var result := Join(before + added + after);
    SplitIsWellSplit(text);
    JoinSplit(text);
    ResultOf(source, h);
    SeamsDecide(source, h);
    ReversedTextSplits(patch);
    ReversedHunk(lines, path, h);
    PatchedByHunk(result, ReversedText(patch), path);
    var back := Hunk(SwapCounts(h.header), Inverses(h.edits));
    SidesOfInverses(h.edits);
    HunkCounts(source, h);
    if WellSplit(before + added + after) {
      SplitOfJoin(before + added + after);
      FitsBack(before, back, after, h);
    }
    if Patched(result, ReversedText(patch), path) == Some(text) {
      FitMeans(SplitLines(result), back);
      RestoringNeedsCleanSeams(before, removed, added, after);
    }
  }

  lemma HunkCounts(source: seq<Line>, h: Hunk)
    requires Fits(source, 0, h)
    ensures |Before(source, h)| == h.header.oldStart - 1
    ensures |OldSide(h.edits)| == h.header.oldCount && |NewSide(h.edits)| == h.header.newCount
  {
  }

  lemma FitMeans(source: seq<Line>, h: Hunk)
    requires Fits(source, 0, h)
    ensures var k := h.header.oldStart - 1;
            && 0 <= k <= |source| && OldSide(h.edits) <= source[k..] && |OldSide(h.edits)| == h.header.oldCount
            && Before(source, h) == source[..k] && After(source, h) == source[k + |OldSide(h.edits)|..]
  {
  }

  lemma ReversedHunk(lines: seq<Line>, path: string, h: Hunk)
    requires HasFileHeaders(lines, path) && IsOneHunk(lines, h)
    ensures HasFileHeaders(Reversed(lines), path)
    ensures HunkOf(Reversed(lines)) == Some(Hunk(SwapCounts(h.header), Inverses(h.edits)))
  {
    hide ParseHeader, Stripped, HunkOf;
    ReversedIsOneHunk(lines, h);
    assert Reversed(lines)[..2] == lines[..2];
    assert Reversed(lines)[0] == lines[0] && Reversed(lines)[1] == lines[1];
  }

  lemma FitsBack(before: seq<Line>, back: Hunk, after: seq<Line>, h: Hunk)
    requires back == Hunk(SwapCounts(h.header), Inverses(h.edits))
    requires |before| == h.header.oldStart - 1
    requires |OldSide(h.edits)| == h.header.oldCount && |NewSide(h.edits)| == h.header.newCount
    ensures var result := before + NewSide(h.edits) + after;
            && Fits(result, 0, back)
            && Before(result, back) == before && After(result, back) == after && NewSide(back.edits) == OldSide(h.edits)
  {
    hide OldSide, NewSide;
    SidesOfInverses(h.edits);
    FitsBetween(before, back, after);
  }

  // ------------------------------------------------------------------
  // Ordinary texts
  // ------------------------------------------------------------------

  predicate LfOnly(t: string) {
    forall i :: 0 <= i < |t| && IsBreak(t[i]) ==> t[i] == LF
  }

  predicate Ordinary(line: Line) {
    IsSingle(line) && Closed(line) && LfOnly(line)
  }

  predicate AllOrdinary(lines: seq<Line>) {
    forall i :: 0 <= i < |lines| ==> Ordinary(lines[i])
  }

  lemma {:induction false} OrdinaryLines(t: string)
    requires LfOnly(t) && Closed(t)
    ensures AllOrdinary(SplitLines(t))
  {
    hide IsBreak, LineEnd;
    if t != "" {
      var n := LineEnd(t);
      FirstLineIsSingle(t);
      assert t[n..] != "" ==> t[n..][|t[n..]| - 1] == t[|t| - 1];
      OrdinaryLines(t[n..]);
      OrdinaryFirst(t);
    }
  }

  lemma OrdinaryFirst(t: string)
    requires LfOnly(t) && Closed(t) && t != ""
    ensures Ordinary(t[..LineEnd(t)])
  {
    hide IsBreak, LineEnd;
    var n := LineEnd(t);
    FirstLineIsSingle(t);
    assert n == |t| ==> t[..n] == t;
  }

  lemma OrdinaryListsAreWellSplit(lines: seq<Line>)
    requires AllOrdinary(lines)
    ensures WellSplit(lines)
  {
    forall i, j | 0 <= i && j == i + 1 < |lines| ensures !Fuses(lines[i], lines[j]) {
      assert Ordinary(lines[i]);
    }
  }

  lemma OrdinaryPayload(line: Line)
    requires IsBodyLine(line) && Ordinary(line)
    ensures Ordinary(line[1..])
  {
    hide IsBreak;
    SignIsNoBreak(line);
    assert line == [line[0]] + line[1..];
    SignedLine(line[0], line[1..]);
  }

  lemma SignIsNoBreak(line: Line)
    requires IsBodyLine(line)
    ensures !IsBreak(line[0])
  {
  }

  lemma {:induction false} OrdinarySide(edits: seq<Edit>)
    requires forall i :: 0 <= i < |edits| ==> Ordinary(edits[i].line)
    ensures AllOrdinary(NewSide(edits))
  {
    hide Ordinary;
    if edits != [] {
      OrdinarySide(edits[..|edits| - 1]);
    }
  }

  lemma OrdinaryAround(lines: seq<Line>, part: seq<Line>, from: nat)
    requires AllOrdinary(lines) && from + |part| <= |lines| && part == lines[from..from + |part|]
    ensures AllOrdinary(part)
  {
    hide Ordinary;
    assert forall i :: 0 <= i < |part| ==> part[i] == lines[from + i];
  }

  /** When both texts end their lines with line feeds only, and their last lines too, every accepted patch reverses. */
  lemma OrdinaryPatchesReverse(text: string, patch: string, path: string)
    requires Patched(text, patch, path).Some?
    requires LfOnly(text) && Closed(text) && LfOnly(patch) && Closed(patch)
    ensures HunkOf(SplitLines(patch)).Some? && PatchesCleanly(text, patch)
    ensures Patched(Patched(text, patch, path).value, ReversedText(patch), path) == Some(text)
  {
    hide HunkOf, ParseHeader, Stripped, SplitLines, Join, WellSplit, Fits, IsOneHunk, Reversed, OldSide, NewSide,
         HasFileHeaders, CleanSeams, Patched, Ordinary, LfOnly, Closed;
    var source, lines := SplitLines(text), SplitLines(patch);
    PatchedByHunk(text, patch, path);
    var h := HunkOf(lines).value;
    assert IsOneHunk(lines, h);
    OrdinaryLines(text);
    OrdinaryLines(patch);
    OrdinaryEdits(lines, h);
    OrdinarySide(h.edits);
    ResultOf(source, h);
    SplitIsWellSplit(text);
    SeamsDecide(source, h);
    var before, after := Before(source, h), After(source, h);
    OrdinaryAround(source, before, 0);
    OrdinaryAround(source, after, |source| - |after|);
    OrdinaryListsAreWellSplit(before + NewSide(h.edits) + after);
    ReversalRestoresExactlyWhenSeamsAreClean(text, patch, path);
  }

  lemma OrdinaryEdits(lines: seq<Line>, h: Hunk)
    requires IsOneHunk(lines, h) && AllOrdinary(lines)
    ensures forall i :: 0 <= i < |h.edits| ==> Ordinary(h.edits[i].line)
  {
    hide ParseHeader, Stripped, DecodeBody, Ordinary;
    WholeBody(lines[3..]);
    forall i | 0 <= i < |h.edits| ensures Ordinary(h.edits[i].line) {
      assert h.edits[i] == EditOf(lines[3..][i]) && lines[3..][i] == lines[3 + i];
      OrdinaryPayload(lines[3 + i]);
    }
  }

  // ------------------------------------------------------------------
  // Writing a patch
  // ------------------------------------------------------------------

  /** The names that can stand on a file header line. */
  predicate PathWritable(path: string) {
    forall i :: 0 <= i < |path| && IsBreak(path[i]) ==> i == |path| - 1 && path[i] !in {CR, LF}
  }

  /** The edits that the text of a patch can hold. */
  predicate Writable(edits: seq<Edit>) {
    WellSplit(LinesOf(edits))
  }

  function RenderText(path: string, before: nat, edits: seq<Edit>, heading: string := ""): string {
    Join(RenderPatch(path, before, edits, heading))
  }

  lemma FileLineIsSingle(opening: string, path: string)
    requires Unbroken(opening) && opening != "" && PathWritable(path)
    ensures IsSingle(FileLine(opening + path)) && Closed(FileLine(opening + path))
    ensures FileLine(opening + path)[|FileLine(opening + path)| - 1] != CR
    ensures FileLine(opening + path)[0] == opening[0]
  {
    var name := opening + path;
    if Closed(name) {
      var body, last := name[..|name| - 1], name[|name| - 1];
      assert forall i :: 0 <= i < |body| ==> body[i] == if i < |opening| then opening[i] else path[i - |opening|];
      assert path != "" && last == path[|path| - 1];
      UnbrokenLine(body, [last]);
      assert name == body + [last];
    } else {
      assert Unbroken(name) by {
        assert path != "" ==> name[|name| - 1] == path[|path| - 1];
      }
      UnbrokenLine(name, "\n");
    }
  }

  /** Splitting a written patch gives its lines back. */
  lemma RenderedTextSplits(path: string, before: nat, edits: seq<Edit>, heading: string := "")
    requires Unbroken(heading) && PathWritable(path) && Writable(edits)
    ensures SplitLines(RenderText(path, before, edits, heading)) == RenderPatch(path, before, edits, heading)
  {
    hide PathWritable, HeaderLine, Unbroken, FileLine, IsSingle, Closed, LineOf, IsBodyLine, WellSplit;
    var header := Header(before + 1, |OldSide(edits)|, before + 1, |NewSide(edits)|);
    FileOpenings();
    FileLineIsSingle("--- a/", path);
    FileLineIsSingle("+++ b/", path);
    HeaderLineIsSingle(header, heading);
    LinesOfDecode(edits);
    var first, second, third := FileLine("--- a/" + path), FileLine("+++ b/" + path), HeaderLine(header, heading);
    if edits != [] {
      assert IsBodyLine(LinesOf(edits)[0]);
      FusesWithBody(third, LinesOf(edits)[0]);
    }
    WellSplitStep(third, LinesOf(edits));
    WellSplitStep(second, [third] + LinesOf(edits));
    WellSplitStep(first, [second] + ([third] + LinesOf(edits)));
    assert RenderPatch(path, before, edits, heading) == [first] + ([second] + ([third] + LinesOf(edits)));
    SplitOfJoin(RenderPatch(path, before, edits, heading));
  }

  lemma FileOpenings()
    ensures Unbroken("--- a/") && Unbroken("+++ b/") && "--- a/"[0] == '-' && "+++ b/"[0] == '+'
  {
  }

  lemma PathEnds(path: string)
    requires PathWritable(path)
    ensures path == [] || path[|path| - 1] !in {CR, LF}
  {
  }

  lemma HeadingEnds(heading: string)
    requires Unbroken(heading)
    ensures heading == "" || heading[|heading| - 1] !in {CR, LF}
  {
  }

  /**
   Round trip of texts: the written patch takes the text with the old side to the text with
   the new side, whatever heading its hunk has, cleanly exactly when the new lines are the lines of a text.
   */
  lemma WrittenTextApplies(path: string, before: seq<Line>, edits: seq<Edit>, after: seq<Line>, heading: string := "")
    requires Unbroken(heading) && PathWritable(path) && Writable(edits) && WellSplit(before + OldSide(edits) + after)
    ensures var text, patch := Join(before + OldSide(edits) + after), RenderText(path, |before|, edits, heading);
            && Patched(text, patch, path) == Some(Join(before + NewSide(edits) + after))
            && HunkOf(SplitLines(patch)).Some?
            && (PatchesCleanly(text, patch) <==> WellSplit(before + NewSide(edits) + after))
  {
    hide PathWritable, Unbroken, Writable, WellSplit, RenderPatch, Applies, HunkOf, CleanSeams, OldSide, NewSide, SplitLines,
         Join, Fits, IsOneHunk;
    var source := before + OldSide(edits) + after;
    PathEnds(path);
    HeadingEnds(heading);
    RenderedTextSplits(path, |before|, edits, heading);
    SplitOfJoin(source);
    WrittenPatchApplies(path, before, edits, after, heading);
    RenderedIsOneHunk(path, |before|, edits, heading);
    var h := RenderedHunk(|before|, edits);
    assert HunkOf(RenderPatch(path, |before|, edits, heading)) == Some(h);
    FitsBetween(before, h, after);
    FitMeans(source, h);
    SeamsDecide(source, h);
  }

  /** An addition without a line break in front of remaining text is not taken back: the reversed patch is refused. */
  lemma OpenAdditionIsNotUndone(path: string, dropped: Line, added: Line, following: Line)
    requires PathWritable(path) && WellSplit([dropped, following]) && IsSingle(added) && !Closed(added)
    ensures var patch := RenderText(path, 0, [Drop(dropped), Add(added)]);
            && Patched(dropped + following, patch, path) == Some(added + following)
            && HunkOf(SplitLines(patch)).Some?
            && Patched(added + following, ReversedText(patch), path) == None
  {
    hide PathWritable, WellSplit, Patched, RenderText, RenderPatch, HunkOf, SplitLines, Join, Fits, HasFileHeaders,
         HeaderLine, IsOneHunk;
    var edits := [Drop(dropped), Add(added)];
    DropThenAdd(dropped, added, following);
    WrittenTextApplies(path, [], edits, [following]);
    RenderedTextSplits(path, 0, edits);
    RenderedIsOneHunk(path, 0, edits);
    var patch := RenderText(path, 0, edits);
    var h := RenderedHunk(0, edits);
    assert HunkOf(SplitLines(patch)) == Some(h);
    PatchedByHunk(dropped + following, patch, path);
    ReversedTextSplits(patch);
    ReversedHunk(SplitLines(patch), path, h);
    PatchedByHunk(added + following, ReversedText(patch), path);
    SidesOfInverses(edits);
    FirstOfSplit(added + following);
    FirstLineEnd(added, following);
    var back := Hunk(SwapCounts(h.header), Inverses(edits));
    assert SplitLines(added + following)[0] != added;
    if Fits(SplitLines(added + following), 0, back) {
      FitMeans(SplitLines(added + following), back);
      assert false;
    }
  }

  /** The sides of one exchange in front of `following`, and that a patch can hold it. */
  lemma DropThenAdd(dropped: Line, added: Line, following: Line)
    requires WellSplit([dropped, following]) && IsSingle(added)
    ensures var edits := [Drop(dropped), Add(added)];
            && Writable(edits) && OldSide(edits) == [dropped] && NewSide(edits) == [added]
            && [] + OldSide(edits) + [following] == [dropped, following]
            && Join([] + OldSide(edits) + [following]) == dropped + following
            && Join([] + NewSide(edits) + [following]) == added + following
            && following != ""
  {
    hide OldSide, NewSide, Join;
    var edits := [Drop(dropped), Add(added)];
    SidesOfOne(Drop(dropped));
    SidesOfOne(Add(added));
    SidesConcat([Drop(dropped)], [Add(added)]);
    assert edits == [Drop(dropped)] + [Add(added)];
    assert [dropped, following][0] == dropped && [dropped, following][1] == following;
    ClosedBeforeOthers([dropped, following], 0);
    SignedLine('-', dropped);
    SignedLine('+', added);
    assert LinesOf(edits) == [['-'] + dropped, ['+'] + added];
    JoinPair(dropped, following);
    JoinPair(added, following);
    assert [] + OldSide(edits) + [following] == [dropped, following];
    assert [] + NewSide(edits) + [following] == [added, following];
  }

  lemma JoinPair(a: Line, b: Line)
    ensures Join([a, b]) == a + b
  {
    hide Join;
    JoinConcat([a], [b]);
    JoinOne(a);
    JoinOne(b);
    assert [a] + [b] == [a, b];
  }

  /** The smallest such texts. */
  lemma ReversalCanBeRefused(path: string)
    requires PathWritable(path)
    ensures var patch := RenderText(path, 0, [Drop("a\n"), Add("x")]);
            && Patched("a\nb\n", patch, path) == Some("xb\n")
            && HunkOf(SplitLines(patch)).Some? && Patched("xb\n", ReversedText(patch), path) == None
  {
    hide Patched, RenderText, HunkOf, ReversedText, PathWritable;
    assert WellSplit(["a\n", "b\n"]);
    assert "a\n" + "b\n" == "a\nb\n" && "x" + "b\n" == "xb\n";
    OpenAdditionIsNotUndone(path, "a\n", "x", "b\n");
  }
}
