/**
 What the patch applier does to lists of lines: splicing, round trips and reversal.  Whether a
 list of lines survives being joined to a text and split again is the business of PatchTexts.
 */
module PatchLaws {
  import opened Wrappers
  import opened HunkHeader
  import opened TextLines
  import opened UnifiedPatch

  // ------------------------------------------------------------------
  // Splicing, for any number of hunks
  // ------------------------------------------------------------------

  /** The stretches of source between, before and after the hunks. */
  function Gaps(source: seq<Line>, from: nat, hunks: seq<Hunk>): seq<seq<Line>>
    requires from <= |source| && Splice(source, from, hunks).Some?
    ensures |Gaps(source, from, hunks)| == |hunks| + 1
    decreases |hunks|
  {
    if hunks == [] then [source[from..]]
    else
      var start := hunks[0].header.oldStart - 1;
      [source[from..start]] + Gaps(source, start + hunks[0].header.oldCount, hunks[1..])
  }

  /** gap, block, gap, block, ..., gap. */
  function Interleave(gaps: seq<seq<Line>>, blocks: seq<seq<Line>>): seq<Line>
    requires |gaps| == |blocks| + 1
  {
    if blocks == [] then gaps[0] else gaps[0] + blocks[0] + Interleave(gaps[1..], blocks[1..])
  }

  function OldSides(hunks: seq<Hunk>): seq<seq<Line>> {
    seq(|hunks|, i requires 0 <= i < |hunks| => OldSide(hunks[i].edits))
  }

  function NewSides(hunks: seq<Hunk>): seq<seq<Line>> {
    seq(|hunks|, i requires 0 <= i < |hunks| => NewSide(hunks[i].edits))
  }

  /**
   Any number of accepted hunks: source and result are the same gaps, interleaved with the
   old sides on one hand and the new sides on the other. Nothing else differs.
   */
  lemma {:induction false} HunksReplaceOnlyTheirRanges(source: seq<Line>, from: nat, hunks: seq<Hunk>)
    requires from <= |source| && Splice(source, from, hunks).Some?
    ensures var gaps := Gaps(source, from, hunks);
            && source[from..] == Interleave(gaps, OldSides(hunks))
            && Splice(source, from, hunks).value == Interleave(gaps, NewSides(hunks))
    decreases |hunks|
  {
    hide OldSide, NewSide;
    if hunks != [] {
      var h := hunks[0];
      var start := h.header.oldStart - 1;
      var next := start + h.header.oldCount;
      HunksReplaceOnlyTheirRanges(source, next, hunks[1..]);
      var gaps := Gaps(source, from, hunks);
      assert gaps[0] == source[from..start] && gaps[1..] == Gaps(source, next, hunks[1..]);
      assert OldSides(hunks)[1..] == OldSides(hunks[1..]);
      assert NewSides(hunks)[1..] == NewSides(hunks[1..]);
      SplitAround(source, from, start, OldSide(h.edits));
    }
  }

  lemma SplitAround(source: seq<Line>, from: nat, start: nat, block: seq<Line>)
    requires from <= start <= |source| && block <= source[start..]
    ensures source[from..] == source[from..start] + block + source[start + |block|..]
  {
    assert source[start..][..|block|] == block;
  }

  // ------------------------------------------------------------------
  // One hunk
  // ------------------------------------------------------------------

  /** The patch body is exactly one hunk: its header line and its edits. */
  predicate IsOneHunk(patch: seq<Line>, h: Hunk) {
    && |patch| >= 3
    && ParseHeader(Stripped(patch[2])) == Some(h.header)
    && DecodeBody(patch[3..]) == Some((h.edits, []))
  }

  lemma OneHunkDecodes(patch: seq<Line>, h: Hunk)
    requires |patch| >= 3
    ensures IsOneHunk(patch, h) <==> Decode(patch[2..]) == Some([h])
  {
    hide ParseHeader, Stripped, DecodeBody;
    assert patch[2..][1..] == patch[3..];
    DecodeStep(patch[2..]);
    var header, body := ParseHeader(Stripped(patch[2])), DecodeBody(patch[3..]);
    if header.Some? && body.Some? {
      var first, rest := Hunk(header.value, body.value.0), Decode(body.value.1);
      if body.value.1 != [] {
        DecodeStep(body.value.1);
      }
      if rest.Some? {
        assert ([first] + rest.value)[0] == first && ([first] + rest.value)[1..] == rest.value;
        assert [h][1..] == [] && [h][0] == h;
        assert rest.value == [] ==> [first] + rest.value == [first];
      }
    }
  }

  /**
   A patch is accepted exactly when it is one well-formed hunk whose old side stands at its
   range, and then the result is the source with that range replaced by the new side.
   */
  lemma AppliesExactlyWhenOneHunkFits(source: seq<Line>, patch: seq<Line>, path: string, result: seq<Line>)
    ensures Applies(source, patch, path, result) <==>
            && HasFileHeaders(patch, path)
            && exists h ::
                 && IsOneHunk(patch, h) && Fits(source, 0, h)
                 && var start := h.header.oldStart - 1;
                    result == source[..start] + NewSide(h.edits) + source[start + h.header.oldCount..]
  {
    hide ParseHeader, Stripped, DecodeBody, Decode, Fits;
    if HasFileHeaders(patch, path) {
      forall h: Hunk ensures IsOneHunk(patch, h) <==> Decode(patch[2..]) == Some([h]) {
        OneHunkDecodes(patch, h);
      }
      var decoded := Decode(patch[2..]);
      if decoded.Some? && |decoded.value| == 1 {
        assert decoded.value == [decoded.value[0]];
        OneHunkSplice(source, decoded.value[0]);
      }
    }
  }

  lemma OneHunkSplice(source: seq<Line>, h: Hunk)
    ensures Splice(source, 0, [h]) ==
            if !Fits(source, 0, h) then None
            else
              var start := h.header.oldStart - 1;
              Some(source[..start] + NewSide(h.edits) + source[start + h.header.oldCount..])
  {
    assert [h][1..] == [];
  }

  // ------------------------------------------------------------------
  // Reversal
  // ------------------------------------------------------------------

  function Inverse(e: Edit): Edit {
    match e
    case Keep(line) => Keep(line)
    case Drop(line) => Add(line)
    case Add(line) => Drop(line)
  }

  function Inverses(edits: seq<Edit>): seq<Edit> {
    seq(|edits|, i requires 0 <= i < |edits| => Inverse(edits[i]))
  }

  /** Exchange `+` and `-` at the front of a body line. */
  function SwapSign(line: Line): Line {
    if line == [] then line
    else if line[0] == '+' then ['-'] + line[1..]
    else if line[0] == '-' then ['+'] + line[1..]
    else line
  }

  function SwapSigns(lines: seq<Line>): seq<Line> {
    seq(|lines|, i requires 0 <= i < |lines| => SwapSign(lines[i]))
  }

  function SwapCounts(h: Header): Header {
    Header(h.oldStart, h.newCount, h.newStart, h.oldCount)
  }

  /** A header on a line of its own, with any heading behind it. */
  function HeaderLine(h: Header, heading: string := ""): Line {
    RenderHeader(h) + heading + "\n"
  }

  /** The textual reversal of a one-hunk patch: signs and counts exchanged. */
  function Reversed(patch: seq<Line>): seq<Line>
    requires |patch| >= 3 && ParseHeader(Stripped(patch[2])).Some?
  {
    patch[..2] + [HeaderLine(SwapCounts(ParseHeader(Stripped(patch[2])).value))] + SwapSigns(patch[3..])
  }

  lemma {:induction false} SidesOfInverses(edits: seq<Edit>)
    ensures OldSide(Inverses(edits)) == NewSide(edits)
    ensures NewSide(Inverses(edits)) == OldSide(edits)
  {
    if edits != [] {
      SidesOfInverses(edits[..|edits| - 1]);
      assert Inverses(edits)[..|edits| - 1] == Inverses(edits[..|edits| - 1]);
    }
  }

  lemma SwapSignInverts(line: Line)
    requires IsBodyLine(line)
    ensures IsBodyLine(SwapSign(line)) && EditOf(SwapSign(line)) == Inverse(EditOf(line))
    ensures !OpensHunk(SwapSign(line))
  {
  }

  predicate AllBody(lines: seq<Line>) {
    forall i :: 0 <= i < |lines| ==> IsBodyLine(lines[i])
  }

  function EditsOf(lines: seq<Line>): seq<Edit>
    requires AllBody(lines)
  {
    seq(|lines|, i requires 0 <= i < |lines| => EditOf(lines[i]))
  }

  /** Lines decode to the end exactly when each of them is a body line. */
  lemma {:induction false} WholeBody(lines: seq<Line>)
    ensures AllBody(lines) <==> DecodeBody(lines).Some? && DecodeBody(lines).value.1 == []
    ensures AllBody(lines) ==> DecodeBody(lines) == Some((EditsOf(lines), []))
  {
    hide IsBodyLine, OpensHunk, EditOf;
    if lines != [] {
      WholeBody(lines[1..]);
      BodyOrHeader(lines[0]);
      assert AllBody(lines) <==> IsBodyLine(lines[0]) && AllBody(lines[1..]) by {
        assert lines == [lines[0]] + lines[1..];
      }
      if AllBody(lines) {
        assert EditsOf(lines) == [EditOf(lines[0])] + EditsOf(lines[1..]);
      }
    } else {
      assert EditsOf(lines) == [];
    }
  }

  lemma BodyOrHeader(line: Line)
    ensures IsBodyLine(line) ==> !OpensHunk(line)
  {
  }

  lemma SwapSignsDecode(lines: seq<Line>)
    requires DecodeBody(lines).Some? && DecodeBody(lines).value.1 == []
    ensures DecodeBody(SwapSigns(lines)) == Some((Inverses(DecodeBody(lines).value.0), []))
  {
    hide DecodeBody, IsBodyLine, EditOf, SwapSign, Inverse;
    WholeBody(lines);
    forall i | 0 <= i < |lines|
      ensures IsBodyLine(SwapSigns(lines)[i]) && EditOf(SwapSigns(lines)[i]) == Inverse(EditOf(lines[i]))
    {
      SwapSignInverts(lines[i]);
    }
    WholeBody(SwapSigns(lines));
    assert EditsOf(SwapSigns(lines)) == Inverses(EditsOf(lines));
  }

  lemma WrittenHeaderReadsBack(h: Header, heading: string := "")
    requires heading == "" || heading[|heading| - 1] !in {CR, LF}
    ensures ParseHeader(Stripped(HeaderLine(h, heading))) == Some(h)
  {
    hide ParseHeader, RenderHeader;
    var s := RenderHeader(h) + heading;
    HeaderEndsInMarker(h);
    assert (s + "\n")[..|s|] == s;
    assert heading == "" ==> s == RenderHeader(h);
    assert heading != "" ==> s[|s| - 1] == heading[|heading| - 1];
    assert Stripped(s + "\n") == Stripped(s) == s;
    HeaderRoundTrip(h, heading);
  }

  lemma HeaderEndsInMarker(h: Header)
    ensures RenderHeader(h) != [] && RenderHeader(h)[|RenderHeader(h)| - 1] == '@'
  {
  }

  lemma ReversedIsOneHunk(patch: seq<Line>, h: Hunk)
    requires IsOneHunk(patch, h)
    ensures IsOneHunk(Reversed(patch), Hunk(SwapCounts(h.header), Inverses(h.edits)))
  {
    hide ParseHeader, Stripped, DecodeBody, HeaderLine;
    WrittenHeaderReadsBack(SwapCounts(h.header));
    SwapSignsDecode(patch[3..]);
    assert Reversed(patch)[3..] == SwapSigns(patch[3..]);
  }

  lemma ReversedFitsBack(source: seq<Line>, h: Hunk)
    requires Fits(source, 0, h)
    ensures var start := h.header.oldStart - 1;
            var result := source[..start] + NewSide(h.edits) + source[start + h.header.oldCount..];
            var back := Hunk(SwapCounts(h.header), Inverses(h.edits));
            && Fits(result, 0, back)
            && source == result[..start] + NewSide(back.edits) + result[start + back.header.oldCount..]
  {
    hide OldSide, NewSide;
    SidesOfInverses(h.edits);
    var start := h.header.oldStart - 1;
    var result := source[..start] + NewSide(h.edits) + source[start + h.header.oldCount..];
    SplitAround(source, 0, start, OldSide(h.edits));
    assert result[..start] == source[..start];
    assert result[start..] == NewSide(h.edits) + source[start + h.header.oldCount..];
    assert result[start + h.header.newCount..] == source[start + h.header.oldCount..];
  }

  /** On lists of lines the reversal of an accepted patch is accepted on the result and restores the source. */
  lemma ReversalUndoes(source: seq<Line>, patch: seq<Line>, path: string, result: seq<Line>)
    requires Applies(source, patch, path, result)
    ensures |patch| >= 3 && ParseHeader(Stripped(patch[2])).Some?
    ensures Applies(result, Reversed(patch), path, source)
  {
    hide ParseHeader, Stripped, DecodeBody, HeaderLine, Applies;
    AppliesExactlyWhenOneHunkFits(source, patch, path, result);
    var h :| IsOneHunk(patch, h) && Fits(source, 0, h)
      && var start := h.header.oldStart - 1;
         result == source[..start] + NewSide(h.edits) + source[start + h.header.oldCount..];
    ReversedIsOneHunk(patch, h);
    ReversedFitsBack(source, h);
    assert Reversed(patch)[..2] == patch[..2];
    AppliesExactlyWhenOneHunkFits(result, Reversed(patch), path, source);
  }

  // ------------------------------------------------------------------
  // Writing a patch
  // ------------------------------------------------------------------

  function LinesOf(edits: seq<Edit>): seq<Line> {
    seq(|edits|, i requires 0 <= i < |edits| => LineOf(edits[i]))
  }

  /** A file header line; a name that itself ends in a break needs no other. */
  function FileLine(name: string): Line {
    if Closed(name) then name else name + "\n"
  }

  /** A patch with one hunk after `before` unchanged lines. */
  function RenderPatch(path: string, before: nat, edits: seq<Edit>, heading: string := ""): seq<Line> {
    [FileLine("--- a/" + path), FileLine("+++ b/" + path),
     HeaderLine(Header(before + 1, |OldSide(edits)|, before + 1, |NewSide(edits)|), heading)] + LinesOf(edits)
  }

  lemma LineOfReadsBack(e: Edit)
    ensures IsBodyLine(LineOf(e)) && EditOf(LineOf(e)) == e
  {
  }

  lemma LinesOfDecode(edits: seq<Edit>)
    ensures AllBody(LinesOf(edits)) && DecodeBody(LinesOf(edits)) == Some((edits, []))
  {
    hide DecodeBody, IsBodyLine, EditOf, LineOf;
    forall i | 0 <= i < |edits| ensures IsBodyLine(LinesOf(edits)[i]) && EditOf(LinesOf(edits)[i]) == edits[i] {
      LineOfReadsBack(edits[i]);
    }
    WholeBody(LinesOf(edits));
    assert EditsOf(LinesOf(edits)) == edits;
  }

  lemma StrippedFileLine(name: string)
    requires name != "" && name[|name| - 1] !in {CR, LF}
    ensures Stripped(FileLine(name)) == name
  {
    assert (name + "\n")[..|name|] == name;
  }

  function RenderedHunk(before: nat, edits: seq<Edit>): Hunk {
    Hunk(Header(before + 1, |OldSide(edits)|, before + 1, |NewSide(edits)|), edits)
  }

  lemma RenderedIsOneHunk(path: string, before: nat, edits: seq<Edit>, heading: string := "")
    requires heading == "" || heading[|heading| - 1] !in {CR, LF}
    ensures IsOneHunk(RenderPatch(path, before, edits, heading), RenderedHunk(before, edits))
  {
    hide ParseHeader, Stripped, DecodeBody, HeaderLine;
    WrittenHeaderReadsBack(RenderedHunk(before, edits).header, heading);
    LinesOfDecode(edits);
    assert RenderPatch(path, before, edits, heading)[3..] == LinesOf(edits);
  }

  /**
   Round trip: a patch written for any edits between any surrounding lines takes the lines
   with their old side to the lines with their new side.
   */
  lemma WrittenPatchApplies(path: string, before: seq<Line>, edits: seq<Edit>, after: seq<Line>, heading: string := "")
    requires heading == "" || heading[|heading| - 1] !in {CR, LF}
    requires path == [] || path[|path| - 1] !in {CR, LF}
    ensures Applies(before + OldSide(edits) + after, RenderPatch(path, |before|, edits, heading), path,
                    before + NewSide(edits) + after)
  {
    hide ParseHeader, Stripped, IsOneHunk, HeaderLine, Applies;
    StrippedFileLine("--- a/" + path);
    StrippedFileLine("+++ b/" + path);
    RenderedIsOneHunk(path, |before|, edits, heading);
    FitsBetween(before, RenderedHunk(|before|, edits), after);
    AppliesExactlyWhenOneHunkFits(before + OldSide(edits) + after, RenderPatch(path, |before|, edits, heading), path,
                                  before + NewSide(edits) + after);
  }

  lemma FitsBetween(before: seq<Line>, h: Hunk, after: seq<Line>)
    requires h.header.oldStart == |before| + 1
    requires h.header.oldCount == |OldSide(h.edits)| && h.header.newCount == |NewSide(h.edits)|
    ensures var source := before + OldSide(h.edits) + after;
            && Fits(source, 0, h)
            && source[..|before|] == before
            && source[|before| + h.header.oldCount..] == after
  {
    hide OldSide, NewSide;
    var source := before + OldSide(h.edits) + after;
    assert source[|before|..] == OldSide(h.edits) + after;
  }

  function Drops(lines: seq<Line>): seq<Edit> {
    seq(|lines|, i requires 0 <= i < |lines| => Drop(lines[i]))
  }

  function Adds(lines: seq<Line>): seq<Edit> {
    seq(|lines|, i requires 0 <= i < |lines| => Add(lines[i]))
  }

  lemma {:induction false} SidesOfDrops(lines: seq<Line>)
    ensures OldSide(Drops(lines)) == lines && NewSide(Drops(lines)) == []
  {
    if lines != [] {
      SidesOfDrops(lines[..|lines| - 1]);
      assert Drops(lines)[..|lines| - 1] == Drops(lines[..|lines| - 1]);
    }
  }

  lemma {:induction false} SidesOfAdds(lines: seq<Line>)
    ensures OldSide(Adds(lines)) == [] && NewSide(Adds(lines)) == lines
  {
    if lines != [] {
      SidesOfAdds(lines[..|lines| - 1]);
      assert Adds(lines)[..|lines| - 1] == Adds(lines[..|lines| - 1]);
    }
  }

  /**
   Where the applier puts a pure insertion: before source line `oldStart`, so a header that
   counts no source lines and names line 0 (the usual form for an insertion at the top) is refused.
   */
  lemma PureInsertionGoesBeforeItsLine(source: seq<Line>, h: Hunk)
    requires OldSide(h.edits) == [] && h.header.oldCount == 0 && h.header.newCount == |NewSide(h.edits)|
    ensures Fits(source, 0, h) <==> 1 <= h.header.oldStart <= |source| + 1
    ensures Fits(source, 0, h) ==>
              var k := h.header.oldStart - 1;
              Splice(source, 0, [h]) == Some(source[..k] + NewSide(h.edits) + source[k..])
  {
    hide OldSide, NewSide;
    OneHunkSplice(source, h);
  }
}
