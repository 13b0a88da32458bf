/**
 The single-file applier told in terms of the characters of the patch alone: which patches it
 accepts, what they leave, and which error any other patch gets.
 */
module PatchReading {
  import opened Wrappers
  import opened HunkHeader
  import opened TextLines
  import opened UnifiedPatch
  import opened PatchLaws

  /** The rest of every line that starts with one of the signs. */
  function Payloads(lines: seq<Line>, signs: set<char>): seq<Line> {
    if lines == [] then []
    else (if lines[0] != "" && lines[0][0] in signs then [lines[0][1..]] else []) + Payloads(lines[1..], signs)
  }

  /** Kept and dropped lines must stand in the source; kept and added lines stand in the result. */
  const OLD_SIGNS: set<char> := {' ', '-'}
  const NEW_SIGNS: set<char> := {' ', '+'}

  /** The line is the name and nothing but line ends behind it. */
  predicate NamesFile(line: Line, name: string) {
    && name <= line
    && (name == "" || name[|name| - 1] !in {'\r', '\n'})
    && forall i :: |name| <= i < |line| ==> line[i] in {'\r', '\n'}
  }

  predicate SignsOnly(lines: seq<Line>) {
    forall i :: 0 <= i < |lines| ==> lines[i] != "" && lines[i][0] in {' ', '-', '+'}
  }

  // ------------------------------------------------------------------
  // Lines
  // ------------------------------------------------------------------

  lemma {:induction false} SidesArePayloads(lines: seq<Line>)
    requires AllBody(lines)
    ensures OldSide(EditsOf(lines)) == Payloads(lines, OLD_SIGNS)
    ensures NewSide(EditsOf(lines)) == Payloads(lines, NEW_SIGNS)
  {
    hide OldSide, NewSide, EditOf, IsBodyLine;
    if lines == [] {
      SidesOfNone();
    } else {
      SidesArePayloads(lines[1..]);
      var e := EditOf(lines[0]);
      assert EditsOf(lines) == [e] + EditsOf(lines[1..]);
      SidesConcat([e], EditsOf(lines[1..]));
      SidesOfOne(e);
      SignOf(lines[0]);
      BodyLineIs(lines[0]);
    }
  }

  lemma BodyLineIs(line: Line)
    ensures IsBodyLine(line) <==> line != "" && line[0] in {' ', '-', '+'}
  {
  }

  lemma {:induction false} StrippedIs(line: Line)
    ensures Stripped(line) <= line && NamesFile(line, Stripped(line))
  {
    if line != "" && line[|line| - 1] in {'\r', '\n'} {
      StrippedIs(line[..|line| - 1]);
    }
  }

  lemma NamedFile(line: Line, name: string)
    ensures Stripped(line) == name <==> NamesFile(line, name)
  {
    hide Stripped;
    StrippedIs(line);
  }

  lemma HeadingComesLast(p: Spelling, tail: string)
    ensures Spelled(p.(heading := p.heading + tail)) == Spelled(p) + tail
    ensures Spelled(p) != "" && (p.heading == "" ==> Spelled(p)[|Spelled(p)| - 1] == '@')
  {
  }

  /** Line ends behind a header do not matter to it. */
  lemma StrippingKeepsHeader(line: Line, h: Header)
    ensures ParseHeader(Stripped(line)) == Some(h) <==> ParseHeader(line) == Some(h)
  {
    hide ParseHeader, Stripped, Spelled, Spells;
    StrippedIs(line);
    var s := Stripped(line);
    if ParseHeader(s) == Some(h) {
      var p := ReadIsSpelled(s, h);
      HeadingComesLast(p, line[|s|..]);
      assert line == s + line[|s|..];
      SameSpelling(p, p.(heading := p.heading + line[|s|..]), h);
      SpelledReads(p.(heading := p.heading + line[|s|..]), h);
    }
    if ParseHeader(line) == Some(h) {
      var p := ReadIsSpelled(line, h);
      var bare := p.(heading := "");
      HeadingComesLast(bare, p.heading);
      assert "" + p.heading == p.heading;
      var n := |Spelled(bare)|;
      assert line == Spelled(bare) + p.heading && line[n - 1] == '@';
      assert |s| >= n;
      HeadingComesLast(bare, line[n..|s|]);
      assert "" + line[n..|s|] == line[n..|s|];
      assert s == Spelled(bare) + line[n..|s|];
      SameSpelling(p, p.(heading := line[n..|s|]), h);
      SpelledReads(p.(heading := line[n..|s|]), h);
    }
  }

  lemma SameSpelling(p: Spelling, q: Spelling, h: Header)
    requires Spells(p, h) && q.(heading := p.heading) == p
    ensures Spells(q, h)
  {
  }

  // ------------------------------------------------------------------
  // Acceptance
  // ------------------------------------------------------------------

  /** The replacement a patch of one hunk asks for, where its old lines stand in the source. */
  predicate Replaces(source: seq<Line>, h: Header, body: seq<Line>, result: seq<Line>) {
    var removed, added, k := Payloads(body, OLD_SIGNS), Payloads(body, NEW_SIGNS), h.oldStart - 1;
    && |removed| == h.oldCount && |added| == h.newCount
    && 0 <= k && k + |removed| <= |source|
    && source[k..k + |removed|] == removed
    && result == source[..k] + added + source[k + |removed|..]
  }

  /**
   A patch is accepted if and only if its first two lines name the file, its third spells a hunk
   header, every other line starts with a space, a minus or a plus, and the kept and dropped
   lines are as many as the header says and stand at its line; and it replaces them by the kept
   and added ones.
   */
  lemma AcceptedExactlyWhen(source: seq<Line>, patch: seq<Line>, path: string, result: seq<Line>)
    ensures PatchedLines(source, patch, path) == Some(result) <==>
              && |patch| >= 3
              && NamesFile(patch[0], "--- a/" + path) && NamesFile(patch[1], "+++ b/" + path)
              && SignsOnly(patch[3..])
              && exists p: Spelling, h: Header ::
                   patch[2] == Spelled(p) && Spells(p, h) && Replaces(source, h, patch[3..], result)
  {
    hide ParseHeader, Stripped, DecodeBody, Applies, PatchedLines, NamesFile, Spelled, Spells, Replaces, Fits, AllBody;
    AppliesExactlyWhenOneHunkFits(source, patch, path, result);
    if |patch| >= 3 {
      NamedFile(patch[0], "--- a/" + path);
      NamedFile(patch[1], "+++ b/" + path);
      WholeBody(patch[3..]);
      BodyIsSigned(patch[3..]);
      forall h: Header
        ensures ParseHeader(Stripped(patch[2])) == Some(h) <==> exists p: Spelling :: patch[2] == Spelled(p) && Spells(p, h)
      {
        StrippingKeepsHeader(patch[2], h);
        HeaderReadsExactly(patch[2], h);
      }
      if AllBody(patch[3..]) {
        forall h: Header
          ensures Replaces(source, h, patch[3..], result) <==>
                  HunkLeaves(source, Hunk(h, EditsOf(patch[3..])), result)
        {
          ReplacingIsFitting(source, h, patch[3..], result);
        }
      }
      AcceptedByHunk(source, patch, path, result);
    }
  }

  /** The hunk fits and leaves the result. */
  predicate HunkLeaves(source: seq<Line>, h: Hunk, result: seq<Line>) {
    && Fits(source, 0, h)
    && var start := h.header.oldStart - 1;
       result == source[..start] + NewSide(h.edits) + source[start + h.header.oldCount..]
  }

  lemma AcceptedByHunk(source: seq<Line>, patch: seq<Line>, path: string, result: seq<Line>)
    requires |patch| >= 3
    ensures PatchedLines(source, patch, path) == Some(result) <==>
              HasFileHeaders(patch, path) && AllBody(patch[3..])
              && exists h: Header :: ParseHeader(Stripped(patch[2])) == Some(h)
                                     && HunkLeaves(source, Hunk(h, EditsOf(patch[3..])), result)
  {
    hide ParseHeader, Stripped, DecodeBody, Applies, PatchedLines, Fits, NewSide;
    AppliesExactlyWhenOneHunkFits(source, patch, path, result);
    WholeBody(patch[3..]);
    assert PatchedLines(source, patch, path) == Some(result) <==> Applies(source, patch, path, result);
    if HasFileHeaders(patch, path) && AllBody(patch[3..]) {
      var edits := EditsOf(patch[3..]);
      forall h: Header
        ensures (ParseHeader(Stripped(patch[2])) == Some(h) && HunkLeaves(source, Hunk(h, edits), result)) <==>
                IsOneHunk(patch, Hunk(h, edits)) && HunkLeaves(source, Hunk(h, edits), result)
      {
      }
      forall h: Hunk | IsOneHunk(patch, h) ensures h == Hunk(h.header, edits) {
      }
    }
  }

  lemma BodyIsSigned(lines: seq<Line>)
    ensures AllBody(lines) <==> SignsOnly(lines)
  {
    hide IsBodyLine;
    forall i | 0 <= i < |lines| ensures IsBodyLine(lines[i]) <==> lines[i] != "" && lines[i][0] in {' ', '-', '+'} {
      BodyLineIs(lines[i]);
    }
  }

  lemma ReplacingIsFitting(source: seq<Line>, h: Header, body: seq<Line>, result: seq<Line>)
    requires AllBody(body)
    ensures Replaces(source, h, body, result) <==> HunkLeaves(source, Hunk(h, EditsOf(body)), result)
  {
    hide OldSide, NewSide, Payloads, EditsOf;
    SidesArePayloads(body);
    var removed, k := Payloads(body, OLD_SIGNS), h.oldStart - 1;
    if 0 <= k <= |source| {
      PrefixIsSlice(source, k, removed);
    }
  }

  lemma PrefixIsSlice(source: seq<Line>, k: nat, block: seq<Line>)
    requires k <= |source|
    ensures block <= source[k..] <==> k + |block| <= |source| && source[k..k + |block|] == block
  {
    if k + |block| <= |source| {
      assert source[k..][..|block|] == source[k..k + |block|];
    }
  }

  // ------------------------------------------------------------------
  // Errors
  // ------------------------------------------------------------------

  /** Source lines that the first `i` body lines have used up. */
  function Used(lines: seq<Line>, i: nat): nat
    requires i <= |lines|
  {
    |Payloads(lines[..i], OLD_SIGNS)|
  }

  /** Line `i` of a body has a sign, and stands in the source if it must. */
  predicate Stands(source: seq<Line>, at: nat, lines: seq<Line>, i: nat)
    requires i < |lines|
  {
    && lines[i] != "" && lines[i][0] in {' ', '-', '+'}
    && (lines[i][0] != '+' ==>
          at + Used(lines, i) < |source| && source[at + Used(lines, i)] == lines[i][1..])
  }

  /** Why line `i` of a body is refused with this error. */
  predicate Causes(source: seq<Line>, at: nat, lines: seq<Line>, i: nat, e: PatchError)
    requires i < |lines|
  {
    var line := lines[i];
    match e
    case NewlineMarker => "\\ No newline at end of file" <= line
    case BadLine =>
      !("\\ No newline at end of file" <= line) && !("@@ " <= line) && (line == "" || line[0] !in {' ', '-', '+'})
    case ContextMismatch => line != "" && line[0] in {' ', '-'} && !Stands(source, at, lines, i)
    case _ => false
  }

  /** Line `i` is the first that does not stand, and causes the error. */
  predicate FirstCause(source: seq<Line>, at: nat, lines: seq<Line>, i: nat, e: PatchError) {
    i < |lines| && Causes(source, at, lines, i, e) && forall j: nat :: j < i ==> Stands(source, at, lines, j)
  }

  lemma UsedStep(lines: seq<Line>, i: nat)
    requires 0 < i <= |lines|
    ensures Used(lines, i) == (if lines[0] != "" && lines[0][0] in OLD_SIGNS then 1 else 0) + Used(lines[1..], i - 1)
  {
    assert lines[..i][1..] == lines[1..][..i - 1] && lines[..i][0] == lines[0];
  }

  /** Past a first line that stands, causes are those of the rest. */
  lemma CauseShifts(source: seq<Line>, at: nat, lines: seq<Line>, i: nat, e: PatchError)
    requires lines != [] && Stands(source, at, lines, 0)
    ensures !FirstCause(source, at, lines, 0, e)
    ensures FirstCause(source, at, lines, i + 1, e) <==>
            FirstCause(source, at + (if lines[0][0] == '+' then 0 else 1), lines[1..], i, e)
  {
    hide Used;
    var next := at + if lines[0][0] == '+' then 0 else 1;
    forall j: nat | j < |lines[1..]|
      ensures Stands(source, at, lines, j + 1) <==> Stands(source, next, lines[1..], j)
      ensures Causes(source, at, lines, j + 1, e) <==> Causes(source, next, lines[1..], j, e)
    {
      UsedStep(lines, j + 1);
    }
    if FirstCause(source, at, lines, i + 1, e) {
      forall j: nat | j < i ensures Stands(source, next, lines[1..], j) {
        assert Stands(source, at, lines, j + 1);
      }
    }
    if FirstCause(source, next, lines[1..], i, e) {
      forall j: nat | j < i + 1 ensures Stands(source, at, lines, j) {
        if j > 0 {
          var k: nat := j - 1;
          assert Stands(source, next, lines[1..], k);
        }
      }
    }
  }

  lemma NothingUsed(lines: seq<Line>)
    ensures Used(lines, 0) == 0
  {
  }

  /** The error of a body is that of its first line that does not stand. */
  lemma {:induction false} BodyErrorIsTheFirst(source: seq<Line>, at: nat, lines: seq<Line>, e: PatchError)
    requires at <= |source|
    ensures BodyFault(source, at, lines) == Some(e) <==> exists i: nat :: FirstCause(source, at, lines, i, e)
    decreases |lines|
  {
    hide FirstCause, Stands, Used;
    if lines == [] {
      NoCauseInNothing(source, at, e);
    } else {
      FirstLineDecides(source, at, lines, e);
      if Stands(source, at, lines, 0) {
        StandingIsNonempty(source, at, lines);
        var next := at + if lines[0][0] == '+' then 0 else 1;
        StandingMovesOn(source, at, lines);
        BodyErrorIsTheFirst(source, next, lines[1..], e);
        forall i: nat ensures FirstCause(source, at, lines, i + 1, e) <==> FirstCause(source, next, lines[1..], i, e) {
          CauseShifts(source, at, lines, i, e);
        }
        CauseShifts(source, at, lines, 0, e);
        if exists i: nat :: FirstCause(source, at, lines, i, e) {
          var i: nat :| FirstCause(source, at, lines, i, e);
          assert i != 0;
          var k: nat := i - 1;
          assert FirstCause(source, next, lines[1..], k, e);
        }
      }
    }
  }

  lemma StandingIsNonempty(source: seq<Line>, at: nat, lines: seq<Line>)
    requires lines != [] && Stands(source, at, lines, 0)
    ensures lines[0] != ""
  {
  }

  lemma NoCauseInNothing(source: seq<Line>, at: nat, e: PatchError)
    ensures forall i: nat :: !FirstCause(source, at, [], i, e)
  {
  }

  /** A first line that does not stand is the first cause, or opens the next hunk. */
  lemma FirstLineDecides(source: seq<Line>, at: nat, lines: seq<Line>, e: PatchError)
    requires lines != [] && at <= |source|
    ensures !Stands(source, at, lines, 0) ==>
              && (BodyFault(source, at, lines) == Some(e) <==> FirstCause(source, at, lines, 0, e))
              && forall i: nat :: i > 0 ==> !FirstCause(source, at, lines, i, e)
  {
    NothingUsed(lines);
    BodyLineIs(lines[0]);
  }

  lemma StandingMovesOn(source: seq<Line>, at: nat, lines: seq<Line>)
    requires lines != [] && at <= |source| && Stands(source, at, lines, 0)
    ensures var next := at + if lines[0][0] == '+' then 0 else 1;
            next <= |source| && BodyFault(source, at, lines) == BodyFault(source, next, lines[1..])
  {
    NothingUsed(lines);
    BodyLineIs(lines[0]);
  }

  /** Hunks that do not open with a header. */
  lemma UnspelledIsOutside(source: seq<Line>, from: nat, lines: seq<Line>)
    requires from <= |source| && lines != []
    requires forall p: Spelling, h: Header :: Spells(p, h) ==> lines[0] != Spelled(p)
    ensures HunkFault(source, from, lines) == Some(OutsideHunk)
  {
    hide ParseHeader, Stripped, Spelled, Spells, BodyFault, DecodeBody, OldSide, NewSide;
    var header := ParseHeader(Stripped(lines[0]));
    if header.Some? {
      StrippingKeepsHeader(lines[0], header.value);
      var p := ReadIsSpelled(lines[0], header.value);
    }
  }

  /** The error of a list of hunks, told of the first of them: its range, its body, its counts. */
  lemma HunkErrorIs(source: seq<Line>, from: nat, lines: seq<Line>, p: Spelling, h: Header)
    requires from <= |source| && lines != [] && Spells(p, h) && lines[0] == Spelled(p)
    ensures var fault := HunkFault(source, from, lines);
            if h.oldStart < from + 1 || h.oldStart > |source| + 1 then fault == Some(BadRange)
            else
              var body := BodyFault(source, h.oldStart - 1, lines[1..]);
              if body.Some? then fault == body
              else
                var (edits, rest) := DecodeBody(lines[1..]).value;
                if |OldSide(edits)| != h.oldCount || |NewSide(edits)| != h.newCount then fault == Some(CountMismatch)
                else h.oldStart - 1 + h.oldCount <= |source| && fault == HunkFault(source, h.oldStart - 1 + h.oldCount, rest)
  {
    hide ParseHeader, Stripped, Spelled, Spells, BodyFault, DecodeBody, OldSide, NewSide;
    SpelledReads(p, h);
    StrippingKeepsHeader(lines[0], h);
    if from <= h.oldStart - 1 <= |source| {
      BodyFaultMeans(source, h.oldStart - 1, lines[1..]);
    }
  }

  /** The errors of the whole patch around its hunks. */
  lemma PatchErrorIs(source: seq<Line>, patch: seq<Line>, path: string)
    ensures var fault := PatchFault(source, patch, path);
            && (fault == Some(BadOldHeader) <==> |patch| < 3 || !NamesFile(patch[0], "--- a/" + path))
            && (fault == Some(BadNewHeader) <==>
                  |patch| >= 3 && NamesFile(patch[0], "--- a/" + path) && !NamesFile(patch[1], "+++ b/" + path))
            && (fault == Some(HunkCount) <==>
                  && HasFileHeaders(patch, path) && Remainder(source, 0, patch[2..]).Some?
                  && Remainder(source, 0, patch[2..]).value.0 != 1)
            && fault != Some(NotUtf8)
    ensures HasFileHeaders(patch, path) && HunkFault(source, 0, patch[2..]).Some? ==>
              PatchFault(source, patch, path) == HunkFault(source, 0, patch[2..])
  {
    hide Stripped, NamesFile, HunkFault, Decode, Splice;
    if |patch| >= 3 {
      NamedFile(patch[0], "--- a/" + path);
      NamedFile(patch[1], "+++ b/" + path);
      HunkFaultMeans(source, 0, patch[2..]);
      HunkErrorsAreInner(source, 0, patch[2..]);
    }
  }

  lemma {:induction false} HunkErrorsAreInner(source: seq<Line>, from: nat, lines: seq<Line>)
    requires from <= |source|
    ensures HunkFault(source, from, lines) !in {Some(NotUtf8), Some(BadOldHeader), Some(BadNewHeader), Some(HunkCount)}
    decreases |lines|
  {
    hide ParseHeader, Stripped, BodyFault, DecodeBody, OldSide, NewSide;
    if lines != [] {
      var header := ParseHeader(Stripped(lines[0]));
      if header.Some? && from <= header.value.oldStart - 1 <= |source| {
        var start := header.value.oldStart - 1;
        BodyErrorsAreInner(source, start, lines[1..]);
        BodyFaultMeans(source, start, lines[1..]);
        DecodeBodyShrinks(lines[1..]);
        if BodyFault(source, start, lines[1..]).None? && |OldSide(DecodeBody(lines[1..]).value.0)| == header.value.oldCount {
          HunkErrorsAreInner(source, start + header.value.oldCount, DecodeBody(lines[1..]).value.1);
        }
      }
    }
  }

  lemma {:induction false} BodyErrorsAreInner(source: seq<Line>, at: nat, lines: seq<Line>)
    requires at <= |source|
    ensures BodyFault(source, at, lines) in {None, Some(NewlineMarker), Some(BadLine), Some(ContextMismatch)}
    decreases |lines|
  {
    if lines != [] {
      BodyErrorsAreInner(source, at, lines[1..]);
      if at < |source| {
        BodyErrorsAreInner(source, at + 1, lines[1..]);
      }
    }
  }

  /** Files that do not decode are refused before anything else, and no others for that. */
  lemma DecodingComesFirst(c: Codec, original: Bytes, patch: Bytes, path: string)
    ensures FileFault(c, original, patch, path) == Some(NotUtf8) <==>
            c.decode(original).None? || c.decode(patch).None?
  {
    hide PatchFault;
    if c.decode(original).Some? && c.decode(patch).Some? {
      PatchErrorIs(SplitLines(c.decode(original).value), SplitLines(c.decode(patch).value), path);
    }
  }
}
