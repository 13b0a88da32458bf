/**
 The single-file unified-patch applier of the vendored-source verifier: the hunk loops over
 lines that keep their line breaks, and the file contents around them.
 */
module UnifiedPatch {
  import opened Wrappers
  import opened HunkHeader
  import opened TextLines

  /** One line of a hunk body. */
  datatype Edit = Keep(line: Line) | Drop(line: Line) | Add(line: Line)

  datatype Hunk = Hunk(header: Header, edits: seq<Edit>)

  datatype PatchError =
    | NotUtf8
    | BadOldHeader
    | BadNewHeader
    | OutsideHunk
    | BadRange
    | NewlineMarker
    | BadLine
    | ContextMismatch
    | CountMismatch
    | HunkCount

  const NEWLINE_MARKER := "\\ No newline at end of file"

  // ------------------------------------------------------------------
  // What a patch says
  // ------------------------------------------------------------------

  /** `rstrip("\r\n")`. */
  function Stripped(s: string): string {
    if s != [] && s[|s| - 1] in {'\r', '\n'} then Stripped(s[..|s| - 1]) else s
  }

  predicate OpensHunk(line: Line) {
    "@@ " <= line
  }

  predicate IsBodyLine(line: Line) {
    line != [] && line[0] in {' ', '-', '+'}
  }

  /** Why a line inside a hunk is refused, if it is. */
  function LineFault(line: Line): (fault: Option<PatchError>)
    ensures fault.None? <==> IsBodyLine(line)
  {
    if NEWLINE_MARKER <= line then
      assert line[0] == '\\';
      Some(NewlineMarker)
    else if !IsBodyLine(line) then Some(BadLine)
    else None
  }

  function EditOf(line: Line): Edit
    requires IsBodyLine(line)
  {
    if line[0] == ' ' then Keep(line[1..]) else if line[0] == '-' then Drop(line[1..]) else Add(line[1..])
  }

  function LineOf(e: Edit): Line {
    match e
    case Keep(line) => [' '] + line
    case Drop(line) => ['-'] + line
    case Add(line) => ['+'] + line
  }

  /** The edits up to the next hunk, and what follows them. */
  function DecodeBody(lines: seq<Line>): Option<(seq<Edit>, seq<Line>)> {
    if lines == [] || OpensHunk(lines[0]) then Some(([], lines))
    else if !IsBodyLine(lines[0]) then None
    else
      match DecodeBody(lines[1..])
      case None => None
      case Some((edits, rest)) => Some(([EditOf(lines[0])] + edits, rest))
  }

  lemma DecodeBodyShrinks(lines: seq<Line>)
    ensures DecodeBody(lines).Some? ==> |DecodeBody(lines).value.1| <= |lines|
  {
  }

  /** The hunks of a patch body, if every line belongs to one. */
  function Decode(lines: seq<Line>): Option<seq<Hunk>>
    decreases |lines|
  {
    if lines == [] then Some([])
    else
      match ParseHeader(Stripped(lines[0]))
      case None => None
      case Some(header) =>
        DecodeBodyShrinks(lines[1..]);
        match DecodeBody(lines[1..])
        case None => None
        case Some((edits, rest)) =>
          match Decode(rest)
          case None => None
          case Some(hunks) => Some([Hunk(header, edits)] + hunks)
  }

  /** The source lines a body expects. */
  function OldSide(edits: seq<Edit>): seq<Line> {
    if edits == [] then []
    else OldSide(edits[..|edits| - 1]) + if edits[|edits| - 1].Add? then [] else [edits[|edits| - 1].line]
  }

  /** The lines it leaves behind. */
  function NewSide(edits: seq<Edit>): seq<Line> {
    if edits == [] then []
    else NewSide(edits[..|edits| - 1]) + if edits[|edits| - 1].Drop? then [] else [edits[|edits| - 1].line]
  }

  /** The hunk sits at or after `from`, its old side is there, and its counts are right. */
  predicate Fits(source: seq<Line>, from: nat, h: Hunk) {
    && from <= h.header.oldStart - 1 <= |source|
    && OldSide(h.edits) <= source[h.header.oldStart - 1..]
    && |OldSide(h.edits)| == h.header.oldCount
    && |NewSide(h.edits)| == h.header.newCount
  }

  /** The text from `from` on, with every hunk's old side replaced by its new side. */
  function Splice(source: seq<Line>, from: nat, hunks: seq<Hunk>): Option<seq<Line>>
    requires from <= |source|
    decreases |hunks|
  {
    if hunks == [] then Some(source[from..])
    else if !Fits(source, from, hunks[0]) then None
    else
      var start := hunks[0].header.oldStart - 1;
      match Splice(source, start + hunks[0].header.oldCount, hunks[1..])
      case None => None
      case Some(tail) => Some(source[from..start] + NewSide(hunks[0].edits) + tail)
  }

  predicate HasFileHeaders(patch: seq<Line>, path: string) {
    |patch| >= 3 && Stripped(patch[0]) == "--- a/" + path && Stripped(patch[1]) == "+++ b/" + path
  }

  /** The number of hunks and the text they leave from `from` on. */
  function SpliceAll(source: seq<Line>, from: nat, decoded: Option<seq<Hunk>>): Option<(nat, seq<Line>)>
    requires from <= |source|
  {
    if decoded.None? then None
    else
      var tail := Splice(source, from, decoded.value);
      if tail.None? then None else Some((|decoded.value|, tail.value))
  }

  /** What the whole loop comes to when entered at `from` with these lines left. */
  function Remainder(source: seq<Line>, from: nat, lines: seq<Line>): Option<(nat, seq<Line>)>
    requires from <= |source|
  {
    SpliceAll(source, from, Decode(lines))
  }

  /** The patch changes `source` into `result` by exactly one hunk. */
  predicate Applies(source: seq<Line>, patch: seq<Line>, path: string, result: seq<Line>) {
    HasFileHeaders(patch, path) && Remainder(source, 0, patch[2..]) == Some((1, result))
  }

  /** The lines an accepted patch leaves. */
  function PatchedLines(source: seq<Line>, patch: seq<Line>, path: string): (r: Option<seq<Line>>)
    ensures forall result :: Applies(source, patch, path, result) <==> r == Some(result)
  {
    var outcome := if HasFileHeaders(patch, path) then Remainder(source, 0, patch[2..]) else None;
    if outcome.Some? && outcome.value.0 == 1 then Some(outcome.value.1) else None
  }

  /** The text an accepted patch leaves: both texts are split, and the lines joined again. */
  function Patched(text: string, patch: string, path: string): Option<string> {
    match PatchedLines(SplitLines(text), SplitLines(patch), path)
    case None => None
    case Some(lines) => Some(Join(lines))
  }

  type Bytes = seq<byte>

  /** The text encoding of files; strict UTF-8 in the source. */
  datatype Codec = Codec(decode: Bytes -> Option<string>, encode: string -> Bytes)

  /** Decoding and encoding are inverse on the contents that decode. */
  ghost predicate Strict(c: Codec) {
    && (forall text :: c.decode(c.encode(text)) == Some(text))
    && (forall bytes :: c.decode(bytes).Some? ==> c.encode(c.decode(bytes).value) == bytes)
  }

  /** The file contents an accepted patch leaves. */
  function PatchedBytes(c: Codec, original: Bytes, patch: Bytes, path: string): Option<Bytes> {
    if c.decode(original).None? || c.decode(patch).None? then None
    else
      match Patched(c.decode(original).value, c.decode(patch).value, path)
      case None => None
      case Some(text) => Some(c.encode(text))
  }

  // ------------------------------------------------------------------
  // Sides of edit sequences
  // ------------------------------------------------------------------

  lemma {:induction false} SidesConcat(a: seq<Edit>, b: seq<Edit>)
    ensures OldSide(a + b) == OldSide(a) + OldSide(b)
    ensures NewSide(a + b) == NewSide(a) + NewSide(b)
  {
    if b == [] {
      assert a + b == a;
    } else {
      assert (a + b)[..|a + b| - 1] == a + b[..|b| - 1];
      SidesConcat(a, b[..|b| - 1]);
    }
  }

  lemma SidesOfOne(e: Edit)
    ensures OldSide([e]) == if e.Add? then [] else [e.line]
    ensures NewSide([e]) == if e.Drop? then [] else [e.line]
  {
    assert [e][..0] == [];
  }

  lemma SliceGrows(source: seq<Line>, start: nat, n: nat)
    requires start + n < |source|
    ensures source[start..start + n + 1] == source[start..start + n] + [source[start + n]]
  {
  }

  /** One more edit, in the shape the body loop maintains. */
  lemma SidesExtend(source: seq<Line>, start: nat, result: seq<Line>, done: seq<Edit>, e: Edit)
    requires start + |OldSide(done)| <= |source| && OldSide(done) == source[start..start + |OldSide(done)|]
    ensures OldSide(done + [e]) == OldSide(done) + if e.Add? then [] else [e.line]
    ensures NewSide(done + [e]) == NewSide(done) + if e.Drop? then [] else [e.line]
    ensures result + NewSide(done + [e]) == result + NewSide(done) + if e.Drop? then [] else [e.line]
    ensures !e.Add? && start + |OldSide(done)| < |source| && source[start + |OldSide(done)|] == e.line ==>
              OldSide(done + [e]) == source[start..start + |OldSide(done)| + 1]
  {
    hide OldSide, NewSide;
    SidesConcat(done, [e]);
    SidesOfOne(e);
    if start + |OldSide(done)| < |source| {
      SliceGrows(source, start, |OldSide(done)|);
    }
  }

  // ------------------------------------------------------------------
  // Why a patch is refused
  // ------------------------------------------------------------------

  /** The first fault of a hunk body against the source from `at` on. */
  function BodyFault(source: seq<Line>, at: nat, lines: seq<Line>): (fault: Option<PatchError>)
    requires at <= |source|
    ensures fault.None? ==> DecodeBody(lines).Some?
    decreases |lines|
  {
    if lines == [] || OpensHunk(lines[0]) then None
    else if LineFault(lines[0]).Some? then LineFault(lines[0])
    else if EditOf(lines[0]).Add? then BodyFault(source, at, lines[1..])
    else if at == |source| || source[at] != lines[0][1..] then Some(ContextMismatch)
    else BodyFault(source, at + 1, lines[1..])
  }

  /** The first fault of the hunks from `lines` on, the source being used up to `from`. */
  function HunkFault(source: seq<Line>, from: nat, lines: seq<Line>): Option<PatchError>
    requires from <= |source|
    decreases |lines|
  {
    if lines == [] then None
    else
      match ParseHeader(Stripped(lines[0]))
      case None => Some(OutsideHunk)
      case Some(h) =>
        if !(from <= h.oldStart - 1 <= |source|) then Some(BadRange)
        else if BodyFault(source, h.oldStart - 1, lines[1..]).Some? then BodyFault(source, h.oldStart - 1, lines[1..])
        else
          DecodeBodyShrinks(lines[1..]);
          BodyFaultMeans(source, h.oldStart - 1, lines[1..]);
          var (edits, rest) := DecodeBody(lines[1..]).value;
          if |OldSide(edits)| != h.oldCount || |NewSide(edits)| != h.newCount then Some(CountMismatch)
          else HunkFault(source, h.oldStart - 1 + h.oldCount, rest)
  }

  /** The error of a patch: file headers first, then the hunks in order, their number last. */
  function PatchFault(source: seq<Line>, patch: seq<Line>, path: string): Option<PatchError> {
    if patch == [] || Stripped(patch[0]) != "--- a/" + path || |patch| < 3 then Some(BadOldHeader)
    else if Stripped(patch[1]) != "+++ b/" + path then Some(BadNewHeader)
    else if HunkFault(source, 0, patch[2..]).Some? then HunkFault(source, 0, patch[2..])
    else if Decode(patch[2..]).Some? && |Decode(patch[2..]).value| == 1 then None
    else Some(HunkCount)
  }

  /** The error for file contents. */
  function FileFault(c: Codec, original: Bytes, patch: Bytes, path: string): Option<PatchError> {
    if c.decode(original).None? || c.decode(patch).None? then Some(NotUtf8)
    else PatchFault(SplitLines(c.decode(original).value), SplitLines(c.decode(patch).value), path)
  }

  /** A body is without fault exactly when it decodes and its old side stands in the source. */
  lemma {:induction false} BodyFaultMeans(source: seq<Line>, at: nat, lines: seq<Line>)
    requires at <= |source|
    ensures BodyFault(source, at, lines).None? <==>
            var body := DecodeBody(lines);
            body.Some? && OldSide(body.value.0) <= source[at..]
    decreases |lines|
  {
    hide OldSide, NewSide, OpensHunk, IsBodyLine, LineFault, EditOf;
    SidesOfNone();
    if lines != [] && !OpensHunk(lines[0]) && LineFault(lines[0]).None? {
      var e := EditOf(lines[0]);
      SignOf(lines[0]);
      var rest := DecodeBody(lines[1..]);
      if rest.Some? {
        SidesConcat([e], rest.value.0);
        SidesOfOne(e);
      }
      if e.Add? {
        BodyFaultMeans(source, at, lines[1..]);
      } else {
        if at < |source| {
          BodyFaultMeans(source, at + 1, lines[1..]);
        }
        if rest.Some? {
          FirstOfPrefix(source, at, e.line, OldSide(rest.value.0));
        }
      }
    }
  }

  lemma FirstOfPrefix(source: seq<Line>, at: nat, line: Line, rest: seq<Line>)
    requires at <= |source|
    ensures [line] + rest <= source[at..] <==> at < |source| && source[at] == line && rest <= source[at + 1..]
  {
    if at < |source| {
      assert source[at..] == [source[at]] + source[at + 1..];
      if [line] + rest <= source[at..] {
        assert source[at..][0] == line && source[at..][1..1 + |rest|] == rest;
      }
    }
  }

  /** A patch body is without fault exactly when its hunks can all be spliced in. */
  lemma {:induction false} HunkFaultMeans(source: seq<Line>, from: nat, lines: seq<Line>)
    requires from <= |source|
    ensures HunkFault(source, from, lines).None? <==> Remainder(source, from, lines).Some?
    decreases |lines|
  {
    hide ParseHeader, Stripped, DecodeBody, OldSide, NewSide, BodyFault, Decode, Splice;
    if lines == [] {
      NothingLeft(source, from);
    } else {
      assert lines[0..] == lines;
      RemainderStep(source, from, lines, 0);
      DecodeBodyShrinks(lines[1..]);
      var header := ParseHeader(Stripped(lines[0]));
      if header.Some? && from <= header.value.oldStart - 1 <= |source| {
        var start := header.value.oldStart - 1;
        BodyFaultMeans(source, start, lines[1..]);
        var body := DecodeBody(lines[1..]);
        if body.Some? && Fits(source, from, Hunk(header.value, body.value.0)) {
          HunkFaultMeans(source, start + header.value.oldCount, body.value.1);
        }
      }
    }
  }

  lemma NothingLeft(source: seq<Line>, from: nat)
    requires from <= |source|
    ensures Remainder(source, from, []) == Some((0, source[from..])) && HunkFault(source, from, []) == None
  {
  }

  /** Every refusal has a fault, and only refusals have one. */
  lemma RefusedExactlyForAFault(source: seq<Line>, patch: seq<Line>, path: string)
    ensures PatchFault(source, patch, path).None? <==> PatchedLines(source, patch, path).Some?
  {
    hide Stripped, HunkFault, Decode, Splice;
    if |patch| >= 3 {
      HunkFaultMeans(source, 0, patch[2..]);
    }
  }

  // ------------------------------------------------------------------
  // The hunk loops
  // ------------------------------------------------------------------

  /** `done` edits already read, in front of whatever decoding the rest gives. */
  function Resumed(done: seq<Edit>, rest: Option<(seq<Edit>, seq<Line>)>): Option<(seq<Edit>, seq<Line>)> {
    if rest.None? then None else Some((done + rest.value.0, rest.value.1))
  }

  /** What one hunk body did to the source, or why it failed. */
  datatype BodyOutcome = BodyOutcome(index: nat, sourceIndex: nat, emitted: seq<Line>, consumedOld: nat, emittedNew: nat)

  /** The inner loop: walk one hunk body from `index`, matching the source from `start`. */
  method ApplyBody(source: seq<Line>, patch: seq<Line>, first: nat, start: nat, result: seq<Line>)
    returns (r: Result<BodyOutcome, PatchError>)
    requires first <= |patch| && start <= |source|
    ensures r.Ok? <==> var body := DecodeBody(patch[first..]);
                       body.Some? && OldSide(body.value.0) <= source[start..]
    ensures r.Err? ==> BodyFault(source, start, patch[first..]) == Some(r.error)
    ensures r.Ok? ==> var (edits, rest) := DecodeBody(patch[first..]).value;
                      && first <= r.value.index <= |patch| && rest == patch[r.value.index..]
                      && (r.value.index < |patch| ==> OpensHunk(patch[r.value.index]))
                      && r.value.sourceIndex == start + |OldSide(edits)|
                      && r.value.emitted == result + NewSide(edits)
                      && r.value.consumedOld == |OldSide(edits)|
                      && r.value.emittedNew == |NewSide(edits)|
  {
    hide DecodeBody, OldSide, NewSide, BodyFault, LineFault, EditOf;
    var index, sourceIndex, emitted := first, start, result;
    var consumedOld, emittedNew := 0, 0;
    ghost var done: seq<Edit> := [];
    SidesOfNone();
    ghost var whole := DecodeBody(patch[first..]);
    ResumedAtStart(whole);
    BodyFaultMeans(source, start, patch[first..]);
    while index < |patch| && !OpensHunk(patch[index])
      invariant first <= index <= |patch|
      invariant whole == Resumed(done, DecodeBody(patch[index..]))
      invariant sourceIndex == start + |OldSide(done)| <= |source|
      invariant BodyFault(source, start, patch[first..]) == BodyFault(source, sourceIndex, patch[index..])
      invariant OldSide(done) == source[start..sourceIndex]
      invariant emitted == result + NewSide(done)
      invariant consumedOld == |OldSide(done)| && emittedNew == |NewSide(done)|
    {
      var line := patch[index];
      var fault := LineFault(line);
      NextFault(source, sourceIndex, patch, index);
      if fault.Some? {
        return Err(fault.value);
      }
      ghost var e := EditOf(line);
      var payload := line[1..];
      BodyStep(patch, index, done, e);
      SignOf(line);
      if line[0] == ' ' || line[0] == '-' {
        if sourceIndex >= |source| || source[sourceIndex] != payload {
          return Err(ContextMismatch);
        }
        sourceIndex := sourceIndex + 1;
        consumedOld := consumedOld + 1;
      }
      if line[0] == ' ' || line[0] == '+' {
        emitted := emitted + [payload];
        emittedNew := emittedNew + 1;
      }
      SidesExtend(source, start, result, done, e);
      done := done + [e];
      index := index + 1;
    }
    BodyEnds(patch, index, done);
    NoMoreFaults(source, sourceIndex, patch, index);
    r := Ok(BodyOutcome(index, sourceIndex, emitted, consumedOld, emittedNew));
  }

  lemma ResumedAtStart(rest: Option<(seq<Edit>, seq<Line>)>)
    ensures Resumed([], rest) == rest
  {
    if rest.Some? {
      assert [] + rest.value.0 == rest.value.0;
    }
  }

  lemma BodyStep(patch: seq<Line>, index: nat, done: seq<Edit>, e: Edit)
    requires index < |patch| && IsBodyLine(patch[index]) && !OpensHunk(patch[index]) && e == EditOf(patch[index])
    ensures Resumed(done, DecodeBody(patch[index..])) == Resumed(done + [e], DecodeBody(patch[index + 1..]))
  {
    assert patch[index..][1..] == patch[index + 1..];
    var rest := DecodeBody(patch[index + 1..]);
    if rest.Some? {
      assert done + ([e] + rest.value.0) == (done + [e]) + rest.value.0;
    }
  }

  lemma SignOf(line: Line)
    requires IsBodyLine(line)
    ensures EditOf(line).line == line[1..] && line[0] in {' ', '-', '+'}
    ensures EditOf(line).Add? <==> line[0] == '+'
    ensures EditOf(line).Drop? <==> line[0] == '-'
  {
  }

  /** One turn of the inner loop, as far as faults go. */
  lemma NextFault(source: seq<Line>, at: nat, patch: seq<Line>, index: nat)
    requires at <= |source| && index < |patch| && !OpensHunk(patch[index])
    ensures var line := patch[index];
            BodyFault(source, at, patch[index..]) ==
            if LineFault(line).Some? then LineFault(line)
            else if EditOf(line).Add? then BodyFault(source, at, patch[index + 1..])
            else if at == |source| || source[at] != line[1..] then Some(ContextMismatch)
            else BodyFault(source, at + 1, patch[index + 1..])
  {
    hide LineFault, EditOf, OpensHunk;
    assert patch[index..][1..] == patch[index + 1..];
  }

  lemma NoMoreFaults(source: seq<Line>, at: nat, patch: seq<Line>, index: nat)
    requires at <= |source| && index <= |patch| && (index < |patch| ==> OpensHunk(patch[index]))
    ensures BodyFault(source, at, patch[index..]) == None
  {
  }

  lemma BodyEnds(patch: seq<Line>, index: nat, done: seq<Edit>)
    requires index <= |patch| && (index < |patch| ==> OpensHunk(patch[index]))
    ensures Resumed(done, DecodeBody(patch[index..])) == Some((done, patch[index..]))
  {
    assert done + [] == done;
  }

  lemma SidesOfNone()
    ensures OldSide([]) == [] && NewSide([]) == []
  {
  }

  lemma AppendedPart(a: seq<Line>, b: seq<Line>, c: seq<Line>)
    ensures a <= a + b + c && (a + b + c)[|a|..] == b + c
  {
  }

  /** The state of the outer loop between hunks. */
  datatype Progress = Progress(index: nat, sourceIndex: nat, result: seq<Line>)

  /** One turn of the outer loop: the hunk whose header is at `p.index`. */
  method ApplyHunk(source: seq<Line>, patch: seq<Line>, p: Progress) returns (r: Result<Progress, PatchError>)
    requires p.index < |patch| && p.sourceIndex <= |source|
    ensures r.Err? ==> Remainder(source, p.sourceIndex, patch[p.index..]) == None
    ensures r.Err? ==> HunkFault(source, p.sourceIndex, patch[p.index..]) == Some(r.error)
    ensures r.Ok? ==>
              && p.index < r.value.index <= |patch| && r.value.sourceIndex <= |source|
              && p.result <= r.value.result
              && Remainder(source, p.sourceIndex, patch[p.index..]) ==
                 Continued(1, r.value.result[|p.result|..],
                           Remainder(source, r.value.sourceIndex, patch[r.value.index..]))
              && HunkFault(source, p.sourceIndex, patch[p.index..]) ==
                 HunkFault(source, r.value.sourceIndex, patch[r.value.index..])
  {
    hide ParseHeader, Stripped, DecodeBody, SpliceAll, OldSide, NewSide, BodyFault;
    var header := ParseHeader(Stripped(patch[p.index]));
    RemainderStep(source, p.sourceIndex, patch, p.index);
    if header.None? {
      return Err(OutsideHunk);
    }
    ghost var decoded := DecodeBody(patch[p.index + 1..]);
    assert patch[p.index..][1..] == patch[p.index + 1..];
    var oldStart := header.value.oldStart - 1;
    if oldStart < p.sourceIndex || oldStart > |source| {
      return Err(BadRange);
    }
    BodyFaultMeans(source, oldStart, patch[p.index + 1..]);
    var copied := p.result + source[p.sourceIndex..oldStart];
    var body := ApplyBody(source, patch, p.index + 1, oldStart, copied);
    if body.Err? {
      return Err(body.error);
    }
    if body.value.consumedOld != header.value.oldCount || body.value.emittedNew != header.value.newCount {
      return Err(CountMismatch);
    }
    assert Fits(source, p.sourceIndex, Hunk(header.value, decoded.value.0));
    AppendedPart(p.result, source[p.sourceIndex..oldStart], NewSide(decoded.value.0));
    r := Ok(Progress(body.value.index, body.value.sourceIndex, body.value.emitted));
  }

  /** The outer loop, between the file headers and the end of the patch. */
  method ApplyLines(source: seq<Line>, patch: seq<Line>, path: string) returns (r: Result<seq<Line>, PatchError>)
    ensures r.Ok? ==> PatchedLines(source, patch, path) == Some(r.value)
    ensures r.Err? ==> PatchedLines(source, patch, path) == None
    ensures r.Err? ==> PatchFault(source, patch, path) == Some(r.error)
  {
    hide HunkFault, Decode, Splice;
    RefusedExactlyForAFault(source, patch, path);
    if patch == [] || Stripped(patch[0]) != "--- a/" + path || |patch| < 3 {
      return Err(BadOldHeader);
    }
    if Stripped(patch[1]) != "+++ b/" + path {
      return Err(BadNewHeader);
    }
    var p := Progress(2, 0, []);
    var hunks := 0;
    ghost var whole := Remainder(source, 0, patch[2..]);
    ContinuedAtStart(whole);
    while p.index < |patch|
      invariant 2 <= p.index <= |patch| && p.sourceIndex <= |source|
      invariant whole == Continued(hunks, p.result, Remainder(source, p.sourceIndex, patch[p.index..]))
      invariant HunkFault(source, 0, patch[2..]) == HunkFault(source, p.sourceIndex, patch[p.index..])
      decreases |patch| - p.index
    {
      var next := ApplyHunk(source, patch, p);
      if next.Err? {
        return Err(next.error);
      }
      ContinuedTwice(hunks, p.result, next.value.result[|p.result|..],
                     Remainder(source, next.value.sourceIndex, patch[next.value.index..]));
      assert p.result + next.value.result[|p.result|..] == next.value.result;
      p := next.value;
      hunks := hunks + 1;
    }
    assert patch[p.index..] == [];
    NothingLeft(source, p.sourceIndex);
    if hunks != 1 {
      return Err(HunkCount);
    }
    r := Ok(p.result + source[p.sourceIndex..]);
  }

  method ApplySingleFilePatch(c: Codec, original: Bytes, patch: Bytes, path: string) returns (r: Result<Bytes, PatchError>)
    ensures r.Ok? ==> PatchedBytes(c, original, patch, path) == Some(r.value)
    ensures r.Err? ==> PatchedBytes(c, original, patch, path) == None
    ensures r.Err? ==> FileFault(c, original, patch, path) == Some(r.error)
  {
    hide PatchedLines, PatchFault;
    var text, patchText := c.decode(original), c.decode(patch);
    if text.None? || patchText.None? {
      return Err(NotUtf8);
    }
    var lines := ApplyLines(SplitLines(text.value), SplitLines(patchText.value), path);
    if lines.Err? {
      return Err(lines.error);
    }
    return Ok(c.encode(Join(lines.value)));
  }

  /** The outcome of the loop once `hunks` hunks produced `result`. */
  function Continued(hunks: nat, result: seq<Line>, rest: Option<(nat, seq<Line>)>): Option<(nat, seq<Line>)> {
    if rest.None? then None else Some((hunks + rest.value.0, result + rest.value.1))
  }

  lemma ContinuedAtStart(rest: Option<(nat, seq<Line>)>)
    ensures Continued(0, [], rest) == rest
  {
    if rest.Some? {
      assert [] + rest.value.1 == rest.value.1;
    }
  }

  lemma ContinuedTwice(hunks: nat, result: seq<Line>, more: seq<Line>, rest: Option<(nat, seq<Line>)>)
    ensures Continued(hunks, result, Continued(1, more, rest)) == Continued(hunks + 1, result + more, rest)
  {
    if rest.Some? {
      assert result + (more + rest.value.1) == result + more + rest.value.1;
    }
  }

  lemma DecodeStep(lines: seq<Line>)
    requires lines != []
    ensures var header, body := ParseHeader(Stripped(lines[0])), DecodeBody(lines[1..]);
            Decode(lines) ==
            if header.None? || body.None? then None
            else Prefixed(Hunk(header.value, body.value.0), Decode(body.value.1))
  {
    hide ParseHeader, Stripped, DecodeBody;
    DecodeBodyShrinks(lines[1..]);
  }

  lemma RemainderStep(source: seq<Line>, from: nat, patch: seq<Line>, index: nat)
    requires from <= |source| && index < |patch|
    ensures var header, body := ParseHeader(Stripped(patch[index])), DecodeBody(patch[index + 1..]);
            Remainder(source, from, patch[index..]) ==
            if header.None? || body.None? || !Fits(source, from, Hunk(header.value, body.value.0)) then None
            else
              var start := header.value.oldStart - 1;
              Continued(1, source[from..start] + NewSide(body.value.0),
                        Remainder(source, start + header.value.oldCount, body.value.1))
  {
    hide ParseHeader, Stripped, DecodeBody, Decode, Splice, Fits;
    assert patch[index..][1..] == patch[index + 1..];
    DecodeStep(patch[index..]);
    var header, body := ParseHeader(Stripped(patch[index])), DecodeBody(patch[index + 1..]);
    if header.Some? && body.Some? {
      SpliceHunk(source, from, Hunk(header.value, body.value.0), Decode(body.value.1));
    }
  }

  /** `h` in front of the hunks decoded from what follows it. */
  function Prefixed(h: Hunk, rest: Option<seq<Hunk>>): Option<seq<Hunk>> {
    if rest.None? then None else Some([h] + rest.value)
  }

  lemma SpliceHunk(source: seq<Line>, from: nat, h: Hunk, rest: Option<seq<Hunk>>)
    requires from <= |source|
    ensures !Fits(source, from, h) ==> SpliceAll(source, from, Prefixed(h, rest)) == None
    ensures Fits(source, from, h) ==>
              var start := h.header.oldStart - 1;
              SpliceAll(source, from, Prefixed(h, rest)) ==
              Continued(1, source[from..start] + NewSide(h.edits), SpliceAll(source, start + h.header.oldCount, rest))
  {
    if rest.Some? {
      assert ([h] + rest.value)[1..] == rest.value;
    }
  }
}
