/** The `@@ -a,b +c,d @@` headers of a unified patch: reading and writing them. */
module HunkHeader {
  import opened Wrappers

  datatype Header = Header(oldStart: nat, oldCount: nat, newStart: nat, newCount: nat)

  predicate IsDigit(c: char) {
    '0' <= c <= '9'
  }

  function DigitValue(c: char): nat
    requires IsDigit(c)
  {
    c as int - '0' as int
  }

  /** Length of the longest prefix of digits. */
  function DigitSpan(s: string): (n: nat)
    ensures n <= |s| && (forall i :: 0 <= i < n ==> IsDigit(s[i])) && (n < |s| ==> !IsDigit(s[n]))
  {
    if s == [] || !IsDigit(s[0]) then 0 else 1 + DigitSpan(s[1..])
  }

  function NumberValue(digits: string): nat
    requires forall i :: 0 <= i < |digits| ==> IsDigit(digits[i])
  {
    if digits == [] then 0
    else NumberValue(digits[..|digits| - 1]) * 10 + DigitValue(digits[|digits| - 1])
  }

  /** `(\d+)` at the front of `s`: its value and what follows. */
  function TakeNumber(s: string): Option<(nat, string)> {
    var n := DigitSpan(s);
    if n == 0 then None else Some((NumberValue(s[..n]), s[n..]))
  }

  /** `(?:,(\d+))?` at the front of `s`; an absent count reads as one. */
  function TakeCount(s: string): (nat, string) {
    if s != [] && s[0] == ',' && TakeNumber(s[1..]).Some? then TakeNumber(s[1..]).value else (1, s)
  }

  function TakeLiteral(s: string, literal: string): Option<string> {
    if literal <= s then Some(s[|literal|..]) else None
  }

  function ParseRange(s: string, opening: string): Option<((nat, nat), string)> {
    match TakeLiteral(s, opening)
    case None => None
    case Some(afterOpening) =>
      match TakeNumber(afterOpening)
      case None => None
      case Some((start, afterStart)) =>
        var (count, rest) := TakeCount(afterStart);
        Some(((start, count), rest))
  }

  /** The header pattern, anchored at the front only. */
  function ParseHeader(s: string): Option<Header> {
    match ParseRange(s, "@@ -")
    case None => None
    case Some((before, afterOld)) =>
      match ParseRange(afterOld, " +")
      case None => None
      case Some((after, afterNew)) =>
        if TakeLiteral(afterNew, " @@").None? then None else Some(Header(before.0, before.1, after.0, after.1))
  }

  function DigitChar(d: nat): (c: char)
    requires d < 10
    ensures IsDigit(c) && DigitValue(c) == d
  {
    "0123456789"[d]
  }

  function Decimal(n: nat): (s: string)
    ensures s != [] && forall i :: 0 <= i < |s| ==> IsDigit(s[i])
  {
    if n < 10 then [DigitChar(n)] else Decimal(n / 10) + [DigitChar(n % 10)]
  }

  function RenderRange(start: nat, count: nat): string {
    Decimal(start) + "," + Decimal(count)
  }

  function RenderHeader(h: Header): string {
    "@@ -" + RenderRange(h.oldStart, h.oldCount) + (" +" + RenderRange(h.newStart, h.newCount) + " @@")
  }

  lemma {:induction false} DecimalHasItsValue(n: nat)
    ensures NumberValue(Decimal(n)) == n
  {
    if n < 10 {
      assert [DigitChar(n)][..0] == [];
    } else {
      DecimalHasItsValue(n / 10);
      assert Decimal(n)[..|Decimal(n)| - 1] == Decimal(n / 10);
    }
  }

  lemma {:induction false} DigitSpanStops(digits: string, rest: string)
    requires forall i :: 0 <= i < |digits| ==> IsDigit(digits[i])
    requires rest == [] || !IsDigit(rest[0])
    ensures DigitSpan(digits + rest) == |digits|
  {
    if digits == [] {
      assert digits + rest == rest;
    } else {
      assert (digits + rest)[1..] == digits[1..] + rest;
      DigitSpanStops(digits[1..], rest);
    }
  }

  lemma LiteralRoundTrip(literal: string, rest: string)
    ensures TakeLiteral(literal + rest, literal) == Some(rest)
  {
    assert (literal + rest)[|literal|..] == rest;
  }

  // ------------------------------------------------------------------
  // The grammar of headers
  // ------------------------------------------------------------------

  predicate Digits(s: string) {
    s != [] && forall i :: 0 <= i < |s| ==> '0' <= s[i] <= '9'
  }

  /** An optional count as it is written, and the number it stands for: one if it is omitted. */
  function CountText(count: Option<string>): string {
    if count.None? then "" else "," + count.value
  }

  predicate CountIs(count: Option<string>, n: nat) {
    if count.None? then n == 1 else Digits(count.value) && NumberValue(count.value) == n
  }

  /** The parts of a header line: two starts, two optional counts, and whatever follows the marker. */
  datatype Spelling = Spelling(
    oldStart: string, oldCount: Option<string>, newStart: string, newCount: Option<string>, heading: string)

  /** `@@ -a,b +c,d @@` and any text, either count being optional. */
  function Spelled(p: Spelling): string {
    "@@ -" + (p.oldStart + (CountText(p.oldCount) + (" +" + (p.newStart + (CountText(p.newCount) + (" @@" + p.heading))))))
  }

  predicate Spells(p: Spelling, h: Header) {
    && Digits(p.oldStart) && NumberValue(p.oldStart) == h.oldStart && CountIs(p.oldCount, h.oldCount)
    && Digits(p.newStart) && NumberValue(p.newStart) == h.newStart && CountIs(p.newCount, h.newCount)
  }

  /** A number in decimal, digit by digit. */
  lemma NumbersAreDecimal(digits: string, last: char)
    requires forall i :: 0 <= i < |digits| ==> IsDigit(digits[i])
    requires IsDigit(last)
    ensures NumberValue([]) == 0
    ensures '0' <= last <= '9'
    ensures NumberValue(digits + [last]) == 10 * NumberValue(digits) + (last as int - '0' as int)
  {
    assert (digits + [last])[..|digits|] == digits;
  }

  lemma TakenNumber(digits: string, rest: string)
    requires Digits(digits) && (rest == [] || !IsDigit(rest[0]))
    ensures TakeNumber(digits + rest) == Some((NumberValue(digits), rest))
  {
    DigitSpanStops(digits, rest);
    assert (digits + rest)[..|digits|] == digits && (digits + rest)[|digits|..] == rest;
  }

  lemma NumberTaken(s: string) returns (digits: string)
    requires TakeNumber(s).Some?
    ensures var (n, rest) := TakeNumber(s).value;
            Digits(digits) && NumberValue(digits) == n && s == digits + rest
  {
    digits := s[..DigitSpan(s)];
  }

  lemma TakenCount(count: Option<string>, n: nat, rest: string)
    requires CountIs(count, n) && rest != [] && rest[0] == ' '
    ensures TakeCount(CountText(count) + rest) == (n, rest)
  {
    hide NumberValue, TakeNumber;
    if count.Some? {
      assert (CountText(count) + rest)[1..] == count.value + rest;
      TakenNumber(count.value, rest);
    } else {
      assert CountText(count) + rest == rest;
    }
  }

  lemma CountTaken(s: string) returns (count: Option<string>)
    ensures var (n, rest) := TakeCount(s);
            CountIs(count, n) && s == CountText(count) + rest
  {
    if s != [] && s[0] == ',' && TakeNumber(s[1..]).Some? {
      var digits := NumberTaken(s[1..]);
      count := Some(digits);
      assert s == [','] + s[1..];
    } else {
      count := None;
    }
  }

  lemma TakenRange(opening: string, start: string, count: Option<string>, n: nat, rest: string)
    requires Digits(start) && CountIs(count, n) && rest != [] && rest[0] == ' '
    ensures ParseRange(opening + (start + (CountText(count) + rest)), opening) == Some(((NumberValue(start), n), rest))
  {
    hide NumberValue, TakeNumber, TakeCount, TakeLiteral;
    var tail := CountText(count) + rest;
    LiteralRoundTrip(opening, start + tail);
    assert tail != [] && !IsDigit(tail[0]);
    TakenNumber(start, tail);
    TakenCount(count, n, rest);
  }

  lemma RangeTaken(s: string, opening: string) returns (start: string, count: Option<string>)
    requires ParseRange(s, opening).Some?
    ensures var (numbers, rest) := ParseRange(s, opening).value;
            && Digits(start) && NumberValue(start) == numbers.0 && CountIs(count, numbers.1)
            && s == opening + (start + (CountText(count) + rest))
  {
    hide NumberValue, TakeNumber, TakeCount;
    var afterOpening := s[|opening|..];
    start := NumberTaken(afterOpening);
    count := CountTaken(TakeNumber(afterOpening).value.1);
    assert s == opening + afterOpening;
  }

  lemma SpelledReads(p: Spelling, h: Header)
    requires Spells(p, h)
    ensures ParseHeader(Spelled(p)) == Some(h)
  {
    hide ParseRange, NumberValue;
    var closing := " @@" + p.heading;
    var second := " +" + (p.newStart + (CountText(p.newCount) + closing));
    TakenRange("@@ -", p.oldStart, p.oldCount, h.oldCount, second);
    TakenRange(" +", p.newStart, p.newCount, h.newCount, closing);
  }

  lemma ReadIsSpelled(s: string, h: Header) returns (p: Spelling)
    requires ParseHeader(s) == Some(h)
    ensures s == Spelled(p) && Spells(p, h)
  {
    hide ParseRange, NumberValue;
    var (before, afterOld) := ParseRange(s, "@@ -").value;
    var oldStart, oldCount := RangeTaken(s, "@@ -");
    var (after, afterNew) := ParseRange(afterOld, " +").value;
    var newStart, newCount := RangeTaken(afterOld, " +");
    assert afterNew == " @@" + afterNew[3..];
    p := Spelling(oldStart, oldCount, newStart, newCount, afterNew[3..]);
  }

  /** A line reads as four numbers if and only if it spells them; what follows the marker is free. */
  lemma HeaderReadsExactly(s: string, h: Header)
    ensures ParseHeader(s) == Some(h) <==> exists p: Spelling :: s == Spelled(p) && Spells(p, h)
  {
    hide ParseHeader, Spelled, Spells;
    if ParseHeader(s) == Some(h) {
      var p := ReadIsSpelled(s, h);
    }
    forall p: Spelling | s == Spelled(p) && Spells(p, h) ensures ParseHeader(s) == Some(h) {
      SpelledReads(p, h);
    }
  }

  /** Reading back a written header gives the header, for every four numbers and every heading behind it. */
  lemma HeaderRoundTrip(h: Header, heading: string := "")
    ensures ParseHeader(RenderHeader(h) + heading) == Some(h)
  {
    hide ParseHeader, NumberValue, Decimal;
    var p := Spelling(Decimal(h.oldStart), Some(Decimal(h.oldCount)), Decimal(h.newStart), Some(Decimal(h.newCount)), heading);
    DecimalHasItsValue(h.oldStart);
    DecimalHasItsValue(h.oldCount);
    DecimalHasItsValue(h.newStart);
    DecimalHasItsValue(h.newCount);
    RenderedIsSpelled(h, heading);
    SpelledReads(p, h);
  }

  lemma RenderedIsSpelled(h: Header, heading: string)
    ensures var p := Spelling(Decimal(h.oldStart), Some(Decimal(h.oldCount)), Decimal(h.newStart), Some(Decimal(h.newCount)), heading);
            RenderHeader(h) + heading == Spelled(p)
  {
    hide Decimal;
  }

  /** Every line the pattern accepts is one the hunk loop stops at. */
  lemma HeadersOpenWithMarker(s: string)
    requires ParseHeader(s).Some?
    ensures "@@ " <= s
  {
    assert "@@ -"[..3] == "@@ ";
    assert s[..4] == "@@ -";
  }
}
