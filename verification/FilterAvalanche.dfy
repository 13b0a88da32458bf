/**
 The Filter Avalanche reference over the reals: a masked, clamped gradient walk along the
 predictor axis, wrapped into [0, 1).  The hash draw is a parameter.
 */
module FilterAvalanche {
  import opened Colour
  import opened Wrappers

  const AVALANCHE_MAX_TAPS: nat := 32
  const LANE_AVALANCHE_FIRE: nat := 0x4156_4c01
  const LANE_AVALANCHE_DC: nat := 0x4156_4c02
  const U32_MAX: nat := 0xFFFF_FFFF

  datatype Axis = Sub | Up | Average

  datatype Params = Params(amount: real, run: real, axis: Axis)

  /** `lane_unit(domain, epoch, lane, seed)`. */
  type Draw = (nat, nat, nat, nat) -> real

  /** One frame: row-major pixels, y downward. */
  datatype Frame = Frame(pixels: seq<Rgb>, width: nat, height: nat)

  function StepX(axis: Axis): real {
    match axis case Sub => 1.0 case Up => 0.0 case Average => 0.7071
  }

  function StepY(axis: Axis): real {
    match axis case Sub => 0.0 case Up => 1.0 case Average => 0.7071
  }

  /** The accumulation span in taps. */
  function Span(p: Params): (span: real)
    ensures 2.0 <= span <= 32.0
  {
    var open := 2.0 + Clamped(p.run) * 40.0;
    if open < AVALANCHE_MAX_TAPS as real then open else AVALANCHE_MAX_TAPS as real
  }

  function Epoch(seconds: real): nat {
    if seconds <= 0.0 then 0 else Min((seconds * 3.0).Floor, U32_MAX)
  }

  function LaneOf(axis: Axis, x: nat, y: nat): nat {
    if axis == Sub then y else x
  }

  predicate LaneFires(draw: Draw, seed: nat, lane: nat, epoch: nat, amount: real) {
    draw(LANE_AVALANCHE_FIRE, epoch, lane, seed) < amount * 0.5
  }

  function LaneDc(draw: Draw, seed: nat, lane: nat): real {
    draw(LANE_AVALANCHE_DC, 0, lane, seed) * 2.0 - 1.0
  }

  predicate ValidFrame(f: Frame) {
    f.width > 0 && f.height > 0 && f.width * f.height <= |f.pixels|
  }

  lemma IndexInFrame(x: nat, y: nat, width: nat, height: nat)
    requires x < width && y < height
    ensures y * width + x < width * height
  {
    assert (y + 1) * width <= height * width;
  }

  function PixelAt(f: Frame, x: nat, y: nat): Rgb
    requires ValidFrame(f) && x < f.width && y < f.height
  {
    IndexInFrame(x, y, f.width, f.height);
    f.pixels[y * f.width + x]
  }

  /** A coordinate clamped into the frame and truncated to a texel. */
  function Texel(coordinate: real, extent: nat): (t: nat)
    requires extent > 0
    ensures t < extent
  {
    Min((if coordinate < 0.0 then 0.0 else coordinate).Floor, extent - 1)
  }

  function Sample(f: Frame, fx: real, fy: real): Rgb
    requires ValidFrame(f)
  {
    PixelAt(f, Texel(fx, f.width), Texel(fy, f.height))
  }

  const BLACK: Rgb := Rgb(0.0, 0.0, 0.0)

  function Plus(a: Rgb, b: Rgb): Rgb {
    Rgb(a.red + b.red, a.green + b.green, a.blue + b.blue)
  }

  function Minus(a: Rgb, b: Rgb): Rgb {
    Rgb(a.red - b.red, a.green - b.green, a.blue - b.blue)
  }

  predicate Masked(f: Frame, tx: real, ty: real) {
    tx < 0.0 || ty < 0.0 || tx >= f.width as real || ty >= f.height as real
  }

  /** A coordinate `i` steps back. */
  function Back(coordinate: nat, step: real, i: nat): real {
    coordinate as real - step * i as real
  }

  /** What tap `i` adds at a pixel. */
  function Tap(f: Frame, axis: Axis, x: nat, y: nat, i: nat): Rgb
    requires ValidFrame(f)
  {
    var tx, ty := Back(x, StepX(axis), i), Back(y, StepY(axis), i);
    if Masked(f, tx, ty) then BLACK
    else Minus(Sample(f, tx, ty), Sample(f, tx - StepX(axis), ty - StepY(axis)))
  }

  /** The first `k` taps together. */
  function Walk(f: Frame, axis: Axis, x: nat, y: nat, k: nat): Rgb
    requires ValidFrame(f)
  {
    if k == 0 then BLACK else Plus(Walk(f, axis, x, y, k - 1), Tap(f, axis, x, y, k))
  }

  function Fract(v: real): (r: real)
    ensures 0.0 <= r < 1.0
  {
    v - v.Floor as real
  }

  /** One channel: carrier, accumulated error and DC, wrapped (`rem_euclid(1.0)`). */
  function WrappedChannel(v: real, walk: real, dc: real, amount: real): real {
    Fract(v + walk * amount * 1.6 + dc * amount * 0.25)
  }

  function Wrapped(p: Rgb, walk: Rgb, dc: real, amount: real): Rgb {
    Rgb(WrappedChannel(p.red, walk.red, dc, amount),
        WrappedChannel(p.green, walk.green, dc, amount),
        WrappedChannel(p.blue, walk.blue, dc, amount))
  }

  /** The law at one pixel: unfired lanes keep the carrier. */
  function LawAt(carrier: Rgb, f: Frame, p: Params, draw: Draw, seed: nat, epoch: nat, x: nat, y: nat): Rgb
    requires ValidFrame(f)
  {
    var lane := LaneOf(p.axis, x, y);
    if !LaneFires(draw, seed, lane, epoch, Clamped(p.amount)) then carrier
    else Wrapped(carrier, Walk(f, p.axis, x, y, Span(p).Floor), LaneDc(draw, seed, lane), Clamped(p.amount))
  }

  /** The frame the walk reads: the retained output if it is large enough, else the carrier itself. */
  function History(carrier: seq<Rgb>, previous: Option<seq<Rgb>>, width: nat, height: nat): Frame {
    if previous.Some? && |previous.value| >= width * height then Frame(previous.value, width, height)
    else Frame(carrier, width, height)
  }

  predicate Bypassed(carrier: seq<Rgb>, width: nat, height: nat, p: Params) {
    Clamped(p.amount) == 0.0 || width == 0 || height == 0 || |carrier| < width * height
  }

  // ------------------------------------------------------------------
  // The loops
  // ------------------------------------------------------------------

  /** The tap loop of one pixel, with its early stop and its masks. */
  method WalkTaps(f: Frame, axis: Axis, span: real, x: nat, y: nat) returns (acc: Rgb)
    requires ValidFrame(f) && 0.0 <= span <= 32.0
    ensures acc == Walk(f, axis, x, y, span.Floor)
  {
    hide Back, Sample, StepX, StepY, Plus, Minus;
    acc := BLACK;
    var i := 1;
    while i <= AVALANCHE_MAX_TAPS
      invariant 1 <= i <= AVALANCHE_MAX_TAPS + 1
      invariant (i - 1) as real <= span
      invariant acc == Walk(f, axis, x, y, i - 1)
    {
      var fi := i as real;
      if fi > span {
        break;
      }
      var tx, ty := Back(x, StepX(axis), i), Back(y, StepY(axis), i);
      AddingBlack(acc);
      if !(tx < 0.0 || ty < 0.0 || tx >= f.width as real || ty >= f.height as real) {
        var near, far := Sample(f, tx, ty), Sample(f, tx - StepX(axis), ty - StepY(axis));
        acc := Plus(acc, Minus(near, far));
      }
      i := i + 1;
    }
    assert span.Floor == i - 1;
  }

  lemma AddingBlack(p: Rgb)
    ensures Plus(p, BLACK) == p
  {
  }

  /** The index of the first pixel of a row. */
  function RowStart(y: nat, width: nat): nat {
    y * width
  }

  /** The pixel of a row-major index. */
  lemma RowMajor(x: nat, y: nat, width: nat)
    requires x < width
    ensures (y * width + x) / width == y && (y * width + x) % width == x
  {
    DivisionIsUnique(y * width + x, width, y, x);
    QuotientIsUnique(y * width + x, width, y, x);
  }

  /** The body of the double loop: one pixel, in place. */
  method WritePixel(out: array<Rgb>, ghost carrier: seq<Rgb>, f: Frame, p: Params, draw: Draw, seed: nat, epoch: nat,
                    x: nat, y: nat)
    requires ValidFrame(f) && x < f.width && y < f.height && RowStart(y, f.width) + x < out.Length
    requires Written(out[..], carrier, f, p, draw, seed, epoch, RowStart(y, f.width) + x)
    modifies out
    ensures Written(out[..], carrier, f, p, draw, seed, epoch, RowStart(y, f.width) + x + 1)
  {
    hide Written, LawAt, Span, LaneFires, Wrapped;
    RowMajor(x, y, f.width);
    ghost var k := y * f.width + x;
    NextWritten(out[..], carrier, f, p, draw, seed, epoch, k);
    LawIs(carrier[k], f, p, draw, seed, epoch, x, y);
    var lane := LaneOf(p.axis, x, y);
    if LaneFires(draw, seed, lane, epoch, Clamped(p.amount)) {
      var acc := WalkTaps(f, p.axis, Span(p), x, y);
      var dc := LaneDc(draw, seed, lane);
      ghost var before := out[..];
      out[y * f.width + x] := Wrapped(out[y * f.width + x], acc, dc, Clamped(p.amount));
      assert out[..] == before[k := LawAt(carrier[k], f, p, draw, seed, epoch, x, y)];
    } else {
      assert out[..][k := carrier[k]] == out[..];
    }
  }

  method AvalancheReference(carrier: seq<Rgb>, previous: Option<seq<Rgb>>, width: nat, height: nat, p: Params,
                            draw: Draw, seed: nat, seconds: real) returns (out: array<Rgb>)
    ensures fresh(out) && out.Length == |carrier|
    ensures Bypassed(carrier, width, height, p) ==> out[..] == carrier
    ensures !Bypassed(carrier, width, height, p) ==>
              && (forall k :: 0 <= k < width * height ==>
                    out[k] == LawAt(carrier[k], History(carrier, previous, width, height), p, draw, seed, Epoch(seconds),
                                    k % width, k / width))
              && (forall k :: width * height <= k < |carrier| ==> out[k] == carrier[k])
  {
    hide Written, LawAt;
    out := new Rgb[|carrier|](i requires 0 <= i < |carrier| => carrier[i]);
    assert out[..] == carrier;
    if Clamped(p.amount) == 0.0 || width == 0 || height == 0 || |carrier| < width * height {
      return;
    }
    var f := History(carrier, previous, width, height);
    assert ValidFrame(f) && f.width == width && f.height == height && width * height <= |carrier|;
    assert !Bypassed(carrier, width, height, p);
    hide ValidFrame, History, Epoch, RowStart, Bypassed, Clamped;
    var epoch := Epoch(seconds);
    RowStarts(height, width);
    NothingWritten(carrier, f, p, draw, seed, epoch);
    var y := 0;
    while y < height
      invariant 0 <= y <= height && out.Length == |carrier|
      invariant Written(out[..], carrier, f, p, draw, seed, epoch, RowStart(y, width))
    {
      RowWithin(y, width, height);
      var x := 0;
      while x < width
        invariant 0 <= x <= width && out.Length == |carrier|
        invariant Written(out[..], carrier, f, p, draw, seed, epoch, RowStart(y, width) + x)
      {
        WritePixel(out, carrier, f, p, draw, seed, epoch, x, y);
        x := x + 1;
      }
      y := y + 1;
    }
    AllWritten(out[..], carrier, f, p, draw, seed, epoch, RowStart(height, width), width);
  }

  lemma RowStarts(height: nat, width: nat)
    ensures RowStart(0, width) == 0 && RowStart(height, width) == width * height
  {
  }

  /** Row `y` ends where the next one starts, within the frame. */
  lemma RowWithin(y: nat, width: nat, height: nat)
    requires y < height
    ensures RowStart(y + 1, width) == RowStart(y, width) + width <= width * height
  {
    hide RowStart;
    NextRowStart(y, width);
    RowStartsGrow(y + 1, height, width);
    RowStarts(height, width);
  }

  lemma NextRowStart(y: nat, width: nat)
    ensures RowStart(y + 1, width) == RowStart(y, width) + width
  {
  }

  lemma {:induction false} RowStartsGrow(y: nat, z: nat, width: nat)
    requires y <= z
    ensures RowStart(y, width) <= RowStart(z, width)
    decreases z
  {
    hide RowStart;
    if y < z {
      RowStartsGrow(y, z - 1, width);
      NextRowStart(z - 1, width);
    }
  }

  /** The first `count` pixels hold the law, the others the carrier. */
  predicate Written(out: seq<Rgb>, carrier: seq<Rgb>, f: Frame, p: Params, draw: Draw, seed: nat, epoch: nat, count: nat)
    requires ValidFrame(f)
  {
    && |out| == |carrier|
    && (forall k :: 0 <= k < count && k < |out| ==> out[k] == LawAt(carrier[k], f, p, draw, seed, epoch, k % f.width, k / f.width))
    && (forall k :: count <= k < |out| ==> out[k] == carrier[k])
  }

  lemma NothingWritten(carrier: seq<Rgb>, f: Frame, p: Params, draw: Draw, seed: nat, epoch: nat)
    requires ValidFrame(f)
    ensures Written(carrier, carrier, f, p, draw, seed, epoch, 0)
  {
  }

  lemma NextWritten(out: seq<Rgb>, carrier: seq<Rgb>, f: Frame, p: Params, draw: Draw, seed: nat, epoch: nat, k: nat)
    requires ValidFrame(f) && Written(out, carrier, f, p, draw, seed, epoch, k) && k < |out|
    ensures |out| == |carrier| && out[k] == carrier[k]
    ensures Written(out[k := LawAt(carrier[k], f, p, draw, seed, epoch, k % f.width, k / f.width)],
                    carrier, f, p, draw, seed, epoch, k + 1)
  {
    hide LawAt;
  }

  lemma AllWritten(out: seq<Rgb>, carrier: seq<Rgb>, f: Frame, p: Params, draw: Draw, seed: nat, epoch: nat, count: nat, width: nat)
    requires ValidFrame(f) && Written(out, carrier, f, p, draw, seed, epoch, count) && count <= |out| && width == f.width
    ensures forall k :: 0 <= k < count ==>
              out[k] == LawAt(carrier[k], f, p, draw, seed, epoch, k % width, k / width)
    ensures forall k :: count <= k < |carrier| ==> out[k] == carrier[k]
  {
    hide LawAt;
  }

  lemma LawIs(carrier: Rgb, f: Frame, p: Params, draw: Draw, seed: nat, epoch: nat, x: nat, y: nat)
    requires ValidFrame(f)
    ensures var lane, amount := LaneOf(p.axis, x, y), Clamped(p.amount);
            LawAt(carrier, f, p, draw, seed, epoch, x, y) ==
            if !LaneFires(draw, seed, lane, epoch, amount) then carrier
            else Wrapped(carrier, Walk(f, p.axis, x, y, Span(p).Floor), LaneDc(draw, seed, lane), amount)
  {
  }
}
