/**
 What the avalanche walk comes to along the two axis-aligned predictors: the sum of masked
 gradients telescopes to the difference of two history pixels.
 */
module AvalancheLaws {
  import opened Colour
  import opened FilterAvalanche
  import opened Wrappers

  /** History pixel `x` of row `y`, with columns left of the frame clamped to its edge. */
  function InRow(f: Frame, x: int, y: nat): Rgb
    requires ValidFrame(f) && x < f.width && y < f.height
  {
    PixelAt(f, Max(x, 0), y)
  }

  function InColumn(f: Frame, x: nat, y: int): Rgb
    requires ValidFrame(f) && x < f.width && y < f.height
  {
    PixelAt(f, x, Max(y, 0))
  }

  /** The telescoped walk of `k` taps. */
  function Telescoped(f: Frame, axis: Axis, x: nat, y: nat, k: nat): Rgb
    requires ValidFrame(f) && x < f.width && y < f.height
  {
    match axis
    case Sub => if x == 0 then BLACK else Minus(InRow(f, x - 1, y), InRow(f, x - 1 - k, y))
    case Up => if y == 0 then BLACK else Minus(InColumn(f, x, y - 1), InColumn(f, x, y - 1 - k))
    case Average => BLACK
  }

  lemma TexelOfWhole(t: int, extent: nat)
    requires extent > 0 && t < extent
    ensures Texel(t as real, extent) == Max(t, 0)
  {
  }

  lemma SubTap(f: Frame, x: nat, y: nat, i: nat)
    requires ValidFrame(f) && x < f.width && y < f.height && i > 0
    ensures Tap(f, Sub, x, y, i) == if x < i then BLACK else Minus(InRow(f, x - i, y), InRow(f, x - i - 1, y))
  {
    assert Back(x, 1.0, i) == (x - i) as real;
    assert Back(y, 0.0, i) == y as real;
    TexelOfWhole(x - i, f.width);
    TexelOfWhole(x - i - 1, f.width);
    TexelOfWhole(y, f.height);
    assert Back(x, 1.0, i) - 1.0 == (x - i - 1) as real;
    assert Back(y, 0.0, i) - 0.0 == y as real;
  }

  lemma UpTap(f: Frame, x: nat, y: nat, i: nat)
    requires ValidFrame(f) && x < f.width && y < f.height && i > 0
    ensures Tap(f, Up, x, y, i) == if y < i then BLACK else Minus(InColumn(f, x, y - i), InColumn(f, x, y - i - 1))
  {
    assert Back(y, 1.0, i) == (y - i) as real;
    assert Back(x, 0.0, i) == x as real;
    TexelOfWhole(y - i, f.height);
    TexelOfWhole(y - i - 1, f.height);
    TexelOfWhole(x, f.width);
    assert Back(y, 1.0, i) - 1.0 == (y - i - 1) as real;
    assert Back(x, 0.0, i) - 0.0 == x as real;
  }

  /**
   Telescoping: for SUB and UP the masked, clamped walk of any number of taps is one
   difference of two history pixels of the same lane, and nothing at the lane's start.
   */
  lemma {:induction false} WalkTelescopes(f: Frame, axis: Axis, x: nat, y: nat, k: nat)
    requires ValidFrame(f) && x < f.width && y < f.height && axis != Average
    ensures Walk(f, axis, x, y, k) == Telescoped(f, axis, x, y, k)
  {
    hide Tap, PixelAt;
    if k > 0 {
      WalkTelescopes(f, axis, x, y, k - 1);
      if axis == Sub {
        SubTap(f, x, y, k);
      } else {
        UpTap(f, x, y, k);
      }
    }
  }

  /** Only the current lane of the history can matter to a pixel. */
  predicate SameLane(f: Frame, g: Frame, axis: Axis, x: nat, y: nat)
    requires ValidFrame(f) && ValidFrame(g) && f.width == g.width && f.height == g.height
    requires x < f.width && y < f.height
  {
    if axis == Sub then forall u: nat :: u < f.width ==> PixelAt(f, u, y) == PixelAt(g, u, y)
    else forall v: nat :: v < f.height ==> PixelAt(f, x, v) == PixelAt(g, x, v)
  }

  predicate InUnitCube(p: Rgb) {
    0.0 <= p.red < 1.0 && 0.0 <= p.green < 1.0 && 0.0 <= p.blue < 1.0
  }

  lemma WrappingLandsInTheUnitCube(p: Rgb, walk: Rgb, dc: real, amount: real)
    ensures InUnitCube(Wrapped(p, walk, dc, amount))
  {
  }

  /**
   The whole law of a pixel without the walk: on a firing lane the carrier plus the
   telescoped error plus the lane's DC, wrapped into [0, 1); elsewhere the carrier.
   */
  lemma PixelLawInClosedForm(carrier: Rgb, f: Frame, p: Params, draw: Draw, seed: nat, epoch: nat, x: nat, y: nat)
    requires ValidFrame(f) && x < f.width && y < f.height && p.axis != Average
    ensures var lane, amount := if p.axis == Sub then y else x, Clamped(p.amount);
            var r := LawAt(carrier, f, p, draw, seed, epoch, x, y);
            if draw(LANE_AVALANCHE_FIRE, epoch, lane, seed) < amount * 0.5
            then r == Wrapped(carrier, Telescoped(f, p.axis, x, y, Span(p).Floor), LaneDc(draw, seed, lane), amount)
                 && InUnitCube(r)
            else r == carrier
  {
    hide Walk, Telescoped, Span, Wrapped, LawAt, InUnitCube, LaneDc;
    var k := Span(p).Floor;
    var lane := LaneOf(p.axis, x, y);
    WalkTelescopes(f, p.axis, x, y, k);
    LawIs(carrier, f, p, draw, seed, epoch, x, y);
    WrappingLandsInTheUnitCube(carrier, Walk(f, p.axis, x, y, k), LaneDc(draw, seed, lane), Clamped(p.amount));
  }

  /** Corruption never crosses lanes: histories that agree on a pixel's lane give it the same value. */
  lemma CorruptionStaysInItsLane(carrier: Rgb, f: Frame, g: Frame, p: Params, draw: Draw, seed: nat, epoch: nat, x: nat, y: nat)
    requires ValidFrame(f) && ValidFrame(g) && f.width == g.width && f.height == g.height
    requires x < f.width && y < f.height && p.axis != Average
    requires SameLane(f, g, p.axis, x, y)
    ensures LawAt(carrier, f, p, draw, seed, epoch, x, y) == LawAt(carrier, g, p, draw, seed, epoch, x, y)
  {
    hide Walk, PixelAt;
    WalkTelescopes(f, p.axis, x, y, Span(p).Floor);
    WalkTelescopes(g, p.axis, x, y, Span(p).Floor);
  }

  /** A lane whose history is flat behind the pixel accumulates no error, whatever the span. */
  lemma FlatLanesCarryNoError(f: Frame, axis: Axis, x: nat, y: nat, k: nat)
    requires ValidFrame(f) && x < f.width && y < f.height && axis != Average
    requires axis == Sub ==> forall u: nat :: u < x ==> PixelAt(f, u, y) == PixelAt(f, 0, y)
    requires axis == Up ==> forall v: nat :: v < y ==> PixelAt(f, x, v) == PixelAt(f, x, 0)
    ensures Walk(f, axis, x, y, k) == BLACK
  {
    hide Walk, PixelAt;
    WalkTelescopes(f, axis, x, y, k);
  }
}
