/**
 The Filter Avalanche law in numbers: which pixels change, and what every channel of a changed
 pixel is, from the controls, the draws and the history alone.
 */
module AvalancheNumbers {
  import opened AvalancheLaws
  import opened Colour
  import opened FilterAvalanche
  import opened Wrappers

  /** A control as it takes effect: the nearest value from 0 to 1. */
  function Control(value: real): real {
    if value <= 0.0 then 0.0 else if value >= 1.0 then 1.0 else value
  }

  lemma ControlIs(value: real)
    ensures Clamped(value) == Control(value)
  {
  }

  /** The number of taps: the whole part of 2 + 40 run, and 32 at most. */
  lemma TapsInNumbers(p: Params)
    ensures var taps := Span(p).Floor;
            && (taps as real <= 2.0 + 40.0 * Control(p.run) < taps as real + 1.0
                || (taps == 32 && 2.0 + 40.0 * Control(p.run) >= 32.0))
            && 2 <= taps <= 32
  {
  }

  /** Three epochs a second from time 0 on, up to the widest 32-bit number. */
  lemma EpochInNumbers(seconds: real)
    ensures seconds <= 0.0 ==> Epoch(seconds) == 0
    ensures seconds > 0.0 ==>
              || (Epoch(seconds) as real <= 3.0 * seconds < Epoch(seconds) as real + 1.0)
              || (Epoch(seconds) == 0xFFFF_FFFF && 3.0 * seconds >= 4294967295.0)
  {
  }

  /** When the frame passes through untouched. */
  lemma BypassInNumbers(carrier: seq<Rgb>, width: nat, height: nat, p: Params)
    ensures Bypassed(carrier, width, height, p) <==>
            p.amount <= 0.0 || width == 0 || height == 0 || |carrier| < width * height
  {
  }

  /** The history is the retained output when it is there and large enough, and the carrier otherwise. */
  lemma HistoryIs(carrier: seq<Rgb>, previous: Option<seq<Rgb>>, width: nat, height: nat)
    requires width > 0 && height > 0 && width * height <= |carrier|
    ensures var f := History(carrier, previous, width, height);
            && ValidFrame(f) && f.width == width && f.height == height
            && f.pixels == match previous
                           case Some(retained) => if |retained| < width * height then carrier else retained
                           case None => carrier
  {
  }

  // ------------------------------------------------------------------
  // One pixel
  // ------------------------------------------------------------------

  lemma ChannelOfWrapped(q: Rgb, walk: Rgb, dc: real, amount: real, c: Channel)
    ensures Component(Wrapped(q, walk, dc, amount), c) == WrappedChannel(Component(q, c), Component(walk, c), dc, amount)
  {
    hide WrappedChannel;
  }

  lemma FractInNumbers(v: real) returns (k: int)
    ensures 0.0 <= Fract(v) < 1.0 && v - Fract(v) == k as real
  {
    k := v.Floor;
  }

  lemma Reordered(walk: real, dc: real, amount: real)
    ensures walk * amount * 1.6 == 1.6 * amount * walk && dc * amount * 0.25 == 0.25 * amount * dc
  {
  }

  /** A wrapped channel lies in [0, 1) and a whole number away from what was wrapped. */
  lemma WrappedInNumbers(q: Rgb, walk: Rgb, dc: real, amount: real, c: Channel) returns (k: int)
    ensures var r := Component(Wrapped(q, walk, dc, amount), c);
            && 0.0 <= r < 1.0
            && Component(q, c) + 1.6 * amount * Component(walk, c) + 0.25 * amount * dc - r == k as real
  {
    hide Wrapped, WrappedChannel;
    ChannelOfWrapped(q, walk, dc, amount, c);
    k := WrappedValue(Component(q, c), Component(walk, c), dc, amount);
  }

  lemma WrappedValue(v: real, walk: real, dc: real, amount: real) returns (k: int)
    ensures var r := WrappedChannel(v, walk, dc, amount);
            0.0 <= r < 1.0 && v + 1.6 * amount * walk + 0.25 * amount * dc - r == k as real
  {
    Reordered(walk, dc, amount);
    k := FractInNumbers(v + walk * amount * 1.6 + dc * amount * 0.25);
  }

  /** The lane of a pixel: its row along SUB, its column otherwise. */
  function Lane(axis: Axis, x: nat, y: nat): nat {
    match axis case Sub => y case Up => x case Average => x
  }

  /**
   Every channel of every pixel: on a lane whose draw is at or above half the amount, the
   carrier; on the others, between 0 and 1 and a whole number away from carrier + 1.6 amount walk
   + 0.25 amount DC, the DC being twice the lane's own draw less one.
   */
  lemma PixelInNumbers(carrier: Rgb, f: Frame, p: Params, draw: Draw, seed: nat, epoch: nat, x: nat, y: nat, c: Channel)
    returns (k: int)
    requires ValidFrame(f) && x < f.width && y < f.height
    ensures var lane, amount := Lane(p.axis, x, y), Control(p.amount);
            var r := Component(LawAt(carrier, f, p, draw, seed, epoch, x, y), c);
            if draw(0x4156_4c01, epoch, lane, seed) < amount / 2.0 then
              var walk := Component(Walk(f, p.axis, x, y, Span(p).Floor), c);
              var dc := 2.0 * draw(0x4156_4c02, 0, lane, seed) - 1.0;
              && 0.0 <= r < 1.0
              && Component(carrier, c) + 1.6 * amount * walk + 0.25 * amount * dc - r == k as real
            else LawAt(carrier, f, p, draw, seed, epoch, x, y) == carrier
  {
    hide Walk, Span, Wrapped, LawAt, Clamped;
    ControlIs(p.amount);
    LawIs(carrier, f, p, draw, seed, epoch, x, y);
    assert LaneOf(p.axis, x, y) == Lane(p.axis, x, y);
    k := WrappedInNumbers(carrier, Walk(f, p.axis, x, y, Span(p).Floor), LaneDc(draw, seed, Lane(p.axis, x, y)), Clamped(p.amount), c);
  }

  /** A pixel of a row-major frame. */
  function At(f: Frame, x: int, y: int): Rgb
    requires ValidFrame(f) && 0 <= x < f.width && 0 <= y < f.height
  {
    IndexInFrame(x, y, f.width, f.height);
    f.pixels[y * f.width + x]
  }

  /**
   The walk along the two axis-aligned predictors: nothing at the start of a lane, and elsewhere
   the previous pixel of the lane less the one as many further back as there are taps, or the
   first of the lane.
   */
  lemma WalkInNumbers(f: Frame, axis: Axis, x: nat, y: nat, taps: nat, c: Channel)
    requires ValidFrame(f) && x < f.width && y < f.height && axis != Average
    ensures axis == Sub ==>
              Component(Walk(f, axis, x, y, taps), c) ==
              if x == 0 then 0.0
              else Component(At(f, x - 1, y), c) - Component(At(f, if x - 1 < taps then 0 else x - 1 - taps, y), c)
    ensures axis == Up ==>
              Component(Walk(f, axis, x, y, taps), c) ==
              if y == 0 then 0.0
              else Component(At(f, x, y - 1), c) - Component(At(f, x, if y - 1 < taps then 0 else y - 1 - taps), c)
  {
    hide Walk;
    WalkTelescopes(f, axis, x, y, taps);
  }

  /**
   The walk along the diagonal: tap `i` lies 0.7071 i back on both axes, counts only while that
   is inside the frame, and adds the pixel there less the pixel one such step further.
   */
  lemma DiagonalTapInNumbers(f: Frame, x: nat, y: nat, i: nat, c: Channel)
    requires ValidFrame(f) && x < f.width && y < f.height && i > 0
    ensures var dx, dy := x as real - 0.7071 * i as real, y as real - 0.7071 * i as real;
            Component(Tap(f, Average, x, y, i), c) ==
            if dx < 0.0 || dy < 0.0 then 0.0
            else
              Component(At(f, dx.Floor, dy.Floor), c)
              - Component(At(f, if dx < 0.7071 then 0 else (dx - 0.7071).Floor,
                                if dy < 0.7071 then 0 else (dy - 0.7071).Floor), c)
  {
    var dx, dy := x as real - 0.7071 * i as real, y as real - 0.7071 * i as real;
    assert Back(x, StepX(Average), i) == dx && Back(y, StepY(Average), i) == dy;
    if dx >= 0.0 && dy >= 0.0 {
      TexelsInside(dx, x, f.width);
      TexelsInside(dy, y, f.height);
    }
  }

  lemma TexelsInside(d: real, x: nat, extent: nat)
    requires x < extent && 0.0 <= d <= x as real
    ensures Texel(d, extent) == d.Floor < extent && d < extent as real
    ensures Texel(d - 0.7071, extent) == if d < 0.7071 then 0 else (d - 0.7071).Floor
  {
  }

  /** The walk adds its taps up. */
  lemma WalkAddsTaps(f: Frame, axis: Axis, x: nat, y: nat, k: nat, c: Channel)
    requires ValidFrame(f)
    ensures Component(Walk(f, axis, x, y, 0), c) == 0.0
    ensures Component(Walk(f, axis, x, y, k + 1), c) ==
            Component(Walk(f, axis, x, y, k), c) + Component(Tap(f, axis, x, y, k + 1), c)
  {
    hide Tap;
  }
}
