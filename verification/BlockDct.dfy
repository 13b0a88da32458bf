/**
 The Block DCT line law over the reals: per block, forward transform, chroma crush and
 quantisation of the coefficients, inverse transform.  The transform of an n-sample block is
 the matrix `basis(n)`, scale and cosine together.
 */
module BlockDct {
  import opened Colour
  import opened Orthonormal

  const DCT_MIN_BLOCK: int := 4
  const DCT_MAX_BLOCK: int := 16
  const DCT_STEP_FLOOR: real := 0.004

  datatype Params = Params(quantize: real, hfPenalty: real, chromaCrush: real, block: real)

  type Bases = nat -> Matrix

  function Sanitized(p: Params): Params {
    Params(Clamped(p.quantize), Clamped(p.hfPenalty), Clamped(p.chromaCrush), Clamped(p.block))
  }

  function ClampedTo(value: int, low: int, high: int): int {
    if value < low then low else if value > high then high else value
  }

  /** The block edge `floor(4 + 12 block)` in texels. */
  function BlockEdge(p: Params): (edge: nat)
    ensures DCT_MIN_BLOCK <= edge <= DCT_MAX_BLOCK
  {
    ClampedTo((4.0 + Sanitized(p).block * 12.0).Floor, DCT_MIN_BLOCK, DCT_MAX_BLOCK)
  }

  function Plane(pixels: seq<Rgb>, c: Channel): (r: seq<real>)
    ensures |r| == |pixels|
  {
    seq(|pixels|, i requires 0 <= i < |pixels| => Component(pixels[i], c))
  }

  function Pixels(red: seq<real>, green: seq<real>, blue: seq<real>): (r: seq<Rgb>)
    requires |red| == |green| == |blue|
    ensures |r| == |red|
  {
    seq(|red|, i requires 0 <= i < |red| => Rgb(red[i], green[i], blue[i]))
  }

  function Samples(s: seq<real>): Vector {
    (i: int) => if 0 <= i < |s| then s[i] else 0.0
  }

  // ------------------------------------------------------------------
  // The law
  // ------------------------------------------------------------------

  function TransformBlock(b: Matrix, samples: seq<real>): (r: seq<real>)
    ensures |r| == |samples|
  {
    seq(|samples|, u => Analysis(b, Samples(samples), |samples|)(u))
  }

  function ReconstructBlock(b: Matrix, coefficients: seq<real>): (r: seq<real>)
    ensures |r| == |coefficients|
  {
    seq(|coefficients|, k => Synthesis(b, Samples(coefficients), |coefficients|)(k))
  }

  function QuantizeStep(quantize: real, hfPenalty: real, u: nat): real {
    (DCT_STEP_FLOOR + quantize * 0.5) * (1.0 + u as real * hfPenalty * 2.0)
  }

  function Luma(p: Rgb): real {
    0.299 * p.red + 0.587 * p.green + 0.114 * p.blue
  }

  function Crushed(p: Rgb, chromaCrush: real): Rgb {
    var y := Luma(p);
    var keep := 1.0 - chromaCrush * 0.85;
    Rgb(y + (p.red - y) * keep, y + (p.green - y) * keep, y + (p.blue - y) * keep)
  }

  function Rounded(value: real, step: real): real
    requires step > 0.0
  {
    (value / step + 0.5).Floor as real * step
  }

  function QuantizeCoefficient(p: Rgb, step: real, chromaCrush: real): Rgb
    requires step > 0.0
  {
    var c := Crushed(p, chromaCrush);
    Rgb(Rounded(c.red, step), Rounded(c.green, step), Rounded(c.blue, step))
  }

  function StepAt(p: Params, u: nat): real {
    QuantizeStep(Sanitized(p).quantize, Sanitized(p).hfPenalty, u)
  }

  lemma ProductOfFactors(a: real, b: real)
    requires a >= DCT_STEP_FLOOR && b >= 1.0
    ensures a * b >= DCT_STEP_FLOOR
  {
    assert a * b >= a * 1.0;
  }

  /** The quantiser never gets finer than its floor. */
  lemma StepIsPositive(p: Params, u: nat)
    ensures StepAt(p, u) >= DCT_STEP_FLOOR
  {
    var tilt := u as real * Sanitized(p).hfPenalty;
    assert tilt >= 0.0;
    ProductOfFactors(DCT_STEP_FLOOR + Sanitized(p).quantize * 0.5, 1.0 + tilt * 2.0);
  }

  /** The coefficient triples of a block. */
  function Coefficients(b: Matrix, block: seq<Rgb>): (r: seq<Rgb>)
    ensures |r| == |block|
  {
    Pixels(TransformBlock(b, Plane(block, Red)), TransformBlock(b, Plane(block, Green)), TransformBlock(b, Plane(block, Blue)))
  }

  function QuantizedAt(b: Matrix, block: seq<Rgb>, p: Params, u: nat): Rgb
    requires u < |block|
  {
    StepIsPositive(p, u);
    QuantizeCoefficient(Coefficients(b, block)[u], StepAt(p, u), Sanitized(p).chromaCrush)
  }

  function QuantizedBlock(b: Matrix, block: seq<Rgb>, p: Params): (r: seq<Rgb>)
    ensures |r| == |block|
  {
    seq(|block|, u requires 0 <= u < |block| => QuantizedAt(b, block, p, u))
  }

  function RestoredBlock(b: Matrix, quantised: seq<Rgb>): (r: seq<Rgb>)
    ensures |r| == |quantised|
  {
    Pixels(ReconstructBlock(b, Plane(quantised, Red)), ReconstructBlock(b, Plane(quantised, Green)),
           ReconstructBlock(b, Plane(quantised, Blue)))
  }

  function BlockLaw(b: Matrix, block: seq<Rgb>, p: Params): (r: seq<Rgb>)
    ensures |r| == |block|
  {
    RestoredBlock(b, QuantizedBlock(b, block, p))
  }

  /** Length of the chunk at the front of a line; the last chunk may be short. */
  function ChunkLength(line: seq<Rgb>, p: Params): (n: nat)
    ensures n <= |line| && (line != [] ==> n > 0)
  {
    if |line| < BlockEdge(p) then |line| else BlockEdge(p)
  }

  /** The line, chunk by chunk. */
  function LineLaw(basis: Bases, line: seq<Rgb>, p: Params): (r: seq<Rgb>)
    ensures |r| == |line|
    decreases |line|
  {
    if line == [] then []
    else
      var n := ChunkLength(line, p);
      BlockLaw(basis(n), line[..n], p) + LineLaw(basis, line[n..], p)
  }

  // ------------------------------------------------------------------
  // The loops
  // ------------------------------------------------------------------

  /** One block, written into `out` at `base`. */
  method WriteBlock(b: Matrix, block: seq<Rgb>, p: Params, out: array<Rgb>, base: nat)
    requires base + |block| <= out.Length
    modifies out
    ensures out[base..base + |block|] == BlockLaw(b, block, p)
    ensures forall i :: 0 <= i < out.Length && !(base <= i < base + |block|) ==> out[i] == old(out[i])
  {
    var coefficients := Coefficients(b, block);
    var quantised := new Rgb[|block|](_ => Rgb(0.0, 0.0, 0.0));
    var u := 0;
    while u < |block|
      invariant 0 <= u <= |block|
      invariant forall i :: 0 <= i < u ==> quantised[i] == QuantizedAt(b, block, p, i)
      invariant out[..] == old(out[..])
    {
      var step := QuantizeStep(Sanitized(p).quantize, Sanitized(p).hfPenalty, u);
      StepIsPositive(p, u);
      quantised[u] := QuantizeCoefficient(coefficients[u], step, Sanitized(p).chromaCrush);
      u := u + 1;
    }
    assert quantised[..] == QuantizedBlock(b, block, p);
    var restored := RestoredBlock(b, quantised[..]);
    var k := 0;
    while k < |block|
      invariant 0 <= k <= |block|
      invariant forall i :: 0 <= i < k ==> out[base + i] == restored[i]
      invariant forall i :: 0 <= i < out.Length && !(base <= i < base + |block|) ==> out[i] == old(out[i])
    {
      out[base + k] := restored[k];
      k := k + 1;
    }
  }

  method BlockDctLine(basis: Bases, line: seq<Rgb>, p: Params) returns (out: array<Rgb>)
    ensures fresh(out) && out[..] == LineLaw(basis, line, p)
  {
    hide BlockLaw, ChunkLength, LineLaw;
    out := new Rgb[|line|](_ => Rgb(0.0, 0.0, 0.0));
    var base := 0;
    ghost var written: seq<Rgb> := [];
    while base < |line|
      invariant 0 <= base <= |line| && out[..base] == written
      invariant LineLaw(basis, line, p) == written + LineLaw(basis, line[base..], p)
    {
      var n := ChunkLength(line[base..], p);
      NextChunk(basis, line, p, base);
      WriteBlock(basis(n), line[base..base + n], p, out, base);
      ghost var chunk := BlockLaw(basis(n), line[base..base + n], p);
      Reassociate(written, chunk, LineLaw(basis, line[base + n..], p));
      assert out[..base] == written;
      assert out[..base + n] == out[..base] + out[base..base + n];
      written := written + chunk;
      base := base + n;
    }
    assert LineLaw(basis, line[base..], p) == [];
    assert out[..] == out[..base];
  }

  lemma Reassociate(a: seq<Rgb>, b: seq<Rgb>, c: seq<Rgb>)
    ensures a + (b + c) == (a + b) + c
  {
  }

  lemma NextChunk(basis: Bases, line: seq<Rgb>, p: Params, base: nat)
    requires base < |line|
    ensures var n := ChunkLength(line[base..], p);
            LineLaw(basis, line[base..], p) ==
            BlockLaw(basis(n), line[base..base + n], p) + LineLaw(basis, line[base + n..], p)
  {
    hide BlockLaw, BlockEdge;
    var n := ChunkLength(line[base..], p);
    assert line[base..][..n] == line[base..base + n] && line[base..][n..] == line[base + n..];
  }
}
