/**
 What the Block DCT law means for a basis with orthonormal columns: an exact round trip,
 a chroma crush that commutes with the transform, a real energy bound, and independent blocks.
 */
module BlockDctLaws {
  import opened BlockDct
  import opened Colour
  import opened Orthonormal

  // ------------------------------------------------------------------
  // Round trips
  // ------------------------------------------------------------------

  /** Transform, then reconstruct: the samples. */
  lemma TransformRoundTrip(b: Matrix, samples: seq<real>)
    requires OrthonormalColumns(b, |samples|)
    ensures ReconstructBlock(b, TransformBlock(b, samples)) == samples
  {
    var n := |samples|;
    var coefficients := TransformBlock(b, samples);
    forall k | 0 <= k < n ensures ReconstructBlock(b, coefficients)[k] == samples[k] {
      SynthesisInverts(b, Samples(samples), n, k);
      SynthesisOfSamples(b, coefficients, Analysis(b, Samples(samples), n), n, k);
    }
  }

  /** Reconstruct, then transform: the coefficients. */
  lemma ReconstructRoundTrip(b: Matrix, coefficients: seq<real>)
    requires OrthonormalColumns(b, |coefficients|)
    ensures TransformBlock(b, ReconstructBlock(b, coefficients)) == coefficients
  {
    var n := |coefficients|;
    var samples := ReconstructBlock(b, coefficients);
    forall u | 0 <= u < n ensures TransformBlock(b, samples)[u] == coefficients[u] {
      AnalysisInverts(b, Samples(coefficients), n, u);
      AnalysisOfSamples(b, samples, Synthesis(b, Samples(coefficients), n), n, u);
    }
  }

  lemma AnalysisOfSamples(b: Matrix, s: seq<real>, f: Vector, n: nat, u: nat)
    requires n == |s| && Agree(Samples(s), f, n)
    ensures Analysis(b, Samples(s), n)(u) == Analysis(b, f, n)(u)
  {
    DotAgrees(Samples(s), f, Row(b, u), n);
  }

  lemma SynthesisOfSamples(b: Matrix, s: seq<real>, f: Vector, n: nat, k: nat)
    requires n == |s| && Agree(Samples(s), f, n)
    ensures Synthesis(b, Samples(s), n)(k) == Synthesis(b, f, n)(k)
  {
    DotAgrees(Samples(s), f, Column(b, k), n);
  }

  // ------------------------------------------------------------------
  // Chroma crush
  // ------------------------------------------------------------------

  function CrushedBlock(block: seq<Rgb>, chromaCrush: real): (r: seq<Rgb>)
    ensures |r| == |block|
  {
    seq(|block|, i requires 0 <= i < |block| => Crushed(block[i], chromaCrush))
  }

  /** Crushing keeps Rec.601 luma. */
  lemma CrushKeepsLuma(p: Rgb, chromaCrush: real)
    ensures Luma(Crushed(p, chromaCrush)) == Luma(p)
  {
    var y, keep := Luma(p), 1.0 - chromaCrush * 0.85;
    var r, g, b := (p.red - y) * keep, (p.green - y) * keep, (p.blue - y) * keep;
    assert 0.299 * r + 0.587 * g + 0.114 * b ==
           (0.299 * (p.red - y) + 0.587 * (p.green - y) + 0.114 * (p.blue - y)) * keep;
  }

  /** The share of each component in a crushed component. */
  function Weight(c: Channel, from: Channel, keep: real): real {
    var rec601 := match from case Red => 0.299 case Green => 0.587 case Blue => 0.114;
    (1.0 - keep) * rec601 + if c == from then keep else 0.0
  }

  function Keep(chromaCrush: real): real {
    1.0 - chromaCrush * 0.85
  }

  lemma CrushedIsLinear(p: Rgb, chromaCrush: real, c: Channel)
    ensures var keep := Keep(chromaCrush);
            Component(Crushed(p, chromaCrush), c) ==
            Weight(c, Red, keep) * p.red + Weight(c, Green, keep) * p.green + Weight(c, Blue, keep) * p.blue
  {
    var keep, y, v := Keep(chromaCrush), Luma(p), Component(p, c);
    assert y + (v - y) * keep == (1.0 - keep) * y + keep * v;
    Spread(1.0 - keep, p);
    match c {
      case Red => Regroup((1.0 - keep) * 0.299, keep, p.red);
      case Green => Regroup((1.0 - keep) * 0.587, keep, p.green);
      case Blue => Regroup((1.0 - keep) * 0.114, keep, p.blue);
    }
  }

  lemma Spread(a: real, p: Rgb)
    ensures a * Luma(p) == a * 0.299 * p.red + a * 0.587 * p.green + a * 0.114 * p.blue
  {
    var r, g, b := 0.299 * p.red, 0.587 * p.green, 0.114 * p.blue;
    assert a * (r + g + b) == a * r + a * g + a * b;
  }

  lemma Regroup(a: real, k: real, v: real)
    ensures (a + k) * v == a * v + k * v
  {
  }

  lemma DotOfTwo(h: Vector, f: Vector, c: real, g: Vector, row: Vector, n: nat)
    requires Combines(h, f, c, g, n)
    ensures Dot(row, h, n) == Dot(row, f, n) + c * Dot(row, g, n)
  {
    DotIsLinear(h, f, c, g, row, n);
    DotCommutes(row, h, n);
    DotCommutes(row, f, n);
    DotCommutes(row, g, n);
  }

  lemma DotOfThree(h: Vector, a: real, f: Vector, b: real, g: Vector, c: real, k: Vector, row: Vector, n: nat)
    requires forall i :: 0 <= i < n ==> h(i) == a * f(i) + b * g(i) + c * k(i)
    ensures Dot(row, h, n) == a * Dot(row, f, n) + b * Dot(row, g, n) + c * Dot(row, k, n)
  {
    hide Dot;
    var zero := (i: int) => 0.0;
    var af := (i: int) => zero(i) + a * f(i);
    var bg := (i: int) => af(i) + b * g(i);
    DotOfZero(zero, row, n);
    DotCommutes(row, zero, n);
    DotOfTwo(af, zero, a, f, row, n);
    DotOfTwo(bg, af, b, g, row, n);
    DotOfTwo(h, bg, c, k, row, n);
  }

  lemma {:induction false} DotOfZero(zero: Vector, row: Vector, n: nat)
    requires forall i :: 0 <= i < n ==> zero(i) == 0.0
    ensures Dot(zero, row, n) == 0.0
  {
    if n > 0 {
      DotOfZero(zero, row, n - 1);
    }
  }

  /** Crushing the coefficients is transforming the crushed pixels: no basis property is needed. */
  lemma CrushCommutesWithTransform(b: Matrix, block: seq<Rgb>, chromaCrush: real, u: nat)
    requires u < |block|
    ensures Crushed(Coefficients(b, block)[u], chromaCrush) == Coefficients(b, CrushedBlock(block, chromaCrush))[u]
  {
    forall c: Channel
      ensures Component(Crushed(Coefficients(b, block)[u], chromaCrush), c) ==
              Component(Coefficients(b, CrushedBlock(block, chromaCrush))[u], c)
    {
      CrushCommutesOnChannel(b, block, chromaCrush, u, c);
    }
    SameComponents(Crushed(Coefficients(b, block)[u], chromaCrush), Coefficients(b, CrushedBlock(block, chromaCrush))[u]);
  }

  lemma SameComponents(p: Rgb, q: Rgb)
    requires forall c: Channel :: Component(p, c) == Component(q, c)
    ensures p == q
  {
    assert Component(p, Red) == Component(q, Red);
    assert Component(p, Green) == Component(q, Green);
    assert Component(p, Blue) == Component(q, Blue);
  }

  /** A component of a coefficient triple is the product of its plane with a row of the basis. */
  lemma CoefficientAt(b: Matrix, block: seq<Rgb>, u: nat, c: Channel)
    requires u < |block|
    ensures Component(Coefficients(b, block)[u], c) == Dot(Row(b, u), Samples(Plane(block, c)), |block|)
  {
    assert TransformBlock(b, Plane(block, c))[u] == Analysis(b, Samples(Plane(block, c)), |block|)(u);
  }

  lemma CrushCommutesOnChannel(b: Matrix, block: seq<Rgb>, chromaCrush: real, u: nat, c: Channel)
    requires u < |block|
    ensures Component(Crushed(Coefficients(b, block)[u], chromaCrush), c) ==
            Component(Coefficients(b, CrushedBlock(block, chromaCrush))[u], c)
  {
    hide Coefficients, Crushed, Weight, Dot, Plane, CrushedBlock;
    var n, keep, crushed := |block|, Keep(chromaCrush), CrushedBlock(block, chromaCrush);
    CoefficientAt(b, crushed, u, c);
    CoefficientAt(b, block, u, Red);
    CoefficientAt(b, block, u, Green);
    CoefficientAt(b, block, u, Blue);
    CrushedIsLinear(Coefficients(b, block)[u], chromaCrush, c);
    forall i | 0 <= i < n
      ensures Samples(Plane(crushed, c))(i) ==
              Weight(c, Red, keep) * Samples(Plane(block, Red))(i)
              + Weight(c, Green, keep) * Samples(Plane(block, Green))(i)
              + Weight(c, Blue, keep) * Samples(Plane(block, Blue))(i)
    {
      CrushedSample(block, chromaCrush, c, i);
    }
    DotOfThree(Samples(Plane(crushed, c)), Weight(c, Red, keep), Samples(Plane(block, Red)),
               Weight(c, Green, keep), Samples(Plane(block, Green)),
               Weight(c, Blue, keep), Samples(Plane(block, Blue)), Row(b, u), n);
  }

  lemma CrushedSample(block: seq<Rgb>, chromaCrush: real, c: Channel, i: nat)
    requires i < |block|
    ensures var keep := Keep(chromaCrush);
            Samples(Plane(CrushedBlock(block, chromaCrush), c))(i) ==
            Weight(c, Red, keep) * Samples(Plane(block, Red))(i)
            + Weight(c, Green, keep) * Samples(Plane(block, Green))(i)
            + Weight(c, Blue, keep) * Samples(Plane(block, Blue))(i)
  {
    hide Weight, Crushed;
    CrushedIsLinear(block[i], chromaCrush, c);
  }

  // ------------------------------------------------------------------
  // The energy bound
  // ------------------------------------------------------------------

  lemma Scaled(d: real, step: real)
    requires -0.5 <= d <= 0.5 && step > 0.0
    ensures -step / 2.0 <= d * step <= step / 2.0
  {
    assert (0.5 - d) * step >= 0.0;
    assert (0.5 + d) * step >= 0.0;
  }

  /** Rounding to the nearest multiple of the step moves a value by at most half a step. */
  lemma RoundingIsNearest(value: real, step: real)
    requires step > 0.0
    ensures -step / 2.0 <= Rounded(value, step) - value <= step / 2.0
  {
    var t := value / step;
    var d := (t + 0.5).Floor as real - t;
    assert -0.5 <= d <= 0.5;
    Scaled(d, step);
    ScaledDifference((t + 0.5).Floor as real, t, step);
    assert t * step == value;
  }

  lemma ScaledDifference(x: real, y: real, step: real)
    ensures (x - y) * step == x * step - y * step
  {
  }

  lemma SquareBound(d: real, h: real)
    requires -h <= d <= h
    ensures d * d <= h * h
  {
    assert (h - d) * (h + d) >= 0.0;
    assert (h - d) * (h + d) == h * h - d * d;
  }

  /** Half of each quantiser step, as a vector over the coefficients. */
  function HalfSteps(p: Params): Vector {
    (u: int) => if u < 0 then 0.0 else StepAt(p, u) / 2.0
  }

  lemma {:induction false} EnergyIsMonotone(d: Vector, h: Vector, n: nat)
    requires forall u :: 0 <= u < n ==> -h(u) <= d(u) <= h(u)
    ensures Dot(d, d, n) <= Dot(h, h, n)
  {
    if n > 0 {
      EnergyIsMonotone(d, h, n - 1);
      SquareBound(d(n - 1), h(n - 1));
    }
  }

  function Difference(a: seq<real>, b: seq<real>): Vector
    requires |a| == |b|
  {
    (i: int) => Samples(a)(i) - Samples(b)(i)
  }

  /** Squared distance of two sample sequences. */
  function SquaredError(a: seq<real>, b: seq<real>): real
    requires |a| == |b|
  {
    Dot(Difference(a, b), Difference(a, b), |a|)
  }

  lemma ReconstructionOfDifference(b: Matrix, q: seq<real>, c: seq<real>, k: nat)
    requires |q| == |c| && k < |q|
    ensures Difference(ReconstructBlock(b, q), ReconstructBlock(b, c))(k) == Synthesis(b, Difference(q, c), |q|)(k)
  {
    DotOfTwo(Difference(q, c), Samples(q), -1.0, Samples(c), Column(b, k), |q|);
    ReconstructedSample(b, q, k);
    ReconstructedSample(b, c, k);
  }

  lemma ReconstructedSample(b: Matrix, s: seq<real>, k: nat)
    requires k < |s|
    ensures Samples(ReconstructBlock(b, s))(k) == Dot(Column(b, k), Samples(s), |s|)
  {
    assert ReconstructBlock(b, s)[k] == Synthesis(b, Samples(s), |s|)(k);
  }

  /** Reconstruction is an isometry. */
  lemma ReconstructionKeepsDistance(b: Matrix, q: seq<real>, c: seq<real>)
    requires |q| == |c| && OrthonormalColumns(b, |q|)
    ensures SquaredError(ReconstructBlock(b, q), ReconstructBlock(b, c)) == SquaredError(q, c)
  {
    var n := |q|;
    var d := Difference(q, c);
    var e := Difference(ReconstructBlock(b, q), ReconstructBlock(b, c));
    forall k | 0 <= k < n ensures e(k) == Synthesis(b, d, n)(k) {
      ReconstructionOfDifference(b, q, c, k);
    }
    Parseval(b, d, n);
    DotAgrees(e, Synthesis(b, d, n), e, n);
    DotAgrees(e, Synthesis(b, d, n), Synthesis(b, d, n), n);
  }

  /** Each quantised coefficient is within half a step of the crushed pixels' coefficient. */
  lemma QuantisationError(b: Matrix, block: seq<Rgb>, p: Params, c: Channel, u: nat)
    requires u < |block|
    ensures var d := Plane(QuantizedBlock(b, block, p), c)[u]
                     - TransformBlock(b, Plane(CrushedBlock(block, Sanitized(p).chromaCrush), c))[u];
            -StepAt(p, u) / 2.0 <= d <= StepAt(p, u) / 2.0
  {
    hide StepAt, TransformBlock, Crushed, Rounded;
    var crush := Sanitized(p).chromaCrush;
    StepIsPositive(p, u);
    CrushCommutesWithTransform(b, block, crush, u);
    var target := Crushed(Coefficients(b, block)[u], crush);
    RoundingIsNearest(Component(target, c), StepAt(p, u));
    var crushed := CrushedBlock(block, crush);
    assert Component(Coefficients(b, crushed)[u], c) == TransformBlock(b, Plane(crushed, c))[u];
    assert Plane(QuantizedBlock(b, block, p), c)[u] == Component(QuantizedAt(b, block, p, u), c);
    assert Component(QuantizedAt(b, block, p, u), c) == Rounded(Component(target, c), StepAt(p, u));
  }

  lemma RestoredPlane(b: Matrix, quantised: seq<Rgb>, c: Channel)
    ensures Plane(RestoredBlock(b, quantised), c) == ReconstructBlock(b, Plane(quantised, c))
  {
  }

  /**
   The energy bound: in every channel of every block, the squared distance of the output to
   the crushed input is at most the sum of the squared half steps.
   */
  lemma BlockErrorIsBounded(b: Matrix, block: seq<Rgb>, p: Params, c: Channel)
    requires OrthonormalColumns(b, |block|)
    ensures SquaredError(Plane(BlockLaw(b, block, p), c), Plane(CrushedBlock(block, Sanitized(p).chromaCrush), c))
            <= Dot(HalfSteps(p), HalfSteps(p), |block|)
  {
    hide StepAt, TransformBlock, ReconstructBlock, CrushedBlock, QuantizedBlock, RestoredBlock, Dot, SquaredError, Plane;
    var crushed := Plane(CrushedBlock(block, Sanitized(p).chromaCrush), c);
    var quantised := QuantizedBlock(b, block, p);
    var q, t := Plane(quantised, c), TransformBlock(b, crushed);
    RestoredPlane(b, quantised, c);
    TransformRoundTrip(b, crushed);
    ReconstructionKeepsDistance(b, q, t);
    CoefficientErrorIsBounded(b, block, p, c);
  }

  lemma CoefficientErrorIsBounded(b: Matrix, block: seq<Rgb>, p: Params, c: Channel)
    ensures SquaredError(Plane(QuantizedBlock(b, block, p), c),
                         TransformBlock(b, Plane(CrushedBlock(block, Sanitized(p).chromaCrush), c)))
            <= Dot(HalfSteps(p), HalfSteps(p), |block|)
  {
    hide StepAt, TransformBlock, CrushedBlock, QuantizedBlock, Dot, Plane, Difference, HalfSteps;
    var q, t := Plane(QuantizedBlock(b, block, p), c),
                TransformBlock(b, Plane(CrushedBlock(block, Sanitized(p).chromaCrush), c));
    forall u | 0 <= u < |block| ensures -HalfSteps(p)(u) <= Difference(q, t)(u) <= HalfSteps(p)(u) {
      WithinHalfStep(b, block, p, c, u);
    }
    EnergyIsMonotone(Difference(q, t), HalfSteps(p), |block|);
  }

  lemma WithinHalfStep(b: Matrix, block: seq<Rgb>, p: Params, c: Channel, u: nat)
    requires u < |block|
    ensures var d := Difference(Plane(QuantizedBlock(b, block, p), c),
                                TransformBlock(b, Plane(CrushedBlock(block, Sanitized(p).chromaCrush), c)));
            -HalfSteps(p)(u) <= d(u) <= HalfSteps(p)(u)
  {
    hide StepAt, TransformBlock, CrushedBlock, QuantizedBlock, Dot, Plane, HalfSteps, Difference;
    QuantisationError(b, block, p, c, u);
    HalfStepAt(p, u);
    DifferenceAt(Plane(QuantizedBlock(b, block, p), c),
                 TransformBlock(b, Plane(CrushedBlock(block, Sanitized(p).chromaCrush), c)), u);
  }

  lemma HalfStepAt(p: Params, u: nat)
    ensures HalfSteps(p)(u) == StepAt(p, u) / 2.0
  {
  }

  lemma DifferenceAt(a: seq<real>, b: seq<real>, u: nat)
    requires u < |a| == |b|
    ensures Difference(a, b)(u) == a[u] - b[u]
  {
    assert Samples(a)(u) == a[u] && Samples(b)(u) == b[u];
  }

  // ------------------------------------------------------------------
  // Independent blocks
  // ------------------------------------------------------------------

  /** Where the k-th chunk starts: `k * edge`. */
  function ChunkStart(k: nat, edge: nat): nat {
    if k == 0 then 0 else ChunkStart(k - 1, edge) + edge
  }

  lemma {:induction false} ChunksStartAtMultiples(k: nat, edge: nat)
    ensures ChunkStart(k, edge) == k * edge
  {
    if k > 0 {
      ChunksStartAtMultiples(k - 1, edge);
      assert k * edge == (k - 1) * edge + edge;
    }
  }

  /**
   The k-th chunk of the output is the block law of the k-th chunk of the input, the short
   tail included: no other pixel of the line matters to it.
   */
  lemma {:induction false} ChunksAreIndependent(basis: Bases, line: seq<Rgb>, p: Params, k: nat)
    requires ChunkStart(k, BlockEdge(p)) < |line|
    ensures var base := ChunkStart(k, BlockEdge(p));
            var n := ChunkLength(line[base..], p);
            LineLaw(basis, line, p)[base..base + n] == BlockLaw(basis(n), line[base..base + n], p)
    decreases k
  {
    hide BlockLaw, BlockEdge, LineLaw, ChunkStart;
    var edge := BlockEdge(p);
    ChunkStartStep(k, edge);
    NextChunk(basis, line, p, 0);
    assert line[0..] == line;
    if k == 0 {
      assert line[0..ChunkLength(line, p)] == line[..ChunkLength(line, p)];
    } else {
      var rest, base := line[edge..], ChunkStart(k - 1, edge);
      ChunksAreIndependent(basis, rest, p, k - 1);
      SuffixOfSuffix(line, edge, base, ChunkLength(rest[base..], p));
      ShiftedSlice(BlockLaw(basis(edge), line[0..edge], p), LineLaw(basis, rest, p), base, ChunkLength(rest[base..], p));
    }
  }

  lemma ChunkStartStep(k: nat, edge: nat)
    ensures ChunkStart(k, edge) == if k == 0 then 0 else ChunkStart(k - 1, edge) + edge
  {
  }

  lemma SuffixOfSuffix(line: seq<Rgb>, edge: nat, base: nat, n: nat)
    requires edge + base + n <= |line|
    ensures line[edge..][base..] == line[base + edge..]
    ensures line[edge..][base..base + n] == line[base + edge..base + edge + n]
  {
  }

  lemma ShiftedSlice(a: seq<Rgb>, b: seq<Rgb>, base: nat, n: nat)
    requires base + n <= |b|
    ensures (a + b)[base + |a|..base + |a| + n] == b[base..base + n]
  {
  }

  // ------------------------------------------------------------------
  // The quantiser lattice
  // ------------------------------------------------------------------

  ghost predicate OnLattice(value: real, step: real) {
    exists k: int :: value == Multiple(k, step)
  }

  function Multiple(k: int, step: real): real {
    k as real * step
  }

  lemma SameFactor(x: real, y: real, step: real)
    requires x * step == y * step && step > 0.0
    ensures x == y
  {
    assert (x - y) * step == 0.0;
  }

  lemma HalfAboveWhole(k: int)
    ensures (k as real + 0.5).Floor == k
  {
  }

  /** Rounding lands on a whole multiple of the step, and stays there. */
  lemma RoundingLandsOnTheLattice(value: real, step: real)
    requires step > 0.0
    ensures OnLattice(Rounded(value, step), step)
    ensures OnLattice(value, step) ==> Rounded(value, step) == value
  {
    assert Rounded(value, step) == Multiple((value / step + 0.5).Floor, step);
    if OnLattice(value, step) {
      var k: int :| value == Multiple(k, step);
      var quotient := value / step;
      assert quotient * step == value;
      SameFactor(quotient, k as real, step);
      HalfAboveWhole(k);
    }
  }

  lemma QuantisedOnLattice(b: Matrix, block: seq<Rgb>, p: Params, c: Channel, u: nat)
    requires u < |block|
    ensures OnLattice(Component(QuantizedBlock(b, block, p)[u], c), StepAt(p, u))
  {
    hide StepAt, Crushed, Rounded, OnLattice, Coefficients;
    StepIsPositive(p, u);
    var target := Crushed(Coefficients(b, block)[u], Sanitized(p).chromaCrush);
    RoundingLandsOnTheLattice(Component(target, c), StepAt(p, u));
    assert Component(QuantizedAt(b, block, p, u), c) == Rounded(Component(target, c), StepAt(p, u));
  }

  /** The block that comes out has the quantised coefficients, exactly. */
  lemma OutputHasTheQuantisedCoefficients(b: Matrix, block: seq<Rgb>, p: Params, u: nat)
    requires OrthonormalColumns(b, |block|) && u < |block|
    ensures Coefficients(b, BlockLaw(b, block, p))[u] == QuantizedBlock(b, block, p)[u]
  {
    hide OrthonormalColumns, QuantizedBlock, TransformBlock, ReconstructBlock, RestoredBlock;
    var quantised := QuantizedBlock(b, block, p);
    var out := BlockLaw(b, block, p);
    forall c: Channel ensures TransformBlock(b, Plane(out, c)) == Plane(quantised, c) {
      RestoredPlane(b, quantised, c);
      ReconstructRoundTrip(b, Plane(quantised, c));
    }
    forall c: Channel ensures Component(Coefficients(b, out)[u], c) == Component(quantised[u], c) {
      assert TransformBlock(b, Plane(out, c))[u] == Plane(quantised, c)[u];
    }
    SameComponents(Coefficients(b, out)[u], quantised[u]);
  }

  /** Every coefficient of the output lies on its own quantiser lattice. */
  lemma OutputCoefficientsOnLattice(b: Matrix, block: seq<Rgb>, p: Params, c: Channel, u: nat)
    requires OrthonormalColumns(b, |block|) && u < |block|
    ensures OnLattice(Component(Coefficients(b, BlockLaw(b, block, p))[u], c), StepAt(p, u))
  {
    hide OrthonormalColumns, BlockLaw, OnLattice, StepAt, Coefficients, QuantizedBlock;
    OutputHasTheQuantisedCoefficients(b, block, p, u);
    QuantisedOnLattice(b, block, p, c, u);
  }

  lemma NoCrush(q: Rgb)
    ensures Crushed(q, 0.0) == q
  {
  }

  lemma RequantisedAt(b: Matrix, block: seq<Rgb>, p: Params, u: nat)
    requires OrthonormalColumns(b, |block|) && u < |block| && Sanitized(p).chromaCrush == 0.0
    ensures QuantizedBlock(b, BlockLaw(b, block, p), p)[u] == QuantizedBlock(b, block, p)[u]
  {
    hide OrthonormalColumns, BlockLaw, OnLattice, StepAt, Coefficients, Crushed, Rounded;
    var out, q := BlockLaw(b, block, p), QuantizedBlock(b, block, p)[u];
    OutputHasTheQuantisedCoefficients(b, block, p, u);
    StepIsPositive(p, u);
    NoCrush(q);
    forall c: Channel ensures Rounded(Component(q, c), StepAt(p, u)) == Component(q, c) {
      QuantisedOnLattice(b, block, p, c, u);
      RoundingLandsOnTheLattice(Component(q, c), StepAt(p, u));
    }
    assert Rounded(q.red, StepAt(p, u)) == Rounded(Component(q, Red), StepAt(p, u));
    assert Rounded(q.green, StepAt(p, u)) == Rounded(Component(q, Green), StepAt(p, u));
    assert Rounded(q.blue, StepAt(p, u)) == Rounded(Component(q, Blue), StepAt(p, u));
    assert QuantizedAt(b, out, p, u) == QuantizeCoefficient(q, StepAt(p, u), 0.0);
  }

  /** Without chroma crush a second pass changes nothing: the damage of the codec is done once. */
  lemma SecondPassChangesNothing(b: Matrix, block: seq<Rgb>, p: Params)
    requires OrthonormalColumns(b, |block|) && Sanitized(p).chromaCrush == 0.0
    ensures BlockLaw(b, BlockLaw(b, block, p), p) == BlockLaw(b, block, p)
  {
    hide OrthonormalColumns, RestoredBlock, QuantizedBlock, Sanitized;
    var out := BlockLaw(b, block, p);
    forall u: nat | u < |block| ensures QuantizedBlock(b, out, p)[u] == QuantizedBlock(b, block, p)[u] {
      RequantisedAt(b, block, p, u);
    }
    assert QuantizedBlock(b, out, p) == QuantizedBlock(b, block, p);
  }
}
