/**
 The Block DCT law in numbers: what each control does to the quantiser step, the block edge, the
 chroma, every output coefficient and the error of a block.
 */
module BlockDctNumbers {
  import opened BlockDct
  import opened BlockDctLaws
  import opened Colour
  import opened Orthonormal

  /** A control as it takes effect: the nearest value from 0 to 1. */
  function Control(value: real): real {
    if value <= 0.0 then 0.0 else if value >= 1.0 then 1.0 else value
  }

  lemma ControlsAre(p: Params)
    ensures Sanitized(p) == Params(Control(p.quantize), Control(p.hfPenalty), Control(p.chromaCrush), Control(p.block))
  {
  }

  /** The step of coefficient `u`: from 0.004 to 0.504 by the quantiser, and twice the penalty more per coefficient. */
  lemma StepInNumbers(p: Params, u: nat)
    ensures var first, penalty := 0.004 + Control(p.quantize) / 2.0, Control(p.hfPenalty);
            && StepAt(p, 0) == first
            && StepAt(p, u) == first * (1.0 + 2.0 * penalty * u as real)
            && StepAt(p, u + 1) == StepAt(p, u) + 2.0 * penalty * first
            && (penalty > 0.0 ==> StepAt(p, u) < StepAt(p, u + 1))
  {
    ControlsAre(p);
    var first, penalty, x := 0.004 + Control(p.quantize) / 2.0, Control(p.hfPenalty), u as real;
    assert StepAt(p, 0) == first * (1.0 + 0.0 * penalty * 2.0);
    NextStep(first, penalty, x);
    assert (u + 1) as real == x + 1.0;
  }

  lemma NextStep(first: real, penalty: real, x: real)
    requires first > 0.0
    ensures first * (1.0 + x * penalty * 2.0) == first * (1.0 + 2.0 * penalty * x)
    ensures first * (1.0 + (x + 1.0) * penalty * 2.0) == first * (1.0 + x * penalty * 2.0) + 2.0 * penalty * first
    ensures penalty > 0.0 ==> 2.0 * penalty * first > 0.0
  {
    var d := penalty * 2.0;
    assert x * penalty * 2.0 == x * d;
    assert (x + 1.0) * penalty * 2.0 == x * d + d;
    assert first * (1.0 + (x * d + d)) == first * (1.0 + x * d) + first * d;
  }

  /** The block edge is the whole part of 4 + 12 block, which is never below 4 nor above 16. */
  lemma EdgeInNumbers(p: Params)
    ensures BlockEdge(p) as real <= 4.0 + 12.0 * Control(p.block) < BlockEdge(p) as real + 1.0
    ensures 4 <= BlockEdge(p) <= 16
  {
  }

  /** Chunk `k` of a line starts at `k` edges, and only the last may be shorter than an edge. */
  lemma ChunkInNumbers(basis: Bases, line: seq<Rgb>, p: Params, k: nat)
    requires k * BlockEdge(p) < |line|
    ensures var base := k * BlockEdge(p);
            var n := if base + BlockEdge(p) <= |line| then BlockEdge(p) else |line| - base;
            LineLaw(basis, line, p)[base..base + n] == BlockLaw(basis(n), line[base..base + n], p)
  {
    hide BlockLaw, LineLaw, BlockEdge, ChunkStart;
    ChunksStartAtMultiples(k, BlockEdge(p));
    ChunksAreIndependent(basis, line, p, k);
  }

  /** A channel after the chroma crush: luma, and what is left of the difference to it. */
  lemma CrushInNumbers(q: Rgb, crush: real, c: Channel)
    ensures var luma := 0.299 * q.red + 0.587 * q.green + 0.114 * q.blue;
            Component(Crushed(q, crush), c) == luma + (1.0 - 0.85 * crush) * (Component(q, c) - luma)
  {
  }

  /** A channel of a block after the chroma crush. */
  predicate IsCrushedPlane(target: seq<real>, block: seq<Rgb>, crush: real, c: Channel) {
    && |target| == |block|
    && forall i :: 0 <= i < |block| ==>
         var luma := 0.299 * block[i].red + 0.587 * block[i].green + 0.114 * block[i].blue;
         target[i] == luma + (1.0 - 0.85 * crush) * (Component(block[i], c) - luma)
  }

  lemma CrushedPlaneIs(target: seq<real>, block: seq<Rgb>, crush: real, c: Channel)
    requires IsCrushedPlane(target, block, crush, c)
    ensures Plane(CrushedBlock(block, crush), c) == target
  {
    hide Crushed;
    forall i | 0 <= i < |block| ensures Plane(CrushedBlock(block, crush), c)[i] == target[i] {
      CrushInNumbers(block[i], crush, c);
    }
  }

  // ------------------------------------------------------------------
  // The transform
  // ------------------------------------------------------------------

  /** Row `u` of the basis against the first `n` samples. */
  function AgainstRow(b: Matrix, s: seq<real>, u: int, n: nat): real
    requires n <= |s|
  {
    if n == 0 then 0.0 else AgainstRow(b, s, u, n - 1) + b(u, n - 1) * s[n - 1]
  }

  /** Column `k` of the basis against the first `n` coefficients. */
  function AgainstColumn(b: Matrix, s: seq<real>, k: int, n: nat): real
    requires n <= |s|
  {
    if n == 0 then 0.0 else AgainstColumn(b, s, k, n - 1) + b(n - 1, k) * s[n - 1]
  }

  lemma {:induction false} ProductsAreSums(b: Matrix, s: seq<real>, u: int, n: nat)
    requires n <= |s|
    ensures Dot(Row(b, u), Samples(s), n) == AgainstRow(b, s, u, n)
    ensures Dot(Column(b, u), Samples(s), n) == AgainstColumn(b, s, u, n)
  {
    if n > 0 {
      ProductsAreSums(b, s, u, n - 1);
    }
  }

  /** A coefficient is the sum of its row's entries times the samples; a sample, of its column's times the coefficients. */
  lemma TransformsAreSums(b: Matrix, s: seq<real>, u: nat)
    requires u < |s|
    ensures TransformBlock(b, s)[u] == AgainstRow(b, s, u, |s|)
    ensures ReconstructBlock(b, s)[u] == AgainstColumn(b, s, u, |s|)
  {
    ProductsAreSums(b, s, u, |s|);
    assert TransformBlock(b, s)[u] == Analysis(b, Samples(s), |s|)(u);
    assert ReconstructBlock(b, s)[u] == Synthesis(b, Samples(s), |s|)(u);
  }

  // ------------------------------------------------------------------
  // The quantised coefficients
  // ------------------------------------------------------------------

  lemma PositiveProduct(x: real, step: real)
    requires x > 0.0 && step > 0.0
    ensures x * step > 0.0
  {
  }

  lemma ThreeProducts(v: real, x: real, y: real, z: real, step: real)
    requires v == x + y - z
    ensures v * step == x * step + y * step - z * step
  {
  }

  /** Less than half a unit below, in units of the step. */
  lemma LessThanHalfBelow(a: real, value: real, t: real, step: real, k: int)
    requires step > 0.0 && k as real - t > -0.5 && value == t * step && a == k as real * step
    ensures a + 0.5 * step - value > 0.0
  {
    var v := k as real + 0.5 - t;
    PositiveProduct(v, step);
    ThreeProducts(v, k as real, 0.5, t, step);
  }

  /** Rounding takes the nearest whole multiple of the step, the upper one of two as near. */
  lemma RoundingInNumbers(value: real, step: real) returns (k: int)
    requires step > 0.0
    ensures Rounded(value, step) == Multiple(k, step)
    ensures -step / 2.0 < Rounded(value, step) - value <= step / 2.0
  {
    k := (value / step + 0.5).Floor;
    RoundingIsNearest(value, step);
    LessThanHalfBelow(k as real * step, value, value / step, step, k);
  }

  /** There is one whole multiple that near. */
  lemma NearestIsUnique(value: real, step: real, j: int, k: int)
    requires step > 0.0
    requires -step / 2.0 < Multiple(j, step) - value <= step / 2.0 && -step / 2.0 < Multiple(k, step) - value <= step / 2.0
    ensures j == k
  {
    hide Multiple;
    if j > k {
      MultiplesApart(j, k, step);
    } else if k > j {
      MultiplesApart(k, j, step);
    }
  }

  lemma MultiplesApart(j: int, k: int, step: real)
    requires step > 0.0 && j > k
    ensures Multiple(j, step) >= Multiple(k, step) + step
  {
    var d := (j - k - 1) as real;
    assert d * step >= 0.0;
    ThreeProducts(j as real, k as real, d + 1.0, 0.0, step);
    assert (d + 1.0) * step == d * step + step;
  }

  /** The step of coefficient `u` for a quantiser and a penalty in effect. */
  function Step(quantize: real, penalty: real, u: nat): real {
    (0.004 + quantize / 2.0) * (1.0 + 2.0 * penalty * u as real)
  }

  lemma StepsAre(p: Params, u: nat)
    ensures StepAt(p, u) == Step(Control(p.quantize), Control(p.hfPenalty), u) >= 0.004
  {
    StepInNumbers(p, u);
    StepIsPositive(p, u);
  }

  /**
   Every coefficient of an output block, in numbers: the whole multiple of its step
   (0.004 + quantize / 2) (1 + 2 penalty u) that is nearest to the coefficient of the block after
   the chroma crush, the upper one of two as near.
   */
  lemma OutputCoefficientInNumbers(b: Matrix, block: seq<Rgb>, p: Params, c: Channel, u: nat, target: seq<real>)
    returns (k: int)
    requires OrthonormalColumns(b, |block|) && u < |block|
    requires IsCrushedPlane(target, block, Control(p.chromaCrush), c)
    ensures var step := (0.004 + Control(p.quantize) / 2.0) * (1.0 + 2.0 * Control(p.hfPenalty) * u as real);
            var coefficient := AgainstRow(b, Plane(BlockLaw(b, block, p), c), u, |block|);
            && coefficient == Multiple(k, step)
            && -step / 2.0 < coefficient - AgainstRow(b, target, u, |block|) <= step / 2.0
  {
    hide OrthonormalColumns, BlockLaw, StepAt, Coefficients, Crushed, Rounded, AgainstRow, TransformBlock, Sanitized, Plane,
         CrushedBlock, IsCrushedPlane;
    var crush := Control(p.chromaCrush);
    ControlsAre(p);
    StepsAre(p, u);
    OutputHasTheQuantisedCoefficients(b, block, p, u);
    CoefficientOfPlane(b, BlockLaw(b, block, p), c, u);
    CrushCommutesWithTransform(b, block, crush, u);
    CrushedPlaneIs(target, block, crush, c);
    CoefficientOfPlane(b, CrushedBlock(block, crush), c, u);
    CrushedLength(block, crush, target, c);
    QuantisedComponent(b, block, p, c, u);
    k := RoundingInNumbers(Component(Crushed(Coefficients(b, block)[u], crush), c), StepAt(p, u));
  }

  lemma CrushedLength(block: seq<Rgb>, crush: real, target: seq<real>, c: Channel)
    requires IsCrushedPlane(target, block, crush, c)
    ensures |CrushedBlock(block, crush)| == |block| == |target|
  {
  }

  lemma CoefficientOfPlane(b: Matrix, block: seq<Rgb>, c: Channel, u: nat)
    requires u < |block|
    ensures |Plane(block, c)| == |block|
    ensures Component(Coefficients(b, block)[u], c) == AgainstRow(b, Plane(block, c), u, |block|)
  {
    CoefficientAt(b, block, u, c);
    ProductsAreSums(b, Plane(block, c), u, |block|);
  }

  lemma QuantisedComponent(b: Matrix, block: seq<Rgb>, p: Params, c: Channel, u: nat)
    requires u < |block| && StepAt(p, u) > 0.0
    ensures Component(QuantizedBlock(b, block, p)[u], c) ==
            Rounded(Component(Crushed(Coefficients(b, block)[u], Sanitized(p).chromaCrush), c), StepAt(p, u))
  {
    hide StepAt, Crushed, Rounded, Coefficients;
    assert QuantizedBlock(b, block, p)[u] == QuantizedAt(b, block, p, u);
  }

  // ------------------------------------------------------------------
  // The error of a block
  // ------------------------------------------------------------------

  /** The sum of (1 + 2 penalty u)^2 over the first `n` coefficients: n + 2 penalty n (n - 1) + 2/3 penalty^2 (n - 1) n (2 n - 1). */
  function SquareSum(penalty: real, n: nat): real {
    var m := n as real;
    m + 2.0 * penalty * (m * (m - 1.0)) + 2.0 / 3.0 * (penalty * penalty) * ((m - 1.0) * m * (2.0 * m - 1.0))
  }

  lemma SquareSumStep(penalty: real, n: nat)
    ensures var x := 1.0 + 2.0 * penalty * n as real;
            SquareSum(penalty, n + 1) == SquareSum(penalty, n) + x * x
  {
    var m, h := n as real, penalty;
    assert (n + 1) as real == m + 1.0;
    var x := 1.0 + 2.0 * h * m;
    assert x * x == 1.0 + 4.0 * (h * m) + 4.0 * ((h * h) * (m * m)) by {
      var y := h * m;
      assert x * x == 1.0 + 4.0 * y + 4.0 * (y * y);
      assert y * y == (h * h) * (m * m);
    }
    assert (m + 1.0) * m == m * (m - 1.0) + 2.0 * m;
    assert m * (m + 1.0) * (2.0 * m + 1.0) == (m - 1.0) * m * (2.0 * m - 1.0) + 6.0 * (m * m);
    var k := h * h;
    Distributed(h, m * (m - 1.0), 2.0 * m);
    Distributed(k, (m - 1.0) * m * (2.0 * m - 1.0), 6.0 * (m * m));
  }

  lemma Distributed(a: real, x: real, y: real)
    ensures a * (x + y) == a * x + a * y
  {
  }

  /** The square sum times the square of half the first step, ((0.004 + quantize / 2) / 2)^2. */
  function EnergyBound(quantize: real, penalty: real, n: nat): real {
    var half := (0.004 + quantize / 2.0) / 2.0;
    half * half * SquareSum(penalty, n)
  }

  lemma {:induction false} HalfStepsInNumbers(p: Params, n: nat)
    ensures Dot(HalfSteps(p), HalfSteps(p), n) == EnergyBound(Control(p.quantize), Control(p.hfPenalty), n)
  {
    hide StepAt, HalfSteps, SquareSum;
    var half, h := (0.004 + Control(p.quantize) / 2.0) / 2.0, Control(p.hfPenalty);
    if n == 0 {
      EmptySum(h);
    } else {
      HalfStepsInNumbers(p, n - 1);
      SquareSumStep(h, n - 1);
      HalfStepAt(p, n - 1);
      StepInNumbers(p, n - 1);
      var x := 1.0 + 2.0 * h * (n - 1) as real;
      assert HalfSteps(p)(n - 1) == half * x;
      SquareOfProduct(half, x);
      Distributed(half * half, SquareSum(h, n - 1), x * x);
    }
  }

  lemma EmptySum(penalty: real)
    ensures SquareSum(penalty, 0) == 0.0
  {
  }

  lemma SquareOfProduct(a: real, x: real)
    ensures (a * x) * (a * x) == a * a * (x * x)
  {
  }

  /**
   The energy bound in numbers: per channel, the squared distance of an output block to the
   crushed input is at most the bound above, a polynomial in the two controls and the edge.
   */
  lemma BlockErrorInNumbers(b: Matrix, block: seq<Rgb>, p: Params, c: Channel, target: seq<real>)
    requires OrthonormalColumns(b, |block|)
    requires IsCrushedPlane(target, block, Control(p.chromaCrush), c)
    ensures SquaredError(Plane(BlockLaw(b, block, p), c), target) <=
            EnergyBound(Control(p.quantize), Control(p.hfPenalty), |block|)
  {
    hide OrthonormalColumns, BlockLaw, SquaredError, HalfSteps, Dot, Sanitized, CrushedBlock, EnergyBound;
    ControlsAre(p);
    CrushedPlaneIs(target, block, Control(p.chromaCrush), c);
    BlockErrorIsBounded(b, block, p, c);
    HalfStepsInNumbers(p, |block|);
  }
}
