/** Inner products over the reals, and square matrices with orthonormal columns. */
module Orthonormal {

  type Vector = int -> real

  type Matrix = (int, int) -> real

  function Dot(f: Vector, g: Vector, n: nat): real {
    if n == 0 then 0.0 else Dot(f, g, n - 1) + f(n - 1) * g(n - 1)
  }

  function Row(b: Matrix, u: int): Vector {
    (x: int) => b(u, x)
  }

  function Column(b: Matrix, x: int): Vector {
    (u: int) => b(u, x)
  }

  /** The coefficients of `f`: its products with the rows. */
  function Analysis(b: Matrix, f: Vector, n: nat): Vector {
    (u: int) => Dot(Row(b, u), f, n)
  }

  /** The samples of `c`: its products with the columns. */
  function Synthesis(b: Matrix, c: Vector, n: nat): Vector {
    (x: int) => Dot(Column(b, x), c, n)
  }

  function Delta(x: int, y: int): real {
    if x == y then 1.0 else 0.0
  }

  function Unit(k: int): Vector {
    (x: int) => Delta(x, k)
  }

  ghost predicate OrthonormalColumns(b: Matrix, n: nat) {
    forall x, y :: 0 <= x < n && 0 <= y < n ==> Dot(Column(b, x), Column(b, y), n) == Delta(x, y)
  }

  ghost predicate OrthonormalRows(b: Matrix, n: nat) {
    forall u, v :: 0 <= u < n && 0 <= v < n ==> Dot(Row(b, u), Row(b, v), n) == Delta(u, v)
  }

  // ------------------------------------------------------------------
  // Inner products
  // ------------------------------------------------------------------

  predicate Agree(f: Vector, g: Vector, n: nat) {
    forall i :: 0 <= i < n ==> f(i) == g(i)
  }

  lemma {:induction false} DotAgrees(f: Vector, g: Vector, h: Vector, n: nat)
    requires Agree(f, g, n)
    ensures Dot(f, h, n) == Dot(g, h, n) && Dot(h, f, n) == Dot(h, g, n)
  {
    if n > 0 {
      DotAgrees(f, g, h, n - 1);
    }
  }

  lemma {:induction false} DotCommutes(f: Vector, g: Vector, n: nat)
    ensures Dot(f, g, n) == Dot(g, f, n)
  {
    if n > 0 {
      DotCommutes(f, g, n - 1);
    }
  }

  predicate Combines(h: Vector, f: Vector, c: real, g: Vector, n: nat) {
    forall i :: 0 <= i < n ==> h(i) == f(i) + c * g(i)
  }

  lemma Distribute(a: real, c: real, b: real, k: real)
    ensures (a + c * b) * k == a * k + c * (b * k)
  {
  }

  lemma {:induction false} DotIsLinear(h: Vector, f: Vector, c: real, g: Vector, k: Vector, n: nat)
    requires Combines(h, f, c, g, n)
    ensures Dot(h, k, n) == Dot(f, k, n) + c * Dot(g, k, n)
  {
    if n > 0 {
      DotIsLinear(h, f, c, g, k, n - 1);
      Distribute(f(n - 1), c, g(n - 1), k(n - 1));
      assert h(n - 1) == f(n - 1) + c * g(n - 1);
      var a, b := Dot(g, k, n - 1), g(n - 1) * k(n - 1);
      assert c * (a + b) == c * a + c * b;
    }
  }

  lemma {:induction false} DotUnitBelow(f: Vector, k: nat, n: nat)
    requires n <= k
    ensures Dot(f, Unit(k), n) == 0.0
  {
    if n > 0 {
      DotUnitBelow(f, k, n - 1);
    }
  }

  lemma {:induction false} DotUnit(f: Vector, k: nat, n: nat)
    requires k < n
    ensures Dot(f, Unit(k), n) == f(k)
  {
    if k == n - 1 {
      DotUnitBelow(f, k, n - 1);
    } else {
      DotUnit(f, k, n - 1);
    }
  }

  lemma SquareIsNonNegative(x: real)
    ensures x * x >= 0.0
  {
  }

  lemma {:induction false} NormIsNonNegative(f: Vector, n: nat)
    ensures Dot(f, f, n) >= 0.0
  {
    if n > 0 {
      NormIsNonNegative(f, n - 1);
      SquareIsNonNegative(f(n - 1));
    }
  }

  function Times(x: real, y: real): real {
    x * y
  }

  lemma SameSignProduct(x: real, y: real)
    ensures x > 0.0 && y > 0.0 ==> Times(x, y) > 0.0
    ensures x < 0.0 && y < 0.0 ==> Times(x, y) > 0.0
  {
  }

  lemma NonZeroSquare(x: real)
    ensures Times(x, x) == 0.0 ==> x == 0.0
  {
    hide Times;
    SameSignProduct(x, x);
  }

  lemma ZeroSquare(x: real)
    requires x * x == 0.0
    ensures x == 0.0
  {
    assert Times(x, x) == 0.0;
    NonZeroSquare(x);
  }

  lemma {:induction false} ZeroNormIsZero(f: Vector, n: nat, k: nat)
    requires Dot(f, f, n) == 0.0 && k < n
    ensures f(k) == 0.0
  {
    NormIsNonNegative(f, n - 1);
    SquareIsNonNegative(f(n - 1));
    if k < n - 1 {
      ZeroNormIsZero(f, n - 1, k);
    } else {
      ZeroSquare(f(n - 1));
    }
  }

  /** Analysis and synthesis are adjoint, over any rectangle of the matrix. */
  lemma {:induction false} Adjoint(b: Matrix, f: Vector, c: Vector, m: nat, n: nat)
    ensures Dot(Analysis(b, f, n), c, m) == Dot(f, Synthesis(b, c, m), n)
  {
    if m == 0 {
      NothingToSynthesize(b, f, c, n);
    } else {
      Adjoint(b, f, c, m - 1, n);
      SynthesisGrows(b, c, m, n);
      DotIsLinear(Synthesis(b, c, m), Synthesis(b, c, m - 1), c(m - 1), Row(b, m - 1), f, n);
      DotCommutes(f, Synthesis(b, c, m), n);
      DotCommutes(f, Synthesis(b, c, m - 1), n);
    }
  }

  lemma SynthesisGrows(b: Matrix, c: Vector, m: nat, n: nat)
    requires m > 0
    ensures Combines(Synthesis(b, c, m), Synthesis(b, c, m - 1), c(m - 1), Row(b, m - 1), n)
  {
    forall x | 0 <= x < n
      ensures Synthesis(b, c, m)(x) == Synthesis(b, c, m - 1)(x) + c(m - 1) * Row(b, m - 1)(x)
    {
      assert Column(b, x)(m - 1) == Row(b, m - 1)(x);
    }
  }

  lemma {:induction false} NothingToSynthesize(b: Matrix, f: Vector, c: Vector, n: nat)
    ensures Dot(f, Synthesis(b, c, 0), n) == 0.0
  {
    if n > 0 {
      NothingToSynthesize(b, f, c, n - 1);
      assert Synthesis(b, c, 0)(n - 1) == 0.0;
    }
  }

  // ------------------------------------------------------------------
  // Orthonormal columns give orthonormal rows
  // ------------------------------------------------------------------

  /** With orthonormal columns, synthesis inverts analysis. */
  lemma SynthesisInverts(b: Matrix, f: Vector, n: nat, k: nat)
    requires OrthonormalColumns(b, n) && k < n
    ensures Synthesis(b, Analysis(b, f, n), n)(k) == f(k)
  {
    var column := Column(b, k);
    DotCommutes(column, Analysis(b, f, n), n);
    Adjoint(b, f, column, n, n);
    forall x | 0 <= x < n ensures Synthesis(b, column, n)(x) == Unit(k)(x) {
      assert Dot(Column(b, x), Column(b, k), n) == Delta(x, k);
    }
    DotAgrees(Synthesis(b, column, n), Unit(k), f, n);
    DotUnit(f, k, n);
  }

  /** The products of one row with all rows have the row's own product as squared norm. */
  lemma RowProductsNorm(b: Matrix, n: nat, u: nat)
    requires OrthonormalColumns(b, n) && u < n
    ensures var g := Analysis(b, Row(b, u), n);
            Dot(g, g, n) == g(u)
  {
    var row := Row(b, u);
    var g := Analysis(b, row, n);
    Adjoint(b, row, g, n, n);
    forall x | 0 <= x < n ensures Synthesis(b, g, n)(x) == row(x) {
      SynthesisInverts(b, row, n, x);
    }
    DotAgrees(Synthesis(b, g, n), row, row, n);
  }

  /** How the products of row u with all rows miss the unit vector. */
  function Miss(b: Matrix, n: nat, u: int): Vector {
    (v: int) => Analysis(b, Row(b, u), n)(v) - Delta(v, u)
  }

  lemma MissAt(b: Matrix, n: nat, u: int, v: int)
    ensures Miss(b, n, v)(u) == Dot(Row(b, u), Row(b, v), n) - Delta(u, v)
  {
    var g := Analysis(b, Row(b, v), n);
    assert g(u) == Dot(Row(b, u), Row(b, v), n);
  }

  lemma MissNorm(b: Matrix, n: nat, u: nat)
    requires OrthonormalColumns(b, n) && u < n
    ensures Dot(Miss(b, n, u), Miss(b, n, u), n) == 1.0 - Dot(Row(b, u), Row(b, u), n)
  {
    var g, e, miss := Analysis(b, Row(b, u), n), Unit(u), Miss(b, n, u);
    RowProductsNorm(b, n, u);
    DotIsLinear(miss, g, -1.0, e, miss, n);
    DotCommutes(g, miss, n);
    DotCommutes(e, miss, n);
    DotIsLinear(miss, g, -1.0, e, g, n);
    DotIsLinear(miss, g, -1.0, e, e, n);
    DotCommutes(e, g, n);
    DotUnit(g, u, n);
    DotUnit(e, u, n);
  }

  /** Sum of the squared norms of the first m rows. */
  function RowNorms(b: Matrix, m: nat, n: nat): real {
    if m == 0 then 0.0 else RowNorms(b, m - 1, n) + Dot(Row(b, m - 1), Row(b, m - 1), n)
  }

  /** Sum of the squared norms of the first n columns, down to row m. */
  function ColumnNorms(b: Matrix, m: nat, n: nat): real {
    if n == 0 then 0.0 else ColumnNorms(b, m, n - 1) + Dot(Column(b, n - 1), Column(b, n - 1), m)
  }

  lemma {:induction false} ColumnNormsOfNoRows(b: Matrix, n: nat)
    ensures ColumnNorms(b, 0, n) == 0.0
  {
    if n > 0 {
      ColumnNormsOfNoRows(b, n - 1);
    }
  }

  lemma {:induction false} ColumnNormsAddRow(b: Matrix, m: nat, n: nat)
    ensures ColumnNorms(b, m + 1, n) == ColumnNorms(b, m, n) + Dot(Row(b, m), Row(b, m), n)
  {
    if n > 0 {
      ColumnNormsAddRow(b, m, n - 1);
      assert Row(b, m)(n - 1) == Column(b, n - 1)(m);
    }
  }

  lemma {:induction false} NormsAgree(b: Matrix, m: nat, n: nat)
    ensures RowNorms(b, m, n) == ColumnNorms(b, m, n)
  {
    if m == 0 {
      ColumnNormsOfNoRows(b, n);
    } else {
      NormsAgree(b, m - 1, n);
      ColumnNormsAddRow(b, m - 1, n);
    }
  }

  lemma {:induction false} UnitColumnNorms(b: Matrix, n: nat, k: nat)
    requires OrthonormalColumns(b, n) && k <= n
    ensures ColumnNorms(b, n, k) == k as real
  {
    if k > 0 {
      UnitColumnNorms(b, n, k - 1);
      assert Dot(Column(b, k - 1), Column(b, k - 1), n) == Delta(k - 1, k - 1);
    }
  }

  /** If no row is longer than one and the squared lengths add up, every row has length one. */
  lemma {:induction false} RowsAreUnits(b: Matrix, n: nat, m: nat, u: nat)
    requires forall v :: 0 <= v < m ==> Dot(Row(b, v), Row(b, v), n) <= 1.0
    requires RowNorms(b, m, n) >= m as real && u < m
    ensures Dot(Row(b, u), Row(b, u), n) == 1.0
  {
    NormsAtMost(b, n, m - 1);
    if u < m - 1 {
      RowsAreUnits(b, n, m - 1, u);
    }
  }

  lemma {:induction false} NormsAtMost(b: Matrix, n: nat, m: nat)
    requires forall v :: 0 <= v < m ==> Dot(Row(b, v), Row(b, v), n) <= 1.0
    ensures RowNorms(b, m, n) <= m as real
  {
    if m > 0 {
      NormsAtMost(b, n, m - 1);
    }
  }

  /** A square matrix with orthonormal columns has orthonormal rows. */
  lemma ColumnsGiveRows(b: Matrix, n: nat)
    requires OrthonormalColumns(b, n)
    ensures OrthonormalRows(b, n)
  {
    forall v | 0 <= v < n ensures Dot(Row(b, v), Row(b, v), n) <= 1.0 {
      MissNorm(b, n, v);
      NormIsNonNegative(Miss(b, n, v), n);
    }
    NormsAgree(b, n, n);
    UnitColumnNorms(b, n, n);
    forall u, v | 0 <= u < n && 0 <= v < n ensures Dot(Row(b, u), Row(b, v), n) == Delta(u, v) {
      RowsAreUnits(b, n, n, v);
      MissNorm(b, n, v);
      ZeroNormIsZero(Miss(b, n, v), n, u);
      MissAt(b, n, u, v);
    }
  }

  /** With orthonormal columns, analysis inverts synthesis as well. */
  lemma AnalysisInverts(b: Matrix, c: Vector, n: nat, u: nat)
    requires OrthonormalColumns(b, n) && u < n
    ensures Analysis(b, Synthesis(b, c, n), n)(u) == c(u)
  {
    ColumnsGiveRows(b, n);
    var row := Row(b, u);
    Adjoint(b, row, c, n, n);
    forall v | 0 <= v < n ensures Analysis(b, row, n)(v) == Unit(u)(v) {
      assert Dot(Row(b, v), Row(b, u), n) == Delta(v, u);
    }
    DotAgrees(Analysis(b, row, n), Unit(u), c, n);
    DotCommutes(Unit(u), c, n);
    DotUnit(c, u, n);
  }

  /** Energy is the same in samples and in coefficients. */
  lemma Parseval(b: Matrix, c: Vector, n: nat)
    requires OrthonormalColumns(b, n)
    ensures Dot(Synthesis(b, c, n), Synthesis(b, c, n), n) == Dot(c, c, n)
  {
    var s := Synthesis(b, c, n);
    Adjoint(b, s, c, n, n);
    forall u | 0 <= u < n ensures Analysis(b, s, n)(u) == c(u) {
      AnalysisInverts(b, c, n, u);
    }
    DotAgrees(Analysis(b, s, n), c, c, n);
  }
}
