/**
 * Specification of the local coarse-to-fine prolongation table of an element
 * type: entry (i, j) is the weight of coarse dof j in fine node i, and only
 * entries whose magnitude reaches the threshold 1e-14 are stored, row by row,
 * in ascending column order (a compressed-sparse-row table).
 */
module Prolongation {
  import opened RefBasis

  /** The cut-off 1.0e-14 below which a coefficient is not stored. */
  const Threshold: real := 0.00000000000001

  function Abs(v: real): (r: real)
    ensures r >= 0.0 && (r == v || r == -v)
  {
    if v < 0.0 then -v else v
  }

  /** `fabs(phi) >= 1.0e-14`: the test of the element constructors. */
  predicate Keep(v: real)
  {
    Abs(v) >= Threshold
  }

  /** Number of subdivisions of a refined element: 2, 4 or 8. */
  function Children(dim: nat): (c: nat)
    ensures c >= 2
  {
    if dim == 1 then 2 else if dim == 2 then 4 else 8
  }

  /** What the table is built from: the element's own basis and the linear basis
      of the same geometry (`linearElement`). */
  datatype ProlData = ProlData(dim: nat, solType: nat, basis: Basis, linear: Basis)

  /** The shape the constructors rely on: one coordinate vector per fine node,
      four Lagrange counts, and at most dim+1 coarse dofs for disc_linear, whose
      rows index the dim+1 entries of `jac`. */
  predicate WellFormed(p: ProlData)
  {
    && 1 <= p.dim <= 3
    && p.solType < 5
    && |p.basis.x| == p.basis.nf
    && |p.basis.kvert| == p.basis.nf
    && |p.basis.nlag| == 4
    && (p.solType == 4 ==> p.basis.nc <= p.dim + 1)
  }

  /** Rows of a disc_linear table that hold a derivative of the linear map
      instead of shape values: i/2 == 1 in 1D, i/4 >= 1 in 2D, i/8 >= 1 in 3D. */
  predicate IsDerivativeRow(p: ProlData, i: nat)
  {
    p.solType == 4 && (if p.dim == 1 then i / 2 == 1 else i / Children(p.dim) >= 1)
  }

  /** Reference axis differentiated by a derivative row (0 = xi, 1 = eta, 2 = zeta). */
  function DerivativeAxis(p: ProlData, i: nat): nat
  {
    if i / Children(p.dim) >= 1 then i / Children(p.dim) - 1 else 0
  }

  /** `jac[c+1]` partial sum: sum over k < n of d(phi_k)/d(axis) at the fine node
      times coordinate c of coarse vertex k seen from subdivision i % children. */
  function JacobianSum(p: ProlData, i: nat, c: nat, n: nat): real
    requires i < |p.basis.x|
  {
    if n == 0 then 0.0
    else
      JacobianSum(p, i, c, n - 1)
      + p.linear.dphi(DerivativeAxis(p, i), n - 1, p.basis.x[i])
        * p.linear.childVertex(i % Children(p.dim), n - 1, c)
  }

  /** `jac[j]`: entry 0 is never written, and an axis beyond the dimension
      (no matching branch in the constructor) leaves the vector zero. */
  function JacobianEntry(p: ProlData, i: nat, j: nat): real
    requires WellFormed(p) && i < p.basis.nf
  {
    if j == 0 || DerivativeAxis(p, i) >= p.dim then 0.0
    else JacobianSum(p, i, j - 1, p.basis.nlag[0])
  }

  /** The candidate value of entry (i, j) before the threshold test. */
  function Coefficient(p: ProlData, i: nat, j: nat): real
    requires WellFormed(p) && i < p.basis.nf
  {
    if IsDerivativeRow(p, i) then JacobianEntry(p, i, j) else p.basis.phi(j, p.basis.x[i])
  }

  /** Stored columns of row i among the first n coarse dofs. */
  function RowCols(p: ProlData, i: nat, n: nat): seq<nat>
    requires WellFormed(p) && i < p.basis.nf
  {
    if n == 0 then []
    else RowCols(p, i, n - 1) + (if Keep(Coefficient(p, i, n - 1)) then [n - 1] else [])
  }

  /** Stored values of row i among the first n coarse dofs. */
  function RowVals(p: ProlData, i: nat, n: nat): seq<real>
    requires WellFormed(p) && i < p.basis.nf
  {
    if n == 0 then []
    else
      var v := Coefficient(p, i, n - 1);
      RowVals(p, i, n - 1) + (if Keep(v) then [v] else [])
  }

  /** Column buffer `_mem_prol_ind` after the first m rows. */
  function TableCols(p: ProlData, m: nat): seq<nat>
    requires WellFormed(p) && m <= p.basis.nf
  {
    if m == 0 then [] else TableCols(p, m - 1) + RowCols(p, m - 1, p.basis.nc)
  }

  /** Value buffer `_mem_prol_val` after the first m rows. */
  function TableVals(p: ProlData, m: nat): seq<real>
    requires WellFormed(p) && m <= p.basis.nf
  {
    if m == 0 then [] else TableVals(p, m - 1) + RowVals(p, m - 1, p.basis.nc)
  }

  /** The coefficient with sub-threshold entries dropped. */
  function Truncated(p: ProlData, i: nat, j: nat): real
    requires WellFormed(p) && i < p.basis.nf
  {
    var v := Coefficient(p, i, j);
    if Keep(v) then v else 0.0
  }

  /** Column and value buffers of a row grow together. */
  lemma {:induction false} RowLength(p: ProlData, i: nat, n: nat)
    requires WellFormed(p) && i < p.basis.nf
    ensures |RowCols(p, i, n)| == |RowVals(p, i, n)| <= n
  {
    if n > 0 {
      RowLength(p, i, n - 1);
    }
  }

  /** A row only grows as more coarse dofs are scanned. */
  lemma {:induction false} RowGrows(p: ProlData, i: nat, j: nat, n: nat)
    requires WellFormed(p) && i < p.basis.nf && j <= n
    ensures |RowCols(p, i, j)| <= |RowCols(p, i, n)|
    decreases n - j
  {
    if j < n {
      RowGrows(p, i, j, n - 1);
    }
  }

  /** A row holds, in ascending order, exactly the columns whose coefficient passes the
      threshold, each paired with that coefficient. */
  lemma {:induction false} RowShape(p: ProlData, i: nat, n: nat)
    requires WellFormed(p) && i < p.basis.nf
    ensures |RowCols(p, i, n)| == |RowVals(p, i, n)| <= n
    ensures forall k :: 0 <= k < |RowCols(p, i, n)| ==> RowCols(p, i, n)[k] < n
    ensures forall k, l :: 0 <= k < l < |RowCols(p, i, n)| ==> RowCols(p, i, n)[k] < RowCols(p, i, n)[l]
    ensures forall k :: 0 <= k < |RowCols(p, i, n)| ==>
              RowVals(p, i, n)[k] == Coefficient(p, i, RowCols(p, i, n)[k]) && Keep(RowVals(p, i, n)[k])
    ensures forall j :: 0 <= j < n ==> (j in RowCols(p, i, n) <==> Keep(Coefficient(p, i, j)))
  {
    if n > 0 {
      RowShape(p, i, n - 1);
    }
  }

  /** Applying row i to a coarse vector gives the truncated interpolation sum. */
  lemma {:induction false} RowApplication(p: ProlData, i: nat, n: nat, u: nat -> real)
    requires WellFormed(p) && i < p.basis.nf
    ensures |RowCols(p, i, n)| == |RowVals(p, i, n)|
    ensures Apply(RowCols(p, i, n), RowVals(p, i, n), u) == TruncatedSum(p, i, n, u)
  {
    RowLength(p, i, n);
    if n > 0 {
      RowApplication(p, i, n - 1, u);
      var c, v := RowCols(p, i, n - 1), RowVals(p, i, n - 1);
      var w := Coefficient(p, i, n - 1);
      var before := TruncatedSum(p, i, n - 1, u);
      assert Apply(c, v, u) == before;
      if Keep(w) {
        assert RowCols(p, i, n) == c + [n - 1] && RowVals(p, i, n) == v + [w];
        ApplySnoc(c, v, n - 1, w, u);
        assert Truncated(p, i, n - 1) == w;
      } else {
        assert RowCols(p, i, n) == c && RowVals(p, i, n) == v;
        assert Truncated(p, i, n - 1) == 0.0;
        assert TruncatedSum(p, i, n, u) == before + 0.0 * u(n - 1);
      }
    }
  }

  /** Sum over stored entries of value times u(column). */
  function Apply(cols: seq<nat>, vals: seq<real>, u: nat -> real): real
    requires |cols| == |vals|
  {
    if |cols| == 0 then 0.0
    else Apply(cols[..|cols| - 1], vals[..|vals| - 1], u) + vals[|vals| - 1] * u(cols[|cols| - 1])
  }

  lemma ApplySnoc(cols: seq<nat>, vals: seq<real>, j: nat, v: real, u: nat -> real)
    requires |cols| == |vals|
    ensures Apply(cols + [j], vals + [v], u) == Apply(cols, vals, u) + v * u(j)
  {
    assert (cols + [j])[..|cols|] == cols;
    assert (vals + [v])[..|vals|] == vals;
  }

  /** Sum over all j < n of the truncated coefficient times u(j). */
  function TruncatedSum(p: ProlData, i: nat, n: nat, u: nat -> real): real
    requires WellFormed(p) && i < p.basis.nf
  {
    if n == 0 then 0.0 else TruncatedSum(p, i, n - 1, u) + Truncated(p, i, n - 1) * u(n - 1)
  }

  /** Since `jac[0]` is never written, column 0 is absent from every derivative row. */
  lemma DerivativeRowOmitsColumnZero(p: ProlData, i: nat)
    requires WellFormed(p) && i < p.basis.nf && IsDerivativeRow(p, i)
    ensures 0 !in RowCols(p, i, p.basis.nc)
  {
    RowShape(p, i, p.basis.nc);
    assert !Keep(Coefficient(p, i, 0));
  }

  /** Row sizes add up: the buffers of the first m rows are those of m-1 rows plus row m-1. */
  lemma {:induction false} TableLength(p: ProlData, m: nat)
    requires WellFormed(p) && m <= p.basis.nf
    ensures |TableCols(p, m)| == |TableVals(p, m)|
    ensures m > 0 ==> |TableCols(p, m)| == |TableCols(p, m - 1)| + |RowCols(p, m - 1, p.basis.nc)|
  {
    if m > 0 {
      TableLength(p, m - 1);
      RowLength(p, m - 1, p.basis.nc);
    }
  }

  /** Row pointers are non-decreasing and each earlier table is a prefix of a later one. */
  lemma {:induction false} TablePrefix(p: ProlData, m: nat, m': nat)
    requires WellFormed(p) && m <= m' <= p.basis.nf
    ensures |TableCols(p, m)| <= |TableCols(p, m')|
    ensures TableCols(p, m) == TableCols(p, m')[..|TableCols(p, m)|]
    ensures |TableVals(p, m)| <= |TableVals(p, m')|
    ensures TableVals(p, m) == TableVals(p, m')[..|TableVals(p, m)|]
    decreases m' - m
  {
    TableLength(p, m');
    TableLength(p, m);
    if m < m' {
      TablePrefix(p, m, m' - 1);
      TableLength(p, m' - 1);
      RowLength(p, m' - 1, p.basis.nc);
      var a, b := TableCols(p, m), TableCols(p, m' - 1);
      assert TableCols(p, m') == b + RowCols(p, m' - 1, p.basis.nc);
      assert (b + RowCols(p, m' - 1, p.basis.nc))[..|b|] == b;
      var av, bv := TableVals(p, m), TableVals(p, m' - 1);
      assert TableVals(p, m') == bv + RowVals(p, m' - 1, p.basis.nc);
      assert (bv + RowVals(p, m' - 1, p.basis.nc))[..|bv|] == bv;
    }
  }

  /** The column buffer only grows with the number of rows. */
  lemma {:induction false} TableGrows(p: ProlData, m: nat, m': nat)
    requires WellFormed(p) && m <= m' <= p.basis.nf
    ensures |TableCols(p, m)| <= |TableCols(p, m')|
    decreases m' - m
  {
    if m < m' {
      TableGrows(p, m, m' - 1);
      TableLength(p, m');
    }
  }

  /** Row i of the full table sits between the pointers of rows i and i+1. */
  lemma TableRow(p: ProlData, i: nat)
    requires WellFormed(p) && i < p.basis.nf
    ensures |TableCols(p, i)| <= |TableCols(p, i + 1)| <= |TableCols(p, p.basis.nf)|
    ensures |TableCols(p, p.basis.nf)| == |TableVals(p, p.basis.nf)|
    ensures TableCols(p, p.basis.nf)[|TableCols(p, i)|..|TableCols(p, i + 1)|] == RowCols(p, i, p.basis.nc)
    ensures TableVals(p, p.basis.nf)[|TableCols(p, i)|..|TableCols(p, i + 1)|] == RowVals(p, i, p.basis.nc)
  {
    var nf := p.basis.nf;
    TablePrefix(p, i + 1, nf);
    TableLength(p, i + 1);
    TableLength(p, i);
    TableLength(p, nf);
    var full, fullV := TableCols(p, nf), TableVals(p, nf);
    var lo, hi := |TableCols(p, i)|, |TableCols(p, i + 1)|;
    assert full[..hi] == TableCols(p, i) + RowCols(p, i, p.basis.nc);
    assert full[lo..hi] == full[..hi][lo..];
    assert fullV[..hi] == TableVals(p, i) + RowVals(p, i, p.basis.nc);
    assert fullV[lo..hi] == fullV[..hi][lo..];
  }
}
