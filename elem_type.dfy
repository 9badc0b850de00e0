/**
 * The element type `elem_type` and its dimension-specific constructors: the
 * prolongation table is built in two passes into flat buffers, the shape values
 * and reference derivatives are tabulated at the Gauss points, and the export
 * copy of those tables is taken through the HEX27 renumbering.
 */
module ElemTypes {
  import opened ElemConfig
  import opened RefBasis
  import opened Prolongation
  import opened Jacobian
  import opened Transfer

  /** Node k of the FEMuS HEX27 numbering is node `FemusToLibmesh[k]` of the libMesh one. */
  const FemusToLibmesh: seq<nat> :=
    [0, 1, 2, 3, 4, 5, 6, 7, 8, 9, 10, 11, 16, 17, 18, 19, 12, 13, 14, 15, 24, 20, 21, 22, 23, 25, 26]

  /** The reverse renumbering. */
  const LibmeshToFemus: seq<nat> :=
    [0, 1, 2, 3, 4, 5, 6, 7, 8, 9, 10, 11, 16, 17, 18, 19, 12, 13, 14, 15, 21, 22, 23, 24, 20, 25, 26]

  /** The two HEX27 tables are permutations of 0..26 and undo each other. */
  lemma HexRenumberingInverse()
    ensures |FemusToLibmesh| == 27 && |LibmeshToFemus| == 27
    ensures forall k :: 0 <= k < 27 ==> FemusToLibmesh[k] < 27 && LibmeshToFemus[FemusToLibmesh[k]] == k
    ensures forall k :: 0 <= k < 27 ==> LibmeshToFemus[k] < 27 && FemusToLibmesh[LibmeshToFemus[k]] == k
  {
  }

  /** Source dof of export slot k: renumbered for HEX27, the identity otherwise. */
  function ExportIndex(hex27: bool, k: nat): (s: nat)
    requires hex27 ==> k < 27
    ensures hex27 ==> s < 27 && LibmeshToFemus[s] == k
    ensures !hex27 ==> s == k
  {
    HexRenumberingInverse();
    if hex27 then FemusToLibmesh[k] else k
  }

  /** What a reference basis of the given variant is relied upon to satisfy:
      coordinates and subdivision data for every fine node, four Lagrange counts,
      at most dim+1 dofs for the piecewise-linear family (they index `jac`), and
      27 dofs for the triquadratic hexahedron. */
  predicate BasisFits(v: BasisVariant, b: Basis)
  {
    && b.nc > 0
    && |b.x| == b.nf
    && |b.kvert| == b.nf
    && |b.nlag| == 4
    && (v.family == PiecewiseLinear ==> b.nc <= Dimension(v.geometry) + 1)
    && (v == BasisVariant(Hex, Biquadratic) ==> b.nc == 27)
  }

  /** A basis that fits the variant the constructor chose for an order and a geometry
      gives a well-formed table of the order's solution type, with 27 dofs for HEX27. */
  lemma ChosenBasisFits(dim: nat, geom: string, order: string, basis: Basis, linear: Basis)
    requires 1 <= dim <= 3 && Setup(dim, geom, order).Ok?
    requires BasisFits(Setup(dim, geom, order).value.basis, basis)
    ensures var s := Setup(dim, geom, order).value;
            && ParseOrder(order).Some? && s.solType == ParseOrder(order).value
            && WellFormed(ProlData(dim, s.solType, basis, linear))
            && (IsHex27(dim, geom, order) ==> basis.nc == 27)
  {
    SetupMeaning(dim, geom, order);
    var s := Setup(dim, geom, order).value;
    ParseOrderRoundTrip(s.solType);
  }

  /** The export copy is renumbered exactly for a "biquadratic" "hex" element in 3D. */
  predicate IsHex27(dim: nat, geom: string, order: string)
  {
    order == "biquadratic" && dim == 3 && geom == "hex"
  }

  /** Flat position of entry (k, a) in a row of d blocks, each n wide: `k + a * n`. */
  function Flat(k: nat, a: nat, n: nat, d: nat): (f: nat)
    requires k < n && a < d
    ensures f < n * d
  {
    FlatBound(k, a, n, d);
    k + a * n
  }

  lemma FlatBound(k: nat, a: nat, n: nat, d: nat)
    requires k < n && a < d
    ensures k + a * n < n * d
  {
    assert (a + 1) * n <= d * n by {
      assert a + 1 <= d;
    }
    assert (a + 1) * n == a * n + n;
  }

  /** Within a block the flat position determines both coordinates. */
  lemma FlatSplit(k: nat, a: nat, n: nat, d: nat)
    requires k < n && a < d
    ensures Flat(k, a, n, d) / n == a && Flat(k, a, n, d) % n == k
  {
    var q := k + a * n;
    var e := q / n - a;
    assert e * n == k - q % n;
  }

  lemma FlatInjective(k: nat, a: nat, k': nat, a': nat, n: nat, d: nat)
    requires k < n && k' < n && a < d && a' < d && Flat(k, a, n, d) == Flat(k', a', n, d)
    ensures k == k' && a == a'
  {
    FlatSplit(k, a, n, d);
    FlatSplit(k', a', n, d);
  }

  /** The (dof, axis) pair stored at flat position f: `(f % n, f / n)`. */
  function Unflat(f: nat, n: nat, d: nat): (ka: (nat, nat))
    requires 0 < n && f < n * d
    ensures ka.0 < n && ka.1 < d && Flat(ka.0, ka.1, n, d) == f
  {
    FlatOnto(f, n, d);
    (f % n, f / n)
  }

  lemma FlatOnto(f: nat, n: nat, d: nat)
    requires 0 < n && f < n * d
    ensures f % n < n && f / n < d && Flat(f % n, f / n, n, d) == f
  {
  }

  // ---------------------------------------------------------------------------
  // Two-pass construction of the prolongation table
  // ---------------------------------------------------------------------------

  /** The local vector `jac` of fine node i: for a derivative row, entry c+1 sums the
      reference derivative of each linear vertex function along the row's axis times
      coordinate c of that vertex seen from the subdivision; otherwise all zero. */
  method DerivativeVector(p: ProlData, i: nat) returns (jac: seq<real>)
    requires WellFormed(p) && i < p.basis.nf
    ensures |jac| == p.dim + 1
    ensures forall j :: 0 <= j < |jac| ==> jac[j] == (if IsDerivativeRow(p, i) then JacobianEntry(p, i, j) else 0.0)
  {
    var v := new real[p.dim + 1](_ => 0.0);
    if IsDerivativeRow(p, i) {
      var axis := DerivativeAxis(p, i);
      var k := 0;
      while k < p.basis.nlag[0]
        invariant 0 <= k <= p.basis.nlag[0]
        invariant v[0] == 0.0
        invariant forall j :: 1 <= j <= p.dim ==> v[j] == (if axis < p.dim then JacobianSum(p, i, j - 1, k) else 0.0)
      {
        if axis < p.dim {
          AddVertex(p, i, axis, k, v);
        }
        k := k + 1;
      }
    }
    jac := v[..];
  }

  /** Coarse vertex k's term added to every coordinate `jac[c+1]`. */
  method AddVertex(p: ProlData, i: nat, axis: nat, k: nat, v: array<real>)
    requires WellFormed(p) && i < p.basis.nf && axis == DerivativeAxis(p, i) && v.Length == p.dim + 1
    requires v[0] == 0.0 && forall j :: 1 <= j <= p.dim ==> v[j] == JacobianSum(p, i, j - 1, k)
    modifies v
    ensures v[0] == 0.0 && forall j :: 1 <= j <= p.dim ==> v[j] == JacobianSum(p, i, j - 1, k + 1)
  {
    var c := 0;
    while c < p.dim
      invariant 0 <= c <= p.dim
      invariant v[0] == 0.0
      invariant forall j :: 1 <= j <= c ==> v[j] == JacobianSum(p, i, j - 1, k + 1)
      invariant forall j :: c < j <= p.dim ==> v[j] == JacobianSum(p, i, j - 1, k)
    {
      v[c + 1] := v[c + 1] + p.linear.dphi(axis, k, p.basis.x[i]) * p.linear.childVertex(i % Children(p.dim), k, c);
      c := c + 1;
    }
  }

  /** The value the constructors test for entry (i, j): phi of dof j at fine node i,
      replaced by `jac[j]` on a derivative row. */
  method EntryValue(p: ProlData, i: nat, j: nat, jac: seq<real>) returns (v: real)
    requires WellFormed(p) && i < p.basis.nf && j < p.basis.nc
    requires |jac| == p.dim + 1
    requires forall l :: 0 <= l < |jac| ==> jac[l] == (if IsDerivativeRow(p, i) then JacobianEntry(p, i, l) else 0.0)
    ensures v == Coefficient(p, i, j)
  {
    v := p.basis.phi(j, p.basis.x[i]);
    if IsDerivativeRow(p, i) {
      v := jac[j];
    }
  }

  /** First pass: the number of entries that pass the threshold. */
  method CountTableEntries(p: ProlData) returns (counter: nat)
    requires WellFormed(p)
    ensures counter == |TableCols(p, p.basis.nf)|
    ensures counter == |TableVals(p, p.basis.nf)|
  {
    counter := 0;
    var i := 0;
    while i < p.basis.nf
      invariant 0 <= i <= p.basis.nf
      invariant counter == |TableCols(p, i)|
    {
      var jac := DerivativeVector(p, i);
      var j := 0;
      while j < p.basis.nc
        invariant 0 <= j <= p.basis.nc
        invariant counter == |TableCols(p, i)| + |RowCols(p, i, j)|
      {
        var v := EntryValue(p, i, j, jac);
        if Abs(v) >= Threshold {
          counter := counter + 1;
        }
        j := j + 1;
      }
      i := i + 1;
    }
    TableLength(p, p.basis.nf);
  }

  /** Both passes: count the entries, allocate the buffers at that size, then fill them. */
  method NewTable(p: ProlData) returns (offset: array<nat>, vals: array<real>, inds: array<nat>)
    requires WellFormed(p)
    ensures fresh(offset) && fresh(vals) && fresh(inds)
    ensures TableHolds(p, offset, vals, inds)
  {
    var counter := CountTableEntries(p);
    offset := new nat[p.basis.nf + 1];
    vals := new real[counter];
    inds := new nat[counter];
    FillTable(p, offset, vals, inds);
  }

  /** Second pass: values and column indices are written through one bumped offset,
      and the offset at the start of every row, plus the end sentinel, is recorded. */
  method FillTable(p: ProlData, offset: array<nat>, vals: array<real>, inds: array<nat>)
    requires WellFormed(p)
    requires offset.Length == p.basis.nf + 1
    requires vals.Length == |TableCols(p, p.basis.nf)| && inds.Length == |TableCols(p, p.basis.nf)|
    requires offset != inds
    modifies offset, vals, inds
    ensures inds[..] == TableCols(p, p.basis.nf)
    ensures vals[..] == TableVals(p, p.basis.nf)
    ensures forall r {:trigger offset[r]} :: 0 <= r <= p.basis.nf ==> offset[r] == |TableCols(p, r)|
  {
    var nf := p.basis.nf;
    TableLength(p, nf);
    var pt := 0;
    var i := 0;
    while i < nf
      invariant 0 <= i <= nf
      invariant pt == |TableCols(p, i)| == |TableVals(p, i)| <= inds.Length
      invariant inds[..pt] == TableCols(p, i)
      invariant vals[..pt] == TableVals(p, i)
      invariant forall r {:trigger offset[r]} :: 0 <= r < i ==> offset[r] == |TableCols(p, r)|
    {
      pt := FillTableRow(p, offset, vals, inds, i, pt);
      i := i + 1;
    }
    offset[nf] := pt;
    assert inds[..] == inds[..pt];
    assert vals[..] == vals[..pt];
  }

  /** One iteration of the second pass: row i's start recorded, then its entries appended. */
  method FillTableRow(p: ProlData, offset: array<nat>, vals: array<real>, inds: array<nat>, i: nat, pt0: nat)
    returns (pt: nat)
    requires WellFormed(p) && i < p.basis.nf
    requires offset.Length == p.basis.nf + 1 && offset != inds
    requires vals.Length == |TableCols(p, p.basis.nf)| && inds.Length == |TableCols(p, p.basis.nf)|
    requires pt0 == |TableCols(p, i)| == |TableVals(p, i)| <= inds.Length
    requires inds[..pt0] == TableCols(p, i) && vals[..pt0] == TableVals(p, i)
    modifies offset, vals, inds
    ensures pt == |TableCols(p, i + 1)| == |TableVals(p, i + 1)| <= inds.Length
    ensures inds[..pt] == TableCols(p, i + 1) && vals[..pt] == TableVals(p, i + 1)
    ensures offset[i] == pt0
    ensures forall r {:trigger offset[r]} :: 0 <= r < offset.Length && r != i ==> offset[r] == old(offset[r])
  {
    offset[i] := pt0;
    TableGrows(p, i + 1, p.basis.nf);
    TableLength(p, i + 1);
    pt := FillRow(p, i, vals, inds, pt0, TableCols(p, i), TableVals(p, i));
  }

  /** Row i of the second pass: the entries of the row are appended at offset `pt0`,
      after the `tc`/`tv` already written. */
  method FillRow(p: ProlData, i: nat, vals: array<real>, inds: array<nat>, pt0: nat, ghost tc: seq<nat>, ghost tv: seq<real>)
    returns (pt: nat)
    requires WellFormed(p) && i < p.basis.nf
    requires vals.Length == inds.Length && pt0 + |RowCols(p, i, p.basis.nc)| <= inds.Length
    requires inds[..pt0] == tc && vals[..pt0] == tv
    modifies vals, inds
    ensures pt == pt0 + |RowCols(p, i, p.basis.nc)|
    ensures inds[..pt] == tc + RowCols(p, i, p.basis.nc) && vals[..pt] == tv + RowVals(p, i, p.basis.nc)
  {
    var nc := p.basis.nc;
    var jac := DerivativeVector(p, i);
    pt := pt0;
    var j := 0;
    while j < nc
      invariant 0 <= j <= nc
      invariant |RowCols(p, i, j)| == |RowVals(p, i, j)|
      invariant pt == pt0 + |RowCols(p, i, j)| <= pt0 + |RowCols(p, i, nc)|
      invariant inds[..pt] == tc + RowCols(p, i, j)
      invariant vals[..pt] == tv + RowVals(p, i, j)
    {
      var v := EntryValue(p, i, j, jac);
      RowStep(p, i, j);
      RowGrows(p, i, j + 1, nc);
      pt := StoreEntry(vals, inds, pt, j, v);
      j := j + 1;
    }
  }

  /** `if (fabs(phi) >= 1.0e-14) { *(pt_d++) = phi; *(pt_i++) = j; }` */
  method StoreEntry(vals: array<real>, inds: array<nat>, pt0: nat, j: nat, v: real) returns (pt: nat)
    requires vals.Length == inds.Length && pt0 <= inds.Length
    requires Keep(v) ==> pt0 < inds.Length
    modifies vals, inds
    ensures pt == if Keep(v) then pt0 + 1 else pt0
    ensures inds[..pt] == old(inds[..pt0]) + (if Keep(v) then [j] else [])
    ensures vals[..pt] == old(vals[..pt0]) + (if Keep(v) then [v] else [])
  {
    pt := pt0;
    if Abs(v) >= Threshold {
      vals[pt] := v;
      inds[pt] := j;
      pt := pt + 1;
      assert inds[..pt] == old(inds[..pt0]) + [j];
      assert vals[..pt] == old(vals[..pt0]) + [v];
    }
  }

  /** One more scanned dof appends (j, value) to the row exactly when the value passes. */
  lemma RowStep(p: ProlData, i: nat, j: nat)
    requires WellFormed(p) && i < p.basis.nf
    ensures |RowCols(p, i, j + 1)| == |RowVals(p, i, j + 1)|
    ensures RowCols(p, i, j + 1) == RowCols(p, i, j) + (if Keep(Coefficient(p, i, j)) then [j] else [])
    ensures RowVals(p, i, j + 1) == RowVals(p, i, j) + (if Keep(Coefficient(p, i, j)) then [Coefficient(p, i, j)] else [])
  {
    RowLength(p, i, j + 1);
  }

  // ---------------------------------------------------------------------------
  // Shape tables at the Gauss points
  // ---------------------------------------------------------------------------

  /** `_phi`, `_dphidxi`/`_dphideta`/`_dphidzeta` (as axis 0..dim-1 of `dphi`) and the
      second-derivative tables (as kind 0..SecondKinds(dim)-1 of `d2phi`) hold the basis
      evaluated at every Gauss point, rows indexed by point and columns by dof. */
  ghost predicate ShapeTablesHold(b: Basis, g: GaussRule, dim: nat, phi: array2<real>, dphi: array3<real>, d2phi: array3<real>)
    reads phi, dphi, d2phi
  {
    && GaussFits(g, dim)
    && phi.Length0 == g.n && phi.Length1 == b.nc
    && dphi.Length0 == dim && dphi.Length1 == g.n && dphi.Length2 == b.nc
    && d2phi.Length0 == SecondKinds(dim) && d2phi.Length1 == g.n && d2phi.Length2 == b.nc
    && (forall ig, j :: 0 <= ig < g.n && 0 <= j < b.nc ==> phi[ig, j] == b.phi(j, GaussPoint(g, dim, ig)))
    && (forall a, ig, j :: 0 <= a < dim && 0 <= ig < g.n && 0 <= j < b.nc ==>
          dphi[a, ig, j] == b.dphi(a, j, GaussPoint(g, dim, ig)))
    && (forall s, ig, j :: 0 <= s < SecondKinds(dim) && 0 <= ig < g.n && 0 <= j < b.nc ==>
          d2phi[s, ig, j] == b.d2phi(s, j, GaussPoint(g, dim, ig)))
  }

  /** The value, first- and second-derivative tables, allocated and tabulated. */
  method NewShapeTables(b: Basis, g: GaussRule, dim: nat) returns (phi: array2<real>, dphi: array3<real>, d2phi: array3<real>)
    requires GaussFits(g, dim)
    ensures fresh(phi) && fresh(dphi) && fresh(d2phi)
    ensures ShapeTablesHold(b, g, dim, phi, dphi, d2phi)
  {
    phi := new real[g.n, b.nc];
    dphi := new real[dim, g.n, b.nc];
    d2phi := new real[SecondKinds(dim), g.n, b.nc];
    FillShapeTables(b, g, dim, phi, dphi, d2phi);
  }

  /** Tabulate the basis at the Gauss points, reading point ig's coordinates from the
      flat Gauss table. */
  method FillShapeTables(b: Basis, g: GaussRule, dim: nat, phi: array2<real>, dphi: array3<real>, d2phi: array3<real>)
    requires GaussFits(g, dim)
    requires phi.Length0 == g.n && phi.Length1 == b.nc
    requires dphi.Length0 == dim && dphi.Length1 == g.n && dphi.Length2 == b.nc
    requires d2phi.Length0 == SecondKinds(dim) && d2phi.Length1 == g.n && d2phi.Length2 == b.nc
    requires dphi != d2phi
    modifies phi, dphi, d2phi
    ensures ShapeTablesHold(b, g, dim, phi, dphi, d2phi)
  {
    var nk := SecondKinds(dim);
    var ig := 0;
    while ig < g.n
      invariant 0 <= ig <= g.n
      invariant forall i, j :: 0 <= i < ig && 0 <= j < b.nc ==> phi[i, j] == b.phi(j, GaussPoint(g, dim, i))
      invariant forall a, i, j :: 0 <= a < dim && 0 <= i < ig && 0 <= j < b.nc ==>
                  dphi[a, i, j] == b.dphi(a, j, GaussPoint(g, dim, i))
      invariant forall s, i, j :: 0 <= s < nk && 0 <= i < ig && 0 <= j < b.nc ==>
                  d2phi[s, i, j] == b.d2phi(s, j, GaussPoint(g, dim, i))
    {
      FillShapeRow(b, g, dim, phi, dphi, d2phi, ig);
      ig := ig + 1;
    }
  }

  /** Row ig of the three tables, tabulated at Gauss point ig; the other rows are kept. */
  method FillShapeRow(b: Basis, g: GaussRule, dim: nat, phi: array2<real>, dphi: array3<real>, d2phi: array3<real>, ig: nat)
    requires GaussFits(g, dim) && ig < g.n
    requires phi.Length0 == g.n && phi.Length1 == b.nc
    requires dphi.Length0 == dim && dphi.Length1 == g.n && dphi.Length2 == b.nc
    requires d2phi.Length0 == SecondKinds(dim) && d2phi.Length1 == g.n && d2phi.Length2 == b.nc
    requires dphi != d2phi
    modifies phi, dphi, d2phi
    ensures forall j :: 0 <= j < b.nc ==> phi[ig, j] == b.phi(j, GaussPoint(g, dim, ig))
    ensures forall a, j :: 0 <= a < dim && 0 <= j < b.nc ==> dphi[a, ig, j] == b.dphi(a, j, GaussPoint(g, dim, ig))
    ensures forall s, j :: 0 <= s < SecondKinds(dim) && 0 <= j < b.nc ==> d2phi[s, ig, j] == b.d2phi(s, j, GaussPoint(g, dim, ig))
    ensures forall i, j :: 0 <= i < g.n && i != ig && 0 <= j < b.nc ==> phi[i, j] == old(phi[i, j])
    ensures forall a, i, j :: 0 <= a < dim && 0 <= i < g.n && i != ig && 0 <= j < b.nc ==> dphi[a, i, j] == old(dphi[a, i, j])
    ensures forall s, i, j :: 0 <= s < SecondKinds(dim) && 0 <= i < g.n && i != ig && 0 <= j < b.nc ==>
              d2phi[s, i, j] == old(d2phi[s, i, j])
  {
    var nk := SecondKinds(dim);
    var x := GaussPoint(g, dim, ig);
    var j := 0;
    while j < b.nc
      invariant 0 <= j <= b.nc
      invariant forall i, j' :: 0 <= i < g.n && i != ig && 0 <= j' < b.nc ==> phi[i, j'] == old(phi[i, j'])
      invariant forall a, i, j' :: 0 <= a < dim && 0 <= i < g.n && i != ig && 0 <= j' < b.nc ==> dphi[a, i, j'] == old(dphi[a, i, j'])
      invariant forall s, i, j' :: 0 <= s < nk && 0 <= i < g.n && i != ig && 0 <= j' < b.nc ==> d2phi[s, i, j'] == old(d2phi[s, i, j'])
      invariant forall j' :: 0 <= j' < j ==> phi[ig, j'] == b.phi(j', x)
      invariant forall a, j' :: 0 <= a < dim && 0 <= j' < j ==> dphi[a, ig, j'] == b.dphi(a, j', x)
      invariant forall s, j' :: 0 <= s < nk && 0 <= j' < j ==> d2phi[s, ig, j'] == b.d2phi(s, j', x)
    {
      phi[ig, j] := b.phi(j, x);
      TabulateCell(dphi, b.dphi, ig, j, x);
      TabulateCell(d2phi, b.d2phi, ig, j, x);
      j := j + 1;
    }
  }

  /** Row ig of an export table: slot k takes the value of dof `ExportIndex(hex27, k)`. */
  method CopyExportRow(ghost b: Basis, ghost x: Point, phi: array2<real>, pm: array2<real>, ig: nat, hex27: bool)
    requires pm != phi && (hex27 ==> b.nc == 27)
    requires ig < phi.Length0 && phi.Length1 == b.nc && ig < pm.Length0 && pm.Length1 == b.nc
    requires forall j :: 0 <= j < b.nc ==> phi[ig, j] == b.phi(j, x)
    modifies pm
    ensures forall k :: 0 <= k < b.nc ==> pm[ig, k] == b.phi(ExportIndex(hex27, k), x)
    ensures forall i, k :: 0 <= i < pm.Length0 && i != ig && 0 <= k < b.nc ==> pm[i, k] == old(pm[i, k])
  {
    var idof := 0;
    while idof < pm.Length1
      invariant 0 <= idof <= b.nc
      invariant forall k :: 0 <= k < idof ==> pm[ig, k] == b.phi(ExportIndex(hex27, k), x)
      invariant forall i, k :: 0 <= i < pm.Length0 && i != ig && 0 <= k < b.nc ==> pm[i, k] == old(pm[i, k])
    {
      pm[ig, idof] := phi[ig, ExportIndex(hex27, idof)];
      idof := idof + 1;
    }
  }

  /** Entry (ig, j) of every per-axis (or per-kind) table: `t[a][ig][j] = f(a, j, x)`. */
  method TabulateCell(t: array3<real>, f: (nat, nat, Point) -> real, ig: nat, j: nat, x: Point)
    requires ig < t.Length1 && j < t.Length2
    modifies t
    ensures forall a :: 0 <= a < t.Length0 ==> t[a, ig, j] == f(a, j, x)
    ensures forall a, i, j' :: 0 <= a < t.Length0 && 0 <= i < t.Length1 && 0 <= j' < t.Length2 && (i != ig || j' != j) ==>
              t[a, i, j'] == old(t[a, i, j'])
  {
    var a := 0;
    while a < t.Length0
      invariant 0 <= a <= t.Length0
      invariant forall a' :: 0 <= a' < a ==> t[a', ig, j] == f(a', j, x)
      invariant forall a', i, j' :: 0 <= a' < t.Length0 && 0 <= i < t.Length1 && 0 <= j' < t.Length2 && (i != ig || j' != j) ==>
                  t[a', i, j'] == old(t[a', i, j'])
    {
      t[a, ig, j] := f(a, j, x);
      a := a + 1;
    }
  }

  // ---------------------------------------------------------------------------
  // The element type
  // ---------------------------------------------------------------------------

  // ---------------------------------------------------------------------------
  // Reference Jacobian of a physical element
  // ---------------------------------------------------------------------------

  /** Coordinate table `vt`: one row per physical axis, each listing the element's nc nodes. */
  predicate CoordinatesFit(vt: seq<seq<real>>, dim: nat, nc: nat)
  {
    |vt| >= dim && forall c :: 0 <= c < dim ==> |vt[c]| >= nc
  }

  /** Sum over the first n nodes of the reference derivative along axis a times the nodal
      coordinates `col`: one entry of the Jacobian `Jac[a][c]` with `col = vt[c]`. */
  function NodeSum(b: Basis, x: Point, a: nat, col: seq<real>, n: nat): real
    requires n <= |col|
  {
    if n == 0 then 0.0 else NodeSum(b, x, a, col, n - 1) + b.dphi(a, n - 1, x) * col[n - 1]
  }

  function RefJacobian1(b: Basis, x: Point, vt: seq<seq<real>>): real
    requires CoordinatesFit(vt, 1, b.nc)
  {
    NodeSum(b, x, 0, vt[0], b.nc)
  }

  /** `Jac[a][c]`: row a is the reference axis, column c the physical coordinate. */
  function RefJacobian2(b: Basis, x: Point, vt: seq<seq<real>>): Mat2
    requires CoordinatesFit(vt, 2, b.nc)
  {
    Mat2(Vec2(NodeSum(b, x, 0, vt[0], b.nc), NodeSum(b, x, 0, vt[1], b.nc)),
         Vec2(NodeSum(b, x, 1, vt[0], b.nc), NodeSum(b, x, 1, vt[1], b.nc)))
  }

  function RefJacobian3(b: Basis, x: Point, vt: seq<seq<real>>): Mat3
    requires CoordinatesFit(vt, 3, b.nc)
  {
    Mat3(Vec3(NodeSum(b, x, 0, vt[0], b.nc), NodeSum(b, x, 0, vt[1], b.nc), NodeSum(b, x, 0, vt[2], b.nc)),
         Vec3(NodeSum(b, x, 1, vt[0], b.nc), NodeSum(b, x, 1, vt[1], b.nc), NodeSum(b, x, 1, vt[2], b.nc)),
         Vec3(NodeSum(b, x, 2, vt[0], b.nc), NodeSum(b, x, 2, vt[1], b.nc), NodeSum(b, x, 2, vt[2], b.nc)))
  }

  /** Reference gradient and Hessian of dof i at x. */
  function RefGradient2(b: Basis, x: Point, i: nat): Vec2
  {
    Vec2(b.dphi(0, i, x), b.dphi(1, i, x))
  }

  function RefHessian2(b: Basis, x: Point, i: nat): Mat2
  {
    Sym2(b.d2phi(0, i, x), b.d2phi(1, i, x), b.d2phi(2, i, x))
  }

  function RefGradient3(b: Basis, x: Point, i: nat): Vec3
  {
    Vec3(b.dphi(0, i, x), b.dphi(1, i, x), b.dphi(2, i, x))
  }

  function RefHessian3(b: Basis, x: Point, i: nat): Mat3
  {
    Sym3(b.d2phi(0, i, x), b.d2phi(1, i, x), b.d2phi(2, i, x), b.d2phi(3, i, x), b.d2phi(4, i, x), b.d2phi(5, i, x))
  }

  /** Row ig of the reference-derivative table holds the derivatives at x along the first d axes. */
  ghost predicate DerivativesAt(b: Basis, x: Point, dphi: array3<real>, ig: nat, d: nat)
    reads dphi
  {
    && dphi.Length0 >= d && ig < dphi.Length1 && dphi.Length2 == b.nc
    && forall a, j :: 0 <= a < d && 0 <= j < b.nc ==> dphi[a, ig, j] == b.dphi(a, j, x)
  }

  /** Row ig of the value, first- and second-derivative tables, read at x. */
  ghost predicate TablesAt(b: Basis, x: Point, phi: array2<real>, dphi: array3<real>, d2phi: array3<real>, ig: nat, d: nat)
    reads phi, dphi, d2phi
  {
    && DerivativesAt(b, x, dphi, ig, d)
    && ig < phi.Length0 && phi.Length1 == b.nc
    && d2phi.Length0 >= SecondKinds(d) && ig < d2phi.Length1 && d2phi.Length2 == b.nc
    && (forall j :: 0 <= j < b.nc ==> phi[ig, j] == b.phi(j, x))
    && (forall s, j :: 0 <= s < SecondKinds(d) && 0 <= j < b.nc ==> d2phi[s, ig, j] == b.d2phi(s, j, x))
  }

  /** The node loop of the 1D Jacobian: `phi` copied, `dxi * JacI`, `dxi2 * JacI * JacI`. */
  method PhysicalDerivatives1(ghost b: Basis, ghost x: Point, phi: array2<real>, dphi: array3<real>, d2phi: array3<real>, ig: nat, jac: real)
    returns (phiOut: seq<real>, gradphi: seq<real>, nablaphi: seq<real>)
    requires TablesAt(b, x, phi, dphi, d2phi, ig, 1) && jac != 0.0
    ensures |phiOut| == b.nc && |gradphi| == b.nc && |nablaphi| == b.nc
    ensures forall i :: 0 <= i < b.nc ==> phiOut[i] == b.phi(i, x)
    ensures forall i :: 0 <= i < b.nc ==> jac * gradphi[i] == b.dphi(0, i, x)
    ensures forall i :: 0 <= i < b.nc ==> jac * nablaphi[i] * jac == b.d2phi(0, i, x)
  {
    var jacI := 1.0 / jac;
    phiOut, gradphi, nablaphi := [], [], [];
    var inode := 0;
    while inode < phi.Length1
      invariant 0 <= inode <= b.nc
      invariant |phiOut| == inode && |gradphi| == inode && |nablaphi| == inode
      invariant forall i :: 0 <= i < inode ==> phiOut[i] == b.phi(i, x)
      invariant forall i :: 0 <= i < inode ==> gradphi[i] == b.dphi(0, i, x) * jacI
      invariant forall i :: 0 <= i < inode ==> nablaphi[i] == b.d2phi(0, i, x) * jacI * jacI
    {
      var dxi := dphi[0, ig, inode];
      var dxi2 := d2phi[0, ig, inode];
      phiOut := phiOut + [phi[ig, inode]];
      gradphi := gradphi + [dxi * jacI];
      nablaphi := nablaphi + [dxi2 * jacI * jacI];
      inode := inode + 1;
    }
    NodesRoundTrip1(b, x, jac, jacI, gradphi, nablaphi);
  }

  /** Every node of the 1D loop maps back to the reference derivatives. */
  lemma NodesRoundTrip1(b: Basis, x: Point, jac: real, jacI: real, gradphi: seq<real>, nablaphi: seq<real>)
    requires jac != 0.0 && jacI == 1.0 / jac
    requires |gradphi| == b.nc && |nablaphi| == b.nc
    requires forall i :: 0 <= i < b.nc ==> gradphi[i] == b.dphi(0, i, x) * jacI
    requires forall i :: 0 <= i < b.nc ==> nablaphi[i] == b.d2phi(0, i, x) * jacI * jacI
    ensures forall i :: 0 <= i < b.nc ==> jac * gradphi[i] == b.dphi(0, i, x)
    ensures forall i :: 0 <= i < b.nc ==> jac * nablaphi[i] * jac == b.d2phi(0, i, x)
  {
    forall i | 0 <= i < b.nc
      ensures jac * gradphi[i] == b.dphi(0, i, x) && jac * nablaphi[i] * jac == b.d2phi(0, i, x)
    {
      RoundTrip1(jac, jacI, b.dphi(0, i, x), b.d2phi(0, i, x));
    }
  }

  /** The node loop of the 2D Jacobian: the gradient JacI * dref, stored as 2 entries per
      node, and the Hessian JacI * H * JacI^T, stored as its (0,0), (1,1), (0,1) entries. */
  method PhysicalDerivatives2(ghost b: Basis, ghost x: Point, phi: array2<real>, dphi: array3<real>, d2phi: array3<real>, ig: nat, jac: Mat2)
    returns (phiOut: seq<real>, gradphi: seq<real>, nablaphi: seq<real>)
    requires TablesAt(b, x, phi, dphi, d2phi, ig, 2) && Det2(jac) != 0.0
    ensures |phiOut| == b.nc && |gradphi| == 2 * b.nc && |nablaphi| == 3 * b.nc
    ensures forall i :: 0 <= i < b.nc ==> phiOut[i] == b.phi(i, x)
    ensures forall i :: 0 <= i < b.nc ==> MulVec2(jac, Vec2(gradphi[2 * i], gradphi[2 * i + 1])) == RefGradient2(b, x, i)
    ensures forall i :: 0 <= i < b.nc ==>
              Mul2(Mul2(jac, Sym2(nablaphi[3 * i], nablaphi[3 * i + 1], nablaphi[3 * i + 2])), Transpose2(jac)) == RefHessian2(b, x, i)
  {
    var jacI := Inverse2(jac);
    phiOut, gradphi, nablaphi := [], [], [];
    var inode := 0;
    while inode < phi.Length1
      invariant 0 <= inode <= b.nc
      invariant |phiOut| == inode && |gradphi| == 2 * inode && |nablaphi| == 3 * inode
      invariant forall i :: 0 <= i < inode ==> phiOut[i] == b.phi(i, x)
      invariant forall i :: 0 <= i < inode ==> MulVec2(jac, Vec2(gradphi[2 * i], gradphi[2 * i + 1])) == RefGradient2(b, x, i)
      invariant forall i :: 0 <= i < inode ==>
                  Mul2(Mul2(jac, Sym2(nablaphi[3 * i], nablaphi[3 * i + 1], nablaphi[3 * i + 2])), Transpose2(jac)) == RefHessian2(b, x, i)
    {
      var g := SourceGradient2(jacI, Vec2(dphi[0, ig, inode], dphi[1, ig, inode]));
      var h := SourceHessian2(jacI, d2phi[0, ig, inode], d2phi[1, ig, inode], d2phi[2, ig, inode]);
      ChainRule2(jac, RefGradient2(b, x, inode));
      HessianRoundTrip2(jac, RefHessian2(b, x, inode));
      phiOut := phiOut + [phi[ig, inode]];
      gradphi := gradphi + [g.v0, g.v1];
      nablaphi := nablaphi + [h.r0.v0, h.r1.v1, h.r0.v1];
      inode := inode + 1;
    }
  }

  /** The 3D outputs: the shape values at x, and physical gradients and Hessians that the
      Jacobian maps back onto the reference ones. */
  ghost predicate MapsBack3(b: Basis, x: Point, jac: Mat3, phiOut: seq<real>, gradphi: seq<real>, nablaphi: seq<real>)
  {
    && |phiOut| == b.nc && |gradphi| == 3 * b.nc && |nablaphi| == 6 * b.nc
    && (forall i :: 0 <= i < b.nc ==> phiOut[i] == b.phi(i, x))
    && (forall i :: 0 <= i < b.nc ==>
          MulVec3(jac, Vec3(gradphi[3 * i], gradphi[3 * i + 1], gradphi[3 * i + 2])) == RefGradient3(b, x, i))
    && (forall i :: 0 <= i < b.nc ==>
          Mul3(Mul3(jac, Sym3(nablaphi[6 * i], nablaphi[6 * i + 1], nablaphi[6 * i + 2],
                              nablaphi[6 * i + 3], nablaphi[6 * i + 4], nablaphi[6 * i + 5])), Transpose3(jac))
          == RefHessian3(b, x, i))
  }

  /** The node loop of the 3D Jacobian: 3 gradient entries and the 6 Hessian entries
      00, 11, 22, 01, 12, 20 per node. */
  method PhysicalDerivatives3(ghost b: Basis, ghost x: Point, phi: array2<real>, dphi: array3<real>, d2phi: array3<real>, ig: nat, jac: Mat3)
    returns (phiOut: seq<real>, gradphi: seq<real>, nablaphi: seq<real>)
    requires TablesAt(b, x, phi, dphi, d2phi, ig, 3) && Det3(jac) != 0.0
    ensures MapsBack3(b, x, jac, phiOut, gradphi, nablaphi)
  {
    var jacI := Inverse3(jac);
    phiOut, gradphi, nablaphi := [], [], [];
    var inode := 0;
    while inode < phi.Length1
      invariant 0 <= inode <= b.nc
      invariant |phiOut| == inode && |gradphi| == 3 * inode && |nablaphi| == 6 * inode
      invariant forall i :: 0 <= i < inode ==> phiOut[i] == b.phi(i, x)
      invariant forall i :: 0 <= i < inode ==>
                  MulVec3(jac, Vec3(gradphi[3 * i], gradphi[3 * i + 1], gradphi[3 * i + 2])) == RefGradient3(b, x, i)
      invariant forall i :: 0 <= i < inode ==>
                  Mul3(Mul3(jac, Sym3(nablaphi[6 * i], nablaphi[6 * i + 1], nablaphi[6 * i + 2],
                                      nablaphi[6 * i + 3], nablaphi[6 * i + 4], nablaphi[6 * i + 5])), Transpose3(jac))
                  == RefHessian3(b, x, i)
    {
      var g := SourceGradient3(jacI, Vec3(dphi[0, ig, inode], dphi[1, ig, inode], dphi[2, ig, inode]));
      var h := SourceHessian3(jacI, d2phi[0, ig, inode], d2phi[1, ig, inode], d2phi[2, ig, inode],
                              d2phi[3, ig, inode], d2phi[4, ig, inode], d2phi[5, ig, inode]);
      ChainRule3(jac, RefGradient3(b, x, inode));
      HessianRoundTrip3(jac, RefHessian3(b, x, inode));
      phiOut := phiOut + [phi[ig, inode]];
      gradphi := gradphi + [g.v0, g.v1, g.v2];
      nablaphi := nablaphi + [h.r0.v0, h.r1.v1, h.r2.v2, h.r0.v1, h.r1.v2, h.r2.v0];
      inode := inode + 1;
    }
  }

  /** The accumulation loop of the 1D Jacobian: `Jac += dxi[inode] * vt[0][inode]`. */
  method ReferenceJacobian1(ghost b: Basis, ghost x: Point, dphi: array3<real>, ig: nat, vt: seq<seq<real>>) returns (jac: real)
    requires DerivativesAt(b, x, dphi, ig, 1) && CoordinatesFit(vt, 1, b.nc)
    ensures jac == RefJacobian1(b, x, vt)
  {
    jac := 0.0;
    var inode := 0;
    while inode < dphi.Length2
      invariant 0 <= inode <= b.nc
      invariant jac == NodeSum(b, x, 0, vt[0], inode)
    {
      jac := jac + dphi[0, ig, inode] * vt[0][inode];
      inode := inode + 1;
    }
  }

  /** The accumulation loop of the 2D Jacobian: `Jac[a][c] += dref_a[inode] * vt[c][inode]`. */
  method ReferenceJacobian2(ghost b: Basis, ghost x: Point, dphi: array3<real>, ig: nat, vt: seq<seq<real>>) returns (jac: Mat2)
    requires DerivativesAt(b, x, dphi, ig, 2) && CoordinatesFit(vt, 2, b.nc)
    ensures jac == RefJacobian2(b, x, vt)
  {
    var j00, j01, j10, j11 := 0.0, 0.0, 0.0, 0.0;
    var inode := 0;
    while inode < dphi.Length2
      invariant 0 <= inode <= b.nc
      invariant j00 == NodeSum(b, x, 0, vt[0], inode) && j01 == NodeSum(b, x, 0, vt[1], inode)
      invariant j10 == NodeSum(b, x, 1, vt[0], inode) && j11 == NodeSum(b, x, 1, vt[1], inode)
    {
      var dxi, deta := dphi[0, ig, inode], dphi[1, ig, inode];
      j00, j01 := j00 + dxi * vt[0][inode], j01 + dxi * vt[1][inode];
      j10, j11 := j10 + deta * vt[0][inode], j11 + deta * vt[1][inode];
      inode := inode + 1;
    }
    jac := Mat2(Vec2(j00, j01), Vec2(j10, j11));
  }

  /** The accumulation loop of the 3D Jacobian. */
  method ReferenceJacobian3(ghost b: Basis, ghost x: Point, dphi: array3<real>, ig: nat, vt: seq<seq<real>>) returns (jac: Mat3)
    requires DerivativesAt(b, x, dphi, ig, 3) && CoordinatesFit(vt, 3, b.nc)
    ensures jac == RefJacobian3(b, x, vt)
  {
    var row0, row1, row2 := Vec3(0.0, 0.0, 0.0), Vec3(0.0, 0.0, 0.0), Vec3(0.0, 0.0, 0.0);
    var inode := 0;
    while inode < dphi.Length2
      invariant 0 <= inode <= b.nc
      invariant row0 == NodeRow3(b, x, 0, vt, inode)
      invariant row1 == NodeRow3(b, x, 1, vt, inode)
      invariant row2 == NodeRow3(b, x, 2, vt, inode)
    {
      row0 := AddNode3(b, x, 0, row0, dphi[0, ig, inode], vt, inode);
      row1 := AddNode3(b, x, 1, row1, dphi[1, ig, inode], vt, inode);
      row2 := AddNode3(b, x, 2, row2, dphi[2, ig, inode], vt, inode);
      inode := inode + 1;
    }
    jac := Mat3(row0, row1, row2);
  }

  /** Row a of the 3D Jacobian summed over the first n nodes. */
  function NodeRow3(b: Basis, x: Point, a: nat, vt: seq<seq<real>>, n: nat): Vec3
    requires n <= b.nc && CoordinatesFit(vt, 3, b.nc)
  {
    Vec3(NodeSum(b, x, a, vt[0], n), NodeSum(b, x, a, vt[1], n), NodeSum(b, x, a, vt[2], n))
  }

  /** Node `inode`'s contribution `dphi * vt[c][inode]` added to row a. */
  method AddNode3(ghost b: Basis, ghost x: Point, ghost a: nat, row: Vec3, d: real, vt: seq<seq<real>>, inode: nat)
    returns (r: Vec3)
    requires inode < b.nc && CoordinatesFit(vt, 3, b.nc)
    requires d == b.dphi(a, inode, x) && row == NodeRow3(b, x, a, vt, inode)
    ensures r == NodeRow3(b, x, a, vt, inode + 1)
  {
    r := Vec3(row.v0 + d * vt[0][inode], row.v1 + d * vt[1][inode], row.v2 + d * vt[2][inode]);
  }

  // ---------------------------------------------------------------------------
  // Transfer builders over the prolongation buffers
  // ---------------------------------------------------------------------------

  /** The buffers hold the table of p, row i starting at `offset[i]` and the sentinel
      `offset[nf]` marking the end. */
  ghost predicate TableHolds(p: ProlData, offset: array<nat>, vals: array<real>, inds: array<nat>)
    reads offset, vals, inds
  {
    && WellFormed(p)
    && offset.Length == p.basis.nf + 1
    && inds[..] == TableCols(p, p.basis.nf)
    && vals[..] == TableVals(p, p.basis.nf)
    && (forall r {:trigger offset[r]} :: 0 <= r <= p.basis.nf ==> offset[r] == |TableCols(p, r)|)
  }

  /** `_prol_ind[i]` and `_prol_val[i]`: row i of the table, read from the buffers. */
  method ReadRow(p: ProlData, offset: array<nat>, vals: array<real>, inds: array<nat>, i: nat)
    returns (cols: seq<nat>, rowVals: seq<real>)
    requires TableHolds(p, offset, vals, inds) && i < p.basis.nf
    ensures cols == RowCols(p, i, p.basis.nc) && rowVals == RowVals(p, i, p.basis.nc)
    ensures |cols| == |rowVals|
  {
    TableRow(p, i);
    RowLength(p, i, p.basis.nc);
    cols := inds[offset[i]..offset[i + 1]];
    rowVals := vals[offset[i]..offset[i + 1]];
  }

  /** The counts of a refined element: for each fine row, its owner's range, then
      `ncols - counter_o` to `NNZ_d` and `counter_o` to `NNZ_o`. */
  method RefinedPattern(p: ProlData, offset: array<nat>, vals: array<real>, inds: array<nat>,
                        maps: DofMaps, own: Ownership)
    returns (nnzD: seq<SetOp>, nnzO: seq<SetOp>)
    requires TableHolds(p, offset, vals, inds) && FineRowsOwned(p, maps, own)
    ensures nnzD == RefinedSets(p, maps, own, false) && nnzO == RefinedSets(p, maps, own, true)
  {
    nnzD, nnzO := [], [];
    var i := 0;
    while i < p.basis.nf
      invariant i <= p.basis.nf && |nnzD| == |nnzO| == i
      invariant forall r :: 0 <= r < i ==>
                  nnzD[r] == RefinedSet(p, maps, own, false, r) && nnzO[r] == RefinedSet(p, maps, own, true, r)
    {
      var d, o := RowPattern(p, offset, vals, inds, maps, own, i);
      nnzD := nnzD + [d];
      nnzO := nnzO + [o];
      i := i + 1;
    }
  }

  /** The two calls for fine row i: its owner's range, `counter_o` over its columns, then
      `ncols - counter_o` and `counter_o`. */
  method RowPattern(p: ProlData, offset: array<nat>, vals: array<real>, inds: array<nat>,
                    maps: DofMaps, own: Ownership, i: nat)
    returns (d: SetOp, o: SetOp)
    requires TableHolds(p, offset, vals, inds) && i < p.basis.nf && Owns(own, FineRow(p, maps, i))
    ensures d == RefinedSet(p, maps, own, false, i) && o == RefinedSet(p, maps, own, true, i)
  {
    var row, _ := ReadRow(p, offset, vals, inds, i);
    var irow := maps.fineDof(p.basis.kvert[i].0, p.basis.kvert[i].1);
    var range := OwnerRange(own, irow);
    var counterO := CountOutside(row, maps.coarseDof, range);
    CountsSplit(MapCols(row, maps.coarseDof), range);
    d, o := SetOp(irow, |row| - counterO), SetOp(irow, counterO);
  }

  /** The counts of an unrefined element: 1 to `NNZ_o` when coarse dof i's column lies
      outside its row owner's range, 1 to `NNZ_d` otherwise. */
  method CoarsePattern(maps: DofMaps, own: Ownership, nc: nat) returns (nnzD: seq<SetOp>, nnzO: seq<SetOp>)
    requires CoarseRowsOwned(maps, own, nc)
    ensures nnzD == Split(CoarseRowSets(maps, nc), CoarseOutside(maps, own, nc), false)
    ensures nnzO == Split(CoarseRowSets(maps, nc), CoarseOutside(maps, own, nc), true)
  {
    nnzD, nnzO := [], [];
    var i := 0;
    while i < nc
      invariant i <= nc
      invariant nnzD == Split(CoarseRowSets(maps, i), CoarseOutside(maps, own, i), false)
      invariant nnzO == Split(CoarseRowSets(maps, i), CoarseOutside(maps, own, i), true)
    {
      var irow := maps.fineDof(0, i);
      var range := OwnerRange(own, irow);
      var jcolumn := maps.coarseDof(i);
      CoarseSplitStep(maps, own, i, false);
      CoarseSplitStep(maps, own, i, true);
      if jcolumn < range.0 || jcolumn >= range.1 {
        nnzO := nnzO + [SetOp(irow, 1)];
      } else {
        nnzD := nnzD + [SetOp(irow, 1)];
      }
      i := i + 1;
    }
  }

  /** The rows of a refined element: table row i with its columns mapped to the coarse dofs. */
  method RefinedProlongation(p: ProlData, offset: array<nat>, vals: array<real>, inds: array<nat>, maps: DofMaps)
    returns (rows: seq<InsertedRow>)
    requires TableHolds(p, offset, vals, inds)
    ensures rows == ProlRows(p, maps)
  {
    rows := [];
    var i := 0;
    while i < p.basis.nf
      invariant i <= p.basis.nf && |rows| == i
      invariant forall r :: 0 <= r < i ==> rows[r] == ProlRows(p, maps)[r]
    {
      var row, rowVals := ReadRow(p, offset, vals, inds, i);
      var irow := maps.fineDof(p.basis.kvert[i].0, p.basis.kvert[i].1);
      var cols := MapRow(row, maps.coarseDof);
      rows := rows + [InsertedRow(irow, cols, rowVals)];
      i := i + 1;
    }
  }

  /** The rows of an unrefined element: coarse dof i copied with weight 1. */
  method IdentityInsertion(maps: DofMaps, nc: nat) returns (rows: seq<InsertedRow>)
    ensures rows == IdentityRows(maps, nc)
  {
    rows := [];
    var i := 0;
    while i < nc
      invariant i <= nc && |rows| == i
      invariant forall r :: 0 <= r < i ==> rows[r] == IdentityRows(maps, nc)[r]
    {
      rows := rows + [InsertedRow(maps.fineDof(0, i), [maps.coarseDof(i)], [1.0])];
      i := i + 1;
    }
  }

  /** `fineNodeSolidMark`: zero everywhere unless the solution has type 2, in which case
      each fine node gets its table row applied to the coarse marks. */
  method FineSolidMarks(p: ProlData, offset: array<nat>, vals: array<real>, inds: array<nat>, solidMark: nat -> bool)
    returns (fineMark: seq<real>)
    requires TableHolds(p, offset, vals, inds)
    ensures |fineMark| == p.basis.nf
    ensures forall r :: 0 <= r < p.basis.nf ==> fineMark[r] == ProjectedMark(p, SolidMarks(p.solType, solidMark), r)
  {
    var mark := SolidMarks(p.solType, solidMark);
    fineMark := seq(p.basis.nf, _ => 0.0);
    if p.solType == 2 {
      var i := 0;
      while i < p.basis.nf
        invariant i <= p.basis.nf && |fineMark| == p.basis.nf
        invariant forall r :: 0 <= r < i ==> fineMark[r] == ProjectedMark(p, mark, r)
      {
        var row, rowVals := ReadRow(p, offset, vals, inds, i);
        var m := ProjectMark(row, rowVals, solidMark);
        fineMark := fineMark[i := m];
        i := i + 1;
      }
    } else {
      forall r | 0 <= r < p.basis.nf
        ensures fineMark[r] == ProjectedMark(p, mark, r)
      {
        RowLength(p, r, p.basis.nc);
        UnmarkedFineMark(RowCols(p, r, p.basis.nc), RowVals(p, r, p.basis.nc));
      }
    }
  }

  /** The restriction rows of a refined element: a fine node is solid when its projected
      mark lies strictly between 0.99 and 1.01, and each entry is routed by its coarse mark. */
  method RefinedRestriction(p: ProlData, offset: array<nat>, vals: array<real>, inds: array<nat>,
                            maps: DofMaps, solidMark: nat -> bool, samePair: bool)
    returns (rows: seq<InsertedRow>)
    requires TableHolds(p, offset, vals, inds)
    ensures rows == RestrictionRows(p, maps, SolidMarks(p.solType, solidMark), samePair)
  {
    var mark := SolidMarks(p.solType, solidMark);
    var fineMark := FineSolidMarks(p, offset, vals, inds, solidMark);
    rows := [];
    var i := 0;
    while i < p.basis.nf
      invariant i <= p.basis.nf && |rows| == i
      invariant forall r :: 0 <= r < i ==> rows[r] == RestrictionRow(p, maps, mark, samePair, r)
    {
      var r := RestrictionRowAt(p, offset, vals, inds, maps, mark, samePair, i, fineMark[i]);
      rows := rows + [r];
      i := i + 1;
    }
  }

  /** One restriction row: `isolidmark` from the projected mark, then the routed entries. */
  method RestrictionRowAt(p: ProlData, offset: array<nat>, vals: array<real>, inds: array<nat>,
                          maps: DofMaps, mark: nat -> bool, samePair: bool, i: nat, fineMark: real)
    returns (r: InsertedRow)
    requires TableHolds(p, offset, vals, inds) && i < p.basis.nf
    requires fineMark == ProjectedMark(p, mark, i)
    ensures r == RestrictionRow(p, maps, mark, samePair, i)
  {
    var row, rowVals := ReadRow(p, offset, vals, inds, i);
    var irow := maps.fineDof(p.basis.kvert[i].0, p.basis.kvert[i].1);
    var isolid := 0.99 < fineMark && fineMark < 1.01;
    var cols, copy := RouteRow(row, rowVals, maps, mark, isolid, samePair);
    r := InsertedRow(irow, cols, copy);
  }

  class ElemType {
    const dim: nat
    const solType: nat
    const nc: nat
    const nf: nat
    const nlag: seq<nat>
    const kvert: seq<(nat, nat)>
    /** The basis and linear element the tables were built from. */
    const prol: ProlData
    const gauss: GaussRule
    /** Row pointers `_prol_val[i]` / `_prol_ind[i]` as offsets into the two buffers. */
    const prolOffset: array<nat>
    const memProlVal: array<real>
    const memProlInd: array<nat>
    const phi: array2<real>
    const dphi: array3<real>
    const d2phi: array3<real>
    var exportHex27: bool
    var isMpGDAllocated: bool
    var phiMapGD: array2?<real>
    var dphiMapGD: array2?<real>

    /** The scalar fields agree with the basis they were read from. */
    predicate Consistent()
    {
      && WellFormed(prol)
      && dim == prol.dim && solType == prol.solType
      && nc == prol.basis.nc && nf == prol.basis.nf
      && nlag == prol.basis.nlag && kvert == prol.basis.kvert
      && 0 < nc
      && GaussFits(gauss, dim)
    }

    /** The prolongation buffers hold the table of `prol`, row i starting at `prolOffset[i]`
        and the sentinel `prolOffset[nf]` marking the end. */
    ghost predicate TableValid()
      reads prolOffset, memProlVal, memProlInd
    {
      Consistent() && TableHolds(prol, prolOffset, memProlVal, memProlInd)
    }

    ghost predicate ShapeValid()
      reads phi, dphi, d2phi
    {
      Consistent() && ShapeTablesHold(prol.basis, gauss, dim, phi, dphi, d2phi)
    }

    /** Once allocated, export slot k of a Gauss point holds dof `ExportIndex(k)`, and the
        derivative along axis a sits at flat index k + a * nc. */
    ghost predicate MapValid()
      reads this, phiMapGD, dphiMapGD
    {
      isMpGDAllocated ==>
        && Consistent()
        && phiMapGD != null && dphiMapGD != null
        && (exportHex27 ==> nc == 27)
        && phiMapGD.Length0 == gauss.n && phiMapGD.Length1 == nc
        && dphiMapGD.Length0 == gauss.n && dphiMapGD.Length1 == nc * dim
        && (forall ig, k :: 0 <= ig < gauss.n && 0 <= k < nc ==>
              phiMapGD[ig, k] == prol.basis.phi(ExportIndex(exportHex27, k), GaussPoint(gauss, dim, ig)))
        && (forall ig, k, a :: 0 <= ig < gauss.n && 0 <= k < nc && 0 <= a < dim ==>
              dphiMapGD[ig, Flat(k, a, nc, dim)] == prol.basis.dphi(a, ExportIndex(exportHex27, k), GaussPoint(gauss, dim, ig)))
    }

    ghost predicate Valid()
      reads this, prolOffset, memProlVal, memProlInd, phi, dphi, d2phi, phiMapGD, dphiMapGD
    {
      TableValid() && ShapeValid() && MapValid()
    }

    /** The constructor of an element of the given dimension once the names have been
        resolved: build the prolongation table in two passes, tabulate the basis at the
        Gauss points, then take the export copy. */
    constructor (dim: nat, basis: Basis, linear: Basis, gauss: GaussRule, geom: string, order: string)
      requires 1 <= dim <= 3 && Setup(dim, geom, order).Ok?
      requires BasisFits(Setup(dim, geom, order).value.basis, basis)
      requires GaussFits(gauss, dim)
      ensures Valid() && isMpGDAllocated
      ensures ParseOrder(order).Some? && this.solType == ParseOrder(order).value
      ensures this.dim == dim && this.gauss == gauss
      ensures prol == ProlData(dim, this.solType, basis, linear)
      ensures exportHex27 == IsHex27(dim, geom, order)
    {
      ChosenBasisFits(dim, geom, order, basis, linear);
      var solType := Setup(dim, geom, order).value.solType;
      var p := ProlData(dim, solType, basis, linear);
      var offset, vals, inds := NewTable(p);
      var ph, dph, d2ph := NewShapeTables(basis, gauss, dim);
      this.dim := dim;
      this.solType := solType;
      nc := basis.nc;
      nf := basis.nf;
      nlag := basis.nlag;
      kvert := basis.kvert;
      prol := p;
      this.gauss := gauss;
      prolOffset := offset;
      memProlVal := vals;
      memProlInd := inds;
      phi := ph;
      dphi := dph;
      d2phi := d2ph;
      exportHex27 := false;
      isMpGDAllocated := false;
      phiMapGD := null;
      dphiMapGD := null;
      new;
      EvaluateShapeAtQP(geom, order);
    }

    /** Allocate the export tables and copy shape values and reference derivatives into
        them, through `from_femus_to_libmesh` for HEX27 and unchanged otherwise. */
    method EvaluateShapeAtQP(geom: string, order: string)
      requires TableValid() && ShapeValid()
      requires IsHex27(dim, geom, order) ==> nc == 27
      modifies this
      ensures TableValid() && ShapeValid() && MapValid()
      ensures isMpGDAllocated && exportHex27 == IsHex27(dim, geom, order)
      ensures fresh(phiMapGD) && fresh(dphiMapGD)
    {
      var hex27 := IsHex27(dim, geom, order);
      var pm := PhiMap(hex27);
      var dm := DerivativeMap(hex27);
      phiMapGD := pm;
      dphiMapGD := dm;
      isMpGDAllocated := true;
      exportHex27 := hex27;
    }

    /** `_phi_mapGD`: a fresh n x nc table whose slot k holds dof `ExportIndex(hex27, k)`. */
    method PhiMap(hex27: bool) returns (pm: array2<real>)
      requires ShapeValid() && (hex27 ==> nc == 27)
      ensures fresh(pm) && pm.Length0 == gauss.n && pm.Length1 == nc
      ensures forall i, k :: 0 <= i < gauss.n && 0 <= k < nc ==>
                pm[i, k] == prol.basis.phi(ExportIndex(hex27, k), GaussPoint(gauss, dim, i))
    {
      pm := new real[gauss.n, nc];
      var ig := 0;
      while ig < gauss.n
        invariant 0 <= ig <= gauss.n
        invariant forall i, k :: 0 <= i < ig && 0 <= k < nc ==>
                    pm[i, k] == prol.basis.phi(ExportIndex(hex27, k), GaussPoint(gauss, dim, i))
      {
        CopyPhiRow(pm, ig, hex27);
        ig := ig + 1;
      }
    }

    method CopyPhiRow(pm: array2<real>, ig: nat, hex27: bool)
      requires ShapeValid() && (hex27 ==> nc == 27) && pm != phi
      requires pm.Length0 == gauss.n && pm.Length1 == nc && ig < gauss.n
      modifies pm
      ensures forall k :: 0 <= k < nc ==> pm[ig, k] == prol.basis.phi(ExportIndex(hex27, k), GaussPoint(gauss, dim, ig))
      ensures forall i, k :: 0 <= i < gauss.n && i != ig && 0 <= k < nc ==> pm[i, k] == old(pm[i, k])
    {
      TablesAtPoint(ig);
      CopyExportRow(prol.basis, GaussPoint(gauss, dim, ig), phi, pm, ig, hex27);
    }

    /** `_dphidxez_mapGD`: a fresh n x (nc * dim) table; the derivative along axis a of
        export slot k sits at `Flat(k, a, nc, dim)`. */
    method DerivativeMap(hex27: bool) returns (dm: array2<real>)
      requires ShapeValid() && (hex27 ==> nc == 27)
      ensures fresh(dm) && dm.Length0 == gauss.n && dm.Length1 == nc * dim
      ensures forall i, k, a :: 0 <= i < gauss.n && 0 <= k < nc && 0 <= a < dim ==>
                dm[i, Flat(k, a, nc, dim)] == prol.basis.dphi(a, ExportIndex(hex27, k), GaussPoint(gauss, dim, i))
    {
      dm := new real[gauss.n, nc * dim];
      var ig := 0;
      while ig < gauss.n
        invariant 0 <= ig <= gauss.n
        invariant forall i, k, a :: 0 <= i < ig && 0 <= k < nc && 0 <= a < dim ==>
                    dm[i, Flat(k, a, nc, dim)] == prol.basis.dphi(a, ExportIndex(hex27, k), GaussPoint(gauss, dim, i))
      {
        CopyDerivativeRow(dm, ig, hex27);
        ig := ig + 1;
      }
    }

    method CopyDerivativeRow(dm: array2<real>, ig: nat, hex27: bool)
      requires ShapeValid() && (hex27 ==> nc == 27) && dm != phi
      requires dm.Length0 == gauss.n && dm.Length1 == nc * dim && ig < gauss.n
      modifies dm
      ensures forall k, a :: 0 <= k < nc && 0 <= a < dim ==>
                dm[ig, Flat(k, a, nc, dim)] == prol.basis.dphi(a, ExportIndex(hex27, k), GaussPoint(gauss, dim, ig))
      ensures forall i, f :: 0 <= i < gauss.n && i != ig && 0 <= f < nc * dim ==> dm[i, f] == old(dm[i, f])
    {
      var idof := 0;
      while idof < nc
        invariant 0 <= idof <= nc
        invariant forall k, a :: 0 <= k < idof && 0 <= a < dim ==>
                    dm[ig, Flat(k, a, nc, dim)] == prol.basis.dphi(a, ExportIndex(hex27, k), GaussPoint(gauss, dim, ig))
        invariant forall i, f :: 0 <= i < gauss.n && i != ig && 0 <= f < nc * dim ==> dm[i, f] == old(dm[i, f])
      {
        CopyDerivatives(dm, ig, idof, ExportIndex(hex27, idof));
        idof := idof + 1;
      }
    }

    /** `_dphidxez_mapGD[ig][idof + idim*nc] = dphi_g[src]` for every axis idim. */
    method CopyDerivatives(dm: array2<real>, ig: nat, idof: nat, src: nat)
      requires ShapeValid() && dm != phi
      requires dm.Length0 == gauss.n && dm.Length1 == nc * dim
      requires ig < gauss.n && idof < nc && src < nc
      modifies dm
      ensures forall a :: 0 <= a < dim ==> dm[ig, Flat(idof, a, nc, dim)] == prol.basis.dphi(a, src, GaussPoint(gauss, dim, ig))
      ensures forall k, a :: 0 <= k < nc && k != idof && 0 <= a < dim ==> dm[ig, Flat(k, a, nc, dim)] == old(dm[ig, Flat(k, a, nc, dim)])
      ensures forall i, f :: 0 <= i < gauss.n && i != ig && 0 <= f < nc * dim ==> dm[i, f] == old(dm[i, f])
    {
      var x := GaussPoint(gauss, dim, ig);
      var idim := 0;
      while idim < dim
        invariant 0 <= idim <= dim
        invariant forall a :: 0 <= a < idim ==> dm[ig, Flat(idof, a, nc, dim)] == prol.basis.dphi(a, src, x)
        invariant forall k, a :: 0 <= k < nc && k != idof && 0 <= a < dim ==> dm[ig, Flat(k, a, nc, dim)] == old(dm[ig, Flat(k, a, nc, dim)])
        invariant forall i, f :: 0 <= i < gauss.n && i != ig && 0 <= f < nc * dim ==> dm[i, f] == old(dm[i, f])
      {
        label before:
        dm[ig, Flat(idof, idim, nc, dim)] := dphi[idim, ig, src];
        forall k, a | 0 <= k < nc && 0 <= a < dim && (k != idof || a != idim)
          ensures dm[ig, Flat(k, a, nc, dim)] == old@before(dm[ig, Flat(k, a, nc, dim)])
        {
          if Flat(k, a, nc, dim) == Flat(idof, idim, nc, dim) {
            FlatInjective(k, a, idof, idim, nc, dim);
          }
        }
        idim := idim + 1;
      }
    }

    /** Row ig of every shape table, read at its Gauss point. */
    lemma TablesAtPoint(ig: nat)
      requires ShapeValid() && ig < gauss.n
      ensures TablesAt(prol.basis, GaussPoint(gauss, dim, ig), phi, dphi, d2phi, ig, dim)
    {
    }

    /** `Jacobian(vt, ig, ...)` of a 1D element: accumulates `Jac`, then scales the reference
        derivatives by `JacI = 1 / Jac`. Undoing the scaling gives back the reference values. */
    method Jacobian1D(vt: seq<seq<real>>, ig: nat) returns (weight: real, phiOut: seq<real>, gradphi: seq<real>, nablaphi: seq<real>)
      requires ShapeValid() && dim == 1 && ig < gauss.n && CoordinatesFit(vt, 1, nc)
      requires RefJacobian1(prol.basis, GaussPoint(gauss, dim, ig), vt) != 0.0
      ensures var x := GaussPoint(gauss, dim, ig);
              var jac := RefJacobian1(prol.basis, x, vt);
              && weight == jac * gauss.table[ig]
              && |phiOut| == nc && |gradphi| == nc && |nablaphi| == nc
              && (forall i :: 0 <= i < nc ==> phiOut[i] == prol.basis.phi(i, x))
              && (forall i :: 0 <= i < nc ==> jac * gradphi[i] == prol.basis.dphi(0, i, x))
              && (forall i :: 0 <= i < nc ==> jac * nablaphi[i] * jac == prol.basis.d2phi(0, i, x))
    {
      ghost var x := GaussPoint(gauss, dim, ig);
      TablesAtPoint(ig);
      var jac := ReferenceJacobian1(prol.basis, x, dphi, ig, vt);
      weight := jac * gauss.table[ig];
      phiOut, gradphi, nablaphi := PhysicalDerivatives1(prol.basis, x, phi, dphi, d2phi, ig, jac);
    }

    /** `Jacobian(vt, ig, ...)` of a 2D element: the physical gradient JacI * dref and Hessian
        JacI * H * JacI^T of every dof, with the Jacobian restoring the reference ones. */
    method Jacobian2D(vt: seq<seq<real>>, ig: nat) returns (weight: real, phiOut: seq<real>, gradphi: seq<real>, nablaphi: seq<real>)
      requires ShapeValid() && dim == 2 && ig < gauss.n && CoordinatesFit(vt, 2, nc)
      requires Det2(RefJacobian2(prol.basis, GaussPoint(gauss, dim, ig), vt)) != 0.0
      ensures var x := GaussPoint(gauss, dim, ig);
              var jac := RefJacobian2(prol.basis, x, vt);
              && weight == Det2(jac) * gauss.table[ig]
              && |phiOut| == nc && |gradphi| == 2 * nc && |nablaphi| == 3 * nc
              && (forall i :: 0 <= i < nc ==> phiOut[i] == prol.basis.phi(i, x))
              && (forall i :: 0 <= i < nc ==>
                    MulVec2(jac, Vec2(gradphi[2 * i], gradphi[2 * i + 1])) == RefGradient2(prol.basis, x, i))
              && (forall i :: 0 <= i < nc ==>
                    Mul2(Mul2(jac, Sym2(nablaphi[3 * i], nablaphi[3 * i + 1], nablaphi[3 * i + 2])), Transpose2(jac))
                    == RefHessian2(prol.basis, x, i))
    {
      ghost var x := GaussPoint(gauss, dim, ig);
      TablesAtPoint(ig);
      var jac := ReferenceJacobian2(prol.basis, x, dphi, ig, vt);
      weight := Det2(jac) * gauss.table[ig];
      phiOut, gradphi, nablaphi := PhysicalDerivatives2(prol.basis, x, phi, dphi, d2phi, ig, jac);
    }

    /** `Jacobian(vt, ig, ...)` of a 3D element, with the closed-form adjugate inverse. */
    method Jacobian3D(vt: seq<seq<real>>, ig: nat) returns (weight: real, phiOut: seq<real>, gradphi: seq<real>, nablaphi: seq<real>)
      requires ShapeValid() && dim == 3 && ig < gauss.n && CoordinatesFit(vt, 3, nc)
      requires Det3(RefJacobian3(prol.basis, GaussPoint(gauss, dim, ig), vt)) != 0.0
      ensures var x := GaussPoint(gauss, dim, ig);
              var jac := RefJacobian3(prol.basis, x, vt);
              && weight == Det3(jac) * gauss.table[ig]
              && MapsBack3(prol.basis, x, jac, phiOut, gradphi, nablaphi)
    {
      ghost var x := GaussPoint(gauss, dim, ig);
      TablesAtPoint(ig);
      var jac := ReferenceJacobian3(prol.basis, x, dphi, ig, vt);
      assert Det3(jac) != 0.0;
      weight := Det3(jac) * gauss.table[ig];
      phiOut, gradphi, nablaphi := PhysicalDerivatives3(prol.basis, x, phi, dphi, d2phi, ig, jac);
    }

    /** `_phi_mapGD[qp][dof]`: the export shape value. */
    function GetPhi(qp: nat, dof: nat): (v: real)
      reads this, phiMapGD, dphiMapGD
      requires MapValid() && isMpGDAllocated && qp < gauss.n && dof < nc
      ensures v == prol.basis.phi(ExportIndex(exportHex27, dof), GaussPoint(gauss, dim, qp))
    {
      phiMapGD[qp, dof]
    }

    /** `_dphidxez_mapGD[qp][dof]`: the export derivative, axis `dof / nc` of export slot `dof % nc`. */
    function GetDPhiDxez(qp: nat, dof: nat): (v: real)
      reads this, phiMapGD, dphiMapGD
      requires MapValid() && isMpGDAllocated && qp < gauss.n && dof < nc * dim
      ensures var (k, a) := Unflat(dof, nc, dim);
              v == prol.basis.dphi(a, ExportIndex(exportHex27, k), GaussPoint(gauss, dim, qp))
    {
      dphiMapGD[qp, dof]
    }

    /** Row ig of the reference-derivative table of one axis. */
    function DPhiRow(axis: nat, ig: nat): (row: seq<real>)
      reads phi, dphi, d2phi
      requires ShapeValid() && axis < dim && ig < gauss.n
      ensures |row| == nc
      ensures forall j :: 0 <= j < nc ==> row[j] == prol.basis.dphi(axis, j, GaussPoint(gauss, dim, ig))
    {
      seq(nc, j reads dphi requires 0 <= j < nc => dphi[axis, ig, j])
    }

    /** `GetDPhiDXi(ig)`: every element has a xi axis. */
    function GetDPhiDXi(ig: nat): (row: seq<real>)
      reads phi, dphi, d2phi
      requires ShapeValid() && ig < gauss.n
      ensures |row| == nc
      ensures forall j :: 0 <= j < nc ==> row[j] == prol.basis.dphi(0, j, GaussPoint(gauss, dim, ig))
    {
      DPhiRow(0, ig)
    }

    /** `GetDPhiDEta(ig)`: overridden in 2D and 3D, the base version aborts. */
    function GetDPhiDEta(ig: nat): (r: Result<seq<real>, Termination>)
      reads phi, dphi, d2phi
      requires ShapeValid() && ig < gauss.n
      ensures r.Err? <==> dim < 2
      ensures r.Err? ==> r.error == Abort
      ensures r.Ok? ==> (|r.value| == nc &&
                forall j :: 0 <= j < nc ==> r.value[j] == prol.basis.dphi(1, j, GaussPoint(gauss, dim, ig)))
    {
      if dim < 2 then Err(Abort) else Ok(DPhiRow(1, ig))
    }

    /** `GetDPhiDZeta(ig)`: overridden in 3D only, the base version aborts. */
    function GetDPhiDZeta(ig: nat): (r: Result<seq<real>, Termination>)
      reads phi, dphi, d2phi
      requires ShapeValid() && ig < gauss.n
      ensures r.Err? <==> dim < 3
      ensures r.Err? ==> r.error == Abort
      ensures r.Ok? ==> (|r.value| == nc &&
                forall j :: 0 <= j < nc ==> r.value[j] == prol.basis.dphi(2, j, GaussPoint(gauss, dim, ig)))
    {
      if dim < 3 then Err(Abort) else Ok(DPhiRow(2, ig))
    }

    /** `JacobianSur`: the 3D element has no surface Jacobian and aborts, for both numeric
        types; the 1D and 2D elements compute one (`None` here, its values are not part
        of this model). */
    function JacobianSur(): (r: Option<Termination>)
      requires Consistent()
      ensures r.Some? <==> dim == 3
      ensures r.Some? ==> r.value == Abort
    {
      if dim == 3 then Some(Abort) else None
    }

    /** `GetGaussWeight(ig)`: entry ig of the weight block of the Gauss table. */
    function GetGaussWeight(ig: nat): (w: real)
      requires Consistent() && ig < gauss.n
      ensures w == gauss.table[ig]
    {
      GaussWeight(gauss, ig)
    }

    /** `GetNDofs()`: the number of coarse dofs of the basis. */
    function GetNDofs(): (n: nat)
      requires Consistent()
      ensures n == prol.basis.nc && n > 0
    {
      nc
    }

    /** `GetDim()`: the dimension of the reference element. */
    function GetDim(): (d: nat)
      requires Consistent()
      ensures d == prol.dim && 1 <= d <= 3
    {
      dim
    }

    // -------------------------------------------------------------------------
    // Transfer operators of one coarse element
    // -------------------------------------------------------------------------

    /** `GetSparsityPatternSize` of a system matrix (offsets `KKoffset`) or of one solution
        (offsets `_dofOffset`): the `NNZ_d` and `NNZ_o` calls, in order. A refined element
        sets both counts of each fine row; an unrefined one sets 1 in exactly one of the two
        per coarse dof. */
    method GetSparsityPatternSize(refined: bool, maps: DofMaps, own: Ownership)
      returns (nnzD: seq<SetOp>, nnzO: seq<SetOp>)
      requires TableValid()
      requires refined ==> FineRowsOwned(prol, maps, own)
      requires !refined ==> CoarseRowsOwned(maps, own, nc)
      ensures refined ==> nnzD == RefinedSets(prol, maps, own, false) && nnzO == RefinedSets(prol, maps, own, true)
      ensures !refined ==> nnzD == Split(CoarseRowSets(maps, nc), CoarseOutside(maps, own, nc), false)
      ensures !refined ==> nnzO == Split(CoarseRowSets(maps, nc), CoarseOutside(maps, own, nc), true)
    {
      if refined {
        nnzD, nnzO := RefinedPattern(prol, prolOffset, memProlVal, memProlInd, maps, own);
      } else {
        nnzD, nnzO := CoarsePattern(maps, own, nc);
      }
    }

    /** `BuildProlongation` of a system matrix or of one solution: the rows inserted. */
    method BuildProlongation(refined: bool, maps: DofMaps) returns (rows: seq<InsertedRow>)
      requires TableValid()
      ensures refined ==> rows == ProlRows(prol, maps)
      ensures !refined ==> rows == IdentityRows(maps, nc)
    {
      if refined {
        rows := RefinedProlongation(prol, prolOffset, memProlVal, memProlInd, maps);
      } else {
        rows := IdentityInsertion(maps, nc);
      }
    }

    /** `BuildRestrictionTranspose`: a refined element projects the coarse solid marks
        (read only for a solution of type 2) onto its fine nodes and routes each entry by
        its mark; an unrefined one inserts the identity rows. `solidMark(j)` is the solid
        mark of coarse dof j, `samePair` says whether the paired solution is the solution
        itself. */
    method BuildRestrictionTranspose(refined: bool, maps: DofMaps, solidMark: nat -> bool, samePair: bool)
      returns (rows: seq<InsertedRow>)
      requires TableValid()
      ensures refined ==> rows == RestrictionRows(prol, maps, SolidMarks(solType, solidMark), samePair)
      ensures !refined ==> rows == IdentityRows(maps, nc)
    {
      if refined {
        rows := RefinedRestriction(prol, prolOffset, memProlVal, memProlInd, maps, solidMark, samePair);
      } else {
        rows := IdentityInsertion(maps, nc);
      }
    }

    /** Whether the printing map of Lagrange type itype is the identity (`_nlag[itype] <= _nc`). */
    function PrintIdentity(itype: nat): (identity: bool)
      requires Consistent() && itype < 4
      ensures identity <==> prol.basis.nlag[itype] <= prol.basis.nc
    {
      nlag[itype] <= nc
    }

    /** `GetSparsityPatternSize` for printing: the counts of each Lagrange node of type
        itype. `rowDof(i)` is the dof of node i of type itype, `solDof(k)` that of coarse
        dof k of the element's own type. */
    method GetPrintSparsityPatternSize(itype: nat, rowDof: nat -> int, solDof: nat -> int, own: Ownership)
      returns (nnzD: seq<SetOp>, nnzO: seq<SetOp>)
      requires Consistent() && itype < 4
      requires forall i :: 0 <= i < nlag[itype] ==> Owns(own, rowDof(i))
      ensures nnzD == PrintSets(prol.basis, PrintIdentity(itype), rowDof, solDof, own, nlag[itype], false)
      ensures nnzO == PrintSets(prol.basis, PrintIdentity(itype), rowDof, solDof, own, nlag[itype], true)
    {
      nnzD, nnzO := PrintPattern(prol.basis, nlag[itype] <= nc, rowDof, solDof, own, nlag[itype]);
    }

    /** `BuildProlongation` for printing: each row is inserted only when its length
        matches the count stored for it. */
    method BuildPrintProlongation(itype: nat, rowDof: nat -> int, solDof: nat -> int, nnzD: int -> real, nnzO: int -> real)
      returns (rows: seq<InsertedRow>)
      requires Consistent() && itype < 4
      ensures rows == PrintInserted(prol.basis, PrintIdentity(itype), rowDof, solDof, nnzD, nnzO, nlag[itype])
    {
      rows := PrintInsertion(prol.basis, nlag[itype] <= nc, rowDof, solDof, nnzD, nnzO, nlag[itype]);
    }
  }
}
