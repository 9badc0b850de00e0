/**
 * The reference bases and Gauss rules an element type is built from. Their
 * polynomials and tables live outside the element-type engine, so they are
 * carried here as uninterpreted evaluators and data.
 */
module RefBasis {

  /** A point of the reference element, one coordinate per axis. */
  type Point = seq<real>

  /**
   * A reference basis `_pt_basis`:
   *  - `nc` coarse dofs, `nf` fine nodes of the refined element, `_nlag0.._nlag3` in `nlag`;
   *  - `kvert[i]` = (subdivision, local node) of fine node i (`GetKVERT_IND`);
   *  - `x[i]` = coordinates of fine node i (`GetX`);
   *  - `xCoarse(i)` = coordinates of coarse node i (`GetXcoarse`);
   *  - `phi(j, p)`, `dphi(axis, j, p)` and `d2phi(kind, j, p)` evaluate dof j (through
   *    `GetIND(j)`); second-derivative kinds are xx, yy, zz, xy, yz, zx in 3D,
   *    xx, yy, xy in 2D and xx in 1D;
   *  - `childVertex(child, k, c)` = coordinate c of coarse vertex k seen from subdivision
   *    `child` (`GetXcoarse(GetFine2CoarseVertexMapping(child, k))[c]`).
   */
  datatype Basis = Basis(
    nc: nat,
    nf: nat,
    nlag: seq<nat>,
    kvert: seq<(nat, nat)>,
    x: seq<Point>,
    xCoarse: nat -> Point,
    phi: (nat, Point) -> real,
    dphi: (nat, nat, Point) -> real,
    d2phi: (nat, nat, Point) -> real,
    childVertex: (nat, nat, nat) -> real)

  /** A Gauss rule stored as one flat table: the n weights first, then the n
      coordinates of every axis in turn (`GetGaussWeightsPointer()`). */
  datatype GaussRule = GaussRule(n: nat, table: seq<real>)

  /** Number of second-derivative kinds of a dimension (1, 3 or 6). */
  function SecondKinds(dim: nat): nat
  {
    if dim == 1 then 1 else if dim == 2 then 3 else 6
  }

  predicate GaussFits(g: GaussRule, dim: nat)
  {
    |g.table| >= g.n * (dim + 1)
  }

  /** Weight of quadrature point ig. */
  function GaussWeight(g: GaussRule, ig: nat): (w: real)
    requires ig < g.n && |g.table| >= g.n
    ensures w == g.table[ig]
  {
    g.table[ig]
  }

  /** Quadrature point ig: coordinate c sits at offset (c + 1) * n + ig. */
  function GaussPoint(g: GaussRule, dim: nat, ig: nat): (pt: Point)
    requires ig < g.n && GaussFits(g, dim)
    ensures |pt| == dim
    ensures forall c :: 0 <= c < dim ==> pt[c] == g.table[(c + 1) * g.n + ig]
  {
    seq(dim, c requires 0 <= c < dim => GaussTableEntry(g, dim, c, ig))
  }

  function GaussTableEntry(g: GaussRule, dim: nat, c: nat, ig: nat): real
    requires ig < g.n && c < dim && GaussFits(g, dim)
  {
    PlaceLemma(g.n, dim, c, ig);
    g.table[(c + 1) * g.n + ig]
  }

  /** The layout of a Gauss table: the weights fill the first n slots; coordinate c of
      point ig sits after them and inside the table, and no two (axis, point) pairs share
      a slot, so `GaussWeight` and `GaussPoint` read disjoint entries. */
  lemma GaussTableLayout(g: GaussRule, dim: nat, c: nat, ig: nat, c': nat, ig': nat)
    requires GaussFits(g, dim) && ig < g.n && c < dim && ig' < g.n && c' < dim
    ensures GaussWeight(g, ig) == g.table[ig] && GaussPoint(g, dim, ig)[c] == g.table[(c + 1) * g.n + ig]
    ensures ig < g.n <= (c + 1) * g.n + ig < |g.table|
    ensures (c + 1) * g.n + ig == (c' + 1) * g.n + ig' ==> c == c' && ig == ig'
  {
    PlaceLemma(g.n, dim, c, ig);
    SlotAboveWeights(g.n, c, ig);
    if c < c' {
      SlotOrder(g.n, c, c', ig, ig');
    } else if c' < c {
      SlotOrder(g.n, c', c, ig', ig);
    }
  }

  lemma SlotAboveWeights(n: nat, c: nat, ig: nat)
    ensures n <= (c + 1) * n + ig
  {
    var m: nat := c * n;
    assert (c + 1) * n == m + n;
  }

  /** A lower axis has every slot below those of a higher axis. */
  lemma SlotOrder(n: nat, c: nat, c': nat, ig: nat, ig': nat)
    requires c < c' && ig < n
    ensures (c + 1) * n + ig < (c' + 1) * n + ig'
  {
    var d: nat := c' - c - 1;
    assert (c' + 1) * n == (c + 1) * n + n + d * n;
  }

  /** The coordinate entry of an axis lies inside the table. */
  lemma PlaceLemma(n: nat, dim: nat, c: nat, ig: nat)
    requires ig < n && c < dim
    ensures (c + 1) * n + ig < n * (dim + 1)
  {
    assert (c + 1) * n <= dim * n by {
      assert c + 1 <= dim;
    }
    assert n * (dim + 1) == dim * n + n;
  }
}
