/**
 * Configuration dispatch of the element-type constructors: an order name and
 * a geometry name select a solution type (0..4) and a reference-basis variant,
 * and an unknown name terminates the process.
 */
module ElemConfig {

  datatype Option<+T> = None | Some(value: T)

  datatype Result<+T, +E> = Ok(value: T) | Err(error: E)

  /** Reference geometries, in the row order of the multilevel element table. */
  datatype Geometry = Hex | Tet | Wedge | Quad | Tri | Line

  /** Polynomial families of the reference bases. */
  datatype Family = Linear | Quadratic | Biquadratic | Constant | PiecewiseLinear

  /** A concrete basis class, e.g. BasisVariant(Quad, Biquadratic) is QuadBiquadratic
      and BasisVariant(Line, Constant) is line0. */
  datatype BasisVariant = BasisVariant(geometry: Geometry, family: Family)

  /** How a constructor ends the process on a bad name. */
  datatype Termination = Exit(status: int) | Abort

  datatype ConfigError =
    | InvalidOrder(order: string, geometry: string, how: Termination)
    | InvalidGeometry(geometry: string, how: Termination)

  /** What a successful constructor has chosen: dimension, `_SolType`, `_pt_basis`
      and the linear element used for the node coordinates and the derivative rows. */
  datatype ElemSetup = ElemSetup(dim: nat, solType: nat, basis: BasisVariant, linearElement: BasisVariant)

  /** The order names, indexed by solution type. */
  const OrderNames: seq<string> := ["linear", "quadratic", "biquadratic", "constant", "disc_linear"]

  function GeometryName(g: Geometry): string
  {
    match g
    case Hex => "hex"
    case Tet => "tet"
    case Wedge => "wedge"
    case Quad => "quad"
    case Tri => "tri"
    case Line => "line"
  }

  /** Row of the geometry in the 6x5 element table of a multilevel mesh. */
  function GeometryIndex(g: Geometry): nat
  {
    match g
    case Hex => 0
    case Tet => 1
    case Wedge => 2
    case Quad => 3
    case Tri => 4
    case Line => 5
  }

  function Dimension(g: Geometry): nat
  {
    match g
    case Hex => 3
    case Tet => 3
    case Wedge => 3
    case Quad => 2
    case Tri => 2
    case Line => 1
  }

  function GeometryAt(i: nat): (g: Geometry)
    requires i < 6
    ensures GeometryIndex(g) == i
  {
    if i == 0 then Hex else if i == 1 then Tet else if i == 2 then Wedge
    else if i == 3 then Quad else if i == 4 then Tri else Line
  }

  /** The if-chain on the order name shared by the three constructors. */
  function ParseOrder(order: string): (r: Option<nat>)
    ensures r.Some? ==> r.value < |OrderNames| && OrderNames[r.value] == order
    ensures r.None? ==> order !in OrderNames
  {
    if order == "linear" then Some(0)
    else if order == "quadratic" then Some(1)
    else if order == "biquadratic" then Some(2)
    else if order == "constant" then Some(3)
    else if order == "disc_linear" then Some(4)
    else None
  }

  /** Basis family of a solution type in 2D and 3D. */
  function FamilyOf(solType: nat): Family
    requires solType < 5
  {
    if solType == 0 then Linear
    else if solType == 1 then Quadratic
    else if solType == 2 then Biquadratic
    else if solType == 3 then Constant
    else PiecewiseLinear
  }

  /** Basis family of a solution type on the line: "quadratic" reuses LineBiquadratic. */
  function LineFamilyOf(solType: nat): Family
    requires solType < 5
  {
    if solType == 0 then Linear
    else if solType <= 2 then Biquadratic
    else if solType == 3 then Constant
    else PiecewiseLinear
  }

  /** elem_type_1D constructor dispatch; both failures call exit(0). */
  function Setup1D(geom: string, order: string): (r: Result<ElemSetup, ConfigError>)
    ensures r.Ok? <==> order in OrderNames && geom == "line"
    ensures order !in OrderNames ==> r == Err(InvalidOrder(order, geom, Exit(0)))
    ensures order in OrderNames && geom != "line" ==> r == Err(InvalidGeometry(geom, Exit(0)))
  {
    match ParseOrder(order)
    case None => Err(InvalidOrder(order, geom, Exit(0)))
    case Some(t) =>
      if geom == "line" then Ok(ElemSetup(1, t, BasisVariant(Line, LineFamilyOf(t)), BasisVariant(Line, Linear)))
      else Err(InvalidGeometry(geom, Exit(0)))
  }

  /** elem_type_2D constructor dispatch; both failures call abort(). */
  function Setup2D(geom: string, order: string): (r: Result<ElemSetup, ConfigError>)
    ensures r.Ok? <==> order in OrderNames && geom in ["quad", "tri"]
    ensures order !in OrderNames ==> r == Err(InvalidOrder(order, geom, Abort))
    ensures order in OrderNames && geom !in ["quad", "tri"] ==> r == Err(InvalidGeometry(geom, Abort))
  {
    match ParseOrder(order)
    case None => Err(InvalidOrder(order, geom, Abort))
    case Some(t) =>
      if geom == "quad" then Ok(ElemSetup(2, t, BasisVariant(Quad, FamilyOf(t)), BasisVariant(Quad, Linear)))
      else if geom == "tri" then Ok(ElemSetup(2, t, BasisVariant(Tri, FamilyOf(t)), BasisVariant(Tri, Linear)))
      else Err(InvalidGeometry(geom, Abort))
  }

  /** elem_type_3D constructor dispatch; both failures call exit(0). */
  function Setup3D(geom: string, order: string): (r: Result<ElemSetup, ConfigError>)
    ensures r.Ok? <==> order in OrderNames && geom in ["hex", "wedge", "tet"]
    ensures order !in OrderNames ==> r == Err(InvalidOrder(order, geom, Exit(0)))
    ensures order in OrderNames && geom !in ["hex", "wedge", "tet"] ==> r == Err(InvalidGeometry(geom, Exit(0)))
  {
    match ParseOrder(order)
    case None => Err(InvalidOrder(order, geom, Exit(0)))
    case Some(t) =>
      if geom == "hex" then Ok(ElemSetup(3, t, BasisVariant(Hex, FamilyOf(t)), BasisVariant(Hex, Linear)))
      else if geom == "wedge" then Ok(ElemSetup(3, t, BasisVariant(Wedge, FamilyOf(t)), BasisVariant(Wedge, Linear)))
      else if geom == "tet" then Ok(ElemSetup(3, t, BasisVariant(Tet, FamilyOf(t)), BasisVariant(Tet, Linear)))
      else Err(InvalidGeometry(geom, Exit(0)))
  }

  /** The constructor of the given dimension. */
  function Setup(dim: nat, geom: string, order: string): Result<ElemSetup, ConfigError>
    requires 1 <= dim <= 3
  {
    if dim == 1 then Setup1D(geom, order)
    else if dim == 2 then Setup2D(geom, order)
    else Setup3D(geom, order)
  }

  /** A successful setup records the order's index as solution type, the named
      geometry of the constructor's dimension, and a family that follows the solution
      type (line "quadratic" excepted); construction fails exactly on an unknown name. */
  lemma SetupMeaning(dim: nat, geom: string, order: string)
    requires 1 <= dim <= 3
    ensures Setup(dim, geom, order).Ok? <==>
              order in OrderNames && exists g: Geometry :: Dimension(g) == dim && GeometryName(g) == geom
    ensures Setup(dim, geom, order).Ok? ==>
              var s := Setup(dim, geom, order).value;
              && s.dim == dim && s.solType < 5 && OrderNames[s.solType] == order
              && GeometryName(s.basis.geometry) == geom && Dimension(s.basis.geometry) == dim
              && s.linearElement == BasisVariant(s.basis.geometry, Linear)
              && s.basis.family == (if dim == 1 then LineFamilyOf(s.solType) else FamilyOf(s.solType))
  {
    var ok := Setup(dim, geom, order).Ok?;
    if ok {
      var g := Setup(dim, geom, order).value.basis.geometry;
      assert Dimension(g) == dim && GeometryName(g) == geom;
    }
    if order in OrderNames && exists g: Geometry :: Dimension(g) == dim && GeometryName(g) == geom {
      var g: Geometry :| Dimension(g) == dim && GeometryName(g) == geom;
      assert geom == GeometryName(g);
    }
  }

  /** Every order name is accepted and maps back to its own index. */
  lemma {:induction false} ParseOrderRoundTrip(t: nat)
    requires t < |OrderNames|
    ensures ParseOrder(OrderNames[t]) == Some(t)
  {
    var r := ParseOrder(OrderNames[t]);
    assert r.Some?;
    assert OrderNames[r.value] == OrderNames[t];
    assert forall a, b :: 0 <= a < b < |OrderNames| ==> OrderNames[a] != OrderNames[b];
  }

  /** On the line, "quadratic" and "biquadratic" share the LineBiquadratic basis but
      keep distinct solution types; in 2D and 3D the five orders give five bases. */
  lemma LineQuadraticIsBiquadratic()
    ensures Setup1D("line", "quadratic").Ok? && Setup1D("line", "biquadratic").Ok?
    ensures Setup1D("line", "quadratic").value.basis == Setup1D("line", "biquadratic").value.basis
                                                   == BasisVariant(Line, Biquadratic)
    ensures Setup1D("line", "quadratic").value.solType == 1
    ensures Setup1D("line", "biquadratic").value.solType == 2
  {
    ParseOrderRoundTrip(1);
    ParseOrderRoundTrip(2);
  }

  /** In 2D and 3D the basis determines the solution type. */
  lemma {:induction false} FamilyDeterminesSolType(dim: nat, geom: string, o1: string, o2: string)
    requires dim == 2 || dim == 3
    requires Setup(dim, geom, o1).Ok? && Setup(dim, geom, o2).Ok?
    requires Setup(dim, geom, o1).value.basis == Setup(dim, geom, o2).value.basis
    ensures o1 == o2
  {
    SetupMeaning(dim, geom, o1);
    SetupMeaning(dim, geom, o2);
    var t1, t2 := Setup(dim, geom, o1).value.solType, Setup(dim, geom, o2).value.solType;
    assert FamilyOf(t1) == FamilyOf(t2);
    assert t1 == t2;
  }
}
