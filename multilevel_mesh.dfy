/**
 * The level bookkeeping of a multilevel mesh: the list of all levels built so
 * far (`_level0`), the active view on them (`_level`), the two level counters,
 * the six geometry flags and the 6 x 5 table of element types, one row per
 * geometry and one column per order. Reading, generating and refining a mesh
 * belong to the mesh component; here a mesh is an object that only knows its
 * level number, how it was produced and the element table it was handed.
 */
module MultiLevel {
  import opened ElemConfig

  /** Rows of the element table and size of the geometry-flag vector: hex, tet, wedge,
      quad, tri and line. */
  const GeometryRows: nat := 6

  /** Columns of the element table: linear, quadratic, biquadratic, constant, disc_linear. */
  const OrderColumns: nat := 5

  /** The size the flag vector is given before a coarse mesh is read, as written. */
  const AsWrittenFlagSize: nat := 5

  /** How a level came to be: read or generated (with the refinement index it reports),
      refined everywhere, or refined where the user's refinement function says. */
  datatype MeshKind = Coarse(refIndex: nat) | TotallyRefined | PartiallyRefined

  /** The element type held by a table slot: the configuration its constructor resolves
      the geometry and order names to, and the Gauss order it was given. */
  datatype ElemEntry = ElemEntry(setup: ElemSetup, gaussOrder: string)

  /** `std::vector::resize(n, fill)`: keeps the first n entries, pads with fill. */
  function Resize<T>(v: seq<T>, n: nat, fill: T): (r: seq<T>)
    ensures |r| == n
    ensures forall i :: 0 <= i < n ==> r[i] == (if i < |v| then v[i] else fill)
  {
    if n <= |v| then v[..n] else v + seq(n - |v|, _ => fill)
  }

  /** The element type `new elem_type_<d>D(name(g), OrderNames[j], gaussOrder)` of slot (g, j). */
  function TableEntry(g: nat, j: nat, gaussOrder: string): (e: ElemEntry)
    requires g < GeometryRows && j < OrderColumns
    ensures e.gaussOrder == gaussOrder
    ensures e.setup.dim == Dimension(GeometryAt(g)) && e.setup.solType == j
    ensures e.setup.basis.geometry == GeometryAt(g)
  {
    var geo := GeometryAt(g);
    var dim := Dimension(geo);
    assert 1 <= dim <= 3 && GeometryName(geo) == GeometryName(geo);
    SetupMeaning(dim, GeometryName(geo), OrderNames[j]);
    var s := Setup(dim, GeometryName(geo), OrderNames[j]).value;
    assert forall a, b :: 0 <= a < b < |OrderNames| ==> OrderNames[a] != OrderNames[b];
    GeometryNameInjective(s.basis.geometry, geo);
    ElemEntry(s, gaussOrder)
  }

  lemma GeometryNameInjective(g: Geometry, h: Geometry)
    requires GeometryName(g) == GeometryName(h)
    ensures g == h
  {
  }

  /** Row g of an element-type table: the five orders of geometry g, in column order. */
  method StoreGeometryRow(table: array2<Option<ElemEntry>>, g: nat, gaussOrder: string)
    requires table.Length0 == GeometryRows && table.Length1 == OrderColumns && g < GeometryRows
    modifies table
    ensures forall j :: 0 <= j < OrderColumns ==> table[g, j] == Some(TableEntry(g, j, gaussOrder))
    ensures forall h, j :: 0 <= h < GeometryRows && h != g && 0 <= j < OrderColumns ==> table[h, j] == old(table[h, j])
  {
    table[g, 0] := Some(TableEntry(g, 0, gaussOrder));
    table[g, 1] := Some(TableEntry(g, 1, gaussOrder));
    table[g, 2] := Some(TableEntry(g, 2, gaussOrder));
    table[g, 3] := Some(TableEntry(g, 3, gaussOrder));
    table[g, 4] := Some(TableEntry(g, 4, gaussOrder));
  }

  /** The statics shared by every multilevel mesh: `Mesh::_IsUserRefinementFunctionDefined`
      and `elem_type::_refindex`. */
  class Globals {
    var userRefinementDefined: bool
    var elemRefIndex: nat

    /** Their initial values: no refinement function, `_refindex = 1`. */
    constructor ()
      ensures !userRefinementDefined && elemRefIndex == 1
    {
      userRefinementDefined := false;
      elemRefIndex := 1;
    }
  }

  /** One mesh level: its level number (`SetLevel`), how it was produced, and the element
      table handed to it by `SetFiniteElementPtr`. */
  class Mesh {
    var level: nat
    const kind: MeshKind
    var finiteElement: array2?<Option<ElemEntry>>

    constructor (level: nat, kind: MeshKind)
      ensures this.level == level && this.kind == kind && finiteElement == null
    {
      this.level := level;
      this.kind := kind;
      finiteElement := null;
    }
  }

  class MultiLevelMesh {
    var gridn0: nat
    var gridn: nat
    var level0: seq<Mesh>
    var level: seq<Mesh>
    var geometryFlag: seq<bool>
    const finiteElement: array2<Option<ElemEntry>>

    /** The shape every operation keeps:
     *  - the table is 6 x 5 and there is one flag per row;
     *  - `_level0` holds exactly `_gridn0` distinct meshes, the first one read or generated;
     *  - the active view holds at least `_gridn` entries and `_gridn <= _gridn0`;
     *  - only rows of flagged geometries hold element types, so the destructor, which
     *    deletes flagged rows, frees every element type built. */
    ghost predicate Valid()
      reads this, finiteElement
    {
      && finiteElement.Length0 == GeometryRows && finiteElement.Length1 == OrderColumns
      && |geometryFlag| == GeometryRows
      && |level0| == gridn0
      && gridn <= gridn0 && gridn <= |level|
      && (gridn0 > 0 ==> level0[0].kind.Coarse?)
      && Distinct(level0)
      && (forall g, j :: 0 <= g < GeometryRows && 0 <= j < OrderColumns && finiteElement[g, j].Some? ==>
            geometryFlag[g])
    }

    /** `MultiLevelMesh()`: no level, six lowered flags, every slot NULL. */
    constructor ()
      ensures Valid() && fresh(finiteElement)
      ensures gridn0 == 0 && gridn == 0 && level0 == [] && level == []
      ensures geometryFlag == [false, false, false, false, false, false]
      ensures forall g, j :: 0 <= g < GeometryRows && 0 <= j < OrderColumns ==> finiteElement[g, j].None?
    {
      gridn0 := 0;
      gridn := 0;
      level0 := [];
      level := [];
      geometryFlag := Resize([], GeometryRows, false);
      var table := new Option<ElemEntry>[GeometryRows, OrderColumns];
      var i := 0;
      while i < GeometryRows
        invariant i <= GeometryRows
        invariant forall g, j :: 0 <= g < i && 0 <= j < OrderColumns ==> table[g, j].None?
      {
        var j := 0;
        while j < OrderColumns
          invariant j <= OrderColumns
          invariant forall g, l :: 0 <= g < i && 0 <= l < OrderColumns ==> table[g, l].None?
          invariant forall l :: 0 <= l < j ==> table[i, l].None?
        {
          table[i, j] := None;
          j := j + 1;
        }
        i := i + 1;
      }
      finiteElement := table;
    }

    /** The five element types of geometry row g. */
    method FillGeometryRow(g: nat, gaussOrder: string)
      requires finiteElement.Length0 == GeometryRows && finiteElement.Length1 == OrderColumns
      requires g < GeometryRows
      modifies finiteElement
      ensures forall j :: 0 <= j < OrderColumns ==> finiteElement[g, j] == Some(TableEntry(g, j, gaussOrder))
      ensures forall h, j :: 0 <= h < GeometryRows && h != g && 0 <= j < OrderColumns ==>
                finiteElement[h, j] == old(finiteElement[h, j])
    {
      StoreGeometryRow(finiteElement, g, gaussOrder);
    }

    /** `BuildElemType`: fill the rows of the flagged volume and surface geometries, then
        always the line row, raising its flag, and hand the table to the coarse mesh. The
        write of flag 5 needs the six-entry flag vector (see `ReadCoarseMesh`). */
    method BuildElemType(gaussOrder: string)
      requires Valid() && gridn0 > 0
      modifies this, finiteElement, level0[0]
      ensures gridn0 == old(gridn0) && gridn == old(gridn) && level0 == old(level0) && level == old(level)
      ensures Valid()
      ensures geometryFlag == old(geometryFlag)[5 := true]
      ensures forall g, j :: 0 <= g < GeometryRows && 0 <= j < OrderColumns ==>
                finiteElement[g, j] == (if geometryFlag[g] then Some(TableEntry(g, j, gaussOrder)) else old(finiteElement[g, j]))
      ensures level0[0].finiteElement == finiteElement && level0[0].level == old(level0[0].level)
    {
      var g := 0;
      while g < 5
        invariant g <= 5 && geometryFlag == old(geometryFlag)
        invariant gridn0 == old(gridn0) && gridn == old(gridn) && level0 == old(level0) && level == old(level)
        invariant level0[0].level == old(level0[0].level)
        invariant forall h, j :: 0 <= h < GeometryRows && 0 <= j < OrderColumns ==>
                    finiteElement[h, j] == (if h < g && geometryFlag[h] then Some(TableEntry(h, j, gaussOrder)) else old(finiteElement[h, j]))
      {
        if geometryFlag[g] {
          FillGeometryRow(g, gaussOrder);
        }
        g := g + 1;
      }
      geometryFlag := geometryFlag[5 := true];
      FillGeometryRow(5, gaussOrder);
      level0[0].finiteElement := finiteElement;
    }

    /** `ReadCoarseMesh` (and `GenerateCoarseBoxMesh`, whose bookkeeping is the same): one
        level, the coarse mesh, whose reader raises the flag of every geometry row in
        `found`; then the element table is built. The flag vector is sized to six entries
        here, where the code as written sizes it to five (see `AsWrittenFlagsTooShort`). */
    method ReadCoarseMesh(found: set<nat>, refIndex: nat, gaussOrder: string)
      requires Valid()
      modifies this, finiteElement
      ensures Valid()
      ensures gridn0 == 1 && gridn == 1 && |level0| == 1 && fresh(level0[0]) && level == level0
      ensures level0[0].kind == Coarse(refIndex) && level0[0].level == 0
      ensures forall g :: 0 <= g < GeometryRows ==>
                geometryFlag[g] == (g == 5 || old(geometryFlag[g]) || g in found)
      ensures forall g, j :: 0 <= g < GeometryRows && 0 <= j < OrderColumns ==>
                finiteElement[g, j] == (if geometryFlag[g] then Some(TableEntry(g, j, gaussOrder)) else old(finiteElement[g, j]))
    {
      gridn0 := 1;
      var coarse := new Mesh(0, Coarse(refIndex));
      level0 := [coarse];
      var flags := Resize(geometryFlag, GeometryRows, false);
      geometryFlag := seq(GeometryRows, g requires 0 <= g < GeometryRows => flags[g] || g in found);
      gridn := 0;
      level := [];
      BuildElemType(gaussOrder);
      gridn := gridn0;
      level := [level0[0]];
    }

    /** `MultiLevelMesh(igridn, igridr, mesh_file, GaussOrder, Lref, f)`: read the coarse
        mesh and build the element table, then refine as `RefineMesh` does; the process
        exits when partially refined levels are requested without a refinement function. */
    static method Create(igridn: nat, igridr: nat, found: set<nat>, refIndex: nat, gaussOrder: string,
                         hasFunction: bool, globals: Globals)
      returns (m: MultiLevelMesh, exit: Option<Termination>)
      requires 1 <= igridr <= igridn
      modifies globals
      ensures fresh(m)
      ensures globals.userRefinementDefined == (old(globals.userRefinementDefined) || hasFunction)
      ensures exit.Some? <==> igridr < igridn && !globals.userRefinementDefined
      ensures exit.None? ==>
                && m.Valid()
                && m.gridn0 == igridn && m.gridn == igridn && m.level == m.level0
                && m.level0[0].kind == Coarse(refIndex) && globals.elemRefIndex == refIndex
                && (forall i :: 1 <= i < igridn ==>
                      m.level0[i].level == i
                      && m.level0[i].kind == (if i < igridr then TotallyRefined else PartiallyRefined))
                && (forall g :: 0 <= g < GeometryRows ==> m.geometryFlag[g] == (g == 5 || g in found))
                && (forall g, j :: 0 <= g < GeometryRows && 0 <= j < OrderColumns ==>
                      m.finiteElement[g, j] == (if m.geometryFlag[g] then Some(TableEntry(g, j, gaussOrder)) else None))
    {
      m := new MultiLevelMesh();
      m.ReadCoarseMesh(found, refIndex, gaussOrder);
      exit := m.RefineMesh(igridn, igridr, hasFunction, globals);
    }

    /** `RefineMesh(igridn, igridr, f)`: keep the coarse level, refine every element of the
        levels below igridr and, with a user refinement function, the flagged elements of
        the levels from igridr to igridn; without one the process exits with status 1 as
        soon as such a level is requested. On return the active view is all the levels. */
    method RefineMesh(igridn: nat, igridr: nat, hasFunction: bool, globals: Globals) returns (exit: Option<Termination>)
      requires Valid() && gridn0 > 0
      requires 1 <= igridr <= igridn
      modifies this, globals
      ensures globals.userRefinementDefined == (old(globals.userRefinementDefined) || hasFunction)
      ensures exit.Some? <==> igridr < igridn && !globals.userRefinementDefined
      ensures exit.Some? ==> exit.value == Exit(1)
      ensures exit.None? ==>
                && Valid()
                && gridn0 == igridn && gridn == igridn && level == level0
                && level0[0] == old(level0[0])
                && globals.elemRefIndex == level0[0].kind.refIndex
                && (forall i :: 1 <= i < igridn ==>
                      fresh(level0[i]) && level0[i].level == i
                      && level0[i].kind == (if i < igridr then TotallyRefined else PartiallyRefined))
      ensures geometryFlag == old(geometryFlag)
    {
      var levels, ex := RefinedLevels(level0[0], igridn, igridr, hasFunction, globals);
      gridn0 := igridn;
      level0 := levels;
      if ex.Some? {
        return ex;
      }
      globals.elemRefIndex := level0[0].kind.refIndex;
      gridn := gridn0;
      level := CopyLevels(level0);
      exit := None;
    }

    /** `AddAMRMeshLevel`: refine the finest level where flagged, append the new mesh to
        both lists, the active view cut to its `_gridn` levels first, and count it. */
    method AddAMRMeshLevel() returns (finer: Mesh)
      requires Valid() && gridn0 > 0
      modifies this
      ensures Valid() && fresh(finer)
      ensures finer.kind == PartiallyRefined && finer.level == old(gridn0)
      ensures level0 == old(level0) + [finer]
      ensures level == old(level)[..old(gridn)] + [finer]
      ensures gridn0 == old(gridn0) + 1 && gridn == old(gridn) + 1
      ensures geometryFlag == old(geometryFlag)
    {
      finer := new Mesh(gridn0, PartiallyRefined);
      level0 := Resize(level0, gridn0 + 1, finer);
      level := Resize(level, gridn + 1, finer);
      level := level[gridn := finer];
      gridn0 := gridn0 + 1;
      gridn := gridn + 1;
    }

    /** `EraseCoarseLevels(k)`: the active view drops its k coarsest levels; its entry i
        becomes level i + k of `_level0`, renumbered i. Entries past the new `_gridn` stay
        as they were, and so does every mesh that is not renumbered. */
    method EraseCoarseLevels(k: nat)
      requires Valid() && k <= gridn
      modifies this, level0
      ensures Valid()
      ensures gridn == old(gridn) - k && gridn0 == old(gridn0)
      ensures level0 == old(level0) && |level| == old(|level|)
      ensures forall i :: 0 <= i < gridn ==> level[i] == level0[i + k] && level[i].level == i
      ensures forall i :: gridn <= i < |level| ==> level[i] == old(level[i])
      ensures forall j :: 0 <= j < |level0| && !(k <= j < k + gridn) ==> level0[j].level == old(level0[j].level)
      ensures geometryFlag == old(geometryFlag)
    {
      gridn := gridn - k;
      var i := 0;
      while i < gridn
        invariant i <= gridn && Valid()
        invariant gridn == old(gridn) - k && gridn0 == old(gridn0) && level0 == old(level0)
        invariant |level| == old(|level|) && geometryFlag == old(geometryFlag)
        invariant forall l :: 0 <= l < i ==> level[l] == level0[l + k] && level[l].level == l
        invariant forall l :: i <= l < |level| ==> level[l] == old(level[l])
        invariant forall j :: 0 <= j < |level0| && !(k <= j < k + i) ==> level0[j].level == old(level0[j].level)
      {
        level := level[i := level0[i + k]];
        level[i].level := i;
        i := i + 1;
      }
    }

    /** The deletions of the destructor: every level of `_level0`, then the five slots of
        each flagged geometry row. Every slot that holds an element type is among them. */
    method DeletedByDestructor() returns (meshes: seq<Mesh>, slots: seq<(nat, nat)>)
      requires Valid()
      ensures meshes == level0
      ensures forall s :: s in slots <==> s.0 < GeometryRows && s.1 < OrderColumns && geometryFlag[s.0]
      ensures forall g, j :: 0 <= g < GeometryRows && 0 <= j < OrderColumns && finiteElement[g, j].Some? ==>
                (g, j) in slots
    {
      meshes := [];
      var i := 0;
      while i < |level0|
        invariant i <= |level0| && meshes == level0[..i]
      {
        meshes := meshes + [level0[i]];
        i := i + 1;
      }
      slots := [];
      var g := 0;
      while g < GeometryRows
        invariant g <= GeometryRows
        invariant forall s :: s in slots <==> s.0 < g && s.1 < OrderColumns && geometryFlag[s.0]
      {
        if geometryFlag[g] {
          var j := 0;
          while j < OrderColumns
            invariant j <= OrderColumns
            invariant forall s :: s in slots <==>
                        (s.0 < g && s.1 < OrderColumns && geometryFlag[s.0]) || (s.0 == g && s.1 < j)
          {
            slots := slots + [(g, j)];
            j := j + 1;
          }
        }
        g := g + 1;
      }
    }
  }

  /** No mesh appears twice. */
  ghost predicate Distinct(levels: seq<Mesh>)
  {
    forall i, j :: 0 <= i < j < |levels| ==> levels[i] != levels[j]
  }

  /** The two refinement loops of `RefineMesh` and of the multilevel constructor, from the
      kept coarse level: levels 1 to igridr - 1 refine every element; levels igridr to
      igridn - 1 refine the flagged ones, which needs a user refinement function; a
      function passed here is registered first. */
  method RefinedLevels(coarse: Mesh, igridn: nat, igridr: nat, hasFunction: bool, globals: Globals)
    returns (levels: seq<Mesh>, exit: Option<Termination>)
    requires 1 <= igridr <= igridn
    modifies globals
    ensures globals.userRefinementDefined == (old(globals.userRefinementDefined) || hasFunction)
    ensures globals.elemRefIndex == old(globals.elemRefIndex)
    ensures exit.Some? <==> igridr < igridn && !globals.userRefinementDefined
    ensures exit.Some? ==> exit.value == Exit(1)
    ensures exit.None? ==>
              && |levels| == igridn && levels[0] == coarse && Distinct(levels)
              && (forall i :: 1 <= i < igridn ==>
                    fresh(levels[i]) && levels[i].level == i
                    && levels[i].kind == (if i < igridr then TotallyRefined else PartiallyRefined))
  {
    levels := [coarse];
    var i := 1;
    while i < igridr
      invariant 1 <= i <= igridr && |levels| == i && levels[0] == coarse && Distinct(levels)
      invariant globals.userRefinementDefined == old(globals.userRefinementDefined)
      invariant globals.elemRefIndex == old(globals.elemRefIndex)
      invariant forall l :: 1 <= l < i ==> fresh(levels[l]) && levels[l].level == l && levels[l].kind == TotallyRefined
    {
      var finer := new Mesh(i, TotallyRefined);
      levels := levels + [finer];
      i := i + 1;
    }
    if hasFunction {
      globals.userRefinementDefined := true;
    }
    while i < igridn
      invariant igridr <= i <= igridn && |levels| == i && levels[0] == coarse && Distinct(levels)
      invariant globals.userRefinementDefined == (old(globals.userRefinementDefined) || hasFunction)
      invariant globals.elemRefIndex == old(globals.elemRefIndex)
      invariant i > igridr ==> globals.userRefinementDefined
      invariant forall l :: 1 <= l < i ==>
                  fresh(levels[l]) && levels[l].level == l
                  && levels[l].kind == (if l < igridr then TotallyRefined else PartiallyRefined)
    {
      if !globals.userRefinementDefined {
        return levels, Some(Exit(1));
      }
      var finer := new Mesh(i, PartiallyRefined);
      levels := levels + [finer];
      i := i + 1;
    }
    exit := None;
  }

  /** `_level[i] = _level0[i]` for every level. */
  method CopyLevels(levels: seq<Mesh>) returns (view: seq<Mesh>)
    ensures |view| == |levels| && forall i :: 0 <= i < |levels| ==> view[i] == levels[i]
  {
    view := [];
    var k := 0;
    while k < |levels|
      invariant k <= |levels| && |view| == k
      invariant forall l :: 0 <= l < k ==> view[l] == levels[l]
    {
      view := view + [levels[k]];
      k := k + 1;
    }
  }

  // ---------------------------------------------------------------------------
  // The flag vector as written
  // ---------------------------------------------------------------------------

  /** As written, the flags are resized to five entries before the coarse mesh is read,
      so the line flag written by `BuildElemType` (index 5) lies past the end; a
      vector that had six entries, as after the default constructor, loses its line flag. */
  lemma AsWrittenFlagsTooShort(v: seq<bool>)
    ensures GeometryIndex(Line) >= |Resize(v, AsWrittenFlagSize, false)|
    ensures |v| == GeometryRows ==> |Resize(v, AsWrittenFlagSize, false)| < |v|
  {
  }

  /** Sized to six entries, the vector has a slot for every row of the table, and the
      flags already raised survive. */
  lemma CorrectedFlagsFit(v: seq<bool>)
    requires |v| <= GeometryRows
    ensures forall g: Geometry :: GeometryIndex(g) < |Resize(v, GeometryRows, false)|
    ensures forall i :: 0 <= i < |v| ==> Resize(v, GeometryRows, false)[i] == v[i]
  {
  }
}
