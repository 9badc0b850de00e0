/**
 * What the element type hands to the multigrid transfer operators of one coarse
 * element: the nonzero counts of each fine row, split into the part owned by
 * the row's process and the rest (the `NNZ_d` / `NNZ_o` vectors), and the rows
 * inserted into the prolongation, restriction and printing matrices. The dof
 * numbering, the ownership offsets and the two algebra sinks belong to other
 * components; here they are functions, sequences and call logs.
 */
module Transfer {
  import opened RefBasis
  import opened Prolongation

  /** One `NumericVector::set(index, value)` call. */
  datatype SetOp = SetOp(index: int, value: int)

  /** One `SparseMatrix::insert_row(row, ncols, cols, values)` call. */
  datatype InsertedRow = InsertedRow(row: int, cols: seq<int>, vals: seq<real>)

  /**
   * Dof lookups seen from one coarse element:
   *  - `fineDof(i0, i1)`: global row of local node i1 of subdivision i0 of the refined element;
   *  - `coarseDof(j)`: global column of coarse dof j of the solution;
   *  - `pairDof(j)`: the same for the paired solution of the restriction.
   */
  datatype DofMaps = DofMaps(fineDof: (nat, nat) -> int, coarseDof: nat -> int, pairDof: nat -> int)

  /**
   * Who owns a fine row, and which columns are local to that owner:
   *  - `KKOffsets`: the owner is the first process whose end offset on the fine level
   *    exceeds the row; its columns are `[coarseBegin[p], coarseEnd[p])`;
   *  - `DofOffsets`: the owner is found by a bisection search over the fine mesh
   *    (`isdom`); its columns are `[offsets[p], offsets[p + 1])`.
   */
  datatype Ownership =
    | KKOffsets(fineEnd: seq<int>, coarseBegin: seq<int>, coarseEnd: seq<int>)
    | DofOffsets(isdom: int -> nat, offsets: seq<int>)

  /** Some process ends after row r. */
  predicate HasOwner(ends: seq<int>, r: int)
  {
    exists p :: 0 <= p < |ends| && r < ends[p]
  }

  /** The first process whose end offset exceeds r. */
  function FirstAbove(ends: seq<int>, r: int): (p: nat)
    requires HasOwner(ends, r)
    ensures p < |ends| && r < ends[p]
    ensures forall q :: 0 <= q < p ==> ends[q] <= r
    decreases |ends|
  {
    if r < ends[0] then 0
    else
      assert HasOwner(ends[1..], r) by {
        var p :| 0 <= p < |ends| && r < ends[p];
        assert p != 0 && ends[1..][p - 1] == ends[p];
      }
      1 + FirstAbove(ends[1..], r)
  }

  /** The ownership data covers row r. */
  predicate Owns(own: Ownership, r: int)
  {
    match own
    case KKOffsets(fineEnd, coarseBegin, coarseEnd) =>
      HasOwner(fineEnd, r) && |coarseBegin| >= |fineEnd| && |coarseEnd| >= |fineEnd|
    case DofOffsets(isdom, offsets) => isdom(r) + 1 < |offsets|
  }

  /** The column range `[lo, hi)` local to the owner of row r. */
  function OwnedRange(own: Ownership, r: int): (range: (int, int))
    requires Owns(own, r)
  {
    match own
    case KKOffsets(fineEnd, coarseBegin, coarseEnd) =>
      var p := FirstAbove(fineEnd, r);
      (coarseBegin[p], coarseEnd[p])
    case DofOffsets(isdom, offsets) => (offsets[isdom(r)], offsets[isdom(r) + 1])
  }

  predicate Outside(col: int, range: (int, int))
  {
    col < range.0 || col >= range.1
  }

  /** Number of columns outside the range (`counter_o`). */
  function OffCount(cols: seq<int>, range: (int, int)): nat
  {
    if cols == [] then 0
    else OffCount(cols[..|cols| - 1], range) + (if Outside(cols[|cols| - 1], range) then 1 else 0)
  }

  /** Number of columns inside the range, counted on its own. */
  function InCount(cols: seq<int>, range: (int, int)): nat
  {
    if cols == [] then 0
    else InCount(cols[..|cols| - 1], range) + (if Outside(cols[|cols| - 1], range) then 0 else 1)
  }

  /** Diagonal and off-diagonal counts partition the row. */
  lemma {:induction false} CountsSplit(cols: seq<int>, range: (int, int))
    ensures InCount(cols, range) + OffCount(cols, range) == |cols|
    ensures (forall k :: 0 <= k < |cols| ==> !Outside(cols[k], range)) ==> OffCount(cols, range) == 0
    ensures (forall k :: 0 <= k < |cols| ==> Outside(cols[k], range)) ==> InCount(cols, range) == 0
  {
    if cols != [] {
      CountsSplit(cols[..|cols| - 1], range);
    }
  }

  lemma OffCountSnoc(cols: seq<int>, c: int, range: (int, int))
    ensures OffCount(cols + [c], range) == OffCount(cols, range) + (if Outside(c, range) then 1 else 0)
    ensures InCount(cols + [c], range) == InCount(cols, range) + (if Outside(c, range) then 0 else 1)
  {
    assert (cols + [c])[..|cols|] == cols;
  }

  /** The columns of a table row in the global numbering. */
  function MapCols(cols: seq<nat>, dof: nat -> int): (r: seq<int>)
    ensures |r| == |cols| && forall k :: 0 <= k < |cols| ==> r[k] == dof(cols[k])
  {
    seq(|cols|, k requires 0 <= k < |cols| => dof(cols[k]))
  }

  // ---------------------------------------------------------------------------
  // Coarse-to-coarse: an element that is not refined copies its dofs
  // ---------------------------------------------------------------------------

  /** One `set(irow, 1)` per coarse dof, before the process split. */
  function CoarseRowSets(maps: DofMaps, n: nat): (r: seq<SetOp>)
    ensures |r| == n && forall i :: 0 <= i < n ==> r[i] == SetOp(maps.fineDof(0, i), 1)
  {
    seq(n, i requires 0 <= i < n => SetOp(maps.fineDof(0, i), 1))
  }

  /** For each coarse dof, whether its column lies outside the range of its row's owner. */
  function CoarseOutside(maps: DofMaps, own: Ownership, n: nat): (r: seq<bool>)
    requires forall i :: 0 <= i < n ==> Owns(own, maps.fineDof(0, i))
    ensures |r| == n
    ensures forall i :: 0 <= i < n ==> r[i] == Outside(maps.coarseDof(i), OwnedRange(own, maps.fineDof(0, i)))
  {
    seq(n, i requires 0 <= i < n => Outside(maps.coarseDof(i), OwnedRange(own, maps.fineDof(0, i))))
  }

  /** The calls that go to NNZ_o (`off`) or to NNZ_d (`!off`), in order. */
  function Split(ops: seq<SetOp>, outside: seq<bool>, off: bool): seq<SetOp>
    requires |ops| == |outside|
  {
    if ops == [] then []
    else
      var n := |ops| - 1;
      Split(ops[..n], outside[..n], off) + (if outside[n] == off then [ops[n]] else [])
  }

  /** Every call goes to exactly one of the two vectors, and none is lost or made up. */
  lemma {:induction false} SplitExactlyOne(ops: seq<SetOp>, outside: seq<bool>)
    requires |ops| == |outside|
    ensures multiset(Split(ops, outside, false)) + multiset(Split(ops, outside, true)) == multiset(ops)
  {
    if ops != [] {
      var n := |ops| - 1;
      var d, o := Split(ops[..n], outside[..n], false), Split(ops[..n], outside[..n], true);
      SplitExactlyOne(ops[..n], outside[..n]);
      assert ops == ops[..n] + [ops[n]];
      MultisetSnoc(ops[..n], ops[n]);
      MultisetSnoc(if outside[n] then d else o, ops[n]);
    }
  }

  /** Hence the two vectors together have one entry per call. */
  lemma SplitCount(ops: seq<SetOp>, outside: seq<bool>)
    requires |ops| == |outside|
    ensures |Split(ops, outside, false)| + |Split(ops, outside, true)| == |ops|
  {
    SplitExactlyOne(ops, outside);
    assert |multiset(ops)| == |ops|;
  }

  lemma MultisetSnoc(s: seq<SetOp>, e: SetOp)
    ensures multiset(s + [e]) == multiset(s) + multiset{e}
  {
    assert multiset([e]) == multiset{e};
  }

  /** The rows `insert_row(irow, 1, {jcol}, {1.})` of an unrefined element. */
  function IdentityRows(maps: DofMaps, n: nat): (rows: seq<InsertedRow>)
    ensures |rows| == n
    ensures forall i :: 0 <= i < n ==>
              rows[i].row == maps.fineDof(0, i) && rows[i].cols == [maps.coarseDof(i)] && rows[i].vals == [1.0]
  {
    seq(n, i requires 0 <= i < n => InsertedRow(maps.fineDof(0, i), [maps.coarseDof(i)], [1.0]))
  }

  /** An unrefined element copies its coarse solution: fine dof i of subdivision 0 is the
      only row that reads coarse dof i, and the row gives it exactly the coarse value. */
  lemma IdentityRowsCopy(maps: DofMaps, n: nat, u: int -> real)
    ensures forall i :: 0 <= i < n ==>
              var row := IdentityRows(maps, n)[i];
              row.row == maps.fineDof(0, i)
              && |row.cols| == |row.vals| == 1
              && Apply([i], row.vals, (j: nat) => u(maps.coarseDof(j))) == u(maps.coarseDof(i))
  {
    forall i | 0 <= i < n
      ensures Apply([i], IdentityRows(maps, n)[i].vals, (j: nat) => u(maps.coarseDof(j))) == u(maps.coarseDof(i))
    {
      var w := (j: nat) => u(maps.coarseDof(j));
      assert IdentityRows(maps, n)[i].vals == [1.0];
      assert Apply([i], [1.0], w) == Apply([], [], w) + 1.0 * w(i);
    }
  }

  // ---------------------------------------------------------------------------
  // Restriction: columns routed by the projected solid mark
  // ---------------------------------------------------------------------------

  function MarkValue(m: bool): real
  {
    if m then 1.0 else 0.0
  }

  /** `fineNodeSolidMark[i]`: the table row applied to the 0/1 coarse marks. */
  function FineMark(cols: seq<nat>, vals: seq<real>, mark: nat -> bool): real
    requires |cols| == |vals|
  {
    Apply(cols, vals, (j: nat) => MarkValue(mark(j)))
  }

  /** A fine node counts as solid when its projected mark lies strictly between 0.99 and 1.01. */
  predicate IsSolid(m: real)
  {
    0.99 < m && m < 1.01
  }

  /** A column whose coarse mark agrees with the fine node's keeps the primary solution. */
  function RoutedCols(cols: seq<nat>, maps: DofMaps, mark: nat -> bool, isolid: bool): (r: seq<int>)
    ensures |r| == |cols|
    ensures forall k :: 0 <= k < |cols| ==>
              r[k] == (if mark(cols[k]) == isolid then maps.coarseDof(cols[k]) else maps.pairDof(cols[k]))
  {
    seq(|cols|, k requires 0 <= k < |cols| =>
      if mark(cols[k]) == isolid then maps.coarseDof(cols[k]) else maps.pairDof(cols[k]))
  }

  /** A rerouted value survives unless the pair is the solution itself. */
  function RoutedVals(cols: seq<nat>, vals: seq<real>, mark: nat -> bool, isolid: bool, samePair: bool): (r: seq<real>)
    requires |cols| == |vals|
    ensures |r| == |vals|
    ensures forall k :: 0 <= k < |cols| ==>
              r[k] == (if mark(cols[k]) == isolid || !samePair then vals[k] else 0.0)
  {
    seq(|vals|, k requires 0 <= k < |vals| =>
      if mark(cols[k]) == isolid || !samePair then vals[k] else 0.0)
  }

  /** The marks of a solution without solid marking. */
  function NoMark(j: nat): bool
  {
    false
  }

  /** With no solid marks (every solution type but 2) the restriction row is the
      prolongation row. */
  lemma UnmarkedRestriction(cols: seq<nat>, vals: seq<real>, maps: DofMaps, samePair: bool)
    requires |cols| == |vals|
    ensures IsSolid(FineMark(cols, vals, NoMark)) == false
    ensures RoutedCols(cols, maps, NoMark, false) == MapCols(cols, maps.coarseDof)
    ensures RoutedVals(cols, vals, NoMark, false, samePair) == vals
  {
    UnmarkedFineMark(cols, vals);
  }

  lemma {:induction false} UnmarkedFineMark(cols: seq<nat>, vals: seq<real>)
    requires |cols| == |vals|
    ensures FineMark(cols, vals, NoMark) == 0.0
  {
    if |cols| > 0 {
      var n := |cols| - 1;
      UnmarkedFineMark(cols[..n], vals[..n]);
      assert FineMark(cols, vals, NoMark) == FineMark(cols[..n], vals[..n], NoMark) + vals[n] * MarkValue(NoMark(cols[n]));
    }
  }

  // ---------------------------------------------------------------------------
  // Printing prolongation: coarse Lagrange nodes of another type
  // ---------------------------------------------------------------------------

  /** `fabs(phi) > 1.0e-14`: the strict test of the printing builders. */
  predicate KeepStrict(v: real)
  {
    Abs(v) > Threshold
  }

  /** Stored columns (through `solDof`) of printing row i over the first n dofs. */
  function PrintCols(b: Basis, i: nat, solDof: nat -> int, n: nat): seq<int>
  {
    if n == 0 then []
    else PrintCols(b, i, solDof, n - 1) + (if KeepStrict(b.phi(n - 1, b.xCoarse(i))) then [solDof(n - 1)] else [])
  }

  function PrintVals(b: Basis, i: nat, n: nat): seq<real>
  {
    if n == 0 then []
    else
      var v := b.phi(n - 1, b.xCoarse(i));
      PrintVals(b, i, n - 1) + (if KeepStrict(v) then [v] else [])
  }

  /** Every stored printing value passes the strict test, and columns and values pair up. */
  lemma {:induction false} PrintRowShape(b: Basis, i: nat, solDof: nat -> int, n: nat)
    ensures |PrintCols(b, i, solDof, n)| == |PrintVals(b, i, n)| <= n
    ensures forall k :: 0 <= k < |PrintVals(b, i, n)| ==> KeepStrict(PrintVals(b, i, n)[k])
  {
    if n > 0 {
      PrintRowShape(b, i, solDof, n - 1);
    }
  }

  /** Printing row i: one entry 1 at the node's own dof for an identity map, otherwise
      the coarse dofs whose shape value at coarse node i passes the strict test. */
  function PrintRow(b: Basis, identity: bool, i: nat, solDof: nat -> int): (r: (seq<int>, seq<real>))
  {
    if identity then ([solDof(i)], [1.0]) else (PrintCols(b, i, solDof, b.nc), PrintVals(b, i, b.nc))
  }

  /** `floor(NNZ_d(irow) + NNZ_o(irow) + 0.5)`: the stored count read back. */
  function StoredCount(d: real, o: real): int
  {
    (d + o + 0.5).Floor
  }

  /** Counts written as whole numbers read back exactly. */
  lemma StoredCountExact(d: nat, o: nat)
    ensures StoredCount(d as real, o as real) == d + o
  {
    var s := (d + o) as real;
    assert s + 0.5 == (d as real) + (o as real) + 0.5;
    assert (s + 0.5).Floor == d + o;
  }

  /** The rows the printing builder inserts among the first n coarse nodes: only those
      whose stored count matches the row's own count. */
  function PrintInserted(b: Basis, identity: bool, rowDof: nat -> int, solDof: nat -> int,
                         nnzD: int -> real, nnzO: int -> real, n: nat): seq<InsertedRow>
  {
    if n == 0 then []
    else
      var row := PrintRow(b, identity, n - 1, solDof);
      var irow := rowDof(n - 1);
      PrintInserted(b, identity, rowDof, solDof, nnzD, nnzO, n - 1)
      + (if |row.0| == StoredCount(nnzD(irow), nnzO(irow)) then [InsertedRow(irow, row.0, row.1)] else [])
  }

  /** The NNZ vectors hold printing row i's own diagonal and off-diagonal counts. */
  predicate CountsStored(b: Basis, identity: bool, rowDof: nat -> int, solDof: nat -> int,
                         own: Ownership, nnzD: int -> real, nnzO: int -> real, i: nat)
  {
    var cols := PrintRow(b, identity, i, solDof).0;
    && Owns(own, rowDof(i))
    && nnzD(rowDof(i)) == InCount(cols, OwnedRange(own, rowDof(i))) as real
    && nnzO(rowDof(i)) == OffCount(cols, OwnedRange(own, rowDof(i))) as real
  }

  /** When the NNZ vectors hold each row's own counts, every printing row is inserted. */
  lemma {:induction false} PrintAllInserted(b: Basis, identity: bool, rowDof: nat -> int, solDof: nat -> int,
                                           own: Ownership, nnzD: int -> real, nnzO: int -> real, n: nat)
    requires forall i :: 0 <= i < n ==> CountsStored(b, identity, rowDof, solDof, own, nnzD, nnzO, i)
    ensures |PrintInserted(b, identity, rowDof, solDof, nnzD, nnzO, n)| == n
    ensures forall i :: 0 <= i < n ==>
              PrintInserted(b, identity, rowDof, solDof, nnzD, nnzO, n)[i]
              == InsertedRow(rowDof(i), PrintRow(b, identity, i, solDof).0, PrintRow(b, identity, i, solDof).1)
  {
    if n > 0 {
      PrintAllInserted(b, identity, rowDof, solDof, own, nnzD, nnzO, n - 1);
      assert CountsStored(b, identity, rowDof, solDof, own, nnzD, nnzO, n - 1);
      var row := PrintRow(b, identity, n - 1, solDof);
      var irow := rowDof(n - 1);
      var range := OwnedRange(own, irow);
      CountsSplit(row.0, range);
      StoredCountExact(InCount(row.0, range), OffCount(row.0, range));
      assert |row.0| == StoredCount(nnzD(irow), nnzO(irow));
      var prev := PrintInserted(b, identity, rowDof, solDof, nnzD, nnzO, n - 1);
      assert PrintInserted(b, identity, rowDof, solDof, nnzD, nnzO, n) == prev + [InsertedRow(irow, row.0, row.1)];
    }
  }

  // ---------------------------------------------------------------------------
  // Coarse-to-fine: one row per fine node of the refined element
  // ---------------------------------------------------------------------------

  /** Global row of fine node i: subdivision `kvert[i].0`, local node `kvert[i].1`. */
  function FineRow(p: ProlData, maps: DofMaps, i: nat): int
    requires WellFormed(p) && i < p.basis.nf
  {
    maps.fineDof(p.basis.kvert[i].0, p.basis.kvert[i].1)
  }

  /** The ownership data covers every fine row of the element. */
  predicate FineRowsOwned(p: ProlData, maps: DofMaps, own: Ownership)
    requires WellFormed(p)
  {
    forall i :: 0 <= i < p.basis.nf ==> Owns(own, FineRow(p, maps, i))
  }

  /** The ownership data covers every row of an unrefined element. */
  predicate CoarseRowsOwned(maps: DofMaps, own: Ownership, n: nat)
  {
    forall i :: 0 <= i < n ==> Owns(own, maps.fineDof(0, i))
  }

  /** One more coarse dof appends its call to exactly the vector its column selects. */
  lemma CoarseSplitStep(maps: DofMaps, own: Ownership, i: nat, off: bool)
    requires CoarseRowsOwned(maps, own, i + 1)
    ensures Split(CoarseRowSets(maps, i + 1), CoarseOutside(maps, own, i + 1), off)
         == Split(CoarseRowSets(maps, i), CoarseOutside(maps, own, i), off)
            + (if Outside(maps.coarseDof(i), OwnedRange(own, maps.fineDof(0, i))) == off
               then [SetOp(maps.fineDof(0, i), 1)] else [])
  {
    assert CoarseRowSets(maps, i + 1)[..i] == CoarseRowSets(maps, i);
    assert CoarseOutside(maps, own, i + 1)[..i] == CoarseOutside(maps, own, i);
  }

  /** The `NNZ_o` (`off`) or `NNZ_d` (`!off`) calls of a refined element: row i's columns
      in the global numbering, counted outside or inside its owner's range. */
  function RefinedSets(p: ProlData, maps: DofMaps, own: Ownership, off: bool): (r: seq<SetOp>)
    requires WellFormed(p) && FineRowsOwned(p, maps, own)
    ensures |r| == p.basis.nf
  {
    seq(p.basis.nf, i requires 0 <= i < p.basis.nf => RefinedSet(p, maps, own, off, i))
  }

  /** The call for fine row i. */
  function RefinedSet(p: ProlData, maps: DofMaps, own: Ownership, off: bool, i: nat): SetOp
    requires WellFormed(p) && i < p.basis.nf && Owns(own, FineRow(p, maps, i))
  {
    var cols := MapCols(RowCols(p, i, p.basis.nc), maps.coarseDof);
    var range := OwnedRange(own, FineRow(p, maps, i));
    SetOp(FineRow(p, maps, i), if off then OffCount(cols, range) else InCount(cols, range))
  }

  /** The rows `insert_row(irow, ncols, cols, _prol_val[i])` of a refined element. */
  function ProlRows(p: ProlData, maps: DofMaps): (rows: seq<InsertedRow>)
    requires WellFormed(p)
    ensures |rows| == p.basis.nf
  {
    seq(p.basis.nf, i requires 0 <= i < p.basis.nf =>
      InsertedRow(FineRow(p, maps, i), MapCols(RowCols(p, i, p.basis.nc), maps.coarseDof), RowVals(p, i, p.basis.nc)))
  }

  /** Row i of a refined element's prolongation: its columns are the coarse dofs whose
      coefficient passes the threshold, in ascending local order, each carrying that
      coefficient; applied to a coarse vector it gives the truncated interpolation. */
  lemma ProlRowsMeaning(p: ProlData, maps: DofMaps, i: nat, u: nat -> real)
    requires WellFormed(p) && i < p.basis.nf
    ensures var row := ProlRows(p, maps)[i];
            var local := RowCols(p, i, p.basis.nc);
            && row.row == FineRow(p, maps, i)
            && |row.cols| == |row.vals| == |local|
            && (forall k :: 0 <= k < |local| ==>
                  local[k] < p.basis.nc && row.cols[k] == maps.coarseDof(local[k])
                  && row.vals[k] == Coefficient(p, i, local[k]) && Keep(row.vals[k]))
            && (forall j :: 0 <= j < p.basis.nc ==> (j in local <==> Keep(Coefficient(p, i, j))))
            && Apply(local, row.vals, u) == TruncatedSum(p, i, p.basis.nc, u)
  {
    RowShape(p, i, p.basis.nc);
    RowApplication(p, i, p.basis.nc, u);
  }

  /** The preallocation matches the insertion: the NNZ_d and NNZ_o calls of row i go to
      the row the prolongation inserts, their values add up to its length, and the
      NNZ_o value counts its columns outside the owner's range. */
  lemma SparsityMatchesProlongation(p: ProlData, maps: DofMaps, own: Ownership)
    requires WellFormed(p) && FineRowsOwned(p, maps, own)
    ensures forall i :: 0 <= i < p.basis.nf ==>
              var row := ProlRows(p, maps)[i];
              var d, o := RefinedSets(p, maps, own, false)[i], RefinedSets(p, maps, own, true)[i];
              && d.index == o.index == row.row
              && d.value + o.value == |row.cols|
              && o.value == OffCount(row.cols, OwnedRange(own, row.row))
  {
    forall i | 0 <= i < p.basis.nf
      ensures RefinedSets(p, maps, own, false)[i].value + RefinedSets(p, maps, own, true)[i].value
              == |ProlRows(p, maps)[i].cols|
    {
      CountsSplit(MapCols(RowCols(p, i, p.basis.nc), maps.coarseDof), OwnedRange(own, FineRow(p, maps, i)));
    }
  }

  /** The preallocation of an unrefined element: each of its rows is counted once, in
      exactly one of the two vectors, with the length 1 of its identity row. */
  lemma CoarseSparsityMatchesIdentity(maps: DofMaps, own: Ownership, n: nat)
    requires CoarseRowsOwned(maps, own, n)
    ensures var d, o := Split(CoarseRowSets(maps, n), CoarseOutside(maps, own, n), false),
                        Split(CoarseRowSets(maps, n), CoarseOutside(maps, own, n), true);
            && multiset(d) + multiset(o) == multiset(CoarseRowSets(maps, n))
            && |d| + |o| == n
    ensures forall i :: 0 <= i < n ==>
              CoarseRowSets(maps, n)[i].index == IdentityRows(maps, n)[i].row
              && CoarseRowSets(maps, n)[i].value == |IdentityRows(maps, n)[i].cols|
  {
    SplitExactlyOne(CoarseRowSets(maps, n), CoarseOutside(maps, own, n));
    SplitCount(CoarseRowSets(maps, n), CoarseOutside(maps, own, n));
  }

  /** The coarse solid marks the restriction reads: only a solution of type 2 is marked. */
  function SolidMarks(solType: nat, mark: nat -> bool): nat -> bool
  {
    if solType == 2 then mark else NoMark
  }

  /** `fineNodeSolidMark[i]`: row i of the table applied to the coarse marks. */
  function ProjectedMark(p: ProlData, mark: nat -> bool, i: nat): real
    requires WellFormed(p) && i < p.basis.nf
  {
    RowLength(p, i, p.basis.nc);
    FineMark(RowCols(p, i, p.basis.nc), RowVals(p, i, p.basis.nc), mark)
  }

  /** The rows of a refined element's restriction transpose, columns routed to the
      paired solution where the coarse mark disagrees with the fine node's. */
  function RestrictionRows(p: ProlData, maps: DofMaps, mark: nat -> bool, samePair: bool): (rows: seq<InsertedRow>)
    requires WellFormed(p)
    ensures |rows| == p.basis.nf
  {
    seq(p.basis.nf, i requires 0 <= i < p.basis.nf => RestrictionRow(p, maps, mark, samePair, i))
  }

  /** Row i of the restriction transpose: the fine node is solid when its projected mark
      is close to 1, and an entry whose coarse mark differs takes the paired column. */
  function RestrictionRow(p: ProlData, maps: DofMaps, mark: nat -> bool, samePair: bool, i: nat): InsertedRow
    requires WellFormed(p) && i < p.basis.nf
  {
    var cols, vals := RowCols(p, i, p.basis.nc), RowVals(p, i, p.basis.nc);
    RowLength(p, i, p.basis.nc);
    var isolid := IsSolid(ProjectedMark(p, mark, i));
    InsertedRow(FineRow(p, maps, i), RoutedCols(cols, maps, mark, isolid), RoutedVals(cols, vals, mark, isolid, samePair))
  }

  /** Without solid marks the restriction transpose inserts the prolongation's rows. */
  lemma UnmarkedRestrictionIsProlongation(p: ProlData, maps: DofMaps, mark: nat -> bool, samePair: bool)
    requires WellFormed(p) && p.solType != 2
    ensures RestrictionRows(p, maps, SolidMarks(p.solType, mark), samePair) == ProlRows(p, maps)
  {
    forall i | 0 <= i < p.basis.nf
      ensures RestrictionRows(p, maps, NoMark, samePair)[i] == ProlRows(p, maps)[i]
    {
      RowShape(p, i, p.basis.nc);
      UnmarkedRestriction(RowCols(p, i, p.basis.nc), RowVals(p, i, p.basis.nc), maps, samePair);
    }
  }

  /** Row i of the restriction transpose against row i of the prolongation: same fine row,
      same length; an entry whose coarse mark agrees with the fine node's solid flag is the
      prolongation's entry, any other entry moves to the paired dof and keeps its value
      unless the pair is the solution itself, where it becomes 0. */
  lemma RestrictionVsProlongation(p: ProlData, maps: DofMaps, mark: nat -> bool, samePair: bool, i: nat)
    requires WellFormed(p) && i < p.basis.nf
    ensures var r, q := RestrictionRows(p, maps, mark, samePair)[i], ProlRows(p, maps)[i];
            var local := RowCols(p, i, p.basis.nc);
            var isolid := IsSolid(ProjectedMark(p, mark, i));
            && r.row == q.row
            && |r.cols| == |q.cols| == |r.vals| == |q.vals| == |local|
            && (forall k :: 0 <= k < |local| && mark(local[k]) == isolid ==>
                  r.cols[k] == q.cols[k] && r.vals[k] == q.vals[k])
            && (forall k :: 0 <= k < |local| && mark(local[k]) != isolid ==>
                  r.cols[k] == maps.pairDof(local[k]) && r.vals[k] == (if samePair then 0.0 else q.vals[k]))
  {
    RowLength(p, i, p.basis.nc);
  }

  // ---------------------------------------------------------------------------
  // Printing prolongation: counts and rows
  // ---------------------------------------------------------------------------

  /** The printing `NNZ_o` (`off`) or `NNZ_d` (`!off`) calls for the first n Lagrange nodes. */
  function PrintSets(b: Basis, identity: bool, rowDof: nat -> int, solDof: nat -> int,
                     own: Ownership, n: nat, off: bool): (r: seq<SetOp>)
    requires forall i :: 0 <= i < n ==> Owns(own, rowDof(i))
    ensures |r| == n
  {
    seq(n, i requires 0 <= i < n => PrintSet(b, identity, rowDof, solDof, own, i, off))
  }

  /** The `NNZ_o` (`off`) or `NNZ_d` (`!off`) call of printing row i. */
  function PrintSet(b: Basis, identity: bool, rowDof: nat -> int, solDof: nat -> int,
                    own: Ownership, i: nat, off: bool): SetOp
    requires Owns(own, rowDof(i))
  {
    var cols := PrintRow(b, identity, i, solDof).0;
    var range := OwnedRange(own, rowDof(i));
    SetOp(rowDof(i), if off then OffCount(cols, range) else InCount(cols, range))
  }

  /** When each printing row's NNZ entries read back what the printing pattern wrote, the
      printing builder inserts every row. */
  lemma PrintPipeline(b: Basis, identity: bool, rowDof: nat -> int, solDof: nat -> int,
                      own: Ownership, nnzD: int -> real, nnzO: int -> real, n: nat)
    requires forall i :: 0 <= i < n ==> Owns(own, rowDof(i))
    requires forall i :: 0 <= i < n ==>
               nnzD(rowDof(i)) == PrintSets(b, identity, rowDof, solDof, own, n, false)[i].value as real
               && nnzO(rowDof(i)) == PrintSets(b, identity, rowDof, solDof, own, n, true)[i].value as real
    ensures |PrintInserted(b, identity, rowDof, solDof, nnzD, nnzO, n)| == n
    ensures forall i :: 0 <= i < n ==>
              PrintInserted(b, identity, rowDof, solDof, nnzD, nnzO, n)[i].cols == PrintRow(b, identity, i, solDof).0
  {
    forall i | 0 <= i < n
      ensures CountsStored(b, identity, rowDof, solDof, own, nnzD, nnzO, i)
    {
      assert PrintSets(b, identity, rowDof, solDof, own, n, false)[i].value
             == InCount(PrintRow(b, identity, i, solDof).0, OwnedRange(own, rowDof(i)));
    }
    PrintAllInserted(b, identity, rowDof, solDof, own, nnzD, nnzO, n);
  }

  // ---------------------------------------------------------------------------
  // The loops of the builders
  // ---------------------------------------------------------------------------

  /** `while (irow >= KKoffset[last][iproc]) iproc++`. */
  method OwningProcess(ends: seq<int>, r: int) returns (p: nat)
    requires HasOwner(ends, r)
    ensures p < |ends| && r < ends[p]
    ensures forall q :: 0 <= q < p ==> ends[q] <= r
  {
    p := 0;
    while r >= ends[p]
      invariant p <= FirstAbove(ends, r)
      decreases FirstAbove(ends, r) - p
    {
      p := p + 1;
    }
  }

  /** The owner's column range: by the offset search, or by `IsdomBisectionSearch`. */
  method OwnerRange(own: Ownership, r: int) returns (range: (int, int))
    requires Owns(own, r)
    ensures range == OwnedRange(own, r)
  {
    match own
    case KKOffsets(fineEnd, coarseBegin, coarseEnd) =>
      var p := OwningProcess(fineEnd, r);
      range := (coarseBegin[p], coarseEnd[p]);
    case DofOffsets(isdom, offsets) =>
      var p := isdom(r);
      range := (offsets[p], offsets[p + 1]);
  }

  /** `counter_o`: the columns of a table row that fall outside the owner's range. */
  method CountOutside(row: seq<nat>, dof: nat -> int, range: (int, int)) returns (counterO: nat)
    ensures counterO == OffCount(MapCols(row, dof), range)
  {
    counterO := 0;
    var k := 0;
    while k < |row|
      invariant k <= |row|
      invariant counterO == OffCount(MapCols(row[..k], dof), range)
    {
      var jcolumn := dof(row[k]);
      assert MapCols(row[..k + 1], dof) == MapCols(row[..k], dof) + [jcolumn];
      OffCountSnoc(MapCols(row[..k], dof), jcolumn, range);
      if jcolumn < range.0 || jcolumn >= range.1 {
        counterO := counterO + 1;
      }
      k := k + 1;
    }
    assert row[..k] == row;
  }

  /** `cols[k] = GetSystemDof(..., j, ielc)` over a table row. */
  method MapRow(row: seq<nat>, dof: nat -> int) returns (cols: seq<int>)
    ensures |cols| == |row| && forall k :: 0 <= k < |row| ==> cols[k] == dof(row[k])
  {
    cols := [];
    var k := 0;
    while k < |row|
      invariant k <= |row| && |cols| == k
      invariant forall l :: 0 <= l < k ==> cols[l] == dof(row[l])
    {
      cols := cols + [dof(row[k])];
      k := k + 1;
    }
  }

  /** `fineNodeSolidMark[i] += _prol_val[i][k] * coarseNodeSolidMark[j]`. */
  method ProjectMark(cols: seq<nat>, vals: seq<real>, mark: nat -> bool) returns (m: real)
    requires |cols| == |vals|
    ensures m == FineMark(cols, vals, mark)
  {
    m := 0.0;
    var k := 0;
    while k < |cols|
      invariant k <= |cols|
      invariant m == FineMark(cols[..k], vals[..k], mark)
    {
      assert cols[..k + 1][..k] == cols[..k] && vals[..k + 1][..k] == vals[..k];
      m := m + vals[k] * MarkValue(mark(cols[k]));
      k := k + 1;
    }
    assert cols[..k] == cols && vals[..k] == vals;
  }

  /** The inner loop of the restriction: column and value of each entry by its mark. */
  method RouteRow(row: seq<nat>, vals: seq<real>, maps: DofMaps, mark: nat -> bool, isolid: bool, samePair: bool)
    returns (cols: seq<int>, copy: seq<real>)
    requires |row| == |vals|
    ensures cols == RoutedCols(row, maps, mark, isolid)
    ensures copy == RoutedVals(row, vals, mark, isolid, samePair)
  {
    cols, copy := [], [];
    var k := 0;
    while k < |row|
      invariant k <= |row| && |cols| == |copy| == k
      invariant forall l :: 0 <= l < k ==> cols[l] == RoutedCols(row, maps, mark, isolid)[l]
      invariant forall l :: 0 <= l < k ==> copy[l] == RoutedVals(row, vals, mark, isolid, samePair)[l]
    {
      var j := row[k];
      if isolid == mark(j) {
        cols, copy := cols + [maps.coarseDof(j)], copy + [vals[k]];
      } else {
        cols, copy := cols + [maps.pairDof(j)], copy + [if !samePair then vals[k] else 0.0];
      }
      k := k + 1;
    }
  }

  /** The first k candidates of a printing row. */
  function PrintPrefix(b: Basis, identity: bool, i: nat, solDof: nat -> int, k: nat): (r: (seq<int>, seq<real>))
  {
    if identity then (if k == 0 then ([], []) else ([solDof(i)], [1.0]))
    else (PrintCols(b, i, solDof, k), PrintVals(b, i, k))
  }

  /** One more candidate: kept exactly when it passes the strict test. */
  lemma PrintPrefixStep(b: Basis, identity: bool, i: nat, solDof: nat -> int, k: nat)
    requires identity ==> k == 0
    ensures var v := if identity then 1.0 else b.phi(k, b.xCoarse(i));
            var prev := PrintPrefix(b, identity, i, solDof, k);
            PrintPrefix(b, identity, i, solDof, k + 1)
            == if KeepStrict(v) then (prev.0 + [if identity then solDof(i) else solDof(k)], prev.1 + [v]) else prev
  {
    if identity {
      assert Abs(1.0) == 1.0;
      assert KeepStrict(1.0);
      var none: seq<int>, noVal: seq<real> := [], [];
      assert none + [solDof(i)] == [solDof(i)] && noVal + [1.0] == [1.0];
    } else {
      var prev := PrintPrefix(b, identity, i, solDof, k);
      assert prev.0 + [] == prev.0 && prev.1 + [] == prev.1;
    }
  }

  /** The candidate loop of the printing builders: shape value of coarse dof k at coarse
      node i (or 1 for an identity map), kept when it passes the strict test. */
  method PrintRowLoop(b: Basis, identity: bool, i: nat, solDof: nat -> int) returns (cols: seq<int>, vals: seq<real>)
    ensures (cols, vals) == PrintRow(b, identity, i, solDof)
  {
    var ncols := if identity then 1 else b.nc;
    cols, vals := [], [];
    var k := 0;
    while k < ncols
      invariant k <= ncols
      invariant (cols, vals) == PrintPrefix(b, identity, i, solDof, k)
    {
      var v := if identity then 1.0 else b.phi(k, b.xCoarse(i));
      PrintPrefixStep(b, identity, i, solDof, k);
      if Abs(v) > Threshold {
        cols := cols + [if identity then solDof(i) else solDof(k)];
        vals := vals + [v];
      }
      k := k + 1;
    }
  }

  /** The counting loop of the printing pattern: `counter` kept candidates, `counter_o`
      of them outside the owner's range. */
  method PrintCountLoop(b: Basis, identity: bool, i: nat, solDof: nat -> int, range: (int, int))
    returns (counter: nat, counterO: nat)
    ensures counter == |PrintRow(b, identity, i, solDof).0|
    ensures counterO == OffCount(PrintRow(b, identity, i, solDof).0, range)
  {
    var ncols := if identity then 1 else b.nc;
    counter, counterO := 0, 0;
    var k := 0;
    while k < ncols
      invariant k <= ncols
      invariant counter == |PrintPrefix(b, identity, i, solDof, k).0|
      invariant counterO == OffCount(PrintPrefix(b, identity, i, solDof, k).0, range)
    {
      var v := if identity then 1.0 else b.phi(k, b.xCoarse(i));
      ghost var before := PrintPrefix(b, identity, i, solDof, k).0;
      PrintPrefixStep(b, identity, i, solDof, k);
      if Abs(v) > Threshold {
        counter := counter + 1;
        var kcolumn := if identity then solDof(i) else solDof(k);
        OffCountSnoc(before, kcolumn, range);
        if kcolumn < range.0 || kcolumn >= range.1 {
          counterO := counterO + 1;
        }
      }
      k := k + 1;
    }
  }

  /** The printing count pass over n Lagrange nodes, one row at a time. */
  method PrintPattern(b: Basis, identity: bool, rowDof: nat -> int, solDof: nat -> int, own: Ownership, n: nat)
    returns (nnzD: seq<SetOp>, nnzO: seq<SetOp>)
    requires forall i :: 0 <= i < n ==> Owns(own, rowDof(i))
    ensures nnzD == PrintSets(b, identity, rowDof, solDof, own, n, false)
    ensures nnzO == PrintSets(b, identity, rowDof, solDof, own, n, true)
  {
    nnzD, nnzO := [], [];
    var i := 0;
    while i < n
      invariant i <= n && |nnzD| == |nnzO| == i
      invariant forall r :: 0 <= r < i ==>
                  nnzD[r] == PrintSet(b, identity, rowDof, solDof, own, r, false)
                  && nnzO[r] == PrintSet(b, identity, rowDof, solDof, own, r, true)
    {
      var d, o := PrintPatternRow(b, identity, rowDof, solDof, own, i);
      nnzD := nnzD + [d];
      nnzO := nnzO + [o];
      i := i + 1;
    }
  }

  /** Row i's owner range, then `counter - counter_o` to `NNZ_d` and `counter_o` to `NNZ_o`. */
  method PrintPatternRow(b: Basis, identity: bool, rowDof: nat -> int, solDof: nat -> int, own: Ownership, i: nat)
    returns (d: SetOp, o: SetOp)
    requires Owns(own, rowDof(i))
    ensures d == PrintSet(b, identity, rowDof, solDof, own, i, false)
    ensures o == PrintSet(b, identity, rowDof, solDof, own, i, true)
  {
    var irow := rowDof(i);
    var range := OwnerRange(own, irow);
    var counter, counterO := PrintCountLoop(b, identity, i, solDof, range);
    CountsSplit(PrintRow(b, identity, i, solDof).0, range);
    d, o := SetOp(irow, counter - counterO), SetOp(irow, counterO);
  }

  /** The printing builder over n Lagrange nodes: a row is inserted only when its length
      matches the count stored for it. */
  method PrintInsertion(b: Basis, identity: bool, rowDof: nat -> int, solDof: nat -> int,
                        nnzD: int -> real, nnzO: int -> real, n: nat)
    returns (rows: seq<InsertedRow>)
    ensures rows == PrintInserted(b, identity, rowDof, solDof, nnzD, nnzO, n)
  {
    rows := [];
    var i := 0;
    while i < n
      invariant i <= n
      invariant rows == PrintInserted(b, identity, rowDof, solDof, nnzD, nnzO, i)
    {
      var irow := rowDof(i);
      var cols, vals := PrintRowLoop(b, identity, i, solDof);
      var stored := (nnzD(irow) + nnzO(irow) + 0.5).Floor;
      if |cols| == stored {
        rows := rows + [InsertedRow(irow, cols, vals)];
      }
      i := i + 1;
    }
  }
}
