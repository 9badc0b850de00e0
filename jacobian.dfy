/**
 * The real-number algebra of the element Jacobian. For a reference map with
 * Jacobian J (row a = derivatives along reference axis a, column b = physical
 * coordinate b) the element types use the closed-form inverse JacI, the
 * physical gradient JacI * dref and the physical Hessian JacI * Href * JacI^T.
 * The lemmas show these are a change of variables: J undoes JacI on both sides,
 * J * grad == dref, and J * Hphys * J^T == Href.
 */
module Jacobian {

  // ---------------------------------------------------------------- 1 x 1

  /** In 1D JacI = 1 / Jac, the gradient is dxi * JacI and the Hessian dxi2 * JacI * JacI;
      multiplying back by the Jacobian restores the reference values. */
  lemma RoundTrip1(jac: real, jacI: real, dxi: real, dxi2: real)
    requires jac != 0.0 && jacI == 1.0 / jac
    ensures jac * (dxi * jacI) == dxi
    ensures jac * (dxi2 * jacI * jacI) * jac == dxi2
  {
    var one := jac * jacI;
    assert one == 1.0;
    assert one * one == 1.0;
    assert jac * (dxi2 * jacI * jacI) * jac == dxi2 * (one * one);
  }

  // ---------------------------------------------------------------- 2 x 2

  datatype Vec2 = Vec2(v0: real, v1: real)

  /** A 2x2 matrix by rows. */
  datatype Mat2 = Mat2(r0: Vec2, r1: Vec2)

  const Identity2: Mat2 := Mat2(Vec2(1.0, 0.0), Vec2(0.0, 1.0))

  function Dot2(a: Vec2, b: Vec2): real
  {
    a.v0 * b.v0 + a.v1 * b.v1
  }

  function Col0Of2(m: Mat2): Vec2 { Vec2(m.r0.v0, m.r1.v0) }
  function Col1Of2(m: Mat2): Vec2 { Vec2(m.r0.v1, m.r1.v1) }

  function Transpose2(m: Mat2): Mat2
  {
    Mat2(Col0Of2(m), Col1Of2(m))
  }

  function MulVec2(m: Mat2, v: Vec2): Vec2
  {
    Vec2(Dot2(m.r0, v), Dot2(m.r1, v))
  }

  /** Row vector times matrix. */
  function VecMul2(v: Vec2, m: Mat2): Vec2
  {
    Vec2(Dot2(v, Col0Of2(m)), Dot2(v, Col1Of2(m)))
  }

  function Mul2(a: Mat2, b: Mat2): Mat2
  {
    Mat2(VecMul2(a.r0, b), VecMul2(a.r1, b))
  }

  function Det2(m: Mat2): real
  {
    m.r0.v0 * m.r1.v1 - m.r0.v1 * m.r1.v0
  }

  /** The inverse as written in the 2D Jacobian: the adjugate divided by the determinant. */
  function Inverse2(m: Mat2): Mat2
    requires Det2(m) != 0.0
  {
    var det := Det2(m);
    Mat2(Vec2(m.r1.v1 / det, -m.r0.v1 / det), Vec2(-m.r1.v0 / det, m.r0.v0 / det))
  }

  /** A symmetric matrix from its entries (0,0), (1,1), (0,1): the storage order of
      the 2D `nablaphi`. */
  function Sym2(xx: real, yy: real, xy: real): Mat2
  {
    Mat2(Vec2(xx, xy), Vec2(xy, yy))
  }

  /** JacI * H * JacI^T. */
  function Congruence2(inv: Mat2, h: Mat2): Mat2
  {
    Mul2(Mul2(inv, h), Transpose2(inv))
  }

  lemma Dot2Assoc(x: Vec2, b: Mat2, y: Vec2)
    ensures Dot2(VecMul2(x, b), y) == Dot2(x, MulVec2(b, y))
  {
  }

  lemma Mul2Assoc(a: Mat2, b: Mat2, c: Mat2)
    ensures Mul2(Mul2(a, b), c) == Mul2(a, Mul2(b, c))
  {
    var bc := Mul2(b, c);
    var c0, c1 := Col0Of2(c), Col1Of2(c);
    assert Col0Of2(bc) == MulVec2(b, c0) && Col1Of2(bc) == MulVec2(b, c1);
    forall r | r in [a.r0, a.r1]
      ensures VecMul2(VecMul2(r, b), c) == VecMul2(r, bc)
    {
      Dot2Assoc(r, b, c0);
      Dot2Assoc(r, b, c1);
    }
  }

  lemma MulVec2Assoc(a: Mat2, b: Mat2, v: Vec2)
    ensures MulVec2(a, MulVec2(b, v)) == MulVec2(Mul2(a, b), v)
  {
    Dot2Assoc(a.r0, b, v);
    Dot2Assoc(a.r1, b, v);
  }

  lemma Transpose2Mul(a: Mat2, b: Mat2)
    ensures Transpose2(Mul2(a, b)) == Mul2(Transpose2(b), Transpose2(a))
  {
  }

  /** The closed-form inverse is a two-sided inverse whenever the determinant is non-zero. */
  lemma Inverse2IsInverse(m: Mat2)
    requires Det2(m) != 0.0
    ensures Mul2(m, Inverse2(m)) == Identity2
    ensures Mul2(Inverse2(m), m) == Identity2
  {
    var det := Det2(m);
    var a, b, c, d := m.r0.v0, m.r0.v1, m.r1.v0, m.r1.v1;
    assert a * (d / det) + b * (-c / det) == (a * d - b * c) / det == 1.0;
    assert a * (-b / det) + b * (a / det) == 0.0;
    assert c * (d / det) + d * (-c / det) == 0.0;
    assert c * (-b / det) + d * (a / det) == (a * d - b * c) / det == 1.0;
    assert (d / det) * a + (-b / det) * c == (a * d - b * c) / det == 1.0;
    assert (d / det) * b + (-b / det) * d == 0.0;
    assert (-c / det) * a + (a / det) * c == 0.0;
    assert (-c / det) * b + (a / det) * d == (a * d - b * c) / det == 1.0;
  }

  /** Chain rule: the physical gradient JacI * dref, mapped back by J, gives the reference derivatives. */
  lemma ChainRule2(j: Mat2, dref: Vec2)
    requires Det2(j) != 0.0
    ensures MulVec2(j, MulVec2(Inverse2(j), dref)) == dref
  {
    Inverse2IsInverse(j);
    MulVec2Assoc(j, Inverse2(j), dref);
  }

  /** The physical Hessian JacI * H * JacI^T, transformed back by J * . * J^T, is H. */
  lemma HessianRoundTrip2(j: Mat2, h: Mat2)
    requires Det2(j) != 0.0
    ensures Mul2(Mul2(j, Congruence2(Inverse2(j), h)), Transpose2(j)) == h
  {
    var inv := Inverse2(j);
    Inverse2IsInverse(j);
    calc {
      Mul2(Mul2(j, Mul2(Mul2(inv, h), Transpose2(inv))), Transpose2(j));
      { Mul2Assoc(j, Mul2(inv, h), Transpose2(inv)); Mul2Assoc(j, inv, h); }
      Mul2(Mul2(h, Transpose2(inv)), Transpose2(j));
      { Mul2Assoc(h, Transpose2(inv), Transpose2(j)); Transpose2Mul(j, inv); }
      Mul2(h, Transpose2(Identity2));
      h;
    }
  }

  /** A symmetric Hessian stays symmetric under the congruence, so its three stored
      entries determine it. */
  lemma Congruence2Symmetric(inv: Mat2, xx: real, yy: real, xy: real)
    ensures var c := Congruence2(inv, Sym2(xx, yy, xy)); c == Sym2(c.r0.v0, c.r1.v1, c.r0.v1)
  {
    var h := Sym2(xx, yy, xy);
    var ih := Mul2(inv, h);
    assert Dot2(ih.r0, inv.r1) == Dot2(ih.r1, inv.r0);
  }

  /** The physical gradient as the 2D Jacobian writes it: entry a is
      `dxi * JacI[a][0] + deta * JacI[a][1]`, that is, JacI applied to the reference gradient. */
  function SourceGradient2(ji: Mat2, d: Vec2): (g: Vec2)
    ensures g == MulVec2(ji, d)
  {
    Vec2(d.v0 * ji.r0.v0 + d.v1 * ji.r0.v1, d.v0 * ji.r1.v0 + d.v1 * ji.r1.v1)
  }

  /** The physical Hessian entries (0,0), (1,1), (0,1) as the 2D Jacobian writes them from the
      reference second derivatives xx, yy, xy: together they are JacI * H * JacI^T. */
  function SourceHessian2(ji: Mat2, xx: real, yy: real, xy: real): (h: Mat2)
    ensures h == Congruence2(ji, Sym2(xx, yy, xy))
  {
    Congruence2Symmetric(ji, xx, yy, xy);
    var j00, j01, j10, j11 := ji.r0.v0, ji.r0.v1, ji.r1.v0, ji.r1.v1;
    Sym2((xx * j00 + xy * j01) * j00 + (xy * j00 + yy * j01) * j01,
         (xx * j10 + xy * j11) * j10 + (xy * j10 + yy * j11) * j11,
         (xx * j00 + xy * j01) * j10 + (xy * j00 + yy * j01) * j11)
  }

  // ---------------------------------------------------------------- 3 x 3

  datatype Vec3 = Vec3(v0: real, v1: real, v2: real)

  /** A 3x3 matrix by rows. */
  datatype Mat3 = Mat3(r0: Vec3, r1: Vec3, r2: Vec3)

  const Identity3: Mat3 := Mat3(Vec3(1.0, 0.0, 0.0), Vec3(0.0, 1.0, 0.0), Vec3(0.0, 0.0, 1.0))

  function Dot3(a: Vec3, b: Vec3): real
  {
    a.v0 * b.v0 + a.v1 * b.v1 + a.v2 * b.v2
  }

  function Col0(m: Mat3): Vec3 { Vec3(m.r0.v0, m.r1.v0, m.r2.v0) }
  function Col1(m: Mat3): Vec3 { Vec3(m.r0.v1, m.r1.v1, m.r2.v1) }
  function Col2(m: Mat3): Vec3 { Vec3(m.r0.v2, m.r1.v2, m.r2.v2) }

  function Transpose3(m: Mat3): Mat3
  {
    Mat3(Col0(m), Col1(m), Col2(m))
  }

  function MulVec3(m: Mat3, v: Vec3): Vec3
  {
    Vec3(Dot3(m.r0, v), Dot3(m.r1, v), Dot3(m.r2, v))
  }

  /** Row vector times matrix. */
  function VecMul3(v: Vec3, m: Mat3): Vec3
  {
    Vec3(Dot3(v, Col0(m)), Dot3(v, Col1(m)), Dot3(v, Col2(m)))
  }

  function Mul3(a: Mat3, b: Mat3): Mat3
  {
    Mat3(VecMul3(a.r0, b), VecMul3(a.r1, b), VecMul3(a.r2, b))
  }

  function DivVec3(v: Vec3, d: real): Vec3
    requires d != 0.0
  {
    Vec3(v.v0 / d, v.v1 / d, v.v2 / d)
  }

  /** The determinant as expanded in the 3D Jacobian (cofactors along row 0). */
  function Det3(m: Mat3): real
  {
    m.r0.v0 * (m.r1.v1 * m.r2.v2 - m.r1.v2 * m.r2.v1)
    + m.r0.v1 * (m.r1.v2 * m.r2.v0 - m.r1.v0 * m.r2.v2)
    + m.r0.v2 * (m.r1.v0 * m.r2.v1 - m.r1.v1 * m.r2.v0)
  }

  /** The adjugate of the 3D Jacobian, entry by entry as written there. */
  function Adjugate3(m: Mat3): Mat3
  {
    var j00, j01, j02 := m.r0.v0, m.r0.v1, m.r0.v2;
    var j10, j11, j12 := m.r1.v0, m.r1.v1, m.r1.v2;
    var j20, j21, j22 := m.r2.v0, m.r2.v1, m.r2.v2;
    Mat3(Vec3(-j12 * j21 + j11 * j22, j02 * j21 - j01 * j22, -j02 * j11 + j01 * j12),
         Vec3(j12 * j20 - j10 * j22, -j02 * j20 + j00 * j22, j02 * j10 - j00 * j12),
         Vec3(-j11 * j20 + j10 * j21, j01 * j20 - j00 * j21, -j01 * j10 + j00 * j11))
  }

  /** The inverse of the 3D Jacobian: every adjugate entry divided by the determinant. */
  function Inverse3(m: Mat3): Mat3
    requires Det3(m) != 0.0
  {
    var a := Adjugate3(m);
    var det := Det3(m);
    Mat3(DivVec3(a.r0, det), DivVec3(a.r1, det), DivVec3(a.r2, det))
  }

  /** A symmetric matrix from the storage order of the 3D `nablaphi`: xx, yy, zz, xy, yz, zx. */
  function Sym3(xx: real, yy: real, zz: real, xy: real, yz: real, zx: real): Mat3
  {
    Mat3(Vec3(xx, xy, zx), Vec3(xy, yy, yz), Vec3(zx, yz, zz))
  }

  function Congruence3(inv: Mat3, h: Mat3): Mat3
  {
    Mul3(Mul3(inv, h), Transpose3(inv))
  }

  lemma Dot3Assoc(x: Vec3, b: Mat3, y: Vec3)
    ensures Dot3(VecMul3(x, b), y) == Dot3(x, MulVec3(b, y))
  {
  }

  lemma Dot3Div(x: Vec3, y: Vec3, d: real)
    requires d != 0.0
    ensures Dot3(x, DivVec3(y, d)) == Dot3(x, y) / d
    ensures Dot3(DivVec3(x, d), y) == Dot3(x, y) / d
  {
  }

  lemma Dot3Comm(x: Vec3, y: Vec3)
    ensures Dot3(x, y) == Dot3(y, x)
  {
  }

  lemma Mul3Assoc(a: Mat3, b: Mat3, c: Mat3)
    ensures Mul3(Mul3(a, b), c) == Mul3(a, Mul3(b, c))
  {
    var bc := Mul3(b, c);
    assert Col0(bc) == MulVec3(b, Col0(c)) && Col1(bc) == MulVec3(b, Col1(c)) && Col2(bc) == MulVec3(b, Col2(c));
    forall r | r in [a.r0, a.r1, a.r2]
      ensures VecMul3(VecMul3(r, b), c) == VecMul3(r, bc)
    {
      Dot3Assoc(r, b, Col0(c));
      Dot3Assoc(r, b, Col1(c));
      Dot3Assoc(r, b, Col2(c));
    }
  }

  lemma MulVec3Assoc(a: Mat3, b: Mat3, v: Vec3)
    ensures MulVec3(a, MulVec3(b, v)) == MulVec3(Mul3(a, b), v)
  {
    Dot3Assoc(a.r0, b, v);
    Dot3Assoc(a.r1, b, v);
    Dot3Assoc(a.r2, b, v);
  }

  lemma Transpose3Mul(a: Mat3, b: Mat3)
    ensures Transpose3(Mul3(a, b)) == Mul3(Transpose3(b), Transpose3(a))
  {
    forall x | x in [a.r0, a.r1, a.r2], y | y in [Col0(b), Col1(b), Col2(b)]
      ensures Dot3(x, y) == Dot3(y, x)
    {
      Dot3Comm(x, y);
    }
  }

  function Cross(a: Vec3, b: Vec3): Vec3
  {
    Vec3(a.v1 * b.v2 - a.v2 * b.v1, a.v2 * b.v0 - a.v0 * b.v2, a.v0 * b.v1 - a.v1 * b.v0)
  }

  /** A vector is orthogonal to its cross product with any other. */
  lemma CrossOrthogonal(a: Vec3, b: Vec3)
    ensures Dot3(a, Cross(a, b)) == 0.0 && Dot3(b, Cross(a, b)) == 0.0
  {
  }

  /** The scalar triple product is invariant under cyclic shifts. */
  lemma TripleCyclic(a: Vec3, b: Vec3, c: Vec3)
    ensures Dot3(a, Cross(b, c)) == Dot3(b, Cross(c, a))
  {
  }

  /** The triple product of the rows, in any cyclic order, is the determinant. */
  lemma TripleProduct(m: Mat3)
    ensures Dot3(m.r0, Cross(m.r1, m.r2)) == Det3(m)
    ensures Dot3(m.r1, Cross(m.r2, m.r0)) == Det3(m)
    ensures Dot3(m.r2, Cross(m.r0, m.r1)) == Det3(m)
  {
    TripleCyclic(m.r0, m.r1, m.r2);
    TripleCyclic(m.r1, m.r2, m.r0);
  }

  /** The columns of the adjugate are the cross products of pairs of rows. */
  lemma AdjugateColumns(m: Mat3)
    ensures Col0(Adjugate3(m)) == Cross(m.r1, m.r2)
    ensures Col1(Adjugate3(m)) == Cross(m.r2, m.r0)
    ensures Col2(Adjugate3(m)) == Cross(m.r0, m.r1)
  {
    AdjugateColumn0(m);
    AdjugateColumn1(m);
    AdjugateColumn2(m);
  }

  lemma AdjugateColumn0(m: Mat3)
    ensures Col0(Adjugate3(m)) == Cross(m.r1, m.r2)
  {
    assert m.r1.v2 * m.r2.v1 == m.r2.v1 * m.r1.v2;
    assert m.r1.v0 * m.r2.v2 == m.r2.v2 * m.r1.v0;
    assert m.r1.v1 * m.r2.v0 == m.r2.v0 * m.r1.v1;
  }

  lemma AdjugateColumn1(m: Mat3)
    ensures Col1(Adjugate3(m)) == Cross(m.r2, m.r0)
  {
    assert m.r0.v2 * m.r2.v1 == m.r2.v1 * m.r0.v2;
    assert m.r0.v0 * m.r2.v2 == m.r2.v2 * m.r0.v0;
    assert m.r0.v1 * m.r2.v0 == m.r2.v0 * m.r0.v1;
  }

  lemma AdjugateColumn2(m: Mat3)
    ensures Col2(Adjugate3(m)) == Cross(m.r0, m.r1)
  {
    assert m.r0.v2 * m.r1.v1 == m.r1.v1 * m.r0.v2;
    assert m.r0.v0 * m.r1.v2 == m.r1.v2 * m.r0.v0;
    assert m.r0.v1 * m.r1.v0 == m.r1.v0 * m.r0.v1;
  }

  /** The rows of the adjugate are the cross products of pairs of columns. */
  lemma AdjugateRows(m: Mat3)
    ensures Adjugate3(m).r0 == Cross(Col1(m), Col2(m))
    ensures Adjugate3(m).r1 == Cross(Col2(m), Col0(m))
    ensures Adjugate3(m).r2 == Cross(Col0(m), Col1(m))
  {
    AdjugateRow0(m);
    AdjugateRow1(m);
    AdjugateRow2(m);
  }

  lemma AdjugateRow0(m: Mat3)
    ensures Adjugate3(m).r0 == Cross(Col1(m), Col2(m))
  {
    assert m.r1.v2 * m.r2.v1 == m.r2.v1 * m.r1.v2;
    assert m.r0.v2 * m.r2.v1 == m.r2.v1 * m.r0.v2;
    assert m.r0.v2 * m.r1.v1 == m.r1.v1 * m.r0.v2;
  }

  lemma AdjugateRow1(m: Mat3)
    ensures Adjugate3(m).r1 == Cross(Col2(m), Col0(m))
  {
    assert m.r1.v2 * m.r2.v0 == m.r2.v0 * m.r1.v2;
    assert m.r0.v2 * m.r2.v0 == m.r2.v0 * m.r0.v2;
    assert m.r0.v2 * m.r1.v0 == m.r1.v0 * m.r0.v2;
  }

  lemma AdjugateRow2(m: Mat3)
    ensures Adjugate3(m).r2 == Cross(Col0(m), Col1(m))
  {
    assert m.r1.v1 * m.r2.v0 == m.r2.v0 * m.r1.v1;
    assert m.r0.v1 * m.r2.v0 == m.r2.v0 * m.r0.v1;
    assert m.r0.v1 * m.r1.v0 == m.r1.v0 * m.r0.v1;
  }

  function DivMat3(m: Mat3, d: real): Mat3
    requires d != 0.0
  {
    Mat3(DivVec3(m.r0, d), DivVec3(m.r1, d), DivVec3(m.r2, d))
  }

  function Diagonal3(d: real): Mat3
  {
    Mat3(Vec3(d, 0.0, 0.0), Vec3(0.0, d, 0.0), Vec3(0.0, 0.0, d))
  }

  /** J * adj(J) == det(J) * I. */
  lemma AdjugateRight3(m: Mat3)
    ensures Mul3(m, Adjugate3(m)) == Diagonal3(Det3(m))
  {
    AdjugateColumns(m);
    TripleProduct(m);
    CrossOrthogonal(m.r1, m.r2);
    CrossOrthogonal(m.r2, m.r0);
    CrossOrthogonal(m.r0, m.r1);
  }

  /** adj(J) * J == det(J) * I. */
  lemma AdjugateLeft3(m: Mat3)
    ensures Mul3(Adjugate3(m), m) == Diagonal3(Det3(m))
  {
    var a := Adjugate3(m);
    AdjugateRows(m);
    ColumnTriples(m);
    CrossOrthogonalLeft(Col1(m), Col2(m));
    CrossOrthogonalLeft(Col2(m), Col0(m));
    CrossOrthogonalLeft(Col0(m), Col1(m));
    assert VecMul3(a.r0, m) == Diagonal3(Det3(m)).r0;
    assert VecMul3(a.r1, m) == Diagonal3(Det3(m)).r1;
    assert VecMul3(a.r2, m) == Diagonal3(Det3(m)).r2;
  }

  /** A cross product is orthogonal to both its factors, with the product on the left. */
  lemma CrossOrthogonalLeft(a: Vec3, b: Vec3)
    ensures Dot3(Cross(a, b), a) == 0.0 && Dot3(Cross(a, b), b) == 0.0
  {
    CrossOrthogonal(a, b);
    Dot3Comm(a, Cross(a, b));
    Dot3Comm(b, Cross(a, b));
  }

  /** The triple product of the columns, in any cyclic order, is the determinant. */
  lemma ColumnTriples(m: Mat3)
    ensures Dot3(Cross(Col1(m), Col2(m)), Col0(m)) == Det3(m)
    ensures Dot3(Cross(Col2(m), Col0(m)), Col1(m)) == Det3(m)
    ensures Dot3(Cross(Col0(m), Col1(m)), Col2(m)) == Det3(m)
  {
    var t := Transpose3(m);
    TripleProduct(t);
    assert Det3(t) == Det3(m);
    Dot3Comm(Col0(m), Cross(Col1(m), Col2(m)));
    Dot3Comm(Col1(m), Cross(Col2(m), Col0(m)));
    Dot3Comm(Col2(m), Cross(Col0(m), Col1(m)));
  }

  lemma Mul3DivRight(a: Mat3, b: Mat3, d: real)
    requires d != 0.0
    ensures Mul3(a, DivMat3(b, d)) == DivMat3(Mul3(a, b), d)
  {
    var bd := DivMat3(b, d);
    assert Col0(bd) == DivVec3(Col0(b), d) && Col1(bd) == DivVec3(Col1(b), d) && Col2(bd) == DivVec3(Col2(b), d);
    Dot3Div(a.r0, Col0(b), d); Dot3Div(a.r0, Col1(b), d); Dot3Div(a.r0, Col2(b), d);
    Dot3Div(a.r1, Col0(b), d); Dot3Div(a.r1, Col1(b), d); Dot3Div(a.r1, Col2(b), d);
    Dot3Div(a.r2, Col0(b), d); Dot3Div(a.r2, Col1(b), d); Dot3Div(a.r2, Col2(b), d);
  }

  lemma Mul3DivLeft(a: Mat3, b: Mat3, d: real)
    requires d != 0.0
    ensures Mul3(DivMat3(a, d), b) == DivMat3(Mul3(a, b), d)
  {
    Dot3Div(a.r0, Col0(b), d); Dot3Div(a.r0, Col1(b), d); Dot3Div(a.r0, Col2(b), d);
    Dot3Div(a.r1, Col0(b), d); Dot3Div(a.r1, Col1(b), d); Dot3Div(a.r1, Col2(b), d);
    Dot3Div(a.r2, Col0(b), d); Dot3Div(a.r2, Col1(b), d); Dot3Div(a.r2, Col2(b), d);
  }

  /** The adjugate formula divided by the determinant is a two-sided inverse. */
  lemma Inverse3IsInverse(m: Mat3)
    requires Det3(m) != 0.0
    ensures Mul3(m, Inverse3(m)) == Identity3
    ensures Mul3(Inverse3(m), m) == Identity3
  {
    var det := Det3(m);
    var adj := Adjugate3(m);
    assert Inverse3(m) == DivMat3(adj, det);
    AdjugateRight3(m);
    AdjugateLeft3(m);
    Mul3DivRight(m, adj, det);
    Mul3DivLeft(adj, m, det);
    assert det / det == 1.0 && 0.0 / det == 0.0;
    assert DivMat3(Diagonal3(det), det) == Identity3;
  }

  lemma ChainRule3(j: Mat3, dref: Vec3)
    requires Det3(j) != 0.0
    ensures MulVec3(j, MulVec3(Inverse3(j), dref)) == dref
  {
    Inverse3IsInverse(j);
    MulVec3Assoc(j, Inverse3(j), dref);
  }

  lemma HessianRoundTrip3(j: Mat3, h: Mat3)
    requires Det3(j) != 0.0
    ensures Mul3(Mul3(j, Congruence3(Inverse3(j), h)), Transpose3(j)) == h
  {
    var inv := Inverse3(j);
    Inverse3IsInverse(j);
    calc {
      Mul3(Mul3(j, Mul3(Mul3(inv, h), Transpose3(inv))), Transpose3(j));
      { Mul3Assoc(j, Mul3(inv, h), Transpose3(inv)); Mul3Assoc(j, inv, h); }
      Mul3(Mul3(h, Transpose3(inv)), Transpose3(j));
      { Mul3Assoc(h, Transpose3(inv), Transpose3(j)); Transpose3Mul(j, inv); }
      Mul3(h, Transpose3(Identity3));
      h;
    }
  }

  lemma Congruence3Symmetric(inv: Mat3, xx: real, yy: real, zz: real, xy: real, yz: real, zx: real)
    ensures var c := Congruence3(inv, Sym3(xx, yy, zz, xy, yz, zx));
            c == Sym3(c.r0.v0, c.r1.v1, c.r2.v2, c.r0.v1, c.r1.v2, c.r2.v0)
  {
    var h := Sym3(xx, yy, zz, xy, yz, zx);
    assert Transpose3(h) == h;
    Transpose3Mul(Mul3(inv, h), Transpose3(inv));
    Mul3Assoc(inv, h, Transpose3(inv));
    Transpose3Mul(inv, Mul3(h, Transpose3(inv)));
    Transpose3Mul(h, Transpose3(inv));
    assert Transpose3(Transpose3(inv)) == inv;
  }

  /** The physical gradient as the 3D Jacobian writes it: JacI applied to the reference gradient. */
  function SourceGradient3(ji: Mat3, d: Vec3): (g: Vec3)
    ensures g == MulVec3(ji, d)
  {
    Vec3(d.v0 * ji.r0.v0 + d.v1 * ji.r0.v1 + d.v2 * ji.r0.v2,
         d.v0 * ji.r1.v0 + d.v1 * ji.r1.v1 + d.v2 * ji.r1.v2,
         d.v0 * ji.r2.v0 + d.v1 * ji.r2.v1 + d.v2 * ji.r2.v2)
  }

  /** One stored entry of the 3D physical Hessian: row ra of JacI * H dotted with row rb of JacI,
      with H given by its six reference second derivatives. */
  function SourceHessianEntry3(ra: Vec3, rb: Vec3, xx: real, yy: real, zz: real, xy: real, yz: real, zx: real): real
  {
    (xx * ra.v0 + xy * ra.v1 + zx * ra.v2) * rb.v0
    + (xy * ra.v0 + yy * ra.v1 + yz * ra.v2) * rb.v1
    + (zx * ra.v0 + yz * ra.v1 + zz * ra.v2) * rb.v2
  }

  lemma SourceHessianEntry3Matches(inv: Mat3, ra: Vec3, rb: Vec3, xx: real, yy: real, zz: real, xy: real, yz: real, zx: real)
    ensures SourceHessianEntry3(ra, rb, xx, yy, zz, xy, yz, zx)
         == Dot3(VecMul3(ra, Sym3(xx, yy, zz, xy, yz, zx)), rb)
  {
  }

  /** The physical Hessian entries 00, 11, 22, 01, 12, 20 as the 3D Jacobian writes them:
      together they are JacI * H * JacI^T. */
  function SourceHessian3(ji: Mat3, xx: real, yy: real, zz: real, xy: real, yz: real, zx: real): (h: Mat3)
    ensures h == Congruence3(ji, Sym3(xx, yy, zz, xy, yz, zx))
  {
    Congruence3Symmetric(ji, xx, yy, zz, xy, yz, zx);
    SourceHessianEntry3Matches(ji, ji.r0, ji.r0, xx, yy, zz, xy, yz, zx);
    SourceHessianEntry3Matches(ji, ji.r1, ji.r1, xx, yy, zz, xy, yz, zx);
    SourceHessianEntry3Matches(ji, ji.r2, ji.r2, xx, yy, zz, xy, yz, zx);
    SourceHessianEntry3Matches(ji, ji.r0, ji.r1, xx, yy, zz, xy, yz, zx);
    SourceHessianEntry3Matches(ji, ji.r1, ji.r2, xx, yy, zz, xy, yz, zx);
    SourceHessianEntry3Matches(ji, ji.r2, ji.r0, xx, yy, zz, xy, yz, zx);
    Sym3(SourceHessianEntry3(ji.r0, ji.r0, xx, yy, zz, xy, yz, zx),
         SourceHessianEntry3(ji.r1, ji.r1, xx, yy, zz, xy, yz, zx),
         SourceHessianEntry3(ji.r2, ji.r2, xx, yy, zz, xy, yz, zx),
         SourceHessianEntry3(ji.r0, ji.r1, xx, yy, zz, xy, yz, zx),
         SourceHessianEntry3(ji.r1, ji.r2, xx, yy, zz, xy, yz, zx),
         SourceHessianEntry3(ji.r2, ji.r0, xx, yy, zz, xy, yz, zx))
  }
}
