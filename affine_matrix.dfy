/**
 * The framework's 2D transformation matrix value (TMat). Its own source file is
 * not part of this model; it is taken to be the standard affine matrix
 *
 *   | a  c  tx |
 *   | b  d  ty |
 *   | 0  0  1  |
 *
 * with `Prod` the matrix product, so that `A.prod(B)` applies B first and A after.
 */
module AffineMatrix {

  datatype Mat = Mat(a: real, b: real, c: real, d: real, tx: real, ty: real)

  datatype Point = Point(x: real, y: real)

  const Identity: Mat := Mat(1.0, 0.0, 0.0, 1.0, 0.0, 0.0)

  /** Where the map sends a point. */
  function Apply(m: Mat, p: Point): Point
  {
    Point(m.a * p.x + m.c * p.y + m.tx, m.b * p.x + m.d * p.y + m.ty)
  }

  /** `new TMat([a, b, c, d, tx, ty])`. */
  function FromArray(s: seq<real>): (m: Mat)
    requires |s| == 6
    ensures [m.a, m.b, m.c, m.d, m.tx, m.ty] == s
  {
    Mat(s[0], s[1], s[2], s[3], s[4], s[5])
  }

  /** `TMat.Ttrans(x, y)`: the pure translation by (x, y). */
  function Ttrans(x: real, y: real): (m: Mat)
    ensures forall p :: Apply(m, p) == Point(p.x + x, p.y + y)
  {
    Mat(1.0, 0.0, 0.0, 1.0, x, y)
  }

  /** `A.prod(B)`: the map that applies `B` and then `A`. */
  function Prod(A: Mat, B: Mat): (r: Mat)
    ensures forall p :: Apply(r, p) == Apply(A, Apply(B, p))
  {
    Mat(A.a * B.a + A.c * B.b,
        A.b * B.a + A.d * B.b,
        A.a * B.c + A.c * B.d,
        A.b * B.c + A.d * B.d,
        A.a * B.tx + A.c * B.ty + A.tx,
        A.b * B.tx + A.d * B.ty + A.ty)
  }

  /** The identity is neutral on either side of the product. */
  lemma ProdIdentity(m: Mat)
    ensures Prod(Identity, m) == m && Prod(m, Identity) == m
  {
  }

  /** Two maps that agree on the origin and the two unit points are the same matrix. */
  lemma SameMapSameMatrix(m: Mat, n: Mat)
    requires Apply(m, Point(0.0, 0.0)) == Apply(n, Point(0.0, 0.0))
    requires Apply(m, Point(1.0, 0.0)) == Apply(n, Point(1.0, 0.0))
    requires Apply(m, Point(0.0, 1.0)) == Apply(n, Point(0.0, 1.0))
    ensures m == n
  {
  }

  /** The product is associative. */
  lemma ProdAssociative(A: Mat, B: Mat, C: Mat)
    ensures Prod(Prod(A, B), C) == Prod(A, Prod(B, C))
  {
    var l, r := Prod(Prod(A, B), C), Prod(A, Prod(B, C));
    forall p | p in {Point(0.0, 0.0), Point(1.0, 0.0), Point(0.0, 1.0)}
      ensures Apply(l, p) == Apply(r, p)
    {
      assert Apply(l, p) == Apply(A, Apply(B, Apply(C, p)));
    }
    SameMapSameMatrix(l, r);
  }
}
