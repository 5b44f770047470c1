/** 4x4 matrices over exact reals, laid out as glm lays them out: a matrix
    is four columns, and `m.At(c, r)` is the entry in column c, row r. */
module Matrix {

  datatype Vec4 = Vec4(x: real, y: real, z: real, w: real)
  {
    /** Component r, 0 to 3. */
    function At(r: int): real
      requires 0 <= r < 4
    {
      if r == 0 then x else if r == 1 then y else if r == 2 then z else w
    }

    /** This vector with component r replaced by v. */
    function With(r: int, v: real): (u: Vec4)
      requires 0 <= r < 4
      ensures forall r' :: 0 <= r' < 4 ==> u.At(r') == if r' == r then v else At(r')
    {
      if r == 0 then this.(x := v) else if r == 1 then this.(y := v)
      else if r == 2 then this.(z := v) else this.(w := v)
    }
  }

  datatype Mat4 = Mat4(c0: Vec4, c1: Vec4, c2: Vec4, c3: Vec4)
  {
    /** Column c, 0 to 3. */
    function Col(c: int): Vec4
      requires 0 <= c < 4
    {
      if c == 0 then c0 else if c == 1 then c1 else if c == 2 then c2 else c3
    }

    function At(c: int, r: int): real
      requires 0 <= c < 4 && 0 <= r < 4
    {
      Col(c).At(r)
    }

    /** This matrix with entry (c, r) replaced by v: glm's `m[c][r] = v`. */
    function Set(c: int, r: int, v: real): (n: Mat4)
      requires 0 <= c < 4 && 0 <= r < 4
      ensures forall c', r' :: 0 <= c' < 4 && 0 <= r' < 4 ==>
        n.At(c', r') == if c' == c && r' == r then v else At(c', r')
    {
      if c == 0 then this.(c0 := c0.With(r, v)) else if c == 1 then this.(c1 := c1.With(r, v))
      else if c == 2 then this.(c2 := c2.With(r, v)) else this.(c3 := c3.With(r, v))
    }
  }

  /** Two matrices with the same entries are the same matrix. */
  lemma Extensionality(a: Mat4, b: Mat4)
    requires forall c, r :: 0 <= c < 4 && 0 <= r < 4 ==> a.At(c, r) == b.At(c, r)
    ensures a == b
  {
    assert a.At(0, 0) == b.At(0, 0) && a.At(0, 1) == b.At(0, 1) && a.At(0, 2) == b.At(0, 2) && a.At(0, 3) == b.At(0, 3);
    assert a.At(1, 0) == b.At(1, 0) && a.At(1, 1) == b.At(1, 1) && a.At(1, 2) == b.At(1, 2) && a.At(1, 3) == b.At(1, 3);
    assert a.At(2, 0) == b.At(2, 0) && a.At(2, 1) == b.At(2, 1) && a.At(2, 2) == b.At(2, 2) && a.At(2, 3) == b.At(2, 3);
    assert a.At(3, 0) == b.At(3, 0) && a.At(3, 1) == b.At(3, 1) && a.At(3, 2) == b.At(3, 2) && a.At(3, 3) == b.At(3, 3);
  }

  /** glm::mat4(1.0f) */
  const Identity: Mat4 := Mat4(Vec4(1.0, 0.0, 0.0, 0.0), Vec4(0.0, 1.0, 0.0, 0.0),
                               Vec4(0.0, 0.0, 1.0, 0.0), Vec4(0.0, 0.0, 0.0, 1.0))

  /** Row r of `a` times the column vector `v`. */
  function RowTimes(a: Mat4, r: int, v: Vec4): real
    requires 0 <= r < 4
  {
    a.c0.At(r) * v.x + a.c1.At(r) * v.y + a.c2.At(r) * v.z + a.c3.At(r) * v.w
  }

  function Transform(a: Mat4, v: Vec4): Vec4 {
    Vec4(RowTimes(a, 0, v), RowTimes(a, 1, v), RowTimes(a, 2, v), RowTimes(a, 3, v))
  }

  /** The matrix product a × b: column c of the product is a applied to column c of b. */
  function Mul(a: Mat4, b: Mat4): Mat4 {
    Mat4(Transform(a, b.c0), Transform(a, b.c1), Transform(a, b.c2), Transform(a, b.c3))
  }

  /** glm::translate(glm::mat4(1.0f), (x, y, z)): identity with (x, y, z, 1) as last column. */
  function Translation(x: real, y: real, z: real): Mat4 {
    Mat4(Vec4(1.0, 0.0, 0.0, 0.0), Vec4(0.0, 1.0, 0.0, 0.0), Vec4(0.0, 0.0, 1.0, 0.0), Vec4(x, y, z, 1.0))
  }

  /** glm::scale(glm::mat4(1.0f), (x, y, z)): the diagonal matrix (x, y, z, 1). */
  function Scaling(x: real, y: real, z: real): Mat4 {
    Mat4(Vec4(x, 0.0, 0.0, 0.0), Vec4(0.0, y, 0.0, 0.0), Vec4(0.0, 0.0, z, 0.0), Vec4(0.0, 0.0, 0.0, 1.0))
  }

  /** A quaternion with real part w and imaginary part (x, y, z). */
  datatype Quat = Quat(w: real, x: real, y: real, z: real)

  const IdentityQuat: Quat := Quat(1.0, 0.0, 0.0, 0.0)

  /** glm::mat4_cast over exact reals: the rotation matrix of q (for a unit q). */
  function QuatToMat(q: Quat): Mat4 {
    Mat4(Vec4(1.0 - 2.0 * (q.y * q.y + q.z * q.z), 2.0 * (q.x * q.y + q.w * q.z), 2.0 * (q.x * q.z - q.w * q.y), 0.0),
         Vec4(2.0 * (q.x * q.y - q.w * q.z), 1.0 - 2.0 * (q.x * q.x + q.z * q.z), 2.0 * (q.y * q.z + q.w * q.x), 0.0),
         Vec4(2.0 * (q.x * q.z + q.w * q.y), 2.0 * (q.y * q.z - q.w * q.x), 1.0 - 2.0 * (q.x * q.x + q.y * q.y), 0.0),
         Vec4(0.0, 0.0, 0.0, 1.0))
  }

  lemma MulIdentityLeft(a: Mat4)
    ensures Mul(Identity, a) == a
  {
  }

  lemma MulIdentityRight(a: Mat4)
    ensures Mul(a, Identity) == a
  {
  }

  /** The identity quaternion is the identity rotation. */
  lemma IdentityQuatIsIdentity()
    ensures QuatToMat(IdentityQuat) == Identity
  {
  }

  /** Unit scale is the identity. */
  lemma UnitScalingIsIdentity()
    ensures Scaling(1.0, 1.0, 1.0) == Identity
  {
  }

  /** Translations compose by adding their offsets. */
  lemma TranslationsCompose(x1: real, y1: real, z1: real, x2: real, y2: real, z2: real)
    ensures Mul(Translation(x1, y1, z1), Translation(x2, y2, z2)) == Translation(x1 + x2, y1 + y2, z1 + z2)
  {
  }
}
