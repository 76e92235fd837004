/** Four by four matrices over exact real numbers: products, determinants, and the inverse by cofactors. */
module MatrixAlgebra {

  // ---- vectors and rows ----

  datatype V4 = V4(x: real, y: real, z: real, w: real) {
    function At(i: nat): real
      requires i < 4
    {
      if i == 0 then x else if i == 1 then y else if i == 2 then z else w
    }

    function With(i: nat, value: real): V4
      requires i < 4
    {
      if i == 0 then this.(x := value) else if i == 1 then this.(y := value)
      else if i == 2 then this.(z := value) else this.(w := value)
    }
  }

  const ZERO := V4(0.0, 0.0, 0.0, 0.0)

  function Unit(i: nat): V4
    requires i < 4
  {
    ZERO.With(i, 1.0)
  }

  function Dot(a: V4, b: V4): real {
    a.x * b.x + a.y * b.y + a.z * b.z + a.w * b.w
  }

  function Scale(w: real, a: V4): V4 {
    V4(w * a.x, w * a.y, w * a.z, w * a.w)
  }

  function Plus(a: V4, b: V4): V4 {
    V4(a.x + b.x, a.y + b.y, a.z + b.z, a.w + b.w)
  }

  /** The row `a` less `w` times the row `b`. */
  function Less(a: V4, w: real, b: V4): V4 {
    Plus(a, Scale(-w, b))
  }

  type Mat = m: seq<V4> | |m| == 4 witness [ZERO, ZERO, ZERO, ZERO]

  const IDENTITY: Mat := [Unit(0), Unit(1), Unit(2), Unit(3)]

  /** The product of a row and a matrix: the rows of the matrix, added up in these amounts. */
  function Combine(v: V4, m: Mat): V4 {
    Plus(Plus(Scale(v.x, m[0]), Scale(v.y, m[1])), Plus(Scale(v.z, m[2]), Scale(v.w, m[3])))
  }

  function Product(a: Mat, b: Mat): Mat {
    [Combine(a[0], b), Combine(a[1], b), Combine(a[2], b), Combine(a[3], b)]
  }

  /** The product of a matrix and a column. */
  function Apply(m: Mat, v: V4): V4 {
    V4(Dot(m[0], v), Dot(m[1], v), Dot(m[2], v), Dot(m[3], v))
  }

  ghost predicate Singular(m: Mat) {
    exists v :: v != ZERO && Apply(m, v) == ZERO
  }

  ghost predicate Inverses(a: Mat, b: Mat) {
    Product(a, b) == IDENTITY && Product(b, a) == IDENTITY
  }

  lemma CombineDot(u: V4, m: Mat, v: V4)
    ensures Dot(Combine(u, m), v) == Dot(u, Apply(m, v))
  {
  }

  function Column(m: Mat, j: nat): V4
    requires j < 4
  {
    V4(m[0].At(j), m[1].At(j), m[2].At(j), m[3].At(j))
  }

  lemma CombineByColumns(u: V4, m: Mat)
    ensures Combine(u, m) == V4(Dot(u, Column(m, 0)), Dot(u, Column(m, 1)), Dot(u, Column(m, 2)), Dot(u, Column(m, 3)))
  {
  }

  lemma ColumnOfProduct(a: Mat, b: Mat, j: nat)
    requires j < 4
    ensures Column(Product(a, b), j) == Apply(a, Column(b, j))
  {
    hide Combine, Dot;
    CombineByColumns(a[0], b);
    CombineByColumns(a[1], b);
    CombineByColumns(a[2], b);
    CombineByColumns(a[3], b);
  }

  lemma CombineProduct(u: V4, a: Mat, b: Mat)
    ensures Combine(u, Product(a, b)) == Combine(Combine(u, a), b)
  {
    hide Combine, Dot, Column, Apply, Product;
    CombineByColumns(u, Product(a, b));
    CombineByColumns(Combine(u, a), b);
    forall j | 0 <= j < 4
      ensures Dot(u, Column(Product(a, b), j)) == Dot(Combine(u, a), Column(b, j))
    {
      ColumnOfProduct(a, b, j);
      CombineDot(u, a, Column(b, j));
    }
  }

  lemma ApplyProduct(a: Mat, b: Mat, v: V4)
    ensures Apply(Product(a, b), v) == Apply(a, Apply(b, v))
  {
    CombineDot(a[0], b, v);
    CombineDot(a[1], b, v);
    CombineDot(a[2], b, v);
    CombineDot(a[3], b, v);
  }

  lemma UnitsAreNeutral(v: V4, m: Mat)
    ensures Combine(v, IDENTITY) == v
    ensures Combine(Unit(0), m) == m[0] && Combine(Unit(1), m) == m[1]
    ensures Combine(Unit(2), m) == m[2] && Combine(Unit(3), m) == m[3]
  {
  }

  lemma IdentityIsNeutral(m: Mat, v: V4)
    ensures Product(m, IDENTITY) == m && Product(IDENTITY, m) == m && Apply(IDENTITY, v) == v
  {
    UnitsAreNeutral(m[0], m);
    UnitsAreNeutral(m[1], m);
    UnitsAreNeutral(m[2], m);
    UnitsAreNeutral(m[3], m);
    hide Combine;
  }

  lemma ProductsAssociate(a: Mat, b: Mat, c: Mat)
    ensures Product(a, Product(b, c)) == Product(Product(a, b), c)
  {
    CombineProduct(a[0], b, c);
    CombineProduct(a[1], b, c);
    CombineProduct(a[2], b, c);
    CombineProduct(a[3], b, c);
  }

  lemma InverseIsUnique(a: Mat, b: Mat, c: Mat)
    requires Inverses(a, b) && Inverses(a, c)
    ensures b == c
  {
    ProductsAssociate(b, a, c);
    IdentityIsNeutral(b, ZERO);
    IdentityIsNeutral(c, ZERO);
  }

  lemma InvertibleIsNotSingular(a: Mat, b: Mat)
    requires Product(b, a) == IDENTITY
    ensures !Singular(a)
  {
    forall v | Apply(a, v) == ZERO
      ensures v == ZERO
    {
      ApplyProduct(b, a, v);
      IdentityIsNeutral(a, v);
    }
  }

  // ---- determinants ----

  function Det3(a1: real, a2: real, a3: real, b1: real, b2: real, b3: real, c1: real, c2: real, c3: real): real {
    a1 * (b2 * c3 - b3 * c2) - a2 * (b1 * c3 - b3 * c1) + a3 * (b1 * c2 - b2 * c1)
  }

  /** What a first row is multiplied with to get the determinant. */
  function Cross(a: V4, b: V4, c: V4): V4 {
    V4(Det3(a.y, a.z, a.w, b.y, b.z, b.w, c.y, c.z, c.w),
       -Det3(a.x, a.z, a.w, b.x, b.z, b.w, c.x, c.z, c.w),
       Det3(a.x, a.y, a.w, b.x, b.y, b.w, c.x, c.y, c.w),
       -Det3(a.x, a.y, a.z, b.x, b.y, b.z, c.x, c.y, c.z))
  }

  function DetOfRows(a: V4, b: V4, c: V4, d: V4): real {
    Dot(a, Cross(b, c, d))
  }

  function Det(m: Mat): real {
    DetOfRows(m[0], m[1], m[2], m[3])
  }

  lemma DetOfIdentity()
    ensures Det(IDENTITY) == 1.0
  {
  }

  /** The minors of two rows, by the columns they are taken from. */
  datatype Minors = Minors(xy: real, xz: real, xw: real, yz: real, yw: real, zw: real)

  function MinorsOf(c: V4, d: V4): Minors {
    Minors(c.x * d.y - c.y * d.x, c.x * d.z - c.z * d.x, c.x * d.w - c.w * d.x,
           c.y * d.z - c.z * d.y, c.y * d.w - c.w * d.y, c.z * d.w - c.w * d.z)
  }

  /** The cross product by the minors of its last two rows. */
  function Wedge(b: V4, m: Minors): V4 {
    V4(b.y * m.zw - b.z * m.yw + b.w * m.yz, -(b.x * m.zw - b.z * m.xw + b.w * m.xz),
       b.x * m.yw - b.y * m.xw + b.w * m.xy, -(b.x * m.yz - b.y * m.xz + b.z * m.xy))
  }

  lemma WedgeSwapped(a: V4, b: V4, m: Minors)
    ensures Dot(b, Wedge(a, m)) == -Dot(a, Wedge(b, m))
  {
  }

  lemma CrossIsWedge(a: V4, c: V4, d: V4)
    ensures Cross(a, c, d) == Wedge(a, MinorsOf(c, d))
  {
  }

  lemma FirstSwapped(a: V4, b: V4, c: V4, d: V4)
    ensures DetOfRows(b, a, c, d) == -DetOfRows(a, b, c, d)
  {
    hide Cross, Wedge, MinorsOf, Dot;
    CrossIsWedge(a, c, d);
    CrossIsWedge(b, c, d);
    WedgeSwapped(a, b, MinorsOf(c, d));
  }

  lemma NeighboursSwapped(a: V4, b: V4, c: V4, d: V4)
    ensures DetOfRows(b, a, c, d) == -DetOfRows(a, b, c, d)
    ensures DetOfRows(a, c, b, d) == -DetOfRows(a, b, c, d)
    ensures DetOfRows(a, b, d, c) == -DetOfRows(a, b, c, d)
  {
    FirstSwapped(a, b, c, d);
    CrossSwapped(b, c, d);
    hide Cross;
  }

  lemma CrossSwapped(a: V4, b: V4, c: V4)
    ensures Cross(b, a, c) == Scale(-1.0, Cross(a, b, c)) && Cross(a, c, b) == Scale(-1.0, Cross(a, b, c))
  {
  }

  lemma RowsSwapped(a: V4, b: V4, c: V4, d: V4)
    ensures DetOfRows(b, a, c, d) == -DetOfRows(a, b, c, d)
    ensures DetOfRows(c, b, a, d) == -DetOfRows(a, b, c, d)
    ensures DetOfRows(d, b, c, a) == -DetOfRows(a, b, c, d)
    ensures DetOfRows(a, c, b, d) == -DetOfRows(a, b, c, d)
    ensures DetOfRows(a, d, c, b) == -DetOfRows(a, b, c, d)
    ensures DetOfRows(a, b, d, c) == -DetOfRows(a, b, c, d)
  {
    hide DetOfRows;
    NeighboursSwapped(a, b, c, d);
    NeighboursSwapped(b, a, c, d);
    NeighboursSwapped(b, c, a, d);
    NeighboursSwapped(a, c, b, d);
    NeighboursSwapped(a, c, d, b);
    NeighboursSwapped(b, c, d, a);
    NeighboursSwapped(b, d, c, a);
    NeighboursSwapped(d, b, c, a);
  }

  lemma DetSwap(m: Mat, i: nat, s: nat)
    requires i < s < 4
    ensures Det(m[i := m[s]][s := m[i]]) == -Det(m)
  {
    hide DetOfRows;
    RowsSwapped(m[0], m[1], m[2], m[3]);
  }

  lemma DotScaled(a: V4, w: real, b: V4)
    ensures Dot(a, Scale(w, b)) == w * Dot(a, b) && Dot(Scale(w, a), b) == w * Dot(a, b)
  {
  }

  lemma DotPlus(a: V4, b: V4, c: V4)
    ensures Dot(Plus(a, b), c) == Dot(a, c) + Dot(b, c)
  {
  }

  lemma FirstScaled(a: V4, b: V4, c: V4, d: V4, w: real)
    ensures DetOfRows(Scale(w, a), b, c, d) == w * DetOfRows(a, b, c, d)
  {
    var n := Cross(b, c, d);
    hide Cross;
    assert Dot(Scale(w, a), n) == w * Dot(a, n);
  }

  lemma FirstLess(a: V4, b: V4, c: V4, d: V4, w: real)
    ensures DetOfRows(Less(a, w, b), b, c, d) == DetOfRows(a, b, c, d)
  {
    FirstOrthogonal(b, c, d);
    var n := Cross(b, c, d);
    hide Cross;
    DotPlus(a, Scale(-w, b), n);
    DotScaled(b, -w, n);
    assert w * Dot(b, n) == 0.0;
  }

  lemma DetScale(m: Mat, i: nat, w: real)
    requires i < 4
    ensures Det(m[i := Scale(w, m[i])]) == w * Det(m)
  {
    hide DetOfRows;
    var a, b, c, d := m[0], m[1], m[2], m[3];
    FirstScaled(m[i], if i == 1 then a else b, if i == 2 then a else c, if i == 3 then a else d, w);
    RowsSwapped(a, b, c, d);
    RowsSwapped(Scale(w, m[i]), if i == 1 then a else b, if i == 2 then a else c, if i == 3 then a else d);
  }

  lemma DetLess(m: Mat, i: nat, k: nat, w: real)
    requires i < 4 && k < 4 && i != k
    ensures Det(m[k := Less(m[k], w, m[i])]) == Det(m)
  {
    hide DetOfRows;
    var a, b, c, d := m[0], m[1], m[2], m[3];
    var e := Less(m[k], w, m[i]);
    var p := if k == 1 then a else b;
    var q := if k == 2 then a else c;
    var r := if k == 3 then a else d;
    RowsSwapped(a, b, c, d);
    RowsSwapped(e, p, q, r);
    RowsSwapped(m[k], p, q, r);
    if m[i] == p {
      FirstLess(m[k], p, q, r, w);
    } else if m[i] == q {
      FirstLess(m[k], q, p, r, w);
      RowsSwapped(m[k], p, q, r);
      RowsSwapped(e, p, q, r);
    } else {
      FirstLess(m[k], r, q, p, w);
      RowsSwapped(m[k], p, q, r);
      RowsSwapped(e, p, q, r);
    }
  }

  // ---- the inverse by cofactors ----

  function Transpose(m: Mat): Mat {
    [Column(m, 0), Column(m, 1), Column(m, 2), Column(m, 3)]
  }

  /** The columns of the adjugate: each is orthogonal to all rows but one. */
  function Cofactors(m: Mat): Mat {
    [Cross(m[1], m[2], m[3]), Scale(-1.0, Cross(m[0], m[2], m[3])),
     Cross(m[0], m[1], m[3]), Scale(-1.0, Cross(m[0], m[1], m[2]))]
  }

  function Scaled(w: real, m: Mat): Mat {
    [Scale(w, m[0]), Scale(w, m[1]), Scale(w, m[2]), Scale(w, m[3])]
  }

  function Adjugate(m: Mat): Mat {
    Transpose(Cofactors(m))
  }

  lemma CrossOrthogonal(a: V4, b: V4, c: V4)
    ensures Dot(a, Cross(a, b, c)) == 0.0 && Dot(b, Cross(a, b, c)) == 0.0 && Dot(c, Cross(a, b, c)) == 0.0
  {
    hide Cross, Dot;
    FirstOrthogonal(a, b, c);
    FirstOrthogonal(b, a, c);
    FirstOrthogonal(c, a, b);
    CrossSwapped(a, b, c);
    CrossSwapped(a, c, b);
    DotScaled(b, -1.0, Cross(a, b, c));
    DotScaled(c, -1.0, Cross(a, c, b));
    DotScaled(c, -1.0, Cross(a, b, c));
  }

  lemma FirstOrthogonal(a: V4, b: V4, c: V4)
    ensures Dot(a, Cross(a, b, c)) == 0.0
  {
    hide Cross, Wedge, MinorsOf, Dot;
    CrossIsWedge(a, b, c);
    WedgeSwapped(a, a, MinorsOf(b, c));
  }

  lemma DotCommutes(a: V4, b: V4)
    ensures Dot(a, b) == Dot(b, a)
  {
    assert a.x * b.x == b.x * a.x && a.y * b.y == b.y * a.y && a.z * b.z == b.z * a.z && a.w * b.w == b.w * a.w;
  }

  /** A row times every column of the adjugate. */
  lemma RowTimesCofactors(m: Mat, i: nat)
    requires i < 4
    ensures var n := Cofactors(m);
            forall j :: 0 <= j < 4 ==> Dot(m[i], n[j]) == if i == j then Det(m) else 0.0
  {
    var a, b, c, d := m[0], m[1], m[2], m[3];
    CrossOrthogonal(b, c, d);
    CrossOrthogonal(a, c, d);
    CrossOrthogonal(a, b, d);
    CrossOrthogonal(a, b, c);
    DotScaled(m[i], -1.0, Cross(a, c, d));
    DotScaled(m[i], -1.0, Cross(a, b, c));
    RowsSwapped(a, b, c, d);
    RowsSwapped(c, b, a, d);
    RowsSwapped(d, b, c, a);
    RowsSwapped(d, b, a, c);
    hide Dot, Cross;
  }

  lemma TimesAdjugate(m: Mat)
    ensures Product(m, Adjugate(m)) == Scaled(Det(m), IDENTITY)
  {
    hide Combine, Dot, Cofactors, Det;
    forall i | 0 <= i < 4
      ensures Combine(m[i], Adjugate(m)) == Scaled(Det(m), IDENTITY)[i]
    {
      CombineByColumns(m[i], Adjugate(m));
      RowTimesCofactors(m, i);
    }
    assert Product(m, Adjugate(m))[0] == Combine(m[0], Adjugate(m));
  }

  lemma Det3Transposed()
    ensures forall a1, a2, a3, b1, b2, b3, c1, c2, c3 ::
              Det3(a1, a2, a3, b1, b2, b3, c1, c2, c3) == Det3(a1, b1, c1, a2, b2, c2, a3, b3, c3)
  {
  }

  lemma CofactorsOfTranspose(m: Mat)
    ensures Cofactors(Transpose(m)) == Transpose(Cofactors(m))
  {
    Det3Transposed();
    hide Det3;
  }

  lemma ProductOfTransposes(a: Mat, b: Mat)
    ensures Product(Transpose(b), Transpose(a)) == Transpose(Product(a, b))
  {
    hide Combine, Product;
    RowOfTransposes(a, b, 0);
    RowOfTransposes(a, b, 1);
    RowOfTransposes(a, b, 2);
    RowOfTransposes(a, b, 3);
    ProductRows(Transpose(b), Transpose(a));
  }

  lemma ProductRows(a: Mat, b: Mat)
    ensures forall i :: 0 <= i < 4 ==> Product(a, b)[i] == Combine(a[i], b)
  {
    hide Combine;
  }

  lemma RowOfTransposes(a: Mat, b: Mat, j: nat)
    requires j < 4
    ensures Combine(Column(b, j), Transpose(a)) == Column(Product(a, b), j)
  {
    CombineByColumns(Column(b, j), Transpose(a));
    ColumnOfProduct(a, b, j);
    assert forall k :: 0 <= k < 4 ==> Column(Transpose(a), k) == a[k];
    forall k | 0 <= k < 4
      ensures Dot(Column(b, j), a[k]) == Dot(a[k], Column(b, j))
    {
      DotCommutes(a[k], Column(b, j));
    }
    hide Dot, Combine, Product, Transpose, Column;
  }

  lemma TransposedTimes(m: Mat)
    ensures Product(Adjugate(m), m) == Scaled(Det(Transpose(m)), IDENTITY)
  {
    TimesAdjugate(Transpose(m));
    CofactorsOfTranspose(m);
    ProductOfTransposes(Transpose(m), Cofactors(m));
    assert Transpose(Transpose(m)) == m;
    hide Product, Det, Cofactors;
    var s := Scaled(Det(Transpose(m)), IDENTITY);
    assert Transpose(s) == s;
    ProductOfTransposes(Transpose(m), Transpose(Adjugate(m)));
    assert Transpose(Transpose(Adjugate(m))) == Adjugate(m);
  }

  lemma ScaledNeutral(m: Mat, w: real)
    ensures Product(m, Scaled(w, IDENTITY)) == Scaled(w, m) && Product(Scaled(w, IDENTITY), m) == Scaled(w, m)
  {
    hide Product, Scaled;
    ScaledProducts(m, IDENTITY, w);
    ScaledProducts(IDENTITY, m, w);
    IdentityIsNeutral(m, ZERO);
  }

  /** The adjugate on either side of the matrix gives the same multiple of it, so it is by the same number. */
  lemma DetOfTranspose(m: Mat)
    ensures Det(Transpose(m)) == Det(m)
  {
    var d, e := Det(m), Det(Transpose(m));
    if m == [ZERO, ZERO, ZERO, ZERO] {
      ZeroRow(m[1], m[2], m[3]);
      assert Transpose(m) == m;
    } else {
      hide Product, Det, Adjugate, Transpose;
      TimesAdjugate(m);
      TransposedTimes(m);
      ProductsAssociate(m, Adjugate(m), m);
      ScaledNeutral(m, d);
      ScaledNeutral(m, e);
      assert Scaled(d, m) == Scaled(e, m);
      SameMultiple(d, e, m);
    }
  }

  lemma ZeroRow(b: V4, c: V4, d: V4)
    ensures DetOfRows(ZERO, b, c, d) == 0.0
  {
    hide Cross;
  }

  lemma SameMultiple(d: real, e: real, m: Mat)
    requires Scaled(d, m) == Scaled(e, m) && m != [ZERO, ZERO, ZERO, ZERO]
    ensures d == e
  {
    var i :| 0 <= i < 4 && m[i] != ZERO;
    assert Scaled(d, m)[i] == Scale(d, m[i]) && Scaled(e, m)[i] == Scale(e, m[i]);
    hide Scale;
    SameMultipleOfRow(d, e, m[i]);
  }

  lemma SameMultipleOfRow(d: real, e: real, v: V4)
    requires Scale(d, v) == Scale(e, v) && v != ZERO
    ensures d == e
  {
    if v.x != 0.0 {
      SameFactor(d, e, v.x);
    } else if v.y != 0.0 {
      SameFactor(d, e, v.y);
    } else if v.z != 0.0 {
      SameFactor(d, e, v.z);
    } else {
      SameFactor(d, e, v.w);
    }
  }

  lemma SameFactor(d: real, e: real, x: real)
    requires d * x == e * x && x != 0.0
    ensures d == e
  {
    assert d == d * x / x == e * x / x == e;
  }

  lemma AdjugateTimes(m: Mat)
    ensures Product(Adjugate(m), m) == Scaled(Det(m), IDENTITY)
  {
    TransposedTimes(m);
    DetOfTranspose(m);
  }

  lemma ScaledProducts(a: Mat, b: Mat, w: real)
    ensures Product(a, Scaled(w, b)) == Scaled(w, Product(a, b))
    ensures Product(Scaled(w, a), b) == Scaled(w, Product(a, b))
  {
    hide Combine;
    forall i | 0 <= i < 4
      ensures Combine(a[i], Scaled(w, b)) == Scale(w, Combine(a[i], b))
      ensures Combine(Scale(w, a[i]), b) == Scale(w, Combine(a[i], b))
    {
      CombineScaled(a[i], b, w);
    }
  }

  lemma ScaleByParts(w: real, x: real, y: real, z: real, t: real)
    ensures Scale(w, V4(x, y, z, t)) == V4(w * x, w * y, w * z, w * t)
  {
  }

  lemma CombineScaled(v: V4, m: Mat, w: real)
    ensures Combine(v, Scaled(w, m)) == Scale(w, Combine(v, m))
    ensures Combine(Scale(w, v), m) == Scale(w, Combine(v, m))
  {
    hide Combine, Dot, Column, Scaled, Scale;
    CombineByColumns(v, m);
    CombineByColumns(v, Scaled(w, m));
    CombineByColumns(Scale(w, v), m);
    ColumnsScaled(m, w);
    ScaleByParts(w, Dot(v, Column(m, 0)), Dot(v, Column(m, 1)), Dot(v, Column(m, 2)), Dot(v, Column(m, 3)));
    DotScaled(v, w, Column(m, 0));
    DotScaled(v, w, Column(m, 1));
    DotScaled(v, w, Column(m, 2));
    DotScaled(v, w, Column(m, 3));
  }

  lemma ColumnsScaled(m: Mat, w: real)
    ensures forall j :: 0 <= j < 4 ==> Column(Scaled(w, m), j) == Scale(w, Column(m, j))
  {
  }

  lemma ScaledIdentity(w: real, d: real)
    requires w * d == 1.0
    ensures Scaled(w, Scaled(d, IDENTITY)) == IDENTITY
  {
    hide Scale;
    forall i | 0 <= i < 4
      ensures Scale(w, Scale(d, Unit(i))) == Unit(i)
    {
      ScaledBack(w, d, Unit(i));
    }
  }

  lemma ScaledBack(w: real, d: real, v: V4)
    requires w * d == 1.0
    ensures Scale(w, Scale(d, v)) == v
  {
    MultipliedBack(w, d, v.x);
    MultipliedBack(w, d, v.y);
    MultipliedBack(w, d, v.z);
    MultipliedBack(w, d, v.w);
  }

  lemma MultipliedBack(w: real, d: real, x: real)
    requires w * d == 1.0
    ensures w * (d * x) == x
  {
    assert w * (d * x) == (w * d) * x;
  }

  function InverseByCofactors(m: Mat): Mat
    requires Det(m) != 0.0
  {
    Scaled(1.0 / Det(m), Adjugate(m))
  }

  lemma CofactorsInvert(m: Mat)
    requires Det(m) != 0.0
    ensures Inverses(m, InverseByCofactors(m)) && !Singular(m)
  {
    hide Product, Det, Adjugate;
    var w := 1.0 / Det(m);
    TimesAdjugate(m);
    AdjugateTimes(m);
    ScaledProducts(m, Adjugate(m), w);
    ScaledProducts(Adjugate(m), m, w);
    ScaledIdentity(w, Det(m));
    InvertibleIsNotSingular(m, InverseByCofactors(m));
  }
}
