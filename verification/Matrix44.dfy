/**
 The inverse of a four by four matrix, by elimination and by cofactors (math_Matrix44.h). A matrix is an array of two
 dimensions that is changed in place; numbers are exact.
 */
module Matrix44 {
  import opened MatrixAlgebra
  import opened Elimination

  type MTX44 = array2<real>

  ghost predicate IsMatrix(m: MTX44) {
    m.Length0 == 4 && m.Length1 == 4
  }

  function Row(m: MTX44, i: nat): V4
    requires m.Length0 == 4 && m.Length1 == 4 && i < 4
    reads m
  {
    V4(m[i, 0], m[i, 1], m[i, 2], m[i, 3])
  }

  function Rows(m: MTX44): Mat
    requires m.Length0 == 4 && m.Length1 == 4
    reads m
  {
    [Row(m, 0), Row(m, 1), Row(m, 2), Row(m, 3)]
  }

  function Abs(x: real): (r: real)
    ensures r >= 0.0 && (r == x || r == -x)
  {
    if x < 0.0 then -x else x
  }

  lemma ElementsAreRows(m: MTX44)
    requires IsMatrix(m)
    ensures forall r, j :: 0 <= r < 4 && 0 <= j < 4 ==> Rows(m)[r].At(j) == m[r, j]
  {
  }

  method MTX44Copy(pOut: MTX44, m: MTX44)
    requires IsMatrix(pOut) && IsMatrix(m) && pOut != m
    modifies pOut
    ensures Rows(pOut) == Rows(m)
  {
    for i := 0 to 4
      invariant forall r, j :: 0 <= r < i && 0 <= j < 4 ==> pOut[r, j] == m[r, j]
    {
      for k := 0 to 4
        invariant forall r, j :: 0 <= r < i && 0 <= j < 4 ==> pOut[r, j] == m[r, j]
        invariant forall j :: 0 <= j < k ==> pOut[i, j] == m[i, j]
      {
        pOut[i, k] := m[i, k];
      }
    }
  }

  method MTX44Identity(pOut: MTX44)
    requires IsMatrix(pOut)
    modifies pOut
    ensures Rows(pOut) == IDENTITY
  {
    var identity := new real[4, 4]((i, j) => if i == j then 1.0 else 0.0);
    MTX44Copy(pOut, identity);
  }

  /** The row, from `i` on, with the largest number in column `i`; none has one but 0 if that is 0. */
  method FindPivot(src: MTX44, i: nat) returns (max: real, swp: nat)
    requires IsMatrix(src) && i < 4
    ensures i <= swp < 4 && max == Abs(Rows(src)[swp].At(i))
    ensures forall r :: i <= r < 4 ==> -max <= Rows(src)[r].At(i) <= max
  {
    max := 0.0;
    swp := i;
    for k := i to 4
      invariant i <= swp < 4 && max >= 0.0 && (max == 0.0 ==> swp == i)
      invariant forall r :: i <= r < k ==> Abs(src[r, i]) <= max
      invariant if k == i then max == 0.0 else max == Abs(src[swp, i])
    {
      var ftmp := Abs(src[k, i]);
      if ftmp > max {
        max := ftmp;
        swp := k;
      }
    }
    ElementsAreRows(src);
  }

  method SwapRowsOf(m: MTX44, i: nat, swp: nat)
    requires IsMatrix(m) && i < 4 && swp < 4 && i != swp
    modifies m
    ensures Rows(m) == SwapRows(old(Rows(m)), i, swp)
  {
    for k := 0 to 4
      invariant forall j :: 0 <= j < k ==> m[i, j] == old(m[swp, j]) && m[swp, j] == old(m[i, j])
      invariant forall r, j :: 0 <= r < 4 && 0 <= j < 4 && (k <= j || (r != i && r != swp)) ==> m[r, j] == old(m[r, j])
    {
      m[i, k], m[swp, k] := m[swp, k], m[i, k];
    }
  }

  method ScaleRowOf(m: MTX44, i: nat, w: real)
    requires IsMatrix(m) && i < 4
    modifies m
    ensures Rows(m) == ScaleRow(old(Rows(m)), i, w)
  {
    for j := 0 to 4
      invariant forall k :: 0 <= k < j ==> m[i, k] == w * old(m[i, k])
      invariant forall r, k :: 0 <= r < 4 && 0 <= k < 4 && (j <= k || r != i) ==> m[r, k] == old(m[r, k])
    {
      m[i, j] := m[i, j] * w;
    }
    forall r | 0 <= r < 4
      ensures Row(m, r) == if r == i then Scale(w, old(Row(m, r))) else old(Row(m, r))
    {
    }
  }

  method LessRowOf(m: MTX44, k: nat, w: real, i: nat)
    requires IsMatrix(m) && i < 4 && k < 4 && i != k
    modifies m
    ensures Rows(m) == LessRow(old(Rows(m)), k, w, i)
  {
    for j := 0 to 4
      invariant forall l :: 0 <= l < j ==> m[k, l] == old(m[k, l]) + -w * old(m[i, l])
      invariant forall r, l :: 0 <= r < 4 && 0 <= l < 4 && (j <= l || r != k) ==> m[r, l] == old(m[r, l])
    {
      m[k, j] := m[k, j] - m[i, j] * w;
    }
    forall r | 0 <= r < 4
      ensures Row(m, r) == if r == k then Less(old(Row(m, r)), w, old(Row(m, i))) else old(Row(m, r))
    {
    }
  }

  /** Column `i` of the left matrix becomes that of the identity; or it cannot, and the matrix is singular. */
  method EliminateColumn(src: MTX44, inv: MTX44, i: nat, ghost a: Mat, ghost back0: Mat, ghost c0: real)
    returns (ok: bool, ghost back: Mat, ghost c: real)
    requires IsMatrix(src) && IsMatrix(inv) && src != inv && i < 4
    requires Reduced(a, Rows(src), Rows(inv), back0, c0) && UnitColumns(Rows(src), i)
    modifies src, inv
    ensures ok ==> Reduced(a, Rows(src), Rows(inv), back, c) && UnitColumns(Rows(src), i + 1)
    ensures !ok ==> Singular(a) && Det(a) == 0.0
  {
    hide Reduced, Rows, SwapRows, ScaleRow, LessRow;
    back, c := back0, c0;
    var max, swp := FindPivot(src, i);
    if max == 0.0 {
      assert forall r :: i <= r < 4 ==> Abs(Rows(src)[r].At(i)) == 0.0;
      Stuck(a, Rows(src), Rows(inv), back, c, i);
      return false, back, c;
    }
    if swp != i {
      SwapKeeps(a, Rows(src), Rows(inv), back, c, i, swp);
      SwapKeepsColumns(Rows(src), i, swp);
      SwapRowsOf(src, i, swp);
      SwapRowsOf(inv, i, swp);
      back, c := UndoSwap(back, i, swp), -c;
    }
    ElementsAreRows(src);
    var p := src[i, i];
    var w := 1.0 / p;
    ScaleKeeps(a, Rows(src), Rows(inv), back, c, i, w, p);
    ScaleKeepsColumns(Rows(src), i, w);
    ScaleRowOf(src, i, w);
    ScaleRowOf(inv, i, w);
    back, c := UndoScale(back, i, p), c * p;
    for k := 0 to 4
      invariant Reduced(a, Rows(src), Rows(inv), back, c) && UnitColumns(Rows(src), i) && Rows(src)[i].At(i) == 1.0
      invariant forall r :: 0 <= r < k && r != i ==> Rows(src)[r].At(i) == 0.0
    {
      if k == i {
        continue;
      }
      ElementsAreRows(src);
      w := src[k, i];
      LessKeeps(a, Rows(src), Rows(inv), back, c, k, w, i);
      LessKeepsColumns(Rows(src), k, w, i);
      LessRowOf(src, k, w, i);
      LessRowOf(inv, k, w, i);
      back := UndoLess(back, k, w, i);
    }
    ok := true;
  }

  lemma SwapKeepsColumns(m: Mat, i: nat, s: nat)
    requires i < s < 4 && UnitColumns(m, i)
    ensures UnitColumns(SwapRows(m, i, s), i) && SwapRows(m, i, s)[i] == m[s]
  {
  }

  lemma ScaleKeepsColumns(m: Mat, i: nat, w: real)
    requires i < 4 && UnitColumns(m, i) && w * m[i].At(i) == 1.0
    ensures UnitColumns(ScaleRow(m, i, w), i) && ScaleRow(m, i, w)[i].At(i) == 1.0
  {
    forall j | 0 <= j < i
      ensures Scale(w, m[i]).At(j) == 0.0
    {
      assert m[i].At(j) == 0.0;
    }
  }

  lemma LessKeepsColumns(m: Mat, k: nat, w: real, i: nat)
    requires i < 4 && k < 4 && i != k && UnitColumns(m, i) && m[i].At(i) == 1.0 && w == m[k].At(i)
    ensures UnitColumns(LessRow(m, k, w, i), i) && LessRow(m, k, w, i)[k].At(i) == 0.0
    ensures forall r :: 0 <= r < 4 && r != k ==> LessRow(m, k, w, i)[r] == m[r]
  {
    forall j | 0 <= j < i
      ensures Less(m[k], w, m[i]).At(j) == m[k].At(j)
    {
      assert m[i].At(j) == 0.0;
    }
  }

  /** Gauss-Jordan elimination: 1 and the inverse on both sides, or 0 when a vector other than 0 is mapped to 0. */
  method MTX44InverseC(pOut: MTX44, p: MTX44) returns (ok: int)
    requires IsMatrix(pOut) && IsMatrix(p)
    modifies pOut
    ensures ok == if Singular(old(Rows(p))) then 0 else 1
    ensures ok == 1 <==> Det(old(Rows(p))) != 0.0
    ensures ok == 1 ==> Inverses(old(Rows(p)), Rows(pOut))
  {
    hide Singular, Det, Inverses, Reduced, Rows;
    ghost var a := Rows(p);
    var src := new real[4, 4];
    MTX44Copy(src, p);
    MTX44Identity(pOut);
    ghost var back, c := IDENTITY, 1.0;
    Untouched(a);
    for i := 0 to 4
      invariant Reduced(a, Rows(src), Rows(pOut), back, c) && UnitColumns(Rows(src), i)
    {
      var found;
      found, back, c := EliminateColumn(src, pOut, i, a, back, c);
      if !found {
        return 0;
      }
    }
    Finished(a, Rows(src), Rows(pOut), back, c);
    return 1;
  }

  method Determinant(a: Mat) returns (det: real)
    ensures det == Det(a)
  {
    var a11, a12, a13, a14 := a[0].x, a[0].y, a[0].z, a[0].w;
    var a21, a22, a23, a24 := a[1].x, a[1].y, a[1].z, a[1].w;
    var a31, a32, a33, a34 := a[2].x, a[2].y, a[2].z, a[2].w;
    var a41, a42, a43, a44 := a[3].x, a[3].y, a[3].z, a[3].w;
    det := a11 * (a22 * a33 * a44 + a23 * a34 * a42 + a24 * a32 * a43)
         + a12 * (a21 * a34 * a43 + a23 * a31 * a44 + a24 * a33 * a41)
         + a13 * (a21 * a32 * a44 + a22 * a34 * a41 + a24 * a31 * a42)
         + a14 * (a21 * a33 * a42 + a22 * a31 * a43 + a23 * a32 * a41)
         - a11 * (a22 * a34 * a43 + a23 * a32 * a44 + a24 * a33 * a42)
         - a12 * (a21 * a33 * a44 + a23 * a34 * a41 + a24 * a31 * a43)
         - a13 * (a21 * a34 * a42 + a22 * a31 * a44 + a24 * a32 * a41)
         - a14 * (a21 * a32 * a43 + a22 * a33 * a41 + a23 * a31 * a42);
  }

  /** The first two columns of the adjugate. */
  method LeftCofactors(a: Mat)
    returns (b11: real, b12: real, b21: real, b22: real, b31: real, b32: real, b41: real, b42: real)
    ensures V4(b11, b21, b31, b41) == Cofactors(a)[0]
    ensures V4(b12, b22, b32, b42) == Cofactors(a)[1]
  {
    var a11, a12, a13, a14 := a[0].x, a[0].y, a[0].z, a[0].w;
    var a21, a22, a23, a24 := a[1].x, a[1].y, a[1].z, a[1].w;
    var a31, a32, a33, a34 := a[2].x, a[2].y, a[2].z, a[2].w;
    var a41, a42, a43, a44 := a[3].x, a[3].y, a[3].z, a[3].w;
    var a33xa44_a34xa43 := a33 * a44 - a34 * a43;
    var a32xa44_a34xa42 := a32 * a44 - a34 * a42;
    var a33xa42_a32xa43 := a33 * a42 - a32 * a43;
    var a33xa41_a31xa43 := a33 * a41 - a31 * a43;
    var a31xa44_a34xa41 := a31 * a44 - a34 * a41;
    var a32xa41_a31xa42 := a32 * a41 - a31 * a42;
    b11 := a22 * a33xa44_a34xa43 - a23 * a32xa44_a34xa42 - a24 * a33xa42_a32xa43;
    b12 := a13 * a32xa44_a34xa42 + a14 * a33xa42_a32xa43 - a12 * a33xa44_a34xa43;
    b21 := a23 * a31xa44_a34xa41 + a24 * a33xa41_a31xa43 - a21 * a33xa44_a34xa43;
    b22 := a11 * a33xa44_a34xa43 - a13 * a31xa44_a34xa41 - a14 * a33xa41_a31xa43;
    b31 := a21 * a32xa44_a34xa42 - a22 * a31xa44_a34xa41 - a24 * a32xa41_a31xa42;
    b32 := a12 * a31xa44_a34xa41 + a14 * a32xa41_a31xa42 - a11 * a32xa44_a34xa42;
    b41 := a21 * a33xa42_a32xa43 - a22 * a33xa41_a31xa43 + a23 * a32xa41_a31xa42;
    b42 := a12 * a33xa41_a31xa43 - a13 * a32xa41_a31xa42 - a11 * a33xa42_a32xa43;
  }

  /** The last two columns of the adjugate. */
  method RightCofactors(a: Mat)
    returns (b13: real, b14: real, b23: real, b24: real, b33: real, b34: real, b43: real, b44: real)
    ensures V4(b13, b23, b33, b43) == Cofactors(a)[2]
    ensures V4(b14, b24, b34, b44) == Cofactors(a)[3]
  {
    var a11, a12, a13, a14 := a[0].x, a[0].y, a[0].z, a[0].w;
    var a21, a22, a23, a24 := a[1].x, a[1].y, a[1].z, a[1].w;
    var a31, a32, a33, a34 := a[2].x, a[2].y, a[2].z, a[2].w;
    var a41, a42, a43, a44 := a[3].x, a[3].y, a[3].z, a[3].w;
    var a23xa44_a24xa43 := a23 * a44 - a24 * a43;
    var a24xa33_a23xa34 := a24 * a33 - a23 * a34;
    var a24xa42_a22xa44 := a24 * a42 - a22 * a44;
    var a22xa43_a23xa42 := a22 * a43 - a23 * a42;
    var a22xa34_a24xa32 := a22 * a34 - a24 * a32;
    var a23xa32_a22xa33 := a23 * a32 - a22 * a33;
    var a21xa44_a24xa41 := a21 * a44 - a24 * a41;
    var a23xa41_a21xa43 := a23 * a41 - a21 * a43;
    var a24xa31_a21xa34 := a24 * a31 - a21 * a34;
    var a21xa33_a23xa31 := a21 * a33 - a23 * a31;
    var a21xa42_a22xa41 := a21 * a42 - a22 * a41;
    var a22xa31_a21xa32 := a22 * a31 - a21 * a32;
    b13 := a12 * a23xa44_a24xa43 + a13 * a24xa42_a22xa44 + a14 * a22xa43_a23xa42;
    b14 := a12 * a24xa33_a23xa34 + a13 * a22xa34_a24xa32 + a14 * a23xa32_a22xa33;
    b23 := a13 * a21xa44_a24xa41 + a14 * a23xa41_a21xa43 - a11 * a23xa44_a24xa43;
    b24 := a13 * a24xa31_a21xa34 + a14 * a21xa33_a23xa31 - a11 * a24xa33_a23xa34;
    b33 := a14 * a21xa42_a22xa41 - a11 * a24xa42_a22xa44 - a12 * a21xa44_a24xa41;
    b34 := a14 * a22xa31_a21xa32 - a11 * a22xa34_a24xa32 - a12 * a24xa31_a21xa34;
    b43 := -a13 * a21xa42_a22xa41 - a11 * a22xa43_a23xa42 - a12 * a23xa41_a21xa43;
    b44 := -a13 * a22xa31_a21xa32 - a11 * a23xa32_a22xa33 - a12 * a21xa33_a23xa31;
  }

  /** Multiplies a row of the adjugate, and puts it in its place. */
  method StoreRow(pOut: MTX44, r: nat, det: real, b1: real, b2: real, b3: real, b4: real)
    requires IsMatrix(pOut) && r < 4
    modifies pOut
    ensures Rows(pOut) == old(Rows(pOut))[r := Scale(det, V4(b1, b2, b3, b4))]
  {
    pOut[r, 0] := b1 * det;
    pOut[r, 1] := b2 * det;
    pOut[r, 2] := b3 * det;
    pOut[r, 3] := b4 * det;
    assert Row(pOut, r) == Scale(det, V4(b1, b2, b3, b4));
  }

  lemma RowsOfElements(p: MTX44, m: Mat)
    requires IsMatrix(p)
    requires m == [V4(p[0, 0], p[0, 1], p[0, 2], p[0, 3]), V4(p[1, 0], p[1, 1], p[1, 2], p[1, 3]),
                   V4(p[2, 0], p[2, 1], p[2, 2], p[2, 3]), V4(p[3, 0], p[3, 1], p[3, 2], p[3, 3])]
    ensures m == Rows(p)
  {
  }

  /** The inverse by cofactors, which is the one that elimination finds. */
  method MTX44InverseC_FAST(pOut: MTX44, p: MTX44) returns (ok: int)
    requires IsMatrix(pOut) && IsMatrix(p)
    modifies pOut
    ensures ok == if Det(old(Rows(p))) == 0.0 then 0 else 1
    ensures ok == 1 ==> Inverses(old(Rows(p)), Rows(pOut)) && !Singular(old(Rows(p)))
    ensures ok == 0 ==> Rows(pOut) == old(Rows(pOut))
  {
    hide Det, Cofactors, Inverses, Singular, Rows, Scale;
    ghost var a := Rows(p);
    var src: Mat := [V4(p[0, 0], p[0, 1], p[0, 2], p[0, 3]), V4(p[1, 0], p[1, 1], p[1, 2], p[1, 3]),
                     V4(p[2, 0], p[2, 1], p[2, 2], p[2, 3]), V4(p[3, 0], p[3, 1], p[3, 2], p[3, 3])];
    RowsOfElements(p, src);
    var det := Determinant(src);
    if det == 0.0 {
      return 0;
    }
    det := 1.0 / det;
    var b11, b12, b21, b22, b31, b32, b41, b42 := LeftCofactors(src);
    var b13, b14, b23, b24, b33, b34, b43, b44 := RightCofactors(src);
    StoreRow(pOut, 0, det, b11, b12, b13, b14);
    StoreRow(pOut, 1, det, b21, b22, b23, b24);
    StoreRow(pOut, 2, det, b31, b32, b33, b34);
    StoreRow(pOut, 3, det, b41, b42, b43, b44);
    CofactorsInvert(a);
    AdjugateRows(a, 0);
    AdjugateRows(a, 1);
    AdjugateRows(a, 2);
    AdjugateRows(a, 3);
    hide Adjugate;
    assert Rows(pOut) == InverseByCofactors(a);
    return 1;
  }

  lemma AdjugateRows(a: Mat, r: nat)
    requires r < 4
    ensures var n := Cofactors(a); Adjugate(a)[r] == V4(n[0].At(r), n[1].At(r), n[2].At(r), n[3].At(r))
  {
    hide Cofactors;
  }

  /** Both methods give the same answer, and the same matrix. */
  method BothInverses(pOut: MTX44, qOut: MTX44, p: MTX44) returns (slow: int, fast: int)
    requires IsMatrix(pOut) && IsMatrix(qOut) && IsMatrix(p) && pOut != qOut && p != pOut
    modifies pOut, qOut
    ensures slow == fast && (slow == 1 ==> Rows(pOut) == Rows(qOut))
  {
    hide Det, Singular, Inverses, Rows;
    ghost var a := Rows(p);
    slow := MTX44InverseC(pOut, p);
    fast := MTX44InverseC_FAST(qOut, p);
    if slow == 1 {
      InverseIsUnique(a, Rows(pOut), Rows(qOut));
    }
  }
}
