/** What each row operation of an elimination keeps, and where the elimination can end. */
module Elimination {
  import opened MatrixAlgebra

  /**
   Where an elimination of `a` stands. `inv` has turned `a` into `src`; `back` undoes that, and undoes `inv`; the
   determinant of `src` has been divided by `c`.
   */
  ghost predicate Reduced(a: Mat, src: Mat, inv: Mat, back: Mat, c: real) {
    && Product(inv, a) == src
    && Product(back, src) == a
    && Product(back, inv) == IDENTITY
    && c != 0.0 && Det(a) == c * Det(src)
  }

  /** The first `i` columns are those of the identity. */
  predicate UnitColumns(m: Mat, i: nat)
    requires i <= 4
  {
    forall r, j :: 0 <= r < 4 && 0 <= j < i ==> m[r].At(j) == if r == j then 1.0 else 0.0
  }

  function SwapRows(m: Mat, i: nat, s: nat): Mat
    requires i < 4 && s < 4
  {
    m[i := m[s]][s := m[i]]
  }

  function ScaleRow(m: Mat, i: nat, w: real): Mat
    requires i < 4
  {
    m[i := Scale(w, m[i])]
  }

  function LessRow(m: Mat, k: nat, w: real, i: nat): Mat
    requires i < 4 && k < 4
  {
    m[k := Less(m[k], w, m[i])]
  }

  // ---- the operations, on the side of the inverse ----

  lemma ProductOfSwapped(m: Mat, a: Mat, i: nat, s: nat)
    requires i < 4 && s < 4
    ensures Product(SwapRows(m, i, s), a) == SwapRows(Product(m, a), i, s)
  {
    hide Combine;
  }

  lemma ProductOfScaled(m: Mat, a: Mat, i: nat, w: real)
    requires i < 4
    ensures Product(ScaleRow(m, i, w), a) == ScaleRow(Product(m, a), i, w)
  {
    hide Combine;
    CombineScaled(m[i], a, w);
  }

  lemma ProductOfLess(m: Mat, a: Mat, k: nat, w: real, i: nat)
    requires i < 4 && k < 4
    ensures Product(LessRow(m, k, w, i), a) == LessRow(Product(m, a), k, w, i)
  {
    CombineLess(m[k], w, m[i], a);
    hide Combine;
  }

  lemma CombineLess(u: V4, w: real, v: V4, m: Mat)
    ensures Combine(Less(u, w, v), m) == Less(Combine(u, m), w, Combine(v, m))
  {
    CombinePlus(u, Scale(-w, v), m);
    CombineScaled(v, m, -w);
  }

  lemma CombinePlus(u: V4, v: V4, m: Mat)
    ensures Combine(Plus(u, v), m) == Plus(Combine(u, m), Combine(v, m))
  {
    hide Combine, Column, Dot;
    CombineByColumns(u, m);
    CombineByColumns(v, m);
    CombineByColumns(Plus(u, v), m);
    DotPlus(u, v, Column(m, 0));
    DotPlus(u, v, Column(m, 1));
    DotPlus(u, v, Column(m, 2));
    DotPlus(u, v, Column(m, 3));
  }

  // ---- the operations, on the side that undoes them ----

  /** Row operations on the right matrix of a product and these on the columns of the left one cancel out. */
  function SwapIn(v: V4, i: nat, s: nat): V4
    requires i < 4 && s < 4
  {
    v.With(i, v.At(s)).With(s, v.At(i))
  }

  function ScaleIn(v: V4, i: nat, p: real): V4
    requires i < 4
  {
    v.With(i, v.At(i) * p)
  }

  function MoreIn(v: V4, k: nat, w: real, i: nat): V4
    requires i < 4 && k < 4
  {
    v.With(i, v.At(i) + v.At(k) * w)
  }

  /** The columns of the matrix that the row operation is undone by. */
  function UndoSwap(m: Mat, i: nat, s: nat): Mat
    requires i < 4 && s < 4
  {
    [SwapIn(m[0], i, s), SwapIn(m[1], i, s), SwapIn(m[2], i, s), SwapIn(m[3], i, s)]
  }

  function UndoScale(m: Mat, i: nat, p: real): Mat
    requires i < 4
  {
    [ScaleIn(m[0], i, p), ScaleIn(m[1], i, p), ScaleIn(m[2], i, p), ScaleIn(m[3], i, p)]
  }

  function UndoLess(m: Mat, k: nat, w: real, i: nat): Mat
    requires i < 4 && k < 4
  {
    [MoreIn(m[0], k, w, i), MoreIn(m[1], k, w, i), MoreIn(m[2], k, w, i), MoreIn(m[3], k, w, i)]
  }

  lemma SwapCancels(v: V4, m: Mat, i: nat, s: nat)
    requires i < 4 && s < 4
    ensures Combine(SwapIn(v, i, s), SwapRows(m, i, s)) == Combine(v, m)
  {
  }

  lemma ScaleCancels(v: V4, m: Mat, i: nat, w: real, p: real)
    requires i < 4 && p * w == 1.0
    ensures Combine(ScaleIn(v, i, p), ScaleRow(m, i, w)) == Combine(v, m)
  {
    Cancel(v.At(i), w, p, m[i]);
    hide Scale, Combine;
    TermReplaced(v, m, i, v.At(i) * p, Scale(w, m[i]));
  }

  /** A term of the combination may be put together in another way. */
  lemma TermReplaced(v: V4, m: Mat, i: nat, x: real, b: V4)
    requires i < 4 && Scale(x, b) == Scale(v.At(i), m[i])
    ensures Combine(v.With(i, x), m[i := b]) == Combine(v, m)
  {
    hide Scale, Plus;
  }

  lemma TermsReplaced(v: V4, m: Mat, i: nat, x: real, k: nat, b: V4)
    requires i < 4 && k < 4 && i != k
    requires Plus(Scale(x, m[i]), Scale(v.At(k), b)) == Plus(Scale(v.At(i), m[i]), Scale(v.At(k), m[k]))
    ensures Combine(v.With(i, x), m[k := b]) == Combine(v, m)
  {
    hide Scale;
  }

  lemma Cancel(x: real, w: real, p: real, b: V4)
    requires p * w == 1.0
    ensures Scale(x * p, Scale(w, b)) == Scale(x, b)
  {
    CancelFactor(x, w, p, b.x);
    CancelFactor(x, w, p, b.y);
    CancelFactor(x, w, p, b.z);
    CancelFactor(x, w, p, b.w);
  }

  lemma CancelFactor(x: real, w: real, p: real, b: real)
    requires p * w == 1.0
    ensures (x * p) * (w * b) == x * b
  {
    assert (x * p) * (w * b) == x * (p * w) * b;
  }

  lemma LessCancels(v: V4, m: Mat, k: nat, w: real, i: nat)
    requires i < 4 && k < 4 && i != k
    ensures Combine(MoreIn(v, k, w, i), LessRow(m, k, w, i)) == Combine(v, m)
  {
    ScaleMore(v.At(i), v.At(k), w, m[i]);
    ScaleOfLess(v.At(k), m[k], w, m[i]);
    hide Scale, Less, Combine;
    TermsReplaced(v, m, i, v.At(i) + v.At(k) * w, k, Less(m[k], w, m[i]));
  }

  lemma ScaleMore(x: real, y: real, w: real, b: V4)
    ensures Scale(x + y * w, b) == Plus(Scale(x, b), Scale(y * w, b))
  {
  }

  lemma ScaleOfLess(y: real, a: V4, w: real, b: V4)
    ensures Plus(Scale(y, Less(a, w, b)), Scale(y * w, b)) == Scale(y, a)
  {
  }

  // ---- what the operations keep ----

  lemma Untouched(a: Mat)
    ensures Reduced(a, a, IDENTITY, IDENTITY, 1.0)
  {
    hide Product, Det;
    IdentityIsNeutral(a, ZERO);
    IdentityIsNeutral(IDENTITY, ZERO);
  }

  lemma SwapKeeps(a: Mat, src: Mat, inv: Mat, back: Mat, c: real, i: nat, s: nat)
    requires Reduced(a, src, inv, back, c) && i < s < 4
    ensures Reduced(a, SwapRows(src, i, s), SwapRows(inv, i, s), UndoSwap(back, i, s), -c)
  {
    hide Product, Det, UndoSwap;
    ProductOfSwapped(inv, a, i, s);
    DetSwap(src, i, s);
    UndoneSwap(back, src, i, s);
    UndoneSwap(back, inv, i, s);
  }

  lemma UndoneSwap(back: Mat, m: Mat, i: nat, s: nat)
    requires i < 4 && s < 4
    ensures Product(UndoSwap(back, i, s), SwapRows(m, i, s)) == Product(back, m)
  {
    hide Combine, SwapRows, SwapIn;
    SwapCancels(back[0], m, i, s);
    SwapCancels(back[1], m, i, s);
    SwapCancels(back[2], m, i, s);
    SwapCancels(back[3], m, i, s);
  }

  lemma ScaleKeeps(a: Mat, src: Mat, inv: Mat, back: Mat, c: real, i: nat, w: real, p: real)
    requires Reduced(a, src, inv, back, c) && i < 4 && p != 0.0 && p * w == 1.0
    ensures Reduced(a, ScaleRow(src, i, w), ScaleRow(inv, i, w), UndoScale(back, i, p), c * p)
  {
    hide Product, Det, UndoScale;
    ProductOfScaled(inv, a, i, w);
    DetScale(src, i, w);
    UndoneScale(back, src, i, w, p);
    UndoneScale(back, inv, i, w, p);
    var d := Det(src);
    CancelFactor(c, w, p, d);
  }

  lemma UndoneScale(back: Mat, m: Mat, i: nat, w: real, p: real)
    requires i < 4 && p * w == 1.0
    ensures Product(UndoScale(back, i, p), ScaleRow(m, i, w)) == Product(back, m)
  {
    hide Combine, ScaleRow, ScaleIn;
    ScaleCancels(back[0], m, i, w, p);
    ScaleCancels(back[1], m, i, w, p);
    ScaleCancels(back[2], m, i, w, p);
    ScaleCancels(back[3], m, i, w, p);
  }

  lemma LessKeeps(a: Mat, src: Mat, inv: Mat, back: Mat, c: real, k: nat, w: real, i: nat)
    requires Reduced(a, src, inv, back, c) && i < 4 && k < 4 && i != k
    ensures Reduced(a, LessRow(src, k, w, i), LessRow(inv, k, w, i), UndoLess(back, k, w, i), c)
  {
    hide Product, Det, UndoLess;
    ProductOfLess(inv, a, k, w, i);
    DetLess(src, i, k, w);
    UndoneLess(back, src, k, w, i);
    UndoneLess(back, inv, k, w, i);
  }

  lemma UndoneLess(back: Mat, m: Mat, k: nat, w: real, i: nat)
    requires i < 4 && k < 4 && i != k
    ensures Product(UndoLess(back, k, w, i), LessRow(m, k, w, i)) == Product(back, m)
  {
    hide Combine, LessRow, MoreIn;
    LessCancels(back[0], m, k, w, i);
    LessCancels(back[1], m, k, w, i);
    LessCancels(back[2], m, k, w, i);
    LessCancels(back[3], m, k, w, i);
  }

  // ---- where the elimination ends ----

  /** When all columns are those of the identity, the inverse is found. */
  lemma Finished(a: Mat, src: Mat, inv: Mat, back: Mat, c: real)
    requires Reduced(a, src, inv, back, c) && UnitColumns(src, 4)
    ensures Inverses(a, inv) && !Singular(a) && Det(a) != 0.0
  {
    UnitColumnsAreIdentity(src);
    FoundInverse(a, inv, back);
    DetOfIdentity();
    hide Product, Det, UnitColumns, Singular, Inverses;
    TimesOne(c, Det(src));
  }

  lemma TimesOne(c: real, d: real)
    requires d == 1.0
    ensures c * d == c
  {
  }

  lemma FoundInverse(a: Mat, inv: Mat, back: Mat)
    requires Product(inv, a) == IDENTITY && Product(back, IDENTITY) == a && Product(back, inv) == IDENTITY
    ensures Inverses(a, inv) && !Singular(a)
  {
    hide Product, Singular;
    IdentityIsNeutral(back, ZERO);
    InvertibleIsNotSingular(a, inv);
  }

  lemma UnitColumnsAreIdentity(m: Mat)
    requires UnitColumns(m, 4)
    ensures m == IDENTITY
  {
    forall r | 0 <= r < 4
      ensures m[r] == Unit(r)
    {
      assert m[r] == V4(m[r].At(0), m[r].At(1), m[r].At(2), m[r].At(3));
    }
  }

  /** When a column has nothing but zeros from row `i` on, a column that is not zero is mapped to zero. */
  lemma Stuck(a: Mat, src: Mat, inv: Mat, back: Mat, c: real, i: nat)
    requires Reduced(a, src, inv, back, c) && i < 4 && UnitColumns(src, i)
    requires forall r :: i <= r < 4 ==> src[r].At(i) == 0.0
    ensures Singular(a) && Det(a) == 0.0
  {
    var v := NullColumn(src, i);
    NullColumnIsMapped(src, i);
    ApplyProduct(back, src, v);
    assert Apply(back, ZERO) == ZERO;
    assert Apply(a, v) == ZERO && v.At(i) == 1.0;
    if Det(a) != 0.0 {
      hide Det, Product, Apply;
      CofactorsInvert(a);
    }
  }

  function NullColumn(m: Mat, i: nat): V4
    requires i < 4
  {
    V4(if i == 0 then 1.0 else -m[0].At(i), if i == 1 then 1.0 else if i < 1 then 0.0 else -m[1].At(i),
       if i == 2 then 1.0 else if i < 2 then 0.0 else -m[2].At(i), if i == 3 then 1.0 else 0.0)
  }

  lemma NullColumnIsMapped(m: Mat, i: nat)
    requires i < 4 && UnitColumns(m, i) && forall r :: i <= r < 4 ==> m[r].At(i) == 0.0
    ensures Apply(m, NullColumn(m, i)) == ZERO
  {
    forall r | 0 <= r < 4
      ensures Dot(m[r], NullColumn(m, i)) == 0.0
    {
      assert forall j :: 0 <= j < i ==> m[r].At(j) == if r == j then 1.0 else 0.0;
      assert i > 0 ==> m[r].At(0) == if r == 0 then 1.0 else 0.0;
      assert i > 1 ==> m[r].At(1) == if r == 1 then 1.0 else 0.0;
      assert i > 2 ==> m[r].At(2) == if r == 2 then 1.0 else 0.0;
    }
  }
}
