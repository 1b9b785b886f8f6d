/** Sums over the cells of a rectangle: splitting, adding, shifting and exchanging them. */
module Sums {
  type Image = (int, int) -> real

  function RowSum(f: Image, x: int, c0: int, c1: int): real
    requires c0 <= c1
    decreases c1 - c0
  {
    if c0 == c1 then 0.0 else RowSum(f, x, c0, c1 - 1) + f(x, c1 - 1)
  }

  /** The sum of f over rows r0..r1 and columns c0..c1, ends excluded. */
  function RectSum(f: Image, r0: int, r1: int, c0: int, c1: int): real
    requires r0 <= r1 && c0 <= c1
    decreases r1 - r0
  {
    if r0 == r1 then 0.0 else RectSum(f, r0, r1 - 1, c0, c1) + RowSum(f, r1 - 1, c0, c1)
  }

  lemma {:induction false} RowSplit(f: Image, x: int, a: int, b: int, c: int)
    requires a <= b <= c
    ensures RowSum(f, x, a, c) == RowSum(f, x, a, b) + RowSum(f, x, b, c)
    decreases c - b
  {
    if b < c {
      RowSplit(f, x, a, b, c - 1);
    }
  }

  lemma {:induction false} SplitColumns(f: Image, r0: int, r1: int, a: int, b: int, c: int)
    requires r0 <= r1 && a <= b <= c
    ensures RectSum(f, r0, r1, a, c) == RectSum(f, r0, r1, a, b) + RectSum(f, r0, r1, b, c)
    decreases r1 - r0
  {
    if r0 < r1 {
      SplitColumns(f, r0, r1 - 1, a, b, c);
      RowSplit(f, r1 - 1, a, b, c);
    }
  }

  lemma {:induction false} SplitRows(f: Image, a: int, b: int, c: int, c0: int, c1: int)
    requires a <= b <= c && c0 <= c1
    ensures RectSum(f, a, c, c0, c1) == RectSum(f, a, b, c0, c1) + RectSum(f, b, c, c0, c1)
    decreases c - b
  {
    if b < c {
      SplitRows(f, a, b, c - 1, c0, c1);
    }
  }

  /** Four prefix sums give the sum of the rectangle between them. */
  lemma FourCorners(f: Image, r0: int, r1: int, c0: int, c1: int)
    requires 0 <= r0 <= r1 && 0 <= c0 <= c1
    ensures RectSum(f, r0, r1, c0, c1)
      == RectSum(f, 0, r0, 0, c0) + RectSum(f, 0, r1, 0, c1) - RectSum(f, 0, r1, 0, c0) - RectSum(f, 0, r0, 0, c1)
  {
    SplitRows(f, 0, r0, r1, 0, c1);
    SplitRows(f, 0, r0, r1, 0, c0);
    SplitColumns(f, r0, r1, 0, c0, c1);
  }

  lemma {:induction false} RowAdd(f: Image, g: Image, h: Image, x: int, c0: int, c1: int)
    requires c0 <= c1 && forall y | c0 <= y < c1 :: h(x, y) == f(x, y) + g(x, y)
    ensures RowSum(h, x, c0, c1) == RowSum(f, x, c0, c1) + RowSum(g, x, c0, c1)
    decreases c1 - c0
  {
    if c0 < c1 {
      RowAdd(f, g, h, x, c0, c1 - 1);
    }
  }

  lemma {:induction false} RectAdd(f: Image, g: Image, h: Image, r0: int, r1: int, c0: int, c1: int)
    requires r0 <= r1 && c0 <= c1
    requires forall x, y | r0 <= x < r1 && c0 <= y < c1 :: h(x, y) == f(x, y) + g(x, y)
    ensures RectSum(h, r0, r1, c0, c1) == RectSum(f, r0, r1, c0, c1) + RectSum(g, r0, r1, c0, c1)
    decreases r1 - r0
  {
    if r0 < r1 {
      RectAdd(f, g, h, r0, r1 - 1, c0, c1);
      RowAdd(f, g, h, r1 - 1, c0, c1);
    }
  }

  lemma {:induction false} RowShift(f: Image, g: Image, x: int, dx: int, c0: int, c1: int, dy: int)
    requires c0 <= c1 && forall y | c0 <= y < c1 :: f(x, y) == g(x + dx, y + dy)
    ensures RowSum(f, x, c0, c1) == RowSum(g, x + dx, c0 + dy, c1 + dy)
    decreases c1 - c0
  {
    if c0 < c1 {
      RowShift(f, g, x, dx, c0, c1 - 1, dy);
    }
  }

  lemma {:induction false} RectShift(f: Image, g: Image, r0: int, r1: int, dx: int, c0: int, c1: int, dy: int)
    requires r0 <= r1 && c0 <= c1
    requires forall x, y | r0 <= x < r1 && c0 <= y < c1 :: f(x, y) == g(x + dx, y + dy)
    ensures RectSum(f, r0, r1, c0, c1) == RectSum(g, r0 + dx, r1 + dx, c0 + dy, c1 + dy)
    decreases r1 - r0
  {
    if r0 < r1 {
      RectShift(f, g, r0, r1 - 1, dx, c0, c1, dy);
      RowShift(f, g, r1 - 1, dx, c0, c1, dy);
    }
  }

  lemma {:induction false} RowConst(f: Image, v: real, x: int, c0: int, c1: int)
    requires c0 <= c1 && forall y | c0 <= y < c1 :: f(x, y) == v
    ensures RowSum(f, x, c0, c1) == (c1 - c0) as real * v
    decreases c1 - c0
  {
    if c0 < c1 {
      RowConst(f, v, x, c0, c1 - 1);
    }
  }

  lemma {:induction false} RectConst(f: Image, v: real, r0: int, r1: int, c0: int, c1: int)
    requires r0 <= r1 && c0 <= c1
    requires forall x, y | r0 <= x < r1 && c0 <= y < c1 :: f(x, y) == v
    ensures RectSum(f, r0, r1, c0, c1) == (r1 - r0) as real * ((c1 - c0) as real * v)
    decreases r1 - r0
  {
    if r0 < r1 {
      RectConst(f, v, r0, r1 - 1, c0, c1);
      RowConst(f, v, r1 - 1, c0, c1);
    }
  }

  lemma RectZero(f: Image, r0: int, r1: int, c0: int, c1: int)
    requires r0 <= r1 && c0 <= c1
    requires forall x, y | r0 <= x < r1 && c0 <= y < c1 :: f(x, y) == 0.0
    ensures RectSum(f, r0, r1, c0, c1) == 0.0
  {
    RectConst(f, 0.0, r0, r1, c0, c1);
  }

  /** Images that agree on the rectangle have the same sum there. */
  lemma RectSame(f: Image, g: Image, r0: int, r1: int, c0: int, c1: int)
    requires r0 <= r1 && c0 <= c1
    requires forall x, y | r0 <= x < r1 && c0 <= y < c1 :: f(x, y) == g(x, y)
    ensures RectSum(f, r0, r1, c0, c1) == RectSum(g, r0, r1, c0, c1)
  {
    var zero: Image := (x, y) => 0.0;
    RectZero(zero, r0, r1, c0, c1);
    RectAdd(g, zero, f, r0, r1, c0, c1);
  }

  // ----- exchanging two sums

  type Family = (int, int, int, int) -> real

  /** Member (k, t) of a family of images. */
  function Member(g: Family, k: int, t: int): Image {
    (x, y) => g(k, t, x, y)
  }

  function AtPixel(g: Family, x: int, y: int): Image {
    (k, t) => g(k, t, x, y)
  }

  function RowOfMembers(g: Family, k: int, t1: int): Image
    requires 0 <= t1
  {
    (x, y) => RowSum(AtPixel(g, x, y), k, 0, t1)
  }

  /** The pixelwise sum of the members with k < k1 and t < t1. */
  function SumOfMembers(g: Family, k1: int, t1: int): Image
    requires 0 <= k1 && 0 <= t1
  {
    (x, y) => RectSum(AtPixel(g, x, y), 0, k1, 0, t1)
  }

  /** The sum of each member over a rectangle, as an image over (k, t). */
  function MemberSums(g: Family, r0: int, r1: int, c0: int, c1: int): Image
    requires r0 <= r1 && c0 <= c1
  {
    (k, t) => RectSum(Member(g, k, t), r0, r1, c0, c1)
  }

  lemma {:induction false} ExchangeRow(g: Family, k: int, t1: int, r0: int, r1: int, c0: int, c1: int)
    requires 0 <= t1 && r0 <= r1 && c0 <= c1
    ensures RectSum(RowOfMembers(g, k, t1), r0, r1, c0, c1) == RowSum(MemberSums(g, r0, r1, c0, c1), k, 0, t1)
    decreases t1
  {
    if t1 == 0 {
      RectZero(RowOfMembers(g, k, 0), r0, r1, c0, c1);
    } else {
      ExchangeRow(g, k, t1 - 1, r0, r1, c0, c1);
      RectAdd(RowOfMembers(g, k, t1 - 1), Member(g, k, t1 - 1), RowOfMembers(g, k, t1), r0, r1, c0, c1);
    }
  }

  /** Summing the members pixelwise and then over a rectangle is summing each and then all. */
  lemma {:induction false} Exchange(g: Family, k1: int, t1: int, r0: int, r1: int, c0: int, c1: int)
    requires 0 <= k1 && 0 <= t1 && r0 <= r1 && c0 <= c1
    ensures RectSum(SumOfMembers(g, k1, t1), r0, r1, c0, c1) == RectSum(MemberSums(g, r0, r1, c0, c1), 0, k1, 0, t1)
    decreases k1
  {
    if k1 == 0 {
      RectZero(SumOfMembers(g, 0, t1), r0, r1, c0, c1);
    } else {
      Exchange(g, k1 - 1, t1, r0, r1, c0, c1);
      ExchangeRow(g, k1 - 1, t1, r0, r1, c0, c1);
      RectAdd(SumOfMembers(g, k1 - 1, t1), RowOfMembers(g, k1 - 1, t1), SumOfMembers(g, k1, t1), r0, r1, c0, c1);
    }
  }
}
