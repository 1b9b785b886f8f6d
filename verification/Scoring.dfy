/**
 Window scores of the pedestrian detector: one integral image of summed classifier weights,
 against the dot product of the weights with the window's histogram. Doubles are exact reals.
 */
module Scoring {
  import opened Sums

  type Census = (int, int) -> int

  /** EXT is 1 throughout, so there are (xdiv-1) by (ydiv-1) overlapping cells of 2 by 2 blocks. */
  datatype Scanner = Scanner(
    height: nat, width: nat, xdiv: nat, ydiv: nat, base: nat, weights: seq<real>, thresh: real)
  {
    /**
     At least two blocks a side, or the far corner of a cell lies outside the window, and blocks
     of at least 2 by 2 pixels, because the threshold is divided by the size of a cell.
     */
    predicate Valid() {
      && xdiv > 1 && ydiv > 1 && base > 0
      && height / xdiv >= 2 && width / ydiv >= 2
      && |weights| == CellOffset(xdiv - 1, 0)
    }

    function BlockH(): nat requires xdiv > 0 { height / xdiv }

    function BlockW(): nat requires ydiv > 0 { width / ydiv }

    function CellH(): int requires xdiv > 0 { 2 * BlockH() - 2 }

    function CellW(): int requires ydiv > 0 { 2 * BlockW() - 2 }

    /** Where the weights of cell (k, t) start. */
    function CellOffset(k: int, t: int): int {
      (k * (ydiv - 1) + t) * base
    }

    function Weight(b: int): real {
      if 0 <= b < |weights| then weights[b] else 0.0
    }
  }

  lemma MulMono(a: int, b: int, c: int)
    requires a <= b && c >= 0
    ensures a * c <= b * c
  {
  }

  lemma CellFits(sc: Scanner, k: int, t: int)
    requires sc.Valid() && 0 <= k < sc.xdiv - 1 && 0 <= t < sc.ydiv - 1
    ensures 0 <= sc.CellOffset(k, t) && sc.CellOffset(k, t) + sc.base <= |sc.weights|
  {
    var d := sc.ydiv - 1;
    MulMono(k + 1, sc.xdiv - 1, d);
    assert (k + 1) * d == k * d + d;
    MulMono(0, k, d);
    MulMono(k * d + t + 1, (sc.xdiv - 1) * d, sc.base);
    MulMono(0, k * d + t, sc.base);
    assert (k * d + t + 1) * sc.base == (k * d + t) * sc.base + sc.base;
  }

  lemma CellAfter(sc: Scanner, k: int, t: int)
    ensures sc.CellOffset(k, t + 1) == sc.CellOffset(k, t) + sc.base
    ensures sc.CellOffset(k, sc.ydiv - 1) == sc.CellOffset(k + 1, 0)
  {
    var d := sc.ydiv - 1;
    assert (k * d + t + 1) * sc.base == (k * d + t) * sc.base + sc.base;
    assert (k + 1) * d == k * d + d;
  }

  // ----- what a window is worth

  predicate Inside(x: int, y: int, rows: int, cols: int) {
    2 <= x < rows - 2 && 2 <= y < cols - 2
  }

  /** The census image is only known, and only below base, inside its two-pixel border. */
  ghost predicate CensusOk(sc: Scanner, c: Census, ct: array2<int>)
    reads ct
  {
    forall x, y | Inside(x, y, ct.Length0, ct.Length1) :: ct[x, y] == c(x, y) && 0 <= c(x, y) < sc.base
  }

  /** The weight that cell (k, t) gives to each pixel of the census image. */
  function CellPixels(sc: Scanner, c: Census, k: int, t: int): Image {
    (x, y) => sc.Weight(sc.CellOffset(k, t) + c(x, y))
  }

  /** The sum of these weights over cell (k, t) of the window at (i, j), as an image over (k, t). */
  function CellSums(sc: Scanner, c: Census, i: int, j: int): Image
    requires sc.Valid()
  {
    (k, t) =>
      var x, y := i + 1 + k * sc.BlockH(), j + 1 + t * sc.BlockW();
      RectSum(CellPixels(sc, c, k, t), x, x + sc.CellH(), y, y + sc.CellW())
  }

  function WindowSum(sc: Scanner, c: Census, i: int, j: int): real
    requires sc.Valid()
  {
    RectSum(CellSums(sc, c, i, j), 0, sc.xdiv - 1, 0, sc.ydiv - 1)
  }

  // ----- one image for all cells

  /** What cell (k, t) adds to pixel (x, y) of the score image. */
  function Shares(sc: Scanner, c: Census, rows: int, cols: int): Family
    requires sc.Valid()
  {
    (k, t, x, y) =>
      var dx, dy := k * sc.BlockH(), t * sc.BlockW();
      if 2 <= x < rows - 2 - dx && 2 <= y < cols - 2 - dy then CellPixels(sc, c, k, t)(x + dx, y + dy) else 0.0
  }

  function PerPixel(sc: Scanner): real
    requires sc.Valid()
  {
    sc.thresh / sc.CellH() as real / sc.CellW() as real
  }

  function ScoreImage(sc: Scanner, c: Census, rows: int, cols: int): Image
    requires sc.Valid()
  {
    (x, y) => PerPixel(sc) + SumOfMembers(Shares(sc, c, rows, cols), sc.xdiv - 1, sc.ydiv - 1)(x, y)
  }

  lemma ThresholdSpread(thresh: real, h: real, w: real)
    requires h > 0.0 && w > 0.0
    ensures h * (w * (thresh / h / w)) == thresh
  {
    assert w * (thresh / h / w) == thresh / h;
  }

  /** Inside a scanned window every cell contributes in full. */
  lemma CellInWindow(sc: Scanner, c: Census, rows: int, cols: int, i: int, j: int, k: int, t: int)
    requires sc.Valid() && 2 <= i < rows - 2 - sc.height && 2 <= j < cols - 2 - sc.width
    requires 0 <= k < sc.xdiv - 1 && 0 <= t < sc.ydiv - 1
    ensures MemberSums(Shares(sc, c, rows, cols), i + 1, i + 1 + sc.CellH(), j + 1, j + 1 + sc.CellW())(k, t)
      == CellSums(sc, c, i, j)(k, t)
  {
    var dx, dy := k * sc.BlockH(), t * sc.BlockW();
    WindowHoldsCell(sc.height, sc.xdiv, k);
    WindowHoldsCell(sc.width, sc.ydiv, t);
    var m := Member(Shares(sc, c, rows, cols), k, t);
    var p := CellPixels(sc, c, k, t);
    var r0, r1, c0, c1 := i + 1, i + 1 + sc.CellH(), j + 1, j + 1 + sc.CellW();
    forall x, y | r0 <= x < r1 && c0 <= y < c1 ensures m(x, y) == p(x + dx, y + dy) {
    }
    RectShift(m, p, r0, r1, dx, c0, c1, dy);
  }

  /** Cell k of a side cut into n blocks ends two pixels before the side does. */
  lemma WindowHoldsCell(side: nat, n: nat, k: int)
    requires n > 0 && 0 <= k < n - 1
    ensures 0 <= k * (side / n) && k * (side / n) + 2 * (side / n) <= side
  {
    var b := side / n;
    MulMono(k + 2, n, b);
    assert (k + 2) * b == k * b + 2 * b;
  }

  lemma FlatPart(sc: Scanner, flat: Image, r0: int, c0: int)
    requires sc.Valid() && forall x, y :: flat(x, y) == PerPixel(sc)
    ensures RectSum(flat, r0, r0 + sc.CellH(), c0, c0 + sc.CellW()) == sc.thresh
  {
    RectConst(flat, PerPixel(sc), r0, r0 + sc.CellH(), c0, c0 + sc.CellW());
    ThresholdSpread(sc.thresh, sc.CellH() as real, sc.CellW() as real);
  }

  lemma CellsPart(sc: Scanner, c: Census, rows: int, cols: int, i: int, j: int)
    requires sc.Valid() && 2 <= i < rows - 2 - sc.height && 2 <= j < cols - 2 - sc.width
    ensures RectSum(SumOfMembers(Shares(sc, c, rows, cols), sc.xdiv - 1, sc.ydiv - 1),
                    i + 1, i + 1 + sc.CellH(), j + 1, j + 1 + sc.CellW()) == WindowSum(sc, c, i, j)
  {
    hide Shares, CellSums, MemberSums, SumOfMembers;
    var r0, r1, c0, c1 := i + 1, i + 1 + sc.CellH(), j + 1, j + 1 + sc.CellW();
    var g := Shares(sc, c, rows, cols);
    var k1, t1 := sc.xdiv - 1, sc.ydiv - 1;
    Exchange(g, k1, t1, r0, r1, c0, c1);
    forall k, t | 0 <= k < k1 && 0 <= t < t1
      ensures MemberSums(g, r0, r1, c0, c1)(k, t) == CellSums(sc, c, i, j)(k, t)
    {
      CellInWindow(sc, c, rows, cols, i, j, k, t);
    }
    RectSame(MemberSums(g, r0, r1, c0, c1), CellSums(sc, c, i, j), 0, k1, 0, t1);
  }

  /** The rectangle under a scanned position of the score image sums to the window's worth. */
  lemma WindowIsRectangle(sc: Scanner, c: Census, rows: int, cols: int, i: int, j: int)
    requires sc.Valid() && 2 <= i < rows - 2 - sc.height && 2 <= j < cols - 2 - sc.width
    ensures RectSum(ScoreImage(sc, c, rows, cols), i + 1, i + 1 + sc.CellH(), j + 1, j + 1 + sc.CellW())
      == sc.thresh + WindowSum(sc, c, i, j)
  {
    hide Shares, SumOfMembers, PerPixel, WindowSum;
    var flat: Image := (x, y) => PerPixel(sc);
    FlatPart(sc, flat, i + 1, j + 1);
    CellsPart(sc, c, rows, cols, i, j);
    RectAdd(flat, SumOfMembers(Shares(sc, c, rows, cols), sc.xdiv - 1, sc.ydiv - 1), ScoreImage(sc, c, rows, cols),
            i + 1, i + 1 + sc.CellH(), j + 1, j + 1 + sc.CellW());
  }
}
