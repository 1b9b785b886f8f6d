/** The bins of a window's histogram as sets of pixels, in the loop bounds of the source. */
module Pixels {
  import opened Sums
  import opened Scoring
  import opened WindowScan
  import opened Bins

  // ----- sums of indicators are cardinalities

  function RowPixels(c: Census, v: int, x: int, y0: int, y1: int): set<(int, int)> {
    set y | y0 <= y < y1 && c(x, y) == v :: (x, y)
  }

  function RectPixels(c: Census, v: int, x0: int, x1: int, y0: int, y1: int): set<(int, int)> {
    set x, y | x0 <= x < x1 && y0 <= y < y1 && c(x, y) == v :: (x, y)
  }

  lemma {:induction false} RowCounts(c: Census, v: int, x: int, y0: int, y1: int)
    requires y0 <= y1
    ensures RowSum(HasValue(c, v), x, y0, y1) == |RowPixels(c, v, x, y0, y1)| as real
    decreases y1 - y0
  {
    if y0 < y1 {
      RowCounts(c, v, x, y0, y1 - 1);
      var more := if c(x, y1 - 1) == v then {(x, y1 - 1)} else {};
      assert RowPixels(c, v, x, y0, y1) == RowPixels(c, v, x, y0, y1 - 1) + more;
      assert RowPixels(c, v, x, y0, y1 - 1) !! more;
    }
  }

  lemma {:induction false} RectCounts(c: Census, v: int, x0: int, x1: int, y0: int, y1: int)
    requires x0 <= x1 && y0 <= y1
    ensures RectSum(HasValue(c, v), x0, x1, y0, y1) == |RectPixels(c, v, x0, x1, y0, y1)| as real
    decreases x1 - x0
  {
    if x0 < x1 {
      RectCounts(c, v, x0, x1 - 1, y0, y1);
      RowCounts(c, v, x1 - 1, y0, y1);
      assert RectPixels(c, v, x0, x1, y0, y1)
        == RectPixels(c, v, x0, x1 - 1, y0, y1) + RowPixels(c, v, x1 - 1, y0, y1);
      assert RectPixels(c, v, x0, x1 - 1, y0, y1) !! RowPixels(c, v, x1 - 1, y0, y1);
    }
  }

  // ----- the cells

  /** The pixels of cell (k, t) of the window at (i, j) that have census value v, as FastScan visits them. */
  function CellValues(sc: Scanner, c: Census, i: int, j: int, k: int, t: int, v: int): set<(int, int)>
    requires sc.xdiv > 0 && sc.ydiv > 0
  {
    set x, y |
      i + k * (sc.height / sc.xdiv) < x < i + (k + 2) * (sc.height / sc.xdiv) - 1
      && j + t * (sc.width / sc.ydiv) < y < j + (t + 2) * (sc.width / sc.ydiv) - 1
      && c(x, y) == v :: (x, y)
  }

  lemma CountIsSet(sc: Scanner, c: Census, i: int, j: int, k: int, t: int, v: int)
    requires sc.Valid()
    ensures PixelCount(sc, c, i, j, k, t, v) == |CellValues(sc, c, i, j, k, t, v)| as real
  {
    hide RectSum, RectPixels;
    var x, y := i + 1 + k * sc.BlockH(), j + 1 + t * sc.BlockW();
    RectCounts(c, v, x, x + sc.CellH(), y, y + sc.CellW());
    CellIsRect(sc, c, i, j, k, t, v);
  }

  lemma CellIsRect(sc: Scanner, c: Census, i: int, j: int, k: int, t: int, v: int)
    requires sc.Valid()
    ensures var x, y := i + 1 + k * sc.BlockH(), j + 1 + t * sc.BlockW();
      CellValues(sc, c, i, j, k, t, v) == RectPixels(c, v, x, x + sc.CellH(), y, y + sc.CellW())
  {
    var bh, bw := sc.height / sc.xdiv, sc.width / sc.ydiv;
    assert (k + 2) * bh == k * bh + 2 * bh;
    assert (t + 2) * bw == t * bw + 2 * bw;
  }

  /** Every bin of the histogram holds the number of pixels of its cell that have its census value. */
  lemma BinIsPixelCount(sc: Scanner, c: Census, i: int, j: int, h: seq<nat>, k: int, t: int, v: int)
    requires sc.Valid() && CensusIn(sc, c, i, j) && Histogram(sc, c, i, j, h)
    requires 0 <= k < sc.xdiv - 1 && 0 <= t < sc.ydiv - 1 && 0 <= v < sc.base
    ensures var b := (k * (sc.ydiv - 1) + t) * sc.base + v;
      0 <= b < |h| && h[b] == |CellValues(sc, c, i, j, k, t, v)|
  {
    hide PixelCount, CellValues, Histogram, CensusIn;
    BinHoldsCount(sc, c, i, j, h, k, t, v);
    CountIsSet(sc, c, i, j, k, t, v);
  }

  /** Where a whole cell has one value, the count is the size of the cell. */
  lemma FlatCell(sc: Scanner, c: Census, i: int, j: int, k: int, t: int, v: int)
    requires sc.Valid() && forall x, y :: c(x, y) == v
    ensures |CellValues(sc, c, i, j, k, t, v)| == (2 * (sc.height / sc.xdiv) - 2) * (2 * (sc.width / sc.ydiv) - 2)
  {
    hide RectSum, CellValues;
    var x, y := i + 1 + k * sc.BlockH(), j + 1 + t * sc.BlockW();
    CountIsSet(sc, c, i, j, k, t, v);
    RectConst(HasValue(c, v), 1.0, x, x + sc.CellH(), y, y + sc.CellW());
    RealProduct(sc.CellH(), sc.CellW());
  }

  lemma RealProduct(a: int, b: int)
    ensures a as real * (b as real * 1.0) == (a * b) as real
  {
  }

  // ----- nothing is counted twice or lost

  function Total(h: seq<nat>): nat {
    if h == [] then 0 else Total(h[..|h| - 1]) + h[|h| - 1]
  }

  function Ones(n: nat): (w: seq<real>)
    ensures |w| == n && forall i | 0 <= i < n :: w[i] == 1.0
  {
    seq(n, i => 1.0)
  }

  lemma {:induction false} DotOnes(h: seq<nat>)
    ensures Dot(Ones(|h|), h) == Total(h) as real
  {
    if h != [] {
      var n := |h| - 1;
      assert Ones(|h|)[..n] == Ones(n);
      DotOnes(h[..n]);
    }
  }

  lemma CellUnderOnes(sc: Scanner, c: Census, i: int, j: int, k: int, t: int)
    requires sc.Valid() && CensusIn(sc, c, i, j) && 0 <= k < sc.xdiv - 1 && 0 <= t < sc.ydiv - 1
    ensures CellSums(Weighing(sc, Ones(|sc.weights|)), c, i, j)(k, t)
      == ((2 * (sc.height / sc.xdiv) - 2) * (2 * (sc.width / sc.ydiv) - 2)) as real
  {
    hide RectSum;
    var p := CellPixels(Weighing(sc, Ones(|sc.weights|)), c, k, t);
    var x0, y0 := i + 1 + k * sc.BlockH(), j + 1 + t * sc.BlockW();
    CellFits(sc, k, t);
    WindowHoldsCell(sc.height, sc.xdiv, k);
    WindowHoldsCell(sc.width, sc.ydiv, t);
    RectConst(p, 1.0, x0, x0 + sc.CellH(), y0, y0 + sc.CellW());
    RealProduct(sc.CellH(), sc.CellW());
  }

  /** All bins together hold every pixel of every cell once. */
  lemma AllPixelsCounted(sc: Scanner, c: Census, i: int, j: int, h: seq<nat>)
    requires sc.Valid() && CensusIn(sc, c, i, j) && Histogram(sc, c, i, j, h)
    ensures Total(h) == (sc.xdiv - 1) * (sc.ydiv - 1)
                        * ((2 * (sc.height / sc.xdiv) - 2) * (2 * (sc.width / sc.ydiv) - 2))
  {
    hide RectSum, Dot, CellSums, CensusIn, Total;
    var cell := (2 * (sc.height / sc.xdiv) - 2) * (2 * (sc.width / sc.ydiv) - 2);
    var os := Weighing(sc, Ones(|h|));
    DotOnes(h);
    forall k, t | 0 <= k < sc.xdiv - 1 && 0 <= t < sc.ydiv - 1
      ensures CellSums(os, c, i, j)(k, t) == cell as real
    {
      CellUnderOnes(sc, c, i, j, k, t);
    }
    RectConst(CellSums(os, c, i, j), cell as real, 0, sc.xdiv - 1, 0, sc.ydiv - 1);
    assert Dot(Ones(|h|), h) == WindowSum(os, c, i, j);
    RealProducts(sc.xdiv - 1, sc.ydiv - 1, cell);
  }

  lemma RealProducts(a: int, b: int, c: int)
    ensures a as real * (b as real * c as real) == (a * b * c) as real
  {
  }

  /** One bin of the histogram that is built for a scanned window. */
  method ReadBin(sc: Scanner, ct: array2<int>, i: int, j: int, k: int, t: int, v: int, ghost c: Census) returns (n: nat)
    requires sc.Valid() && CensusOk(sc, c, ct)
    requires 2 <= i < ct.Length0 - 2 - sc.height && 2 <= j < ct.Length1 - 2 - sc.width
    requires 0 <= k < sc.xdiv - 1 && 0 <= t < sc.ydiv - 1 && 0 <= v < sc.base
    ensures n == |CellValues(sc, c, i, j, k, t, v)|
  {
    hide Histogram, CellValues, CensusIn, CensusOk;
    var hist := BuildHistogram(sc, ct, i, j, c);
    ScannedHasCensus(sc, c, ct, i, j);
    BinIsPixelCount(sc, c, i, j, hist[..], k, t, v);
    n := hist[(k * (sc.ydiv - 1) + t) * sc.base + v];
  }

  /** The detector's own window, 108 by 36 in 9 by 4 blocks: a flat cell fills one bin with 352. */
  lemma FlatWindow(sc: Scanner, c: Census, i: int, j: int, h: seq<nat>, k: int, t: int)
    requires sc.Valid() && sc.height == 108 && sc.width == 36 && sc.xdiv == 9 && sc.ydiv == 4 && sc.base == 256
    requires (forall x, y :: c(x, y) == 255) && Histogram(sc, c, i, j, h) && 0 <= k < 8 && 0 <= t < 3
    ensures |h| == 6144 && h[(k * 3 + t) * 256 + 255] == 352
  {
    hide CellValues, Histogram;
    BinIsPixelCount(sc, c, i, j, h, k, t, 255);
    FlatCell(sc, c, i, j, k, t, 255);
    HistogramSize(sc, c, i, j, h);
  }

  lemma HistogramSize(sc: Scanner, c: Census, i: int, j: int, h: seq<nat>)
    requires sc.Valid() && Histogram(sc, c, i, j, h)
    ensures |h| == (sc.xdiv - 1) * (sc.ydiv - 1) * sc.base
  {
    assert ((sc.xdiv - 1) * (sc.ydiv - 1) + 0) * sc.base == (sc.xdiv - 1) * (sc.ydiv - 1) * sc.base;
  }
}
