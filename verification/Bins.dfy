/** What each bin of a window's histogram holds: a count of pixels. */
module Bins {
  import opened Sums
  import opened Scoring
  import opened WindowScan

  /** n weights, all zero but for bin b. */
  function Unit(n: nat, b: int): (w: seq<real>)
    ensures |w| == n && forall i | 0 <= i < n :: w[i] == if i == b then 1.0 else 0.0
  {
    seq(n, i => if i == b then 1.0 else 0.0)
  }

  lemma {:induction false} DotUnit(h: seq<nat>, b: int)
    ensures Dot(Unit(|h|, b), h) == if 0 <= b < |h| then h[b] as real else 0.0
  {
    if h != [] {
      var n := |h| - 1;
      assert Unit(|h|, b)[..n] == Unit(n, b);
      DotUnit(h[..n], b);
    }
  }

  lemma {:induction false} RowOneHot(f: Image, x: int, c1: int, y: int, v: real)
    requires 0 <= c1 && forall t | 0 <= t < c1 :: f(x, t) == if t == y then v else 0.0
    ensures RowSum(f, x, 0, c1) == if 0 <= y < c1 then v else 0.0
    decreases c1
  {
    if c1 > 0 {
      RowOneHot(f, x, c1 - 1, y, v);
    }
  }

  lemma {:induction false} RectOneHot(f: Image, r1: int, c1: int, x: int, y: int, v: real)
    requires 0 <= r1 && 0 <= y < c1
    requires forall k, t | 0 <= k < r1 && 0 <= t < c1 :: f(k, t) == if k == x && t == y then v else 0.0
    ensures RectSum(f, 0, r1, 0, c1) == if 0 <= x < r1 then v else 0.0
    decreases r1
  {
    if r1 > 0 {
      RectOneHot(f, r1 - 1, c1, x, y, v);
      RowOneHot(f, r1 - 1, c1, y, if r1 - 1 == x then v else 0.0);
    }
  }

  lemma DigitsUnique(a: int, u: int, b: int, v: int, base: int)
    requires 0 <= u < base && 0 <= v < base
    ensures a * base + u == b * base + v <==> a == b && u == v
  {
    if a < b {
      MulMono(a + 1, b, base);
      assert (a + 1) * base == a * base + base;
    } else if b < a {
      MulMono(b + 1, a, base);
      assert (b + 1) * base == b * base + base;
    }
  }

  /** No two cells share a bin. */
  lemma BinsDisjoint(sc: Scanner, k: int, t: int, u: int, k': int, t': int, v: int)
    requires 0 <= t < sc.ydiv - 1 && 0 <= t' < sc.ydiv - 1 && 0 <= u < sc.base && 0 <= v < sc.base
    ensures sc.CellOffset(k, t) + u == sc.CellOffset(k', t') + v <==> k == k' && t == t' && u == v
  {
    var d := sc.ydiv - 1;
    DigitsUnique(k * d + t, u, k' * d + t', v, sc.base);
    DigitsUnique(k, t, k', t', d);
  }

  /** The pixels of the window at (i, j) have census values. */
  predicate CensusIn(sc: Scanner, c: Census, i: int, j: int) {
    forall x, y | i < x < i + sc.height && j < y < j + sc.width :: 0 <= c(x, y) < sc.base
  }

  /** One at the pixels with census value v. */
  function HasValue(c: Census, v: int): Image {
    (x, y) => if c(x, y) == v then 1.0 else 0.0
  }

  /** How many pixels of cell (k, t) have census value v. */
  function PixelCount(sc: Scanner, c: Census, i: int, j: int, k: int, t: int, v: int): real
    requires sc.Valid()
  {
    var x, y := i + 1 + k * sc.BlockH(), j + 1 + t * sc.BlockW();
    RectSum(HasValue(c, v), x, x + sc.CellH(), y, y + sc.CellW())
  }

  /** With all weight on the bin of value v in cell (k, t), any other cell is worth nothing. */
  lemma CellUnderUnit(sc: Scanner, c: Census, i: int, j: int, k: int, t: int, v: int, k': int, t': int)
    requires sc.Valid() && CensusIn(sc, c, i, j) && 0 <= v < sc.base
    requires 0 <= k < sc.xdiv - 1 && 0 <= t < sc.ydiv - 1 && 0 <= k' < sc.xdiv - 1 && 0 <= t' < sc.ydiv - 1
    ensures CellSums(Weighing(sc, Unit(|sc.weights|, sc.CellOffset(k, t) + v)), c, i, j)(k', t')
      == if k' == k && t' == t then PixelCount(sc, c, i, j, k, t, v) else 0.0
  {
    hide RectSum;
    var us := Weighing(sc, Unit(|sc.weights|, sc.CellOffset(k, t) + v));
    var p := CellPixels(us, c, k', t');
    var x0, y0 := i + 1 + k' * sc.BlockH(), j + 1 + t' * sc.BlockW();
    var x1, y1 := x0 + sc.CellH(), y0 + sc.CellW();
    CellFits(sc, k', t');
    WindowHoldsCell(sc.height, sc.xdiv, k');
    WindowHoldsCell(sc.width, sc.ydiv, t');
    forall x, y | x0 <= x < x1 && y0 <= y < y1
      ensures p(x, y) == if k' == k && t' == t && c(x, y) == v then 1.0 else 0.0
    {
      BinsDisjoint(sc, k', t', c(x, y), k, t, v);
    }
    if k' == k && t' == t {
      RectSame(p, HasValue(c, v), x0, x1, y0, y1);
    } else {
      RectZero(p, x0, x1, y0, y1);
    }
  }

  /** Every bin of a window's histogram holds the number of its cell's pixels with its census value. */
  lemma BinHoldsCount(sc: Scanner, c: Census, i: int, j: int, h: seq<nat>, k: int, t: int, v: int)
    requires sc.Valid() && CensusIn(sc, c, i, j) && Histogram(sc, c, i, j, h)
    requires 0 <= k < sc.xdiv - 1 && 0 <= t < sc.ydiv - 1 && 0 <= v < sc.base
    ensures var b := sc.CellOffset(k, t) + v; 0 <= b < |h| && h[b] as real == PixelCount(sc, c, i, j, k, t, v)
  {
    hide RectSum, Dot, PixelCount, CellSums;
    CellFits(sc, k, t);
    var b := sc.CellOffset(k, t) + v;
    var us := Weighing(sc, Unit(|h|, b));
    DotUnit(h, b);
    forall k', t' | 0 <= k' < sc.xdiv - 1 && 0 <= t' < sc.ydiv - 1
      ensures CellSums(us, c, i, j)(k', t') == if k' == k && t' == t then PixelCount(sc, c, i, j, k, t, v) else 0.0
    {
      CellUnderUnit(sc, c, i, j, k, t, v, k', t');
    }
    RectOneHot(CellSums(us, c, i, j), sc.xdiv - 1, sc.ydiv - 1, k, t, PixelCount(sc, c, i, j, k, t, v));
    assert Dot(Unit(|h|, b), h) == WindowSum(us, c, i, j);
  }

  /** A computed census image has values below the base in every scanned window. */
  lemma ScannedHasCensus(sc: Scanner, c: Census, ct: array2<int>, i: int, j: int)
    requires CensusOk(sc, c, ct)
    requires 2 <= i < ct.Length0 - 2 - sc.height && 2 <= j < ct.Length1 - 2 - sc.width
    ensures CensusIn(sc, c, i, j)
  {
    forall x, y | i < x < i + sc.height && j < y < j + sc.width ensures 0 <= c(x, y) < sc.base {
      assert Inside(x, y, ct.Length0, ct.Length1);
    }
  }

  /** So a window has one histogram, and the one that is built is it. */
  lemma HistogramUnique(sc: Scanner, c: Census, i: int, j: int, g: seq<nat>, h: seq<nat>)
    requires sc.Valid() && Histogram(sc, c, i, j, g) && Histogram(sc, c, i, j, h)
    ensures g == h
  {
    hide Dot, WindowSum;
    forall b | 0 <= b < |g| ensures g[b] == h[b] {
      var w := Unit(|g|, b);
      DotUnit(g, b);
      DotUnit(h, b);
      assert Dot(w, g) == WindowSum(Weighing(sc, w), c, i, j) == Dot(w, h);
    }
  }
}
