/** The loops that fill the score image, turn it into window scores in place, and count histograms. */
module WindowScan {
  import opened Sums
  import opened Scoring

  // ----- IntImage::CalcIntegralImageInPlace

  ghost predicate Raw(a: array2<real>, x: int, f: Image)
    requires 0 <= x < a.Length0
    reads a
  {
    forall y | 0 <= y < a.Length1 :: a[x, y] == f(x, y)
  }

  ghost predicate Summed(a: array2<real>, x: int, f: Image)
    requires 0 <= x < a.Length0
    reads a
  {
    forall y | 0 <= y < a.Length1 :: a[x, y] == RectSum(f, 0, x + 1, 0, y + 1)
  }

  method SumFirstRow(a: array2<real>, ghost f: Image)
    requires a.Length0 > 0 && a.Length1 > 0 && Raw(a, 0, f)
    modifies a
    ensures Summed(a, 0, f)
    ensures forall x, y | 0 < x < a.Length0 && 0 <= y < a.Length1 :: a[x, y] == old(a[x, y])
  {
    for i := 1 to a.Length1
      invariant forall y | 0 <= y < i :: a[0, y] == RowSum(f, 0, 0, y + 1)
      invariant forall y | i <= y < a.Length1 :: a[0, y] == f(0, y)
      invariant forall x, y | 0 < x < a.Length0 && 0 <= y < a.Length1 :: a[x, y] == old(a[x, y])
    {
      a[0, i] := a[0, i] + a[0, i - 1];
    }
    forall y | 0 <= y < a.Length1 ensures a[0, y] == RectSum(f, 0, 1, 0, y + 1) {
      assert RectSum(f, 0, 0, 0, y + 1) == 0.0;
    }
  }

  method SumNextRow(a: array2<real>, i: int, ghost f: Image)
    requires 0 < i < a.Length0 && Summed(a, i - 1, f) && Raw(a, i, f)
    modifies a
    ensures Summed(a, i, f)
    ensures forall x, y | 0 <= x < a.Length0 && x != i && 0 <= y < a.Length1 :: a[x, y] == old(a[x, y])
  {
    var partial := 0.0;
    for j := 0 to a.Length1
      invariant partial == RowSum(f, i, 0, j)
      invariant forall y | 0 <= y < j :: a[i, y] == RectSum(f, 0, i + 1, 0, y + 1)
      invariant forall y | j <= y < a.Length1 :: a[i, y] == f(i, y)
      invariant forall x, y | 0 <= x < a.Length0 && x != i && 0 <= y < a.Length1 :: a[x, y] == old(a[x, y])
      invariant Summed(a, i - 1, f)
    {
      partial := partial + a[i, j];
      a[i, j] := a[i - 1, j] + partial;
    }
  }

  /** Every pixel ends up as the sum of the original image above and left of it, itself included. */
  method IntegralImageInPlace(a: array2<real>, ghost f: Image)
    requires a.Length0 > 0 && a.Length1 > 0
    requires forall x, y | 0 <= x < a.Length0 && 0 <= y < a.Length1 :: a[x, y] == f(x, y)
    modifies a
    ensures forall x, y | 0 <= x < a.Length0 && 0 <= y < a.Length1 :: a[x, y] == RectSum(f, 0, x + 1, 0, y + 1)
  {
    SumFirstRow(a, f);
    for i := 1 to a.Length0
      invariant forall x, y | 0 <= x < i && 0 <= y < a.Length1 :: a[x, y] == RectSum(f, 0, x + 1, 0, y + 1)
      invariant forall x, y | i <= x < a.Length0 && 0 <= y < a.Length1 :: a[x, y] == f(x, y)
    {
      SumNextRow(a, i, f);
    }
  }

  // ----- the accumulation loops of InitIntegralImages

  /** Add the weights of one cell to every pixel they belong to. */
  method AddCell(sc: Scanner, scores: array2<real>, ct: array2<int>, ghost c: Census, k: int, t: int, offset: int)
    requires sc.Valid() && 0 <= k < sc.xdiv - 1 && 0 <= t < sc.ydiv - 1 && offset == sc.CellOffset(k, t)
    requires scores.Length0 == ct.Length0 && scores.Length1 == ct.Length1 && CensusOk(sc, c, ct)
    modifies scores
    ensures var g := Shares(sc, c, ct.Length0, ct.Length1);
      forall x, y | 0 <= x < ct.Length0 && 0 <= y < ct.Length1 :: scores[x, y] == old(scores[x, y]) + g(k, t, x, y)
  {
    CellFits(sc, k, t);
    WindowHoldsCell(sc.height, sc.xdiv, k);
    WindowHoldsCell(sc.width, sc.ydiv, t);
    var dx, dy := k * sc.BlockH(), t * sc.BlockW();
    ghost var m := Member(Shares(sc, c, ct.Length0, ct.Length1), k, t);
    var x := 2;
    while x < ct.Length0 - 2 - dx
      invariant 2 <= x
      invariant forall a, b | 0 <= a < ct.Length0 && 0 <= b < ct.Length1 ::
        scores[a, b] == old(scores[a, b]) + if a < x then m(a, b) else 0.0
    {
      var y := 2;
      while y < ct.Length1 - 2 - dy
        invariant 2 <= y
        invariant forall a, b | 0 <= a < ct.Length0 && 0 <= b < ct.Length1 ::
          scores[a, b] == old(scores[a, b]) + if a < x || (a == x && b < y) then m(a, b) else 0.0
      {
        assert Inside(x + dx, y + dy, ct.Length0, ct.Length1);
        var v := ct[x + dx, y + dy];
        assert v == c(x + dx, y + dy);
        assert m(x, y) == CellPixels(sc, c, k, t)(x + dx, y + dy);
        assert m(x, y) == sc.weights[offset + v];
        scores[x, y] := scores[x, y] + sc.weights[offset + v];
        y := y + 1;
      }
      x := x + 1;
    }
  }

  method FillScores(sc: Scanner, scores: array2<real>, ct: array2<int>, ghost c: Census)
    requires sc.Valid()
    requires scores.Length0 == ct.Length0 && scores.Length1 == ct.Length1 && CensusOk(sc, c, ct)
    modifies scores
    ensures var f := ScoreImage(sc, c, ct.Length0, ct.Length1);
      forall x, y | 0 <= x < ct.Length0 && 0 <= y < ct.Length1 :: scores[x, y] == f(x, y)
  {
    var init := PerPixel(sc);
    forall x, y | 0 <= x < scores.Length0 && 0 <= y < scores.Length1 {
      scores[x, y] := init;
    }
    ghost var g := Shares(sc, c, ct.Length0, ct.Length1);
    var offset := 0;
    for k := 0 to sc.xdiv - 1
      invariant offset == sc.CellOffset(k, 0)
      invariant forall x, y | 0 <= x < ct.Length0 && 0 <= y < ct.Length1 ::
        scores[x, y] == init + RectSum(AtPixel(g, x, y), 0, k, 0, sc.ydiv - 1)
    {
      for t := 0 to sc.ydiv - 1
        invariant offset == sc.CellOffset(k, t)
        invariant forall x, y | 0 <= x < ct.Length0 && 0 <= y < ct.Length1 ::
          scores[x, y] == init + RectSum(AtPixel(g, x, y), 0, k, 0, sc.ydiv - 1) + RowSum(AtPixel(g, x, y), k, 0, t)
      {
        AddCell(sc, scores, ct, c, k, t, offset);
        CellAfter(sc, k, t);
        offset := offset + sc.base;
      }
      CellAfter(sc, k, 0);
    }
  }

  // ----- the corner differences of InitIntegralImages

  predicate OnGrid(i: int, step: int)
    requires step > 0
  {
    i >= 2 && (i - 2) % step == 0
  }

  /** The positions scanned along an axis are 2, 2 + step, 2 + 2 * step and so on. */
  lemma GridIs(i: int, step: int)
    requires step > 0
    ensures OnGrid(i, step) <==> exists q: nat :: i == 2 + q * step
  {
    if OnGrid(i, step) {
      var q: nat := (i - 2) / step;
      assert i == 2 + q * step;
    }
    if q: nat :| i == 2 + q * step {
      MulMono(0, q, step);
      RemainderIs(i - 2, q, step, 0);
    }
  }

  /** Between two neighbouring grid lines there is none. */
  lemma GridGap(i: int, i': int, step: int)
    requires step > 0 && OnGrid(i, step) && i < i' <= i + step
    ensures OnGrid(i', step) <==> i' == i + step
  {
    var q := (i - 2) / step;
    assert i - 2 == q * step;
    if i' == i + step {
      RemainderIs(i' - 2, q + 1, step, 0);
    } else {
      RemainderIs(i' - 2, q, step, i' - i);
    }
  }

  lemma RemainderIs(n: int, q: int, d: int, r: int)
    requires d > 0 && 0 <= r < d && n == q * d + r
    ensures n % d == r
  {
    var q', r' := n / d, n % d;
    assert (q - q') * d == r' - r;
    if q - q' >= 1 {
      MulMono(1, q - q', d);
    } else if q - q' <= -1 {
      MulMono(q - q', -1, d);
    }
  }

  /** The scanned pixels of row i before column limit hold the sum of the cell-sized rectangle at each. */
  ghost predicate Differenced(sc: Scanner, scores: array2<real>, f: Image, step: int, i: int, limit: int)
    requires sc.Valid() && step > 0 && 0 <= i < scores.Length0
    reads scores
  {
    forall j | OnGrid(j, step) && j < scores.Length1 - 2 - sc.width && j < limit ::
      scores[i, j] == RectSum(f, i + 1, i + 1 + sc.CellH(), j + 1, j + 1 + sc.CellW())
  }

  lemma GridStart(i: int, step: int)
    requires step > 0 && OnGrid(i, step)
    ensures i >= 2
  {
  }

  /** The pixel is still its prefix sum, and so are the three corners it is combined with. */
  method CornerPixel(scores: array2<real>, i: nat, j: nat, hd: nat, wd: nat, ghost f: Image)
    requires i + hd < scores.Length0 && j + wd < scores.Length1
    requires scores[i, j] == RectSum(f, 0, i + 1, 0, j + 1)
    requires scores[i, j + wd] == RectSum(f, 0, i + 1, 0, j + wd + 1)
    requires scores[i + hd, j] == RectSum(f, 0, i + hd + 1, 0, j + 1)
    requires scores[i + hd, j + wd] == RectSum(f, 0, i + hd + 1, 0, j + wd + 1)
    modifies scores
    ensures scores[i, j] == RectSum(f, i + 1, i + 1 + hd, j + 1, j + 1 + wd)
    ensures forall x, y | 0 <= x < scores.Length0 && 0 <= y < scores.Length1 && (x, y) != (i, j) :: scores[x, y] == old(scores[x, y])
  {
    FourCorners(f, i + 1, i + 1 + hd, j + 1, j + 1 + wd);
    scores[i, j] := scores[i, j] + (scores[i + hd, j + wd] - scores[i + hd, j] - scores[i, j + wd]);
  }

  /** One scanned row: each grid pixel is replaced by its four-corner difference, left to right. */
  method CornerRow(sc: Scanner, scores: array2<real>, i: int, step: int, ghost f: Image)
    requires sc.Valid() && step > 0 && 2 <= i && i + sc.CellH() < scores.Length0
    requires Summed(scores, i, f) && Summed(scores, i + sc.CellH(), f)
    modifies scores
    ensures forall x, y | 0 <= x < scores.Length0 && 0 <= y < scores.Length1 && x != i :: scores[x, y] == old(scores[x, y])
    ensures Differenced(sc, scores, f, step, i, scores.Length1)
  {
    var hd, wd := sc.CellH(), sc.CellW();
    WindowHoldsCell(sc.width, sc.ydiv, 0);
    var j := 2;
    assert OnGrid(j, step);
    hide OnGrid, RectSum;
    while j < scores.Length1 - 2 - sc.width
      invariant OnGrid(j, step)
      invariant Differenced(sc, scores, f, step, i, j)
      invariant forall x, y | 0 <= x < scores.Length0 && 0 <= y < scores.Length1 && (x != i || y >= j) ::
        scores[x, y] == old(scores[x, y])
    {
      GridStart(j, step);
      CornerPixel(scores, i, j, hd, wd, f);
      forall y | j < y <= j + step ensures OnGrid(y, step) <==> y == j + step {
        GridGap(j, y, step);
      }
      j := j + step;
    }
  }

  /** All scanned rows, top to bottom; a row below the current one is still the integral image. */
  method CornerDifferences(sc: Scanner, scores: array2<real>, step: int, ghost f: Image)
    requires sc.Valid() && step > 0
    requires forall x, y | 0 <= x < scores.Length0 && 0 <= y < scores.Length1 :: scores[x, y] == RectSum(f, 0, x + 1, 0, y + 1)
    modifies scores
    ensures forall i | OnGrid(i, step) && i < scores.Length0 - 2 - sc.height :: Differenced(sc, scores, f, step, i, scores.Length1)
  {
    WindowHoldsCell(sc.height, sc.xdiv, 0);
    var i := 2;
    while i < scores.Length0 - 2 - sc.height
      invariant OnGrid(i, step)
      invariant forall x | OnGrid(x, step) && x < i && x < scores.Length0 - 2 - sc.height ::
        Differenced(sc, scores, f, step, x, scores.Length1)
      invariant forall x, y | i <= x < scores.Length0 && 0 <= y < scores.Length1 :: scores[x, y] == RectSum(f, 0, x + 1, 0, y + 1)
    {
      label Before:
      CornerRow(sc, scores, i, step, f);
      forall x | OnGrid(x, step) && x < i
        ensures Differenced(sc, scores, f, step, x, scores.Length1)
      {
        assert old@Before(Differenced(sc, scores, f, step, x, scores.Length1));
      }
      forall x | i < x <= i + step ensures OnGrid(x, step) <==> x == i + step {
        GridGap(i, x, step);
      }
      i := i + step;
    }
  }

  /** The score left at every scanned position is the threshold plus what the window is worth. */
  ghost predicate Scored(sc: Scanner, scores: array2<real>, c: Census, step: int)
    requires sc.Valid() && step > 0
    reads scores
  {
    forall i, j | OnGrid(i, step) && OnGrid(j, step)
      && i < scores.Length0 - 2 - sc.height && j < scores.Length1 - 2 - sc.width ::
      scores[i, j] == sc.thresh + WindowSum(sc, c, i, j)
  }

  lemma DifferencedIsScored(sc: Scanner, scores: array2<real>, c: Census, step: int)
    requires sc.Valid() && step > 0
    requires forall i | OnGrid(i, step) && i < scores.Length0 - 2 - sc.height ::
      Differenced(sc, scores, ScoreImage(sc, c, scores.Length0, scores.Length1), step, i, scores.Length1)
    ensures Scored(sc, scores, c, step)
  {
    hide ScoreImage, WindowSum;
    forall i, j | OnGrid(i, step) && OnGrid(j, step)
      && i < scores.Length0 - 2 - sc.height && j < scores.Length1 - 2 - sc.width
      ensures scores[i, j] == sc.thresh + WindowSum(sc, c, i, j)
    {
      assert Differenced(sc, scores, ScoreImage(sc, c, scores.Length0, scores.Length1), step, i, scores.Length1);
      WindowIsRectangle(sc, c, scores.Length0, scores.Length1, i, j);
    }
  }

  /** InitIntegralImages, for a linear first node. */
  method InitIntegralImages(sc: Scanner, scores: array2<real>, ct: array2<int>, step: int, ghost c: Census)
    requires sc.Valid() && step > 0 && ct.Length0 > 0 && ct.Length1 > 0
    requires scores.Length0 == ct.Length0 && scores.Length1 == ct.Length1 && CensusOk(sc, c, ct)
    modifies scores
    ensures Scored(sc, scores, c, step)
  {
    hide Shares, ScoreImage, Differenced, Scored, OnGrid;
    FillScores(sc, scores, ct, c);
    ghost var f := ScoreImage(sc, c, ct.Length0, ct.Length1);
    IntegralImageInPlace(scores, f);
    CornerDifferences(sc, scores, step, f);
    DifferencedIsScored(sc, scores, c, step);
  }

  // ----- the histogram of FastScan

  function Dot(w: seq<real>, h: seq<nat>): real
    requires |w| == |h|
  {
    if w == [] then 0.0 else Dot(w[..|w| - 1], h[..|h| - 1]) + w[|w| - 1] * h[|h| - 1] as real
  }

  lemma {:induction false} DotZero(w: seq<real>, h: seq<nat>)
    requires |w| == |h| && forall b | 0 <= b < |h| :: h[b] == 0
    ensures Dot(w, h) == 0.0
  {
    if w != [] {
      DotZero(w[..|w| - 1], h[..|h| - 1]);
    }
  }

  /** Counting one more pixel in bin b adds the weight of bin b. */
  lemma {:induction false} DotBump(w: seq<real>, h: seq<nat>, b: nat)
    requires |w| == |h| && b < |h|
    ensures Dot(w, h[b := h[b] + 1]) == Dot(w, h) + w[b]
  {
    var n := |w| - 1;
    var h' := h[b := h[b] + 1];
    if b < n {
      assert h'[..n] == h[..n][b := h[..n][b] + 1];
      DotBump(w[..n], h[..n], b);
    } else {
      assert h'[..n] == h[..n];
      assert w[n] * (h[n] + 1) as real == w[n] * h[n] as real + w[n];
    }
  }

  /** The scanner with other weights. */
  function Weighing(sc: Scanner, w: seq<real>): Scanner {
    sc.(weights := w)
  }

  /**
   Going from h to h' has counted the given image: whatever the weights, the dot product has
   grown by the image's sum under them.
   */
  ghost predicate Counted(h: seq<nat>, h': seq<nat>, sum: seq<real> -> real) {
    |h| == |h'| && forall w: seq<real> | |w| == |h| :: Dot(w, h') == Dot(w, h) + sum(w)
  }

  function RowUnder(sc: Scanner, c: Census, k: int, t: int, x: int, y0: int, y1: int): seq<real> -> real
    requires y0 <= y1
  {
    w => RowSum(CellPixels(Weighing(sc, w), c, k, t), x, y0, y1)
  }

  function RectUnder(sc: Scanner, c: Census, k: int, t: int, x0: int, x1: int, y0: int, y1: int): seq<real> -> real
    requires x0 <= x1 && y0 <= y1
  {
    w => RectSum(CellPixels(Weighing(sc, w), c, k, t), x0, x1, y0, y1)
  }

  /** One more pixel of the row, in the bin of its census value. */
  lemma CountPixel(sc: Scanner, c: Census, k: int, t: int, x: int, y0: int, y: int, h0: seq<nat>, h: seq<nat>, b: nat)
    requires y0 <= y && b == sc.CellOffset(k, t) + c(x, y) < |h|
    requires Counted(h0, h, RowUnder(sc, c, k, t, x, y0, y))
    ensures Counted(h0, h[b := h[b] + 1], RowUnder(sc, c, k, t, x, y0, y + 1))
  {
    hide Dot;
    forall w: seq<real> | |w| == |h|
      ensures Dot(w, h[b := h[b] + 1]) == Dot(w, h0) + RowUnder(sc, c, k, t, x, y0, y + 1)(w)
    {
      DotBump(w, h, b);
      assert Dot(w, h) == Dot(w, h0) + RowUnder(sc, c, k, t, x, y0, y)(w);
      assert CellPixels(Weighing(sc, w), c, k, t)(x, y) == w[b];
    }
  }

  /** Count one row of a cell's pixels into its bins. */
  method CountRow(sc: Scanner, hist: array<nat>, ct: array2<int>, ghost c: Census, ghost k: int, ghost t: int,
                  x: int, y0: int, y1: int, offset: int)
    requires 0 <= x < ct.Length0 && 0 <= y0 <= y1 <= ct.Length1 && offset == sc.CellOffset(k, t) >= 0
    requires forall y | y0 <= y < y1 :: ct[x, y] == c(x, y) && 0 <= c(x, y) && offset + c(x, y) < hist.Length
    modifies hist
    ensures Counted(old(hist[..]), hist[..], RowUnder(sc, c, k, t, x, y0, y1))
  {
    hide Dot, Counted;
    ghost var h0 := hist[..];
    CountNothing(sc, c, k, t, x, y0, h0);
    for y := y0 to y1
      invariant Counted(h0, hist[..], RowUnder(sc, c, k, t, x, y0, y))
    {
      var b := offset + ct[x, y];
      ghost var h := hist[..];
      CountPixel(sc, c, k, t, x, y0, y, h0, h, b);
      hist[b] := hist[b] + 1;
      assert hist[..] == h[b := h[b] + 1];
    }
  }

  lemma CountNothing(sc: Scanner, c: Census, k: int, t: int, x: int, y: int, h: seq<nat>)
    ensures Counted(h, h, RowUnder(sc, c, k, t, x, y, y))
  {
    hide Dot;
  }

  lemma CountNoRow(sc: Scanner, c: Census, k: int, t: int, x: int, y0: int, y1: int, h: seq<nat>)
    requires y0 <= y1
    ensures Counted(h, h, RectUnder(sc, c, k, t, x, x, y0, y1))
  {
    hide Dot;
  }

  lemma CountOneRow(sc: Scanner, c: Census, k: int, t: int, x0: int, x: int, y0: int, y1: int,
                    h0: seq<nat>, h: seq<nat>, h': seq<nat>)
    requires x0 <= x && y0 <= y1
    requires Counted(h0, h, RectUnder(sc, c, k, t, x0, x, y0, y1))
    requires Counted(h, h', RowUnder(sc, c, k, t, x, y0, y1))
    ensures Counted(h0, h', RectUnder(sc, c, k, t, x0, x + 1, y0, y1))
  {
    hide Dot;
    forall w: seq<real> | |w| == |h0|
      ensures Dot(w, h') == Dot(w, h0) + RectUnder(sc, c, k, t, x0, x + 1, y0, y1)(w)
    {
      assert Dot(w, h) == Dot(w, h0) + RectUnder(sc, c, k, t, x0, x, y0, y1)(w);
    }
  }

  /** What cell (k, t) of the window at (i, j) is worth, as a function of the weights. */
  function CellUnder(sc: Scanner, c: Census, i: int, j: int, k: int, t: int): seq<real> -> real
    requires sc.Valid()
  {
    RectUnder(sc, c, k, t, i + 1 + k * sc.BlockH(), i + 1 + k * sc.BlockH() + sc.CellH(),
              j + 1 + t * sc.BlockW(), j + 1 + t * sc.BlockW() + sc.CellW())
  }

  /** Count the pixels of one cell into its bins. */
  method CountCell(sc: Scanner, hist: array<nat>, ct: array2<int>, i: int, j: int, k: int, t: int, offset: int, ghost c: Census)
    requires sc.Valid() && hist.Length == |sc.weights| && CensusOk(sc, c, ct)
    requires 2 <= i < ct.Length0 - 2 - sc.height && 2 <= j < ct.Length1 - 2 - sc.width
    requires 0 <= k < sc.xdiv - 1 && 0 <= t < sc.ydiv - 1 && offset == sc.CellOffset(k, t)
    modifies hist
    ensures Counted(old(hist[..]), hist[..], CellUnder(sc, c, i, j, k, t))
  {
    hide Dot, Counted, RectUnder, RowUnder;
    CellFits(sc, k, t);
    WindowHoldsCell(sc.height, sc.xdiv, k);
    WindowHoldsCell(sc.width, sc.ydiv, t);
    var x0, y0 := i + 1 + k * sc.BlockH(), j + 1 + t * sc.BlockW();
    var x1, y1 := x0 + sc.CellH(), y0 + sc.CellW();
    ghost var h0 := hist[..];
    CountNoRow(sc, c, k, t, x0, y0, y1, h0);
    for x := x0 to x1
      invariant Counted(h0, hist[..], RectUnder(sc, c, k, t, x0, x, y0, y1))
    {
      assert forall y | y0 <= y < y1 :: Inside(x, y, ct.Length0, ct.Length1);
      ghost var h := hist[..];
      CountRow(sc, hist, ct, c, k, t, x, y0, y1, offset);
      CountOneRow(sc, c, k, t, x0, x, y0, y1, h0, h, hist[..]);
    }
  }

  /** h is the histogram of the window at (i, j): under all weights it is worth what the window is. */
  ghost predicate Histogram(sc: Scanner, c: Census, i: int, j: int, h: seq<nat>)
    requires sc.Valid()
  {
    |h| == |sc.weights| && forall w: seq<real> | |w| == |h| :: Dot(w, h) == WindowSum(Weighing(sc, w), c, i, j)
  }

  /** All cells before (k, t), row by row, have been counted. */
  ghost predicate CountedTo(sc: Scanner, c: Census, i: int, j: int, k: nat, t: nat, h: seq<nat>)
    requires sc.Valid()
  {
    && |h| == |sc.weights|
    && forall w: seq<real> | |w| == |h| :: Dot(w, h) == SumTo(Weighing(sc, w), c, i, j, k, t)
  }

  function SumTo(sc: Scanner, c: Census, i: int, j: int, k: nat, t: nat): real
    requires sc.Valid()
  {
    RectSum(CellSums(sc, c, i, j), 0, k, 0, sc.ydiv - 1) + RowSum(CellSums(sc, c, i, j), k, 0, t)
  }

  lemma SumToRules(sc: Scanner, c: Census, i: int, j: int, k: nat, t: nat)
    requires sc.Valid()
    ensures SumTo(sc, c, i, j, 0, 0) == 0.0
    ensures SumTo(sc, c, i, j, k, t + 1) == SumTo(sc, c, i, j, k, t) + CellSums(sc, c, i, j)(k, t)
    ensures SumTo(sc, c, i, j, k, sc.ydiv - 1) == SumTo(sc, c, i, j, k + 1, 0)
    ensures SumTo(sc, c, i, j, sc.xdiv - 1, 0) == WindowSum(sc, c, i, j)
  {
    hide CellSums;
  }

  lemma CellSumsUnder(sc: Scanner, c: Census, i: int, j: int, k: int, t: int, w: seq<real>)
    requires sc.Valid() && |w| == |sc.weights|
    ensures CellSums(Weighing(sc, w), c, i, j)(k, t) == CellUnder(sc, c, i, j, k, t)(w)
  {
  }

  lemma CountedNone(sc: Scanner, c: Census, i: int, j: int, h: seq<nat>)
    requires sc.Valid() && |h| == |sc.weights| && forall b | 0 <= b < |h| :: h[b] == 0
    ensures CountedTo(sc, c, i, j, 0, 0, h)
  {
    hide Dot, SumTo;
    forall w: seq<real> | |w| == |h| ensures Dot(w, h) == SumTo(Weighing(sc, w), c, i, j, 0, 0) {
      DotZero(w, h);
      SumToRules(Weighing(sc, w), c, i, j, 0, 0);
    }
  }

  lemma CountedOne(sc: Scanner, c: Census, i: int, j: int, k: nat, t: nat, h: seq<nat>, h': seq<nat>)
    requires sc.Valid() && CountedTo(sc, c, i, j, k, t, h) && Counted(h, h', CellUnder(sc, c, i, j, k, t))
    ensures CountedTo(sc, c, i, j, k, t + 1, h')
  {
    hide Dot, SumTo, CellUnder, CellSums;
    forall w: seq<real> | |w| == |h'| ensures Dot(w, h') == SumTo(Weighing(sc, w), c, i, j, k, t + 1) {
      assert Dot(w, h) == SumTo(Weighing(sc, w), c, i, j, k, t);
      SumToRules(Weighing(sc, w), c, i, j, k, t);
      CellSumsUnder(sc, c, i, j, k, t, w);
    }
  }

  lemma CountedRow(sc: Scanner, c: Census, i: int, j: int, k: nat, h: seq<nat>)
    requires sc.Valid() && CountedTo(sc, c, i, j, k, sc.ydiv - 1, h)
    ensures CountedTo(sc, c, i, j, k + 1, 0, h)
  {
    hide Dot, SumTo;
    forall w: seq<real> | |w| == |h| ensures Dot(w, h) == SumTo(Weighing(sc, w), c, i, j, k + 1, 0) {
      SumToRules(Weighing(sc, w), c, i, j, k, 0);
    }
  }

  lemma CountedAll(sc: Scanner, c: Census, i: int, j: int, h: seq<nat>)
    requires sc.Valid() && CountedTo(sc, c, i, j, sc.xdiv - 1, 0, h)
    ensures Histogram(sc, c, i, j, h)
  {
    hide Dot, SumTo, WindowSum;
    forall w: seq<real> | |w| == |h| ensures Dot(w, h) == WindowSum(Weighing(sc, w), c, i, j) {
      SumToRules(Weighing(sc, w), c, i, j, 0, 0);
    }
  }

  /** The histogram FastScan builds for the window at (i, j). */
  method BuildHistogram(sc: Scanner, ct: array2<int>, i: int, j: int, ghost c: Census) returns (hist: array<nat>)
    requires sc.Valid() && CensusOk(sc, c, ct)
    requires 2 <= i < ct.Length0 - 2 - sc.height && 2 <= j < ct.Length1 - 2 - sc.width
    ensures fresh(hist) && Histogram(sc, c, i, j, hist[..])
  {
    hide Counted, CountedTo, Histogram, CellUnder;
    hist := new nat[|sc.weights|](_ => 0);
    CountedNone(sc, c, i, j, hist[..]);
    var offset := 0;
    for k := 0 to sc.xdiv - 1
      invariant offset == sc.CellOffset(k, 0)
      invariant CountedTo(sc, c, i, j, k, 0, hist[..])
    {
      for t := 0 to sc.ydiv - 1
        invariant offset == sc.CellOffset(k, t)
        invariant CountedTo(sc, c, i, j, k, t, hist[..])
      {
        ghost var h := hist[..];
        CountCell(sc, hist, ct, i, j, k, t, offset, c);
        CountedOne(sc, c, i, j, k, t, h, hist[..]);
        CellAfter(sc, k, t);
        offset := offset + sc.base;
      }
      CountedRow(sc, c, i, j, k, hist[..]);
      CellAfter(sc, k, 0);
    }
    CountedAll(sc, c, i, j, hist[..]);
  }

  /**
   At a scanned position, the score the integral image left there is the threshold plus the dot
   product of the weights with the histogram built for that very window.
   */
  method ScanWindow(sc: Scanner, scores: array2<real>, ct: array2<int>, step: int, i: int, j: int, ghost c: Census)
    returns (score: real, hist: array<nat>)
    requires sc.Valid() && step > 0 && CensusOk(sc, c, ct) && Scored(sc, scores, c, step)
    requires scores.Length0 == ct.Length0 && scores.Length1 == ct.Length1
    requires OnGrid(i, step) && OnGrid(j, step)
    requires i + sc.height < ct.Length0 - 2 && j + sc.width < ct.Length1 - 2
    ensures score == scores[i, j] && fresh(hist) && Histogram(sc, c, i, j, hist[..])
    ensures score == sc.thresh + Dot(sc.weights, hist[..])
  {
    hide Dot, WindowSum;
    score := scores[i, j];
    hist := BuildHistogram(sc, ct, i, j, c);
    assert Weighing(sc, sc.weights) == sc;
    assert Dot(sc.weights, hist[..]) == WindowSum(Weighing(sc, sc.weights), c, i, j);
  }
}
