/** The census transform, and the whole way from a gradient image to window scores. */
module CensusTransform {
  import opened Sums
  import opened Scoring
  import opened WindowScan

  /** The centre is no larger than the neighbour at (dx, dy). */
  predicate Below(f: Image, x: int, y: int, dx: int, dy: int) {
    f(x, y) <= f(x + dx, y + dy)
  }

  function Flag(b: bool, v: int): int {
    if b then v else 0
  }

  function CensusIndex(f: Image, x: int, y: int): (r: int)
    ensures 0 <= r < 256
  {
    Flag(Below(f, x, y, -1, -1), 0x80) + Flag(Below(f, x, y, -1, 0), 0x40) + Flag(Below(f, x, y, -1, 1), 0x20)
    + Flag(Below(f, x, y, 0, -1), 0x10) + Flag(Below(f, x, y, 0, 1), 0x08)
    + Flag(Below(f, x, y, 1, -1), 0x04) + Flag(Below(f, x, y, 1, 0), 0x02) + Flag(Below(f, x, y, 1, 1), 0x01)
  }

  function CensusOf(f: Image): Census {
    (x, y) => CensusIndex(f, x, y)
  }

  predicate Neighbour(dx: int, dy: int) {
    -1 <= dx <= 1 && -1 <= dy <= 1 && (dx != 0 || dy != 0)
  }

  /** The index holds exactly the eight comparisons, so it depends on nothing but the order of values. */
  lemma IndexIsComparisons(f: Image, x: int, y: int, g: Image, u: int, v: int)
    ensures CensusIndex(f, x, y) == CensusIndex(g, u, v)
      <==> forall dx, dy | Neighbour(dx, dy) :: Below(f, x, y, dx, dy) == Below(g, u, v, dx, dy)
  {
    hide Below;
    if CensusIndex(f, x, y) == CensusIndex(g, u, v) {
      forall dx, dy | Neighbour(dx, dy) ensures Below(f, x, y, dx, dy) == Below(g, u, v, dx, dy) {
      }
    } else {
      assert Neighbour(-1, -1) && Neighbour(-1, 0) && Neighbour(-1, 1) && Neighbour(0, -1);
      assert Neighbour(0, 1) && Neighbour(1, -1) && Neighbour(1, 0) && Neighbour(1, 1);
    }
  }

  /** Which neighbour each bit of the index stands for, from the top left at 128 to the bottom right at 1. */
  lemma IndexBits(f: Image, x: int, y: int)
    ensures CensusIndex(f, x, y) ==
      (if f(x, y) <= f(x - 1, y - 1) then 128 else 0) + (if f(x, y) <= f(x - 1, y) then 64 else 0)
      + (if f(x, y) <= f(x - 1, y + 1) then 32 else 0) + (if f(x, y) <= f(x, y - 1) then 16 else 0)
      + (if f(x, y) <= f(x, y + 1) then 8 else 0) + (if f(x, y) <= f(x + 1, y - 1) then 4 else 0)
      + (if f(x, y) <= f(x + 1, y) then 2 else 0) + (if f(x, y) <= f(x + 1, y + 1) then 1 else 0)
  {
  }

  ghost predicate Holds(a: array2<real>, f: Image)
    reads a
  {
    forall x, y | 0 <= x < a.Length0 && 0 <= y < a.Length1 :: a[x, y] == f(x, y)
  }

  /** The index of one pixel, comparison by comparison. */
  method IndexAt(a: array2<real>, i: int, j: int, ghost f: Image) returns (index: int)
    requires 0 < i < a.Length0 - 1 && 0 < j < a.Length1 - 1 && Holds(a, f)
    ensures index == CensusIndex(f, i, j)
  {
    index := 0;
    if a[i, j] <= a[i - 1, j - 1] { index := index + 0x80; }
    if a[i, j] <= a[i - 1, j] { index := index + 0x40; }
    if a[i, j] <= a[i - 1, j + 1] { index := index + 0x20; }
    if a[i, j] <= a[i, j - 1] { index := index + 0x10; }
    if a[i, j] <= a[i, j + 1] { index := index + 0x08; }
    if a[i, j] <= a[i + 1, j - 1] { index := index + 0x04; }
    if a[i, j] <= a[i + 1, j] { index := index + 0x02; }
    if a[i, j] <= a[i + 1, j + 1] { index := index + 1; }
  }

  /** ComputeCT: the two-pixel border of ct keeps whatever was there. */
  method ComputeCT(a: array2<real>, ct: array2<int>, ghost f: Image)
    requires ct.Length0 == a.Length0 && ct.Length1 == a.Length1 && Holds(a, f)
    modifies ct
    ensures forall x, y | 0 <= x < ct.Length0 && 0 <= y < ct.Length1 ::
      ct[x, y] == if 2 <= x < ct.Length0 - 2 && 2 <= y < ct.Length1 - 2 then CensusIndex(f, x, y) else old(ct[x, y])
  {
    hide CensusIndex;
    var i := 2;
    while i < a.Length0 - 2
      invariant 2 <= i
      invariant forall x, y | 0 <= x < ct.Length0 && 0 <= y < ct.Length1 ::
        ct[x, y] == if Inside(x, y, ct.Length0, ct.Length1) && x < i then CensusIndex(f, x, y) else old(ct[x, y])
    {
      var j := 2;
      while j < a.Length1 - 2
        invariant 2 <= j
        invariant forall x, y | 0 <= x < ct.Length0 && 0 <= y < ct.Length1 ::
          ct[x, y] == if Inside(x, y, ct.Length0, ct.Length1) && (x < i || (x == i && y < j)) then CensusIndex(f, x, y)
                      else old(ct[x, y])
      {
        ct[i, j] := IndexAt(a, i, j, f);
        j := j + 1;
      }
      i := i + 1;
    }
  }

  /**
   From a gradient image, whatever was in ct and scores before: every scanned position of scores
   holds the threshold plus the worth of its window in the census image.
   */
  method ScoreWindows(sc: Scanner, a: array2<real>, ct: array2<int>, scores: array2<real>, step: int, ghost f: Image)
    requires sc.Valid() && sc.base >= 256 && step > 0 && a.Length0 > 0 && a.Length1 > 0 && Holds(a, f)
    requires ct.Length0 == scores.Length0 == a.Length0 && ct.Length1 == scores.Length1 == a.Length1
    requires a != scores
    modifies ct, scores
    ensures CensusOk(sc, CensusOf(f), ct) && Scored(sc, scores, CensusOf(f), step)
  {
    hide Scored, CensusIndex;
    ComputeCT(a, ct, f);
    InitIntegralImages(sc, scores, ct, step, CensusOf(f));
  }

  /**
   The whole way for one window: from a gradient image to a score that equals the threshold plus
   the dot product of the weights with the histogram of the window.
   */
  method ScanImage(sc: Scanner, a: array2<real>, ct: array2<int>, scores: array2<real>, step: int, i: int, j: int, ghost f: Image)
    returns (score: real, hist: array<nat>)
    requires sc.Valid() && sc.base >= 256 && step > 0 && a.Length0 > 0 && a.Length1 > 0 && Holds(a, f)
    requires ct.Length0 == scores.Length0 == a.Length0 && ct.Length1 == scores.Length1 == a.Length1
    requires a != scores && OnGrid(i, step) && OnGrid(j, step)
    requires i + sc.height < a.Length0 - 2 && j + sc.width < a.Length1 - 2
    modifies ct, scores
    ensures Histogram(sc, CensusOf(f), i, j, hist[..])
    ensures score == sc.thresh + Dot(sc.weights, hist[..])
  {
    hide Scored, CensusOk, Histogram, Dot;
    ScoreWindows(sc, a, ct, scores, step, f);
    score, hist := ScanWindow(sc, scores, ct, step, i, j, CensusOf(f));
  }
}
