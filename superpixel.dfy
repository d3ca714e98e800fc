/**
 * The native-pixel to super-pixel id mapping (`superID`): a 256 x 256 panel of
 * native pixels is cut into blocks of xdim x ydim pixels, each block becoming one
 * super-pixel. Ids are flat: id = panel * 65536 + i * 256 + j.
 */
module SuperPixel {
  import opened Arith

  /** Native pixels per panel along each axis, and per panel. */
  const Nx: int := 256
  const Ny: int := 256
  const NNat: int := 65536

  /**
   * The aggregation factors for which the floating-point arithmetic of the
   * source is exact: positive divisors of the native panel dimensions.
   */
  predicate ValidFactors(xdim: int, ydim: int) {
    0 < xdim && 0 < ydim && Nx % xdim == 0 && Ny % ydim == 0
  }

  /** `superNx * superNy`: super-pixels per panel. */
  function SuperCount(xdim: int, ydim: int): int
    requires ValidFactors(xdim, ydim)
  {
    (Nx / xdim) * (Ny / ydim)
  }

  /** `superID` on one native id. */
  function SuperId(nativeId: int, xdim: int, ydim: int): int
    requires ValidFactors(xdim, ydim)
  {
    var firstPix := (nativeId / NNat) * NNat;
    var redId := nativeId % NNat;
    var i := redId / Ny;
    var j := redId % Ny;
    var superi := i / xdim;
    var superj := j / ydim;
    var superNy := Ny / ydim;
    var superFirstPix := (firstPix / NNat) * SuperCount(xdim, ydim);
    superi * superNy + superj + superFirstPix
  }

  /** `superID` on a numpy array: applied to every element. */
  function SuperIds(nativeIds: seq<int>, xdim: int, ydim: int): (r: seq<int>)
    requires ValidFactors(xdim, ydim)
    ensures |r| == |nativeIds|
    ensures forall n :: 0 <= n < |r| ==> r[n] == SuperId(nativeIds[n], xdim, ydim)
  {
    seq(|nativeIds|, n requires 0 <= n < |nativeIds| => SuperId(nativeIds[n], xdim, ydim))
  }

  // ---------------------------------------------------------------------------
  // Range

  /** Under valid factors the super grid tiles the native panel exactly. */
  lemma SuperGrid(xdim: int, ydim: int)
    requires ValidFactors(xdim, ydim)
    ensures (Nx / xdim) * xdim == Nx && (Ny / ydim) * ydim == Ny
    ensures 0 < Nx / xdim && 0 < Ny / ydim && SuperCount(xdim, ydim) > 0
  {
  }

  /** Within one panel the super id is (i div xdim) * superNy + (j div ydim). */
  lemma SuperIdInPanel(nativeId: int, xdim: int, ydim: int)
    requires ValidFactors(xdim, ydim)
    ensures var redId := nativeId % NNat;
      && 0 <= (redId / Ny) / xdim < Nx / xdim
      && 0 <= (redId % Ny) / ydim < Ny / ydim
      && SuperId(nativeId, xdim, ydim)
         == ((redId / Ny) / xdim) * (Ny / ydim) + (redId % Ny) / ydim
            + (nativeId / NNat) * SuperCount(xdim, ydim)
  {
    SuperGrid(xdim, ydim);
    var redId := nativeId % NNat;
    DivBelow(redId / Ny, xdim, Nx / xdim);
    DivBelow(redId % Ny, ydim, Ny / ydim);
    assert (nativeId / NNat) * NNat / NNat == nativeId / NNat;
  }

  /** The super id of a native id in panel k lies in the k-th block of SuperCount ids. */
  lemma SuperIdRange(nativeId: int, xdim: int, ydim: int)
    requires ValidFactors(xdim, ydim)
    ensures var k := nativeId / NNat;
      k * SuperCount(xdim, ydim) <= SuperId(nativeId, xdim, ydim) < (k + 1) * SuperCount(xdim, ydim)
  {
    var k := nativeId / NNat;
    var redId := nativeId % NNat;
    SuperIdInPanel(nativeId, xdim, ydim);
    MulBelow((redId / Ny) / xdim, (redId % Ny) / ydim, Nx / xdim, Ny / ydim);
    assert (k + 1) * SuperCount(xdim, ydim) == k * SuperCount(xdim, ydim) + SuperCount(xdim, ydim);
  }

  /** Two worked values of the (8, 8) aggregation, and the first super id of panel 1. */
  lemma SuperIdExamples()
    ensures SuperId(0, 8, 8) == 0
    ensures SuperId(2048, 8, 8) == 32
    ensures SuperId(65536, 8, 8) == 1024
  {
  }

  /** Elementwise lifting distributes over concatenation: each element is mapped on its own. */
  lemma SuperIdsConcat(a: seq<int>, b: seq<int>, xdim: int, ydim: int)
    requires ValidFactors(xdim, ydim)
    ensures SuperIds(a + b, xdim, ydim) == SuperIds(a, xdim, ydim) + SuperIds(b, xdim, ydim)
  {
  }

  /** Relabelling an array from one panel gives ids in that panel's super-pixel block. */
  lemma SuperIdsWithinPanel(nativeIds: seq<int>, k: int, xdim: int, ydim: int)
    requires ValidFactors(xdim, ydim)
    requires forall n :: 0 <= n < |nativeIds| ==> k * NNat <= nativeIds[n] < (k + 1) * NNat
    ensures var r := SuperIds(nativeIds, xdim, ydim);
      forall n :: 0 <= n < |r| ==> k * SuperCount(xdim, ydim) <= r[n] < (k + 1) * SuperCount(xdim, ydim)
  {
    var r := SuperIds(nativeIds, xdim, ydim);
    forall n | 0 <= n < |r|
      ensures k * SuperCount(xdim, ydim) <= r[n] < (k + 1) * SuperCount(xdim, ydim)
    {
      DivIff(nativeIds[n], NNat, k);
      SuperIdRange(nativeIds[n], xdim, ydim);
    }
  }

  // ---------------------------------------------------------------------------
  // Fan-in: every super id of panel 0 is hit by exactly xdim * ydim native ids

  /** Super-pixel row and column of super id s. */
  function SuperRow(s: int, ydim: int): int
    requires 0 < ydim && Ny % ydim == 0
  {
    s / (Ny / ydim)
  }

  function SuperCol(s: int, ydim: int): int
    requires 0 < ydim && Ny % ydim == 0
  {
    s % (Ny / ydim)
  }

  /** The native rows and columns covered by super id s lie inside the panel. */
  lemma BlockInPanel(s: int, xdim: int, ydim: int)
    requires ValidFactors(xdim, ydim)
    requires 0 <= s < SuperCount(xdim, ydim)
    ensures 0 <= SuperRow(s, ydim) * xdim && SuperRow(s, ydim) * xdim + xdim <= Nx
    ensures 0 <= SuperCol(s, ydim) * ydim && SuperCol(s, ydim) * ydim + ydim <= Ny
  {
    SuperGrid(xdim, ydim);
    DivBelow(s, Ny / ydim, Nx / xdim);
    var r, c := SuperRow(s, ydim), SuperCol(s, ydim);
    MulBelow(r, 0, Nx / xdim, xdim);
    MulBelow(r, xdim - 1, Nx / xdim, xdim);
    MulBelow(c, 0, Ny / ydim, ydim);
    MulBelow(c, ydim - 1, Ny / ydim, ydim);
  }

  /** Within panel 0 the super id is (i div xdim) * superNy + (j div ydim). */
  lemma PanelZeroSuperId(id: int, xdim: int, ydim: int)
    requires ValidFactors(xdim, ydim)
    requires 0 <= id < NNat
    ensures 0 <= (id % Ny) / ydim < Ny / ydim
    ensures SuperId(id, xdim, ydim) == ((id / Ny) / xdim) * (Ny / ydim) + (id % Ny) / ydim
  {
    assert id / NNat == 0 && id % NNat == id;
    SuperIdInPanel(id, xdim, ydim);
  }

  /** Row-major position si * w + sj names the cell (s div w, s mod w). */
  lemma GridIndex(si: int, sj: int, s: int, w: int)
    requires w > 0 && 0 <= sj < w
    ensures si * w + sj == s <==> si == s / w && sj == s % w
  {
    DivIff(si * w + sj, w, si);
  }

  /** Native id `id` lies in the first m native rows of the block of super id s. */
  predicate InBlockRows(id: int, s: int, m: int, xdim: int, ydim: int)
    requires 0 < ydim && Ny % ydim == 0
  {
    && SuperRow(s, ydim) * xdim <= id / Ny < SuperRow(s, ydim) * xdim + m
    && SuperCol(s, ydim) * ydim <= id % Ny < SuperCol(s, ydim) * ydim + ydim
  }

  /** Native id `id` of panel 0 maps to s exactly when its row and column fall in s's block. */
  lemma HitIff(id: int, s: int, xdim: int, ydim: int)
    requires ValidFactors(xdim, ydim)
    requires 0 <= id < NNat
    ensures SuperId(id, xdim, ydim) == s <==>
      && SuperRow(s, ydim) * xdim <= id / Ny < SuperRow(s, ydim) * xdim + xdim
      && SuperCol(s, ydim) * ydim <= id % Ny < SuperCol(s, ydim) * ydim + ydim
  {
    PanelZeroSuperId(id, xdim, ydim);
    GridIndex((id / Ny) / xdim, (id % Ny) / ydim, s, Ny / ydim);
    DivIff(id / Ny, xdim, SuperRow(s, ydim));
    DivIff(id % Ny, ydim, SuperCol(s, ydim));
  }

  ghost function Hits(s: int, xdim: int, ydim: int): set<int>
    requires ValidFactors(xdim, ydim)
  {
    set id | 0 <= id < NNat && SuperId(id, xdim, ydim) == s
  }

  /** The native ids in the first m native rows of s's block. */
  ghost function HitsInRows(s: int, m: int, xdim: int, ydim: int): set<int>
    requires ValidFactors(xdim, ydim)
  {
    set id | 0 <= id < NNat && InBlockRows(id, s, m, xdim, ydim)
  }

  /** The integers lo .. lo + n - 1. */
  ghost function Interval(lo: int, n: nat): set<int>
    decreases n
  {
    if n == 0 then {} else Interval(lo, n - 1) + {lo + n - 1}
  }

  lemma {:induction false} IntervalFacts(lo: int, n: nat)
    ensures |Interval(lo, n)| == n
    ensures forall x :: x in Interval(lo, n) <==> lo <= x < lo + n
    decreases n
  {
    if n > 0 {
      IntervalFacts(lo, n - 1);
    }
  }

  /** The native ids of row `row`, columns c0 .. c0 + n - 1. */
  lemma RowSegment(id: int, row: int, c0: int, n: int)
    requires 0 <= row < Nx && 0 <= c0 && 0 <= n && c0 + n <= Ny
    ensures row * Ny + c0 <= id < row * Ny + c0 + n <==>
      0 <= id < NNat && id / Ny == row && c0 <= id % Ny < c0 + n
  {
    DivIff(id, Ny, row);
  }

  /** Adding row m of s's block adds a run of ydim consecutive native ids. */
  lemma {:induction false} HitsInRowsStep(s: int, m: int, xdim: int, ydim: int)
    requires ValidFactors(xdim, ydim)
    requires 0 <= s < SuperCount(xdim, ydim) && 0 <= m < xdim
    ensures var lo := (SuperRow(s, ydim) * xdim + m) * Ny + SuperCol(s, ydim) * ydim;
      && HitsInRows(s, m + 1, xdim, ydim) == HitsInRows(s, m, xdim, ydim) + Interval(lo, ydim)
      && HitsInRows(s, m, xdim, ydim) !! Interval(lo, ydim)
  {
    var row := SuperRow(s, ydim) * xdim + m;
    var c0 := SuperCol(s, ydim) * ydim;
    var lo := row * Ny + c0;
    BlockInPanel(s, xdim, ydim);
    IntervalFacts(lo, ydim);
    var before, after, run := HitsInRows(s, m, xdim, ydim), HitsInRows(s, m + 1, xdim, ydim), Interval(lo, ydim);
    forall id
      ensures id in after <==> id in before || id in run
      ensures !(id in before && id in run)
    {
      RowSegment(id, row, c0, ydim);
    }
  }

  lemma HitsInNoRows(s: int, xdim: int, ydim: int)
    requires ValidFactors(xdim, ydim)
    ensures HitsInRows(s, 0, xdim, ydim) == {}
  {
    forall id | id in HitsInRows(s, 0, xdim, ydim) ensures false {
    }
  }

  lemma DisjointUnionSize(a: set<int>, b: set<int>)
    requires a !! b
    ensures |a + b| == |a| + |b|
  {
  }

  lemma HitsInRowsGrow(s: int, m: int, xdim: int, ydim: int)
    requires ValidFactors(xdim, ydim)
    requires 0 <= s < SuperCount(xdim, ydim) && 0 <= m < xdim
    ensures |HitsInRows(s, m + 1, xdim, ydim)| == |HitsInRows(s, m, xdim, ydim)| + ydim
  {
    var lo := (SuperRow(s, ydim) * xdim + m) * Ny + SuperCol(s, ydim) * ydim;
    HitsInRowsStep(s, m, xdim, ydim);
    IntervalFacts(lo, ydim);
    var before, run := HitsInRows(s, m, xdim, ydim), Interval(lo, ydim);
    DisjointUnionSize(before, run);
  }

  lemma {:induction false} HitsInRowsSize(s: int, m: nat, xdim: int, ydim: int)
    requires ValidFactors(xdim, ydim)
    requires 0 <= s < SuperCount(xdim, ydim) && m <= xdim
    ensures |HitsInRows(s, m, xdim, ydim)| == m * ydim
    decreases m
  {
    if m == 0 {
      HitsInNoRows(s, xdim, ydim);
    } else {
      HitsInRowsSize(s, m - 1, xdim, ydim);
      HitsInRowsGrow(s, m - 1, xdim, ydim);
      assert (m - 1) * ydim + ydim == m * ydim;
    }
  }

  /** Each super id of a panel gathers exactly xdim * ydim native pixels. */
  lemma FanIn(s: int, xdim: int, ydim: int)
    requires ValidFactors(xdim, ydim)
    requires 0 <= s < SuperCount(xdim, ydim)
    ensures |Hits(s, xdim, ydim)| == xdim * ydim
  {
    HitsInRowsSize(s, xdim, xdim, ydim);
    forall id
      ensures id in Hits(s, xdim, ydim) <==> id in HitsInRows(s, xdim, xdim, ydim)
    {
      if 0 <= id < NNat {
        HitIff(id, s, xdim, ydim);
      }
    }
    assert Hits(s, xdim, ydim) == HitsInRows(s, xdim, xdim, ydim);
  }

  /** The first native id of s's block (its top-left corner) is mapped to s. */
  lemma BlockCorner(s: int, xdim: int, ydim: int) returns (id: int)
    requires ValidFactors(xdim, ydim)
    requires 0 <= s < SuperCount(xdim, ydim)
    ensures 0 <= id < NNat && SuperId(id, xdim, ydim) == s
  {
    BlockInPanel(s, xdim, ydim);
    var row, c0 := SuperRow(s, ydim) * xdim, SuperCol(s, ydim) * ydim;
    id := row * Ny + c0;
    RowSegment(id, row, c0, ydim);
    HitIff(id, s, xdim, ydim);
  }

  /** The native ids of one panel are mapped onto exactly the super ids 0 .. SuperCount - 1. */
  lemma PanelImage(xdim: int, ydim: int)
    requires ValidFactors(xdim, ydim)
    ensures (set id | 0 <= id < NNat :: SuperId(id, xdim, ydim)) == Interval(0, SuperCount(xdim, ydim))
  {
    var image := set id | 0 <= id < NNat :: SuperId(id, xdim, ydim);
    IntervalFacts(0, SuperCount(xdim, ydim));
    forall id | 0 <= id < NNat ensures 0 <= SuperId(id, xdim, ydim) < SuperCount(xdim, ydim) {
      assert id / NNat == 0;
      SuperIdRange(id, xdim, ydim);
    }
    forall s | 0 <= s < SuperCount(xdim, ydim) ensures s in image {
      var id := BlockCorner(s, xdim, ydim);
    }
  }

  /** The (8, 8) lite aggregation: 1024 super ids per panel, each hit by 64 native ids. */
  lemma LiteFanIn(s: int)
    requires 0 <= s < 1024
    ensures SuperCount(8, 8) == 1024
    ensures |Hits(s, 8, 8)| == 64
    ensures |set id | 0 <= id < NNat :: SuperId(id, 8, 8)| == 1024
  {
    FanIn(s, 8, 8);
    PanelImage(8, 8);
    IntervalFacts(0, 1024);
  }
}
