/** The older, top-level copy of the panel-geometry builder, written as a
    recursive function: scan rows outer, linear columns inner, two indices
    appended per column. */
module LegacyMatrixMap {
  import opened Arith
  import opened Panel
  import opened Orientation

  /** The two framebuffer indices shown together at scan row `i`, linear
      column `j`: upper pixel first, lower pixel second. */
  function Pair(width: int, height: int, nAddrLines: nat, serpentine: bool, o: Orientation,
                i: int, j: int): seq<int>
    requires width > 0
  {
    var s := ScanCoords(width, nAddrLines, serpentine, i, j);
    [Apply(o, width, height, s.x, s.y0), Apply(o, width, height, s.x, s.y1)]
  }

  /** The pairs of linear columns `0 .. count-1` of scan row `i`. */
  function Columns(width: int, height: int, nAddrLines: nat, serpentine: bool, o: Orientation,
                   i: int, count: nat): (r: seq<int>)
    requires width > 0
    ensures |r| == 2 * count
  {
    if count == 0 then []
    else Columns(width, height, nAddrLines, serpentine, o, i, count - 1)
         + Pair(width, height, nAddrLines, serpentine, o, i, count - 1)
  }

  /** Scan rows `0 .. count-1`, each `across` pairs long. */
  function Rows(width: int, height: int, nAddrLines: nat, serpentine: bool, o: Orientation,
                across: nat, count: nat): (r: seq<int>)
    requires width > 0
    ensures |r| == 2 * (count * across)
  {
    if count == 0 then []
    else Rows(width, height, nAddrLines, serpentine, o, across, count - 1)
         + Columns(width, height, nAddrLines, serpentine, o, count - 1, across)
  }

  function MakeMatrixMap(width: int, height: int, nAddrLines: int, serpentine: bool, o: Orientation)
    : Result<seq<int>>
    requires ValidDims(width, height, nAddrLines)
  {
    if height % PanelHeight(nAddrLines) != 0 then
      Failure(HeightNotMultiple)
    else
      Success(Rows(width, height, nAddrLines, serpentine, o,
                   PixelsAcross(width, height, nAddrLines), HalfPanelHeight(nAddrLines)))
  }

  /** Every scan position `(i, j)` owns the two consecutive entries at
      `PairIndex(across, i, j)`: the upper pixel, then the lower one. */
  ghost predicate PairsMatch(m: seq<int>, width: int, height: int, nAddrLines: nat, serpentine: bool,
                             o: Orientation, across: nat, rows: nat)
    requires width > 0
  {
    && |m| == 2 * (rows * across)
    && forall i, j :: 0 <= i < rows && 0 <= j < across ==>
         && 0 <= PairIndex(across, i, j) && PairIndex(across, i, j) + 1 < |m|
         && m[PairIndex(across, i, j)] == Pair(width, height, nAddrLines, serpentine, o, i, j)[0]
         && m[PairIndex(across, i, j) + 1] == Pair(width, height, nAddrLines, serpentine, o, i, j)[1]
  }

  lemma {:induction false} ColumnsContent(width: int, height: int, nAddrLines: nat, serpentine: bool,
                                          o: Orientation, i: int, count: nat, j: int)
    requires width > 0 && 0 <= j < count
    ensures Columns(width, height, nAddrLines, serpentine, o, i, count)[2 * j .. 2 * j + 2]
            == Pair(width, height, nAddrLines, serpentine, o, i, j)
  {
    var prefix := Columns(width, height, nAddrLines, serpentine, o, i, count - 1);
    if j < count - 1 {
      ColumnsContent(width, height, nAddrLines, serpentine, o, i, count - 1, j);
      assert Columns(width, height, nAddrLines, serpentine, o, i, count)[2 * j .. 2 * j + 2]
             == prefix[2 * j .. 2 * j + 2];
    } else {
      assert Columns(width, height, nAddrLines, serpentine, o, i, count)[2 * j .. 2 * j + 2]
             == Pair(width, height, nAddrLines, serpentine, o, i, j);
    }
  }

  /** Scan position `(i, j)` of the recursive construction sits at its
      `PairIndex`. */
  lemma {:induction false} RowsPair(width: int, height: int, nAddrLines: nat, serpentine: bool,
                                    o: Orientation, across: nat, count: nat, i: int, j: int)
    requires width > 0 && 0 <= i < count && 0 <= j < across
    ensures var m := Rows(width, height, nAddrLines, serpentine, o, across, count);
            && 0 <= PairIndex(across, i, j) && PairIndex(across, i, j) + 2 <= |m|
            && m[PairIndex(across, i, j) .. PairIndex(across, i, j) + 2]
               == Pair(width, height, nAddrLines, serpentine, o, i, j)
  {
    var m := Rows(width, height, nAddrLines, serpentine, o, across, count);
    var prefix := Rows(width, height, nAddrLines, serpentine, o, across, count - 1);
    var k := PairIndex(across, i, j);
    var rowStart := i * across;
    MulNonNegative(i, across);
    assert |m| == |prefix| + 2 * across;
    if i < count - 1 {
      RowsPair(width, height, nAddrLines, serpentine, o, across, count - 1, i, j);
      MulMonotone(i + 1, count - 1, across);
      assert |prefix| == 2 * ((count - 1) * across);
      assert k + 2 <= 2 * ((i + 1) * across) by {
        assert (i + 1) * across == rowStart + across;
      }
      SliceLeft(prefix, Columns(width, height, nAddrLines, serpentine, o, count - 1, across), k);
    } else {
      assert |prefix| == 2 * rowStart;
      ColumnsContent(width, height, nAddrLines, serpentine, o, count - 1, across, j);
      assert k - |prefix| == 2 * j;
      SliceRight(prefix, Columns(width, height, nAddrLines, serpentine, o, count - 1, across), k);
    }
  }

  lemma SliceLeft<T>(p: seq<T>, c: seq<T>, k: nat)
    requires k + 2 <= |p|
    ensures (p + c)[k .. k + 2] == p[k .. k + 2]
  {
  }

  lemma SliceRight<T>(p: seq<T>, c: seq<T>, k: nat)
    requires |p| <= k && k + 2 <= |p| + |c|
    ensures (p + c)[k .. k + 2] == c[k - |p| .. k - |p| + 2]
  {
  }

  /** The recursive construction lays out every pair at its `PairIndex`. */
  lemma RowsMatch(width: int, height: int, nAddrLines: nat, serpentine: bool,
                  o: Orientation, across: nat, count: nat)
    requires width > 0
    ensures PairsMatch(Rows(width, height, nAddrLines, serpentine, o, across, count),
                       width, height, nAddrLines, serpentine, o, across, count)
  {
    var m := Rows(width, height, nAddrLines, serpentine, o, across, count);
    forall i, j | 0 <= i < count && 0 <= j < across
      ensures && 0 <= PairIndex(across, i, j) && PairIndex(across, i, j) + 1 < |m|
              && m[PairIndex(across, i, j)] == Pair(width, height, nAddrLines, serpentine, o, i, j)[0]
              && m[PairIndex(across, i, j) + 1] == Pair(width, height, nAddrLines, serpentine, o, i, j)[1]
    {
      RowsPair(width, height, nAddrLines, serpentine, o, across, count, i, j);
      var k := PairIndex(across, i, j);
      assert m[k] == m[k .. k + 2][0];
      assert m[k + 1] == m[k .. k + 2][1];
    }
  }

  /** Construction fails exactly when the height is not a whole number of
      panels; on success the map has one entry per pixel, laid out pair by
      pair in scan order. */
  lemma MakeMatrixMapSpec(width: int, height: int, nAddrLines: int, serpentine: bool, o: Orientation)
    requires ValidDims(width, height, nAddrLines)
    ensures var r := MakeMatrixMap(width, height, nAddrLines, serpentine, o);
            && (r.Failure? <==> height % PanelHeight(nAddrLines) != 0)
            && (r.Failure? ==> r.error == HeightNotMultiple)
            && (r.Success? ==> |r.value| == width * height)
            && (r.Success? ==> PairsMatch(r.value, width, height, nAddrLines, serpentine, o,
                                          PixelsAcross(width, height, nAddrLines),
                                          HalfPanelHeight(nAddrLines)))
  {
    if height % PanelHeight(nAddrLines) == 0 {
      var across := PixelsAcross(width, height, nAddrLines);
      var half := HalfPanelHeight(nAddrLines);
      assert across >= 0 by {
        MulNonNegative(width, height / PanelHeight(nAddrLines));
      }
      MapLength(width, height, nAddrLines);
      RowsMatch(width, height, nAddrLines, serpentine, o, across, half);
    }
  }
}
