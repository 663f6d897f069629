/** The current panel-geometry builder: `make_matrixmap` with its explicit
    loops, the `matrix_geometry` constructor that checks its size, and the
    properties of the maps it builds. */
module MatrixMap {
  import opened Arith
  import opened Panel
  import opened Orientation
  import LegacyMatrixMap

  /** Scan rows outer, linear columns inner; each step appends the upper and
      then the lower pixel of the pair. Produces the same result as the older
      copy of the builder, fails exactly when the height is not a whole number
      of panels, and otherwise has one entry per pixel. */
  method MakeMatrixMap(width: int, height: int, nAddrLines: int, serpentine: bool, o: Orientation)
    returns (r: Result<seq<int>>)
    requires ValidDims(width, height, nAddrLines)
    ensures r == LegacyMatrixMap.MakeMatrixMap(width, height, nAddrLines, serpentine, o)
    ensures r.Failure? <==> height % PanelHeight(nAddrLines) != 0
    ensures r.Success? ==> |r.value| == width * height
  {
    LegacyMatrixMap.MakeMatrixMapSpec(width, height, nAddrLines, serpentine, o);
    var panelHeight := PanelHeight(nAddrLines);
    if height % panelHeight != 0 {
      return Failure(HeightNotMultiple);
    }
    var vPanels := height / panelHeight;
    MulNonNegative(width, vPanels);
    var pixelsAcross: nat := width * vPanels;
    var result := ScanRows(width, height, nAddrLines, serpentine, o, pixelsAcross);
    return Success(result);
  }

  /** The outer loop of the builder: the scan rows `0 .. half_panel_height-1`
      in order. */
  method ScanRows(width: int, height: int, nAddrLines: nat, serpentine: bool, o: Orientation,
                  pixelsAcross: nat)
    returns (result: seq<int>)
    requires width > 0
    ensures result == LegacyMatrixMap.Rows(width, height, nAddrLines, serpentine, o, pixelsAcross,
                                           HalfPanelHeight(nAddrLines))
  {
    var halfPanelHeight := HalfPanelHeight(nAddrLines);
    result := [];
    var i := 0;
    while i < halfPanelHeight
      invariant 0 <= i <= halfPanelHeight
      invariant result == LegacyMatrixMap.Rows(width, height, nAddrLines, serpentine, o, pixelsAcross, i)
    {
      result := ScanRow(width, height, nAddrLines, serpentine, o, pixelsAcross, i, result);
      i := i + 1;
    }
  }

  /** The inner loop of the builder: appends the pairs of every linear column
      of scan row `i`. */
  method ScanRow(width: int, height: int, nAddrLines: nat, serpentine: bool, o: Orientation,
                 pixelsAcross: nat, i: int, prefix: seq<int>)
    returns (result: seq<int>)
    requires width > 0
    ensures result == prefix + LegacyMatrixMap.Columns(width, height, nAddrLines, serpentine, o, i, pixelsAcross)
  {
    result := prefix;
    var j := 0;
    while j < pixelsAcross
      invariant 0 <= j <= pixelsAcross
      invariant result == prefix + LegacyMatrixMap.Columns(width, height, nAddrLines, serpentine, o, i, j)
    {
      var s := ScanCoords(width, nAddrLines, serpentine, i, j);
      result := result + [Apply(o, width, height, s.x, s.y0)];
      result := result + [Apply(o, width, height, s.x, s.y1)];
      j := j + 1;
    }
  }

  /** A built geometry: the constructor's arguments and the scan map. */
  datatype MatrixGeometry = MatrixGeometry(pixelsAcross: int, nAddrLines: int, nPlanes: int,
                                           width: int, height: int, scanMap: seq<int>)

  /** The `matrix_geometry` constructor: builds the map, then insists that it
      holds `(2 << n_addr_lines) * pixels_across` entries for the caller's
      `pixels_across`. It succeeds exactly when the height is a whole number
      of panels and the caller's `pixels_across` is `width * height / (2 <<
      n_addr_lines)`. */
  method NewMatrixGeometry(pixelsAcross: int, nAddrLines: int, nPlanes: int, width: int, height: int,
                           serpentine: bool, o: Orientation)
    returns (r: Result<MatrixGeometry>)
    requires ValidDims(width, height, nAddrLines)
    requires -IntLimit <= PanelHeight(nAddrLines) * pixelsAcross < IntLimit
    ensures r.Success? <==>
            height % PanelHeight(nAddrLines) == 0 && pixelsAcross == width * height / PanelHeight(nAddrLines)
    ensures r.Failure? ==> (r.error == HeightNotMultiple <==> height % PanelHeight(nAddrLines) != 0)
    ensures r.Success? ==>
            && r.value.pixelsAcross == pixelsAcross && r.value.nAddrLines == nAddrLines
            && r.value.nPlanes == nPlanes && r.value.width == width && r.value.height == height
            && r.value.scanMap == LegacyMatrixMap.MakeMatrixMap(width, height, nAddrLines, serpentine, o).value
  {
    var m := MakeMatrixMap(width, height, nAddrLines, serpentine, o);
    if m.Failure? {
      return Failure(m.error);
    }
    var pixelsDown := PanelHeight(nAddrLines);
    SizeCheck(width, height, nAddrLines, pixelsAcross);
    if |m.value| != pixelsDown * pixelsAcross {
      return Failure(MapSizeMismatch);
    }
    return Success(MatrixGeometry(pixelsAcross, nAddrLines, nPlanes, width, height, m.value));
  }

  /** The constructor's size check `map.size() == pixels_down * pixels_across`
      accepts exactly the quotient of the pixel count by the panel height. */
  lemma SizeCheck(width: int, height: int, nAddrLines: nat, pixelsAcross: int)
    requires height % PanelHeight(nAddrLines) == 0
    ensures PanelHeight(nAddrLines) * pixelsAcross == width * height
            <==> pixelsAcross == width * height / PanelHeight(nAddrLines)
  {
    var ph := PanelHeight(nAddrLines);
    var v := height / ph;
    assert height == v * ph;
    assert width * height == (width * v) * ph;
    DivModUnique(width * height, ph, width * v, 0);
    if ph * pixelsAcross == width * height {
      MulStrictMonotone(0, 1, ph);
      if pixelsAcross < width * v {
        MulStrictMonotone(pixelsAcross, width * v, ph);
      } else if pixelsAcross > width * v {
        MulStrictMonotone(width * v, pixelsAcross, ph);
      }
    }
  }

  /** With every orientation except the as-written clockwise one, each map
      entry is an index inside the framebuffer, serpentine or not. */
  lemma MapInRange(width: int, height: int, nAddrLines: int, serpentine: bool, o: Orientation)
    requires ValidDims(width, height, nAddrLines) && o != Cw
    ensures var r := LegacyMatrixMap.MakeMatrixMap(width, height, nAddrLines, serpentine, o);
            r.Success? ==> forall k :: 0 <= k < |r.value| ==> 0 <= r.value[k] < width * height
  {
    var r := LegacyMatrixMap.MakeMatrixMap(width, height, nAddrLines, serpentine, o);
    LegacyMatrixMap.MakeMatrixMapSpec(width, height, nAddrLines, serpentine, o);
    if r.Success? {
      forall k | 0 <= k < |r.value|
        ensures 0 <= r.value[k] < width * height
      {
        EntryInRange(width, height, nAddrLines, serpentine, o, r.value, k);
      }
    }
  }

  lemma EntryInRange(width: int, height: int, nAddrLines: nat, serpentine: bool, o: Orientation,
                     m: seq<int>, k: int)
    requires ValidDims(width, height, nAddrLines) && o != Cw
    requires height % PanelHeight(nAddrLines) == 0
    requires PixelsAcross(width, height, nAddrLines) >= 0
    requires LegacyMatrixMap.PairsMatch(m, width, height, nAddrLines, serpentine, o,
                                        PixelsAcross(width, height, nAddrLines), HalfPanelHeight(nAddrLines))
    requires 0 <= k < |m|
    ensures 0 <= m[k] < width * height
  {
    var across := PixelsAcross(width, height, nAddrLines);
    var half := HalfPanelHeight(nAddrLines);
    assert across != 0;
    PairIndexDecode(across, half, k);
    var i, j := (k / 2) / across, (k / 2) % across;
    PairInRange(width, height, nAddrLines, serpentine, o, i, j);
  }

  /** Both entries of scan position `(i, j)` lie inside the framebuffer. */
  lemma PairInRange(width: int, height: int, nAddrLines: nat, serpentine: bool, o: Orientation,
                    i: int, j: int)
    requires ValidDims(width, height, nAddrLines) && o != Cw
    requires height % PanelHeight(nAddrLines) == 0
    requires 0 <= i < HalfPanelHeight(nAddrLines) && 0 <= j < PixelsAcross(width, height, nAddrLines)
    ensures forall t :: 0 <= t < 2 ==>
              0 <= LegacyMatrixMap.Pair(width, height, nAddrLines, serpentine, o, i, j)[t] < width * height
  {
    var s := ScanCoords(width, nAddrLines, serpentine, i, j);
    ScanInChain(width, height, nAddrLines, serpentine, i, j);
    ApplyInRange(o, width, height, s.x, s.y0);
    ApplyInRange(o, width, height, s.x, s.y1);
  }

  /** The pixels of scan position `(i, j)` are pixels of the chain. */
  lemma ScanInChain(width: int, height: int, nAddrLines: nat, serpentine: bool, i: int, j: int)
    requires ValidDims(width, height, nAddrLines)
    requires height % PanelHeight(nAddrLines) == 0
    requires 0 <= i < HalfPanelHeight(nAddrLines) && 0 <= j < PixelsAcross(width, height, nAddrLines)
    ensures var s := ScanCoords(width, nAddrLines, serpentine, i, j);
            InBounds(width, height, s.x, s.y0) && InBounds(width, height, s.x, s.y1)
  {
    var s := ScanCoords(width, nAddrLines, serpentine, i, j);
    var p, ph := j / width, PanelHeight(nAddrLines);
    var lo, hi := p * ph, (p + 1) * ph;
    assert 0 <= s.x < width && lo <= s.y0 < hi && lo <= s.y1 < hi by {
      ScanCoordsInBand(width, nAddrLines, serpentine, i, j);
    }
    assert hi <= height by {
      BandInsideChain(width, height, nAddrLines, j);
    }
    assert 0 <= lo by {
      MulNonNegative(p, ph);
    }
    assert 0 <= s.y0 < height && 0 <= s.y1 < height;
  }

  /** Where the map built without serpentine wiring and with the normal
      orientation stores framebuffer index `v`: the inverse of that map. */
  function ScanIndexOf(width: int, height: int, nAddrLines: nat, v: int): int
    requires width > 0
  {
    var ph := PanelHeight(nAddrLines);
    var half := HalfPanelHeight(nAddrLines);
    var x, y := v % width, v / width;
    var p, rem := y / ph, y % ph;
    PairIndex(PixelsAcross(width, height, nAddrLines), rem % half, p * width + x) + rem / half
  }

  /** Entry `t` of the pair at scan position `(i, j)` of the plain map is the
      pixel in column `j % width`, row `(j / width) * ph + i + t * half`. */
  lemma PlainPairValue(width: int, height: int, nAddrLines: nat, i: int, j: int, t: int)
    requires width > 0 && 0 <= t < 2
    ensures LegacyMatrixMap.Pair(width, height, nAddrLines, false, Normal, i, j)[t]
            == OrientationNormal(width, height, j % width,
                                 (j / width) * PanelHeight(nAddrLines) + i + t * HalfPanelHeight(nAddrLines))
  {
  }

  /** `ScanIndexOf` undoes the placement of pixel `t` of scan position
      `(i, j)`. */
  lemma ScanIndexOfPair(width: int, height: int, nAddrLines: nat, i: int, j: int, t: int)
    requires width > 0 && 0 <= i < HalfPanelHeight(nAddrLines) && 0 <= j && 0 <= t < 2
    ensures ScanIndexOf(width, height, nAddrLines,
                        OrientationNormal(width, height, j % width,
                                          (j / width) * PanelHeight(nAddrLines) + i + t * HalfPanelHeight(nAddrLines)))
            == PairIndex(PixelsAcross(width, height, nAddrLines), i, j) + t
  {
    var half := HalfPanelHeight(nAddrLines);
    var ph := PanelHeight(nAddrLines);
    var p, x := j / width, j % width;
    var y := p * ph + (i + t * half);
    NormalRoundTrip(width, height, x, y);
    assert 0 <= i + t * half < ph;
    DivModUnique(y, ph, p, i + t * half);
    DivModUnique(i + t * half, half, t, i);
    assert j == p * width + x;
  }

  /** `ScanIndexOf` recovers the position of every entry of the plain map. */
  lemma ScanIndexOfEntry(width: int, height: int, nAddrLines: nat, m: seq<int>, k: int)
    requires ValidDims(width, height, nAddrLines) && height % PanelHeight(nAddrLines) == 0
    requires PixelsAcross(width, height, nAddrLines) >= 0
    requires LegacyMatrixMap.PairsMatch(m, width, height, nAddrLines, false, Normal,
                                        PixelsAcross(width, height, nAddrLines), HalfPanelHeight(nAddrLines))
    requires 0 <= k < |m|
    ensures ScanIndexOf(width, height, nAddrLines, m[k]) == k
  {
    var across := PixelsAcross(width, height, nAddrLines);
    var half := HalfPanelHeight(nAddrLines);
    assert across != 0;
    PairIndexDecode(across, half, k);
    var i, j, t := (k / 2) / across, (k / 2) % across, k % 2;
    assert k == PairIndex(across, i, j) + t;
    assert m[k] == LegacyMatrixMap.Pair(width, height, nAddrLines, false, Normal, i, j)[t];
    PlainPairValue(width, height, nAddrLines, i, j, t);
    ScanIndexOfPair(width, height, nAddrLines, i, j, t);
  }

  /** Every framebuffer index is stored in the plain map, at `ScanIndexOf`. */
  lemma EntryAtScanIndexOf(width: int, height: int, nAddrLines: nat, m: seq<int>, v: int)
    requires ValidDims(width, height, nAddrLines) && height % PanelHeight(nAddrLines) == 0
    requires PixelsAcross(width, height, nAddrLines) >= 0
    requires LegacyMatrixMap.PairsMatch(m, width, height, nAddrLines, false, Normal,
                                        PixelsAcross(width, height, nAddrLines), HalfPanelHeight(nAddrLines))
    requires 0 <= v < width * height
    ensures 0 <= ScanIndexOf(width, height, nAddrLines, v) < |m|
    ensures m[ScanIndexOf(width, height, nAddrLines, v)] == v
  {
    var across := PixelsAcross(width, height, nAddrLines);
    var half := HalfPanelHeight(nAddrLines);
    var ph := PanelHeight(nAddrLines);
    var vPanels := height / ph;
    assert height == vPanels * ph;
    NormalOnto(width, height, v);
    var x, y := v % width, v / width;
    var p, rem := y / ph, y % ph;
    var i, t := rem % half, rem / half;
    assert y == p * ph + rem;
    assert rem == t * half + i;
    DivBound(rem, 2, half);
    DivBound(y, vPanels, ph);
    var j := p * width + x;
    MixedRadixBound(p, x, width, vPanels);
    assert j < across;
    MixedRadixBound(i, j, across, half);
    var k := PairIndex(across, i, j) + t;
    assert k == ScanIndexOf(width, height, nAddrLines, v);
    assert k < |m|;
    DivModUnique(j, width, p, x);
    assert m[k] == OrientationNormal(width, height, x, p * ph + i + t * half) by {
      PlainPairValue(width, height, nAddrLines, i, j, t);
    }
  }

  /** Without serpentine wiring and with the normal orientation, the map is a
      permutation of the framebuffer indices: every entry is in range, no two
      entries coincide, and every pixel is visited. */
  lemma NormalMapIsPermutation(width: int, height: int, nAddrLines: int)
    requires ValidDims(width, height, nAddrLines) && height % PanelHeight(nAddrLines) == 0
    ensures var r := LegacyMatrixMap.MakeMatrixMap(width, height, nAddrLines, false, Normal);
            && r.Success?
            && |r.value| == width * height
            && (forall k :: 0 <= k < |r.value| ==> 0 <= r.value[k] < width * height)
            && (forall a, b :: 0 <= a < b < |r.value| ==> r.value[a] != r.value[b])
            && (forall v :: 0 <= v < width * height ==> v in r.value)
  {
    var m := LegacyMatrixMap.MakeMatrixMap(width, height, nAddrLines, false, Normal).value;
    LegacyMatrixMap.MakeMatrixMapSpec(width, height, nAddrLines, false, Normal);
    MapInRange(width, height, nAddrLines, false, Normal);
    MulNonNegative(width, height / PanelHeight(nAddrLines));
    forall a, b | 0 <= a < b < |m|
      ensures m[a] != m[b]
    {
      ScanIndexOfEntry(width, height, nAddrLines, m, a);
      ScanIndexOfEntry(width, height, nAddrLines, m, b);
    }
    forall v | 0 <= v < width * height
      ensures v in m
    {
      EntryAtScanIndexOf(width, height, nAddrLines, m, v);
    }
  }
}
