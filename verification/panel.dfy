/** Scan-order arithmetic shared by both copies of `make_matrixmap`: the
    panel sizes derived from the number of address lines, and the pixel
    pair the hardware shows at scan row `i`, linear column `j`. */
module Panel {
  import opened Arith

  /** The `std::range_error`s thrown while building a geometry. */
  datatype GeometryError =
    | HeightNotMultiple   // "Height does not evenly divide panel height"
    | MapSizeMismatch     // "map size does not match calculated pixel count"

  datatype Result<T> = Success(value: T) | Failure(error: GeometryError)

  /** Dimensions for which the source's `int` arithmetic cannot overflow:
      `2 << n_addr_lines` fits, and so does every index below
      `width * height`. */
  predicate ValidDims(width: int, height: int, nAddrLines: int)
  {
    width > 0 && height > 0 && 0 <= nAddrLines < 30 && width * height < IntLimit
  }

  /** `2 << n_addr_lines`: rows of one physical panel. */
  function PanelHeight(nAddrLines: nat): nat
  {
    2 * Pow2(nAddrLines)
  }

  /** `1 << n_addr_lines`: rows driven by one address value. */
  function HalfPanelHeight(nAddrLines: nat): nat
  {
    Pow2(nAddrLines)
  }

  /** Panels stacked vertically are chained end to end, so the chain is
      `width * v_panels` pixels across. */
  function PixelsAcross(width: int, height: int, nAddrLines: nat): int
  {
    width * (height / PanelHeight(nAddrLines))
  }

  /** Position of the `k`-th pair of a scan map in which every row holds
      `across` pairs. */
  function PairIndex(across: int, i: int, j: int): int
  {
    2 * (i * across + j)
  }

  /** The column and the two rows of the pixel pair shown at scan row `i`
      and linear column `j`. */
  datatype ScanPos = ScanPos(x: int, y0: int, y1: int)

  function ScanCoords(width: int, nAddrLines: nat, serpentine: bool, i: int, j: int): ScanPos
    requires width > 0
  {
    var panelHeight := PanelHeight(nAddrLines);
    var halfPanelHeight := HalfPanelHeight(nAddrLines);
    var panelNo := j / width;
    var panelIdx := j % width;
    if serpentine && panelNo % 2 == 1 then
      ScanPos(width - panelIdx - 1,
              (panelNo + 1) * panelHeight - i - 1,
              (panelNo + 1) * panelHeight - i - halfPanelHeight - 1)
    else
      ScanPos(panelIdx,
              panelNo * panelHeight + i,
              panelNo * panelHeight + i + halfPanelHeight)
  }

  /** Both rows of a pair lie in the band of rows owned by the panel column
      `j` belongs to, half a panel apart, and the column lies inside the
      panel. Unmirrored panels keep the column and put the second row below
      the first; mirrored (odd, serpentine) panels reverse the column and put
      the second row above the first. */
  lemma ScanCoordsInBand(width: int, nAddrLines: nat, serpentine: bool, i: int, j: int)
    requires width > 0 && 0 <= i < HalfPanelHeight(nAddrLines) && 0 <= j
    ensures var s := ScanCoords(width, nAddrLines, serpentine, i, j);
            var p := j / width;
            var ph := PanelHeight(nAddrLines);
            && 0 <= s.x < width
            && p * ph <= s.y0 < (p + 1) * ph
            && p * ph <= s.y1 < (p + 1) * ph
            && (if serpentine && p % 2 == 1
                then s.x + j % width == width - 1 && s.y0 - s.y1 == HalfPanelHeight(nAddrLines)
                else s.x == j % width && s.y1 - s.y0 == HalfPanelHeight(nAddrLines))
  {
    var p := j / width;
    var ph := PanelHeight(nAddrLines);
    assert (p + 1) * ph == p * ph + ph;
  }

  /** A map of `2 * half * (width * v_panels)` entries has exactly one entry
      per framebuffer pixel. */
  lemma MapLength(width: int, height: int, nAddrLines: nat)
    requires height % PanelHeight(nAddrLines) == 0
    ensures 2 * (HalfPanelHeight(nAddrLines) * PixelsAcross(width, height, nAddrLines)) == width * height
  {
    var ph := PanelHeight(nAddrLines);
    var v := height / ph;
    assert height == v * ph;
    calc {
      2 * (HalfPanelHeight(nAddrLines) * PixelsAcross(width, height, nAddrLines));
      ph * (width * v);
      width * (v * ph);
    }
  }

  /** Rows of the chain's bottom panel band stay inside the chain. */
  lemma BandInsideChain(width: int, height: int, nAddrLines: nat, j: int)
    requires width > 0 && height % PanelHeight(nAddrLines) == 0
    requires 0 <= j < PixelsAcross(width, height, nAddrLines)
    ensures (j / width + 1) * PanelHeight(nAddrLines) <= height
  {
    var ph := PanelHeight(nAddrLines);
    var v := height / ph;
    assert height == v * ph;
    DivBound(j, v, width);
    MulMonotone(j / width + 1, v, ph);
  }

  /** Every position of a map with `rows` rows of `across` pairs is the
      upper (`k % 2 == 0`) or lower entry of exactly one scan position. */
  lemma PairIndexDecode(across: int, rows: int, k: int)
    requires across > 0 && 0 <= k < 2 * (rows * across)
    ensures var q := k / 2;
            && 0 <= q / across < rows
            && 0 <= q % across < across
            && k == PairIndex(across, q / across, q % across) + k % 2
  {
    var q := k / 2;
    DivBound(q, rows, across);
  }
}
