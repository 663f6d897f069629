/** The orientation callbacks of the panel-geometry builder: each maps a
    logical pixel `(x, y)` of a `width` x `height` chain to a linear index
    of the framebuffer. */
module Orientation {
  import opened Arith

  /** The rotations a geometry can be built with. `Normal`, `R180`, `Ccw` and
      `Cw` are the four callbacks of the source, `Cw` with its formula as
      written; `CwCorrected` is the evidently intended clockwise rotation. */
  datatype Orientation = Normal | R180 | Ccw | Cw | CwCorrected

  function OrientationNormal(width: int, height: int, x: int, y: int): int
  {
    x + width * y
  }

  function OrientationR180(width: int, height: int, x: int, y: int): int
  {
    OrientationNormal(width, height, width - x - 1, height - y - 1)
  }

  function OrientationCcw(width: int, height: int, x: int, y: int): int
  {
    OrientationNormal(height, width, y, width - x - 1)
  }

  /** Clockwise rotation exactly as the source writes it: the column offset
      `y - height - 1` is negative for every row of the chain. */
  function OrientationCw(width: int, height: int, x: int, y: int): int
  {
    OrientationNormal(height, width, y - height - 1, x)
  }

  /** Clockwise rotation with the reflected column `height - y - 1`. */
  function OrientationCwCorrected(width: int, height: int, x: int, y: int): int
  {
    OrientationNormal(height, width, height - y - 1, x)
  }

  function Apply(o: Orientation, width: int, height: int, x: int, y: int): int
  {
    match o
    case Normal => OrientationNormal(width, height, x, y)
    case R180 => OrientationR180(width, height, x, y)
    case Ccw => OrientationCcw(width, height, x, y)
    case Cw => OrientationCw(width, height, x, y)
    case CwCorrected => OrientationCwCorrected(width, height, x, y)
  }

  predicate InBounds(width: int, height: int, x: int, y: int)
  {
    0 <= x < width && 0 <= y < height
  }

  /** The coordinates a row-major index stands for in a chain `width` wide. */
  function ToCoords(width: int, v: int): (int, int)
    requires width > 0
  {
    (v % width, v / width)
  }

  /** Row-major indexing is undone by `ToCoords`. */
  lemma NormalRoundTrip(width: int, height: int, x: int, y: int)
    requires width > 0 && 0 <= x < width
    ensures ToCoords(width, OrientationNormal(width, height, x, y)) == (x, y)
  {
    DivModUnique(x + width * y, width, y, x);
  }

  /** Every valid pixel lands inside the framebuffer. */
  lemma NormalInRange(width: int, height: int, x: int, y: int)
    requires InBounds(width, height, x, y)
    ensures 0 <= OrientationNormal(width, height, x, y) < width * height
  {
    MixedRadixBound(y, x, width, height);
  }

  /** Every framebuffer index is the image of exactly one valid pixel. */
  lemma NormalOnto(width: int, height: int, v: int)
    requires width > 0 && 0 <= v < width * height
    ensures InBounds(width, height, ToCoords(width, v).0, ToCoords(width, v).1)
    ensures OrientationNormal(width, height, ToCoords(width, v).0, ToCoords(width, v).1) == v
  {
    DivBound(v, height, width);
  }

  /** All orientations except the as-written clockwise one keep valid pixels
      inside the framebuffer. */
  lemma ApplyInRange(o: Orientation, width: int, height: int, x: int, y: int)
    requires o != Cw && InBounds(width, height, x, y)
    ensures 0 <= Apply(o, width, height, x, y) < width * height
  {
    match o
    case Normal => NormalInRange(width, height, x, y);
    case R180 => NormalInRange(width, height, width - x - 1, height - y - 1);
    case Ccw =>
      NormalInRange(height, width, y, width - x - 1);
      assert height * width == width * height;
    case CwCorrected =>
      NormalInRange(height, width, height - y - 1, x);
      assert height * width == width * height;
  }

  /** Rotating by 180 degrees twice is the identity on framebuffer indices:
      decoding the rotated index and rotating again gives the pixel back. */
  lemma R180Involution(width: int, height: int, x: int, y: int)
    requires InBounds(width, height, x, y)
    ensures var c := ToCoords(width, OrientationR180(width, height, x, y));
            InBounds(width, height, c.0, c.1) &&
            OrientationR180(width, height, c.0, c.1) == OrientationNormal(width, height, x, y)
  {
    NormalRoundTrip(width, height, width - x - 1, height - y - 1);
  }

  /** The as-written clockwise rotation sends the whole first column of the
      chain to negative indices. */
  lemma CwAsWrittenNegative(width: int, height: int, y: int)
    requires width > 0 && 0 <= y < height
    ensures OrientationCw(width, height, 0, y) < 0
  {
  }

  /** The as-written clockwise rotation undoes the counter-clockwise one on
      no pixel of any chain: it lands `2 * x + 2` entries before the pixel's
      index. */
  lemma CwAsWrittenDoesNotUndoCcw(width: int, height: int, x: int, y: int)
    requires InBounds(width, height, x, y)
    ensures var c := ToCoords(height, OrientationCcw(width, height, x, y));
            && OrientationCw(height, width, c.0, c.1) == OrientationNormal(width, height, x, y) - 2 * x - 2
            && OrientationCw(height, width, c.0, c.1) != OrientationNormal(width, height, x, y)
  {
    NormalRoundTrip(height, width, y, width - x - 1);
  }

  /** The corrected clockwise rotation undoes the counter-clockwise one:
      rotate the `width` x `height` chain counter-clockwise, decode the index
      in the rotated `height` x `width` frame, rotate clockwise back. */
  lemma CwCorrectedUndoesCcw(width: int, height: int, x: int, y: int)
    requires InBounds(width, height, x, y)
    ensures var c := ToCoords(height, OrientationCcw(width, height, x, y));
            InBounds(height, width, c.0, c.1) &&
            OrientationCwCorrected(height, width, c.0, c.1) == OrientationNormal(width, height, x, y)
  {
    NormalRoundTrip(height, width, y, width - x - 1);
  }
}
