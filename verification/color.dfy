/** Colour packing of the demo: `rgb` looks each 8-bit channel up in the
    gamma table and packs the three 10-bit results into one word, red in
    bits 20..29, green in 10..19, blue in 0..9; `colorwheel` walks the hue
    circle in 256 steps. */
module Color {
  import opened Arith
  import opened Bits

  /** Width of one channel field. */
  const ChannelBits: nat := 10

  /** `gamma_lut`: 256 entries, each fitting a 10-bit field (as
      `make_gamma_lut` produces them). */
  predicate ValidLut(lut: seq<nat>)
  {
    |lut| == 256 && forall i :: 0 <= i < 256 ==> lut[i] < 1024
  }

  /** The 10-bit field of `w` that starts at bit `shift`. */
  function Channel(w: Word, shift: nat): nat
    requires shift <= 20
  {
    Value(w[shift..shift + ChannelBits])
  }

  /** `(hi << 20) | (mid << 10) | lo` for 10-bit values. */
  function Pack(hi: nat, mid: nat, lo: nat): Word
    requires hi < 1024 && mid < 1024 && lo < 1024
  {
    Or(Or(Shl(ToWord(hi), 20), Shl(ToWord(mid), 10)), ToWord(lo))
  }

  /** The three values land in disjoint fields, and bits 30 and 31 stay
      clear. */
  lemma PackFields(hi: nat, mid: nat, lo: nat)
    requires hi < 1024 && mid < 1024 && lo < 1024
    ensures var w := Pack(hi, mid, lo);
            && w[..10] == ToBits(lo, 10)
            && w[10..20] == ToBits(mid, 10)
            && w[20..30] == ToBits(hi, 10)
            && !w[30] && !w[31]
  {
    var w := Pack(hi, mid, lo);
    var h, m, l := ToWord(hi), ToWord(mid), ToWord(lo);
    PackBits(hi, mid, lo);
    assert forall k :: 0 <= k < 10 ==> w[..10][k] == l[..10][k];
    assert forall k :: 0 <= k < 10 ==> w[10..20][k] == m[..10][k];
    assert forall k :: 0 <= k < 10 ==> w[20..30][k] == h[..10][k];
  }

  lemma PackBits(hi: nat, mid: nat, lo: nat)
    requires hi < 1024 && mid < 1024 && lo < 1024
    ensures var w := Pack(hi, mid, lo);
            var h, m, l := ToWord(hi), ToWord(mid), ToWord(lo);
            && (forall k :: 0 <= k < 10 ==> w[k] == l[k] && w[10 + k] == m[k] && w[20 + k] == h[k])
            && h[..10] == ToBits(hi, 10) && m[..10] == ToBits(mid, 10) && l[..10] == ToBits(lo, 10)
            && !w[30] && !w[31]
  {
    assert Pow2(10) == 1024 by {
      Pow2Eight(2);
      assert Pow2(2) == 4;
    }
    ToWordBelow(hi, 10);
    ToWordBelow(mid, 10);
    ToWordBelow(lo, 10);
    FieldBits(ToWord(hi), ToWord(mid), ToWord(lo));
  }

  /** Where the bits of three 10-bit words go when shifted and OR-ed. */
  lemma FieldBits(h: Word, m: Word, l: Word)
    requires forall j :: 10 <= j < WordSize ==> !h[j] && !m[j] && !l[j]
    ensures var w := Or(Or(Shl(h, 20), Shl(m, 10)), l);
            && (forall k :: 0 <= k < 10 ==> w[k] == l[k] && w[10 + k] == m[k] && w[20 + k] == h[k])
            && !w[30] && !w[31]
  {
    var w := Or(Or(Shl(h, 20), Shl(m, 10)), l);
    forall k | 0 <= k < 10
      ensures w[k] == l[k] && w[10 + k] == m[k] && w[20 + k] == h[k]
    {
    }
  }

  /** Each field of a packed word reads back the value put there. */
  lemma PackRoundTrip(hi: nat, mid: nat, lo: nat)
    requires hi < 1024 && mid < 1024 && lo < 1024
    ensures Channel(Pack(hi, mid, lo), 20) == hi
    ensures Channel(Pack(hi, mid, lo), 10) == mid
    ensures Channel(Pack(hi, mid, lo), 0) == lo
  {
    PackFields(hi, mid, lo);
    assert Pow2(10) == 1024 by {
      Pow2Eight(2);
      assert Pow2(2) == 4;
    }
    ValueToBits(hi, 10);
    ValueToBits(mid, 10);
    ValueToBits(lo, 10);
  }

  /** The OR of the disjoint fields is their sum. */
  lemma PackValue(hi: nat, mid: nat, lo: nat)
    requires hi < 1024 && mid < 1024 && lo < 1024
    ensures Value(Pack(hi, mid, lo)) == hi * 0x10_0000 + mid * 0x400 + lo
  {
    PackRoundTrip(hi, mid, lo);
    PackFields(hi, mid, lo);
    FieldsValue(Pack(hi, mid, lo));
  }

  /** A word with bits 30 and 31 clear is the weighted sum of its three
      10-bit fields. */
  lemma FieldsValue(w: Word)
    requires !w[30] && !w[31]
    ensures Value(w) == Channel(w, 20) * 0x10_0000 + Channel(w, 10) * 0x400 + Channel(w, 0)
  {
    var lo, mid, hi, top := w[..10], w[10..20], w[20..30], w[30..];
    assert w == lo + (mid + (hi + top));
    assert Pow2(10) == 1024 by {
      Pow2Eight(2);
      assert Pow2(2) == 4;
    }
    assert |lo| == 10 && |mid| == 10 && |hi| == 10;
    AllClearZero(top);
    ValueConcat(hi, top);
    assert Value(hi + top) == Value(hi);
    ValueConcat(mid, hi + top);
    assert Value(mid + (hi + top)) == Value(mid) + 1024 * Value(hi);
    ValueConcat(lo, mid + (hi + top));
    assert Value(w) == Value(lo) + 1024 * (Value(mid) + 1024 * Value(hi));
  }

  /** `rgb(r, g, b)`: the gamma-corrected channels packed into one word. */
  function Rgb(lut: seq<nat>, r: nat, g: nat, b: nat): Word
    requires ValidLut(lut)
    requires r < 256 && g < 256 && b < 256
  {
    Pack(lut[r], lut[g], lut[b])
  }

  /** Every channel of `rgb`'s word reads back its gamma-corrected value. */
  lemma RgbChannels(lut: seq<nat>, r: nat, g: nat, b: nat)
    requires ValidLut(lut)
    requires r < 256 && g < 256 && b < 256
    ensures Channel(Rgb(lut, r, g, b), 20) == lut[r]
    ensures Channel(Rgb(lut, r, g, b), 10) == lut[g]
    ensures Channel(Rgb(lut, r, g, b), 0) == lut[b]
    ensures Value(Rgb(lut, r, g, b)) == lut[r] * 0x10_0000 + lut[g] * 0x400 + lut[b]
  {
    PackRoundTrip(lut[r], lut[g], lut[b]);
    PackValue(lut[r], lut[g], lut[b]);
  }

  /** The 8-bit channel values `colorwheel` hands to `rgb`. */
  datatype Channels = Channels(r: int, g: int, b: int)

  /** The hue circle: red fades to blue over positions 0..84, blue to green
      over 85..169, green back to red over 170..255. Only the low 8 bits of
      the position count (`i & 0xff`, which is `i % 256` in two's
      complement). */
  function WheelChannels(i: int): (c: Channels)
    ensures 0 <= c.r < 256 && 0 <= c.g < 256 && 0 <= c.b < 256
    ensures c.r + c.g + c.b == 255
    ensures c.r == 0 || c.g == 0 || c.b == 0
  {
    var k := i % 256;
    if k < 85 then Channels(255 - k * 3, 0, k * 3)
    else if k < 170 then Channels(0, (k - 85) * 3, 255 - (k - 85) * 3)
    else Channels((k - 170) * 3, 255 - (k - 170) * 3, 0)
  }

  /** `0xff` has exactly bits 0..7. */
  lemma ByteMaskBits()
    ensures forall j :: 0 <= j < WordSize ==> ToWord(0xff)[j] == (j < 8)
  {
    Pow2Eight(0);
    LowMaskWord(8);
  }

  /** `a & 0xff` keeps the low byte of `a` and clears the rest. */
  lemma ByteMaskKeepsLowByte(a: Word)
    ensures And(a, ToWord(0xff))[..8] == a[..8]
    ensures forall j :: 8 <= j < WordSize ==> !And(a, ToWord(0xff))[j]
  {
    ByteMaskBits();
  }

  /** `i & 0xff` on the two's-complement `int` is `i % 256`, the position
      `WheelChannels` reads. */
  lemma MaskIsMod(i: int)
    ensures Value(And(ToWord(i), ToWord(0xff))) == i % 256
  {
    var a := ToWord(i);
    var r := And(a, ToWord(0xff));
    ByteMaskKeepsLowByte(a);
    Pow2Eight(0);
    ClearHighBitsBound(r, 8);
    ValuePrefixMod(r, 8);
    DivModUnique(Value(r), 256, 0, Value(r));
    assert Value(r) == Value(a[..8]);
    ToWordLowByte(i);
  }

  /** `colorwheel(i)`: the word of the hue at position `i`. */
  function ColorWheel(lut: seq<nat>, i: int): (w: Word)
    requires ValidLut(lut)
    ensures var c := WheelChannels(i);
            && Channel(w, 20) == lut[c.r]
            && Channel(w, 10) == lut[c.g]
            && Channel(w, 0) == lut[c.b]
  {
    var c := WheelChannels(i);
    RgbChannels(lut, c.r, c.g, c.b);
    Rgb(lut, c.r, c.g, c.b)
  }

  /** Only the position modulo 256 matters. */
  lemma WheelPeriodic(i: int)
    ensures WheelChannels(i + 256) == WheelChannels(i)
  {
    DivModUnique(i + 256, 256, i / 256 + 1, i % 256);
  }

  /** The circle closes without a jump: neighbouring positions, position 255
      and the next 0 included, differ by at most 3 in every channel. */
  lemma WheelContinuous(i: int)
    ensures var c, d := WheelChannels(i), WheelChannels(i + 1);
            && -3 <= d.r - c.r <= 3 && -3 <= d.g - c.g <= 3 && -3 <= d.b - c.b <= 3
  {
    var k := i % 256;
    if k == 255 {
      DivModUnique(i + 1, 256, i / 256 + 1, 0);
    } else {
      DivModUnique(i + 1, 256, i / 256, k + 1);
    }
  }
}
