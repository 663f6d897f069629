/** Unsigned 32-bit words as the C code uses them. A word is its sequence of
    32 bits, least significant first; its number is `Value`, and the C
    conversion of an integer to `uint32_t` is `ToWord`. The bitwise
    operators act bit by bit. */
module Bits {
  import opened Arith

  const WordSize: nat := 32
  const WordLimit: int := 0x1_0000_0000

  /** A `uint32_t`. */
  type Word = bs: seq<bool> | |bs| == 32 witness seq(32, k => false)

  /** The number a little-endian bit sequence stands for. */
  function Value(bs: seq<bool>): (r: nat)
    ensures r < Pow2(|bs|)
  {
    if |bs| == 0 then 0 else (if bs[0] then 1 else 0) + 2 * Value(bs[1..])
  }

  /** The low `n` bits of `w`, least significant first. */
  function ToBits(w: nat, n: nat): (r: seq<bool>)
    ensures |r| == n
  {
    if n == 0 then [] else [w % 2 == 1] + ToBits(w / 2, n - 1)
  }

  lemma Pow2Eight(n: nat)
    ensures Pow2(n + 8) == 256 * Pow2(n)
  {
    assert Pow2(n + 8) == 2 * Pow2(n + 7);
    assert Pow2(n + 7) == 2 * Pow2(n + 6);
    assert Pow2(n + 6) == 2 * Pow2(n + 5);
    assert Pow2(n + 5) == 2 * Pow2(n + 4);
    assert Pow2(n + 4) == 2 * Pow2(n + 3);
    assert Pow2(n + 3) == 2 * Pow2(n + 2);
    assert Pow2(n + 2) == 2 * Pow2(n + 1);
  }

  /** The powers of two the word constants are built from. */
  lemma Pow2Constants()
    ensures Pow2(32) == 0x1_0000_0000 && Pow2(31) == 0x8000_0000 && Pow2(28) == 0x1000_0000
  {
    Pow2Eight(0); Pow2Eight(8); Pow2Eight(16); Pow2Eight(24);
    Pow2Eight(4); Pow2Eight(12); Pow2Eight(20);
    Pow2Eight(7); Pow2Eight(15); Pow2Eight(23);
    assert Pow2(4) == 16;
    assert Pow2(7) == 128;
  }

  /** Reading back the bits of a number that fits gives the number. */
  lemma {:induction false} ValueToBits(w: nat, n: nat)
    requires w < Pow2(n)
    ensures Value(ToBits(w, n)) == w
  {
    if n > 0 {
      ValueToBits(w / 2, n - 1);
      assert ToBits(w, n)[1..] == ToBits(w / 2, n - 1);
    }
  }

  /** Taking the bits of a bit sequence's value gives the sequence back. */
  lemma {:induction false} ToBitsValue(bs: seq<bool>)
    ensures ToBits(Value(bs), |bs|) == bs
  {
    if |bs| > 0 {
      var v := Value(bs);
      assert v % 2 == 1 <==> bs[0];
      assert v / 2 == Value(bs[1..]);
      ToBitsValue(bs[1..]);
      assert bs == [bs[0]] + bs[1..];
    }
  }

  /** The low `m` bits of the low `n` bits are the low `m` bits. */
  lemma {:induction false} ToBitsPrefix(w: nat, n: nat, m: nat)
    requires m <= n
    ensures ToBits(w, n)[..m] == ToBits(w, m)
  {
    if m > 0 {
      ToBitsPrefix(w / 2, n - 1, m - 1);
      assert ToBits(w, n)[..m] == [w % 2 == 1] + ToBits(w / 2, n - 1)[..m - 1];
    }
  }

  lemma {:induction false} ZeroBits(n: nat, j: nat)
    requires j < n
    ensures !ToBits(0, n)[j]
  {
    if j > 0 {
      ZeroBits(n - 1, j - 1);
    }
  }

  /** `2^k` has bit `k` and no other. */
  lemma {:induction false} SingleBitBits(k: nat, n: nat, j: nat)
    requires j < n
    ensures ToBits(Pow2(k), n)[j] == (j == k)
  {
    if k == 0 {
      if j > 0 {
        ZeroBits(n - 1, j - 1);
      }
    } else if j > 0 {
      SingleBitBits(k - 1, n - 1, j - 1);
    }
  }

  /** `2^m - 1` has exactly bits `0 .. m-1`. */
  lemma {:induction false} LowMaskBits(m: nat, n: nat, j: nat)
    requires j < n
    ensures ToBits(Pow2(m) - 1, n)[j] == (j < m)
  {
    if m == 0 {
      ZeroBits(n, j);
    } else if j > 0 {
      LowMaskBits(m - 1, n - 1, j - 1);
    }
  }

  /** The bits of a number below `2^m` from position `m` up are clear. */
  lemma {:induction false} HighBitsClear(w: nat, m: nat, n: nat, j: nat)
    requires w < Pow2(m) && m <= j < n
    ensures !ToBits(w, n)[j]
  {
    if m == 0 {
      ZeroBits(n, j);
    } else {
      HighBitsClear(w / 2, m - 1, n - 1, j - 1);
    }
  }

  /** Conversely, a bit sequence whose bits from `m` up are clear stands for
      a number below `2^m`. */
  lemma {:induction false} ClearHighBitsBound(bs: seq<bool>, m: nat)
    requires m <= |bs|
    requires forall j :: m <= j < |bs| ==> !bs[j]
    ensures Value(bs) < Pow2(m)
  {
    if m == 0 {
      AllClearZero(bs);
    } else {
      ClearHighBitsBound(bs[1..], m - 1);
    }
  }

  lemma {:induction false} AllClearZero(bs: seq<bool>)
    requires forall j :: 0 <= j < |bs| ==> !bs[j]
    ensures Value(bs) == 0
  {
    if |bs| > 0 {
      AllClearZero(bs[1..]);
    }
  }

  /** A sequence with a bit set stands for a positive number. */
  lemma {:induction false} SetBitPositive(bs: seq<bool>, k: nat)
    requires k < |bs| && bs[k]
    ensures Value(bs) > 0
  {
    if k > 0 {
      SetBitPositive(bs[1..], k - 1);
    }
  }

  /** The top bit of a sequence weighs `2^n` on top of the rest. */
  lemma {:induction false} ValueSplitTop(bs: seq<bool>, n: nat)
    requires |bs| == n + 1
    ensures Value(bs) == Value(bs[..n]) + (if bs[n] then Pow2(n) else 0)
  {
    if n > 0 {
      ValueSplitTop(bs[1..], n - 1);
      assert bs[..n][1..] == bs[1..][..n - 1];
    }
  }

  /** The low `m` bits of a sequence spell its number modulo `2^m`. */
  lemma {:induction false} ValuePrefixMod(bs: seq<bool>, m: nat)
    requires m <= |bs|
    ensures Value(bs[..m]) == Value(bs) % Pow2(m)
  {
    if m > 0 {
      var b0 := if bs[0] then 1 else 0;
      var v := Value(bs[1..]);
      var p := Pow2(m - 1);
      ValuePrefixMod(bs[1..], m - 1);
      assert bs[..m][1..] == bs[1..][..m - 1];
      assert Value(bs[..m]) == b0 + 2 * (v % p);
      DoubleMod(v, p, b0);
    }
  }

  /** `(uint32_t) i`: the C conversion of any integer to an unsigned word
      keeps its residue modulo 2^32. */
  function ToWord(i: int): (r: Word)
    ensures Value(r) == i % WordLimit
    ensures 0 <= i < WordLimit ==> Value(r) == i
  {
    Pow2Constants();
    ValueToBits(i % WordLimit, WordSize);
    ToBits(i % WordLimit, WordSize)
  }

  /** The low five bits of a converted integer spell it modulo 32, negative
      integers included (two's complement). */
  lemma ToWordLowBits(i: int)
    ensures Value(ToWord(i)[..5]) == i % 32
  {
    Pow2Constants();
    ValuePrefixMod(ToWord(i), 5);
    assert Pow2(5) == 32;
    DivModUnique(i % WordLimit, 32, i / 32 - (i / WordLimit) * 0x800_0000, i % 32);
  }

  /** The low eight bits of a converted integer spell it modulo 256. */
  lemma ToWordLowByte(i: int)
    ensures Value(ToWord(i)[..8]) == i % 256
  {
    Pow2Constants();
    ValuePrefixMod(ToWord(i), 8);
    Pow2Eight(0);
    DivModUnique(i % WordLimit, 256, i / 256 - (i / WordLimit) * 0x100_0000, i % 256);
  }

  /** Every word is the conversion of its own number. */
  lemma WordOfValue(w: Word)
    ensures Value(w) < WordLimit && ToWord(Value(w)) == w
  {
    Pow2Constants();
    ToBitsValue(w);
  }

  /** The bits of a converted number below `2^m`: the low `m` ones spell the
      number, the rest are clear. */
  lemma ToWordBelow(v: nat, m: nat)
    requires m <= WordSize && v < Pow2(m)
    ensures ToWord(v)[..m] == ToBits(v, m)
    ensures forall j :: m <= j < WordSize ==> !ToWord(v)[j]
  {
    Pow2Constants();
    Pow2Monotone(m, WordSize);
    ToBitsPrefix(v, WordSize, m);
    forall j | m <= j < WordSize
      ensures !ToWord(v)[j]
    {
      HighBitsClear(v, m, WordSize, j);
    }
  }

  /** `(uint32_t) (2^m - 1)` has exactly bits `0 .. m-1`. */
  lemma LowMaskWord(m: nat)
    requires m <= WordSize
    ensures var w := ToWord(Pow2(m) - 1);
            forall j :: 0 <= j < WordSize ==> w[j] == (j < m)
  {
    Pow2Constants();
    Pow2Monotone(m, WordSize);
    var w := ToWord(Pow2(m) - 1);
    assert w == ToBits(Pow2(m) - 1, WordSize);
    forall j | 0 <= j < WordSize
      ensures w[j] == (j < m)
    {
      LowMaskBits(m, WordSize, j);
    }
  }

  /** A word is below `2^m` exactly when its bits from `m` up are clear. */
  lemma WordBelow(w: Word, m: nat)
    requires m <= WordSize
    ensures Value(w) < Pow2(m) <==> forall j :: m <= j < WordSize ==> !w[j]
  {
    if Value(w) < Pow2(m) {
      WordOfValue(w);
      ToWordBelow(Value(w), m);
    }
    if forall j :: m <= j < WordSize ==> !w[j] {
      ClearHighBitsBound(w, m);
    }
  }

  /** `0u`. */
  const Zero: Word := ToWord(0)

  /** The zero word has no bit set. */
  lemma ZeroClear()
    ensures Value(Zero) == 0
    ensures forall k :: 0 <= k < WordSize ==> !Zero[k]
  {
    forall k | 0 <= k < WordSize
      ensures !Zero[k]
    {
      ZeroBits(WordSize, k);
    }
  }

  /** The bitwise OR of two bit sequences of one length. */
  function OrBits(a: seq<bool>, b: seq<bool>): (r: seq<bool>)
    requires |a| == |b|
    ensures |r| == |a|
    ensures forall k :: 0 <= k < |a| ==> r[k] == (a[k] || b[k])
  {
    if |a| == 0 then [] else [a[0] || b[0]] + OrBits(a[1..], b[1..])
  }

  /** The bitwise AND of two bit sequences of one length. */
  function AndBits(a: seq<bool>, b: seq<bool>): (r: seq<bool>)
    requires |a| == |b|
    ensures |r| == |a|
    ensures forall k :: 0 <= k < |a| ==> r[k] == (a[k] && b[k])
  {
    if |a| == 0 then [] else [a[0] && b[0]] + AndBits(a[1..], b[1..])
  }

  /** `a | b`. */
  function Or(a: Word, b: Word): Word
  {
    OrBits(a, b)
  }

  /** `a & b`. */
  function And(a: Word, b: Word): Word
  {
    AndBits(a, b)
  }

  /** `1u << k`. */
  function Shl1(k: nat): (r: Word)
    requires k < WordSize
    ensures Value(r) == Pow2(k)
    ensures forall j :: 0 <= j < WordSize ==> r[j] == (j == k)
  {
    Pow2Constants();
    Pow2Monotone(k, WordSize - 1);
    SingleBitWord(k);
    ToWord(Pow2(k))
  }

  lemma SingleBitWord(k: nat)
    ensures forall j :: 0 <= j < WordSize ==> ToBits(Pow2(k), WordSize)[j] == (j == k)
  {
    forall j | 0 <= j < WordSize
      ensures ToBits(Pow2(k), WordSize)[j] == (j == k)
    {
      SingleBitBits(k, WordSize, j);
    }
  }

  /** `w << s`: bits move up by `s`, the top ones fall off, zeros come in. */
  function Shl(w: Word, s: nat): (r: Word)
    requires s < WordSize
    ensures forall j :: 0 <= j < WordSize ==> r[j] == (s <= j && w[j - s])
  {
    if s == 0 then w else ShiftUp(Shl(w, s - 1))
  }

  /** `w << 1`. */
  function ShiftUp(w: Word): (r: Word)
    ensures forall j :: 0 <= j < WordSize ==> r[j] == (1 <= j && w[j - 1])
  {
    [false] + w[..WordSize - 1]
  }


  /** `w | (1u << k)`, written as the update of bit `k`. */
  function SetBit(w: Word, k: nat): (r: Word)
    requires k < WordSize
    ensures forall j :: 0 <= j < WordSize ==> r[j] == (w[j] || j == k)
  {
    w[k := true]
  }

  /** Setting a bit is OR-ing in the one-bit word. */
  lemma SetBitIsOr(w: Word, k: nat)
    requires k < WordSize
    ensures SetBit(w, k) == Or(w, Shl1(k))
  {
  }

  lemma OrCommutes(a: Word, b: Word)
    ensures Or(a, b) == Or(b, a)
  {
  }

  /** OR-ing in a word with no bit set changes nothing. */
  lemma OrClear(z: Word, w: Word)
    requires forall j :: 0 <= j < WordSize ==> !z[j]
    ensures Or(z, w) == w
  {
  }

  /** A bit sequence's number is its low part plus its high part scaled by
      the low part's width. */
  lemma {:induction false} ValueConcat(a: seq<bool>, b: seq<bool>)
    ensures Value(a + b) == Value(a) + Pow2(|a|) * Value(b)
  {
    if |a| > 0 {
      var t := a[1..];
      var ab := a + b;
      assert ab[1..] == t + b;
      ValueConcat(t, b);
      ValueConcatStep(a, b);
    } else {
      assert a + b == b;
    }
  }

  lemma ValueConcatStep(a: seq<bool>, b: seq<bool>)
    requires |a| > 0 && (a + b)[1..] == a[1..] + b
    requires Value(a[1..] + b) == Value(a[1..]) + Pow2(|a| - 1) * Value(b)
    ensures Value(a + b) == Value(a) + Pow2(|a|) * Value(b)
  {
    var a0 := if a[0] then 1 else 0;
    DoubleScaled(a0, Value(a[1..]), Pow2(|a| - 1), Value(b));
  }

}
