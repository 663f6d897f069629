/** The GPIO wiring of the demo and the pin-state words it shifts out: the
    row address word of `calc_addr_bits` and the two clock phases of one
    column that `add_pixels` pushes. Bit `k` of a pin-state word drives
    GPIO `k`. */
module Pins {
  import opened Arith
  import opened Bits
  import opened CommandStream
  import opened StreamBuilder

  const PinR0: nat := 5
  const PinG0: nat := 13
  const PinB0: nat := 6
  const PinR1: nat := 12
  const PinG1: nat := 16
  const PinB1: nat := 23
  const PinAddrA: nat := 22
  const PinAddrB: nat := 26
  const PinAddrC: nat := 27
  const PinAddrD: nat := 20
  const PinAddrE: nat := 24
  /** `/OE`: the panel lights while this pin is low. */
  const PinOe: nat := 4
  /** Shift-register clock, rising edge. */
  const PinClk: nat := 17
  /** Latch, rising edge. */
  const PinLat: nat := 21

  /** The PIO program drives GPIOs `0 .. 27`; every pin above is among them. */
  const OutPins: nat := 28

  const ClkBit: Word := Shl1(PinClk)
  const LatBit: Word := Shl1(PinLat)
  const OeBit: Word := Shl1(PinOe)
  const OeActive: Word := Zero
  const OeInactive: Word := OeBit

  /** `if (cond) data |= (1 << pin);`, written without a branch: bit `pin`
      becomes set when `cond` holds and is otherwise kept. */
  function SetIf(data: Word, cond: bool, pin: nat): (r: Word)
    requires pin < WordSize
    ensures forall j :: 0 <= j < WordSize ==> r[j] == (data[j] || (cond && j == pin))
  {
    data[pin := data[pin] || cond]
  }

  /** `SetIf` is the C statement: when `cond` holds the word is
      `data | (1 << pin)`, otherwise `data` itself. */
  lemma SetIfIsOr(data: Word, cond: bool, pin: nat)
    requires pin < WordSize
    ensures cond ==> SetIf(data, cond, pin) == Or(data, Shl1(pin))
    ensures !cond ==> SetIf(data, cond, pin) == data
  {
    if cond {
      assert SetIf(data, cond, pin) == SetBit(data, pin);
      SetBitIsOr(data, pin);
    }
  }

  /** `calc_addr_bits`: bits 0 to 4 of a C `int` address, in two's
      complement, each drive one address pin. */
  function CalcAddrBits(addr: int): (r: Word)
    requires -IntLimit <= addr < IntLimit
    ensures var a := ToWord(addr);
            forall j :: 0 <= j < WordSize ==>
              r[j] == (|| (j == PinAddrA && a[0])
                       || (j == PinAddrB && a[1])
                       || (j == PinAddrC && a[2])
                       || (j == PinAddrD && a[3])
                       || (j == PinAddrE && a[4]))
  {
    var a := ToWord(addr);
    ZeroClear();
    SetIf(SetIf(SetIf(SetIf(SetIf(Zero, a[0], PinAddrA), a[1], PinAddrB), a[2], PinAddrC),
                a[3], PinAddrD), a[4], PinAddrE)
  }

  /** The address the panel decodes from the five address pins. */
  function ReadAddr(w: Word): nat
  {
    Value([w[PinAddrA], w[PinAddrB], w[PinAddrC], w[PinAddrD], w[PinAddrE]])
  }

  /** The panel decodes the address `calc_addr_bits` was given, modulo the
      32 rows five lines can select. */
  lemma CalcAddrBitsRoundTrip(addr: int)
    requires -IntLimit <= addr < IntLimit
    ensures ReadAddr(CalcAddrBits(addr)) == addr % 32
  {
    var w := CalcAddrBits(addr);
    var a := ToWord(addr);
    assert w[PinAddrA] == a[0] && w[PinAddrB] == a[1] && w[PinAddrC] == a[2];
    assert w[PinAddrD] == a[3] && w[PinAddrE] == a[4];
    ReadAddrPins(w, a);
    ToWordLowBits(addr);
  }

  /** Every row address the panel can select survives the trip. */
  lemma CalcAddrBitsDecode(addr: int)
    requires 0 <= addr < 32
    ensures ReadAddr(CalcAddrBits(addr)) == addr
  {
    CalcAddrBitsRoundTrip(addr);
    DivModUnique(addr, 32, 0, addr);
  }

  /** The address pins of `w`, read as a number, are the low five bits of
      `a` when they carry them. */
  lemma ReadAddrPins(w: Word, a: Word)
    requires w[PinAddrA] == a[0] && w[PinAddrB] == a[1] && w[PinAddrC] == a[2]
    requires w[PinAddrD] == a[3] && w[PinAddrE] == a[4]
    ensures ReadAddr(w) == Value(a[..5])
  {
    assert [w[PinAddrA], w[PinAddrB], w[PinAddrC], w[PinAddrD], w[PinAddrE]] == a[..5];
  }

  /** The column word of `add_pixels` before the clock edge: `/OE` high
      unless `active`, the address bits, and one pin per lit colour flag.
      `PinWordIsOr` shows the first step is the C expression
      `(active ? oe_active : oe_inactive) | addr_bits`. */
  function PinWord(addrBits: Word, r0: bool, g0: bool, b0: bool, r1: bool, g1: bool, b1: bool,
                   active: bool): (r: Word)
    ensures forall j :: 0 <= j < WordSize ==>
              r[j] == (|| addrBits[j]
                       || (j == PinOe && !active)
                       || (j == PinR0 && r0) || (j == PinG0 && g0) || (j == PinB0 && b0)
                       || (j == PinR1 && r1) || (j == PinG1 && g1) || (j == PinB1 && b1))
  {
    var base := SetIf(addrBits, !active, PinOe);
    SetIf(SetIf(SetIf(SetIf(SetIf(SetIf(base, r0, PinR0), g0, PinG0), b0, PinB0),
                      r1, PinR1), g1, PinG1), b1, PinB1)
  }

  /** Choosing `/OE` by OR-ing in `oe_active` (nothing) or `oe_inactive`
      (the `/OE` pin) raises `/OE` exactly when not active. */
  lemma PinWordIsOr(addrBits: Word, active: bool)
    ensures SetIf(addrBits, !active, PinOe) == Or(if active then OeActive else OeInactive, addrBits)
  {
    if active {
      ZeroClear();
      OrClear(OeActive, addrBits);
    } else {
      SetBitIsOr(addrBits, PinOe);
      OrCommutes(addrBits, OeInactive);
    }
  }

  /** A word that drives only address pins, as `calc_addr_bits` makes. */
  predicate AddressOnly(w: Word)
  {
    forall j :: 0 <= j < WordSize && w[j] ==>
      j == PinAddrA || j == PinAddrB || j == PinAddrC || j == PinAddrD || j == PinAddrE
  }

  lemma AddrBitsAddressOnly(addr: int)
    requires -IntLimit <= addr < IntLimit
    ensures AddressOnly(CalcAddrBits(addr))
  {
  }

  /** Words that agree on the address pins select the same row. */
  lemma SameAddress(w: Word, v: Word)
    requires w[PinAddrA] == v[PinAddrA] && w[PinAddrB] == v[PinAddrB] && w[PinAddrC] == v[PinAddrC]
    requires w[PinAddrD] == v[PinAddrD] && w[PinAddrE] == v[PinAddrE]
    ensures ReadAddr(w) == ReadAddr(v)
  {
    assert [w[PinAddrA], w[PinAddrB], w[PinAddrC], w[PinAddrD], w[PinAddrE]]
        == [v[PinAddrA], v[PinAddrB], v[PinAddrC], v[PinAddrD], v[PinAddrE]];
  }

  /** On an address word, the column word keeps the address, raises
      `/OE` exactly when not active, and leaves clock and latch low. */
  lemma PinWordControl(addrBits: Word, r0: bool, g0: bool, b0: bool, r1: bool, g1: bool, b1: bool,
                       active: bool)
    requires AddressOnly(addrBits)
    ensures var w := PinWord(addrBits, r0, g0, b0, r1, g1, b1, active);
            && ReadAddr(w) == ReadAddr(addrBits)
            && w[PinOe] == !active && !w[PinClk] && !w[PinLat]
  {
    var w := PinWord(addrBits, r0, g0, b0, r1, g1, b1, active);
    SameAddress(w, addrBits);
  }

  /** On an address word, each colour flag of the column word drives its
      own pin. */
  lemma PinWordColours(addrBits: Word, r0: bool, g0: bool, b0: bool, r1: bool, g1: bool, b1: bool,
                       active: bool)
    requires AddressOnly(addrBits)
    ensures var w := PinWord(addrBits, r0, g0, b0, r1, g1, b1, active);
            && w[PinR0] == r0 && w[PinG0] == g0 && w[PinB0] == b0
            && w[PinR1] == r1 && w[PinG1] == g1 && w[PinB1] == b1
  {
  }

  /** A word that drives only the PIO's output pins. */
  predicate OutputOnly(w: Word)
  {
    forall j :: OutPins <= j < WordSize ==> !w[j]
  }

  /** Such a word is below `2^28`, so bit 31 is clear and the hardware can
      never take it for a DATA header. */
  lemma OutputOnlyNotHeader(w: Word)
    requires OutputOnly(w)
    ensures Value(w) < Pow2(OutPins) && !IsHeader(w)
  {
    WordBelow(w, OutPins);
  }

  lemma AddressOnlyOutputOnly(w: Word)
    requires AddressOnly(w)
    ensures OutputOnly(w)
  {
  }

  lemma AddrBitsOutputOnly(addr: int)
    requires -IntLimit <= addr < IntLimit
    ensures OutputOnly(CalcAddrBits(addr))
  {
  }

  /** Column words built on an address word drive only output pins. */
  lemma PinWordOutputOnly(addrBits: Word, r0: bool, g0: bool, b0: bool, r1: bool, g1: bool,
                          b1: bool, active: bool)
    requires OutputOnly(addrBits)
    ensures OutputOnly(PinWord(addrBits, r0, g0, b0, r1, g1, b1, active))
  {
  }

  /** Raising one more output pin keeps a word on the output pins. */
  lemma SetBitOutputOnly(w: Word, pin: nat)
    requires OutputOnly(w) && pin < OutPins
    ensures OutputOnly(SetBit(w, pin))
  {
  }

  /** Every word of `ws` drives only output pins. */
  predicate WordsOutputOnly(ws: seq<Word>)
  {
    forall j :: 0 <= j < |ws| ==> OutputOnly(ws[j])
  }

  /** Every payload word of every DATA run in `cs` drives only output
      pins. */
  predicate PayloadOutputOnly(cs: seq<Command>)
    decreases |cs|
  {
    |cs| == 0 || ((cs[0].Data? ==> WordsOutputOnly(cs[0].payload)) && PayloadOutputOnly(cs[1..]))
  }

  lemma {:induction false} PayloadAppend(a: seq<Command>, b: seq<Command>)
    requires PayloadOutputOnly(a) && PayloadOutputOnly(b)
    ensures PayloadOutputOnly(a + b)
    decreases |a|
  {
    if |a| > 0 {
      assert (a + b)[1..] == a[1..] + b;
      PayloadAppend(a[1..], b);
    } else {
      assert a + b == b;
    }
  }

  /** A joined list of commands keeps its parts' payload words on the
      output pins. */
  lemma PayloadJoin(cs: seq<Command>, a: seq<Command>, b: seq<Command>)
    requires cs == a + b
    ensures PayloadOutputOnly(a) && PayloadOutputOnly(b) ==> PayloadOutputOnly(cs)
  {
    if PayloadOutputOnly(a) && PayloadOutputOnly(b) {
      PayloadAppend(a, b);
    }
  }

  /** `do_data_delay` of a word on the output pins. */
  lemma DataDelayOutputOnly(d: Word, delay: nat)
    requires delay < MaxDelay && OutputOnly(d)
    ensures PayloadOutputOnly(DataDelayCommands(d, delay))
  {
    var cs := DataDelayCommands(d, delay);
    assert WordsOutputOnly([d]);
    if delay == 0 {
      assert cs[1..] == [];
    } else {
      assert cs[1..] == [Delay(delay)] && cs[1..][1..] == [];
    }
  }

  /** Every payload word of a list on the output pins is below `2^28`, so
      the hardware never takes it for a DATA header. */
  lemma PayloadPins(cs: seq<Command>)
    requires PayloadOutputOnly(cs)
    ensures forall i, j :: 0 <= i < |cs| && cs[i].Data? && 0 <= j < |cs[i].payload| ==>
              var w := cs[i].payload[j];
              OutputOnly(w) && Value(w) < Pow2(OutPins) && !IsHeader(w)
  {
    forall i, j | 0 <= i < |cs| && cs[i].Data? && 0 <= j < |cs[i].payload|
      ensures var w := cs[i].payload[j];
              OutputOnly(w) && Value(w) < Pow2(OutPins) && !IsHeader(w)
    {
      PayloadWordPins(cs, i, j);
    }
  }

  /** Word `j` of command `i` of such a list drives only output pins. */
  lemma {:induction false} PayloadWordPins(cs: seq<Command>, i: nat, j: nat)
    requires PayloadOutputOnly(cs) && i < |cs| && cs[i].Data? && j < |cs[i].payload|
    ensures var w := cs[i].payload[j];
            OutputOnly(w) && Value(w) < Pow2(OutPins) && !IsHeader(w)
    decreases i
  {
    if i == 0 {
      assert OutputOnly(cs[0].payload[j]);
      OutputOnlyNotHeader(cs[0].payload[j]);
    } else {
      assert cs[i] == cs[1..][i - 1];
      PayloadWordPins(cs[1..], i - 1, j);
    }
  }

  /** A column word and its clocked copy, ahead of words on the output
      pins, are all on the output pins. */
  lemma ClockedPairOutputOnly(w: Word, rest: seq<Word>)
    requires OutputOnly(w) && WordsOutputOnly(rest)
    ensures WordsOutputOnly([w, SetBit(w, PinClk)] + rest)
  {
    SetBitOutputOnly(w, PinClk);
  }

  /** `add_pixels`: inside a run, the column word and then the same word
      with the clock pin raised (`data | clk_bit`, see `SetBitIsOr`), so
      the shift registers sample on the rising edge. */
  function AddPixels(b: Builder, addrBits: Word, r0: bool, g0: bool, b0: bool,
                     r1: bool, g1: bool, b1: bool, active: bool): (r: Builder)
    requires b.dataCount >= 2
    ensures var w := PinWord(addrBits, r0, g0, b0, r1, g1, b1, active);
            && r.out == b.out + [w, SetBit(w, PinClk)]
            && r.dataCount == b.dataCount - 2
    ensures Consistent(b) ==> Consistent(r)
  {
    var w := PinWord(addrBits, r0, g0, b0, r1, g1, b1, active);
    DoData(DoData(b, w), SetBit(w, PinClk))
  }

  /** The two words of a column differ only in the clock pin, which is low
      in the first and high in the second; `/OE` is low, lighting the
      panel, exactly when `active` (given an address word). */
  lemma ColumnClockPhases(addr: int, r0: bool, g0: bool, b0: bool, r1: bool, g1: bool,
                          b1: bool, active: bool)
    requires -IntLimit <= addr < IntLimit
    ensures var w := PinWord(CalcAddrBits(addr), r0, g0, b0, r1, g1, b1, active);
            var w' := SetBit(w, PinClk);
            && !w[PinClk] && w'[PinClk]
            && (forall j :: 0 <= j < WordSize && j != PinClk ==> w'[j] == w[j])
            && (w[PinOe] <==> !active) && (w'[PinOe] <==> !active)
  {
  }
}
