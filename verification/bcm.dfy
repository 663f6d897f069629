/** The binary-coded-modulation loop of the demo's `test_pattern`: for each
    of the eight most significant colour bits, from the top bit down, and
    each of the eight row pairs, one DATA run of 64 column words shifting in
    that bit plane of the row pair, then the words that blank, latch and
    readdress the panel.

    The loop is pipelined: the row shifted in during an iteration is lit
    only in the next one, so an iteration lights the previous row address,
    for the duration the previous bit plane asks for. */
module Bcm {
  import opened Arith
  import opened Bits
  import opened CommandStream
  import opened StreamBuilder
  import opened Pins

  /** `ACROSS` and `DOWN`: the framebuffer is 16 rows of 32 pixels. */
  const Across: nat := 32
  const Down: nat := 16
  /** Row `addr` and row `addr + 8` are shifted in together. */
  const RowPairs: nat := 8
  /** `N_PLANES` of the `N_BITS` bits of each channel are shown. */
  const NPlanes: nat := 8
  const NBits: nat := 10
  const Offset: nat := NBits - NPlanes
  /** `DATA_OVERHEAD`: cycles the PIO spends on a payload word. */
  const DataOverhead: nat := 2
  const PostOeDelay: nat := 0
  const PostLatchDelay: nat := 0
  const PostAddrDelay: nat := 50

  /** The framebuffer: `Down` rows of `Across` pixels, each the packed
      10-bit channels of `rgb`. */
  predicate ValidPixels(pixels: seq<seq<Word>>)
  {
    |pixels| == Down && forall y :: 0 <= y < Down ==> |pixels[y]| == Across
  }

  /** The masks `r`, `g`, `b` of bit plane `bit`: bit `bit` of each
      channel's top eight bits. */
  function RedMask(bit: nat): Word
    requires bit < NPlanes
  {
    Shl1(20 + Offset + bit)
  }

  function GreenMask(bit: nat): Word
    requires bit < NPlanes
  {
    Shl1(10 + Offset + bit)
  }

  function BlueMask(bit: nat): Word
    requires bit < NPlanes
  {
    Shl1(0 + Offset + bit)
  }

  /** `pixel & mask`, used as a `bool`: nonzero. */
  function Lit(pixel: Word, mask: Word): bool
  {
    Value(And(pixel, mask)) != 0
  }

  /** With a one-bit mask, whether the pixel has that bit. */
  lemma LitBit(pixel: Word, k: nat)
    requires k < WordSize
    ensures Lit(pixel, Shl1(k)) == pixel[k]
  {
    var a := And(pixel, Shl1(k));
    if pixel[k] {
      SetBitPositive(a, k);
    } else {
      AllClearZero(a);
    }
  }

  /** The column word of column `across` of bit plane `bit` for row pair
      `addr`, on the address word `addrBits`, lit while `across < desired`. */
  function ColumnWord(pixels: seq<seq<Word>>, bit: nat, addr: nat, addrBits: Word, desired: nat,
                      across: nat): Word
    requires ValidPixels(pixels) && bit < NPlanes && addr < RowPairs && across < Across
  {
    var p0 := pixels[addr][across];
    var p1 := pixels[addr + RowPairs][across];
    PinWord(addrBits,
            Lit(p0, RedMask(bit)), Lit(p0, GreenMask(bit)), Lit(p0, BlueMask(bit)),
            Lit(p1, RedMask(bit)), Lit(p1, GreenMask(bit)), Lit(p1, BlueMask(bit)),
            across < desired)
  }

  /** The payload words of one row run from column `across` on: each
      column's word, then the same word with the clock raised. */
  function RowWords(pixels: seq<seq<Word>>, bit: nat, addr: nat, addrBits: Word, desired: nat,
                    across: nat): (p: seq<Word>)
    requires ValidPixels(pixels) && bit < NPlanes && addr < RowPairs && across <= Across
    ensures |p| == 2 * (Across - across)
    decreases |pixels[addr]| - across
  {
    if across == Across then []
    else
      var w := ColumnWord(pixels, bit, addr, addrBits, desired, across);
      [w, SetBit(w, PinClk)] + RowWords(pixels, bit, addr, addrBits, desired, across + 1)
  }

  /** `add_pixels` for column `across`. */
  function AddColumn(b: Builder, pixels: seq<seq<Word>>, bit: nat, addr: nat, addrBits: Word,
                     desired: nat, across: nat): (r: Builder)
    requires ValidPixels(pixels) && bit < NPlanes && addr < RowPairs && across < Across
    requires b.dataCount >= 2
    ensures var w := ColumnWord(pixels, bit, addr, addrBits, desired, across);
            r.out == b.out + [w, SetBit(w, PinClk)]
    ensures r.dataCount == b.dataCount - 2
    ensures Consistent(b) ==> Consistent(r)
  {
    var p0 := pixels[addr][across];
    var p1 := pixels[addr + RowPairs][across];
    AddPixels(b, addrBits,
              Lit(p0, RedMask(bit)), Lit(p0, GreenMask(bit)), Lit(p0, BlueMask(bit)),
              Lit(p1, RedMask(bit)), Lit(p1, GreenMask(bit)), Lit(p1, BlueMask(bit)),
              across < desired)
  }

  /** The inner `for (across ...)` loop from column `across` on, inside a
      run that owes two words per remaining column: it closes the run. */
  function ShiftRow(b: Builder, pixels: seq<seq<Word>>, bit: nat, addr: nat, addrBits: Word,
                    desired: nat, across: nat): (r: Builder)
    requires ValidPixels(pixels) && bit < NPlanes && addr < RowPairs && across <= Across
    requires b.dataCount == 2 * (Across - across)
    ensures r.dataCount == 0
    ensures Consistent(b) ==> Consistent(r)
    decreases |pixels[addr]| - across
  {
    if across == Across then b
    else ShiftRow(AddColumn(b, pixels, bit, addr, addrBits, desired, across),
                  pixels, bit, addr, addrBits, desired, across + 1)
  }

  /** The loop emits the row's payload words, in column order. */
  lemma {:induction false} ShiftRowWords(b: Builder, pixels: seq<seq<Word>>, bit: nat, addr: nat,
                                         addrBits: Word, desired: nat, across: nat)
    requires ValidPixels(pixels) && bit < NPlanes && addr < RowPairs && across <= Across
    requires b.dataCount == 2 * (Across - across)
    ensures ShiftRow(b, pixels, bit, addr, addrBits, desired, across).out
            == b.out + RowWords(pixels, bit, addr, addrBits, desired, across)
    decreases Across - across
  {
    if across < Across {
      var b' := AddColumn(b, pixels, bit, addr, addrBits, desired, across);
      ShiftRowWords(b', pixels, bit, addr, addrBits, desired, across + 1);
      var w := ColumnWord(pixels, bit, addr, addrBits, desired, across);
      var rest := RowWords(pixels, bit, addr, addrBits, desired, across + 1);
      Regroup(b.out, [w, SetBit(w, PinClk)], rest);
    }
  }

  /** `addr_bits | oe_inactive`: the address word with `/OE` raised, which
      blanks the panel. */
  function BlankWord(addrBits: Word): (w: Word)
  {
    SetBit(addrBits, PinOe)
  }

  /** `addr_bits | oe_inactive | lat_bit`: blanked, with the latch raised. */
  function LatchWord(addrBits: Word): (w: Word)
  {
    SetBit(BlankWord(addrBits), PinLat)
  }

  /** The two words are the C expressions bit for bit. */
  lemma BlankAndLatchAreOr(addrBits: Word)
    ensures BlankWord(addrBits) == Or(addrBits, OeInactive)
    ensures LatchWord(addrBits) == Or(Or(addrBits, OeInactive), LatBit)
  {
    SetBitIsOr(addrBits, PinOe);
    SetBitIsOr(BlankWord(addrBits), PinLat);
  }

  /** The blank word keeps the row address with `/OE` high and clock and
      latch low; the latch word is the same with the latch raised. Both
      drive only output pins. */
  lemma BlankWordPins(addrBits: Word)
    requires AddressOnly(addrBits)
    ensures var w := BlankWord(addrBits);
            && ReadAddr(w) == ReadAddr(addrBits) && w[PinOe] && !w[PinClk] && !w[PinLat]
            && OutputOnly(w)
  {
    SameAddress(BlankWord(addrBits), addrBits);
  }

  lemma LatchWordPins(addrBits: Word)
    requires AddressOnly(addrBits)
    ensures var w := LatchWord(addrBits);
            && ReadAddr(w) == ReadAddr(addrBits) && w[PinOe] && !w[PinClk] && w[PinLat]
            && OutputOnly(w)
  {
    SameAddress(LatchWord(addrBits), addrBits);
  }

  /** `desired_duration = 1 << last_bit` for a plane index. */
  lemma DurationBound(lastBit: nat)
    requires lastBit < NPlanes
    ensures 1 <= Pow2(lastBit) <= 128
  {
    Pow2Monotone(lastBit, 7);
    assert Pow2(7) == 128;
  }

  /** The loop variables `last_bit` and `prev_addr` carried from one
      iteration to the next, with the builder. */
  datatype LoopState = LoopState(b: Builder, lastBit: nat, prevAddr: nat)

  predicate ValidState(s: LoopState)
  {
    s.b.dataCount == 0 && s.lastBit < NPlanes && s.prevAddr < RowPairs
  }

  /** The row run of one iteration: the header of the 64-word run, the
      row's payload, and, when the duration outlasts the run, a DELAY that
      keeps the row lit for the remainder. */
  function RowRun(b: Builder, pixels: seq<seq<Word>>, bit: nat, addr: nat, addrBits: Word,
                  desired: nat): (r: Builder)
    requires ValidPixels(pixels) && bit < NPlanes && addr < RowPairs
    requires b.dataCount == 0 && desired <= 128
    ensures r.dataCount == 0
    ensures Consistent(b) ==> Consistent(r)
  {
    var b1 := PrepData(b, 2 * Across);
    var b2 := ShiftRow(b1, pixels, bit, addr, addrBits, desired, 0);
    if desired > Across then DoDelay(b2, (desired - Across) * DataOverhead) else b2
  }

  /** The end of one iteration: blank the panel, latch the shifted row,
      and switch the address lines to the row just shifted in. */
  function SwitchRow(b: Builder, addrBits: Word, nextAddrBits: Word): (r: Builder)
    requires b.dataCount == 0
    ensures r.dataCount == 0
    ensures Consistent(b) ==> Consistent(r)
  {
    var b4 := DoDataDelay(b, BlankWord(addrBits), PostOeDelay);
    var b5 := DoDataDelay(b4, LatchWord(addrBits), PostLatchDelay);
    DoDataDelay(b5, BlankWord(nextAddrBits), PostAddrDelay)
  }

  /** The commands of a row run: one DATA run of the row's payload, then
      the hold DELAY when the duration outlasts the run. */
  function RunCommands(pixels: seq<seq<Word>>, bit: nat, addr: nat, addrBits: Word, desired: nat)
    : (cs: seq<Command>)
    requires ValidPixels(pixels) && bit < NPlanes && addr < RowPairs && desired <= 128
    ensures AllEncodable(cs)
  {
    var run := Data(RowWords(pixels, bit, addr, addrBits, desired, 0));
    EncodableOne(run);
    if desired > Across then
      EncodableTwo(run, Delay((desired - Across) * DataOverhead));
      [run, Delay((desired - Across) * DataOverhead)]
    else [run]
  }

  /** The commands of the blank, latch and readdress steps. */
  function SwitchCommands(addrBits: Word, nextAddrBits: Word): (cs: seq<Command>)
    ensures AllEncodable(cs)
  {
    var blank := DataDelayCommands(BlankWord(addrBits), PostOeDelay);
    var latch := DataDelayCommands(LatchWord(addrBits), PostLatchDelay);
    var next := DataDelayCommands(BlankWord(nextAddrBits), PostAddrDelay);
    EncodableAppend(blank, latch);
    EncodableAppend(blank + latch, next);
    blank + latch + next
  }

  /** Emitting the encodings of two command lists one after the other
      emits the encoding of their concatenation. */
  lemma EncodeThen(x: seq<Word>, y: seq<Word>, z: seq<Word>, a: seq<Command>, c: seq<Command>)
    requires AllEncodable(a) && AllEncodable(c)
    requires y == x + Encode(a) && z == y + Encode(c)
    ensures AllEncodable(a + c) && z == x + Encode(a + c)
  {
    EncodeAppend(a, c);
    Regroup(x, Encode(a), Encode(c));
  }

  /** A header for `n` words followed by `n` payload words is the encoding
      of one DATA run. */
  lemma DataRun(b: Builder, n: nat, payload: seq<Word>, out: seq<Word>)
    requires b.dataCount == 0 && 1 <= n < MaxRun && |payload| == n
    requires out == PrepData(b, n).out + payload
    ensures out == b.out + Encode([Data(payload)])
  {
    EncodeOne(Data(payload));
    Regroup(b.out, [HeaderWord(n)], payload);
  }

  lemma RowRunEncodes(b: Builder, pixels: seq<seq<Word>>, bit: nat, addr: nat, addrBits: Word,
                      desired: nat)
    requires ValidPixels(pixels) && bit < NPlanes && addr < RowPairs
    requires b.dataCount == 0 && desired <= 128
    ensures RowRun(b, pixels, bit, addr, addrBits, desired).out
            == b.out + Encode(RunCommands(pixels, bit, addr, addrBits, desired))
  {
    var row := RowWords(pixels, bit, addr, addrBits, desired, 0);
    var b1 := PrepData(b, 2 * Across);
    var b2 := ShiftRow(b1, pixels, bit, addr, addrBits, desired, 0);
    ShiftRowWords(b1, pixels, bit, addr, addrBits, desired, 0);
    DataRun(b, 2 * Across, row, b2.out);
    if desired > Across {
      var d := (desired - Across) * DataOverhead;
      DelayTail(b2, d);
      EncodeOne(Delay(d));
      EncodeThen(b.out, b2.out, DoDelay(b2, d).out, [Data(row)], [Delay(d)]);
    }
  }

  lemma SwitchRowEncodes(b: Builder, addrBits: Word, nextAddrBits: Word)
    requires b.dataCount == 0
    ensures SwitchRow(b, addrBits, nextAddrBits).out == b.out + Encode(SwitchCommands(addrBits, nextAddrBits))
  {
    var blank := DataDelayCommands(BlankWord(addrBits), PostOeDelay);
    var latch := DataDelayCommands(LatchWord(addrBits), PostLatchDelay);
    var next := DataDelayCommands(BlankWord(nextAddrBits), PostAddrDelay);
    var b4 := DoDataDelay(b, BlankWord(addrBits), PostOeDelay);
    var b5 := DoDataDelay(b4, LatchWord(addrBits), PostLatchDelay);
    var b6 := DoDataDelay(b5, BlankWord(nextAddrBits), PostAddrDelay);
    DoDataDelayEncodes(b, BlankWord(addrBits), PostOeDelay);
    DoDataDelayEncodes(b4, LatchWord(addrBits), PostLatchDelay);
    DoDataDelayEncodes(b5, BlankWord(nextAddrBits), PostAddrDelay);
    EncodeThen(b.out, b4.out, b5.out, blank, latch);
    EncodeThen(b.out, b5.out, b6.out, blank + latch, next);
  }

  /** The commands of one iteration on address words `addrBits` (lit) and
      `nextAddrBits` (shifted in), lit for `desired` columns. */
  function StepCommands(pixels: seq<seq<Word>>, bit: nat, addr: nat, addrBits: Word,
                        nextAddrBits: Word, desired: nat): (cs: seq<Command>)
    requires ValidPixels(pixels) && bit < NPlanes && addr < RowPairs && desired <= 128
    ensures AllEncodable(cs)
  {
    var run := RunCommands(pixels, bit, addr, addrBits, desired);
    var switch := SwitchCommands(addrBits, nextAddrBits);
    EncodableAppend(run, switch);
    run + switch
  }

  /** The commands of one iteration, given the `last_bit` and `prev_addr`
      it starts from. */
  function IterationCommands(pixels: seq<seq<Word>>, bit: nat, addr: nat, lastBit: nat, prevAddr: nat)
    : (cs: seq<Command>)
    requires ValidPixels(pixels) && bit < NPlanes && addr < RowPairs
    requires lastBit < NPlanes && prevAddr < RowPairs
    ensures AllEncodable(cs)
  {
    DurationBound(lastBit);
    StepCommands(pixels, bit, addr, CalcAddrBits(prevAddr), CalcAddrBits(addr), Pow2(lastBit))
  }

  /** One pass of the body of `for (addr ...)`: light the previous row
      address while shifting in row pair `addr` of plane `bit` for the
      duration the previous plane asks for, then blank, latch, and switch
      the address lines to `addr`. It emits exactly the encoding of the
      iteration's commands and passes on `bit` and `addr` as the new
      `last_bit` and `prev_addr`. */
  method Iteration(s: LoopState, pixels: seq<seq<Word>>, bit: nat, addr: nat) returns (r: LoopState)
    requires ValidPixels(pixels) && bit < NPlanes && addr < RowPairs && ValidState(s)
    ensures ValidState(r) && r.lastBit == bit && r.prevAddr == addr
    ensures Consistent(s.b) ==> Consistent(r.b)
    ensures r.b.out == s.b.out + Encode(IterationCommands(pixels, bit, addr, s.lastBit, s.prevAddr))
  {
    var desired := Pow2(s.lastBit);
    DurationBound(s.lastBit);
    var addrBits := CalcAddrBits(s.prevAddr);
    var lit := RowRun(s.b, pixels, bit, addr, addrBits, desired);
    RowRunEncodes(s.b, pixels, bit, addr, addrBits, desired);
    var switched := SwitchRow(lit, addrBits, CalcAddrBits(addr));
    SwitchRowEncodes(lit, addrBits, CalcAddrBits(addr));
    EncodeThen(s.b.out, lit.out, switched.out,
               RunCommands(pixels, bit, addr, addrBits, desired),
               SwitchCommands(addrBits, CalcAddrBits(addr)));
    r := LoopState(switched, bit, addr);
  }

  /** The plane whose duration iteration (`bit`, `addr`) shows: the
      previous iteration's plane, which for the first row pair of a plane
      is the plane above, and for the very first iteration the initial
      `last_bit` of 0. */
  function PrevBit(bit: nat, addr: nat): nat
  {
    if addr > 0 then bit else if bit + 1 < NPlanes then bit + 1 else 0
  }

  /** The row address iteration `addr` lights: the one before, cyclically. */
  function PrevAddr(addr: nat): nat
  {
    if addr > 0 then addr - 1 else RowPairs - 1
  }

  /** The iteration after (`bit`, `addr`) lights what (`bit`, `addr`)
      shifted in: the next row pair of the plane, or after the last row
      pair, row pair 0 of the plane below, lights row `addr` for plane
      `bit`. */
  lemma NextLightsThis(bit: nat, addr: nat)
    requires bit < NPlanes && addr < RowPairs
    ensures addr + 1 < RowPairs ==> PrevBit(bit, addr + 1) == bit && PrevAddr(addr + 1) == addr
    ensures addr + 1 == RowPairs && bit > 0 ==> PrevBit(bit - 1, 0) == bit && PrevAddr(0) == addr
  {
  }

  /** The commands of the first `n` iterations of plane `bit`, each
      lighting the previous row address for the previous plane's
      duration. */
  function PlaneRows(pixels: seq<seq<Word>>, bit: nat, n: nat): (cs: seq<Command>)
    requires ValidPixels(pixels) && bit < NPlanes && n <= RowPairs
    ensures AllEncodable(cs)
    decreases n, |pixels|
  {
    if n == 0 then []
    else
      var before := PlaneRows(pixels, bit, n - 1);
      var here := IterationCommands(pixels, bit, n - 1, PrevBit(bit, n - 1), PrevAddr(n - 1));
      EncodableAppend(before, here);
      before + here
  }

  /** The commands of the first `n` planes shown, from the top plane
      down. */
  function Schedule(pixels: seq<seq<Word>>, n: nat): (cs: seq<Command>)
    requires ValidPixels(pixels) && n <= NPlanes
    ensures AllEncodable(cs)
    decreases n, |pixels|
  {
    if n == 0 then []
    else
      var before := Schedule(pixels, n - 1);
      var here := PlaneRows(pixels, NPlanes - n, RowPairs);
      EncodableAppend(before, here);
      before + here
  }

  /** Appending the encoding of more commands to an encoding. */
  lemma EncodeExtend(out: seq<Word>, a: seq<Command>, c: seq<Command>)
    requires AllEncodable(a) && AllEncodable(c) && out == Encode(a)
    ensures AllEncodable(a + c) && out + Encode(c) == Encode(a + c)
  {
    EncodeAppend(a, c);
  }

  /** `last_bit = 0`, `prev_addr = 7`, nothing emitted yet. */
  const Start: LoopState := LoopState(Builder([], 0), 0, RowPairs - 1)

  /** The body of `for (bit ...)`: the eight row pairs of plane `bit`. */
  method Plane(s: LoopState, pixels: seq<seq<Word>>, bit: nat) returns (r: LoopState)
    requires ValidPixels(pixels) && bit < NPlanes && ValidState(s)
    requires s.lastBit == PrevBit(bit, 0) && s.prevAddr == PrevAddr(0)
    ensures ValidState(r) && r.lastBit == bit && r.prevAddr == RowPairs - 1
    ensures Consistent(s.b) ==> Consistent(r.b)
    ensures r.b.out == s.b.out + Encode(PlaneRows(pixels, bit, RowPairs))
  {
    r := s;
    var addr: nat := 0;
    while addr < RowPairs
      invariant addr <= RowPairs
      invariant ValidState(r) && (Consistent(s.b) ==> Consistent(r.b))
      invariant r.lastBit == PrevBit(bit, addr) && r.prevAddr == PrevAddr(addr)
      invariant r.b.out == s.b.out + Encode(PlaneRows(pixels, bit, addr))
    {
      var before := PlaneRows(pixels, bit, addr);
      var here := IterationCommands(pixels, bit, addr, r.lastBit, r.prevAddr);
      var r' := Iteration(r, pixels, bit, addr);
      EncodeThen(s.b.out, r.b.out, r'.b.out, before, here);
      r := r';
      addr := addr + 1;
    }
  }

  /** Plane `NPlanes - 1 - n` carries the first `n` planes' words on to
      the first `n + 1` planes'. */
  lemma ScheduleExtend(pixels: seq<seq<Word>>, out: seq<Word>, n: nat)
    requires ValidPixels(pixels) && n < NPlanes && out == Encode(Schedule(pixels, n))
    ensures out + Encode(PlaneRows(pixels, NPlanes - 1 - n, RowPairs)) == Encode(Schedule(pixels, n + 1))
  {
    EncodeExtend(out, Schedule(pixels, n), PlaneRows(pixels, NPlanes - 1 - n, RowPairs));
  }

  /** The words the plane loop has emitted after its first `n` passes,
      plane by plane: each pass appends the encoding of its plane's
      commands. */
  function Emitted(pixels: seq<seq<Word>>, n: nat): seq<Word>
    requires ValidPixels(pixels) && n <= NPlanes
    decreases n, |pixels|
  {
    if n == 0 then [] else Emitted(pixels, n - 1) + Encode(PlaneRows(pixels, NPlanes - n, RowPairs))
  }

  /** Emitting plane by plane emits the encoding of the schedule so far. */
  lemma {:induction false} EmittedEncodes(pixels: seq<seq<Word>>, n: nat)
    requires ValidPixels(pixels) && n <= NPlanes
    ensures Emitted(pixels, n) == Encode(Schedule(pixels, n))
  {
    if n > 0 {
      var before := Emitted(pixels, n - 1);
      EmittedEncodes(pixels, n - 1);
      ScheduleExtend(pixels, before, n - 1);
      assert NPlanes - 1 - (n - 1) == NPlanes - n;
    }
  }

  /** The loop state once the first `n` planes, from the top bit down, are
      done: every run closed, `last_bit` at the plane just finished and
      `prev_addr` at the last row pair. */
  function PlanesState(pixels: seq<seq<Word>>, n: nat): LoopState
    requires ValidPixels(pixels) && n <= NPlanes
  {
    LoopState(Builder(Emitted(pixels, n), 0), if n == 0 then 0 else NPlanes - n, RowPairs - 1)
  }

  /** One pass of the plane loop carries the state from `n` planes done to
      `n + 1`. */
  method NextPlane(s: LoopState, pixels: seq<seq<Word>>, n: nat) returns (r: LoopState)
    requires ValidPixels(pixels) && n < NPlanes && s == PlanesState(pixels, n)
    ensures r == PlanesState(pixels, n + 1)
  {
    var bit := NPlanes - 1 - n;
    r := Plane(s, pixels, bit);
    assert bit == NPlanes - (n + 1);
  }

  /** Before the plane loop: nothing emitted, `last_bit = 0`,
      `prev_addr = 7`. */
  lemma PlanesStart(pixels: seq<seq<Word>>)
    requires ValidPixels(pixels)
    ensures Start == PlanesState(pixels, 0)
  {
  }

  /** After `n` passes of the plane loop, the words are those of the first
      `n` planes of the schedule, with no run left open. */
  lemma PlanesFinish(pixels: seq<seq<Word>>, s: LoopState, n: nat)
    requires ValidPixels(pixels) && n <= NPlanes && s == PlanesState(pixels, n)
    ensures s.b.out == Encode(Schedule(pixels, n)) && Owed(s.b.out) == 0
  {
    EmittedEncodes(pixels, n);
    OwedEncode([], Schedule(pixels, n));
    assert [] + s.b.out == s.b.out;
  }

  /** The loops of `test_pattern`, planes from the top bit down: the words
      they build are the encoding of the pipelined schedule, with every run
      closed at the end. Pass `done` of the `for (bit ...)` loop handles
      plane `N_PLANES - 1 - done`. */
  method Planes(pixels: seq<seq<Word>>) returns (ws: seq<Word>)
    requires ValidPixels(pixels)
    ensures ws == Encode(Schedule(pixels, NPlanes)) && Owed(ws) == 0
  {
    var s := Start;
    var done: nat := 0;
    PlanesStart(pixels);
    while done < NPlanes
      invariant done <= NPlanes && s == PlanesState(pixels, done)
    {
      s := NextPlane(s, pixels, done);
      done := done + 1;
    }
    PlanesFinish(pixels, s, done);
    ws := s.b.out;
  }

  /** `test_pattern`: the hardware reads the pipelined schedule back from
      the words built, each header announcing exactly the payload that
      follows it, no run is left open, and the frame fits the transfer
      `main` asserts. */
  method TestPattern(pixels: seq<seq<Word>>) returns (ws: seq<Word>)
    requires ValidPixels(pixels)
    ensures ws == Encode(Schedule(pixels, NPlanes))
    ensures Parse(ws) == Some(Schedule(pixels, NPlanes))
    ensures Owed(ws) == 0
    ensures |ws| == 4624 && 4 * |ws| < 65536
  {
    ws := Planes(pixels);
    ParseEncode(Schedule(pixels, NPlanes));
    FrameSize(pixels);
  }

  /** Column word `across` on an address word: it keeps the address,
      `/OE` is low (lit) exactly while `across < desired`, clock and latch
      are low, and only output pins are driven. */
  lemma ColumnWordControl(pixels: seq<seq<Word>>, bit: nat, addr: nat, addrBits: Word, desired: nat,
                          across: nat)
    requires ValidPixels(pixels) && bit < NPlanes && addr < RowPairs && across < Across
    requires AddressOnly(addrBits)
    ensures var w := ColumnWord(pixels, bit, addr, addrBits, desired, across);
            && ReadAddr(w) == ReadAddr(addrBits)
            && (w[PinOe] <==> across >= desired) && !w[PinClk] && !w[PinLat]
            && OutputOnly(w)
  {
    var p0 := pixels[addr][across];
    var p1 := pixels[addr + RowPairs][across];
    var r0, g0, b0 := Lit(p0, RedMask(bit)), Lit(p0, GreenMask(bit)), Lit(p0, BlueMask(bit));
    var r1, g1, b1 := Lit(p1, RedMask(bit)), Lit(p1, GreenMask(bit)), Lit(p1, BlueMask(bit));
    PinWordControl(addrBits, r0, g0, b0, r1, g1, b1, across < desired);
    AddressOnlyOutputOnly(addrBits);
    PinWordOutputOnly(addrBits, r0, g0, b0, r1, g1, b1, across < desired);
  }

  /** The six colour pins of column word `across` carry bit `bit` of the
      top eight bits of each channel of the column's two pixels, row
      `addr` on the upper half and row `addr + 8` on the lower. */
  lemma ColumnWordColours(pixels: seq<seq<Word>>, bit: nat, addr: nat, addrBits: Word, desired: nat,
                          across: nat)
    requires ValidPixels(pixels) && bit < NPlanes && addr < RowPairs && across < Across
    requires AddressOnly(addrBits)
    ensures var w := ColumnWord(pixels, bit, addr, addrBits, desired, across);
            var p0 := pixels[addr][across];
            var p1 := pixels[addr + RowPairs][across];
            && w[PinR0] == p0[20 + Offset + bit] && w[PinG0] == p0[10 + Offset + bit]
            && w[PinB0] == p0[Offset + bit]
            && w[PinR1] == p1[20 + Offset + bit] && w[PinG1] == p1[10 + Offset + bit]
            && w[PinB1] == p1[Offset + bit]
  {
    var p0 := pixels[addr][across];
    var p1 := pixels[addr + RowPairs][across];
    var r0, g0, b0 := Lit(p0, RedMask(bit)), Lit(p0, GreenMask(bit)), Lit(p0, BlueMask(bit));
    var r1, g1, b1 := Lit(p1, RedMask(bit)), Lit(p1, GreenMask(bit)), Lit(p1, BlueMask(bit));
    PixelFlags(p0, bit);
    PixelFlags(p1, bit);
    PinWordColours(addrBits, r0, g0, b0, r1, g1, b1, across < desired);
  }

  /** The three colour flags of a pixel in plane `bit` are its bits
      `20 + OFFSET + bit`, `10 + OFFSET + bit` and `OFFSET + bit`. */
  lemma PixelFlags(p: Word, bit: nat)
    requires bit < NPlanes
    ensures Lit(p, RedMask(bit)) == p[20 + Offset + bit]
    ensures Lit(p, GreenMask(bit)) == p[10 + Offset + bit]
    ensures Lit(p, BlueMask(bit)) == p[Offset + bit]
  {
    LitBit(p, 20 + Offset + bit);
    LitBit(p, 10 + Offset + bit);
    LitBit(p, Offset + bit);
  }
  /** Column `k` of a row run sits at words `2 * k` and `2 * k + 1` of the
      run's payload: its word, then the same word clocked. */
  lemma {:induction false} RowWordsAt(pixels: seq<seq<Word>>, bit: nat, addr: nat, addrBits: Word,
                                      desired: nat, across: nat, k: nat)
    requires ValidPixels(pixels) && bit < NPlanes && addr < RowPairs && across <= k < Across
    ensures var ws := RowWords(pixels, bit, addr, addrBits, desired, across);
            var w := ColumnWord(pixels, bit, addr, addrBits, desired, k);
            ws[2 * (k - across)] == w && ws[2 * (k - across) + 1] == SetBit(w, PinClk)
    decreases k - across
  {
    var w := ColumnWord(pixels, bit, addr, addrBits, desired, across);
    var rest := RowWords(pixels, bit, addr, addrBits, desired, across + 1);
    if k > across {
      RowWordsAt(pixels, bit, addr, addrBits, desired, across + 1, k);
      PairSkip(w, SetBit(w, PinClk), rest, 2 * (k - across - 1));
      PairSkip(w, SetBit(w, PinClk), rest, 2 * (k - across - 1) + 1);
    } else {
      PairHead(w, SetBit(w, PinClk), rest);
    }
  }

  lemma PairHead<T>(x: T, y: T, rest: seq<T>)
    ensures ([x, y] + rest)[0] == x && ([x, y] + rest)[1] == y
  {
  }

  lemma PairSkip<T>(x: T, y: T, rest: seq<T>, i: nat)
    requires i < |rest|
    ensures ([x, y] + rest)[i + 2] == rest[i]
  {
  }

  function Min(a: nat, b: nat): nat
  {
    if a < b then a else b
  }

  /** How many of the words drive `/OE` low, lighting the panel. */
  function LitWords(ws: seq<Word>): nat
  {
    if |ws| == 0 then 0 else (if ws[0][PinOe] then 0 else 1) + LitWords(ws[1..])
  }

  /** From column `across` on, a row run lights the panel for two words per
      column below `desired`. */
  lemma {:induction false} RowWordsLit(pixels: seq<seq<Word>>, bit: nat, addr: nat, addrBits: Word,
                                       desired: nat, across: nat)
    requires ValidPixels(pixels) && bit < NPlanes && addr < RowPairs && across <= Across
    requires AddressOnly(addrBits)
    ensures LitWords(RowWords(pixels, bit, addr, addrBits, desired, across))
            == 2 * (Min(desired, Across) - Min(desired, across))
    decreases Across - across
  {
    if across < Across {
      RowWordsLit(pixels, bit, addr, addrBits, desired, across + 1);
      ColumnLit(pixels, bit, addr, addrBits, desired, across);
      MinStep(desired, across);
    }
  }

  /** Column `across` contributes two lit words when it is below
      `desired`, none otherwise. */
  lemma ColumnLit(pixels: seq<seq<Word>>, bit: nat, addr: nat, addrBits: Word, desired: nat,
                  across: nat)
    requires ValidPixels(pixels) && bit < NPlanes && addr < RowPairs && across < Across
    requires AddressOnly(addrBits)
    ensures LitWords(RowWords(pixels, bit, addr, addrBits, desired, across))
            == (if across < desired then 2 else 0)
               + LitWords(RowWords(pixels, bit, addr, addrBits, desired, across + 1))
  {
    var w := ColumnWord(pixels, bit, addr, addrBits, desired, across);
    var w' := SetBit(w, PinClk);
    var rest := RowWords(pixels, bit, addr, addrBits, desired, across + 1);
    assert RowWords(pixels, bit, addr, addrBits, desired, across) == [w, w'] + rest;
    ColumnWordControl(pixels, bit, addr, addrBits, desired, across);
    assert w'[PinOe] == w[PinOe];
    LitWordsPair(w, w', rest);
  }

  /** Column `across` adds one to the lit count exactly when it is below
      `desired`. */
  lemma MinStep(desired: nat, across: nat)
    requires across < Across
    ensures Min(desired, Across) - Min(desired, across)
            == (if across < desired then 1 else 0) + (Min(desired, Across) - Min(desired, across + 1))
  {
  }

  lemma LitWordsPair(w: Word, w': Word, rest: seq<Word>)
    requires w'[PinOe] == w[PinOe]
    ensures LitWords([w, w'] + rest) == (if w[PinOe] then 0 else 2) + LitWords(rest)
  {
    assert ([w, w'] + rest)[1..] == [w'] + rest;
    assert ([w'] + rest)[1..] == rest;
  }
  /** A row run opens with its DATA run of the row's payload, then holds
      with a DELAY exactly when the duration outlasts the run. */
  lemma RunOpens(pixels: seq<seq<Word>>, bit: nat, addr: nat, addrBits: Word, desired: nat)
    requires ValidPixels(pixels) && bit < NPlanes && addr < RowPairs && desired <= 128
    ensures var cs := RunCommands(pixels, bit, addr, addrBits, desired);
            && cs[0] == Data(RowWords(pixels, bit, addr, addrBits, desired, 0))
            && (|cs| == 2 <==> desired > Across) && (|cs| == 1 <==> desired <= Across)
            && (desired > Across ==> cs[1] == Delay((desired - Across) * DataOverhead))
  {
  }

  /** The end of an iteration: the blank, latch and readdress words each in
      a one-word run, and a DELAY only after the readdress, the one nonzero
      settling delay. */
  lemma SwitchShape(addrBits: Word, nextAddrBits: Word)
    ensures SwitchCommands(addrBits, nextAddrBits)
            == [Data([BlankWord(addrBits)]), Data([LatchWord(addrBits)]),
                Data([BlankWord(nextAddrBits)]), Delay(PostAddrDelay)]
  {
  }
  lemma ConcatAt<T>(a: seq<T>, b: seq<T>, i: nat)
    requires i < |a| + |b|
    ensures (a + b)[i] == if i < |a| then a[i] else b[i - |a|]
  {
  }

  /** A row run followed by the switch: the DATA run of the row's payload,
      then the hold DELAY exactly when the duration outlasts the run, and
      otherwise the blank word at once. */
  lemma StepOpens(pixels: seq<seq<Word>>, bit: nat, addr: nat, addrBits: Word, nextAddrBits: Word,
                  desired: nat)
    requires ValidPixels(pixels) && bit < NPlanes && addr < RowPairs && desired <= 128
    ensures var cs := StepCommands(pixels, bit, addr, addrBits, nextAddrBits, desired);
            && |cs| >= 2
            && cs[0] == Data(RowWords(pixels, bit, addr, addrBits, desired, 0))
            && (desired > Across ==> cs[1] == Delay((desired - Across) * DataOverhead))
            && (desired <= Across ==> cs[1] == Data([BlankWord(addrBits)]))
  {
    var run := RunCommands(pixels, bit, addr, addrBits, desired);
    var switch := SwitchCommands(addrBits, nextAddrBits);
    RunOpens(pixels, bit, addr, addrBits, desired);
    SwitchShape(addrBits, nextAddrBits);
    ConcatAt(run, switch, 0);
    ConcatAt(run, switch, 1);
  }
  /** The DATA run of an iteration drives `/OE` low for two words per lit
      column: `2 * min(desired, 32)` words. */
  lemma StepLit(pixels: seq<seq<Word>>, bit: nat, addr: nat, addrBits: Word, nextAddrBits: Word,
                desired: nat)
    requires ValidPixels(pixels) && bit < NPlanes && addr < RowPairs && desired <= 128
    requires AddressOnly(addrBits)
    ensures var cs := StepCommands(pixels, bit, addr, addrBits, nextAddrBits, desired);
            cs[0].Data? && LitWords(cs[0].payload) == 2 * Min(desired, Across)
  {
    var cs := StepCommands(pixels, bit, addr, addrBits, nextAddrBits, desired);
    var ws := RowWords(pixels, bit, addr, addrBits, desired, 0);
    StepOpens(pixels, bit, addr, addrBits, nextAddrBits, desired);
    assert cs[0].payload == ws;
    RowWordsLit(pixels, bit, addr, addrBits, desired, 0);
  }

  /** Words `2 * k` and `2 * k + 1` of the DATA run are column `k` before
      and after its clock edge: both on the address `addrBits` selects, the
      clock rising between them and nothing else changing, the latch low,
      and `/OE` low exactly while `k < desired`. */
  lemma StepColumn(pixels: seq<seq<Word>>, bit: nat, addr: nat, addrBits: Word, nextAddrBits: Word,
                   desired: nat, k: nat)
    requires ValidPixels(pixels) && bit < NPlanes && addr < RowPairs && desired <= 128
    requires AddressOnly(addrBits) && k < Across
    ensures var cs := StepCommands(pixels, bit, addr, addrBits, nextAddrBits, desired);
            && cs[0].Data? && |cs[0].payload| == 2 * Across
            && var w := cs[0].payload[2 * k];
               && cs[0].payload[2 * k + 1] == SetBit(w, PinClk)
               && ReadAddr(w) == ReadAddr(addrBits)
               && (w[PinOe] <==> k >= desired) && !w[PinClk] && !w[PinLat]
  {
    var cs := StepCommands(pixels, bit, addr, addrBits, nextAddrBits, desired);
    var ws := RowWords(pixels, bit, addr, addrBits, desired, 0);
    StepOpens(pixels, bit, addr, addrBits, nextAddrBits, desired);
    assert cs[0].payload == ws;
    RunColumn(pixels, bit, addr, addrBits, desired, k);
  }

  lemma RunColumn(pixels: seq<seq<Word>>, bit: nat, addr: nat, addrBits: Word, desired: nat, k: nat)
    requires ValidPixels(pixels) && bit < NPlanes && addr < RowPairs
    requires AddressOnly(addrBits) && k < Across
    ensures var ws := RowWords(pixels, bit, addr, addrBits, desired, 0);
            && |ws| == 2 * Across
            && var w := ws[2 * k];
               && ws[2 * k + 1] == SetBit(w, PinClk)
               && ReadAddr(w) == ReadAddr(addrBits)
               && (w[PinOe] <==> k >= desired) && !w[PinClk] && !w[PinLat]
  {
    var ws := RowWords(pixels, bit, addr, addrBits, desired, 0);
    var w := ColumnWord(pixels, bit, addr, addrBits, desired, k);
    RowWordsAt(pixels, bit, addr, addrBits, desired, 0, k);
    assert 2 * (k - 0) == 2 * k;
    assert ws[2 * k] == w && ws[2 * k + 1] == SetBit(w, PinClk);
    ColumnWordControl(pixels, bit, addr, addrBits, desired, k);
  }

  /** The colour pins of column `k` carry bit `bit` of the top eight bits
      of row `addr` (upper half) and row `addr + 8` (lower half). */
  lemma StepColours(pixels: seq<seq<Word>>, bit: nat, addr: nat, addrBits: Word, nextAddrBits: Word,
                    desired: nat, k: nat)
    requires ValidPixels(pixels) && bit < NPlanes && addr < RowPairs && desired <= 128
    requires AddressOnly(addrBits) && k < Across
    ensures var cs := StepCommands(pixels, bit, addr, addrBits, nextAddrBits, desired);
            && cs[0].Data? && |cs[0].payload| == 2 * Across
            && var w := cs[0].payload[2 * k];
               var p0 := pixels[addr][k];
               var p1 := pixels[addr + RowPairs][k];
               && w[PinR0] == p0[20 + Offset + bit] && w[PinG0] == p0[10 + Offset + bit]
               && w[PinB0] == p0[Offset + bit]
               && w[PinR1] == p1[20 + Offset + bit] && w[PinG1] == p1[10 + Offset + bit]
               && w[PinB1] == p1[Offset + bit]
  {
    StepOpens(pixels, bit, addr, addrBits, nextAddrBits, desired);
    RunColours(pixels, bit, addr, addrBits, desired, k);
  }

  lemma RunColours(pixels: seq<seq<Word>>, bit: nat, addr: nat, addrBits: Word, desired: nat, k: nat)
    requires ValidPixels(pixels) && bit < NPlanes && addr < RowPairs
    requires AddressOnly(addrBits) && k < Across
    ensures var ws := RowWords(pixels, bit, addr, addrBits, desired, 0);
            && |ws| == 2 * Across
            && var w := ws[2 * k];
               var p0 := pixels[addr][k];
               var p1 := pixels[addr + RowPairs][k];
               && w[PinR0] == p0[20 + Offset + bit] && w[PinG0] == p0[10 + Offset + bit]
               && w[PinB0] == p0[Offset + bit]
               && w[PinR1] == p1[20 + Offset + bit] && w[PinG1] == p1[10 + Offset + bit]
               && w[PinB1] == p1[Offset + bit]
  {
    var ws := RowWords(pixels, bit, addr, addrBits, desired, 0);
    RowWordsAt(pixels, bit, addr, addrBits, desired, 0, k);
    assert 2 * (k - 0) == 2 * k;
    assert ws[2 * k] == ColumnWord(pixels, bit, addr, addrBits, desired, k);
    ColumnWordColours(pixels, bit, addr, addrBits, desired, k);
  }

  /** The pipelining of the loop: iteration (`bit`, `addr`) lights the
      row address `prev_addr` that the previous iteration shifted in, for
      `2^last_bit` columns, while it shifts in row pair `addr`, and it
      ends on the address word of `addr`. */
  lemma IterationPipelined(pixels: seq<seq<Word>>, bit: nat, addr: nat, lastBit: nat, prevAddr: nat)
    requires ValidPixels(pixels) && bit < NPlanes && addr < RowPairs
    requires lastBit < NPlanes && prevAddr < RowPairs
    ensures var addrBits := CalcAddrBits(prevAddr);
            var nextAddrBits := CalcAddrBits(addr);
            && 1 <= Pow2(lastBit) <= 128
            && IterationCommands(pixels, bit, addr, lastBit, prevAddr)
               == StepCommands(pixels, bit, addr, addrBits, nextAddrBits, Pow2(lastBit))
            && AddressOnly(addrBits) && ReadAddr(addrBits) == prevAddr
            && AddressOnly(nextAddrBits) && ReadAddr(nextAddrBits) == addr
  {
    DurationBound(lastBit);
    AddrBitsAddressOnly(prevAddr);
    AddrBitsAddressOnly(addr);
    CalcAddrBitsDecode(prevAddr);
    CalcAddrBitsDecode(addr);
  }
  /** Column `k` of iteration (`bit`, `addr`) drives row address
      `prev_addr` and is lit exactly while `k < 2^last_bit`. */
  lemma IterationColumn(pixels: seq<seq<Word>>, bit: nat, addr: nat, lastBit: nat, prevAddr: nat,
                        k: nat)
    requires ValidPixels(pixels) && bit < NPlanes && addr < RowPairs
    requires lastBit < NPlanes && prevAddr < RowPairs && k < Across
    ensures var cs := IterationCommands(pixels, bit, addr, lastBit, prevAddr);
            && cs[0].Data? && |cs[0].payload| == 2 * Across
            && ReadAddr(cs[0].payload[2 * k]) == prevAddr
            && (cs[0].payload[2 * k][PinOe] <==> k >= Pow2(lastBit))
  {
    IterationPipelined(pixels, bit, addr, lastBit, prevAddr);
    StepColumn(pixels, bit, addr, CalcAddrBits(prevAddr), CalcAddrBits(addr), Pow2(lastBit), k);
  }
  /** One iteration is 72 words: the 65-word DATA run, the blank and latch
      runs of two words each, the readdress run and its DELAY; plus the
      hold DELAY when the duration outlasts the run. */
  lemma StepSize(pixels: seq<seq<Word>>, bit: nat, addr: nat, addrBits: Word, nextAddrBits: Word,
                 desired: nat)
    requires ValidPixels(pixels) && bit < NPlanes && addr < RowPairs && desired <= 128
    ensures Size(StepCommands(pixels, bit, addr, addrBits, nextAddrBits, desired))
            == 72 + (if desired > Across then 1 else 0)
  {
    var run := RunCommands(pixels, bit, addr, addrBits, desired);
    var switch := SwitchCommands(addrBits, nextAddrBits);
    RunOpens(pixels, bit, addr, addrBits, desired);
    SwitchShape(addrBits, nextAddrBits);
    SizeAppend(run, switch);
    assert Size(run[1..]) == (if desired > Across then 1 else 0);
    assert Size(switch[1..]) == 5 by {
      assert Size(switch[2..]) == 3 by {
        assert Size(switch[3..]) == 1;
      }
    }
  }

  lemma IterationSize(pixels: seq<seq<Word>>, bit: nat, addr: nat, lastBit: nat, prevAddr: nat)
    requires ValidPixels(pixels) && bit < NPlanes && addr < RowPairs
    requires lastBit < NPlanes && prevAddr < RowPairs
    ensures Size(IterationCommands(pixels, bit, addr, lastBit, prevAddr))
            == 72 + (if Pow2(lastBit) > Across then 1 else 0)
  {
    IterationPipelined(pixels, bit, addr, lastBit, prevAddr);
    StepSize(pixels, bit, addr, CalcAddrBits(prevAddr), CalcAddrBits(addr), Pow2(lastBit));
  }

  /** How many of the first `n` iterations of plane `bit` hold with a
      DELAY: those lighting a plane worth more than 32 columns. */
  function Holds(bit: nat, n: nat): nat
  {
    if n == 0 then 0
    else Holds(bit, n - 1) + (if Pow2(PrevBit(bit, n - 1)) > Across then 1 else 0)
  }

  lemma {:induction false} PlaneRowsSize(pixels: seq<seq<Word>>, bit: nat, n: nat)
    requires ValidPixels(pixels) && bit < NPlanes && n <= RowPairs
    ensures Size(PlaneRows(pixels, bit, n)) == 72 * n + Holds(bit, n)
  {
    if n > 0 {
      var lastBit := PrevBit(bit, n - 1);
      PlaneRowsSize(pixels, bit, n - 1);
      IterationSize(pixels, bit, n - 1, lastBit, PrevAddr(n - 1));
      SizeAppend(PlaneRows(pixels, bit, n - 1),
                 IterationCommands(pixels, bit, n - 1, lastBit, PrevAddr(n - 1)));
    }
  }
  /** How many iterations of the first `n` planes shown hold with a DELAY. */
  function ScheduleHolds(n: nat): nat
    requires n <= NPlanes
  {
    if n == 0 then 0 else ScheduleHolds(n - 1) + PlaneHoldCount(NPlanes - n)
  }

  /** A plane is eight iterations of 72 words, 576 words, plus its holds. */
  lemma {:induction false} ScheduleSize(pixels: seq<seq<Word>>, n: nat)
    requires ValidPixels(pixels) && n <= NPlanes
    ensures Size(Schedule(pixels, n)) == 576 * n + ScheduleHolds(n)
  {
    if n > 0 {
      var before, here := Schedule(pixels, n - 1), PlaneRows(pixels, NPlanes - n, RowPairs);
      assert Schedule(pixels, n) == before + here;
      ScheduleSize(pixels, n - 1);
      PlaneSize(pixels, NPlanes - n);
      SizeAppend(before, here);
    }
  }

  /** A whole plane is 576 words plus its holds. */
  lemma PlaneSize(pixels: seq<seq<Word>>, bit: nat)
    requires ValidPixels(pixels) && bit < NPlanes
    ensures Size(PlaneRows(pixels, bit, RowPairs)) == 576 + PlaneHoldCount(bit)
  {
    PlaneRowsSize(pixels, bit, RowPairs);
    PlaneHolds(bit);
  }

  /** A frame is 4624 words: 64 iterations of 72 words, and 16 hold
      DELAYs, for the iterations lighting planes 6 and 7 (the first
      iteration lights plane 0, the initial `last_bit`). Its 18496 bytes
      stay below the 65536 that the transfer to the PIO accepts. */
  lemma FrameSize(pixels: seq<seq<Word>>)
    requires ValidPixels(pixels)
    ensures |Encode(Schedule(pixels, NPlanes))| == 4624
    ensures 4 * |Encode(Schedule(pixels, NPlanes))| < 65536
  {
    FrameCommandsSize(pixels);
    EncodeSize(Schedule(pixels, NPlanes));
  }

  lemma FrameCommandsSize(pixels: seq<seq<Word>>)
    requires ValidPixels(pixels)
    ensures Size(Schedule(pixels, NPlanes)) == 4624
  {
    ScheduleSize(pixels, NPlanes);
    FrameHolds();
  }

  /** The holds of a plane, counted per row pair: row pair 0 lights the
      plane above (or, first of all, plane 0); the other seven light the
      plane itself. */
  function PlaneHoldCount(bit: nat): nat
    requires bit < NPlanes
  {
    (if Pow2(PrevBit(bit, 0)) > Across then 1 else 0) + (if Pow2(bit) > Across then 7 else 0)
  }

  /** Counting iteration by iteration agrees with the per-row-pair count. */
  lemma PlaneHolds(bit: nat)
    requires bit < NPlanes
    ensures Holds(bit, RowPairs) == PlaneHoldCount(bit)
  {
    var h := if Pow2(bit) > Across then 1 else 0;
    assert Holds(bit, 2) == Holds(bit, 1) + h;
    assert Holds(bit, 4) == Holds(bit, 2) + 2 * h;
    assert Holds(bit, 6) == Holds(bit, 4) + 2 * h;
  }

  /** Planes 7, 6 and 5 hold 7, 8 and 1 times; the planes below, none. */
  lemma FrameHolds()
    ensures Holds(7, RowPairs) == 7 && Holds(6, RowPairs) == 8 && Holds(5, RowPairs) == 1
    ensures forall b :: 0 <= b < 5 ==> Holds(b, RowPairs) == 0
    ensures ScheduleHolds(NPlanes) == 16
  {
    PlaneHolds(7);
    PlaneHolds(6);
    PlaneHolds(5);
    Pow2Monotone(0, 5);
    Pow2Monotone(1, 5);
    Pow2Monotone(2, 5);
    Pow2Monotone(3, 5);
    Pow2Monotone(4, 5);
    assert Pow2(5) == 32 && Pow2(6) == 64 && Pow2(7) == 128;
    forall b | 0 <= b < 5
      ensures Holds(b, RowPairs) == 0
    {
      PlaneHolds(b);
    }
  }

  /** A row run's payload words drive only output pins: each column word
      is built on an address word, and its clocked copy raises only the
      clock pin. */
  lemma {:induction false} RowWordsOutputOnly(pixels: seq<seq<Word>>, bit: nat, addr: nat,
                                              addrBits: Word, desired: nat, across: nat)
    requires ValidPixels(pixels) && bit < NPlanes && addr < RowPairs && across <= Across
    requires AddressOnly(addrBits)
    ensures WordsOutputOnly(RowWords(pixels, bit, addr, addrBits, desired, across))
    decreases Across - across
  {
    if across < Across {
      var w := ColumnWord(pixels, bit, addr, addrBits, desired, across);
      var rest := RowWords(pixels, bit, addr, addrBits, desired, across + 1);
      RowWordsOutputOnly(pixels, bit, addr, addrBits, desired, across + 1);
      ColumnWordControl(pixels, bit, addr, addrBits, desired, across);
      ClockedPairOutputOnly(w, rest);
      assert RowWords(pixels, bit, addr, addrBits, desired, across) == [w, SetBit(w, PinClk)] + rest;
    }
  }

  lemma RunOutputOnly(pixels: seq<seq<Word>>, bit: nat, addr: nat, addrBits: Word, desired: nat)
    requires ValidPixels(pixels) && bit < NPlanes && addr < RowPairs && desired <= 128
    requires AddressOnly(addrBits)
    ensures PayloadOutputOnly(RunCommands(pixels, bit, addr, addrBits, desired))
  {
    RunOpens(pixels, bit, addr, addrBits, desired);
    RowWordsOutputOnly(pixels, bit, addr, addrBits, desired, 0);
  }

  lemma SwitchOutputOnly(addrBits: Word, nextAddrBits: Word)
    requires AddressOnly(addrBits) && AddressOnly(nextAddrBits)
    ensures PayloadOutputOnly(SwitchCommands(addrBits, nextAddrBits))
  {
    var blank := DataDelayCommands(BlankWord(addrBits), PostOeDelay);
    var latch := DataDelayCommands(LatchWord(addrBits), PostLatchDelay);
    var next := DataDelayCommands(BlankWord(nextAddrBits), PostAddrDelay);
    BlankWordPins(addrBits);
    LatchWordPins(addrBits);
    BlankWordPins(nextAddrBits);
    DataDelayOutputOnly(BlankWord(addrBits), PostOeDelay);
    DataDelayOutputOnly(LatchWord(addrBits), PostLatchDelay);
    DataDelayOutputOnly(BlankWord(nextAddrBits), PostAddrDelay);
    PayloadAppend(blank, latch);
    PayloadJoin(SwitchCommands(addrBits, nextAddrBits), blank + latch, next);
  }

  lemma IterationOutputOnly(pixels: seq<seq<Word>>, bit: nat, addr: nat, lastBit: nat, prevAddr: nat)
    requires ValidPixels(pixels) && bit < NPlanes && addr < RowPairs
    requires lastBit < NPlanes && prevAddr < RowPairs
    ensures PayloadOutputOnly(IterationCommands(pixels, bit, addr, lastBit, prevAddr))
  {
    var addrBits, nextAddrBits := CalcAddrBits(prevAddr), CalcAddrBits(addr);
    DurationBound(lastBit);
    AddrBitsAddressOnly(prevAddr);
    AddrBitsAddressOnly(addr);
    var run := RunCommands(pixels, bit, addr, addrBits, Pow2(lastBit));
    var switch := SwitchCommands(addrBits, nextAddrBits);
    RunOutputOnly(pixels, bit, addr, addrBits, Pow2(lastBit));
    SwitchOutputOnly(addrBits, nextAddrBits);
    PayloadAppend(run, switch);
    assert IterationCommands(pixels, bit, addr, lastBit, prevAddr) == run + switch;
  }

  lemma {:induction false} PlaneRowsOutputOnly(pixels: seq<seq<Word>>, bit: nat, n: nat)
    requires ValidPixels(pixels) && bit < NPlanes && n <= RowPairs
    ensures PayloadOutputOnly(PlaneRows(pixels, bit, n))
  {
    if n > 0 {
      var before := PlaneRows(pixels, bit, n - 1);
      var here := IterationCommands(pixels, bit, n - 1, PrevBit(bit, n - 1), PrevAddr(n - 1));
      PlaneRowsOutputOnly(pixels, bit, n - 1);
      IterationOutputOnly(pixels, bit, n - 1, PrevBit(bit, n - 1), PrevAddr(n - 1));
      PayloadJoin(PlaneRows(pixels, bit, n), before, here);
    }
  }

  lemma {:induction false} ScheduleOutputOnly(pixels: seq<seq<Word>>, n: nat)
    requires ValidPixels(pixels) && n <= NPlanes
    ensures PayloadOutputOnly(Schedule(pixels, n))
  {
    if n > 0 {
      var before := Schedule(pixels, n - 1);
      var here := PlaneRows(pixels, NPlanes - n, RowPairs);
      ScheduleOutputOnly(pixels, n - 1);
      PlaneRowsOutputOnly(pixels, NPlanes - n, RowPairs);
      PayloadJoin(Schedule(pixels, n), before, here);
    }
  }

  /** Every payload word of the frame drives only GPIOs 0 to 27: it is
      below `2^28`, so the hardware never takes a pin state for a DATA
      header. */
  lemma SchedulePayloadPins(pixels: seq<seq<Word>>)
    requires ValidPixels(pixels)
    ensures var cs := Schedule(pixels, NPlanes);
            forall i, j :: 0 <= i < |cs| && cs[i].Data? && 0 <= j < |cs[i].payload| ==>
              var w := cs[i].payload[j];
              OutputOnly(w) && Value(w) < Pow2(OutPins) && !IsHeader(w)
  {
    ScheduleOutputOnly(pixels, NPlanes);
    PayloadPins(Schedule(pixels, NPlanes));
  }
}
