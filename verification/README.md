# HUB75 piomatter core in Dafny

This project models two integer subsystems of the Raspberry Pi 5 HUB75
matrix driver and proves properties of them.

1. **Panel geometry.** The four orientation callbacks map a logical pixel
   `(x, y)` to a framebuffer index. `make_matrixmap` builds the scan map:
   for every scan row `i` below `2^n_addr_lines` and every linear column
   `j` of the panel chain, it emits the framebuffer indices of the upper and
   the lower pixel that the panel shows together. Odd panels of a
   serpentine chain are mirrored. The `matrix_geometry` constructor checks
   the map's size against the caller's `pixels_across`. Both copies of the
   builder are modelled:
   - `include/piomatter/matrixmap.h` as a method with loops (`MatrixMap`);
   - the older root `matrixmap.h` as a recursive function (`LegacyMatrixMap`).

   The method is proved to return exactly what the function returns.
2. **The binary-coded-modulation command stream of `protodemo.c`.**
   - `rgb` and `colorwheel` pack colours (`Color`).
   - `prep_data`, `do_data`, `do_delay` and `do_data_delay` build the stream
     while counting, in `data_count`, the payload words a header still owes
     (`StreamBuilder`, over the word format of `CommandStream`).
   - `calc_addr_bits` and `add_pixels` pack pin states (`Pins`).
   - The bit-plane by row-address loop of `test_pattern` drives the panel
     (`Bcm`).

   The loop is proved to emit exactly the encoding of a pipelined
   schedule. In that schedule each iteration:
   - lights the row address shifted in by the previous iteration, for the
     previous plane's duration;
   - shifts in the current row pair;
   - then blanks the panel, latches and readdresses it.

   The hardware reads the frame back command by command, no run is left
   open, and the frame is 4624 words long. Every payload word is a pin
   state on GPIOs 0-27, below `2^28`, so none of them has the header bit
   31 set.

   The plane loop is modelled as counting its passes upward: pass `done`
   handles plane `N_PLANES - 1 - done`, which is the C loop's `bit`.

Words are `seq<bool>` of length 32, least significant bit first (`Bits`).
Bit `k` drives GPIO `k`. C's `|`, `&` and shifts are modelled bit by bit,
and each C expression is related to the model's formulation by a lemma
(`HeaderWordIsOr`, `DelayWordIsOr`, `PinWordIsOr`, `SetIfIsOr`,
`SetBitIsOr`, `BlankAndLatchAreOr`, `LitBit`, and `MaskIsMod` for
`colorwheel`'s `i & 0xff`, which the model writes as `i % 256`). C `int`
arithmetic is kept inside its range by preconditions (`ValidDims`,
`IntLimit`). `calc_addr_bits` reads its `int` argument in two's
complement (`ToWord`).

The pixel grid is an input: 16 rows of 32 packed words. `gamma_lut` is an
abstract table of 256 entries, each below 1024.

## Model

| member | source | states |
|---|---|---|
| Orientation.NormalRoundTrip | include/piomatter/matrixmap.h:10-12 | decoding a row-major index `x + width*y` by `% width` and `/ width` gives back `(x, y)` |
| Orientation.NormalInRange | include/piomatter/matrixmap.h:10-12 | every pixel of a `width` x `height` chain has an index in `[0, width*height)` |
| Orientation.NormalOnto | include/piomatter/matrixmap.h:10-12 | every index in `[0, width*height)` is the index of a valid pixel |
| Orientation.ApplyInRange | include/piomatter/matrixmap.h:10-22 | the normal, 180-degree and counter-clockwise callbacks, and the corrected clockwise one, keep valid pixels inside `[0, width*height)` |
| Orientation.R180Involution | include/piomatter/matrixmap.h:14-18 | reflecting a pixel by 180 degrees, decoding the index and reflecting again gives the pixel's normal index |
| Orientation.CwAsWrittenNegative | include/piomatter/matrixmap.h:24-26 | the clockwise callback as written sends pixel `(0, y)` of every row to a negative index |
| Orientation.CwAsWrittenDoesNotUndoCcw | include/piomatter/matrixmap.h:20-26 | for every pixel of every chain, the clockwise callback as written does not undo the counter-clockwise one: it lands `2x + 2` entries before the pixel's index |
| Orientation.CwCorrectedUndoesCcw | include/piomatter/matrixmap.h:20-26 | with the reflected column `height - y - 1`, the clockwise rotation undoes the counter-clockwise one for every pixel |
| Panel.ScanCoordsInBand | include/piomatter/matrixmap.h:60-72 | both rows of a pair lie in the panel band of column `j`, half a panel apart; mirrored panels reverse the column and put the lower row first |
| Panel.MapLength | include/piomatter/matrixmap.h:52-54 | `2 * half_panel_height * pixels_across == width * height` when the height is a whole number of panels |
| Panel.BandInsideChain | include/piomatter/matrixmap.h:53-54 | the band of every linear column stays inside the chain's height |
| Panel.PairIndexDecode | include/piomatter/matrixmap.h:58-76 | every map position is the upper or lower entry of exactly one scan position `(i, j)` |
| LegacyMatrixMap.ColumnsContent | matrixmap.h:66-82 | in scan row `i`, entries `2j` and `2j+1` are the pair of column `j` |
| LegacyMatrixMap.RowsPair | matrixmap.h:65-83 | the pair of scan position `(i, j)` sits at `2*(i*across + j)` |
| LegacyMatrixMap.RowsMatch | matrixmap.h:65-83 | every scan position's pair is at its index, upper pixel first |
| LegacyMatrixMap.MakeMatrixMapSpec | matrixmap.h:53-85 | the builder fails (with the height error) exactly when the height is not a multiple of `2 << n_addr_lines`; otherwise the map has `width*height` entries laid out pair by pair |
| MatrixMap.MakeMatrixMap | include/piomatter/matrixmap.h:43-79 | the loop builder returns the same result as the older copy, fails exactly on a bad height, and otherwise has `width*height` entries |
| MatrixMap.ScanRow | include/piomatter/matrixmap.h:59-75 | the inner loop appends exactly the pairs of scan row `i`, in column order |
| MatrixMap.NewMatrixGeometry | include/piomatter/matrixmap.h:81-97 | the constructor succeeds exactly when the height is a whole number of panels and `pixels_across == width*height / (2 << n_addr_lines)`; a bad height reports the height error; on success it keeps its arguments and the map |
| MatrixMap.SizeCheck | include/piomatter/matrixmap.h:89-93 | the size check accepts exactly one `pixels_across`: the pixel count divided by the panel height |
| MatrixMap.MapInRange | include/piomatter/matrixmap.h:58-76 | with any orientation but the as-written clockwise one, serpentine or not, every entry is in `[0, width*height)` |
| MatrixMap.ScanIndexOfEntry | include/piomatter/matrixmap.h:58-76 | for the plain map, `ScanIndexOf` of the entry at position `k` is `k` (a left inverse) |
| MatrixMap.EntryAtScanIndexOf | include/piomatter/matrixmap.h:58-76 | for the plain map, every framebuffer index is stored at position `ScanIndexOf` (a right inverse) |
| MatrixMap.NormalMapIsPermutation | include/piomatter/matrixmap.h:58-76 | without serpentine wiring and with the normal orientation, the map is a permutation of `[0, width*height)`: in range, no repeats, every pixel present |
| Color.PackFields | protodemo.c:78-83 | the three 10-bit values land in disjoint fields: blue in bits 0-9, green 10-19, red 20-29; bits 30 and 31 stay clear |
| Color.PackRoundTrip | protodemo.c:82 | each field of the packed word reads back the value put there |
| Color.PackValue | protodemo.c:82 | the OR of the shifted fields equals `r*2^20 + g*2^10 + b` |
| Color.RgbChannels | protodemo.c:78-83 | each channel field of `rgb`'s word is the gamma table entry of its 8-bit input |
| Color.WheelChannels | protodemo.c:139-150 | for every `int`, `colorwheel` passes channels in `0..255` to `rgb`, summing to 255, one of them 0 |
| Color.ColorWheel | protodemo.c:139-150 | the fields of `colorwheel`'s word are the gamma entries of the hue's channels |
| Color.MaskIsMod | protodemo.c:140 | for every `int` `i`, `i & 0xff` on its two's-complement word is `i % 256`, the position the hue circle reads |
| Color.WheelPeriodic | protodemo.c:140 | only the position modulo 256 matters |
| Color.WheelContinuous | protodemo.c:139-150 | neighbouring positions, 255 and 0 included, differ by at most 3 in every channel |
| CommandStream.HeaderDecode | protodemo.c:184 | the header for a run of `n >= 1` words has bit 31 set and announces `n` |
| CommandStream.DelayDecode | protodemo.c:178 | a DELAY word has bit 31 clear and carries its cycle count |
| CommandStream.HeaderFromCount | protodemo.c:184 | a header is determined by the length it announces (inverse of `HeaderDecode`) |
| CommandStream.DelayFromCount | protodemo.c:178 | a DELAY word is determined by its cycle count (inverse of `DelayDecode`) |
| CommandStream.EmptyHeader | protodemo.c:184 | `prep_data(0)` would push the all-ones word, a header announcing `2^31` words |
| CommandStream.HeaderWordIsOr | protodemo.c:184 | the header word is `command_data \| (n - 1)` bit for bit, the wrapped `n == 0` case included |
| CommandStream.DelayWordIsOr | protodemo.c:178 | the DELAY word is `command_delay \| (delay - 1)` bit for bit |
| CommandStream.EncodeAppend | protodemo.c:181-198 | encoding distributes over concatenation of command lists |
| CommandStream.ParseEncode | protodemo.c:181-198 | the hardware's reading of an encoded command list is that list: every header is followed by exactly the payload it announces |
| CommandStream.ParseSound | protodemo.c:181-198 | whatever stream the hardware can read is the encoding of what it reads |
| CommandStream.EncodeSize | protodemo.c:325 | an encoding is one word per header, payload word and DELAY |
| StreamBuilder.DoDelay | protodemo.c:174-179 | `do_delay(0)` appends nothing; otherwise one word with bit 31 clear that carries `delay`; the owed count stays consistent |
| StreamBuilder.PrepData | protodemo.c:181-186 | appends a header announcing `n` and sets `data_count` to `n`, consistent with what the hardware owes |
| StreamBuilder.DoData | protodemo.c:188-192 | appends one payload word and decrements `data_count`, keeping it consistent |
| StreamBuilder.DoDataDelay | protodemo.c:194-198 | leaves no run open and keeps the count consistent |
| StreamBuilder.DoDataDelayEncodes | protodemo.c:194-198 | appends the encoding of a one-word DATA run, plus a DELAY exactly when the delay is nonzero |
| Pins.CalcAddrBits | protodemo.c:200-208 | bit `j` of the word is set exactly when `j` is one of the five address pins and the matching bit of `addr` is set |
| Pins.SetIfIsOr | protodemo.c:203-207 | `if (cond) data \|= (1 << pin)` is `SetIf`: the word becomes `data \| (1 << pin)` when `cond` holds and stays `data` otherwise |
| Pins.CalcAddrBitsRoundTrip | protodemo.c:200-208 | the panel decodes `addr % 32` from the address pins, for every `int` |
| Pins.CalcAddrBitsDecode | protodemo.c:200-208 | every row address below 32 is decoded unchanged |
| Pins.AddrBitsAddressOnly | protodemo.c:200-208 | the word drives no pin other than the address pins |
| Pins.PinWord | protodemo.c:211-217 | a bit is set exactly when it is an address bit, `/OE` while inactive, or the pin of a set colour flag |
| Pins.PinWordIsOr | protodemo.c:211 | choosing `/OE` as `(active ? oe_active : oe_inactive) \| addr_bits` raises `/OE` exactly when inactive |
| Pins.PinWordControl | protodemo.c:210-217 | on an address word, the column word keeps the decoded address, has `/OE` high exactly when inactive, and has clock and latch low |
| Pins.PinWordColours | protodemo.c:212-217 | on an address word, each colour pin is set exactly when its flag is |
| Pins.OutputOnlyNotHeader | protodemo.c:71 | a word on GPIOs 0-27 only is below `2^28`, so bit 31 is clear and it is never a header |
| Pins.PinWordOutputOnly | protodemo.c:12-25 | a column word on an address word drives only output pins |
| Pins.DataDelayOutputOnly | protodemo.c:194-198 | `do_data_delay` of a word on GPIOs 0-27 puts only such words into DATA payloads |
| Pins.PayloadPins | protodemo.c:71 | when every payload word of a command list is on GPIOs 0-27, each one is below `2^28` and never a header |
| Pins.AddPixels | protodemo.c:210-221 | appends exactly two payload words, the column word and then the same word with the clock pin set |
| Pins.ColumnClockPhases | protodemo.c:219-220 | the two words differ only in the clock pin, low then high; `/OE` is high in both exactly when inactive |
| Bcm.LitBit | protodemo.c:230-252 | `pixel & (1 << k)` is nonzero exactly when bit `k` of the pixel is set |
| Bcm.AddColumn | protodemo.c:245-254 | one column appends its word and the clocked word, and owes two fewer payload words |
| Bcm.ShiftRow | protodemo.c:244-255 | the column loop fills the 64-word run exactly and keeps the count consistent |
| Bcm.ShiftRowWords | protodemo.c:244-255 | the column loop appends the row's payload words in column order |
| Bcm.RowWordsAt | protodemo.c:244-255 | column `k` occupies payload words `2k` (clock low) and `2k+1` (clock high) |
| Bcm.RowWordsLit | protodemo.c:254 | a row run drives `/OE` low in exactly `2 * min(desired, 32)` words |
| Bcm.ColumnWordControl | protodemo.c:240-254 | column `k` keeps the address, is lit exactly while `k < desired_duration`, has clock and latch low, and drives only output pins |
| Bcm.ColumnWordColours | protodemo.c:245-254 | column `k`'s colour pins carry bit `OFFSET + bit` of each 10-bit channel: row `addr` on the upper half, row `addr + 8` on the lower |
| Bcm.BlankAndLatchAreOr | protodemo.c:262-263 | the blank and latch words are `addr_bits \| oe_inactive` and `addr_bits \| oe_inactive \| lat_bit` bit for bit |
| Bcm.BlankWordPins | protodemo.c:262 | the blank word keeps the address, has `/OE` high and clock and latch low, and drives only output pins |
| Bcm.LatchWordPins | protodemo.c:263 | the latch word is the blank word with the latch pin raised |
| Bcm.DurationBound | protodemo.c:236 | `1 << last_bit` lies in `1..128` for every plane |
| Bcm.RowRun | protodemo.c:243-260 | the run and its hold leave no run open and keep the count consistent |
| Bcm.SwitchRow | protodemo.c:262-267 | the blank, latch and readdress steps leave no run open and keep the count consistent |
| Bcm.RowRunEncodes | protodemo.c:243-260 | the run and its hold append exactly the encoding of the run's commands |
| Bcm.SwitchRowEncodes | protodemo.c:262-267 | the three `do_data_delay` calls append exactly the encoding of their commands |
| Bcm.RunOpens | protodemo.c:243-260 | a row run is the DATA run of the row's payload, followed by the hold DELAY `(desired - 32) * DATA_OVERHEAD` exactly when `desired > 32` |
| Bcm.SwitchShape | protodemo.c:262-267 | the end of an iteration is blank, latch and readdress, each in a one-word run, with a DELAY only after the readdress |
| Bcm.StepOpens | protodemo.c:243-267 | an iteration opens with its DATA run, then holds with a DELAY when the duration outlasts the run, or blanks at once |
| Bcm.StepLit | protodemo.c:254-260 | an iteration's run lights the panel for `2 * min(desired, 32)` words |
| Bcm.StepColumn | protodemo.c:240-255 | run words `2k` and `2k+1` are column `k` before and after its clock edge, on the lit address, with `/OE` low exactly while `k < desired` |
| Bcm.StepColours | protodemo.c:245-254 | the colour pins of run word `2k` carry the plane's bits of the two pixels of column `k` |
| Bcm.IterationPipelined | protodemo.c:236-241 | an iteration lights the address word that the panel decodes as `prev_addr`, for `1 << last_bit` columns, and ends on the address word of `addr` |
| Bcm.IterationColumn | protodemo.c:236-254 | column `k` of an iteration drives row address `prev_addr` and is lit exactly while `k < (1 << last_bit)` |
| Bcm.NextLightsThis | protodemo.c:224-241 | the iteration after `(bit, addr)` lights row `addr` for plane `bit`, across the end of a plane too |
| Bcm.Iteration | protodemo.c:234-268 | one pass of the address loop appends exactly the encoding of the iteration's commands and passes `bit` and `addr` on as `last_bit` and `prev_addr` |
| Bcm.Plane | protodemo.c:234-268 | the address loop of plane `bit` appends the encoding of its eight iterations and ends with `last_bit == bit`, `prev_addr == 7` |
| Bcm.PlanesStart | protodemo.c:224-225 | before the plane loop the output is empty, no run is open, `last_bit` is 0 and `prev_addr` is 7 |
| Bcm.NextPlane | protodemo.c:229-269 | one more pass of the plane loop extends the output by the encoding of the next plane down, leaves no run open, and ends with `last_bit` on that plane and `prev_addr == 7` |
| Bcm.EmittedEncodes | protodemo.c:229-269 | the planes' encodings emitted one after another are the encoding of the schedule of those planes |
| Bcm.PlanesFinish | protodemo.c:229-269 | after any number of plane passes, the output is the encoding of the schedule so far and the hardware owes no payload word |
| Bcm.Planes | protodemo.c:229-269 | the plane loop, from bit 7 down to 0, builds exactly the encoding of the whole schedule and leaves no run open |
| Bcm.PixelFlags | protodemo.c:230-252 | the masks `r`, `g` and `b` of plane `bit` pick bits `20 + OFFSET + bit`, `10 + OFFSET + bit` and `OFFSET + bit` of a pixel |
| Bcm.ColumnLit | protodemo.c:254 | column `across` adds two lit words to the run when `across < desired_duration`, none otherwise |
| Bcm.RunColumn | protodemo.c:244-255 | payload words `2k` and `2k+1` of a row run are column `k` before and after its clock edge, on the address word, lit exactly while `k < desired` |
| Bcm.RunColours | protodemo.c:245-254 | the colour pins of payload word `2k` carry the plane's bits of pixels `[addr][k]` and `[addr + 8][k]` |
| Bcm.PlaneSize | protodemo.c:234-268 | a whole plane is `8 * 72 = 576` words plus the holds counted per row pair |
| Bcm.FrameCommandsSize | protodemo.c:229-269 | the commands of a whole frame take 4624 words once encoded |
| StreamBuilder.OwedEncode | protodemo.c:181-198 | appending the encoding of encodable commands to a stream with no open run leaves no run open |
| CommandStream.HeaderRunEncodes | protodemo.c:181-192 | a header followed by the words it announces is the encoding of the DATA run of those words |
| MatrixMap.ScanRows | include/piomatter/matrixmap.h:58-76 | the outer loop returns, for all `half_panel_height` scan rows in order, what the recursive construction of the older copy returns |
| MatrixMap.ScanInChain | include/piomatter/matrixmap.h:60-72 | both pixels of every scan position lie inside the `width` x `height` chain |
| Bcm.TestPattern | protodemo.c:224-272 | the loops build exactly the encoding of the pipelined schedule; the hardware reads the schedule back, no run is left open, and the frame has 4624 words, below the 65536-byte transfer limit |
| Bcm.StepSize | protodemo.c:243-267 | an iteration is 72 words, plus one when it holds |
| Bcm.IterationSize | protodemo.c:243-267 | an iteration lighting plane `last_bit` is 72 words, plus one when `1 << last_bit > 32` |
| Bcm.PlaneRowsSize | protodemo.c:234-268 | the first `n` iterations of a plane are `72 * n` words plus their holds |
| Bcm.ScheduleSize | protodemo.c:229-269 | the first `n` planes are `576 * n` words plus their holds |
| Bcm.PlaneHolds | protodemo.c:236-260 | in a plane, row pair 0 holds when the plane above is worth more than 32 columns, and the other seven hold when the plane itself is |
| Bcm.FrameHolds | protodemo.c:229-260 | counting iteration by iteration, plane 7 holds 7 times, plane 6 holds 8 times, plane 5 holds once and planes 0-4 never, so a frame holds 16 times |
| Bcm.FrameSize | protodemo.c:324-326 | the frame is `64 * 72 + 16 = 4624` words, and its `4 * 4624` bytes are below 65536 |
| Bcm.RowWordsOutputOnly | protodemo.c:210-220 | every payload word of a row run, the column words and their clocked copies, drives only GPIOs 0-27 |
| Bcm.IterationOutputOnly | protodemo.c:236-267 | every payload word of an iteration, the row run and the blank, latch and readdress words, drives only GPIOs 0-27 |
| Bcm.SchedulePayloadPins | protodemo.c:229-269 | every payload word of the whole frame drives only GPIOs 0-27, is below `2^28`, and so is never taken for a DATA header |

## Left out

- PIO program loading, state-machine setup and the DMA transfer
  (`protodemo.c` 54-75, 302-333): these are hardware calls. Only the byte
  size that the transfer asserts is modelled.
- Wall-clock timing and the FPS report (`protodemo.c` 281-286, 320-338):
  clock access and floating point. The cycle cost of DATA and DELAY words
  to the PIO is not modelled either. So the model states how many words
  light the panel and how long the hold DELAY is, but it makes no claim
  about absolute lit time.
- The `pattern.txt` dump and the `printf` calls: file and console output.
- `make_gamma_lut` (`protodemo.c` 274-279): floating-point `pow` and
  `round`. The table is a parameter, with entries below 1024 as a
  precondition of `rgb`.
- The static test-pattern array and its per-frame rewrite of rows 11-15
  (`protodemo.c` 97-114, 155-170): the pixel grid is an input.
- `submap` in both headers: it is never called.
- The pybind11 bindings and the Python examples: foreign-library glue.
- Orientation: the root `matrixmap.h` repeats the four callbacks of the
  include header token for token, so the model defines them once.
- MatrixMap.MakeMatrixMap: requires `width > 0`, `height > 0`,
  `n_addr_lines < 30` and `width * height` within `int` range. The source
  checks only the height, and outside these preconditions it behaves as
  follows:
  - A height that C's truncating `%` does not divide by
    `2 << n_addr_lines` throws `std::range_error`, whatever the width.
    For example, `width = 0, height = 3, n_addr_lines = 0` throws.
  - Otherwise, a zero width or height makes `pixels_across` 0. The inner
    loop never runs, so `j / width` is never evaluated, and the source
    returns an empty map.
  - Otherwise, if exactly one of `width` and `height` is negative,
    `width * height` is negative. `result.reserve` then throws
    `std::length_error` once the value is converted to `size_t`.
  - Otherwise, if both are negative, `pixels_across` is positive and the
    loop builds a non-empty map. With `orientation_normal` its entries
    leave `0 .. width*height`: for example, `width = -1, height = -2,
    n_addr_lines = 0` gives `[0, -1]`.
  - `n_addr_lines >= 30`, or a `width * height` beyond `int` range,
    overflows the `int` shifts and products.

  None of these cases is modelled.
- MatrixMap.NewMatrixGeometry: requires `(2 << n_addr_lines) *
  pixels_across` within `int` range, since that product is computed in
  `int`.
- LegacyMatrixMap.MakeMatrixMapSpec: carries the same dimension
  preconditions as `MakeMatrixMap`. The root copy behaves the same way
  outside them, case by case: the height check (`matrixmap.h` 54-55) comes
  first; then a zero width or height gives an empty map; exactly one
  negative dimension makes `reserve` (`matrixmap.h` 62) throw; both
  negative give a non-empty map (out of range under `orientation_normal`); large values
  overflow `int`.
- Pins.CalcAddrBits: requires its argument within `int` range. The loop
  only passes addresses 0-7.
- StreamBuilder.PrepData: keeps the source's asserts as preconditions (no
  open run, `n < 60000`). `prep_data(0)` is modelled, with the wrapped
  header word; no caller uses it.
- StreamBuilder.DoDelay: keeps the asserts `delay < 1000000` and "no open
  run" as preconditions for a nonzero delay.

## Findings

| source | as written | input that shows it | evidently intended | confidence | as-written member | corrected member |
|---|---|---|---|---|---|---|
| include/piomatter/matrixmap.h:24-26 | `orientation_cw` uses the column `y - height - 1`, which is negative for every valid `y` | width = height = 1, x = y = 0 gives index -2 | the reflected column `height - y - 1`, which undoes `orientation_ccw` and stays in `[0, width*height)` | high; not executed | Orientation.CwAsWrittenNegative, Orientation.CwAsWrittenDoesNotUndoCcw | Orientation.CwCorrectedUndoesCcw, Orientation.ApplyInRange |

The root `matrixmap.h` (lines 22-24) has the same formula. The model keeps
the as-written `Cw` among the orientations, and makes no range claim for
it.
