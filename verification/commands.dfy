/** The command words the PIO program consumes, as a list of commands and
    as the word stream the hardware reads.

    A word with bit 31 set is a DATA header whose low 31 bits hold the run
    length minus one; the run's payload words follow it. Any other word is a
    DELAY whose low 31 bits hold the cycle count minus one. */
module CommandStream {
  import opened Arith
  import opened Bits

  /** `command_data`: `1u << 31`. */
  const CommandData: Word := Shl1(31)

  /** `command_delay`: `0u`. */
  const CommandDelay: Word := Zero

  /** One past the longest run a header can announce. */
  const HeaderLimit: nat := 0x8000_0000
  /** `prep_data` asserts its run length is below this. */
  const MaxRun: nat := 60000
  /** `do_delay` asserts its delay is below this. */
  const MaxDelay: nat := 1000000

  predicate IsHeader(w: Word)
  {
    w[31]
  }

  /** The number in a word's low 31 bits, plus one: the run length of a
      header, the cycle count of a DELAY. */
  function Count(w: Word): nat
  {
    Value(w[..31]) + 1
  }

  /** Every count a word can carry is one a header or delay word can
      express. */
  lemma CountRange(w: Word)
    ensures 1 <= Count(w) <= HeaderLimit
  {
    Pow2Constants();
  }

  /** The word `prep_data(n)` pushes, `command_data | (n - 1)`. For
      `1 <= n <= 2^31` the two operands share no bit, so the OR is the sum
      `2^31 + (n - 1)`; for `n == 0` the unsigned subtraction wraps to all
      ones. `HeaderWordIsOr` proves the bitwise reading. */
  function HeaderWord(n: nat): Word
    requires n <= HeaderLimit
  {
    if n == 0 then ToWord(WordLimit - 1) else ToWord(HeaderLimit + (n - 1))
  }

  /** The word `do_delay(delay)` pushes, `command_delay | (delay - 1)`,
      which is `delay - 1` itself (see `DelayWordIsOr`). */
  function DelayWord(delay: nat): Word
    requires 1 <= delay <= HeaderLimit
  {
    ToWord(delay - 1)
  }

  /** Bit 31 and the low field of a word spell its number. */
  lemma WordFields(w: Word)
    ensures Value(w) == Value(w[..31]) + (if IsHeader(w) then HeaderLimit else 0)
    ensures Value(w[..31]) < HeaderLimit
  {
    Pow2Constants();
    ValueSplitTop(w, 31);
  }

  /** A header announces the run length it was built from. */
  lemma HeaderDecode(n: nat)
    requires 1 <= n <= HeaderLimit
    ensures IsHeader(HeaderWord(n)) && Count(HeaderWord(n)) == n
  {
    WordFields(HeaderWord(n));
  }

  /** A DELAY word is not a header and carries its cycle count. */
  lemma DelayDecode(delay: nat)
    requires 1 <= delay <= HeaderLimit
    ensures !IsHeader(DelayWord(delay)) && Count(DelayWord(delay)) == delay
  {
    WordFields(DelayWord(delay));
  }

  /** A header is determined by the run length it announces. */
  lemma HeaderFromCount(w: Word)
    requires IsHeader(w)
    ensures Count(w) <= HeaderLimit && HeaderWord(Count(w)) == w
  {
    WordFields(w);
    WordOfValue(w);
  }

  /** A DELAY word is determined by its cycle count. */
  lemma DelayFromCount(w: Word)
    requires !IsHeader(w)
    ensures Count(w) <= HeaderLimit && DelayWord(Count(w)) == w
  {
    WordFields(w);
    WordOfValue(w);
  }

  /** `prep_data(0)` pushes the all-ones word, a header announcing `2^31`
      words. */
  lemma EmptyHeader()
    ensures Value(HeaderWord(0)) == 0xFFFF_FFFF
    ensures IsHeader(HeaderWord(0)) && Count(HeaderWord(0)) == HeaderLimit
  {
    WordFields(HeaderWord(0));
  }

  /** `HeaderWord` is the C expression `command_data | (n - 1)` bit for
      bit, the wrapped `n == 0` case included. */
  lemma HeaderWordIsOr(n: nat)
    requires n <= HeaderLimit
    ensures HeaderWord(n) == Or(CommandData, ToWord(n - 1))
  {
    if n == 0 {
      EmptyHeaderIsOr();
    } else {
      RunHeaderIsOr(n);
    }
  }

  lemma EmptyHeaderIsOr()
    ensures HeaderWord(0) == Or(CommandData, ToWord(-1))
  {
    Pow2Constants();
    var h := HeaderWord(0);
    var o := Or(CommandData, ToWord(-1));
    forall j | 0 <= j < WordSize
      ensures h[j] && o[j]
    {
      LowMaskBits(32, 32, j);
      assert ToWord(-1)[j];
    }
  }

  lemma RunHeaderIsOr(n: nat)
    requires 1 <= n <= HeaderLimit
    ensures HeaderWord(n) == Or(CommandData, ToWord(n - 1))
  {
    RunHeaderFields(n);
    SetTopBit(CommandData, HeaderWord(n), ToWord(n - 1));
  }

  /** A run header is `n - 1` in the low field with bit 31 added. */
  lemma RunHeaderFields(n: nat)
    requires 1 <= n <= HeaderLimit
    ensures HeaderWord(n)[..31] == ToWord(n - 1)[..31]
    ensures HeaderWord(n)[31] && !ToWord(n - 1)[31]
  {
    Pow2Constants();
    var h := HeaderWord(n);
    WordFields(h);
    ToBitsValue(h[..31]);
    ToWordBelow(n - 1, 31);
  }

  /** Setting bit 31 of a word with bit 31 clear. */
  lemma SetTopBit(top: Word, h: Word, low: Word)
    requires forall j :: 0 <= j < WordSize ==> top[j] == (j == 31)
    requires h[..31] == low[..31] && h[31] && !low[31]
    ensures h == Or(top, low)
  {
    var o := Or(top, low);
    forall j | 0 <= j < WordSize
      ensures h[j] == o[j]
    {
      if j < 31 {
        assert h[j] == h[..31][j];
        assert low[j] == low[..31][j];
      }
    }
  }

  /** `DelayWord` is the C expression `command_delay | (delay - 1)`. */
  lemma DelayWordIsOr(delay: nat)
    requires 1 <= delay <= HeaderLimit
    ensures DelayWord(delay) == Or(CommandDelay, ToWord(delay - 1))
  {
    ZeroClear();
  }

  /** A command of the stream as the hardware sees it. */
  datatype Command = Data(payload: seq<Word>) | Delay(cycles: nat)

  /** The commands a header or delay word can express. */
  predicate Encodable(c: Command)
  {
    match c
    case Data(p) => 1 <= |p| <= HeaderLimit
    case Delay(d) => 1 <= d <= HeaderLimit
  }

  predicate AllEncodable(cs: seq<Command>)
  {
    |cs| == 0 || (Encodable(cs[0]) && AllEncodable(cs[1..]))
  }

  function EncodeCommand(c: Command): seq<Word>
    requires Encodable(c)
  {
    match c
    case Data(p) => [HeaderWord(|p|)] + p
    case Delay(d) => [DelayWord(d)]
  }

  function Encode(cs: seq<Command>): seq<Word>
    requires AllEncodable(cs)
  {
    if |cs| == 0 then [] else EncodeCommand(cs[0]) + Encode(cs[1..])
  }

  datatype Option<T> = None | Some(value: T)

  /** The hardware's reading of a word stream: each header claims the next
      `Count` words as payload; a stream that ends inside a run has no
      reading. */
  function Parse(ws: seq<Word>): Option<seq<Command>>
    decreases |ws|
  {
    if |ws| == 0 then Some([])
    else if IsHeader(ws[0]) then
      var n := Count(ws[0]);
      if |ws| - 1 < n then None
      else
        match Parse(ws[1 + n..])
        case None => None
        case Some(rest) => Some([Data(ws[1..1 + n])] + rest)
    else
      match Parse(ws[1..])
      case None => None
      case Some(rest) => Some([Delay(Count(ws[0]))] + rest)
  }

  /** Lists of encodable commands stay encodable when joined. */
  lemma {:induction false} EncodableAppend(a: seq<Command>, b: seq<Command>)
    requires AllEncodable(a) && AllEncodable(b)
    ensures AllEncodable(a + b)
  {
    if |a| > 0 {
      assert (a + b)[1..] == a[1..] + b;
      EncodableAppend(a[1..], b);
    } else {
      assert a + b == b;
    }
  }

  lemma EncodableOne(c: Command)
    requires Encodable(c)
    ensures AllEncodable([c])
  {
    assert [c][1..] == [];
  }

  lemma EncodableTwo(c: Command, e: Command)
    requires Encodable(c) && Encodable(e)
    ensures AllEncodable([c, e])
  {
    assert [c, e][1..] == [e];
    EncodableOne(e);
  }

  lemma {:induction false} EncodeAppend(a: seq<Command>, b: seq<Command>)
    requires AllEncodable(a) && AllEncodable(b)
    ensures AllEncodable(a + b)
    ensures Encode(a + b) == Encode(a) + Encode(b)
  {
    if |a| > 0 {
      assert (a + b)[1..] == a[1..] + b;
      EncodeAppend(a[1..], b);
    } else {
      assert a + b == b;
    }
  }

  /** The hardware reads an encoded command off the front of a stream and
      goes on with the rest. */
  lemma ParseCons(c: Command, ws: seq<Word>, rest: seq<Command>)
    requires Encodable(c) && Parse(ws) == Some(rest)
    ensures Parse(EncodeCommand(c) + ws) == Some([c] + rest)
  {
    var all := EncodeCommand(c) + ws;
    match c
    case Data(p) =>
      HeaderDecode(|p|);
      assert all[1 + |p|..] == ws;
      assert all[1..1 + |p|] == p;
    case Delay(d) =>
      DelayDecode(d);
      assert all[1..] == ws;
  }

  /** Every encodable command list survives encoding and the hardware's
      reading unchanged: each header announces exactly the payload that
      follows it. */
  lemma {:induction false} ParseEncode(cs: seq<Command>)
    requires AllEncodable(cs)
    ensures Parse(Encode(cs)) == Some(cs)
  {
    if |cs| > 0 {
      var tail := cs[1..];
      ParseEncode(tail);
      ParseCons(cs[0], Encode(tail), tail);
      assert Encode(cs) == EncodeCommand(cs[0]) + Encode(tail);
      assert cs == [cs[0]] + tail;
    }
  }

  /** A stream opening with a header reads as a DATA command of the
      announced length, and that command encodes back to the opening words. */
  lemma ParseHeaderSound(ws: seq<Word>)
    requires |ws| > 0 && IsHeader(ws[0]) && Parse(ws).Some?
    ensures var n := Count(ws[0]);
            && n <= |ws| - 1
            && Parse(ws[1 + n..]).Some?
            && Parse(ws).value == [Data(ws[1..1 + n])] + Parse(ws[1 + n..]).value
            && Encodable(Data(ws[1..1 + n]))
            && EncodeCommand(Data(ws[1..1 + n])) == ws[..1 + n]
  {
    var n := Count(ws[0]);
    assert n <= |ws| - 1 && Parse(ws[1 + n..]).Some?;
    HeaderRunEncodes(ws, n);
  }

  /** A header followed by the `n` words it announces is the encoding of
      the DATA run of those words. */
  lemma HeaderRunEncodes(ws: seq<Word>, n: nat)
    requires |ws| > 0 && IsHeader(ws[0]) && n == Count(ws[0]) && n <= |ws| - 1
    ensures Encodable(Data(ws[1..1 + n])) && EncodeCommand(Data(ws[1..1 + n])) == ws[..1 + n]
  {
    CountRange(ws[0]);
    HeaderFromCount(ws[0]);
    assert ws[..1 + n] == [ws[0]] + ws[1..1 + n];
  }

  /** A stream opening with a DELAY word reads as a DELAY of its count, and
      that command encodes back to the word. */
  lemma ParseDelaySound(ws: seq<Word>)
    requires |ws| > 0 && !IsHeader(ws[0]) && Parse(ws).Some?
    ensures && Parse(ws[1..]).Some?
            && Parse(ws).value == [Delay(Count(ws[0]))] + Parse(ws[1..]).value
            && Encodable(Delay(Count(ws[0])))
            && EncodeCommand(Delay(Count(ws[0]))) == ws[..1]
  {
    CountRange(ws[0]);
    DelayFromCount(ws[0]);
  }

  /** Conversely, whatever the hardware can read is the encoding of what it
      reads. */
  lemma {:induction false} ParseSound(ws: seq<Word>)
    ensures Parse(ws).Some? ==> AllEncodable(Parse(ws).value) && Encode(Parse(ws).value) == ws
    decreases |ws|
  {
    if |ws| > 0 && Parse(ws).Some? {
      var cs := Parse(ws).value;
      var k := if IsHeader(ws[0]) then 1 + Count(ws[0]) else 1;
      if IsHeader(ws[0]) {
        ParseHeaderSound(ws);
      } else {
        ParseDelaySound(ws);
      }
      ParseSound(ws[k..]);
      assert cs == [cs[0]] + Parse(ws[k..]).value;
      assert EncodeCommand(cs[0]) == ws[..k];
      assert ws == ws[..k] + ws[k..];
    }
  }
  /** Words a command list takes on the wire: a header per DATA run plus
      its payload, one word per DELAY. */
  function Size(cs: seq<Command>): nat
  {
    if |cs| == 0 then 0
    else (match cs[0] case Data(p) => 1 + |p| case Delay(_) => 1) + Size(cs[1..])
  }

  lemma {:induction false} SizeAppend(a: seq<Command>, b: seq<Command>)
    ensures Size(a + b) == Size(a) + Size(b)
  {
    if |a| > 0 {
      assert (a + b)[1..] == a[1..] + b;
      SizeAppend(a[1..], b);
    } else {
      assert a + b == b;
    }
  }

  /** The encoding is exactly as long as the command list's size. */
  lemma {:induction false} EncodeSize(cs: seq<Command>)
    requires AllEncodable(cs)
    ensures |Encode(cs)| == Size(cs)
  {
    if |cs| > 0 {
      EncodeSize(cs[1..]);
    }
  }
}
