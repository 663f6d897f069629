/** The helpers of the demo program that build a command stream while
    keeping count, in `data_count`, of the payload words the last header
    still owes. */
module StreamBuilder {
  import opened Bits
  import opened CommandStream

  /** The number of payload words the hardware still expects after reading
      `ws` from the start. */
  function Owed(ws: seq<Word>): nat
  {
    if |ws| == 0 then 0
    else
      var before := Owed(ws[..|ws| - 1]);
      var w := ws[|ws| - 1];
      if before > 0 then before - 1
      else if IsHeader(w) then Count(w)
      else 0
  }

  /** The builder state: the words emitted so far and `data_count`, the
      payload words the last header still awaits. */
  datatype Builder = Builder(out: seq<Word>, dataCount: nat)

  /** `data_count` agrees with the hardware's reading of the output. */
  predicate Consistent(b: Builder)
  {
    Owed(b.out) == b.dataCount
  }

  /** `do_delay`: nothing for a zero delay; otherwise, outside any run, one
      DELAY word holding `delay - 1`, which the hardware reads as `delay`
      cycles. */
  function DoDelay(b: Builder, delay: nat): (r: Builder)
    requires delay == 0 || (delay < MaxDelay && b.dataCount == 0)
    ensures delay == 0 ==> r == b
    ensures delay > 0 ==>
              && r.out == b.out + [ToWord(delay - 1)]
              && !IsHeader(r.out[|b.out|]) && Count(r.out[|b.out|]) == delay
              && r.dataCount == 0
    ensures Consistent(b) ==> Consistent(r)
  {
    if delay == 0 then b
    else
      DelayDecode(delay);
      var r := Builder(b.out + [DelayWord(delay)], b.dataCount);
      assert r.out[..|r.out| - 1] == b.out;
      r
  }

  /** `prep_data`: outside any run, a header, and a counter set to the run
      length. The hardware reads the announced length `n` for every `n >= 1`;
      for `n == 0` the subtraction wraps and the header announces `2^31`
      words while the counter stays at zero. */
  function PrepData(b: Builder, n: nat): (r: Builder)
    requires b.dataCount == 0 && n < MaxRun
    ensures r.out == b.out + [HeaderWord(n)] && IsHeader(r.out[|b.out|])
    ensures r.dataCount == n
    ensures n >= 1 ==> Count(r.out[|b.out|]) == n
    ensures n == 0 ==> Value(r.out[|b.out|]) == 0xFFFF_FFFF && Count(r.out[|b.out|]) == HeaderLimit
    ensures Consistent(b) && n >= 1 ==> Consistent(r)
  {
    var r := Builder(b.out + [HeaderWord(n)], n);
    assert r.out[..|r.out| - 1] == b.out;
    assert n >= 1 ==> IsHeader(HeaderWord(n)) && Count(HeaderWord(n)) == n by {
      if n >= 1 {
        HeaderDecode(n);
      }
    }
    assert n == 0 ==> Value(HeaderWord(n)) == 0xFFFF_FFFF && IsHeader(HeaderWord(n)) && Count(HeaderWord(n)) == HeaderLimit by {
      if n == 0 {
        EmptyHeader();
      }
    }
    r
  }

  /** `do_data`: inside a run, one payload word. */
  function DoData(b: Builder, d: Word): (r: Builder)
    requires b.dataCount > 0
    ensures r.out == b.out + [d] && r.dataCount == b.dataCount - 1
    ensures Consistent(b) ==> Consistent(r)
  {
    var r := Builder(b.out + [d], b.dataCount - 1);
    assert r.out[..|r.out| - 1] == b.out;
    r
  }

  lemma EncodeOne(c: Command)
    requires Encodable(c)
    ensures AllEncodable([c]) && Encode([c]) == EncodeCommand(c)
  {
    assert [c][1..] == [];
  }

  lemma EncodeTwo(c: Command, e: Command)
    requires Encodable(c) && Encodable(e)
    ensures AllEncodable([c, e]) && Encode([c, e]) == EncodeCommand(c) + EncodeCommand(e)
  {
    assert [c, e][1..] == [e];
    EncodeOne(e);
  }

  /** `do_data_delay`: a one-word DATA run followed by an optional delay. */
  function DoDataDelay(b: Builder, d: Word, delay: nat): (r: Builder)
    requires b.dataCount == 0 && delay < MaxDelay
    ensures r.dataCount == 0
    ensures Consistent(b) ==> Consistent(r)
  {
    DoDelay(DoData(PrepData(b, 1), d), delay)
  }

  /** The commands `do_data_delay(d, delay)` stands for. */
  function DataDelayCommands(d: Word, delay: nat): (cs: seq<Command>)
    requires delay < MaxDelay
    ensures AllEncodable(cs)
  {
    if delay == 0 then
      EncodableOne(Data([d]));
      [Data([d])]
    else
      EncodableTwo(Data([d]), Delay(delay));
      [Data([d]), Delay(delay)]
  }

  /** `prep_data(n)` followed by one `do_data(d)` emits the header and the
      word. */
  lemma RunWords(b: Builder, d: Word, n: nat)
    requires b.dataCount == 0 && 1 <= n < MaxRun
    ensures DoData(PrepData(b, n), d).out == b.out + [HeaderWord(n), d]
  {
  }

  lemma OneRunEncode(d: Word)
    ensures AllEncodable([Data([d])]) && Encode([Data([d])]) == [HeaderWord(1), d]
  {
    EncodeOne(Data([d]));
  }

  /** The DATA run `do_data_delay` opens with. */
  lemma DataRunEncodes(b: Builder, d: Word)
    requires b.dataCount == 0
    ensures DoData(PrepData(b, 1), d).out == b.out + Encode([Data([d])])
  {
    RunWords(b, d, 1);
    OneRunEncode(d);
  }

  /** A nonzero `do_delay` outside any run emits exactly its DELAY word. */
  lemma DelayTail(b: Builder, delay: nat)
    requires b.dataCount == 0 && 1 <= delay < MaxDelay
    ensures DoDelay(b, delay).out == b.out + [DelayWord(delay)]
  {
  }

  lemma RunThenDelayEncode(d: Word, delay: nat)
    requires 1 <= delay < MaxDelay
    ensures AllEncodable([Data([d]), Delay(delay)])
    ensures Encode([Data([d]), Delay(delay)]) == Encode([Data([d])]) + [DelayWord(delay)]
  {
    EncodeTwo(Data([d]), Delay(delay));
    EncodeOne(Data([d]));
  }

  /** What `do_data_delay` appends is the encoding of the DATA run of its
      one word, followed by the DELAY when there is one. */
  lemma DoDataDelayEncodes(b: Builder, d: Word, delay: nat)
    requires b.dataCount == 0 && delay < MaxDelay
    ensures DoDataDelay(b, d, delay).out == b.out + Encode(DataDelayCommands(d, delay))
  {
    if delay == 0 {
      RunOnlyEncodes(b, d);
    } else {
      RunAndDelayEncodes(b, d, delay);
    }
  }

  lemma RunOnlyEncodes(b: Builder, d: Word)
    requires b.dataCount == 0
    ensures DoDataDelay(b, d, 0).out == b.out + Encode(DataDelayCommands(d, 0))
  {
    DataRunEncodes(b, d);
  }

  lemma RunAndDelayEncodes(b: Builder, d: Word, delay: nat)
    requires b.dataCount == 0 && 1 <= delay < MaxDelay
    ensures DoDataDelay(b, d, delay).out == b.out + Encode(DataDelayCommands(d, delay))
  {
    var run := DoData(PrepData(b, 1), d);
    var cs := DataDelayCommands(d, delay);
    assert cs == [Data([d]), Delay(delay)];
    DataRunEncodes(b, d);
    DelayTail(run, delay);
    RunThenDelayEncode(d, delay);
    Regroup(b.out, Encode([Data([d])]), [DelayWord(delay)]);
  }

  /** Once the hardware owes nothing, a header makes it owe the run length
      it announces, and any other word leaves it owing nothing. */
  lemma OwedNext(ws: seq<Word>, w: Word)
    requires Owed(ws) == 0
    ensures Owed(ws + [w]) == if IsHeader(w) then Count(w) else 0
  {
    assert (ws + [w])[..|ws + [w]| - 1] == ws;
  }

  /** Payload words pay off what a header announced, one each. */
  lemma {:induction false} OwedPayload(ws: seq<Word>, p: seq<Word>)
    requires |p| <= Owed(ws)
    ensures Owed(ws + p) == Owed(ws) - |p|
    decreases |p|
  {
    if |p| > 0 {
      var init := p[..|p| - 1];
      OwedPayload(ws, init);
      assert (ws + p)[..|ws + p| - 1] == ws + init;
    } else {
      assert ws + p == ws;
    }
  }

  /** An encoded command read from a command boundary ends on one. */
  lemma OwedCommand(ws: seq<Word>, c: Command)
    requires Owed(ws) == 0 && Encodable(c)
    ensures Owed(ws + EncodeCommand(c)) == 0
  {
    match c
    case Data(p) =>
      HeaderDecode(|p|);
      OwedNext(ws, HeaderWord(|p|));
      OwedPayload(ws + [HeaderWord(|p|)], p);
      assert ws + EncodeCommand(c) == ws + [HeaderWord(|p|)] + p;
    case Delay(d) =>
      DelayDecode(d);
      OwedNext(ws, DelayWord(d));
  }

  /** The hardware owes nothing after the encoding of any command list
      read from a command boundary: no run is left open. */
  lemma {:induction false} OwedEncode(ws: seq<Word>, cs: seq<Command>)
    requires Owed(ws) == 0 && AllEncodable(cs)
    ensures Owed(ws + Encode(cs)) == 0
    decreases |cs|
  {
    if |cs| > 0 {
      var head, tail := EncodeCommand(cs[0]), Encode(cs[1..]);
      OwedCommand(ws, cs[0]);
      OwedEncode(ws + head, cs[1..]);
      Regroup(ws, head, tail);
    } else {
      assert ws + Encode(cs) == ws;
    }
  }

  lemma Regroup<T>(a: seq<T>, b: seq<T>, c: seq<T>)
    ensures a + (b + c) == (a + b) + c
  {
  }
}
