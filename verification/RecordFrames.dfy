/** The record stream: how the handler frames payloads, and how the client scans
    them back. */
module RecordFrames {
  import opened Records
  import opened Lines

  /** The client's limit on a line. */
  const MAX_FRAME := 10 * 1024 * 1024

  const PREFIX := "data: "

  const GREETING := ": connected\n\n"

  predicate IsData(line: string) {
    PREFIX <= line
  }

  /** The payloads among the lines. */
  function Payloads(lines: seq<string>): seq<string> {
    if lines == [] then []
    else (if IsData(lines[0]) then [lines[0][|PREFIX|..]] else []) + Payloads(lines[1..])
  }

  function FrameOf(payload: string): string {
    PREFIX + payload + "\n\n"
  }

  function Framed(payloads: seq<string>): string {
    if payloads == [] then "" else FrameOf(payloads[0]) + Framed(payloads[1..])
  }

  function Served(payloads: seq<string>): string {
    GREETING + Framed(payloads)
  }

  /** What marshals; a record that does not is skipped. */
  function Marshaled(payloads: seq<Option<string>>): seq<string> {
    if payloads == [] then []
    else
      var last := payloads[|payloads| - 1];
      Marshaled(payloads[..|payloads| - 1]) + if last.Some? then [last.value] else []
  }

  lemma {:induction false} FramedMore(payloads: seq<string>, payload: string)
    ensures Framed(payloads + [payload]) == Framed(payloads) + FrameOf(payload)
  {
    if payloads == [] {
      assert Framed([payload][1..]) == "";
    } else {
      assert (payloads + [payload])[1..] == payloads[1..] + [payload];
      FramedMore(payloads[1..], payload);
    }
  }

  lemma MarshaledMore(payloads: seq<Option<string>>, payload: Option<string>)
    ensures Marshaled(payloads + [payload]) ==
            if payload.Some? then Marshaled(payloads) + [payload.value] else Marshaled(payloads)
  {
    assert (payloads + [payload])[..|payloads|] == payloads;
  }

  lemma PayloadsFirst(line: string, lines: seq<string>)
    ensures Payloads([line] + lines) == (if IsData(line) then [line[|PREFIX|..]] else []) + Payloads(lines)
    ensures ":" <= line ==> !IsData(line)
  {
    assert ([line] + lines)[1..] == lines;
    assert IsData(line) ==> line[0] == PREFIX[0];
  }

  lemma NoPayloads()
    ensures Payloads([]) == []
  {
  }

  lemma ServedMore(payloads: seq<Option<string>>, payload: Option<string>)
    ensures Served(Marshaled(payloads + [payload])) ==
            if payload.Some? then Served(Marshaled(payloads)) + FrameOf(payload.value) else Served(Marshaled(payloads))
  {
    hide Marshaled, Framed, FrameOf;
    MarshaledMore(payloads, payload);
    if payload.Some? {
      FramedMore(Marshaled(payloads), payload.value);
      Assoc(GREETING, Framed(Marshaled(payloads)), FrameOf(payload.value));
    }
  }

  lemma ServedNone()
    ensures Served(Marshaled([])) == GREETING
  {
    assert GREETING + "" == GREETING;
  }

  /** The handler's loop over the records it is sent. */
  method Serve(payloads: seq<Option<string>>) returns (out: string)
    ensures out == Served(Marshaled(payloads)) && ": connected\n\n" <= out
  {
    hide Served, Marshaled, FrameOf;
    ServedNone();
    out := GREETING;
    for i := 0 to |payloads|
      invariant out == Served(Marshaled(payloads[..i])) && GREETING <= out
    {
      assert payloads[..i + 1] == payloads[..i] + [payloads[i]];
      ServedMore(payloads[..i], payloads[i]);
      if payloads[i].Some? {
        out := out + FrameOf(payloads[i].value);
      }
    }
    assert payloads[..|payloads|] == payloads;
  }

  /** How a payload decodes into a record, if it does. */
  type Decoder = string -> Option<Record>

  /** The records among the payloads; those that do not decode are passed over. */
  function Decoded(decode: Decoder, payloads: seq<string>): seq<Record> {
    if payloads == [] then []
    else
      var first := decode(payloads[0]);
      (if first.Some? then [first.value] else []) + Decoded(decode, payloads[1..])
  }

  /** The records of a body, as far as its lines are within the limit. */
  function Scanned(decode: Decoder, body: string): seq<Record> {
    Decoded(decode, Payloads(ScanLines(body, MAX_FRAME).lines))
  }

  /** What one line adds. */
  function Carried(decode: Decoder, line: string): seq<Record> {
    if IsData(line) && decode(line[|PREFIX|..]).Some? then [decode(line[|PREFIX|..]).value] else []
  }

  lemma ScannedNext(decode: Decoder, rest: string, line: string, next: string)
    requires ScanLines(rest, MAX_FRAME).lines == [line] + ScanLines(next, MAX_FRAME).lines
    ensures Scanned(decode, rest) == Carried(decode, line) + Scanned(decode, next)
  {
    hide Payloads, ScanLines;
    var lines := ScanLines(next, MAX_FRAME).lines;
    PayloadsFirst(line, lines);
    if IsData(line) {
      var payload := line[|PREFIX|..];
      assert ([payload] + Payloads(lines))[1..] == Payloads(lines);
    } else {
      assert [] + Payloads(lines) == Payloads(lines);
    }
  }

  lemma ScannedNone(decode: Decoder, body: string)
    requires ScanLines(body, MAX_FRAME).lines == []
    ensures Scanned(decode, body) == []
  {
  }

  lemma GreetingCarriesNothing(decode: Decoder, line: string)
    requires ":" <= line
    ensures Carried(decode, line) == []
  {
    PayloadsFirst(line, []);
  }

  /** The client's loop over the lines of a body: it passes over the greeting,
      everything else that is not data, and data that does not decode. */
  method ScanFrames(decode: Decoder, body: string) returns (records: seq<Record>, tooLong: bool)
    ensures records == Scanned(decode, body)
    ensures tooLong == ScanLines(body, MAX_FRAME).tooLong
  {
    hide ScanLines, Scanned;
    NothingToScan(MAX_FRAME);
    ScannedNone(decode, "");
    records, tooLong := [], false;
    var rest, greeted := body, false;
    while rest != "" && !tooLong
      invariant tooLong ==> records == Scanned(decode, body)
      invariant !tooLong ==> records + Scanned(decode, rest) == Scanned(decode, body)
      invariant ScanLines(body, MAX_FRAME).tooLong == (tooLong || ScanLines(rest, MAX_FRAME).tooLong)
      decreases !tooLong, |rest|
    {
      var line, next;
      line, next, tooLong := NextLine(rest, MAX_FRAME);
      if tooLong {
        ScannedNone(decode, rest);
        assert records + [] == records;
      } else {
        ScannedNext(decode, rest, line, next);
        rest := next;
        if ":" <= line && !greeted {
          GreetingCarriesNothing(decode, line);
          greeted := true;
        } else if IsData(line) {
          var record := decode(line[|PREFIX|..]);
          if record.Some? {
            records := records + [record.value];
          }
        }
      }
    }
    assert records + [] == records;
  }

  // ----- Round trip

  lemma FrameLines(payload: string, rest: string)
    ensures FrameOf(payload) + rest == (PREFIX + payload) + "\n" + ("" + "\n" + rest)
  {
  }

  lemma DropAfter(prefix: string, line: string)
    requires prefix != "" && prefix[|prefix| - 1] != '\r'
    ensures DropCR(prefix + line) == prefix + DropCR(line)
  {
  }

  lemma ScanFrame(payload: string, rest: string)
    requires '\n' !in payload && |PREFIX| + |payload| < MAX_FRAME
    ensures var scan := ScanLines(rest, MAX_FRAME);
            ScanLines(FrameOf(payload) + rest, MAX_FRAME) ==
            Scan([PREFIX + DropCR(payload), ""] + scan.lines, scan.tooLong)
  {
    assert DropCR("") == "" && '\n' !in PREFIX + payload;
    hide ScanLines, DropCR, FrameOf;
    FrameLines(payload, rest);
    DropAfter(PREFIX, payload);
    ScanLine("", rest, MAX_FRAME);
    ScanLine(PREFIX + payload, "" + "\n" + rest, MAX_FRAME);
    var first, lines := PREFIX + DropCR(payload), ScanLines(rest, MAX_FRAME).lines;
    assert [first] + ([""] + lines) == [first, ""] + lines;
  }

  lemma PayloadsOfFrame(payload: string, lines: seq<string>)
    ensures Payloads([PREFIX + payload, ""] + lines) == [payload] + Payloads(lines)
  {
    assert ([PREFIX + payload, ""] + lines)[1..] == [""] + lines;
    assert ([""] + lines)[1..] == lines;
  }

  ghost predicate OnOneLine(payloads: seq<string>) {
    forall k :: 0 <= k < |payloads| ==> '\n' !in payloads[k]
  }

  function Dropped(payloads: seq<string>): seq<string> {
    seq(|payloads|, k requires 0 <= k < |payloads| => DropCR(payloads[k]))
  }

  ghost predicate Fit(payloads: seq<string>) {
    forall k :: 0 <= k < |payloads| ==> |PREFIX| + |payloads[k]| < MAX_FRAME
  }

  lemma DroppedFirst(payloads: seq<string>)
    requires payloads != []
    ensures Dropped(payloads) == [DropCR(payloads[0])] + Dropped(payloads[1..])
  {
  }

  lemma FramedFirst(payloads: seq<string>)
    requires payloads != []
    ensures Framed(payloads) == FrameOf(payloads[0]) + Framed(payloads[1..])
  {
  }

  lemma FramedNone()
    ensures Framed([]) == "" && Dropped([]) == []
  {
  }

  lemma {:induction false} ScanFramed(payloads: seq<string>)
    requires OnOneLine(payloads) && Fit(payloads)
    ensures Payloads(ScanLines(Framed(payloads), MAX_FRAME).lines) == Dropped(payloads)
    ensures !ScanLines(Framed(payloads), MAX_FRAME).tooLong
  {
    hide ScanLines, Payloads, Framed, FrameOf, Dropped, DropCR;
    if payloads == [] {
      FramedNone();
      NothingToScan(MAX_FRAME);
      NoPayloads();
    } else {
      ScanFramed(payloads[1..]);
      ScanFrame(payloads[0], Framed(payloads[1..]));
      PayloadsOfFrame(DropCR(payloads[0]), ScanLines(Framed(payloads[1..]), MAX_FRAME).lines);
      FramedFirst(payloads);
      DroppedFirst(payloads);
    }
  }

  lemma ScanGreeting(rest: string)
    ensures Payloads(ScanLines(GREETING + rest, MAX_FRAME).lines) == Payloads(ScanLines(rest, MAX_FRAME).lines)
    ensures ScanLines(GREETING + rest, MAX_FRAME).tooLong == ScanLines(rest, MAX_FRAME).tooLong
  {
    hide ScanLines;
    assert GREETING + rest == ": connected" + "\n" + ("" + "\n" + rest);
    ScanLine("", rest, MAX_FRAME);
    ScanLine(": connected", "" + "\n" + rest, MAX_FRAME);
    var lines := ScanLines(rest, MAX_FRAME).lines;
    assert [": connected"] + ([""] + lines) == [": connected", ""] + lines;
    PayloadsFirst(": connected", [""] + lines);
    PayloadsFirst("", lines);
  }

  lemma {:induction false} PayloadsOnOneLine(lines: seq<string>)
    requires forall k :: 0 <= k < |lines| ==> '\n' !in lines[k]
    ensures OnOneLine(Payloads(lines))
  {
    if lines != [] {
      PayloadsOnOneLine(lines[1..]);
      if IsData(lines[0]) {
        assert lines[0] == PREFIX + lines[0][|PREFIX|..];
      }
    }
  }

  lemma {:induction false} PayloadsFit(lines: seq<string>)
    requires forall k :: 0 <= k < |lines| ==> |lines[k]| < MAX_FRAME
    ensures Fit(Payloads(lines))
  {
    if lines != [] {
      PayloadsFit(lines[1..]);
    }
  }

  predicate EndsInCR(payload: string) {
    payload != "" && payload[|payload| - 1] == '\r'
  }

  /** Main result on the record stream: the client scans back exactly the payloads
      the handler framed, none lost, if and only if each is within the client's line
      limit, on one line, and does not end in a carriage return. */
  lemma ScansExactly(payloads: seq<string>)
    ensures Payloads(ScanLines(Served(payloads), MAX_FRAME).lines) == payloads <==>
            Fit(payloads) && OnOneLine(payloads) && forall k :: 0 <= k < |payloads| ==> !EndsInCR(payloads[k])
    ensures Fit(payloads) && OnOneLine(payloads) ==> !ScanLines(Served(payloads), MAX_FRAME).tooLong
  {
    hide ScanLines, Payloads;
    var read := Payloads(ScanLines(Served(payloads), MAX_FRAME).lines);
    LinesAreLines(Served(payloads), MAX_FRAME);
    PayloadsOnOneLine(ScanLines(Served(payloads), MAX_FRAME).lines);
    LinesFit(Served(payloads), MAX_FRAME);
    PayloadsFit(ScanLines(Served(payloads), MAX_FRAME).lines);
    if Fit(payloads) && OnOneLine(payloads) {
      ScanGreeting(Framed(payloads));
      ScanFramed(payloads);
      assert read == Dropped(payloads);
      assert forall k :: 0 <= k < |payloads| ==> (Dropped(payloads)[k] == payloads[k] <==> !EndsInCR(payloads[k]));
    }
  }

  /** The records that marshal. */
  function Sent(marshal: Record -> Option<string>, records: seq<Record>): seq<Record> {
    if records == [] then []
    else
      Sent(marshal, records[..|records| - 1]) +
      if marshal(records[|records| - 1]).Some? then [records[|records| - 1]] else []
  }

  function MarshalAll(marshal: Record -> Option<string>, records: seq<Record>): seq<Option<string>> {
    seq(|records|, k requires 0 <= k < |records| => marshal(records[k]))
  }

  lemma {:induction false} DecodedMore(decode: Decoder, payloads: seq<string>, payload: string)
    ensures Decoded(decode, payloads + [payload]) ==
            Decoded(decode, payloads) + if decode(payload).Some? then [decode(payload).value] else []
  {
    if payloads != [] {
      assert (payloads + [payload])[1..] == payloads[1..] + [payload];
      DecodedMore(decode, payloads[1..], payload);
    } else {
      assert [payload][1..] == [];
    }
  }

  lemma {:induction false} DecodesBack(marshal: Record -> Option<string>, decode: Decoder, records: seq<Record>)
    requires forall k :: 0 <= k < |records| ==>
               var text := marshal(records[k]);
               text.Some? ==> decode(text.value) == Some(records[k])
    ensures Decoded(decode, Marshaled(MarshalAll(marshal, records))) == Sent(marshal, records)
  {
    if records != [] {
      var front, last := records[..|records| - 1], records[|records| - 1];
      DecodesBack(marshal, decode, front);
      assert MarshalAll(marshal, records) == MarshalAll(marshal, front) + [marshal(last)];
      MarshaledMore(MarshalAll(marshal, front), marshal(last));
      if marshal(last).Some? {
        DecodedMore(decode, Marshaled(MarshalAll(marshal, front)), marshal(last).value);
      }
      hide Decoded, Marshaled;
    } else {
      assert MarshalAll(marshal, records) == [];
    }
  }

  /** From handler to client: with a decoder that inverts the marshaller, and texts
      the framing carries, the client has exactly the records that marshal, in order. */
  lemma RecordsArrive(marshal: Record -> Option<string>, decode: Decoder, records: seq<Record>)
    requires forall k :: 0 <= k < |records| ==>
               var text := marshal(records[k]);
               text.Some? ==> decode(text.value) == Some(records[k])
    requires var texts := Marshaled(MarshalAll(marshal, records));
             Fit(texts) && OnOneLine(texts) && forall k :: 0 <= k < |texts| ==> !EndsInCR(texts[k])
    ensures Scanned(decode, Served(Marshaled(MarshalAll(marshal, records)))) == Sent(marshal, records)
  {
    hide Decoded, Payloads, ScanLines, Served, Marshaled, MarshalAll;
    ScansExactly(Marshaled(MarshalAll(marshal, records)));
    DecodesBack(marshal, decode, records);
  }
}
