/** The web server's event stream: how a message is framed, and how a browser
    reads it back, by section 9.2.6 of the WHATWG HTML standard. */
module WebFrames {
  import opened Lines

  /** The limit on a line of a message's data. */
  const MAX_LINE := 4 * 1024 * 1024

  // ----- Reading

  /** The position of the first line end: CR or LF. */
  function LineEnd(s: string): (i: nat)
    ensures i <= |s| && (i < |s| ==> s[i] == '\n' || s[i] == '\r') && '\n' !in s[..i] && '\r' !in s[..i]
  {
    if s == "" || s[0] == '\n' || s[0] == '\r' then 0
    else
      assert s == [s[0]] + s[1..];
      1 + LineEnd(s[1..])
  }

  /** The complete lines of a stream, ended by CR LF, LF or CR. */
  function ReadLines(s: string): seq<string> {
    var i := LineEnd(s);
    if i == |s| then []
    else if s[i] == '\r' && i + 1 < |s| && s[i + 1] == '\n' then [s[..i]] + ReadLines(s[i + 2..])
    else [s[..i]] + ReadLines(s[i + 1..])
  }

  datatype Message = Message(event: string, data: string)

  /** The event type and data buffers. */
  datatype Reader = Reader(event: string, data: string)

  const IDLE := Reader("", "")

  function FieldName(line: string): string {
    line[..Index(line, ':')]
  }

  /** What follows the colon, less one space. */
  function FieldValue(line: string): string {
    var i := Index(line, ':');
    if i == |line| then ""
    else if i + 1 < |line| && line[i + 1] == ' ' then line[i + 2..]
    else line[i + 1..]
  }

  /** A line that is not empty. */
  function Feed(r: Reader, line: string): Reader
    requires line != ""
  {
    if line[0] == ':' then r
    else if FieldName(line) == "event" then r.(event := FieldValue(line))
    else if FieldName(line) == "data" then r.(data := r.data + FieldValue(line) + "\n")
    else r
  }

  /** An empty line: nothing without data; else the message, less the last newline. */
  function Dispatch(r: Reader): seq<Message> {
    if r.data == "" then []
    else
      var data := if r.data[|r.data| - 1] == '\n' then r.data[..|r.data| - 1] else r.data;
      [Message(if r.event == "" then "message" else r.event, data)]
  }

  function Interpret(r: Reader, lines: seq<string>): seq<Message>
    decreases lines
  {
    if lines == [] then []
    else if lines[0] == "" then Dispatch(r) + Interpret(IDLE, lines[1..])
    else Interpret(Feed(r, lines[0]), lines[1..])
  }

  function Read(s: string): seq<Message> {
    Interpret(IDLE, ReadLines(s))
  }

  // ----- Writing

  function DataLine(line: string): string {
    "data: " + line + "\n"
  }

  function DataLines(lines: seq<string>): string {
    if lines == [] then "" else DataLine(lines[0]) + DataLines(lines[1..])
  }

  /** What follows the event line of a message; without the closing empty line
      when a line is too long. */
  function Body(data: string): string {
    if data == "" then "data:\n\n"
    else
      var scan := ScanLines(data, MAX_LINE);
      DataLines(scan.lines) + if scan.tooLong then "" else "\n"
  }

  function Frame(event: string, data: string): string {
    "event: " + event + "\n" + Body(data)
  }

  lemma {:induction false} DataLinesMore(lines: seq<string>, line: string)
    ensures DataLines(lines + [line]) == DataLines(lines) + DataLine(line)
  {
    if lines == [] {
      assert [line][1..] == [];
    } else {
      assert (lines + [line])[1..] == lines[1..] + [line];
      DataLinesMore(lines[1..], line);
    }
  }

  lemma NoDataLines()
    ensures DataLines([]) == ""
  {
  }

  lemma FrameIs(event: string, data: string)
    ensures var head, scan := "event: " + event + "\n", ScanLines(data, MAX_LINE);
            Frame(event, data) == if data == "" then head + "data:\n\n"
                                  else if scan.tooLong then head + DataLines(scan.lines)
                                  else head + DataLines(scan.lines) + "\n"
  {
  }

  lemma MoreDone(head: string, done: seq<string>, line: string, later: seq<string>)
    ensures head + DataLines(done + [line]) == head + DataLines(done) + DataLine(line)
    ensures done + ([line] + later) == (done + [line]) + later
  {
    DataLinesMore(done, line);
    assert head + (DataLines(done) + DataLine(line)) == (head + DataLines(done)) + DataLine(line);
  }

  /** Writes a message; `err` when a line of its data is too long. */
  method WriteSSE(event: string, data: string) returns (out: string, err: bool)
    ensures out == Frame(event, data)
    ensures err <==> LongLine(data, MAX_LINE)
  {
    hide DataLines, DataLine, ScanLines, Frame, Body, LongLine;
    TooLongExactly(data, MAX_LINE);
    FrameIs(event, data);
    NothingToScan(MAX_LINE);
    out := "event: " + event + "\n";
    ghost var head := out;
    if data == "" {
      out := out + "data:\n\n";
      return out, false;
    }
    var rest := data;
    ghost var done := [];
    NoDataLines();
    assert [] + ScanLines(data, MAX_LINE).lines == ScanLines(data, MAX_LINE).lines;
    err := false;
    while rest != "" && !err
      invariant out == head + DataLines(done)
      invariant err ==> ScanLines(data, MAX_LINE) == Scan(done, true)
      invariant !err ==> var scan := ScanLines(rest, MAX_LINE);
                         ScanLines(data, MAX_LINE) == Scan(done + scan.lines, scan.tooLong)
      decreases !err, |rest|
    {
      var line, next;
      line, next, err := NextLine(rest, MAX_LINE);
      if !err {
        MoreDone(head, done, line, ScanLines(next, MAX_LINE).lines);
        out := out + DataLine(line);
        done := done + [line];
        rest := next;
      } else {
        assert done + [] == done;
      }
    }
    if !err {
      assert done + [] == done;
      out := out + "\n";
    }
  }

  // ----- Round trip

  /** The data less one trailing newline. */
  function Trimmed(data: string): string {
    if data != "" && data[|data| - 1] == '\n' then data[..|data| - 1] else data
  }

  predicate OneLine(s: string) {
    '\n' !in s && '\r' !in s
  }

  lemma {:induction false} LineEndIs(s: string, n: nat)
    requires n < |s| && OneLine(s[..n]) && (s[n] == '\n' || s[n] == '\r')
    ensures LineEnd(s) == n
  {
    if n > 0 {
      assert s[..n] == [s[0]] + s[1..][..n - 1];
      LineEndIs(s[1..], n - 1);
    }
  }

  lemma ReadOne(line: string, rest: string)
    requires OneLine(line)
    ensures ReadLines(line + "\n" + rest) == [line] + ReadLines(rest)
  {
    var s := line + "\n" + rest;
    assert s[..|line|] == line && s[|line|] == '\n' && s[|line| + 1..] == rest;
    LineEndIs(s, |line|);
  }

  ghost predicate OneLiners(lines: seq<string>) {
    forall k :: 0 <= k < |lines| ==> OneLine(lines[k])
  }

  /** The data the lines add up to. */
  function Joined(lines: seq<string>): string {
    if lines == [] then "" else lines[0] + "\n" + Joined(lines[1..])
  }

  lemma FeedData(r: Reader, line: string)
    ensures "data: " + line != "" && Feed(r, "data: " + line) == r.(data := r.data + line + "\n")
  {
    var s := "data: " + line;
    assert s[..4] == "data" && s[4] == ':' && s[5] == ' ' && s[6..] == line;
    IndexIs(s, ':', 4);
  }

  lemma FeedEvent(r: Reader, event: string)
    ensures "event: " + event != "" && Feed(r, "event: " + event) == r.(event := event)
  {
    var s := "event: " + event;
    assert s[..5] == "event" && s[5] == ':' && s[6] == ' ' && s[7..] == event;
    IndexIs(s, ':', 5);
  }

  lemma ReadDataLine(r: Reader, line: string, tail: string)
    requires OneLine(line)
    ensures Interpret(r, ReadLines(DataLine(line) + tail)) ==
            Interpret(r.(data := r.data + line + "\n"), ReadLines(tail))
  {
    hide ReadLines, Interpret, Feed;
    assert DataLine(line) + tail == ("data: " + line) + "\n" + tail;
    assert OneLine("data: " + line);
    ReadOne("data: " + line, tail);
    FeedData(r, line);
    InterpretLine(r, "data: " + line, ReadLines(tail));
  }

  lemma FirstDataLine(lines: seq<string>, before: string, rest: string)
    requires lines != []
    ensures DataLines(lines) + rest == DataLine(lines[0]) + (DataLines(lines[1..]) + rest)
    ensures before + Joined(lines) == (before + lines[0] + "\n") + Joined(lines[1..])
  {
    var line, data, joined := DataLine(lines[0]), DataLines(lines[1..]), Joined(lines[1..]);
    assert DataLines(lines) == line + data && Joined(lines) == lines[0] + "\n" + joined;
    hide *;
    Assoc(line, data, rest);
    Assoc(before, lines[0] + "\n", joined);
    Assoc(before, lines[0], "\n");
  }

  lemma NoLines(before: string, rest: string)
    ensures DataLines([]) + rest == rest && before + Joined([]) == before
  {
  }

  lemma {:induction false} ReadDataLines(r: Reader, lines: seq<string>, rest: string)
    requires OneLiners(lines)
    ensures Interpret(r, ReadLines(DataLines(lines) + rest)) ==
            Interpret(r.(data := r.data + Joined(lines)), ReadLines(rest))
    decreases |lines|
  {
    hide DataLines, DataLine, Joined, ReadLines, Interpret, OneLine;
    if lines == [] {
      NoLines(r.data, rest);
    } else {
      FirstDataLine(lines, r.data, rest);
      ReadDataLine(r, lines[0], DataLines(lines[1..]) + rest);
      ReadDataLines(r.(data := r.data + lines[0] + "\n"), lines[1..], rest);
    }
  }

  lemma InterpretLine(r: Reader, line: string, lines: seq<string>)
    ensures line != "" ==> Interpret(r, [line] + lines) == Interpret(Feed(r, line), lines)
    ensures line == "" ==> Interpret(r, [line] + lines) == Dispatch(r) + Interpret(IDLE, lines)
  {
    assert ([line] + lines)[1..] == lines;
  }

  lemma SplitAt(data: string, i: nat)
    requires i < |data| && data[i] == '\n'
    ensures data == data[..i] + "\n" + data[i + 1..]
    ensures forall c :: c !in data ==> c !in data[i + 1..] && c !in data[..i]
  {
  }

  lemma NoCRToDrop(line: string)
    requires '\r' !in line
    ensures DropCR(line) == line
  {
    assert line != "" ==> line[|line| - 1] in line;
  }

  /** The first line of data without carriage returns, and what follows it. */
  lemma FirstLine(data: string, max: nat)
    requires data != "" && '\r' !in data && !ScanLines(data, max).tooLong
    ensures var i := Index(data, '\n');
            && OneLine(data[..i])
            && (i == |data| ==> ScanLines(data, max).lines == [data])
            && (i < |data| ==>
                  && '\r' !in data[i + 1..] && !ScanLines(data[i + 1..], max).tooLong
                  && ScanLines(data, max).lines == [data[..i]] + ScanLines(data[i + 1..], max).lines
                  && data == data[..i] + "\n" + data[i + 1..])
  {
    var i := Index(data, '\n');
    assert '\r' !in data[..i];
    NoCRToDrop(data[..i]);
    hide Index, DropCR;
    if i < |data| {
      SplitAt(data, i);
    } else {
      assert data[..i] == data;
    }
  }

  lemma JoinedFirst(line: string, lines: seq<string>)
    ensures Joined([line] + lines) == line + "\n" + Joined(lines)
  {
    assert ([line] + lines)[1..] == lines;
  }

  function Ended(data: string): string {
    if data == "" || data[|data| - 1] == '\n' then data else data + "\n"
  }

  lemma EndedAfter(first: string, rest: string)
    ensures Ended(first + "\n" + rest) == first + "\n" + Ended(rest)
  {
  }

  lemma EndedLine(line: string)
    requires OneLine(line) && line != ""
    ensures Joined([line]) == Ended(line)
  {
    assert line[|line| - 1] in line;
    JoinedFirst(line, []);
    assert [line] + [] == [line];
  }

  /** Without carriage returns, the scanned lines are the data, ended by a newline. */
  lemma {:induction false} ScanJoins(data: string, max: nat)
    requires '\r' !in data && !ScanLines(data, max).tooLong
    ensures OneLiners(ScanLines(data, max).lines)
    ensures Joined(ScanLines(data, max).lines) == Ended(data)
    decreases |data|
  {
    if data == "" {
      NothingToScan(max);
    } else {
      hide ScanLines, Joined, OneLine, Ended;
      FirstLine(data, max);
      var i := Index(data, '\n');
      if i == |data| {
        assert data[..i] == data;
        EndedLine(data);
      } else {
        ScanJoins(data[i + 1..], max);
        JoinedFirst(data[..i], ScanLines(data[i + 1..], max).lines);
        EndedAfter(data[..i], data[i + 1..]);
      }
    }
  }

  lemma DispatchTrims(event: string, data: string)
    requires event != "" && data != "" && data[|data| - 1] == '\n'
    ensures Dispatch(Reader(event, data)) == [Message(event, data[..|data| - 1])]
  {
  }

  lemma FeedNothing(r: Reader)
    ensures Feed(r, "data:") == r.(data := r.data + "\n")
  {
    IndexIs("data:", ':', 4);
    assert "data:"[..4] == "data";
    assert r.data + "" + "\n" == r.data + "\n";
  }

  lemma DispatchReads(r: Reader, rest: string)
    ensures Interpret(r, ReadLines("\n" + rest)) == Dispatch(r) + Interpret(IDLE, ReadLines(rest))
  {
    assert "\n" + rest == "" + "\n" + rest;
    ReadOne("", rest);
    InterpretLine(r, "", ReadLines(rest));
  }

  lemma EmptyBodyReads(event: string, rest: string)
    requires event != ""
    ensures Interpret(Reader(event, ""), ReadLines(Body("") + rest)) ==
            [Message(event, "")] + Interpret(IDLE, ReadLines(rest))
  {
    hide ReadLines, Interpret, Feed, Dispatch;
    var r := Reader(event, "");
    assert Body("") + rest == "data:" + "\n" + ("\n" + rest);
    ReadOne("data:", "\n" + rest);
    InterpretLine(r, "data:", ReadLines("\n" + rest));
    FeedNothing(r);
    assert "" + "\n" == "\n";
    DispatchReads(Reader(event, "\n"), rest);
    DispatchTrims(event, "\n");
    assert "\n"[..0] == "";
  }

  lemma BodyReads(event: string, data: string, rest: string)
    requires event != "" && data != "" && '\r' !in data && !ScanLines(data, MAX_LINE).tooLong
    ensures Interpret(Reader(event, ""), ReadLines(Body(data) + rest)) ==
            [Message(event, Trimmed(data))] + Interpret(IDLE, ReadLines(rest))
  {
    hide ReadLines, Interpret, Feed, Dispatch, DataLines, ScanLines, Joined;
    var r, lines := Reader(event, ""), ScanLines(data, MAX_LINE).lines;
    ScanJoins(data, MAX_LINE);
    assert Body(data) + rest == DataLines(lines) + ("\n" + rest);
    ReadDataLines(r, lines, "\n" + rest);
    assert "" + Joined(lines) == Joined(lines);
    DispatchReads(Reader(event, Joined(lines)), rest);
    DispatchTrims(event, Ended(data));
    assert Ended(data)[..|Ended(data)| - 1] == Trimmed(data);
  }

  /** The reader, idle, on a message without carriage returns whose lines fit. */
  lemma FrameReads(event: string, data: string, rest: string)
    requires OneLine(event) && event != "" && '\r' !in data && !LongLine(data, MAX_LINE)
    ensures Interpret(IDLE, ReadLines(Frame(event, data) + rest)) ==
            [Message(event, Trimmed(data))] + Interpret(IDLE, ReadLines(rest))
  {
    TooLongExactly(data, MAX_LINE);
    HeadReads(event, Body(data) + rest);
    FrameParts(event, data, rest);
    hide ReadLines, Interpret, DataLines, ScanLines, Feed, Frame, Body;
    if data == "" {
      EmptyBodyReads(event, rest);
    } else {
      BodyReads(event, data, rest);
    }
  }

  lemma FrameParts(event: string, data: string, rest: string)
    ensures Frame(event, data) + rest == ("event: " + event) + "\n" + (Body(data) + rest)
  {
  }

  lemma HeadReads(event: string, rest: string)
    requires OneLine(event)
    ensures Interpret(IDLE, ReadLines(("event: " + event) + "\n" + rest)) ==
            Interpret(Reader(event, ""), ReadLines(rest))
  {
    hide ReadLines, Interpret, Feed;
    var head := "event: " + event;
    ReadOne(head, rest);
    InterpretLine(IDLE, head, ReadLines(rest));
    FeedEvent(IDLE, event);
  }

  // ----- Exactly when

  lemma {:induction false} LinesAreClean(s: string)
    ensures OneLiners(ReadLines(s))
    decreases |s|
  {
    var i := LineEnd(s);
    if i < |s| {
      if s[i] == '\r' && i + 1 < |s| && s[i + 1] == '\n' {
        LinesAreClean(s[i + 2..]);
      } else {
        LinesAreClean(s[i + 1..]);
      }
    }
  }

  lemma FeedClean(r: Reader, line: string)
    requires line != "" && OneLine(line) && '\r' !in r.data
    ensures '\r' !in Feed(r, line).data
  {
    var value := FieldValue(line);
    forall k | 0 <= k < |value|
      ensures value[k] in line
    {
    }
  }

  /** No message read has a carriage return. */
  lemma {:induction false} ReadsClean(r: Reader, lines: seq<string>)
    requires OneLiners(lines) && '\r' !in r.data
    ensures forall k :: 0 <= k < |Interpret(r, lines)| ==> '\r' !in Interpret(r, lines)[k].data
    decreases lines
  {
    if lines != [] {
      assert OneLine(lines[0]);
      if lines[0] == "" {
        ReadsClean(IDLE, lines[1..]);
      } else {
        FeedClean(r, lines[0]);
        ReadsClean(Feed(r, lines[0]), lines[1..]);
      }
    }
  }

  lemma {:induction false} ScanClean(data: string, max: nat)
    requires '\r' !in data
    ensures OneLiners(ScanLines(data, max).lines)
    decreases |data|
  {
    if data != "" {
      var i := Index(data, '\n');
      if i < max {
        assert i == |data| ==> data[..i] == data;
        assert OneLine(data[..i]) && OneLine(DropCR(data[..i]));
        if i < |data| {
          ScanClean(data[i + 1..], max);
        }
      }
    }
  }

  /** A message cut off at a line too long is never dispatched. */
  lemma CutReads(event: string, data: string)
    requires OneLine(event) && '\r' !in data && ScanLines(data, MAX_LINE).tooLong
    ensures Read(Frame(event, data)) == []
  {
    hide Interpret, ReadLines, DataLines, ScanLines, Joined, Frame;
    var r, lines := Reader(event, ""), ScanLines(data, MAX_LINE).lines;
    NothingToScan(MAX_LINE);
    FrameParts(event, data, "");
    HeadReads(event, Body(data) + "");
    assert Frame(event, data) + "" == Frame(event, data);
    assert Body(data) + "" == DataLines(lines) + "";
    ScanClean(data, MAX_LINE);
    ReadDataLines(r, lines, "");
    NothingReads(r.(data := r.data + Joined(lines)));
  }

  lemma NothingReads(r: Reader)
    ensures Interpret(r, ReadLines("")) == []
  {
  }

  /** Main result on writing: a browser gets the data back, less one trailing
      newline, exactly when the data has no carriage return and no line of four
      mebibytes or more. */
  lemma FrameReadsExactly(event: string, data: string)
    requires OneLine(event) && event != ""
    ensures Read(Frame(event, data)) == [Message(event, Trimmed(data))] <==> '\r' !in data && !LongLine(data, MAX_LINE)
  {
    hide Interpret, ReadLines, Frame, DataLines, ScanLines;
    TooLongExactly(data, MAX_LINE);
    if '\r' in data {
      LinesAreClean(Frame(event, data));
      ReadsClean(IDLE, ReadLines(Frame(event, data)));
      TrimmedKeeps(data);
      var m := Message(event, Trimmed(data));
      assert m !in Read(Frame(event, data)) && m in [m];
    } else if LongLine(data, MAX_LINE) {
      CutReads(event, data);
    } else {
      FrameReads(event, data, "");
      NothingReads(IDLE);
      assert Frame(event, data) + "" == Frame(event, data);
    }
  }

  lemma TrimmedKeeps(data: string)
    requires '\r' in data
    ensures '\r' in Trimmed(data)
  {
    var k :| 0 <= k < |data| && data[k] == '\r';
    assert Trimmed(data)[k] == '\r';
  }

  function Frames(messages: seq<Message>): string {
    if messages == [] then "" else Frame(messages[0].event, messages[0].data) + Frames(messages[1..])
  }

  /** A whole stream of messages, read back one by one. */
  lemma {:induction false} StreamReads(messages: seq<Message>)
    requires forall k :: 0 <= k < |messages| ==>
               && OneLine(messages[k].event) && messages[k].event != ""
               && '\r' !in messages[k].data && !LongLine(messages[k].data, MAX_LINE)
    ensures Read(Frames(messages)) ==
            seq(|messages|, k requires 0 <= k < |messages| => Message(messages[k].event, Trimmed(messages[k].data)))
  {
    hide Interpret, ReadLines, Frame, Trimmed;
    if messages == [] {
      NothingReads(IDLE);
    } else {
      StreamReads(messages[1..]);
      FrameReads(messages[0].event, messages[0].data, Frames(messages[1..]));
    }
  }
}
