/** What a drawn span shows of its events and children. */
module TuiRows {
  import opened Records
  import opened Forest
  import opened Timeline
  import opened WebView
  import opened TimelineOrder
  import opened TuiRender

  /** A row shows its entry: an event with its offset, or the drawing of a child, one
      deeper and four narrower, but not below 24. */
  ghost predicate ShowsEntry(t: Tree, it: Item, row: Row, depth: nat, width: int, env: Env) {
    match it.ref
    case EventRef(i) =>
      && i < |t.info.events| && row.EventRow?
      && row.line.event == t.info.events[i]
      && Offset(row.line.offset, t.info.startedAt, t.info.events[i].at)
    case ChildRef(i) =>
      && i < |t.children| && row.SpanRow?
      && row.doc == Draw(t.children[i], depth + 1, if width < 28 then 24 else width - 4, env)
  }

  /** Laid out flat, a drawn span has one row for each entry of its timeline, in order. */
  lemma RowsExactly(t: Tree, depth: nat, width: int, env: Env)
    ensures var doc := Draw(t, depth, width, env);
            var rows := Flatten(doc.parts);
            && doc.depth == depth && doc.width == width && doc.name == t.info.name
            && doc.error == t.info.error && doc.attrs == t.info.attrs
            && |rows| == |Order(t)| == |t.info.events| + |t.children|
            && forall k :: 0 <= k < |rows| ==> ShowsEntry(t, Order(t)[k], rows[k], depth, width, env)
  {
    OrderExactly(t);
    DrawnRows(t, depth, width, env);
    hide Order, Draw, Flatten;
    forall k | 0 <= k < |Order(t)|
      ensures ShowsEntry(t, Order(t)[k], Flatten(Draw(t, depth, width, env).parts)[k], depth, width, env)
    {
      assert Refers(t, Order(t)[k]);
      RowShows(t, k, depth, width, env);
    }
  }

  lemma DrawnRows(t: Tree, depth: nat, width: int, env: Env)
    ensures var doc, docs := Draw(t, depth, width, env), DrawAll(t.children, depth + 1, Inner(width), env);
            && doc.depth == depth && doc.width == width && doc.name == t.info.name
            && doc.error == t.info.error && doc.attrs == t.info.attrs
            && Flatten(doc.parts) == Rows(t.info, Order(t), docs)
  {
    var docs := DrawAll(t.children, depth + 1, Inner(width), env);
    GroupFlattens(Rows(t.info, Order(t), docs));
    hide Order, Flatten, Group, DrawAll, Rows;
  }

  lemma RowShows(t: Tree, k: nat, depth: nat, width: int, env: Env)
    requires k < |Order(t)| && Refers(t, Order(t)[k])
    ensures var docs := DrawAll(t.children, depth + 1, Inner(width), env);
            ShowsEntry(t, Order(t)[k], Rows(t.info, Order(t), docs)[k], depth, width, env)
  {
    hide Order, Draw;
    DrawAllAt(t.children, depth + 1, Inner(width), env);
  }

  /** A duration as it is shown: in whole milliseconds, never negative. */
  ghost predicate Whole(shown: int, duration: int) {
    && shown % 1000000 == 0
    && if duration < 0 then shown == 0 else shown <= duration < shown + 1000000
  }

  /** A span that has a start shows how long it took, if it has ended at a known time; how
      long it was followed, if it is stale; and otherwise how long it has been running. */
  lemma TimingExactly(t: Tree, depth: nat, width: int, env: Env)
    ensures var timing, x := Draw(t, depth, width, env).timing, t.ID();
            && (timing.None? <==> t.info.startedAt == ZERO_TIME)
            && (timing.Some? && t.info.ended && t.info.endedAt != ZERO_TIME ==>
                  Whole(timing.value, t.info.endedAt - t.info.startedAt))
            && (timing.Some? && !t.info.ended && x in env.stale ==>
                  Whole(timing.value, env.stale[x] - t.info.startedAt))
            && (timing.Some? && !t.info.ended && x !in env.stale ==>
                  Whole(timing.value, env.now - t.info.startedAt))
  {
    hide Order, Group;
  }

  // ----- Every event is on the screen once

  function LinesEvents(lines: seq<EventLine>): multiset<EventState> {
    if lines == [] then multiset{} else LinesEvents(lines[..|lines| - 1]) + multiset{lines[|lines| - 1].event}
  }

  /** The events drawn, here and below. */
  function DocEvents(doc: Doc): multiset<EventState>
    decreases doc, 1
  {
    PartsEvents(doc.parts)
  }

  function PartsEvents(parts: seq<Part>): multiset<EventState>
    decreases parts, 0
  {
    if parts == [] then multiset{} else PartsEvents(parts[..|parts| - 1]) + PartEvents(parts[|parts| - 1])
  }

  function PartEvents(part: Part): multiset<EventState>
    decreases part, 2
  {
    match part
    case EventRun(lines) => LinesEvents(lines)
    case SpanPart(doc) => DocEvents(doc)
  }

  function RowEvents(row: Row): multiset<EventState> {
    match row
    case EventRow(line) => multiset{line.event}
    case SpanRow(doc) => DocEvents(doc)
  }

  function OwnEvents(row: Row): multiset<EventState> {
    if row.EventRow? then multiset{row.line.event} else multiset{}
  }

  function SumRows(rows: seq<Row>, g: Row -> multiset<EventState>): multiset<EventState> {
    if rows == [] then multiset{} else SumRows(rows[..|rows| - 1], g) + g(rows[|rows| - 1])
  }

  lemma {:induction false} SumRowsAppend(rows: seq<Row>, more: seq<Row>, g: Row -> multiset<EventState>)
    ensures SumRows(rows + more, g) == SumRows(rows, g) + SumRows(more, g)
    decreases |more|
  {
    if more == [] {
      assert rows + more == rows;
    } else {
      assert (rows + more)[..|rows + more| - 1] == rows + more[..|more| - 1];
      SumRowsAppend(rows, more[..|more| - 1], g);
    }
  }

  lemma {:induction false} LinesAreRows(lines: seq<EventLine>)
    ensures SumRows(RunRows(lines), RowEvents) == LinesEvents(lines)
  {
    if lines != [] {
      var front := lines[..|lines| - 1];
      assert RunRows(lines)[..|lines| - 1] == RunRows(front);
      LinesAreRows(front);
    }
  }

  lemma SpanRowEvents(doc: Doc)
    ensures SumRows([SpanRow(doc)], RowEvents) == DocEvents(doc)
  {
    assert [SpanRow(doc)][..0] == [] && SumRows([], RowEvents) == multiset{};
    hide DocEvents;
  }

  lemma {:induction false} FlattenEvents(parts: seq<Part>)
    ensures SumRows(Flatten(parts), RowEvents) == PartsEvents(parts)
  {
    if parts != [] {
      var front, last := parts[..|parts| - 1], parts[|parts| - 1];
      FlattenEvents(front);
      match last
      case EventRun(lines) =>
        SumRowsAppend(Flatten(front), RunRows(lines), RowEvents);
        LinesAreRows(lines);
      case SpanPart(doc) =>
        SumRowsAppend(Flatten(front), [SpanRow(doc)], RowEvents);
        SpanRowEvents(doc);
    }
  }

  /** What an entry of the timeline contributes. */
  function EntryEvents(t: Tree, docs: seq<Doc>, g: Row -> multiset<EventState>, it: Item): multiset<EventState>
    requires |docs| == |t.children|
  {
    match it.ref
    case EventRef(i) => if i < |t.info.events| then g(EventRow(LineOf(t.info, i))) else multiset{}
    case ChildRef(i) => if i < |docs| then g(SpanRow(docs[i])) else multiset{}
  }

  lemma {:induction false} RowsSum(t: Tree, items: seq<Item>, docs: seq<Doc>, g: Row -> multiset<EventState>)
    requires |docs| == |t.children| && InRange(items, |t.info.events|, |docs|)
    ensures SumRows(Rows(t.info, items, docs), g) == Sum(items, it => EntryEvents(t, docs, g, it))
  {
    if items != [] {
      var front, last := items[..|items| - 1], items[|items| - 1];
      var rows := Rows(t.info, items, docs);
      assert last in items && rows[..|rows| - 1] == Rows(t.info, front, docs);
      RowsSum(t, front, docs, g);
      SumEqual(front, it => EntryEvents(t, docs, g, it), it => EntryEvents(t, docs, g, it));
    }
  }

  lemma RowsCount(t: Tree, docs: seq<Doc>, g: Row -> multiset<EventState>, below: seq<multiset<EventState>>)
    requires |docs| == |below| == |t.children|
    requires forall line :: g(EventRow(line)) == multiset{line.event}
    requires forall i :: 0 <= i < |docs| ==> g(SpanRow(docs[i])) == below[i]
    ensures SumRows(Rows(t.info, Order(t), docs), g) == multiset(t.info.events) + Total(below)
  {
    hide Order, Sum, Rows, SumRows, Total, OffsetOf;
    RowsSum(t, Order(t), docs, g);
    SumEvents(t, it => EntryEvents(t, docs, g, it), below);
  }

  /** The rows of a drawn span that are events are exactly its own events, each once. */
  lemma OwnEventsDrawn(t: Tree, depth: nat, width: int, env: Env)
    ensures SumRows(Flatten(Draw(t, depth, width, env).parts), OwnEvents) == multiset(t.info.events)
  {
    hide Order, Draw, DrawAll, Rows, SumRows, Flatten;
    DrawnRows(t, depth, width, env);
    RowsCount(t, DrawAll(t.children, depth + 1, Inner(width), env), OwnEvents, Nothing(|t.children|));
  }

  lemma DocsAt(t: Tree, depth: nat, width: int, env: Env)
    ensures var docs := DrawAll(t.children, depth + 1, Inner(width), env);
            |docs| == |t.children| &&
            forall i :: 0 <= i < |docs| ==> docs[i] == Draw(t.children[i], depth + 1, Inner(width), env)
  {
    hide Draw;
  }

  lemma AllEvents(t: Tree, docs: seq<Doc>)
    requires |docs| == |t.children|
    requires forall i :: 0 <= i < |docs| ==> DocEvents(docs[i]) == TreeEvents(t.children[i])
    ensures SumRows(Rows(t.info, Order(t), docs), RowEvents) == TreeEvents(t)
  {
    assert TreeEvents(t) == multiset(t.info.events) + Total(Each(t.children));
    hide Order, Rows, SumRows, TreeEvents, DocEvents, Total;
    RowsCount(t, docs, RowEvents, Each(t.children));
  }

  /** A drawn span shows its own events, and those of all that is below it, each once. */
  lemma {:induction false} EventsDrawn(t: Tree, depth: nat, width: int, env: Env)
    ensures DocEvents(Draw(t, depth, width, env)) == TreeEvents(t)
  {
    var doc, docs := Draw(t, depth, width, env), DrawAll(t.children, depth + 1, Inner(width), env);
    assert DocEvents(doc) == PartsEvents(doc.parts);
    hide *;
    DrawnRows(t, depth, width, env);
    DocsAt(t, depth, width, env);
    forall i | 0 <= i < |docs|
      ensures DocEvents(docs[i]) == TreeEvents(t.children[i])
    {
      EventsDrawn(t.children[i], depth + 1, Inner(width), env);
    }
    FlattenEvents(doc.parts);
    AllEvents(t, docs);
  }

  function DocsEvents(docs: seq<Doc>): multiset<EventState> {
    Total(seq(|docs|, i requires 0 <= i < |docs| => DocEvents(docs[i])))
  }

  /** The screen shows every event of every span, each once. */
  lemma ScreenEvents(ts: seq<Tree>, depth: nat, width: int, env: Env)
    ensures DocsEvents(DrawAll(ts, depth, width, env)) == ForestEvents(ts)
  {
    hide Draw, DocEvents, TreeEvents;
    forall i | 0 <= i < |ts|
      ensures DocEvents(Draw(ts[i], depth, width, env)) == TreeEvents(ts[i])
    {
      EventsDrawn(ts[i], depth, width, env);
    }
    var docs := DrawAll(ts, depth, width, env);
    assert seq(|docs|, i requires 0 <= i < |docs| => DocEvents(docs[i])) ==
           seq(|ts|, i requires 0 <= i < |ts| => TreeEvents(ts[i]));
  }
}
