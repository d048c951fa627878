/** Finding a span's card in a page, and what it says after any run of messages. */
module WebCards {
  import opened Records
  import opened Connection
  import opened Forest
  import opened Locate
  import opened Pruning
  import opened Timeline
  import opened StoreSpec
  import opened StoreEffects
  import opened WebView
  import opened TimelineOrder
  import opened WebRows
  import opened Patching
  import opened WebServerSpec
  import Attributes

  // ----- Finding a card

  function CardIn(card: Card, x: string): Option<Card>
    decreases card, 1
  {
    if card.id == x then Some(card) else CardBelow(card.timeline, x)
  }

  function CardAt(item: CardItem, x: string): Option<Card>
    decreases item, 2
  {
    match item
    case EventItem(_) => None
    case SpanItem(card) => CardIn(card, x)
  }

  function CardBelow(items: seq<CardItem>, x: string): Option<Card>
    decreases items, 0
  {
    if items == [] then None
    else if CardAt(items[0], x).Some? then CardAt(items[0], x)
    else CardBelow(items[1..], x)
  }

  /** The first card with the id, from the top of the page. */
  function CardOf(page: seq<Card>, x: string): Option<Card> {
    if page == [] then None
    else if CardIn(page[0], x).Some? then CardIn(page[0], x)
    else CardOf(page[1..], x)
  }

  /** What becomes of a search result on the page. */
  function Rendered(found: Option<Hit>, depth: nat, stale: WebView.Marks): Option<Card> {
    match found
    case None => None
    case Some(hit) => Some(Render(hit.tree, depth + |hit.above|, stale))
  }

  lemma {:induction false} OnlyOne(items: seq<CardItem>, x: string, found: Option<Card>)
    requires forall k :: 0 <= k < |items| ==> CardAt(items[k], x) == None || CardAt(items[k], x) == found
    requires found.Some? ==> exists k :: 0 <= k < |items| && CardAt(items[k], x) == found
    ensures CardBelow(items, x) == found
  {
    if items != [] && CardAt(items[0], x) == None {
      OnlyOne(items[1..], x, found);
    }
  }

  /** Where the child that has x is, if any. */
  lemma {:induction false} WhichChild(ts: seq<Tree>, x: string)
    requires WellFormedF(ts)
    ensures Find(ts, x).None? ==> forall i :: 0 <= i < |ts| ==> LocateT(ts[i], x).None?
    ensures Find(ts, x).Some? ==> exists j :: 0 <= j < |ts| && LocateT(ts[j], x) == Find(ts, x) &&
                                    forall i :: 0 <= i < |ts| && i != j ==> LocateT(ts[i], x).None?
  {
    FindFinds(ts, x);
    forall i | 0 <= i < |ts|
      ensures LocateT(ts[i], x).Some? <==> x in Ids(ts[i])
    {
      LocateFinds(ts[i], x);
    }
    if x in IdsF(ts) {
      var j := InTree(ts, x);
      FindWithin(ts, j, x);
      forall i | 0 <= i < |ts| && i != j
        ensures x !in Ids(ts[i])
      {
        assert Apart(ts[i], ts[j]) || Apart(ts[j], ts[i]);
      }
    }
  }

  lemma CardHere(t: Tree, depth: nat, stale: WebView.Marks, x: string)
    ensures t.ID() == x ==>
              CardIn(Render(t, depth, stale), x) == Some(Render(t, depth, stale)) && LocateT(t, x) == Some(Hit(t, []))
    ensures var cards := RenderAll(t.children, depth + 1, stale);
            && (forall i :: 0 <= i < |cards| ==> cards[i] == Render(t.children[i], depth + 1, stale))
            && (t.ID() != x ==>
                  CardIn(Render(t, depth, stale), x) == CardBelow(Layout(t.info, Order(t), cards), x) &&
                  LocateT(t, x) == Below(t.info, Find(t.children, x)))
  {
    hide SummaryOf, Order, CardBelow, Layout, Find;
  }

  lemma {:induction false} CardInTree(t: Tree, depth: nat, stale: WebView.Marks, x: string)
    requires WellFormed(t)
    ensures CardIn(Render(t, depth, stale), x) == Rendered(LocateT(t, x), depth, stale)
  {
    hide Render, RenderAll, CardIn, CardBelow, Layout, Order, LocateT, Find, WellFormedF;
    CardHere(t, depth, stale, x);
    if t.ID() != x {
      var cards := RenderAll(t.children, depth + 1, stale);
      forall i | 0 <= i < |cards|
        ensures CardIn(cards[i], x) == Rendered(LocateT(t.children[i], x), depth + 1, stale)
      {
        WellFormedChild(t.children, i);
        CardInTree(t.children[i], depth + 1, stale, x);
      }
      CardInTimeline(t, depth, cards, stale, x);
    }
  }

  lemma WellFormedChild(ts: seq<Tree>, i: nat)
    requires WellFormedF(ts) && i < |ts|
    ensures WellFormed(ts[i])
  {
  }

  lemma {:induction false} CardInTimeline(t: Tree, depth: nat, cards: seq<Card>, stale: WebView.Marks, x: string)
    requires WellFormedF(t.children) && |cards| == |t.children|
    requires forall i :: 0 <= i < |cards| ==>
               CardIn(cards[i], x) == Rendered(LocateT(t.children[i], x), depth + 1, stale)
    ensures CardBelow(Layout(t.info, Order(t), cards), x) == Rendered(Find(t.children, x), depth + 1, stale)
  {
    hide CardIn, Render, Find, LocateT, WellFormedF, Order, CardBelow;
    var items, found := Layout(t.info, Order(t), cards), Rendered(Find(t.children, x), depth + 1, stale);
    WhichChild(t.children, x);
    forall k | 0 <= k < |items|
      ensures CardAt(items[k], x) == None || CardAt(items[k], x) == found
    {
      assert Order(t)[k] in Order(t);
    }
    if found.Some? {
      var j :| 0 <= j < |t.children| && LocateT(t.children[j], x) == Find(t.children, x);
      OrderComplete(t, j);
      var k :| 0 <= k < |Order(t)| && Order(t)[k].ref == ChildRef(j);
      assert items[k] == SpanItem(cards[j]);
      assert CardAt(items[k], x) == found;
    }
    OnlyOne(items, x, found);
  }

  lemma {:induction false} CardInForest(ts: seq<Tree>, depth: nat, stale: WebView.Marks, x: string)
    requires WellFormedF(ts)
    ensures CardOf(RenderAll(ts, depth, stale), x) == Rendered(Find(ts, x), depth, stale)
  {
    if ts != [] {
      SplitWellFormed(ts);
      assert RenderAll(ts, depth, stale)[1..] == RenderAll(ts[1..], depth, stale);
      assert RenderAll(ts, depth, stale)[0] == Render(ts[0], depth, stale);
      hide Render, RenderAll, CardIn, WellFormed, WellFormedF;
      CardInTree(ts[0], depth, stale, x);
      CardInForest(ts[1..], depth, stale, x);
    }
  }

  // ----- The server's store, read off the messages

  function Pauses(ms: seq<Message>): nat {
    if ms == [] then 0 else Pauses(ms[..|ms| - 1]) + if ms[|ms| - 1].PauseMessage? then 1 else 0
  }

  function PausedAfter(ms: seq<Message>): bool {
    Pauses(ms) % 2 == 1
  }

  /** The connection that was lost, as far as the server is concerned. */
  predicate Lost(m: Message) {
    m.ConnectionMessage? && (m.conn.phase.Retrying? || m.conn.phase.Disconnected?)
  }

  /** What a message makes the store do. */
  function OpsOf(max: int, m: Message, paused: bool): seq<Op> {
    match m
    case RecordMessage(record) => if record.None? || paused then [] else [ApplyOp(record), LimitOp(max)]
    case ConnectionMessage(_, now) => if Lost(m) then [MarkOp(now)] else []
    case PauseMessage => if paused then [] else [ClearOpenOp]
    case ClearMessage => [ClearOp]
  }

  function StoreOps(max: int, ms: seq<Message>): seq<Op> {
    if ms == [] then []
    else StoreOps(max, ms[..|ms| - 1]) + OpsOf(max, ms[|ms| - 1], PausedAfter(ms[..|ms| - 1]))
  }

  lemma {:induction false} RunOne(s: State, allow: bool, ops: seq<Op>, op: Op)
    ensures StoreSpec.Run(s, allow, ops + [op]) == Step(StoreSpec.Run(s, allow, ops), allow, op)
  {
    hide Step;
    assert (ops + [op])[..|ops|] == ops;
  }

  lemma NextOps(sv: ServerState, allow: bool, max: int, m: Message, ops: seq<Op>)
    requires sv.store == StoreSpec.Run(EMPTY, allow, ops)
    ensures Next(sv, allow, max, m).store == StoreSpec.Run(EMPTY, allow, ops + OpsOf(max, m, sv.paused))
    ensures Next(sv, allow, max, m).paused == if m.PauseMessage? then !sv.paused else sv.paused
  {
    hide StoreSpec.Run, ApplyRoots, LimitRoots, MarkStale, ClearOpen;
    assert ops + [] == ops;
    match m
    case RecordMessage(record) =>
      RunOne(EMPTY, allow, ops, ApplyOp(record));
      RunOne(EMPTY, allow, ops + [ApplyOp(record)], LimitOp(max));
      assert ops + [ApplyOp(record), LimitOp(max)] == ops + [ApplyOp(record)] + [LimitOp(max)];
    case ConnectionMessage(_, now) => RunOne(EMPTY, allow, ops, MarkOp(now));
    case PauseMessage => RunOne(EMPTY, allow, ops, ClearOpenOp);
    case ClearMessage => RunOne(EMPTY, allow, ops, ClearOp);
  }

  lemma RunNone(allow: bool)
    ensures StoreSpec.Run(EMPTY, allow, []) == EMPTY
  {
  }

  /** In every run the store is the one those operations build, and the server is paused
      after an odd number of pauses. */
  lemma {:induction false} StoreFollows(allow: bool, max: int, ms: seq<Message>)
    ensures RunServer(START, allow, max, ms).store == StoreSpec.Run(EMPTY, allow, StoreOps(max, ms))
    ensures RunServer(START, allow, max, ms).paused == PausedAfter(ms)
  {
    hide Next, OpsOf, StoreSpec.Run;
    if ms == [] {
      assert StoreSpec.Run(EMPTY, allow, []) == EMPTY by { RunNone(allow); }
    } else {
      var front := ms[..|ms| - 1];
      StoreFollows(allow, max, front);
      NextOps(RunServer(START, allow, max, front), allow, max, ms[|ms| - 1], StoreOps(max, front));
    }
  }

  /** The last connection reported; a successful one carries no error. */
  function LastConnection(ms: seq<Message>): ConnectionState {
    if ms == [] then NO_CONNECTION
    else match ms[|ms| - 1]
      case ConnectionMessage(conn, _) => if conn.phase.Connected? then conn.(err := "") else conn
      case _ => LastConnection(ms[..|ms| - 1])
  }

  /** After any run, the status bar shows how many root cards the page has, the connection
      last reported, and whether the pauses leave the server paused. */
  lemma {:induction false} StatusExactly(allow: bool, max: int, ms: seq<Message>)
    ensures var b := View(RunServer(START, allow, max, ms));
            && b.status.roots == |b.page|
            && b.status.conn == LastConnection(ms)
            && (b.status.paused <==> Pauses(ms) % 2 == 1)
  {
    hide Applied, MarkStale, ClearOpen, Render;
    if ms != [] {
      StatusExactly(allow, max, ms[..|ms| - 1]);
    }
  }

  // ----- What a card says

  function Shown(sv: ServerState, x: string): Option<Card> {
    CardOf(View(sv).page, x)
  }

  /** A span has a card exactly while it is tracked, at its depth. */
  lemma ShownExactly(sv: ServerState, x: string)
    requires StoreSpec.Valid(sv.store)
    ensures Shown(sv, x).Some? <==> x in IdsF(sv.store.roots)
    ensures Shown(sv, x).Some? ==>
              && Find(sv.store.roots, x).Some?
              && Shown(sv, x) == Some(Render(Find(sv.store.roots, x).value.tree, |Find(sv.store.roots, x).value.above|,
                                             sv.store.stale))
  {
    hide Render, Find, IdsF, WellFormedF, CardOf;
    WellFormedOf(sv.store);
    FindFinds(sv.store.roots, x);
    CardInForest(sv.store.roots, 0, sv.store.stale, x);
  }

  /** The span's own record. */
  function Own(sv: ServerState, x: string): Info
    requires Path(sv.store.roots, x) != []
  {
    Path(sv.store.roots, x)[|Path(sv.store.roots, x)| - 1]
  }

  lemma CardSays(sv: ServerState, x: string)
    requires StoreSpec.Valid(sv.store) && Shown(sv, x).Some?
    ensures x in IdsF(sv.store.roots) && Path(sv.store.roots, x) != []
    ensures var card, info := Shown(sv, x).value, Own(sv, x);
            && info.spanID == x && card.id == x && card.depth == |Path(sv.store.roots, x)| - 1
            && card.summary == SummaryOf(info, sv.store.stale) && card.attrs == info.attrs
  {
    hide SummaryOf, Order, RenderTimeline, Find, IdsF, WellFormedF, CardOf;
    ShownExactly(sv, x);
    FindFinds(sv.store.roots, x);
  }

  // ----- What one message does to a card

  lemma {:induction false} AppliedStays(s: State, allow: bool, max: int, r: Record, x: string)
    requires StoreSpec.Valid(s) && x in IdsF(s.roots) && x in IdsF(Applied(s, allow, max, r).roots)
    ensures Path(Applied(s, allow, max, r).roots, x) ==
            if r.SpanStarted? then Path(s.roots, x) else AllWritten(Path(s.roots, x), r)
    ensures StaleSince(Applied(s, allow, max, r), x) == StaleSince(s, x)
  {
    hide IdsF, ApplyRoots, LimitRoots, Find, StoreSpec.Valid, WellFormedF;
    var between := Apply(s, allow, Some(r));
    WellFormedOf(s);
    StepKeepsValid(s, allow, ApplyOp(Some(r)));
    LimitExactly(between, max);
    if r.SpanStarted? {
      StartExactly(s.roots, allow, r);
    } else {
      RecordExactly(s.roots, allow, r);
    }
  }

  lemma {:induction false} AppliedNew(s: State, allow: bool, max: int, r: Record, x: string)
    requires StoreSpec.Valid(s) && x !in IdsF(s.roots) && x in IdsF(Applied(s, allow, max, r).roots)
    ensures r.SpanStarted? && r.spanID == x && StaleSince(Applied(s, allow, max, r), x) == None
    ensures Find(Applied(s, allow, max, r).roots, x).Some?
    ensures Find(Applied(s, allow, max, r).roots, x).value.tree == Tree(Announced(r), [])
  {
    hide IdsF, ApplyRoots, LimitRoots, Find, StoreSpec.Valid, WellFormedF;
    var between := Apply(s, allow, Some(r));
    WellFormedOf(s);
    StepKeepsValid(s, allow, ApplyOp(Some(r)));
    LimitExactly(between, max);
    FindFinds(between.roots, x);
    FindFinds(Applied(s, allow, max, r).roots, x);
    if r.SpanStarted? {
      StartExactly(s.roots, allow, r);
    } else {
      ApplyIds(s.roots, allow, r);
    }
  }

  /** The card a start makes. */
  function NewCard(r: Record, depth: nat): Card
    requires r.SpanStarted?
  {
    var at := if r.startedAt.Some? then r.startedAt.value else 0;
    Card(r.spanID, depth,
         Summary(r.name, r.traceID, if at == ZERO_TIME then None else Some(Timer(at / 1000000, 0)), Running, ""),
         Attributes.NonNil(r.attrs), [])
  }

  /** A card that was not there before is that of a start just taken, and is running. */
  lemma {:induction false} CardAppears(sv: ServerState, allow: bool, max: int, m: Message, x: string)
    requires WebServerSpec.Valid(sv, max) && max > 0
    requires Shown(sv, x).None? && Shown(Next(sv, allow, max, m), x).Some?
    ensures m.RecordMessage? && m.record.Some? && m.record.value.SpanStarted? && m.record.value.spanID == x
    ensures !sv.paused
    ensures var card := Shown(Next(sv, allow, max, m), x).value; card == NewCard(m.record.value, card.depth)
  {
    hide IdsF, Applied, Find, StoreSpec.Valid, CardOf, MarkStale, PruneF, RenderTimeline;
    var after := Next(sv, allow, max, m);
    NextKeepsValid(sv, allow, max, m);
    ShownExactly(sv, x);
    ShownExactly(after, x);
    match m
    case RecordMessage(record) =>
      if record.Some? && !sv.paused {
        AppliedNew(sv.store, allow, max, record.value, x);
        LoneCard(record.value, |Find(after.store.roots, x).value.above|, after.store.stale);
      }
    case ConnectionMessage(_, now) => MarkExactly(sv.store, now, x);
    case PauseMessage => PruneIds(sv.store.roots);
    case ClearMessage => NoIds();
  }

  lemma LoneCard(r: Record, depth: nat, stale: WebView.Marks)
    requires r.SpanStarted? && r.spanID !in stale
    ensures Render(Tree(Announced(r), []), depth, stale) == NewCard(r, depth)
  {
    OrderEmpty(Tree(Announced(r), []));
    assert |RenderTimeline(Tree(Announced(r), []), depth, stale)| == 0;
    hide Order, RenderTimeline;
  }

  predicate Ended(summary: Summary) {
    summary.status.Complete? || summary.status.Failed?
  }

  function Stopped(timer: Option<Timer>, at: Time): Option<Timer> {
    if timer.None? then None else Some(timer.value.(endMS := at / 1000000))
  }

  /** What a message makes of the summary of x. Losing the connection stops the timers that
      run; an end is shown once, and an end at the zero time leaves the timer as it is. */
  function Told(summary: Summary, x: string, m: Message, paused: bool): Summary {
    if Ended(summary) then summary
    else if Lost(m) && summary.status.Running? then
      summary.(status := Stale, timer := Stopped(summary.timer, m.now))
    else if m.RecordMessage? && m.record.Some? && !paused && m.record.value.SpanEnded? && m.record.value.spanID == x
    then
      var at := if m.record.value.endedAt.Some? then m.record.value.endedAt.value else 0;
      summary.(status := if m.record.value.error != "" then Failed else Complete, error := m.record.value.error,
               timer := if at == ZERO_TIME then summary.timer else Stopped(summary.timer, at))
    else summary
  }

  /** And of its attributes. */
  function Tagged(card: Card, m: Message, paused: bool): seq<Attribute> {
    if m.RecordMessage? && m.record.Some? && !paused && m.record.value.SpanUpdated? && m.record.value.spanID == card.id
       && !Ended(card.summary)
    then Attributes.Merge(card.attrs, m.record.value.attrs)
    else card.attrs
  }

  lemma SummaryWritten(info: Info, r: Record, before: WebView.Marks, after: WebView.Marks)
    requires info.spanID in before <==> info.spanID in after
    requires info.spanID in before ==> before[info.spanID] == after[info.spanID]
    ensures SummaryOf(Written(info, r), after) ==
            Told(SummaryOf(info, before), info.spanID, RecordMessage(Some(r)), false)
  {
  }

  /** A loss stops the span if it is open and not yet stale. */
  lemma SummaryLost(info: Info, m: Message, before: WebView.Marks, after: WebView.Marks)
    requires Lost(m)
    requires info.spanID in after <==> info.spanID in before || !info.ended
    requires info.spanID in after ==>
               after[info.spanID] == if info.spanID in before then before[info.spanID] else m.now
    ensures SummaryOf(info, after) == Told(SummaryOf(info, before), info.spanID, m, false)
  {
  }

  lemma {:induction false} NextOwn(sv: ServerState, allow: bool, max: int, m: Message, x: string)
    requires StoreSpec.Valid(sv.store) && max > 0
    requires x in IdsF(sv.store.roots) && x in IdsF(Next(sv, allow, max, m).store.roots)
    ensures Path(Next(sv, allow, max, m).store.roots, x) ==
            if m.RecordMessage? && m.record.Some? && !sv.paused && !m.record.value.SpanStarted? then
              AllWritten(Path(sv.store.roots, x), m.record.value)
            else Path(sv.store.roots, x)
    ensures StaleSince(Next(sv, allow, max, m).store, x) ==
            if x in sv.store.stale then Some(sv.store.stale[x])
            else if Lost(m) && IsOpen(sv.store.roots, x) then Some(m.now)
            else None
  {
    hide IdsF, Applied, Find, StoreSpec.Valid, MarkStale, PruneF, WellFormedF, Path, AllWritten;
    WellFormedOf(sv.store);
    match m
    case RecordMessage(record) =>
      if record.Some? && !sv.paused {
        AppliedStays(sv.store, allow, max, record.value, x);
      }
    case ConnectionMessage(_, now) => MarkExactly(sv.store, now, x);
    case PauseMessage =>
      if !sv.paused {
        PruneExact(sv.store.roots, x);
      }
    case ClearMessage => NoIds();
  }

  lemma PathEnds(ts: seq<Tree>, x: string)
    requires Path(ts, x) != []
    ensures Find(ts, x).Some? && Path(ts, x)[|Path(ts, x)| - 1] == Find(ts, x).value.tree.info
  {
    hide Find;
  }

  /** While a span is shown its card stays at its depth, and every message does to its summary
      and its attributes what is told above and nothing else. */
  lemma {:induction false} CardStays(sv: ServerState, allow: bool, max: int, m: Message, x: string)
    requires WebServerSpec.Valid(sv, max) && max > 0
    requires Shown(sv, x).Some? && Shown(Next(sv, allow, max, m), x).Some?
    ensures var before, after := Shown(sv, x).value, Shown(Next(sv, allow, max, m), x).value;
            && after.depth == before.depth
            && after.summary == Told(before.summary, x, m, sv.paused)
            && after.attrs == Tagged(before, m, sv.paused)
  {
    hide IdsF, Next, Find, StoreSpec.Valid, CardOf, Path, SummaryOf, Told;
    var after := Next(sv, allow, max, m);
    assert StoreSpec.Valid(sv.store);
    NextKeepsValid(sv, allow, max, m);
    CardSays(sv, x);
    CardSays(after, x);
    NextOwn(sv, allow, max, m, x);
    PathEnds(sv.store.roots, x);
    OwnSummary(Own(sv, x), Own(after, x), x, m, sv.paused, sv.store.stale, after.store.stale);
  }

  lemma OwnSummary(info: Info, info': Info, x: string, m: Message, paused: bool, before: WebView.Marks,
                   after: WebView.Marks)
    requires info.spanID == x
    requires info' == if m.RecordMessage? && m.record.Some? && !paused && !m.record.value.SpanStarted?
                      then Written(info, m.record.value) else info
    requires x in after <==> x in before || (Lost(m) && !info.ended)
    requires x in after ==> after[x] == if x in before then before[x] else m.now
    ensures SummaryOf(info', after) == Told(SummaryOf(info, before), x, m, paused)
    ensures info'.attrs ==
            if m.RecordMessage? && m.record.Some? && !paused && m.record.value.SpanUpdated? &&
               m.record.value.spanID == x && !Ended(SummaryOf(info, before))
            then Attributes.Merge(info.attrs, m.record.value.attrs) else info.attrs
  {
    if Lost(m) {
      SummaryLost(info, m, before, after);
    } else if m.RecordMessage? && m.record.Some? && !paused {
      SummaryWritten(info, m.record.value, before, after);
    }
  }

  // ----- What a card says after a run

  lemma StartValid(max: int)
    requires max > 0
    ensures WebServerSpec.Valid(START, max)
  {
    EmptyCloses();
  }

  lemma EndedExactly(sv: ServerState, x: string)
    requires StoreSpec.Valid(sv.store)
    ensures IsOpen(sv.store.roots, x) <==> Shown(sv, x).Some? && !Ended(Shown(sv, x).value.summary)
  {
    hide Render, Find, IdsF, WellFormedF, CardOf, RenderTimeline, StoreSpec.Valid, Shown;
    ShownExactly(sv, x);
    FindFinds(sv.store.roots, x);
    if Find(sv.store.roots, x).Some? {
      StatusEnded(Find(sv.store.roots, x).value, sv.store.stale);
    }
  }

  lemma StatusEnded(hit: Hit, stale: WebView.Marks)
    ensures Ended(Render(hit.tree, |hit.above|, stale).summary) <==> hit.tree.info.ended
  {
    hide RenderTimeline;
  }

  /** After any run and then the loss of the connection, no card says that its span is
      running, and those of the open spans say that they are stale. */
  lemma LossShown(allow: bool, max: int, ms: seq<Message>, m: Message, x: string)
    requires max > 0 && Lost(m)
    ensures var sv := Next(RunServer(START, allow, max, ms), allow, max, m);
            && (Shown(sv, x).Some? ==> Shown(sv, x).value.summary.status != Running)
            && (IsOpen(sv.store.roots, x) ==> Shown(sv, x).Some? && Shown(sv, x).value.summary.status == Stale)
  {
    hide WebServerSpec.Valid, Shown, IsOpen, RunServer, MarkStale;
    var sv := RunServer(START, allow, max, ms);
    var after := Next(sv, allow, max, m);
    StartValid(max);
    WebServerSpec.RunKeepsValid(START, allow, max, ms);
    NextKeepsValid(sv, allow, max, m);
    ValidStore(sv, max);
    ValidStore(after, max);
    EndedExactly(after, x);
    ShownExactly(sv, x);
    ShownExactly(after, x);
    MarkExactly(sv.store, m.now, x);
    if Shown(after, x).Some? {
      CardStays(sv, allow, max, m, x);
    }
  }

  lemma ValidStore(sv: ServerState, max: int)
    requires WebServerSpec.Valid(sv, max)
    ensures StoreSpec.Valid(sv.store)
  {
  }

  /** After any run and then the loss of the connection, exactly the spans marked before and
      the open ones are marked; a mark that was there stays what it was. */
  lemma LossMarks(allow: bool, max: int, ms: seq<Message>, m: Message, x: string)
    requires max > 0 && Lost(m)
    ensures var before, after := RunServer(START, allow, max, ms).store,
                                 Next(RunServer(START, allow, max, ms), allow, max, m).store;
            && after.roots == before.roots
            && StaleSince(after, x) == if x in before.stale then Some(before.stale[x])
                                       else if IsOpen(before.roots, x) then Some(m.now) else None
  {
    hide WebServerSpec.Valid, Find, RunServer, MarkStale;
    StartValid(max);
    WebServerSpec.RunKeepsValid(START, allow, max, ms);
    ValidStore(RunServer(START, allow, max, ms), max);
    MarkExactly(RunServer(START, allow, max, ms).store, m.now, x);
  }

  lemma NoRootsLost(sv: ServerState, allow: bool, max: int, r: Record)
    requires WebServerSpec.Valid(sv, max) && !r.SpanStarted?
    ensures IdsF(Applied(sv.store, allow, max, r).roots) == IdsF(sv.store.roots)
  {
    hide IdsF, StoreSpec.Valid, PruneF;
    ApplyIds(sv.store.roots, allow, r);
    assert |ApplyRoots(sv.store.roots, allow, r)| == |sv.store.roots|;
  }

  /** After any run and then a record that ends an open span: its card says how. */
  lemma EndShown(allow: bool, max: int, ms: seq<Message>, r: Record)
    requires max > 0 && r.SpanEnded?
    ensures var sv := RunServer(START, allow, max, ms);
            var after := Next(sv, allow, max, RecordMessage(Some(r)));
            !sv.paused && IsOpen(sv.store.roots, r.spanID) ==>
              && Shown(after, r.spanID).Some?
              && Shown(after, r.spanID).value.summary.status == (if r.error != "" then Failed else Complete)
              && Shown(after, r.spanID).value.summary.error == r.error
  {
    hide WebServerSpec.Valid, Shown, IsOpen, RunServer, Applied, IdsF;
    var sv, m := RunServer(START, allow, max, ms), RecordMessage(Some(r));
    var after := Next(sv, allow, max, m);
    StartValid(max);
    WebServerSpec.RunKeepsValid(START, allow, max, ms);
    NextKeepsValid(sv, allow, max, m);
    ValidStore(sv, max);
    ValidStore(after, max);
    EndedExactly(sv, r.spanID);
    if !sv.paused && IsOpen(sv.store.roots, r.spanID) {
      ShownExactly(sv, r.spanID);
      ShownExactly(after, r.spanID);
      NoRootsLost(sv, allow, max, r);
      CardStays(sv, allow, max, m, r.spanID);
    }
  }

  /** After any run, a card that a message adds is that of a start, and says running. */
  lemma StartShown(allow: bool, max: int, ms: seq<Message>, m: Message, x: string)
    requires max > 0
    ensures var sv := RunServer(START, allow, max, ms);
            var after := Next(sv, allow, max, m);
            Shown(sv, x).None? && Shown(after, x).Some? ==>
              && m.RecordMessage? && m.record.Some? && m.record.value.SpanStarted? && m.record.value.spanID == x
              && Shown(after, x).value == NewCard(m.record.value, Shown(after, x).value.depth)
              && Shown(after, x).value.summary.status == Running
  {
    hide WebServerSpec.Valid, Shown, RunServer, Next;
    StartValid(max);
    WebServerSpec.RunKeepsValid(START, allow, max, ms);
    if Shown(RunServer(START, allow, max, ms), x).None? &&
       Shown(Next(RunServer(START, allow, max, ms), allow, max, m), x).Some? {
      CardAppears(RunServer(START, allow, max, ms), allow, max, m, x);
    }
  }

  predicate SomeLost(ms: seq<Message>) {
    exists i :: 0 <= i < |ms| && Lost(ms[i])
  }

  lemma NoneLost()
    ensures !SomeLost([])
  {
  }

  lemma LossMore(ms: seq<Message>)
    requires ms != []
    ensures SomeLost(ms) <==> SomeLost(ms[..|ms| - 1]) || Lost(ms[|ms| - 1])
  {
    hide Lost;
    var front := ms[..|ms| - 1];
    assert forall i :: 0 <= i < |front| ==> front[i] == ms[i];
    if i :| 0 <= i < |ms| && Lost(ms[i]) {
      assert i < |front| ==> Lost(front[i]);
    }
  }

  /** The errors of the ends that reach x, in order. */
  function Ends(sv: ServerState, allow: bool, max: int, ms: seq<Message>, x: string): seq<string> {
    if ms == [] then []
    else
      var front, m := ms[..|ms| - 1], ms[|ms| - 1];
      Ends(sv, allow, max, front, x) +
      if m.RecordMessage? && m.record.Some? && m.record.value.SpanEnded? && m.record.value.spanID == x
         && !RunServer(sv, allow, max, front).paused
      then [m.record.value.error] else []
  }

  /** As long as it is shown, a running span's card says running until its first end or
      the first loss of the connection; after a loss stale, and from its first end on how
      it ended, for good. */
  lemma {:induction false} CardOverRun(sv: ServerState, allow: bool, max: int, ms: seq<Message>, x: string)
    requires WebServerSpec.Valid(sv, max) && max > 0
    requires forall i :: 0 <= i <= |ms| ==> Shown(RunServer(sv, allow, max, ms[..i]), x).Some?
    requires Shown(sv, x).Some? && Shown(sv, x).value.summary.status == Running
    ensures Shown(RunServer(sv, allow, max, ms), x).Some?
    ensures var status := Shown(RunServer(sv, allow, max, ms), x).value.summary.status;
            var ends := Ends(sv, allow, max, ms, x);
            status == if ends != [] then (if ends[0] != "" then Failed else Complete)
                      else if SomeLost(ms) then Stale else Running
    decreases |ms|
  {
    hide WebServerSpec.Valid, Shown, Next, SomeLost;
    assert ms[..|ms|] == ms;
    if ms == [] {
      assert !SomeLost([]) by { NoneLost(); }
    } else {
      var front, m := ms[..|ms| - 1], ms[|ms| - 1];
      forall i | 0 <= i <= |front|
        ensures Shown(RunServer(sv, allow, max, front[..i]), x).Some?
      {
        assert front[..i] == ms[..i];
      }
      CardOverRun(sv, allow, max, front, x);
      WebServerSpec.RunKeepsValid(sv, allow, max, front);
      CardStays(RunServer(sv, allow, max, front), allow, max, m, x);
      assert Shown(RunServer(sv, allow, max, ms[..|ms|]), x).Some?;
      LossMore(ms);
    }
  }

  // ----- What is sent for a record

  /** The item of the newest event. */
  ghost predicate NewestEvent(card: Card, item: CardItem) {
    && item in card.timeline && item.EventItem?
    && forall other :: other in card.timeline && other.EventItem? ==> other.event.index <= item.event.index
  }

  /** The item of the child x. */
  ghost predicate ChildItem(card: Card, x: string, item: CardItem) {
    item in card.timeline && item.SpanItem? && item.card.id == x
  }

  /** A patch carries what it is to show from the card as it is now: attributes for an update,
      the summary for an end, and for a start or an event the one new item of a timeline, or
      all of it when it has at most one or lacks the item. */
  ghost predicate Carries(card: Card, r: Record, p: Patch) {
    match r
    case SpanUpdated(_, _, _) => p == AttributesPatch(card.id, card.attrs)
    case SpanEnded(_, _, _, _, _) => p == SummaryPatch(card.id, card.summary)
    case SpanEvent(_, _, _, _, _, _) =>
      if |card.timeline| > 1 && exists item :: NewestEvent(card, item) then
        p.AppendPatch? && p.id == card.id && NewestEvent(card, p.item)
      else p == TimelinePatch(card.id, card.timeline)
    case SpanStarted(_, x, _, _, _, _) =>
      if |card.timeline| > 1 && exists item :: ChildItem(card, x, item) then
        p.AppendPatch? && p.id == card.id && ChildItem(card, x, p.item)
      else p == TimelinePatch(card.id, card.timeline)
    case NoKind => false
  }

  lemma ItemOf(t: Tree, depth: nat, stale: WebView.Marks, ref: Ref)
    requires if ref.EventRef? then ref.i < |t.info.events| else ref.i < |t.children|
    ensures LayoutItem(t.info, Item(0, ref), RenderAll(t.children, depth + 1, stale)) in RenderTimeline(t, depth, stale)
  {
    hide Order, Render;
    OrderExactly(t);
    assert Has(Order(t), ref);
    var k :| 0 <= k < |Order(t)| && Order(t)[k].ref == ref;
    assert RenderTimeline(t, depth, stale)[k] ==
           LayoutItem(t.info, Order(t)[k], RenderAll(t.children, depth + 1, stale));
  }

  lemma ItemsAre(t: Tree, depth: nat, stale: WebView.Marks, item: CardItem)
    requires item in RenderTimeline(t, depth, stale)
    ensures item.EventItem? ==> item.event.index < |t.info.events|
    ensures item.SpanItem? ==> exists i :: 0 <= i < |t.children| && t.children[i].ID() == item.card.id
  {
    hide Order, Render;
    TimelineExactly(t, depth, stale);
    var k :| 0 <= k < |RenderTimeline(t, depth, stale)| && RenderTimeline(t, depth, stale)[k] == item;
    assert ShowsEntry(t, Order(t)[k], item, depth, stale);
    if item.SpanItem? {
      var i := Order(t)[k].ref.i;
      CardID(t.children[i], depth + 1, stale);
    }
  }

  lemma CardID(t: Tree, depth: nat, stale: WebView.Marks)
    ensures Render(t, depth, stale).id == t.ID()
  {
    hide RenderTimeline;
  }

  lemma CardParts(t: Tree, depth: nat, stale: WebView.Marks)
    ensures var card := Render(t, depth, stale);
            card.id == t.ID() && card.timeline == RenderTimeline(t, depth, stale) && |card.timeline| == |Order(t)|
  {
    hide Order, RenderAll;
  }

  lemma NewestIs(t: Tree, depth: nat, stale: WebView.Marks)
    ensures var card, n := Render(t, depth, stale), |t.info.events|;
            && (n == 0 ==> forall item :: !NewestEvent(card, item))
            && (n > 0 ==> NewestEvent(card, EventItem(EventCardOf(t.info, n - 1))))
  {
    var card, n := Render(t, depth, stale), |t.info.events|;
    assert card.timeline == RenderTimeline(t, depth, stale);
    hide Render, Order, RenderTimeline, OffsetOf;
    forall item | item in card.timeline && item.EventItem?
      ensures item.event.index < n
    {
      ItemsAre(t, depth, stale, item);
    }
    if n > 0 {
      ItemOf(t, depth, stale, EventRef(n - 1));
    }
  }

  lemma EventCarried(t: Tree, depth: nat, stale: WebView.Marks, r: Record)
    requires r.SpanEvent?
    ensures Carries(Render(t, depth, stale), r, EventPatch(t, depth, stale))
  {
    hide Render, Order, RenderTimeline, ChildItem, NewestEvent, OffsetOf;
    CardParts(t, depth, stale);
    NewestIs(t, depth, stale);
  }

  lemma ChildIs(t: Tree, depth: nat, stale: WebView.Marks, x: string)
    ensures var card, i := Render(t, depth, stale), ChildIndex(t.children, x);
            && (i == |t.children| ==> forall item :: !ChildItem(card, x, item))
            && (i < |t.children| ==> ChildItem(card, x, SpanItem(Render(t.children[i], depth + 1, stale))))
  {
    var card, i := Render(t, depth, stale), ChildIndex(t.children, x);
    assert card.timeline == RenderTimeline(t, depth, stale);
    assert RenderAll(t.children, depth + 1, stale) ==
           seq(|t.children|, k requires 0 <= k < |t.children| => Render(t.children[k], depth + 1, stale));
    hide Render, Order, RenderTimeline, RenderAll;
    if item :| ChildItem(card, x, item) {
      ItemsAre(t, depth, stale, item);
    }
    if i < |t.children| {
      ItemOf(t, depth, stale, ChildRef(i));
      CardID(t.children[i], depth + 1, stale);
    }
  }

  lemma StartCarried(t: Tree, depth: nat, stale: WebView.Marks, r: Record)
    requires r.SpanStarted?
    ensures Carries(Render(t, depth, stale), r, StartPatch(t, r.spanID, depth, stale))
  {
    hide Render, Order, RenderTimeline, ChildItem, NewestEvent, ChildIndex;
    CardParts(t, depth, stale);
    ChildIs(t, depth, stale, r.spanID);
  }

  lemma ChosenCarries(t: Tree, depth: nat, stale: WebView.Marks, r: Record)
    requires !r.NoKind?
    ensures Carries(Render(t, depth, stale), r, Chosen(t, r, depth, stale))
  {
    hide StartPatch, EventPatch, RenderTimeline;
    match r
    case SpanStarted(_, _, _, _, _, _) => StartCarried(t, depth, stale, r);
    case SpanEvent(_, _, _, _, _, _) => EventCarried(t, depth, stale, r);
    case SpanUpdated(_, _, _) =>
    case SpanEnded(_, _, _, _, _) =>
  }

  /** For a record taken, one snapshot is sent: a patch made from the card as it is now, if
      the root ids stayed and the card the record concerns is on the page (its parent's, for
      a start), and otherwise a full rendering. */
  lemma RecordSent(sv: ServerState, allow: bool, max: int, r: Record)
    requires WebServerSpec.Valid(sv, max) && max > 0 && !sv.paused
    ensures var after := Next(sv, allow, max, RecordMessage(Some(r)));
            && |Sent(sv, allow, max, RecordMessage(Some(r)))| == 1
            && var snap := Sent(sv, allow, max, RecordMessage(Some(r)))[0];
               var concerned := if r.SpanStarted? then r.parentID else r.SpanID();
               && snap.status == View(after).status
               && if && RootIDs(after.store.roots) == RootIDs(sv.store.roots)
                     && Shown(after, concerned).Some? && !r.NoKind?
                  then
                    snap.page == None && snap.patch.Some? &&
                    Carries(Shown(after, concerned).value, r, snap.patch.value)
                  else snap.page == Some(View(after).page) && snap.patch == None
  {
    hide Carries, Applied, Page, Shown, Find, Chosen, IdsF, WellFormedF, Render, StoreSpec.Valid;
    var after := Next(sv, allow, max, RecordMessage(Some(r)));
    NextKeepsValid(sv, allow, max, RecordMessage(Some(r)));
    RecordEffects(sv, allow, max, r);
    WellFormedOf(after.store);
    NoEmptyIdF(after.store.roots);
    ShownExactly(after, Target(r));
    FindFinds(after.store.roots, Target(r));
    if !r.NoKind? && Shown(after, Target(r)).Some? {
      var hit := Find(after.store.roots, Target(r)).value;
      ChosenCarries(hit.tree, |hit.above|, after.store.stale, r);
    }
  }
}
