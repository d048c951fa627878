/** The two viewers side by side: given the same input they track the same spans, and
    show the same of them. */
module Viewers {
  import opened Records
  import opened Forest
  import opened StoreSpec
  import opened Subsequence
  import opened WebView
  import opened Patching
  import opened TuiRender
  import TimelineOrder
  import TuiRows
  import TuiScreen
  import WebRows
  import Web = WebServerSpec
  import Tui = TuiSpec

  /** What a message of the terminal viewer is to the web server; those about the
      terminal alone are nothing to it. */
  function OnWeb(msg: Tui.Message): Web.Message {
    match msg
    case PauseKey => Web.PauseMessage
    case ClearKey => Web.ClearMessage
    case EventMsg(record, _) => Web.RecordMessage(record)
    case StateMsg(conn, at) => Web.ConnectionMessage(conn, at)
    case _ => Web.RecordMessage(None)
  }

  function AllOnWeb(msgs: seq<Tui.Message>): seq<Web.Message> {
    seq(|msgs|, i requires 0 <= i < |msgs| => OnWeb(msgs[i]))
  }

  function Tracked(m: Tui.TuiState): Web.ServerState {
    Web.ServerState(m.store, m.conn, m.paused)
  }

  lemma SameNext(m: Tui.TuiState, allow: bool, msg: Tui.Message, cached: bool)
    ensures Tracked(Tui.Update(m, allow, msg, cached)) == Web.Next(Tracked(m), allow, Tui.MAX_ROOTS, OnWeb(msg))
  {
    hide Apply, LimitRoots, ClearOpen, MarkStale, DrawRoots, DrawAll;
  }

  /** In every run, with the cache or without, the terminal viewer tracks what the
      web server with the same limit tracks: the same forest and stale marks, the
      same connection, and paused at the same times. */
  lemma {:induction false} SameForest(allow: bool, msgs: seq<Tui.Message>, cached: bool)
    ensures Tracked(Tui.Run(allow, msgs, cached)) == Web.RunServer(Web.START, allow, Tui.MAX_ROOTS, AllOnWeb(msgs))
  {
    hide Tui.Update, Web.Next;
    if msgs == [] {
      assert AllOnWeb(msgs) == [];
    } else {
      var front := msgs[..|msgs| - 1];
      SameForest(allow, front, cached);
      assert AllOnWeb(msgs)[..|msgs| - 1] == AllOnWeb(front);
      SameNext(Tui.Run(allow, front, cached), allow, msgs[|msgs| - 1], cached);
    }
  }

  /** The terminal viewer's roots, too, are in the order they were accepted and,
      with neither pause nor clear, exactly the last ones up to the limit. */
  lemma TerminalRoots(allow: bool, msgs: seq<Tui.Message>, cached: bool)
    ensures var roots := RootIDs(Tui.Run(allow, msgs, cached).store.roots);
            var accepted := Web.AcceptedRoots(Web.START, allow, Tui.MAX_ROOTS, AllOnWeb(msgs));
            && Subseq(roots, accepted)
            && ((forall i :: 0 <= i < |msgs| ==> !msgs[i].PauseKey? && !msgs[i].ClearKey?) ==>
                  roots == Web.LastN(accepted, Tui.MAX_ROOTS))
  {
    hide Subseq, Tui.Run, Web.RunServer, Web.AcceptedRoots;
    SameForest(allow, msgs, cached);
    Web.RootsInOrder(allow, Tui.MAX_ROOTS, AllOnWeb(msgs));
    if forall i :: 0 <= i < |msgs| ==> !msgs[i].PauseKey? && !msgs[i].ClearKey? {
      forall i | 0 <= i < |msgs|
        ensures !AllOnWeb(msgs)[i].PauseMessage? && !AllOnWeb(msgs)[i].ClearMessage?
      {
        assert !msgs[i].PauseKey? && !msgs[i].ClearKey?;
      }
      Web.LastAcceptedRoots(allow, Tui.MAX_ROOTS, AllOnWeb(msgs));
    }
  }

  // ----- They show the same

  /** A spinner while the card says running, a tick when it says complete, a cross otherwise. */
  ghost predicate SameStatus(mark: Mark, status: Status, spin: string) {
    match status
    case Running => mark == Spinner(spin)
    case Complete => mark == Tick
    case Stale => mark == Cross
    case Failed => mark == Cross
  }

  /** A timer for a timer; once the page's has stopped, the two durations differ by less than
      the millisecond they are cut to, and neither is negative. */
  ghost predicate SameTiming(timing: Option<int>, timer: Option<Timer>) {
    && (timing.Some? <==> timer.Some?)
    && (timing.Some? && timer.value.endMS != 0 ==>
          var ms := timer.value.endMS - timer.value.startMS;
          && timing.value % 1000000 == 0
          && if ms <= 0 then timing.value == 0 else (ms - 1) * 1000000 <= timing.value <= ms * 1000000)
  }

  /** The drawing and the card show the same of the span and of everything below it. */
  ghost predicate Matches(doc: Doc, card: Card, spin: string)
    decreases card, 1
  {
    && doc.depth == card.depth && doc.name == card.summary.name
    && doc.error == card.summary.error && doc.attrs == card.attrs
    && SameStatus(doc.mark, card.summary.status, spin)
    && SameTiming(doc.timing, card.summary.timer)
    && var rows := Flatten(doc.parts);
       && |rows| == |card.timeline|
       && forall k :: 0 <= k < |card.timeline| ==> MatchesItem(rows[k], card.timeline[k], spin)
  }

  ghost predicate MatchesItem(row: Row, item: CardItem, spin: string)
    decreases item, 2
  {
    match item
    case EventItem(event) => row.EventRow? && row.line == EventLine(event.event, event.offset)
    case SpanItem(card) => row.SpanRow? && Matches(row.doc, card, spin)
  }

  lemma FramesAgree(t: Tree, depth: nat, width: int, env: Env)
    ensures var doc, card := Draw(t, depth, width, env), Render(t, depth, env.stale);
            && doc.depth == card.depth && doc.name == card.summary.name
            && doc.error == card.summary.error && doc.attrs == card.attrs
            && SameStatus(doc.mark, card.summary.status, env.spin)
            && doc.timing == TimingOf(t.info, env) && card.summary.timer == TimerOf(t.info, env.stale)
            && card.timeline == RenderTimeline(t, depth, env.stale)
  {
    hide Order, RenderTimeline, Group, TimingOf, TimerOf;
  }

  lemma TimingsAgree(info: Info, env: Env)
    ensures SameTiming(TimingOf(info, env), TimerOf(info, env.stale))
  {
  }

  lemma OffsetUnique(a: Option<Time>, b: Option<Time>, startedAt: Time, at: Time)
    requires TimelineOrder.Offset(a, startedAt, at) && TimelineOrder.Offset(b, startedAt, at)
    ensures a == b
  {
  }

  /** Whatever the span and all that is below it, wherever it is, and in any environment. */
  lemma {:induction false} Agrees(t: Tree, depth: nat, width: int, env: Env)
    ensures Matches(Draw(t, depth, width, env), Render(t, depth, env.stale), env.spin)
  {
    var doc, card := Draw(t, depth, width, env), Render(t, depth, env.stale);
    FramesAgree(t, depth, width, env);
    hide Draw, Render, Order, RenderTimeline, Flatten, TimingOf, TimerOf;
    TimingsAgree(t.info, env);
    TuiRows.RowsExactly(t, depth, width, env);
    WebRows.TimelineExactly(t, depth, env.stale);
    var rows := Flatten(doc.parts);
    forall k | 0 <= k < |rows|
      ensures MatchesItem(rows[k], card.timeline[k], env.spin)
    {
      assert TuiRows.ShowsEntry(t, Order(t)[k], rows[k], depth, width, env);
      assert WebRows.ShowsEntry(t, Order(t)[k], card.timeline[k], depth, env.stale);
      match Order(t)[k].ref
      case EventRef(i) =>
        OffsetUnique(rows[k].line.offset, card.timeline[k].event.offset, t.info.startedAt, t.info.events[i].at);
      case ChildRef(i) =>
        Agrees(t.children[i], depth + 1, if width < 28 then 24 else width - 4, env);
    }
  }

  lemma ForestAgrees(ts: seq<Tree>, width: int, env: Env)
    ensures var docs, page := DrawAll(ts, 0, width, env), RenderAll(ts, 0, env.stale);
            |docs| == |page| == |ts| && forall i :: 0 <= i < |ts| ==> Matches(docs[i], page[i], env.spin)
  {
    hide Draw, Render, Matches;
    forall i | 0 <= i < |ts|
      ensures Matches(Draw(ts[i], 0, width, env), Render(ts[i], 0, env.stale), env.spin)
    {
      Agrees(ts[i], 0, width, env);
    }
  }

  /** In every run, whenever the terminal has nothing waiting to be drawn and its screen is
      still, it shows of every span what the page of a server with the same input and limit
      shows. */
  lemma ScreenMatchesPage(allow: bool, msgs: seq<Tui.Message>)
    ensures var m := Tui.Run(allow, msgs, false);
            var page := Web.View(Web.RunServer(Web.START, allow, Tui.MAX_ROOTS, AllOnWeb(msgs))).page;
            m.ready && !m.repaintPending && TuiScreen.Still(m) ==>
              && |m.screen| == |page|
              && forall i :: 0 <= i < |page| ==> Matches(m.screen[i], page[i], m.spin)
  {
    hide Tui.Run, Web.RunServer, TuiScreen.Still, DrawAll, Matches, RenderAll;
    var m := Tui.Run(allow, msgs, false);
    SameForest(allow, msgs, false);
    TuiScreen.ScreenExactly(allow, msgs);
    ForestAgrees(m.store.roots, if m.width < 42 then 40 else m.width - 2, Env(m.spin, m.now, m.store.stale));
    assert RenderAll(m.store.roots, 0, m.store.stale) ==
           Web.View(Web.RunServer(Web.START, allow, Tui.MAX_ROOTS, AllOnWeb(msgs))).page;
  }

  /** In a disciplined run the terminal shows it with its cache too. */
  lemma CachedMatchesPage(allow: bool, msgs: seq<Tui.Message>)
    requires Tui.AllDisciplined(allow, msgs)
    ensures var m := Tui.Run(allow, msgs, true);
            var page := Web.View(Web.RunServer(Web.START, allow, Tui.MAX_ROOTS, AllOnWeb(msgs))).page;
            m.ready && !m.repaintPending ==>
              && |m.screen| == |page|
              && forall i :: 0 <= i < |page| ==> Matches(m.screen[i], page[i], m.spin)
  {
    hide Tui.Run, Web.RunServer, TuiScreen.Still, DrawAll, Matches, RenderAll, Tui.AllDisciplined, SettledF;
    ScreenMatchesPage(allow, msgs);
    TuiScreen.DisciplinedShown(allow, msgs);
    TuiScreen.SettledStill(Tui.Run(allow, msgs, false));
  }
}
