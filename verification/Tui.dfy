/** The terminal viewer in place: its fields, its handlers and the drawing of the
    store's nodes through the render cache. */
module Tui {
  import opened Records
  import opened Connection
  import opened Forest
  import opened Pruning
  import opened Timeline
  import opened StoreSpec
  import opened StoreModel
  import opened SpanTimeline
  import opened WebView
  import opened TuiRender
  import opened TuiSpec

  class Model {
    const store: Store
    var renderCache: Cache
    var conn: ConnectionState
    var paused: bool
    var ready: bool
    var width: int
    var repaintPending: bool
    var stickToBottom: bool
    var spin: string
    var now: Time
    var screen: seq<Doc>

    ghost function Abs(): TuiState
      reads this, store
    {
      TuiState(store.Abs(), renderCache, conn, paused, ready, width, repaintPending, stickToBottom, spin, now, screen)
    }

    constructor (allowUnknownParents: bool)
      ensures store.Valid() && fresh(store) && fresh(store.nodes) && Abs() == START
      ensures store.allowUnknownParents == allowUnknownParents
    {
      store := new Store(allowUnknownParents);
      renderCache, conn, paused, ready, width := map[], NO_CONNECTION, false, false, 0;
      repaintPending, stickToBottom, spin, now, screen := false, false, "", EPOCH, [];
    }

    // ----- Drawing

    /** Whether a span and everything below it has ended. */
    method IsClosedSpanTree(span: SpanState, ghost h: Heap, ghost t: Tree) returns (closed: bool)
      requires StoreModel.Current(h, store.nodes) && Rep(h, span, t)
      ensures closed == !Open(t)
      decreases t
    {
      if !span.ended {
        return false;
      }
      for i := 0 to |span.children|
        invariant forall j :: 0 <= j < i ==> !Open(t.children[j])
      {
        var c := IsClosedSpanTree(span.children[i], h, t.children[i]);
        if !c {
          return false;
        }
      }
      return true;
    }

    method RenderSpan(span: SpanState, depth: nat, width: int, env: Env, ghost h: Heap, ghost t: Tree)
      returns (doc: Doc)
      requires StoreModel.Current(h, store.nodes) && Rep(h, span, t)
      modifies this`renderCache
      ensures (doc, renderCache) == DrawCached(t, depth, width, env, old(renderCache))
      decreases t, 1
    {
      hide DrawRows, Open, Order, Group;
      var cacheable := IsClosedSpanTree(span, h, t);
      var key := Key(span.spanID, depth, width);
      if cacheable && key in renderCache {
        return renderCache[key];
      }
      var parts, eventGroup := RenderParts(span, depth, width, env, h, t);
      parts := parts + Flushed(eventGroup);
      assert parts == Group(DrawRows(t, Order(t), depth, width, env, old(renderCache)).0) by {
        GroupUnfold(DrawRows(t, Order(t), depth, width, env, old(renderCache)).0);
      }
      var info := span.Fields();
      doc := Doc(depth, width, info.name, TimingOf(info, env), MarkOf(info, env), info.error, info.attrs, parts);
      if cacheable {
        renderCache := renderCache[key := doc];
      }
    }

    lemma GroupUnfold(rows: seq<Row>)
      ensures Group(rows) == Grouping(rows).0 + Flushed(Grouping(rows).1)
    {
    }

    /** Walks the timeline, collecting runs of events and flushing them before each child. */
    method RenderParts(span: SpanState, depth: nat, width: int, env: Env, ghost h: Heap, ghost t: Tree)
      returns (parts: seq<Part>, eventGroup: seq<EventLine>)
      requires StoreModel.Current(h, store.nodes) && Rep(h, span, t)
      modifies this`renderCache
      ensures var (rows, cache) := DrawRows(t, Order(t), depth, width, env, old(renderCache));
              (parts, eventGroup) == Grouping(rows) && renderCache == cache
      decreases t, 0
    {
      var items := SpanOrder(span, h, store.nodes, t);
      parts, eventGroup := [], [];
      ghost var before := renderCache;
      assert Grouping([]) == ([], []) && DrawRows(t, [], depth, width, env, before) == ([], before);
      assert items[..0] == [];
      hide Order, DrawCached, DrawRows, Grouping, Flushed, Rep, RepF, Open;
      RepChildren(h, span, t);
      for k := 0 to |items|
        invariant (parts, eventGroup) == Grouping(DrawRows(t, items[..k], depth, width, env, before).0)
        invariant renderCache == DrawRows(t, items[..k], depth, width, env, before).1
      {
        assert items[k] in items;
        RowsNext(t, items, k, depth, width, env, before);
        if items[k].ref.EventRef? {
          eventGroup := eventGroup + [LineOf(span.Fields(), items[k].ref.i)];
        } else {
          ChildRep(h, span.children, t.children, items[k].ref.i);
          var doc := RenderSpan(span.children[items[k].ref.i], depth + 1, Inner(width), env, h,
                                t.children[items[k].ref.i]);
          parts := parts + Flushed(eventGroup) + [SpanPart(doc)];
          eventGroup := [];
        }
      }
      assert items[..|items|] == items;
    }

    lemma RowsNext(t: Tree, items: seq<Item>, k: nat, depth: nat, width: int, env: Env, cache: Cache)
      requires k < |items| && InRange(items, |t.info.events|, |t.children|)
      ensures items[k] in items
      ensures var (rows, between) := DrawRows(t, items[..k], depth, width, env, cache);
              var (after, last) := DrawRows(t, items[..k + 1], depth, width, env, cache);
              var (parts, run) := Grouping(rows);
              if items[k].ref.EventRef? then
                last == between && Grouping(after) == (parts, run + [LineOf(t.info, items[k].ref.i)])
              else
                var (doc, next) := DrawCached(t.children[items[k].ref.i], depth + 1, Inner(width), env, between);
                last == next && Grouping(after) == (parts + Flushed(run) + [SpanPart(doc)], [])
    {
      assert items[..k + 1][..k] == items[..k] && items[k] in items;
      hide DrawCached, Flushed, Open;
    }

    lemma RepChildren(h: Heap, span: SpanState, t: Tree)
      requires StoreModel.Current(h, store.nodes) && Rep(h, span, t)
      ensures RepF(h, span.children, t.children) && |span.children| == |t.children| && span.Fields() == t.info
    {
    }

    lemma ChildRep(h: Heap, ns: seq<SpanState>, ts: seq<Tree>, i: nat)
      requires RepF(h, ns, ts) && i < |ts|
      ensures |ns| == |ts| && Rep(h, ns[i], ts[i])
    {
    }

    method RenderRoots(width: int, env: Env) returns (docs: seq<Doc>)
      requires store.Valid()
      modifies this`renderCache
      ensures (docs, renderCache) == DrawRoots(store.forest, width, env, old(renderCache))
    {
      hide Mirrors, DrawCached, Rep;
      ghost var h, before := Cells(store.byID, store.nodes), renderCache;
      MirrorParts(h, store.roots, store.Abs());
      docs := [];
      for i := 0 to |store.roots|
        invariant (docs, renderCache) == DrawRoots(store.forest[..i], width, env, before)
      {
        assert store.forest[..i + 1][..i] == store.forest[..i];
        var doc := RenderSpan(store.roots[i], 0, width, env, h, store.forest[i]);
        docs := docs + [doc];
      }
      assert store.forest[..|store.forest|] == store.forest;
    }

    method RepaintScreen()
      requires store.Valid()
      modifies this`renderCache, this`screen
      ensures Abs() == Repaint(old(Abs()), true)
    {
      hide DrawRoots;
      if !ready {
        return;
      }
      screen := RenderRoots(PaintWidth(width), Env(spin, now, store.staleOpenAt));
    }

    // ----- Handlers

    method ToggleIsPaused()
      requires store.Valid()
      modifies this`paused, this`renderCache, store, store.nodes
      ensures store.Valid() && store.nodes == old(store.nodes)
      ensures Abs() == TogglePaused(old(Abs()))
    {
      hide ClearOpen, Mirrors;
      if !paused {
        paused := true;
        store.ClearOpenSpans();
        renderCache := map[];
        return;
      }
      paused := false;
    }

    method TakeEvent(r: Record, atBottom: bool)
      requires store.Valid()
      modifies this`stickToBottom, this`repaintPending, store, store.nodes
      ensures store.Valid() && fresh(store.nodes - old(store.nodes))
      ensures Abs() == TakeRecord(old(Abs()), store.allowUnknownParents, r, atBottom)
    {
      hide Mirrors, StoreSpec.LimitRoots, StoreSpec.Apply;
      if atBottom {
        stickToBottom := true;
      }
      store.Apply(Some(r));
      store.LimitRoots(MAX_ROOTS);
      if !repaintPending {
        repaintPending := true;
      }
    }

    method SetConnection(newConn: ConnectionState, at: Time)
      requires store.Valid()
      modifies this`conn, store`staleOpenAt
      ensures store.Valid()
      ensures Abs() == old(Abs()).(conn := ConnAfter(newConn), store := StoreAfter(old(store.Abs()), newConn, at))
    {
      hide Mirrors, MarkStale;
      conn := newConn;
      if newConn.phase.Connected? {
        conn := conn.(err := "");
      } else if newConn.phase.Retrying? || newConn.phase.Disconnected? {
        store.MarkOpenSpansStale(at);
      }
    }

    method Resized(newWidth: int)
      modifies this`ready, this`width, this`renderCache
      ensures Abs() == Resize(old(Abs()), newWidth)
    {
      ready := true;
      if width != newWidth {
        renderCache := map[];
      }
      width := newWidth;
    }

    method ClearAll()
      requires store.Valid()
      modifies this`renderCache, store
      ensures store.Valid() && store.nodes == old(store.nodes)
      ensures Abs() == old(Abs()).(store := EMPTY, cache := map[])
    {
      hide Mirrors;
      store.Clear();
      renderCache := map[];
    }

    /** Everything a message changes but the screen. */
    method Handle(msg: Message)
      requires store.Valid()
      modifies this, store, store.nodes
      ensures store.Valid() && fresh(store.nodes - old(store.nodes))
      ensures Abs() == Change(old(Abs()), store.allowUnknownParents, msg)
    {
      hide Mirrors, StoreAfter, ConnAfter, ClearOpen, StoreSpec.LimitRoots, StoreSpec.Apply;
      match msg
      case WindowSizeMsg(newWidth) => Resized(newWidth);
      case PauseKey => ToggleIsPaused();
      case ClearKey => ClearAll();
      case HelpKey =>
      case OtherKey =>
      case SpinnerTick(frame, time) => spin, now := frame, time;
      case EventMsg(record, atBottom) =>
        if !paused && record.Some? {
          TakeEvent(record.value, atBottom);
        }
      case RepaintMsg => repaintPending, stickToBottom := false, false;
      case StateMsg(newConn, at) => SetConnection(newConn, at);
      case TimerTick(time) => now := time;
    }

    method Update(msg: Message)
      requires store.Valid()
      modifies this, store, store.nodes
      ensures store.Valid() && fresh(store.nodes - old(store.nodes))
      ensures Abs() == TuiSpec.Update(old(Abs()), store.allowUnknownParents, msg, true)
    {
      hide Mirrors, Change, Repaint, HasOpen;
      var paint := true;
      match msg {
        case OtherKey => paint := false;
        case EventMsg(_, _) => paint := false;
        case SpinnerTick(_, _) => paint := store.HasOpenSpans();
        case _ =>
      }
      Handle(msg);
      if paint {
        RepaintScreen();
      }
    }
  }
}
