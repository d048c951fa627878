/** The web server in place: its store, its subscribers' queues and its handlers. */
module WebServer {
  import opened Records
  import opened Connection
  import opened Forest
  import opened Locate
  import opened StoreSpec
  import opened StoreModel
  import opened SpanTimeline
  import opened WebView
  import opened Patching
  import opened WebServerSpec

  const CAPACITY := 8

  const BLANK := Browser([], StatusBar(0, NO_CONNECTION, false))

  /** A subscriber's channel, with what was ever put in and taken out of it. The
      consumer runs on its own and may take snapshots at any moment. */
  class Subscriber {
    var queue: seq<Snapshot>
    var closed: bool
    ghost var sent: seq<Snapshot>
    ghost var received: seq<Snapshot>
    ghost var dropped: bool
    /** All appends sent since the last full rendering were right. */
    ghost var exact: bool

    /** The queue is always the newest part of the history, and short; as long as
        nothing was dropped, nothing is missing either. */
    ghost predicate Valid()
      reads this
    {
      && |queue| <= CAPACITY
      && |queue| <= |sent| && queue == sent[|sent| - |queue|..]
      && (!dropped ==> received + queue == sent)
    }

    constructor ()
      ensures Valid() && queue == [] && sent == [] && received == [] && !dropped && !closed && !exact
    {
      queue, closed := [], false;
      sent, received, dropped, exact := [], [], false, false;
      new;
      assert [] + queue == sent;
    }

    /** The consumer takes any number of snapshots, from the front. */
    method Consume()
      requires Valid()
      modifies this`queue, this`received
      ensures Valid()
      ensures |queue| <= |old(queue)| && queue == old(queue)[|old(queue)| - |queue|..]
      ensures received == old(received) + old(queue)[..|old(queue)| - |queue|]
    {
      var k: nat :| k <= |queue|;
      received, queue := received + queue[..k], queue[k..];
    }

    /** A send that gives up when the channel is full. */
    method TrySend(snap: Snapshot) returns (ok: bool)
      requires Valid() && !closed
      modifies this`queue, this`sent
      ensures ok == (|old(queue)| < CAPACITY)
      ensures ok ==> Valid() && queue == old(queue) + [snap] && sent == old(sent) + [snap]
      ensures !ok ==> queue == old(queue) && sent == old(sent)
    {
      ok := |queue| < CAPACITY;
      if ok {
        queue, sent := queue + [snap], sent + [snap];
      }
    }

    /** A receive that gives up when the channel is empty; what it takes is lost. */
    method TryDrop()
      requires Valid()
      modifies this`queue, this`dropped
      ensures Valid() && queue == if old(queue) == [] then [] else old(queue)[1..]
      ensures dropped == (old(dropped) || old(queue) != [])
    {
      if queue != [] {
        queue, dropped := queue[1..], true;
      }
    }

    /** One subscriber's turn of a broadcast: whatever the consumer does between
        the attempts, the newest snapshot ends up last in the queue, without
        waiting, and something is lost only if the queue was full to begin with. */
    method Offer(snap: Snapshot)
      requires Valid() && !closed
      modifies this`queue, this`sent, this`received, this`dropped
      ensures Valid() && sent == old(sent) + [snap]
      ensures 0 < |queue| <= 8 && queue[|queue| - 1] == snap
      ensures dropped && !old(dropped) ==> |old(queue)| == CAPACITY
    {
      Consume();
      var ok := TrySend(snap);
      if !ok {
        Consume();
        TryDrop();
        Consume();
        ok := TrySend(snap);
        assert ok;
      }
    }
  }

  // ----- Rendering the nodes

  /** The card of a span's node. */
  method RenderSpan(span: SpanState, depth: nat, stale: Marks, ghost h: Heap, ghost nodes: set<SpanState>,
                    ghost t: Tree)
    returns (card: Card)
    requires Current(h, nodes) && Rep(h, span, t)
    ensures card == Render(t, depth, stale)
    decreases t, 1
  {
    var items := RenderSpanTimeline(span, depth, stale, h, nodes, t);
    card := Card(span.spanID, depth, SummaryOf(span.Fields(), stale), span.attributes, items);
  }

  method RenderSpanTimeline(span: SpanState, depth: nat, stale: Marks, ghost h: Heap, ghost nodes: set<SpanState>,
                            ghost t: Tree)
    returns (items: seq<CardItem>)
    requires Current(h, nodes) && Rep(h, span, t)
    ensures items == RenderTimeline(t, depth, stale)
    decreases t, 0
  {
    var order := SpanOrder(span, h, nodes, t);
    items := [];
    for k := 0 to |order|
      invariant items == RenderTimeline(t, depth, stale)[..k]
    {
      assert order[k] in order;
      match order[k].ref
      case EventRef(i) =>
        items := items + [EventItem(EventCardOf(span.Fields(), i))];
      case ChildRef(i) =>
        var card := RenderSpan(span.children[i], depth + 1, stale, h, nodes, t.children[i]);
        items := items + [SpanItem(card)];
    }
  }

  /** The first child with the id. */
  method ChildSpanByID(parent: SpanState, spanID: string, ghost h: Heap, ghost nodes: set<SpanState>, ghost t: Tree)
    returns (child: SpanState?, index: nat)
    requires Current(h, nodes) && Rep(h, parent, t)
    ensures var i := ChildIndex(t.children, spanID);
            if i == |t.children| then child == null
            else child != null && index == i && Rep(h, child, t.children[i])
  {
    assert RepF(h, parent.children, t.children);
    for i := 0 to |parent.children|
      invariant forall j :: 0 <= j < i ==> t.children[j].ID() != spanID
    {
      assert Rep(h, parent.children[i], t.children[i]);
      if parent.children[i].spanID == spanID {
        return parent.children[i], i;
      }
    }
    return null, 0;
  }

  method StartPatchOf(parent: SpanState, spanID: string, depth: nat, stale: Marks, ghost h: Heap,
                      ghost nodes: set<SpanState>, ghost t: Tree)
    returns (p: Patch)
    requires Current(h, nodes) && Rep(h, parent, t)
    ensures p == StartPatch(t, spanID, depth, stale)
  {
    hide Order, RenderTimeline, Render, ChildIndex;
    var order := SpanOrder(parent, h, nodes, t);
    var child, index := ChildSpanByID(parent, spanID, h, nodes, t);
    if |order| <= 1 || child == null {
      var timeline := RenderSpanTimeline(parent, depth, stale, h, nodes, t);
      return TimelinePatch(parent.spanID, timeline);
    }
    var card := RenderSpan(child, depth + 1, stale, h, nodes, t.children[index]);
    return AppendPatch(parent.spanID, SpanItem(card));
  }

  method EventPatchOf(span: SpanState, depth: nat, stale: Marks, ghost h: Heap, ghost nodes: set<SpanState>,
                      ghost t: Tree)
    returns (p: Patch)
    requires Current(h, nodes) && Rep(h, span, t)
    ensures p == EventPatch(t, depth, stale)
  {
    hide Order, RenderTimeline;
    var order := SpanOrder(span, h, nodes, t);
    if |order| <= 1 || |span.events| == 0 {
      var timeline := RenderSpanTimeline(span, depth, stale, h, nodes, t);
      return TimelinePatch(span.spanID, timeline);
    }
    return AppendPatch(span.spanID, EventItem(EventCardOf(span.Fields(), |span.events| - 1)));
  }

  class Server {
    const store: Store
    const maxRoots: int
    var conn: ConnectionState
    var paused: bool
    var subscribers: set<Subscriber>

    ghost function Abs(): ServerState
      reads this, store
    {
      ServerState(store.Abs(), conn, paused)
    }

    /** Besides the invariant on the state: what each subscriber was sent amounts
        to a full rendering of the present state, unless an append went wrong
        after the last full rendering it was sent. */
    ghost predicate Valid()
      reads this, store, store.nodes, subscribers
    {
      && store.Valid()
      && maxRoots > 0
      && WebServerSpec.Valid(Abs(), maxRoots)
      && AllShow(Abs())
    }

    ghost predicate AllShow(sv: ServerState)
      reads this, subscribers
    {
      forall ch :: ch in subscribers ==>
        ch.Valid() && !ch.closed && (ch.exact ==> ShowAll(BLANK, ch.sent) == View(sv))
    }

    constructor (maxRoots: int, allowUnknownParents: bool)
      ensures Valid() && Abs() == START && subscribers == {} && fresh(store) && fresh(store.nodes)
      ensures this.maxRoots == (if maxRoots <= 0 then 50 else maxRoots)
      ensures store.allowUnknownParents == allowUnknownParents
    {
      this.maxRoots := if maxRoots <= 0 then 50 else maxRoots;
      store := new Store(allowUnknownParents);
      conn, paused, subscribers := NO_CONNECTION, false, {};
      new;
      EmptyCloses();
    }

    /** The snapshots. */
    method RenderRoots() returns (page: seq<Card>)
      requires store.Valid()
      ensures page == Page(store.Abs())
    {
      hide Mirrors, Render;
      ghost var h := Cells(store.byID, store.nodes);
      MirrorParts(h, store.roots, store.Abs());
      page := [];
      for i := 0 to |store.roots|
        invariant page == Page(store.Abs())[..i]
      {
        var card := RenderSpan(store.roots[i], 0, store.staleOpenAt, h, store.nodes, store.forest[i]);
        page := page + [card];
      }
    }

    method StatusNow() returns (status: StatusBar)
      requires store.Valid()
      ensures status == CurrentStatus(Abs())
    {
      MirrorKeys(Cells(store.byID, store.nodes), store.roots, store.Abs());
      status := StatusBar(|store.roots|, conn, paused);
    }

    method SnapshotLocked() returns (snap: Snapshot)
      requires store.Valid()
      ensures snap == FullSnapshot(Abs())
    {
      var page := RenderRoots();
      var status := StatusNow();
      snap := Snapshot(Some(page), None, status);
    }

    method RootIDsLocked() returns (ids: seq<string>)
      requires store.Valid()
      ensures ids == RootIDs(store.forest)
    {
      hide Mirrors;
      ghost var h := Cells(store.byID, store.nodes);
      MirrorParts(h, store.roots, store.Abs());
      ids := [];
      for i := 0 to |store.roots|
        invariant ids == RootIDs(store.forest)[..i]
      {
        assert Rep(h, store.roots[i], store.forest[i]);
        ids := ids + [store.roots[i].spanID];
      }
    }

    /** The patch for a record just applied, if there is one. */
    method RecordPatch(r: Record) returns (patch: Option<Patch>)
      requires store.Valid()
      ensures patch == PatchFor(store.forest, store.staleOpenAt, r)
    {
      hide Mirrors, Find, Rep, RepF, StartPatch, EventPatch;
      if r.NoKind? || (r.SpanStarted? && r.parentID == "") {
        return None;
      }
      ghost var h := Cells(store.byID, store.nodes);
      MirrorParts(h, store.roots, store.Abs());
      var span, depth := store.FindSpan(Target(r));
      FindFinds(store.forest, Target(r));
      MirrorKeys(h, store.roots, store.Abs());
      if span == null {
        return None;
      }
      FindRep(h, store.roots, store.forest, Target(r));
      var p := PatchOf(span, r, depth, h, Find(store.forest, Target(r)).value.tree);
      return Some(p);
    }

    method PatchOf(span: SpanState, r: Record, depth: nat, ghost h: Heap, ghost t: Tree) returns (p: Patch)
      requires Current(h, store.nodes) && Rep(h, span, t) && !r.NoKind?
      ensures p == Chosen(t, r, depth, store.staleOpenAt)
    {
      match r
      case SpanStarted(_, _, _, _, _, _) =>
        p := StartPatchOf(span, r.spanID, depth, store.staleOpenAt, h, store.nodes, t);
      case SpanUpdated(_, _, _) =>
        p := AttributesPatch(span.spanID, span.attributes);
      case SpanEvent(_, _, _, _, _, _) =>
        p := EventPatchOf(span, depth, store.staleOpenAt, h, store.nodes, t);
      case SpanEnded(_, _, _, _, _) =>
        p := SummaryPatch(span.spanID, SummaryOf(span.Fields(), store.staleOpenAt));
    }

    // ----- Handlers

    /** Offers a snapshot to every subscriber, in any order. */
    method BroadcastLocked(snap: Snapshot, ghost before: ServerState, ghost m: Message)
      requires store.Valid() && maxRoots > 0 && AllShow(before)
      requires WebServerSpec.Valid(before, maxRoots)
      requires Abs() == Next(before, store.allowUnknownParents, maxRoots, m)
      requires Sent(before, store.allowUnknownParents, maxRoots, m) == [snap]
      modifies subscribers
      ensures Valid()
      ensures forall ch :: ch in subscribers ==> ch.sent == old(ch.sent) + [snap]
      ensures forall ch :: ch in subscribers ==>
        ch.exact == ExactAfter(before, store.allowUnknownParents, maxRoots, m, old(ch.exact))
    {
      hide ShowAll, View, Faithful, Next, Sent, WebServerSpec.Valid, Mirrors;
      ghost var right := Faithful(before, store.allowUnknownParents, maxRoots, m);
      OfferAll(snap, right);
      forall ch | ch in subscribers && ch.exact
        ensures ShowAll(BLANK, ch.sent) == View(Abs())
      {
        Delivered(old(ch.sent), before, store.allowUnknownParents, maxRoots, m, snap);
      }
      NextKeepsValid(before, store.allowUnknownParents, maxRoots, m);
      OneSent(before, store.allowUnknownParents, maxRoots, m, snap);
    }

    /** The loop over the subscribers. */
    method OfferAll(snap: Snapshot, ghost right: bool)
      requires forall ch :: ch in subscribers ==> ch.Valid() && !ch.closed
      modifies subscribers
      ensures forall ch :: ch in subscribers ==>
                ch.Valid() && !ch.closed && ch.sent == old(ch.sent) + [snap]
                && ch.exact == (snap.page.Some? || (old(ch.exact) && right))
    {
      var rest := subscribers;
      while rest != {}
        invariant rest <= subscribers
        invariant forall ch :: ch in rest ==> unchanged(ch)
        invariant forall ch :: ch in subscribers - rest ==>
          ch.Valid() && !ch.closed && ch.sent == old(ch.sent) + [snap]
          && ch.exact == (snap.page.Some? || (old(ch.exact) && right))
        decreases |rest|
      {
        var ch :| ch in rest;
        rest := rest - {ch};
        assert unchanged(ch);
        ch.Offer(snap);
        ch.exact := snap.page.Some? || (ch.exact && right);
      }
    }

    method ApplyRecord(record: Option<Record>)
      requires Valid()
      modifies this, store, store.nodes, subscribers
      ensures Valid() && fresh(store.nodes - old(store.nodes)) && subscribers == old(subscribers)
      ensures Abs() == Next(old(Abs()), store.allowUnknownParents, maxRoots, RecordMessage(record))
      ensures forall ch :: ch in subscribers ==>
        ch.sent == old(ch.sent) + Sent(old(Abs()), store.allowUnknownParents, maxRoots, RecordMessage(record))
      ensures forall ch :: ch in subscribers ==>
        ch.exact == ExactAfter(old(Abs()), store.allowUnknownParents, maxRoots, RecordMessage(record), old(ch.exact))
    {
      hide Mirrors, ShowAll, View, WebServerSpec.Valid, Faithful, Next, Sent, RecordSnapshot, Applied, ExactAfter;
      if record.None? || paused {
        RecordIgnored(Abs(), store.allowUnknownParents, maxRoots, record);
        return;
      }
      ghost var sv := Abs();
      RecordEffects(sv, store.allowUnknownParents, maxRoots, record.value);
      var snap := TakeRecord(record.value);
      BroadcastLocked(snap, sv, RecordMessage(record));
    }

    /** Applies the record, limits the roots and picks what to send. */
    method TakeRecord(r: Record) returns (snap: Snapshot)
      requires store.Valid()
      modifies store, store.nodes
      ensures store.Valid() && fresh(store.nodes - old(store.nodes))
      ensures Abs() == old(Abs()).(store := Applied(old(Abs()).store, store.allowUnknownParents, maxRoots, r))
      ensures snap == RecordSnapshot(old(Abs()).store, Abs(), r)
    {
      hide Mirrors, PatchFor, RootIDs, Apply, StoreSpec.LimitRoots, RecordSnapshot;
      ghost var before := Abs().store;
      var beforeRootIDs := RootIDsLocked();
      store.Apply(Some(r));
      store.LimitRoots(maxRoots);
      var afterRootIDs := RootIDsLocked();
      snap := SnapshotAfter(r, beforeRootIDs, afterRootIDs, before);
    }

    /** A full rendering, or a patch if the roots are the same and there is one. */
    method SnapshotAfter(r: Record, beforeRootIDs: seq<string>, afterRootIDs: seq<string>, ghost before: State)
      returns (snap: Snapshot)
      requires store.Valid()
      requires beforeRootIDs == RootIDs(before.roots) && afterRootIDs == RootIDs(store.forest)
      ensures snap == RecordSnapshot(before, Abs(), r)
    {
      hide RootIDs, PatchFor, Page, Mirrors;
      if beforeRootIDs != afterRootIDs {
        snap := SnapshotLocked();
        return;
      }
      var patch := RecordPatch(r);
      if patch.None? {
        snap := SnapshotLocked();
        return;
      }
      var status := StatusNow();
      snap := Snapshot(None, patch, status);
    }

    method SetConnectionState(conn: ConnectionState, now: Time)
      requires Valid()
      modifies this, store, store.nodes, subscribers
      ensures Valid() && store.nodes == old(store.nodes) && subscribers == old(subscribers)
      ensures Abs() == Next(old(Abs()), store.allowUnknownParents, maxRoots, ConnectionMessage(conn, now))
      ensures forall ch :: ch in subscribers ==>
        ch.sent == old(ch.sent) + Sent(old(Abs()), store.allowUnknownParents, maxRoots, ConnectionMessage(conn, now))
      ensures forall ch :: ch in subscribers ==>
        ch.exact == ExactAfter(old(Abs()), store.allowUnknownParents, maxRoots, ConnectionMessage(conn, now),
                               old(ch.exact))
      ensures forall ch :: ch in subscribers && old(ch.exact) ==> ch.exact
    {
      hide Mirrors, Page, ShowAll, View, WebServerSpec.Valid, Next, Sent;
      ghost var sv := Abs();
      var snap := ConnectionSnapshot(conn, now);
      AlwaysFaithful(sv, store.allowUnknownParents, maxRoots, ConnectionMessage(conn, now));
      BroadcastLocked(snap, sv, ConnectionMessage(conn, now));
    }

    method ConnectionSnapshot(conn: ConnectionState, now: Time) returns (snap: Snapshot)
      requires store.Valid()
      modifies this`conn, store`staleOpenAt
      ensures store.Valid()
      ensures Abs() == Next(old(Abs()), store.allowUnknownParents, maxRoots, ConnectionMessage(conn, now))
      ensures [snap] == Sent(old(Abs()), store.allowUnknownParents, maxRoots, ConnectionMessage(conn, now))
    {
      hide Mirrors, FullSnapshot, StatusSnapshot, MarkStale, Next, Sent;
      ConnectionEffects(Abs(), store.allowUnknownParents, maxRoots, conn, now);
      SetConn(conn);
      match conn.phase
      case Retrying => snap := MarkAndSnapshot(now);
      case Disconnected => snap := MarkAndSnapshot(now);
      case _ => snap := StatusOnly();
    }

    /** A successful connection clears the last error. */
    method SetConn(conn: ConnectionState)
      modifies this`conn
      ensures Abs() == old(Abs()).(conn := if conn.phase.Connected? then conn.(err := "") else conn)
    {
      this.conn := conn;
      if conn.phase.Connected? {
        this.conn := this.conn.(err := "");
      }
    }

    method MarkAndSnapshot(now: Time) returns (snap: Snapshot)
      requires store.Valid()
      modifies store`staleOpenAt
      ensures store.Valid() && Abs() == old(Abs()).(store := MarkStale(old(Abs()).store, now))
      ensures snap == FullSnapshot(Abs())
    {
      hide Mirrors, FullSnapshot, MarkStale;
      store.MarkOpenSpansStale(now);
      snap := SnapshotLocked();
    }

    method StatusOnly() returns (snap: Snapshot)
      requires store.Valid()
      ensures snap == StatusSnapshot(Abs())
    {
      var status := StatusNow();
      snap := Snapshot(None, None, status);
    }

    method TogglePaused() returns (snap: Snapshot)
      requires Valid()
      modifies this, store, store.nodes, subscribers
      ensures Valid() && store.nodes == old(store.nodes) && subscribers == old(subscribers)
      ensures Abs() == Next(old(Abs()), store.allowUnknownParents, maxRoots, PauseMessage)
      ensures snap == FullSnapshot(Abs())
      ensures forall ch :: ch in subscribers ==> ch.sent == old(ch.sent) + [snap] && ch.exact
    {
      hide Mirrors, ShowAll, View, WebServerSpec.Valid, ClearOpen, Faithful, FullSnapshot, Sent, ExactAfter, Next;
      ghost var sv := Abs();
      if !paused {
        paused := true;
        store.ClearOpenSpans();
      } else {
        paused := false;
      }
      snap := SnapshotLocked();
      PauseEffects(sv, store.allowUnknownParents, maxRoots);
      FullAfter(sv, store.allowUnknownParents, maxRoots, PauseMessage);
      BroadcastLocked(snap, sv, PauseMessage);
    }

    method Clear() returns (snap: Snapshot)
      requires Valid()
      modifies this, store, store.nodes, subscribers
      ensures Valid() && store.nodes == old(store.nodes) && subscribers == old(subscribers)
      ensures Abs() == Next(old(Abs()), store.allowUnknownParents, maxRoots, ClearMessage)
      ensures snap == FullSnapshot(Abs())
      ensures forall ch :: ch in subscribers ==> ch.sent == old(ch.sent) + [snap] && ch.exact
    {
      hide Mirrors, ShowAll, View, WebServerSpec.Valid, ClearOpen, Faithful, FullSnapshot, Sent, ExactAfter, Next;
      ghost var sv := Abs();
      store.Clear();
      snap := SnapshotLocked();
      FullAfter(sv, store.allowUnknownParents, maxRoots, ClearMessage);
      ClearEffects(sv, store.allowUnknownParents, maxRoots);
      BroadcastLocked(snap, sv, ClearMessage);
    }

    static method NewSubscriber(first: Snapshot) returns (ch: Subscriber)
      ensures fresh(ch) && ch.Valid() && !ch.closed && ch.sent == [first] && ch.exact
    {
      ch := new Subscriber();
      var ok := ch.TrySend(first);
      ch.exact := true;
    }

    /** A new subscriber starts from a full rendering. */
    method Subscribe() returns (ch: Subscriber)
      requires Valid()
      modifies this
      ensures Valid() && fresh(ch) && subscribers == old(subscribers) + {ch}
      ensures Abs() == old(Abs()) && ch.sent == [FullSnapshot(Abs())] && ch.exact
    {
      hide Mirrors, Page, ShowAll, View, WebServerSpec.Valid, FullSnapshot;
      var snap := SnapshotLocked();
      ch := NewSubscriber(snap);
      Subscribed(Abs(), BLANK);
      subscribers := subscribers + {ch};
    }

    /** What is buffered stays to be received; a second call changes nothing. */
    method Unsubscribe(ch: Subscriber)
      requires Valid()
      modifies this`subscribers, ch`closed
      ensures Valid() && Abs() == old(Abs()) && subscribers == old(subscribers) - {ch}
      ensures ch.closed == (old(ch.closed) || ch in old(subscribers))
    {
      if ch in subscribers {
        subscribers := subscribers - {ch};
        ch.closed := true;
      }
    }

    /** One message, whoever it comes from. */
    method Handle(m: Message)
      requires Valid()
      modifies this, store, store.nodes, subscribers
      ensures Valid() && fresh(store.nodes - old(store.nodes)) && subscribers == old(subscribers)
      ensures Abs() == Next(old(Abs()), store.allowUnknownParents, maxRoots, m)
      ensures forall ch :: ch in subscribers ==>
        && ch.sent == old(ch.sent) + Sent(old(Abs()), store.allowUnknownParents, maxRoots, m)
        && ch.exact == ExactAfter(old(Abs()), store.allowUnknownParents, maxRoots, m, old(ch.exact))
    {
      hide Mirrors, WebServerSpec.Valid, AllShow, Next, Sent, ExactAfter, FullSnapshot;
      if m.PauseMessage? || m.ClearMessage? {
        FullAfter(Abs(), store.allowUnknownParents, maxRoots, m);
      }
      match m
      case RecordMessage(record) => ApplyRecord(record);
      case ConnectionMessage(state, now) => SetConnectionState(state, now);
      case PauseMessage => var snap := TogglePaused();
      case ClearMessage => var snap := Clear();
    }

    /** The server's loop over what it receives, pauses and clears in between. Each
        subscriber is sent the history of the run; and if every append since its last
        full rendering was right and its queue never overflowed, what it has and is
        about to get shows the state the run ends in. */
    method Serve(ms: seq<Message>)
      requires Valid()
      modifies this, store, store.nodes, subscribers
      ensures Valid() && fresh(store.nodes - old(store.nodes)) && subscribers == old(subscribers)
      ensures Abs() == RunServer(old(Abs()), store.allowUnknownParents, maxRoots, ms)
      ensures forall ch :: ch in subscribers ==>
        && ch.sent == old(ch.sent) + History(old(Abs()), store.allowUnknownParents, maxRoots, ms)
        && ch.exact == ExactRun(old(Abs()), store.allowUnknownParents, maxRoots, ms, old(ch.exact))
      ensures forall ch :: ch in subscribers && !ch.dropped &&
                           ExactRun(old(Abs()), store.allowUnknownParents, maxRoots, ms, old(ch.exact)) ==>
        ShowAll(BLANK, ch.received + ch.queue) == View(RunServer(old(Abs()), store.allowUnknownParents, maxRoots, ms))
    {
      hide Mirrors, WebServerSpec.Valid, AllShow, Next, Sent, ExactAfter, RunServer, History, ExactRun;
      ghost var sv := Abs();
      assert ms[..0] == [];
      RunNext(sv, store.allowUnknownParents, maxRoots, []);
      for i := 0 to |ms|
        invariant Valid() && fresh(store.nodes - old(store.nodes)) && subscribers == old(subscribers)
        invariant Abs() == RunServer(sv, store.allowUnknownParents, maxRoots, ms[..i])
        invariant forall ch :: ch in subscribers ==>
          && ch.sent == old(ch.sent) + History(sv, store.allowUnknownParents, maxRoots, ms[..i])
          && ch.exact == ExactRun(sv, store.allowUnknownParents, maxRoots, ms[..i], old(ch.exact))
      {
        assert ms[..i + 1] == ms[..i] + [ms[i]];
        RunNext(sv, store.allowUnknownParents, maxRoots, ms[..i + 1]);
        Handle(ms[i]);
      }
      assert ms[..|ms|] == ms;
      Shown();
    }

    lemma Shown()
      requires Valid()
      ensures forall ch :: ch in subscribers && !ch.dropped && ch.exact ==>
                ShowAll(BLANK, ch.received + ch.queue) == View(Abs())
    {
      hide ShowAll, View;
    }

    /** What a subscriber's browser shows once it has drained a queue that never
        dropped anything: the present state. */
    lemma Drained(ch: Subscriber)
      requires Valid() && ch in subscribers
      ensures ch.exact && !ch.dropped && ch.queue == [] ==> ShowAll(BLANK, ch.received) == View(Abs())
    {
      assert ch.received + [] == ch.received;
    }
  }

  lemma OneSent(sv: ServerState, allow: bool, max: int, m: Message, snap: Snapshot)
    requires Sent(sv, allow, max, m) == [snap]
    ensures forall exact ::
              ExactAfter(sv, allow, max, m, exact) == (snap.page.Some? || (exact && Faithful(sv, allow, max, m)))
  {
    hide Sent, Faithful;
  }

  lemma RecordIgnored(sv: ServerState, allow: bool, max: int, record: Option<Record>)
    requires record.None? || sv.paused
    ensures var m := RecordMessage(record);
            && Next(sv, allow, max, m) == sv && Sent(sv, allow, max, m) == []
            && forall exact :: ExactAfter(sv, allow, max, m, exact) == exact
  {
  }

  lemma FullAfter(sv: ServerState, allow: bool, max: int, m: Message)
    requires m.PauseMessage? || m.ClearMessage?
    ensures Sent(sv, allow, max, m) == [FullSnapshot(Next(sv, allow, max, m))]
    ensures forall exact :: ExactAfter(sv, allow, max, m, exact)
  {
    hide Next;
  }

  lemma PauseEffects(sv: ServerState, allow: bool, max: int)
    ensures Next(sv, allow, max, PauseMessage) ==
            if sv.paused then sv.(paused := false) else sv.(paused := true, store := ClearOpen(sv.store))
  {
  }

  lemma ClearEffects(sv: ServerState, allow: bool, max: int)
    ensures Next(sv, allow, max, ClearMessage) == sv.(store := EMPTY)
  {
  }

  lemma RunNext(sv: ServerState, allow: bool, max: int, ms: seq<Message>)
    ensures ms == [] ==> RunServer(sv, allow, max, ms) == sv && History(sv, allow, max, ms) == []
    ensures ms == [] ==> forall exact :: ExactRun(sv, allow, max, ms, exact) == exact
    ensures ms != [] ==>
              var front, m := ms[..|ms| - 1], ms[|ms| - 1];
              var now := RunServer(sv, allow, max, front);
              && RunServer(sv, allow, max, ms) == Next(now, allow, max, m)
              && History(sv, allow, max, ms) == History(sv, allow, max, front) + Sent(now, allow, max, m)
              && forall exact :: ExactRun(sv, allow, max, ms, exact) ==
                                 ExactAfter(now, allow, max, m, ExactRun(sv, allow, max, front, exact))
  {
    hide Next, Sent, ExactAfter;
  }

  lemma AlwaysFaithful(sv: ServerState, allow: bool, max: int, m: Message)
    requires !m.RecordMessage?
    ensures Faithful(sv, allow, max, m)
  {
    hide Sent;
  }

  /** One more snapshot keeps a browser up to date if it is a full rendering, or
      if the browser was up to date and the patch is right. */
  lemma Delivered(sent: seq<Snapshot>, sv: ServerState, allow: bool, max: int, m: Message, snap: Snapshot)
    requires WebServerSpec.Valid(sv, max) && max > 0 && Sent(sv, allow, max, m) == [snap]
    ensures snap.page.Some? ==> ShowAll(BLANK, sent + [snap]) == View(Next(sv, allow, max, m))
    ensures Faithful(sv, allow, max, m) && ShowAll(BLANK, sent) == View(sv) ==>
              ShowAll(BLANK, sent + [snap]) == View(Next(sv, allow, max, m))
  {
    ShowAppend(BLANK, sent, [snap]);
    SentRefines(sv, allow, max, m);
    if snap.page.Some? {
      assert snap == FullSnapshot(Next(sv, allow, max, m)) by {
        hide Page, PatchFor, RootIDs;
      }
      Subscribed(Next(sv, allow, max, m), ShowAll(BLANK, sent));
    }
  }
}
