/** Runs of the web server in which an append is wrong. */
module WebMisses {
  import opened Records
  import opened Forest
  import opened Locate
  import opened Timeline
  import opened StoreSpec
  import opened WebView
  import opened Patching
  import opened WebServerSpec

  // ----- A server with one root

  lemma OneRoot(t: Tree, x: string, e: Edit)
    ensures IdsF([t]) == Ids(t) && EditAtF([t], x, e) == [EditAt(t, x, e)]
    ensures Find([t], t.ID()) == Some(Hit(t, []))
  {
    SplitIds([t]);
    assert IdsF([]) == {};
  }

  /** A record about the root is sent as its patch, right exactly if that is sound. */
  lemma RootStep(sv: ServerState, allow: bool, max: int, r: Record, t: Tree, u: Tree)
    requires sv.store == State([t], map[]) && !sv.paused && max > 0
    requires !r.NoKind? && (r.SpanStarted? ==> r.parentID != "") && Target(r) == t.ID() == u.ID()
    requires ApplyRoots([t], allow, r) == [u]
    ensures Next(sv, allow, max, RecordMessage(Some(r))) == sv.(store := State([u], map[]))
    ensures Faithful(sv, allow, max, RecordMessage(Some(r))) <==> Sound([t], allow, r, Chosen(u, r, 0, map[]))
  {
    OneRoot(u, "", SetAttributes([]));
    var m, after := RecordMessage(Some(r)), sv.(store := State([u], map[]));
    assert RootIDs([t]) == RootIDs([u]);
    hide Chosen, Page, ApplyRoots, Sound, CurrentStatus, Ids, IdsF;
    assert Next(sv, allow, max, m) == after;
    assert Sent(sv, allow, max, m) == [PatchSnapshot(after, Chosen(u, r, 0, map[]))];
    PatchDecides(sv, allow, max, r, PatchSnapshot(after, Chosen(u, r, 0, map[])));
  }

  lemma PatchDecides(sv: ServerState, allow: bool, max: int, r: Record, snap: Snapshot)
    requires Sent(sv, allow, max, RecordMessage(Some(r))) == [snap] && snap.patch.Some?
    ensures Faithful(sv, allow, max, RecordMessage(Some(r))) <==> Sound(sv.store.roots, allow, r, snap.patch.value)
  {
    hide Sent, Sound;
    assert Sent(sv, allow, max, RecordMessage(Some(r)))[0] == snap;
  }

  /** The first root is sent as a full rendering. */
  lemma RootStarts(allow: bool, max: int, r: Record)
    requires max > 0 && r.SpanStarted? && r.spanID != "" && r.parentID == ""
    ensures Next(START, allow, max, RecordMessage(Some(r))) == START.(store := State([StartedTree(r)], map[]))
    ensures Faithful(START, allow, max, RecordMessage(Some(r)))
  {
    assert IdsF([]) == {};
    assert [] + [StartedTree(r)] == [StartedTree(r)];
    var m := RecordMessage(Some(r));
    assert RootIDs([]) != RootIDs([StartedTree(r)]);
    hide Page, CurrentStatus, StartedTree;
    assert Sent(START, allow, max, m) == [FullSnapshot(Next(START, allow, max, m))];
  }

  lemma FaithfulMore(allow: bool, max: int, ms: seq<Message>, m: Message)
    requires AllFaithful(START, allow, max, ms) && Faithful(RunServer(START, allow, max, ms), allow, max, m)
    ensures AllFaithful(START, allow, max, ms + [m])
    ensures RunServer(START, allow, max, ms + [m]) == Next(RunServer(START, allow, max, ms), allow, max, m)
  {
    hide Next, Faithful;
    var more := ms + [m];
    assert more[..|ms|] == ms;
    forall i | 0 <= i < |more|
      ensures Faithful(RunServer(START, allow, max, more[..i]), allow, max, more[i])
    {
      assert i < |ms| ==> more[..i] == ms[..i];
    }
  }

  // ----- The records

  const ROOT := SpanStarted("t", "a", "", "root", Some(1), [])
  const CHILD := SpanStarted("t", "b", "a", "child", Some(2), [])

  function EventAt(at: Time): Record {
    SpanEvent("t", "a", "event", Some(at), [], None)
  }

  function Told(at: Time): EventState {
    EventState("event", at, [], SeverityInfo)
  }

  function RootWith(events: seq<EventState>, children: seq<Tree>): Tree {
    Tree(StartedTree(ROOT).info.(events := events), children)
  }

  lemma OrderSize(t: Tree)
    ensures |Order(t)| == |t.info.events| + |t.children|
  {
    TimelineRefs(EventTimes(t.info), StartTimes(t.children));
  }

  lemma EventApplied(allow: bool, events: seq<EventState>, children: seq<Tree>, at: Time)
    ensures ApplyRoots([RootWith(events, children)], allow, EventAt(at)) == [RootWith(events + [Told(at)], children)]
  {
    OneRoot(RootWith(events, children), "a", EditOf(EventAt(at)));
  }

  lemma ChildApplied(allow: bool)
    ensures ApplyRoots([RootWith([], [])], allow, CHILD) == [RootWith([], [StartedTree(CHILD)])]
  {
    var t := RootWith([], []);
    assert IdsF([]) == {} && Ids(t) == {"a"};
    OneRoot(t, "a", EditOf(CHILD));
    assert [] + [StartedTree(CHILD)] == [StartedTree(CHILD)];
    assert EditAt(t, "a", EditOf(CHILD)) == RootWith([], [StartedTree(CHILD)]);
  }

  lemma ChildIgnored(allow: bool, events: seq<EventState>)
    ensures var t := RootWith(events, [StartedTree(CHILD)]);
            "b" in IdsF([t]) && ApplyRoots([t], allow, CHILD) == [t]
  {
    var t := RootWith(events, [StartedTree(CHILD)]);
    OneRoot(StartedTree(CHILD), "", SetAttributes([]));
    assert "b" in Ids(StartedTree(CHILD));
    OneRoot(t, "", SetAttributes([]));
  }

  // ----- The two ways

  /** A run in which every append was right has led to the one tree. */
  ghost predicate Reached(allow: bool, max: int, ms: seq<Message>, t: Tree) {
    AllFaithful(START, allow, max, ms) && RunServer(START, allow, max, ms) == START.(store := State([t], map[]))
  }

  lemma FirstReached(allow: bool, max: int)
    requires max > 0
    ensures Reached(allow, max, [RecordMessage(Some(ROOT))], RootWith([], []))
  {
    hide Faithful, Next;
    var m := RecordMessage(Some(ROOT));
    assert StartedTree(ROOT) == RootWith([], []);
    RootStarts(allow, max, ROOT);
    FaithfulMore(allow, max, [], m);
    assert [] + [m] == [m];
  }

  lemma NextReached(allow: bool, max: int, ms: seq<Message>, r: Record, t: Tree, u: Tree)
    requires Reached(allow, max, ms, t) && max > 0
    requires !r.NoKind? && (r.SpanStarted? ==> r.parentID != "") && Target(r) == t.ID() == u.ID()
    requires ApplyRoots([t], allow, r) == [u]
    ensures var m := RecordMessage(Some(r));
            Faithful(RunServer(START, allow, max, ms), allow, max, m) <==> Sound([t], allow, r, Chosen(u, r, 0, map[]))
    ensures Sound([t], allow, r, Chosen(u, r, 0, map[])) ==> Reached(allow, max, ms + [RecordMessage(Some(r))], u)
  {
    hide Faithful, Next, Sound, Chosen, ApplyRoots, AllFaithful, RunServer;
    RootStep(RunServer(START, allow, max, ms), allow, max, r, t, u);
    if Sound([t], allow, r, Chosen(u, r, 0, map[])) {
      FaithfulMore(allow, max, ms, RecordMessage(Some(r)));
    }
  }

  /** The first entry is sent as a whole timeline. */
  lemma FirstEntrySound(ts: seq<Tree>, allow: bool, r: Record, u: Tree)
    requires (r.SpanStarted? || r.SpanEvent?) && |u.info.events| + |u.children| <= 1
    ensures Sound(ts, allow, r, Chosen(u, r, 0, map[]))
  {
    OrderSize(u);
    hide Order, Render, RenderTimeline, CanAppend;
  }

  /** An event that is earlier than one its span has already is appended all the same. */
  lemma LateEventMisplaced(allow: bool, max: int)
    requires max > 0
    ensures exists ms: seq<Message>, r: Record :: r.SpanEvent? && AllFaithful(START, allow, max, ms) &&
                            !Faithful(RunServer(START, allow, max, ms), allow, max, RecordMessage(Some(r)))
  {
    hide Faithful, RunServer, AllFaithful, Sound, Chosen, Reached, ApplyRoots, Find;
    var ms := [RecordMessage(Some(ROOT))];
    var t0, t1, t2 := RootWith([], []), RootWith([Told(5)], []), RootWith([Told(5), Told(3)], []);
    FirstReached(allow, max);
    EventApplied(allow, [], [], 5);
    assert [] + [Told(5)] == [Told(5)];
    FirstEntrySound([t0], allow, EventAt(5), t1);
    NextReached(allow, max, ms, EventAt(5), t0, t1);
    EventApplied(allow, [Told(5)], [], 3);
    assert [Told(5)] + [Told(3)] == [Told(5), Told(3)];
    NextReached(allow, max, ms + [RecordMessage(Some(EventAt(5)))], EventAt(3), t1, t2);
    LateUnsound(allow);
    ReachedFaithful(allow, max, ms + [RecordMessage(Some(EventAt(5)))], t1);
  }

  lemma ReachedFaithful(allow: bool, max: int, ms: seq<Message>, t: Tree)
    requires Reached(allow, max, ms, t)
    ensures AllFaithful(START, allow, max, ms) && RunServer(START, allow, max, ms).store.roots == [t]
  {
  }

  lemma LateUnsound(allow: bool)
    ensures !Sound([RootWith([Told(5)], [])], allow, EventAt(3),
                   Chosen(RootWith([Told(5), Told(3)], []), EventAt(3), 0, map[]))
  {
    var t, u := RootWith([Told(5)], []), RootWith([Told(5), Told(3)], []);
    OrderSize(u);
    OneRoot(t, "", SetAttributes([]));
    hide Order, Find;
    assert EventTimes(t.info)[0] == 5 && Sooner(3, 5);
  }

  /** A child whose start is repeated is ignored by the store, and appended again. */
  lemma RepeatedStartDoubled(allow: bool, max: int)
    requires max > 0
    ensures exists ms: seq<Message>, r: Record :: r.SpanStarted? && AllFaithful(START, allow, max, ms) &&
                            !AcceptsStart(RunServer(START, allow, max, ms).store.roots, allow, r) &&
                            !Faithful(RunServer(START, allow, max, ms), allow, max, RecordMessage(Some(r)))
  {
    hide Faithful, RunServer, AllFaithful, Sound, Chosen, Reached, ApplyRoots, Find, StartedTree;
    var ms, b := [RecordMessage(Some(ROOT))], StartedTree(CHILD);
    var t0, t1, t2 := RootWith([], []), RootWith([], [b]), RootWith([Told(5)], [b]);
    RootIs();
    FirstReached(allow, max);
    ChildApplied(allow);
    FirstEntrySound([t0], allow, CHILD, t1);
    NextReached(allow, max, ms, CHILD, t0, t1);
    var ms' := ms + [RecordMessage(Some(CHILD))];
    EventApplied(allow, [], [b], 5);
    assert [] + [Told(5)] == [Told(5)];
    LastSound(allow);
    NextReached(allow, max, ms', EventAt(5), t1, t2);
    var ms'' := ms' + [RecordMessage(Some(EventAt(5)))];
    ChildIgnored(allow, [Told(5)]);
    NextReached(allow, max, ms'', CHILD, t2, t2);
    RepeatUnsound(allow);
    ReachedFaithful(allow, max, ms'', t2);
  }

  lemma RootIs()
    ensures StartedTree(ROOT).info.spanID == "a"
  {
  }

  lemma LastSound(allow: bool)
    ensures var t, u := RootWith([], [StartedTree(CHILD)]), RootWith([Told(5)], [StartedTree(CHILD)]);
            Sound([t], allow, EventAt(5), Chosen(u, EventAt(5), 0, map[]))
  {
    var t := RootWith([], [StartedTree(CHILD)]);
    OneRoot(t, "", SetAttributes([]));
    hide Order, Find, Chosen;
    assert StartTimes(t.children)[0] == 2 && Sooner(2, 5);
    assert CanAppend([t], allow, EventAt(5));
  }

  lemma RepeatUnsound(allow: bool)
    ensures var t := RootWith([Told(5)], [StartedTree(CHILD)]);
            && !AcceptsStart([t], allow, CHILD)
            && !Sound([t], allow, CHILD, Chosen(t, CHILD, 0, map[]))
  {
    var t := RootWith([Told(5)], [StartedTree(CHILD)]);
    OrderSize(t);
    ChildIgnored(allow, [Told(5)]);
    hide Order, Find, Render, RenderTimeline;
    assert t.children[0].ID() == "b";
  }
}
