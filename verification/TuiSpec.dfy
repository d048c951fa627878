/** The terminal viewer as a state machine over its store, its render cache and
    what is on the screen. */
module TuiSpec {
  import opened Records
  import opened Connection
  import opened Forest
  import opened Locate
  import opened Pruning
  import opened StoreSpec
  import opened TuiRender

  const MAX_ROOTS := 25

  datatype TuiState = TuiState(store: State, cache: Cache, conn: ConnectionState, paused: bool, ready: bool,
                               width: int, repaintPending: bool, stickToBottom: bool,
                               spin: string, now: Time, screen: seq<Doc>)

  datatype Message =
    | WindowSizeMsg(newWidth: int)
    | PauseKey
    | ClearKey
    | HelpKey
    | OtherKey
    | SpinnerTick(frame: string, time: Time)
    | EventMsg(record: Option<Record>, atBottom: bool)
    | RepaintMsg
    | StateMsg(newConn: ConnectionState, at: Time)
    | TimerTick(time: Time)

  const START := TuiState(EMPTY, map[], NO_CONNECTION, false, false, 0, false, false, "", EPOCH, [])

  // ----- Handling a message

  function EnvOf(m: TuiState): Env {
    Env(m.spin, m.now, m.store.stale)
  }

  function PaintWidth(width: int): int {
    if width - 2 < 40 then 40 else width - 2
  }

  /** Redraws the screen: through the cache, as the viewer does, or without it. */
  function Repaint(m: TuiState, cached: bool): TuiState {
    if !m.ready then m
    else if !cached then m.(screen := DrawAll(m.store.roots, 0, PaintWidth(m.width), EnvOf(m)))
    else
      var (docs, cache) := DrawRoots(m.store.roots, PaintWidth(m.width), EnvOf(m), m.cache);
      m.(screen := docs, cache := cache)
  }

  function TogglePaused(m: TuiState): TuiState {
    if m.paused then m.(paused := false)
    else m.(paused := true, store := ClearOpen(m.store), cache := map[])
  }

  function Resize(m: TuiState, width: int): TuiState {
    m.(ready := true, width := width, cache := if m.width != width then map[] else m.cache)
  }

  function TakeRecord(m: TuiState, allow: bool, r: Record, atBottom: bool): TuiState {
    m.(store := LimitRoots(Apply(m.store, allow, Some(r)), MAX_ROOTS),
       stickToBottom := m.stickToBottom || atBottom,
       repaintPending := true)
  }

  /** A successful connection clears the last error. */
  function ConnAfter(conn: ConnectionState): ConnectionState {
    if conn.phase.Connected? then conn.(err := "") else conn
  }

  function StoreAfter(s: State, conn: ConnectionState, at: Time): State {
    if conn.phase.Retrying? || conn.phase.Disconnected? then MarkStale(s, at) else s
  }

  /** What a message changes, apart from the screen. */
  function Change(m: TuiState, allow: bool, msg: Message): TuiState {
    match msg
    case WindowSizeMsg(width) => Resize(m, width)
    case PauseKey => TogglePaused(m)
    case ClearKey => m.(store := EMPTY, cache := map[])
    case HelpKey => m
    case OtherKey => m
    case SpinnerTick(frame, time) => m.(spin := frame, now := time)
    case EventMsg(record, atBottom) =>
      if m.paused || record.None? then m else TakeRecord(m, allow, record.value, atBottom)
    case RepaintMsg => m.(repaintPending := false, stickToBottom := false)
    case StateMsg(conn, at) => m.(conn := ConnAfter(conn), store := StoreAfter(m.store, conn, at))
    case TimerTick(time) => m.(now := time)
  }

  /** Records are only drawn by the repaint they schedule, and the spinner only
      draws while something is running. */
  predicate Paints(m: TuiState, msg: Message) {
    match msg
    case OtherKey => false
    case EventMsg(_, _) => false
    case SpinnerTick(_, _) => HasOpen(m.store.roots)
    case _ => true
  }

  function Update(m: TuiState, allow: bool, msg: Message, cached: bool): TuiState {
    if Paints(m, msg) then Repaint(Change(m, allow, msg), cached) else Change(m, allow, msg)
  }

  function Run(allow: bool, msgs: seq<Message>, cached: bool): TuiState {
    if msgs == [] then START else Update(Run(allow, msgs[..|msgs| - 1], cached), allow, msgs[|msgs| - 1], cached)
  }

  // ----- Disciplined runs

  /** The id of the span a message makes the store track, if any. */
  function Started(m: TuiState, allow: bool, msg: Message): set<string> {
    if msg.EventMsg? && msg.record.Some? && !m.paused && msg.record.value.SpanStarted?
       && AcceptsStart(m.store.roots, allow, msg.record.value)
    then {msg.record.value.spanID} else {}
  }

  function StartedIds(allow: bool, msgs: seq<Message>): set<string> {
    if msgs == [] then {}
    else StartedIds(allow, msgs[..|msgs| - 1]) + Started(Run(allow, msgs[..|msgs| - 1], true), allow, msgs[|msgs| - 1])
  }

  /** No start is accepted under a span that has ended, nor for an id tracked
      before; and no span ends at the zero time. */
  predicate Disciplined(m: TuiState, allow: bool, seen: set<string>, msg: Message) {
    msg.EventMsg? && msg.record.Some? && !m.paused ==>
      match msg.record.value
      case SpanStarted(_, id, parentID, _, _, _) =>
        AcceptsStart(m.store.roots, allow, msg.record.value) ==>
          id !in seen && (Find(m.store.roots, parentID).Some? ==> !Find(m.store.roots, parentID).value.tree.info.ended)
      case SpanEnded(_, _, at, _, _) => TimeValue(at) != ZERO_TIME
      case _ => true
  }

  predicate AllDisciplined(allow: bool, msgs: seq<Message>) {
    forall i :: 0 <= i < |msgs| ==>
      Disciplined(Run(allow, msgs[..i], true), allow, StartedIds(allow, msgs[..i]), msgs[i])
  }

  ghost predicate CacheWithin(cache: Cache, ids: set<string>) {
    forall key :: key in cache ==> key.spanID in ids
  }

  /** What every disciplined run keeps. */
  ghost predicate Healthy(m: TuiState, seen: set<string>) {
    && StoreSpec.Valid(m.store)
    && SettledF(m.store.roots)
    && Coherent(m.cache, m.store.roots)
    && IdsF(m.store.roots) <= seen
    && CacheWithin(m.cache, seen)
  }

  // ----- What the store's operations do to a coherent cache

  /** In a closed tree every span has ended, so only adding a child changes it. */
  lemma {:induction false} EditClosed(u: Tree, x: string, e: Edit)
    requires !Open(u) && !e.AddChild?
    ensures EditAt(u, x, e) == u
  {
    forall i | 0 <= i < |u.children|
      ensures EditAt(u.children[i], x, e) == u.children[i]
    {
      EditClosed(u.children[i], x, e);
    }
    assert EditAtF(u.children, x, e) == u.children;
  }

  lemma {:induction false} ClosedEnded(u: Tree, x: string)
    requires !Open(u) && x in Ids(u)
    ensures LocateT(u, x).Some? && LocateT(u, x).value.tree.info.ended
    decreases u, 0
  {
    if u.ID() != x {
      ClosedEndedF(u.children, x);
    }
  }

  lemma {:induction false} ClosedEndedF(ts: seq<Tree>, x: string)
    requires !HasOpen(ts) && x in IdsF(ts)
    ensures Find(ts, x).Some? && Find(ts, x).value.tree.info.ended
    decreases ts, 1
  {
    SplitIds(ts);
    HasOpenSplit(ts);
    LocateFinds(ts[0], x);
    if x in Ids(ts[0]) {
      ClosedEnded(ts[0], x);
    } else {
      ClosedEndedF(ts[1..], x);
    }
  }

  /** Searching below a found span finds what searching from the roots does. */
  lemma {:induction false} FindBelowT(t: Tree, y: string, x: string)
    requires WellFormed(t) && LocateT(t, y).Some? && x in Ids(LocateT(t, y).value.tree)
    ensures LocateT(t, x).Some? && LocateT(LocateT(t, y).value.tree, x).Some?
    ensures LocateT(t, x).value.tree == LocateT(LocateT(t, y).value.tree, x).value.tree
    decreases t, 0
  {
    LocateFinds(t, y);
    LocateFinds(t, x);
    LocateFinds(LocateT(t, y).value.tree, x);
    if t.ID() != y {
      FindFinds(t.children, y);
      FindBelow(t.children, y, x);
    }
  }

  lemma {:induction false} FindBelow(ts: seq<Tree>, y: string, x: string)
    requires WellFormedF(ts) && Find(ts, y).Some? && x in Ids(Find(ts, y).value.tree)
    ensures Find(ts, x).Some? && LocateT(Find(ts, y).value.tree, x).Some?
    ensures Find(ts, x).value.tree == LocateT(Find(ts, y).value.tree, x).value.tree
    decreases ts, 1
  {
    SplitWellFormed(ts);
    LocateFinds(ts[0], y);
    LocateFinds(ts[0], x);
    FindFinds(ts[1..], y);
    if LocateT(ts[0], y).Some? {
      FindBelowT(ts[0], y, x);
    } else {
      FindBelow(ts[1..], y, x);
    }
  }

  /** A closed tree stays as it is under any edit but a start below an ended span. */
  lemma {:induction false} ClosedStays(ts: seq<Tree>, y: string, x: string, e: Edit)
    requires WellFormedF(ts) && y in IdsF(ts) && EditedIds(e) !! IdsF(ts)
    requires Find(ts, y).Some? && !Open(Find(ts, y).value.tree)
    requires e.AddChild? && Find(ts, x).Some? ==> !Find(ts, x).value.tree.info.ended
    ensures Find(EditAtF(ts, x, e), y).Some?
    ensures Find(EditAtF(ts, x, e), y).value.tree == Find(ts, y).value.tree
  {
    var u := Find(ts, y).value.tree;
    FindAfterEdit(ts, x, e, y);
    if e.AddChild? {
      if x in Ids(u) {
        FindBelow(ts, y, x);
        ClosedEnded(u, x);
      } else {
        EditElsewhere(u, x, e);
      }
    } else {
      EditClosed(u, x, e);
    }
  }

  lemma {:induction false} SettledEdit(t: Tree, x: string, e: Edit)
    requires Settled(t) && (e.Finish? ==> e.endedAt != ZERO_TIME) && (e.AddChild? ==> Settled(e.child))
    ensures Settled(EditAt(t, x, e))
  {
    forall i | 0 <= i < |t.children| {
      SettledEdit(t.children[i], x, e);
    }
  }

  lemma {:induction false} SettledPrune(ts: seq<Tree>)
    requires SettledF(ts)
    ensures SettledF(PruneF(ts))
  {
    if ts != [] {
      SettledPrune(ts[1..]);
      assert Settled(ts[0]);
      SettledPrune(ts[0].children);
    }
  }

  lemma {:induction false} SettledApply(ts: seq<Tree>, allow: bool, r: Record)
    requires SettledF(ts) && (r.SpanEnded? ==> TimeValue(r.endedAt) != ZERO_TIME)
    ensures SettledF(ApplyRoots(ts, allow, r))
  {
    if r.SpanStarted? {
      assert Settled(StartedTree(r));
    }
    if !r.NoKind? {
      forall i | 0 <= i < |ts|
        ensures Settled(EditAt(ts[i], Target(r), EditOf(r)))
      {
        SettledEdit(ts[i], Target(r), EditOf(r));
      }
    }
  }

  /** A record, as disciplined runs deliver it, spoils no cached document. */
  lemma {:induction false} CoherentApply(ts: seq<Tree>, allow: bool, r: Record, cache: Cache)
    requires WellFormedF(ts) && Coherent(cache, ts)
    requires r.SpanStarted? && AcceptsStart(ts, allow, r) ==>
               && (forall key :: key in cache ==> key.spanID != r.spanID)
               && (Find(ts, r.parentID).Some? ==> !Find(ts, r.parentID).value.tree.info.ended)
    ensures Coherent(cache, ApplyRoots(ts, allow, r))
  {
    var us := ApplyRoots(ts, allow, r);
    ApplyIds(ts, allow, r);
    hide Draw, Open, ApplyRoots, IdsF, Find, WellFormedF;
    forall key | key in cache && key.spanID in IdsF(us)
      ensures Find(us, key.spanID).Some? && Current(cache, key, Find(us, key.spanID).value.tree)
    {
      ClosedStaysApply(ts, allow, r, key.spanID);
    }
  }

  lemma {:induction false} ClosedStaysApply(ts: seq<Tree>, allow: bool, r: Record, y: string)
    requires WellFormedF(ts) && y in IdsF(ts) && Find(ts, y).Some? && !Open(Find(ts, y).value.tree)
    requires r.SpanStarted? && AcceptsStart(ts, allow, r) ==>
               (Find(ts, r.parentID).Some? ==> !Find(ts, r.parentID).value.tree.info.ended)
    ensures Find(ApplyRoots(ts, allow, r), y).Some?
    ensures Find(ApplyRoots(ts, allow, r), y).value.tree == Find(ts, y).value.tree
  {
    hide Open, WellFormedF, IdsF;
    if ApplyRoots(ts, allow, r) != ts {
      NewEdit(ts, r);
      if r.SpanStarted? && r.parentID !in IdsF(ts) {
        FindPrefix(ts, [StartedTree(r)], y);
      } else {
        ClosedStays(ts, y, Target(r), EditOf(r));
      }
    }
  }

  lemma {:induction false} CoherentSuffix(ts: seq<Tree>, k: nat, cache: Cache)
    requires k <= |ts| && WellFormedF(ts) && Coherent(cache, ts)
    ensures Coherent(cache, ts[k..])
  {
    SuffixWellFormed(ts, k);
    hide Draw, Open;
    forall key | key in cache && key.spanID in IdsF(ts[k..])
      ensures Find(ts[k..], key.spanID) == Find(ts, key.spanID)
    {
      SuffixFind(ts, k, key.spanID);
    }
  }

  // ----- The cached viewer shows what the plain one does

  /** Everything but the cache. */
  function Shown(m: TuiState): TuiState {
    m.(cache := map[])
  }

  lemma {:induction false} RepaintAgrees(m: TuiState, plain: TuiState, seen: set<string>)
    requires Healthy(m, seen) && Shown(m) == Shown(plain)
    ensures Healthy(Repaint(m, true), seen) && Shown(Repaint(m, true)) == Shown(Repaint(plain, false))
  {
    hide DrawRoots, DrawAll, Draw, IdsF, SettledF, WellFormedF, Coherent;
    if m.ready {
      RootsAgree(m.store.roots, |m.store.roots|, PaintWidth(m.width), EnvOf(m), m.cache);
      assert m.store.roots[..|m.store.roots|] == m.store.roots;
    }
  }

  lemma {:induction false} EmptyCoherent(ts: seq<Tree>, seen: set<string>)
    ensures Coherent(map[], ts) && CacheWithin(map[], seen)
  {
  }

  /** What healthy means for the store alone. */
  ghost predicate HealthyStore(s: State, seen: set<string>) {
    StoreSpec.Valid(s) && SettledF(s.roots) && IdsF(s.roots) <= seen
  }

  lemma {:induction false} PrunedHealthy(s: State, seen: set<string>)
    requires HealthyStore(s, seen)
    ensures HealthyStore(ClearOpen(s), seen)
  {
    StepKeepsValid(s, true, ClearOpenOp);
    SettledPrune(s.roots);
    PruneIds(s.roots);
    hide IdsF, SettledF, StoreSpec.Valid, PruneF;
  }

  lemma {:induction false} MarkedHealthy(s: State, conn: ConnectionState, at: Time, seen: set<string>)
    requires HealthyStore(s, seen)
    ensures HealthyStore(StoreAfter(s, conn, at), seen) && StoreAfter(s, conn, at).roots == s.roots
  {
    StepKeepsValid(s, true, MarkOp(at));
    hide IdsF, SettledF, StoreSpec.Valid;
  }

  lemma {:induction false} LimitHealthy(s: State, cache: Cache, max: int)
    requires StoreSpec.Valid(s) && SettledF(s.roots) && Coherent(cache, s.roots) && max > 0
    ensures var t := LimitRoots(s, max);
            StoreSpec.Valid(t) && SettledF(t.roots) && Coherent(cache, t.roots) && IdsF(t.roots) <= IdsF(s.roots)
  {
    hide Coherent, IdsF, StoreSpec.Valid, SettledF, WellFormedF, LimitRoots;
    StepKeepsValid(s, true, LimitOp(max));
    LimitIsSuffix(s, max);
    ValidWellFormed(s);
    var k := if |s.roots| <= max then 0 else |s.roots| - max;
    SuffixWellFormed(s.roots, k);
    CoherentSuffix(s.roots, k, cache);
    SettledSuffix(s.roots, k);
  }

  lemma LimitIsSuffix(s: State, max: int)
    requires max > 0
    ensures LimitRoots(s, max).roots == s.roots[if |s.roots| <= max then 0 else |s.roots| - max..]
  {
  }

  lemma {:induction false} SettledSuffix(ts: seq<Tree>, k: nat)
    requires k <= |ts| && SettledF(ts)
    ensures SettledF(ts[k..])
  {
    hide Settled;
  }

  lemma {:induction false} TakenHealthy(s: State, cache: Cache, allow: bool, seen: set<string>, r: Record)
    requires HealthyStore(s, seen) && Coherent(cache, s.roots)
    requires r.SpanEnded? ==> TimeValue(r.endedAt) != ZERO_TIME
    requires r.SpanStarted? && AcceptsStart(s.roots, allow, r) ==>
               && (forall key :: key in cache ==> key.spanID != r.spanID)
               && (Find(s.roots, r.parentID).Some? ==> !Find(s.roots, r.parentID).value.tree.info.ended)
    ensures var t := LimitRoots(Apply(s, allow, Some(r)), MAX_ROOTS);
            Coherent(cache, t.roots) &&
            HealthyStore(t, seen + if r.SpanStarted? && AcceptsStart(s.roots, allow, r) then {r.spanID} else {})
  {
    ValidWellFormed(s);
    hide Coherent, IdsF, SettledF, StoreSpec.Valid, AcceptsStart, ApplyRoots, LimitRoots;
    StepKeepsValid(s, allow, ApplyOp(Some(r)));
    ApplyIds(s.roots, allow, r);
    SettledApply(s.roots, allow, r);
    CoherentApply(s.roots, allow, r, cache);
    LimitHealthy(Apply(s, allow, Some(r)), cache, MAX_ROOTS);
  }

  lemma ValidWellFormed(s: State)
    requires StoreSpec.Valid(s)
    ensures WellFormedF(s.roots)
  {
  }

  lemma {:induction false} TakeRecordHealthy(m: TuiState, allow: bool, seen: set<string>, msg: Message)
    requires Healthy(m, seen) && Disciplined(m, allow, seen, msg)
    requires msg.EventMsg? && msg.record.Some? && !m.paused
    ensures Healthy(TakeRecord(m, allow, msg.record.value, msg.atBottom), seen + Started(m, allow, msg))
  {
    hide Coherent, IdsF, SettledF, StoreSpec.Valid, LimitRoots, Apply, AcceptsStart, Find;
    assert HealthyStore(m.store, seen);
    TakenHealthy(m.store, m.cache, allow, seen, msg.record.value);
  }

  lemma NothingStarted(m: TuiState, allow: bool, msg: Message)
    requires !msg.EventMsg? || msg.record.None? || m.paused
    ensures Started(m, allow, msg) == {}
  {
  }

  lemma {:induction false} ChangeHealthy(m: TuiState, allow: bool, seen: set<string>, msg: Message)
    requires Healthy(m, seen) && Disciplined(m, allow, seen, msg)
    ensures Healthy(Change(m, allow, msg), seen + Started(m, allow, msg))
  {
    hide Coherent, IdsF, SettledF, StoreSpec.Valid, ClearOpen, StoreAfter, TakeRecord, Started, Disciplined;
    assert HealthyStore(m.store, seen);
    if msg.EventMsg? && !m.paused && msg.record.Some? {
      TakeRecordHealthy(m, allow, seen, msg);
    } else {
      NothingStarted(m, allow, msg);
      assert seen + {} == seen;
      match msg
      case PauseKey =>
        PrunedHealthy(m.store, seen);
        EmptyCoherent(ClearOpen(m.store).roots, seen);
      case StateMsg(conn, at) => MarkedHealthy(m.store, conn, at, seen);
      case WindowSizeMsg(_) => EmptyCoherent(m.store.roots, seen);
      case ClearKey =>
        EmptyCoherent([], seen);
        EmptyHealthy(seen);
      case _ =>
    }
  }

  lemma ChangeShown(m: TuiState, plain: TuiState, allow: bool, msg: Message)
    requires Shown(m) == Shown(plain)
    ensures Shown(Change(m, allow, msg)) == Shown(Change(plain, allow, msg)) && Paints(m, msg) == Paints(plain, msg)
  {
    hide HasOpen, LimitRoots, Apply, ClearOpen, StoreAfter, ConnAfter;
  }

  /** One message, in a viewer that is healthy and one that has no cache. */
  lemma {:induction false} UpdateAgrees(m: TuiState, plain: TuiState, allow: bool, seen: set<string>, msg: Message)
    requires Healthy(m, seen) && Shown(m) == Shown(plain) && Disciplined(m, allow, seen, msg)
    ensures Healthy(Update(m, allow, msg, true), seen + Started(m, allow, msg))
    ensures Shown(Update(m, allow, msg, true)) == Shown(Update(plain, allow, msg, false))
  {
    hide Healthy, Change, Repaint, Paints, Shown, Started, Disciplined;
    ChangeHealthy(m, allow, seen, msg);
    ChangeShown(m, plain, allow, msg);
    if Paints(m, msg) {
      RepaintAgrees(Change(m, allow, msg), Change(plain, allow, msg), seen + Started(m, allow, msg));
    }
  }

  lemma EmptyHealthy(seen: set<string>)
    ensures HealthyStore(EMPTY, seen)
  {
  }

  /** Main result on the terminal viewer: in every disciplined run, at every
      moment, the viewer with the cache is in the same state and shows the same
      screen as the one that draws everything anew. */
  lemma {:induction false} CacheIsInvisible(allow: bool, msgs: seq<Message>)
    requires AllDisciplined(allow, msgs)
    ensures Shown(Run(allow, msgs, true)) == Shown(Run(allow, msgs, false))
    ensures Healthy(Run(allow, msgs, true), StartedIds(allow, msgs))
  {
    hide Healthy, Update, Started, Disciplined;
    if msgs == [] {
      StartHealthy();
    } else {
      var front, last := msgs[..|msgs| - 1], msgs[|msgs| - 1];
      assert forall i :: 0 <= i < |front| ==> front[..i] == msgs[..i];
      CacheIsInvisible(allow, front);
      UpdateAgrees(Run(allow, front, true), Run(allow, front, false), allow, StartedIds(allow, front), last);
    }
  }

  lemma StartHealthy()
    ensures Healthy(START, {})
  {
    EmptyHealthy({});
    EmptyCoherent([], {});
  }

  // ----- The roots shown

  ghost predicate Bounded(s: State, paused: bool) {
    StoreSpec.Valid(s) && |s.roots| <= MAX_ROOTS && (paused ==> !HasOpen(s.roots))
  }

  lemma {:induction false} PrunedBounded(s: State)
    requires Bounded(s, false)
    ensures Bounded(ClearOpen(s), true)
  {
    StepKeepsValid(s, true, ClearOpenOp);
    PruneCloses(s.roots);
    PruneShorter(s.roots);
    hide StoreSpec.Valid, HasOpen, PruneF;
  }

  lemma {:induction false} TakenBounded(s: State, allow: bool, r: Record)
    requires Bounded(s, false)
    ensures Bounded(LimitRoots(Apply(s, allow, Some(r)), MAX_ROOTS), false)
  {
    StepKeepsValid(s, allow, ApplyOp(Some(r)));
    StepKeepsValid(Apply(s, allow, Some(r)), allow, LimitOp(MAX_ROOTS));
    hide StoreSpec.Valid, HasOpen, Apply, Keep;
  }

  lemma {:induction false} ChangeBounded(m: TuiState, allow: bool, msg: Message)
    requires Bounded(m.store, m.paused)
    ensures Bounded(Change(m, allow, msg).store, Change(m, allow, msg).paused)
  {
    hide StoreSpec.Valid, HasOpen, LimitRoots, Apply, ClearOpen;
    match msg
    case EventMsg(record, _) =>
      if !m.paused && record.Some? {
        TakenBounded(m.store, allow, record.value);
      }
    case PauseKey => PrunedBounded(m.store);
    case StateMsg(_, at) => StepKeepsValid(m.store, allow, MarkOp(at));
    case _ => EmptyBounded();
  }

  lemma EmptyBounded()
    ensures Bounded(EMPTY, true)
  {
  }

  /** At most 25 roots at any time; while paused nothing that is tracked is open. */
  lemma {:induction false} RunInvariant(allow: bool, msgs: seq<Message>, cached: bool)
    ensures var m := Run(allow, msgs, cached);
            StoreSpec.Valid(m.store) && |m.store.roots| <= 25 && (m.paused ==> !HasOpen(m.store.roots))
  {
    EmptyBounded();
    if msgs != [] {
      RunInvariant(allow, msgs[..|msgs| - 1], cached);
      ChangeBounded(Run(allow, msgs[..|msgs| - 1], cached), allow, msgs[|msgs| - 1]);
      hide StoreSpec.Valid, HasOpen, Change, DrawRoots, DrawAll;
    }
  }
}
