/** When the screen shows the present state, and what the terminal viewer's own fields are,
    read off the messages. */
module TuiScreen {
  import opened Records
  import opened Connection
  import opened Forest
  import opened Pruning
  import opened StoreSpec
  import opened TuiRender
  import opened TuiSpec
  import opened TuiExact
  import opened TuiFresh
  import opened WebView

  /** The screen as it should be in the environment. */
  ghost predicate ShowsIn(m: TuiState, env: Env) {
    m.screen == DrawAll(m.store.roots, 0, if m.width < 42 then 40 else m.width - 2, env)
  }

  /** The screen shows all roots as they are now. */
  ghost predicate UpToDate(m: TuiState) {
    ShowsIn(m, Env(m.spin, m.now, m.store.stale))
  }

  /** It shows them as they are, but perhaps with an earlier clock and spinner. */
  ghost predicate Drawn(m: TuiState) {
    exists env :: ShowsIn(m, env) && env.stale == m.store.stale
  }

  // ----- Closed trees whose timings stand still

  /** How long the span took is known, or at least how long it was followed. */
  predicate KnownInfo(info: Info, stale: Marks) {
    info.ended ==> info.startedAt == ZERO_TIME || info.endedAt != ZERO_TIME || info.spanID in stale
  }

  predicate Known(t: Tree, stale: Marks) {
    KnownInfo(t.info, stale) && KnownF(t.children, stale)
  }

  predicate KnownF(ts: seq<Tree>, stale: Marks) {
    forall i :: 0 <= i < |ts| ==> Known(ts[i], stale)
  }

  lemma {:induction false} KnownStable(t: Tree, depth: nat, width: int, env: Env, other: Env)
    requires !Open(t) && Known(t, env.stale) && env.stale == other.stale
    ensures Draw(t, depth, width, env) == Draw(t, depth, width, other)
  {
    forall i | 0 <= i < |t.children|
      ensures Draw(t.children[i], depth + 1, Inner(width), env) == Draw(t.children[i], depth + 1, Inner(width), other)
    {
      KnownStable(t.children[i], depth + 1, Inner(width), env, other);
    }
    assert DrawAll(t.children, depth + 1, Inner(width), env) == DrawAll(t.children, depth + 1, Inner(width), other);
  }

  lemma {:induction false} KnownForestStable(ts: seq<Tree>, depth: nat, width: int, env: Env, other: Env)
    requires !HasOpen(ts) && KnownF(ts, env.stale) && env.stale == other.stale
    ensures DrawAll(ts, depth, width, env) == DrawAll(ts, depth, width, other)
  {
    forall i | 0 <= i < |ts|
      ensures Draw(ts[i], depth, width, env) == Draw(ts[i], depth, width, other)
    {
      KnownStable(ts[i], depth, width, env, other);
    }
  }

  /** Otherwise it shows differently at some two times. */
  lemma {:induction false} UnknownVaries(t: Tree, depth: nat, width: int, spin: string, stale: Marks)
    returns (a: Time, b: Time)
    requires !Open(t) && !Known(t, stale)
    ensures Draw(t, depth, width, Env(spin, a, stale)) != Draw(t, depth, width, Env(spin, b, stale))
    decreases t
  {
    if !KnownInfo(t.info, stale) {
      a, b := t.info.startedAt, t.info.startedAt + 1000000;
      assert TimingOf(t.info, Env(spin, a, stale)) == Some(0);
      assert TimingOf(t.info, Env(spin, b, stale)) == Some(1000000);
    } else {
      var i :| 0 <= i < |t.children| && !Known(t.children[i], stale);
      a, b := UnknownVaries(t.children[i], depth + 1, Inner(width), spin, stale);
      ChildShows(t, i, depth, width, Env(spin, a, stale), Env(spin, b, stale));
    }
  }

  lemma {:induction false} UnknownForestVaries(ts: seq<Tree>, depth: nat, width: int, spin: string, stale: Marks)
    returns (a: Time, b: Time)
    requires !HasOpen(ts) && !KnownF(ts, stale)
    ensures DrawAll(ts, depth, width, Env(spin, a, stale)) != DrawAll(ts, depth, width, Env(spin, b, stale))
  {
    var i :| 0 <= i < |ts| && !Known(ts[i], stale);
    assert !Open(ts[i]);
    a, b := UnknownVaries(ts[i], depth, width, spin, stale);
    hide Draw;
    assert DrawAll(ts, depth, width, Env(spin, a, stale))[i] != DrawAll(ts, depth, width, Env(spin, b, stale))[i];
  }

  lemma {:induction false} SettledKnown(t: Tree, stale: Marks)
    requires Settled(t)
    ensures Known(t, stale)
  {
    forall i | 0 <= i < |t.children| {
      SettledKnown(t.children[i], stale);
    }
  }

  // ----- The screen

  /** Nothing on the screen moves with the clock unless the screen is redrawn for it. */
  predicate Still(m: TuiState) {
    HasOpen(m.store.roots) || KnownF(m.store.roots, m.store.stale)
  }

  /** What every run keeps: with nothing waiting to be drawn, the screen shows what is there,
      and if it is still, it is up to date. */
  ghost predicate Keeps(m: TuiState) {
    m.ready && !m.repaintPending ==>
      Drawn(m) && (Still(m) ==> UpToDate(m))
  }

  lemma {:induction false} RepaintShows(m: TuiState)
    ensures Keeps(Repaint(m, false)) && (m.ready ==> UpToDate(Repaint(m, false)))
  {
    hide DrawAll, HasOpen, KnownF;
    var after := Repaint(m, false);
    if m.ready {
      assert ShowsIn(after, Env(m.spin, m.now, m.store.stale));
    }
  }

  lemma {:induction false} TickKeeps(m: TuiState, frame: string, time: Time)
    requires Keeps(m) && !HasOpen(m.store.roots)
    ensures Keeps(m.(spin := frame, now := time))
  {
    hide DrawAll, HasOpen, KnownF;
    var after := m.(spin := frame, now := time);
    if m.ready && !m.repaintPending {
      var env :| ShowsIn(m, env) && env.stale == m.store.stale;
      assert ShowsIn(after, env);
      if KnownF(m.store.roots, m.store.stale) {
        KnownForestStable(m.store.roots, 0, if m.width < 42 then 40 else m.width - 2,
                           env, Env(frame, time, m.store.stale));
      }
    }
  }

  lemma {:induction false} UpdateKeeps(m: TuiState, allow: bool, msg: Message)
    requires Keeps(m)
    ensures Keeps(Update(m, allow, msg, false))
  {
    hide DrawAll, HasOpen, LimitRoots, Apply, ClearOpen, MarkStale, Keeps;
    match msg
    case OtherKey =>
    case EventMsg(record, _) =>
      if !m.paused && record.Some? {
        PendingKeeps(Update(m, allow, msg, false));
      }
    case SpinnerTick(frame, time) =>
      if HasOpen(m.store.roots) {
        RepaintShows(Change(m, allow, msg));
      } else {
        TickKeeps(m, frame, time);
      }
    case _ => RepaintShows(Change(m, allow, msg));
  }

  lemma PendingKeeps(m: TuiState)
    requires m.repaintPending
    ensures Keeps(m)
  {
  }

  /** In every run at all, whenever no repaint is pending, the screen shows exactly the roots
      there are, marks included; and if something is open, or the timings of all that is
      closed are known, with the present clock and spinner too. */
  lemma {:induction false} ScreenExactly(allow: bool, msgs: seq<Message>)
    ensures var m := TuiSpec.Run(allow, msgs, false);
            m.ready && !m.repaintPending ==> Drawn(m) && (Still(m) ==> UpToDate(m))
  {
    hide Update, Still, Drawn, UpToDate;
    if msgs != [] {
      ScreenExactly(allow, msgs[..|msgs| - 1]);
      UpdateKeeps(TuiSpec.Run(allow, msgs[..|msgs| - 1], false), allow, msgs[|msgs| - 1]);
    }
  }

  /** Otherwise the next tick of the spinner can leave it late: it shows closed spans that
      ended at the zero time as if they were running, and is not redrawn for them. */
  lemma {:induction false} ScreenLate(allow: bool, msgs: seq<Message>)
    ensures var m := TuiSpec.Run(allow, msgs, false);
            !Still(m) ==> exists time :: !UpToDate(TuiSpec.Run(allow, msgs + [SpinnerTick(m.spin, time)], false))
  {
    hide Still, HasOpen, UpToDate, TuiSpec.Run;
    var m := TuiSpec.Run(allow, msgs, false);
    if !Still(m) {
      var time := LateTime(m);
      Ticked(allow, msgs, time);
      assert !UpToDate(TuiSpec.Run(allow, msgs + [SpinnerTick(m.spin, time)], false));
    }
  }

  lemma LateTime(m: TuiState) returns (time: Time)
    requires !Still(m)
    ensures !HasOpen(m.store.roots) && !UpToDate(m.(now := time))
  {
    hide HasOpen, KnownF, DrawAll;
    var width := if m.width < 42 then 40 else m.width - 2;
    var a, b := UnknownForestVaries(m.store.roots, 0, width, m.spin, m.store.stale);
    time := if m.screen == DrawAll(m.store.roots, 0, width, Env(m.spin, a, m.store.stale)) then b else a;
  }

  lemma Ticked(allow: bool, msgs: seq<Message>, time: Time)
    ensures var m := TuiSpec.Run(allow, msgs, false);
            !HasOpen(m.store.roots) ==>
              TuiSpec.Run(allow, msgs + [SpinnerTick(m.spin, time)], false) == m.(now := time)
  {
    var m := TuiSpec.Run(allow, msgs, false);
    assert (msgs + [SpinnerTick(m.spin, time)])[..|msgs|] == msgs;
    hide HasOpen, DrawAll;
  }

  // ----- No end at the zero time

  predicate EndsInTime(msg: Message) {
    msg.EventMsg? && msg.record.Some? && msg.record.value.SpanEnded? ==>
      msg.record.value.endedAt != Some(ZERO_TIME)
  }

  lemma {:induction false} UpdateSettled(m: TuiState, allow: bool, msg: Message, cached: bool)
    requires SettledF(m.store.roots) && EndsInTime(msg)
    ensures SettledF(Update(m, allow, msg, cached).store.roots)
  {
    hide Settled, ApplyRoots, PruneF, DrawAll, DrawRoots, HasOpen;
    match msg
    case EventMsg(record, _) =>
      if record.Some? {
        SettledApply(m.store.roots, allow, record.value);
      }
    case PauseKey => SettledPrune(m.store.roots);
    case _ =>
  }

  lemma {:induction false} RunSettled(allow: bool, msgs: seq<Message>, cached: bool)
    requires forall i :: 0 <= i < |msgs| ==> EndsInTime(msgs[i])
    ensures SettledF(TuiSpec.Run(allow, msgs, cached).store.roots)
  {
    hide Update;
    if msgs != [] {
      RunSettled(allow, msgs[..|msgs| - 1], cached);
      UpdateSettled(TuiSpec.Run(allow, msgs[..|msgs| - 1], cached), allow, msgs[|msgs| - 1], cached);
    }
  }

  lemma SettledStill(m: TuiState)
    requires SettledF(m.store.roots)
    ensures Still(m)
  {
    hide Settled, HasOpen;
    forall i | 0 <= i < |m.store.roots| {
      SettledKnown(m.store.roots[i], m.store.stale);
    }
  }

  /** So if no span ends at the zero time, the screen is up to date whenever no repaint is
      pending. */
  lemma ScreenUpToDate(allow: bool, msgs: seq<Message>)
    requires forall i :: 0 <= i < |msgs| ==> EndsInTime(msgs[i])
    ensures var m := TuiSpec.Run(allow, msgs, false);
            m.ready && !m.repaintPending ==>
              m.screen == DrawAll(m.store.roots, 0, if m.width < 42 then 40 else m.width - 2,
                                  Env(m.spin, m.now, m.store.stale))
  {
    hide TuiSpec.Run, Still, SettledF, DrawAll, Drawn;
    ScreenExactly(allow, msgs);
    RunSettled(allow, msgs, false);
    SettledStill(TuiSpec.Run(allow, msgs, false));
  }

  lemma DisciplinedShown(allow: bool, msgs: seq<Message>)
    requires AllDisciplined(allow, msgs)
    ensures TuiSpec.Run(allow, msgs, true).(cache := map[]) == TuiSpec.Run(allow, msgs, false).(cache := map[])
    ensures SettledF(TuiSpec.Run(allow, msgs, false).store.roots)
  {
    hide TuiSpec.Run, HasOpen, SettledF, Coherent, DrawAll, AllDisciplined, StartedIds,
      StoreSpec.Valid, IdsF, CacheWithin;
    CacheIsInvisible(allow, msgs);
  }

  /** The same of the viewer with the cache, in every disciplined run. */
  lemma CachedUpToDate(allow: bool, msgs: seq<Message>)
    requires AllDisciplined(allow, msgs)
    ensures var m := TuiSpec.Run(allow, msgs, true);
            m.ready && !m.repaintPending ==>
              m.screen == DrawAll(m.store.roots, 0, if m.width < 42 then 40 else m.width - 2,
                                  Env(m.spin, m.now, m.store.stale))
  {
    hide TuiSpec.Run, Still, SettledF, DrawAll, Drawn, AllDisciplined;
    DisciplinedShown(allow, msgs);
    SettledStill(TuiSpec.Run(allow, msgs, false));
    ScreenExactly(allow, msgs);
  }

  // ----- What makes the cached viewer right again

  lemma {:induction false} EmptyFresh(u: Tree, depth: nat, width: int, env: Env)
    ensures Fresh(map[], u, depth, width, env)
  {
    forall i | 0 <= i < |u.children|
      ensures Fresh(map[], u.children[i], depth + 1, Inner(width), env)
    {
      EmptyFresh(u.children[i], depth + 1, Inner(width), env);
    }
  }

  /** The message makes the viewer forget its cache. */
  predicate Forgets(m: TuiState, msg: Message) {
    msg.ClearKey? || (msg.PauseKey? && !m.paused) || (msg.WindowSizeMsg? && msg.newWidth != m.width)
  }

  lemma ForgetsAll(m: TuiState, allow: bool, msg: Message)
    requires Forgets(m, msg)
    ensures TuiSpec.Update(m, allow, msg, true) == Repaint(Change(m, allow, msg), true)
    ensures Change(m, allow, msg).cache == map[]
  {
    hide Repaint, ClearOpen;
  }

  lemma {:induction false} RepaintEmpty(m: TuiState)
    requires StoreSpec.Valid(m.store) && m.cache == map[]
    ensures m.ready ==> UpToDate(Repaint(m, true))
  {
    var env, width := Env(m.spin, m.now, m.store.stale), if m.width < 42 then 40 else m.width - 2;
    hide DrawRoots, DrawAll, Fresh, WellFormedF, IdsF;
    forall k | 0 <= k < |m.store.roots|
      ensures Fresh(map[], m.store.roots[k], 0, width, env)
    {
      EmptyFresh(m.store.roots[k], 0, width, env);
    }
    ValidWellFormed(m.store);
    FreshScreen(m.store.roots, width, env, map[]);
  }

  /** Whatever the run, and whatever the cache has made of the screen: clearing, pausing and
      a new width bring the screen up to date. */
  lemma Repaired(allow: bool, msgs: seq<Message>, msg: Message)
    requires Forgets(TuiSpec.Run(allow, msgs, true), msg)
    ensures var m := TuiSpec.Run(allow, msgs + [msg], true);
            m.ready ==>
              m.screen == DrawAll(m.store.roots, 0, if m.width < 42 then 40 else m.width - 2,
                                  Env(m.spin, m.now, m.store.stale))
  {
    assert (msgs + [msg])[..|msgs|] == msgs;
    var m := TuiSpec.Run(allow, msgs, true);
    assert TuiSpec.Run(allow, msgs + [msg], true) == TuiSpec.Update(m, allow, msg, true);
    hide TuiSpec.Run, Update, Repaint, Change, Forgets, StoreSpec.Valid, HasOpen, DrawAll;
    RunInvariant(allow, msgs, true);
    ForgetsAll(m, allow, msg);
    ChangeBounded(m, allow, msg);
    RepaintReady(Change(m, allow, msg));
    RepaintEmpty(Change(m, allow, msg));
  }

  lemma RepaintReady(m: TuiState)
    ensures Repaint(m, true).ready == m.ready
  {
    hide DrawRoots;
  }

  // ----- The viewer's own fields

  function PauseKeys(msgs: seq<Message>): nat {
    if msgs == [] then 0 else PauseKeys(msgs[..|msgs| - 1]) + if msgs[|msgs| - 1].PauseKey? then 1 else 0
  }

  /** A record arrives and is taken. */
  predicate Takes(front: seq<Message>, msg: Message) {
    msg.EventMsg? && msg.record.Some? && PauseKeys(front) % 2 == 0
  }

  /** A record was taken and no repaint came after it. */
  predicate Waits(msgs: seq<Message>) {
    msgs != [] &&
    var front, last := msgs[..|msgs| - 1], msgs[|msgs| - 1];
    !last.RepaintMsg? && (Takes(front, last) || Waits(front))
  }

  /** One was taken at the bottom of the view, and no repaint came after it. */
  predicate Sticks(msgs: seq<Message>) {
    msgs != [] &&
    var front, last := msgs[..|msgs| - 1], msgs[|msgs| - 1];
    !last.RepaintMsg? && ((Takes(front, last) && last.atBottom) || Sticks(front))
  }

  function LastWidth(msgs: seq<Message>): Option<int> {
    if msgs == [] then None
    else if msgs[|msgs| - 1].WindowSizeMsg? then Some(msgs[|msgs| - 1].newWidth)
    else LastWidth(msgs[..|msgs| - 1])
  }

  /** The last connection reported; a successful one carries no error. */
  function LastConnection(msgs: seq<Message>): ConnectionState {
    if msgs == [] then NO_CONNECTION
    else match msgs[|msgs| - 1]
      case StateMsg(conn, _) => if conn.phase.Connected? then conn.(err := "") else conn
      case _ => LastConnection(msgs[..|msgs| - 1])
  }

  function LastTime(msgs: seq<Message>): Time {
    if msgs == [] then EPOCH
    else match msgs[|msgs| - 1]
      case SpinnerTick(_, time) => time
      case TimerTick(time) => time
      case _ => LastTime(msgs[..|msgs| - 1])
  }

  function LastFrame(msgs: seq<Message>): string {
    if msgs == [] then ""
    else if msgs[|msgs| - 1].SpinnerTick? then msgs[|msgs| - 1].frame
    else LastFrame(msgs[..|msgs| - 1])
  }

  /** Each field is what the messages make it: the viewer is paused after an odd number of
      pauses, ready once it has a size, shows the last connection and the last times, and
      waits for a repaint exactly if it took a record since the last one. */
  ghost predicate Fields(m: TuiState, msgs: seq<Message>) {
    && (m.paused <==> PauseKeys(msgs) % 2 == 1)
    && (m.repaintPending <==> Waits(msgs))
    && (m.stickToBottom <==> Sticks(msgs))
    && (m.ready <==> LastWidth(msgs).Some?)
    && (m.ready ==> m.width == LastWidth(msgs).value)
    && m.conn == LastConnection(msgs) && m.now == LastTime(msgs) && m.spin == LastFrame(msgs)
  }

  lemma RepaintFields(m: TuiState, msgs: seq<Message>, cached: bool)
    requires Fields(m, msgs)
    ensures Fields(Repaint(m, cached), msgs)
  {
    hide DrawRoots, DrawAll;
  }

  lemma PauseMore(msgs: seq<Message>)
    requires msgs != []
    ensures PauseKeys(msgs) == PauseKeys(msgs[..|msgs| - 1]) + if msgs[|msgs| - 1].PauseKey? then 1 else 0
  {
  }

  lemma WaitsMore(msgs: seq<Message>)
    requires msgs != []
    ensures var front, last := msgs[..|msgs| - 1], msgs[|msgs| - 1];
            && (Waits(msgs) <==> !last.RepaintMsg? && (Takes(front, last) || Waits(front)))
            && (Sticks(msgs) <==> !last.RepaintMsg? && ((Takes(front, last) && last.atBottom) || Sticks(front)))
  {
    hide Takes;
  }

  lemma LastMore(msgs: seq<Message>)
    requires msgs != []
    ensures var front, last := msgs[..|msgs| - 1], msgs[|msgs| - 1];
            && LastWidth(msgs) == (if last.WindowSizeMsg? then Some(last.newWidth) else LastWidth(front))
            && LastConnection(msgs) == (if last.StateMsg? then ConnAfter(last.newConn) else LastConnection(front))
            && LastTime(msgs) == (if last.SpinnerTick? || last.TimerTick? then last.time else LastTime(front))
            && LastFrame(msgs) == (if last.SpinnerTick? then last.frame else LastFrame(front))
  {
  }

  lemma ChangeFields(m: TuiState, allow: bool, msgs: seq<Message>)
    requires msgs != [] && Fields(m, msgs[..|msgs| - 1])
    ensures Fields(Change(m, allow, msgs[|msgs| - 1]), msgs)
  {
    hide LimitRoots, Apply, ClearOpen, StoreAfter;
    hide PauseKeys, Waits, Sticks, LastWidth, LastConnection, LastTime, LastFrame;
    PauseMore(msgs);
    WaitsMore(msgs);
    LastMore(msgs);
  }

  /** So it is after any run. */
  lemma {:induction false} FieldsExactly(allow: bool, msgs: seq<Message>, cached: bool)
    ensures Fields(TuiSpec.Run(allow, msgs, cached), msgs)
  {
    if msgs == [] {
    } else {
      hide Fields, Repaint, Change, HasOpen;
      var front, last := msgs[..|msgs| - 1], msgs[|msgs| - 1];
      FieldsExactly(allow, front, cached);
      var m := TuiSpec.Run(allow, front, cached);
      ChangeFields(m, allow, msgs);
      RepaintFields(Change(m, allow, last), msgs, cached);
    }
  }
}
