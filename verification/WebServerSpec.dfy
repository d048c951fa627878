/** The web server as a state machine: what each message does to its state, what
    it sends to the subscribers, and what a browser makes of it. */
module WebServerSpec {
  import opened Records
  import opened Connection
  import opened Forest
  import opened Pruning
  import opened StoreSpec
  import opened WebView
  import opened Patching
  import opened Subsequence

  datatype StatusBar = StatusBar(roots: nat, conn: ConnectionState, paused: bool)

  /** Absent parts are empty strings in the source and are then not sent. */
  datatype Snapshot = Snapshot(page: Option<seq<Card>>, patch: Option<Patch>, status: StatusBar)

  datatype ServerState = ServerState(store: State, conn: ConnectionState, paused: bool)

  datatype Message =
    | RecordMessage(record: Option<Record>)
    | ConnectionMessage(conn: ConnectionState, now: Time)
    | PauseMessage
    | ClearMessage

  const START := ServerState(EMPTY, NO_CONNECTION, false)

  ghost predicate Valid(sv: ServerState, max: int) {
    && StoreSpec.Valid(sv.store)
    && |sv.store.roots| <= max
    && (sv.paused ==> !HasOpen(sv.store.roots))
  }

  // ----- Handling one message

  function CurrentStatus(sv: ServerState): StatusBar {
    StatusBar(|sv.store.roots|, sv.conn, sv.paused)
  }

  function FullSnapshot(sv: ServerState): Snapshot {
    Snapshot(Some(Page(sv.store)), None, CurrentStatus(sv))
  }

  function PatchSnapshot(sv: ServerState, p: Patch): Snapshot {
    Snapshot(None, Some(p), CurrentStatus(sv))
  }

  function StatusSnapshot(sv: ServerState): Snapshot {
    Snapshot(None, None, CurrentStatus(sv))
  }

  function Applied(s: State, allow: bool, max: int, r: Record): State {
    LimitRoots(Apply(s, allow, Some(r)), max)
  }

  /** A full rendering when the roots changed or no patch is known. */
  function RecordSnapshot(before: State, after: ServerState, r: Record): Snapshot {
    if RootIDs(before.roots) != RootIDs(after.store.roots) then FullSnapshot(after)
    else match PatchFor(after.store.roots, after.store.stale, r)
      case None => FullSnapshot(after)
      case Some(p) => PatchSnapshot(after, p)
  }

  function Next(sv: ServerState, allow: bool, max: int, m: Message): ServerState {
    match m
    case RecordMessage(record) =>
      if record.None? || sv.paused then sv else sv.(store := Applied(sv.store, allow, max, record.value))
    case ConnectionMessage(conn, now) =>
      if conn.phase.Connected? then sv.(conn := conn.(err := ""))
      else if conn.phase.Retrying? || conn.phase.Disconnected? then sv.(conn := conn, store := MarkStale(sv.store, now))
      else sv.(conn := conn)
    case PauseMessage => if sv.paused then sv.(paused := false) else sv.(paused := true, store := ClearOpen(sv.store))
    case ClearMessage => sv.(store := EMPTY)
  }

  function Sent(sv: ServerState, allow: bool, max: int, m: Message): seq<Snapshot> {
    var after := Next(sv, allow, max, m);
    match m
    case RecordMessage(record) =>
      if record.None? || sv.paused then [] else [RecordSnapshot(sv.store, after, record.value)]
    case ConnectionMessage(conn, _) =>
      if conn.phase.Retrying? || conn.phase.Disconnected? then [FullSnapshot(after)] else [StatusSnapshot(after)]
    case PauseMessage => [FullSnapshot(after)]
    case ClearMessage => [FullSnapshot(after)]
  }

  lemma ConnectionEffects(sv: ServerState, allow: bool, max: int, conn: ConnectionState, now: Time)
    ensures var m := ConnectionMessage(conn, now);
            var after := Next(sv, allow, max, m);
            if conn.phase.Connected? then
              after == sv.(conn := conn.(err := "")) && Sent(sv, allow, max, m) == [StatusSnapshot(after)]
            else if conn.phase.Retrying? || conn.phase.Disconnected? then
              after == sv.(conn := conn, store := MarkStale(sv.store, now)) &&
              Sent(sv, allow, max, m) == [FullSnapshot(after)]
            else after == sv.(conn := conn) && Sent(sv, allow, max, m) == [StatusSnapshot(after)]
  {
    hide MarkStale, FullSnapshot, StatusSnapshot;
  }

  lemma RecordEffects(sv: ServerState, allow: bool, max: int, r: Record)
    ensures var m := RecordMessage(Some(r));
            var after := if sv.paused then sv else sv.(store := Applied(sv.store, allow, max, r));
            && Next(sv, allow, max, m) == after
            && Sent(sv, allow, max, m) == if sv.paused then [] else [RecordSnapshot(sv.store, after, r)]
  {
    hide Applied, RecordSnapshot;
  }

  // ----- The browser

  datatype Browser = Browser(page: seq<Card>, status: StatusBar)

  function Show(b: Browser, snap: Snapshot): Browser {
    var page := if snap.page.Some? then snap.page.value else b.page;
    Browser(if snap.patch.Some? then PatchAll(page, snap.patch.value) else page, snap.status)
  }

  function ShowAll(b: Browser, snaps: seq<Snapshot>): Browser {
    if snaps == [] then b else Show(ShowAll(b, snaps[..|snaps| - 1]), snaps[|snaps| - 1])
  }

  /** What a full rendering of the present state looks like. */
  function View(sv: ServerState): Browser {
    Browser(Page(sv.store), CurrentStatus(sv))
  }

  /** If the message makes the server append, the append will be right. */
  predicate Faithful(sv: ServerState, allow: bool, max: int, m: Message) {
    forall i :: 0 <= i < |Sent(sv, allow, max, m)| ==>
      var snap := Sent(sv, allow, max, m)[i];
      snap.patch.Some? && m.RecordMessage? && m.record.Some? ==>
      Sound(sv.store.roots, allow, m.record.value, snap.patch.value)
  }

  lemma {:induction false} NextKeepsValid(sv: ServerState, allow: bool, max: int, m: Message)
    requires Valid(sv, max) && max > 0
    ensures Valid(Next(sv, allow, max, m), max)
  {
    hide HasOpen, StoreSpec.Valid, Applied, ClearOpen, MarkStale;
    match m
    case RecordMessage(record) =>
      if record.Some? && !sv.paused {
        AppliedValid(sv.store, allow, max, record.value);
      }
    case ConnectionMessage(conn, now) => MarkedValid(sv.store, allow, now);
    case PauseMessage => ClosedValid(sv.store, allow);
    case ClearMessage => EmptyCloses();
  }

  lemma MarkedValid(s: State, allow: bool, now: Time)
    requires StoreSpec.Valid(s)
    ensures StoreSpec.Valid(MarkStale(s, now)) && MarkStale(s, now).roots == s.roots
  {
    StepKeepsValid(s, allow, MarkOp(now));
    hide StoreSpec.Valid;
  }

  lemma ClosedValid(s: State, allow: bool)
    requires StoreSpec.Valid(s)
    ensures StoreSpec.Valid(ClearOpen(s)) && !HasOpen(ClearOpen(s).roots) && |ClearOpen(s).roots| <= |s.roots|
  {
    StepKeepsValid(s, allow, ClearOpenOp);
    PruneCloses(s.roots);
    PruneShorter(s.roots);
    hide StoreSpec.Valid, HasOpen, PruneF;
  }

  lemma AppliedValid(s: State, allow: bool, max: int, r: Record)
    requires StoreSpec.Valid(s) && max > 0
    ensures StoreSpec.Valid(Applied(s, allow, max, r)) && |Applied(s, allow, max, r).roots| <= max
  {
    hide StoreSpec.Valid, Apply, Keep;
    StepKeepsValid(s, allow, ApplyOp(Some(r)));
    StepKeepsValid(Apply(s, allow, Some(r)), allow, LimitOp(max));
    KeepRoots(Apply(s, allow, Some(r)), max);
  }

  lemma EmptyCloses()
    ensures StoreSpec.Valid(EMPTY) && !HasOpen([])
  {
  }

  lemma KeepRoots(s: State, max: int)
    requires max > 0
    ensures |LimitRoots(s, max).roots| <= max
  {
  }

  /** One message: applying what is sent to a browser that shows the old state
      makes it show the new state exactly if any append in it is right. */
  lemma {:induction false} SentRefines(sv: ServerState, allow: bool, max: int, m: Message)
    requires Valid(sv, max) && max > 0
    ensures ShowAll(View(sv), Sent(sv, allow, max, m)) == View(Next(sv, allow, max, m)) <==>
            Faithful(sv, allow, max, m)
  {
    var snaps, after := Sent(sv, allow, max, m), Next(sv, allow, max, m);
    hide Page, PatchFor, Sound, Applied;
    if snaps != [] {
      assert snaps[..0] == [];
      assert ShowAll(View(sv), snaps) == Show(View(sv), snaps[0]);
    }
    if m.RecordMessage? && snaps != [] && snaps[0].patch.Some? {
      assert RootIDs(sv.store.roots) == RootIDs(after.store.roots);
      PatchSent(sv.store, allow, max, m.record.value);
    }
  }

  lemma {:induction false} PatchSent(s: State, allow: bool, max: int, r: Record)
    requires StoreSpec.Valid(s) && max > 0
    requires RootIDs(Applied(s, allow, max, r).roots) == RootIDs(s.roots)
    ensures var after := Applied(s, allow, max, r);
            match PatchFor(after.roots, after.stale, r)
            case None => true
            case Some(p) => PatchAll(Page(s), p) == Page(after) <==> Sound(s.roots, allow, r, p)
  {
    hide Page, PatchFor, Sound;
    PatchRefines(s, allow, r, max);
  }

  // ----- Whole runs

  function RunServer(sv: ServerState, allow: bool, max: int, ms: seq<Message>): ServerState {
    if ms == [] then sv else Next(RunServer(sv, allow, max, ms[..|ms| - 1]), allow, max, ms[|ms| - 1])
  }

  function History(sv: ServerState, allow: bool, max: int, ms: seq<Message>): seq<Snapshot> {
    if ms == [] then []
    else History(sv, allow, max, ms[..|ms| - 1]) +
         Sent(RunServer(sv, allow, max, ms[..|ms| - 1]), allow, max, ms[|ms| - 1])
  }

  predicate AllFaithful(sv: ServerState, allow: bool, max: int, ms: seq<Message>) {
    forall i :: 0 <= i < |ms| ==> Faithful(RunServer(sv, allow, max, ms[..i]), allow, max, ms[i])
  }

  lemma {:induction false} ShowAppend(b: Browser, snaps: seq<Snapshot>, more: seq<Snapshot>)
    ensures ShowAll(b, snaps + more) == ShowAll(ShowAll(b, snaps), more)
    decreases |more|
  {
    if more == [] {
      assert snaps + more == snaps;
    } else {
      var front := more[..|more| - 1];
      assert (snaps + more)[..|snaps + more| - 1] == snaps + front;
      ShowAppend(b, snaps, front);
    }
  }

  lemma {:induction false} RunKeepsValid(sv: ServerState, allow: bool, max: int, ms: seq<Message>)
    requires Valid(sv, max) && max > 0
    ensures Valid(RunServer(sv, allow, max, ms), max)
  {
    if ms != [] {
      RunKeepsValid(sv, allow, max, ms[..|ms| - 1]);
      NextKeepsValid(RunServer(sv, allow, max, ms[..|ms| - 1]), allow, max, ms[|ms| - 1]);
    }
  }

  lemma HistoryMore(sv: ServerState, allow: bool, max: int, ms: seq<Message>)
    ensures ms == [] ==> RunServer(sv, allow, max, ms) == sv &&
                         [FullSnapshot(sv)] + History(sv, allow, max, ms) == [FullSnapshot(sv)]
    ensures ms != [] ==>
              var front, last := ms[..|ms| - 1], ms[|ms| - 1];
              var now := RunServer(sv, allow, max, front);
              && RunServer(sv, allow, max, ms) == Next(now, allow, max, last)
              && [FullSnapshot(sv)] + History(sv, allow, max, ms) ==
                 [FullSnapshot(sv)] + History(sv, allow, max, front) + Sent(now, allow, max, last)
  {
    hide Next, Sent, FullSnapshot;
  }

  lemma FaithfulFront(sv: ServerState, allow: bool, max: int, ms: seq<Message>)
    requires ms != [] && AllFaithful(sv, allow, max, ms)
    ensures var front := ms[..|ms| - 1];
            AllFaithful(sv, allow, max, front) &&
            Faithful(RunServer(sv, allow, max, front), allow, max, ms[|ms| - 1])
  {
    hide Faithful, RunServer;
    var front := ms[..|ms| - 1];
    assert forall i :: 0 <= i < |front| ==> front[..i] == ms[..i] && front[i] == ms[i];
  }

  /** Whoever subscribes at any moment, whatever the browser showed before, and
      whatever messages follow in whatever order: with every append right, all
      that was sent amounts to a full rendering of the present state. */
  lemma {:induction false} Converges(sv: ServerState, allow: bool, max: int, ms: seq<Message>, b: Browser)
    requires Valid(sv, max) && max > 0 && AllFaithful(sv, allow, max, ms)
    ensures ShowAll(b, [FullSnapshot(sv)] + History(sv, allow, max, ms)) == View(RunServer(sv, allow, max, ms))
  {
    hide Next, Sent, Faithful, View, Valid, History, RunServer, ShowAll, AllFaithful;
    HistoryMore(sv, allow, max, ms);
    if ms == [] {
      Subscribed(sv, b);
    } else {
      var front, last := ms[..|ms| - 1], ms[|ms| - 1];
      FaithfulFront(sv, allow, max, ms);
      Converges(sv, allow, max, front, b);
      RunKeepsValid(sv, allow, max, front);
      var now := RunServer(sv, allow, max, front);
      SentRefines(now, allow, max, last);
      var sent := [FullSnapshot(sv)] + History(sv, allow, max, front);
      ShowAppend(b, sent, Sent(now, allow, max, last));
    }
  }

  lemma Subscribed(sv: ServerState, b: Browser)
    ensures ShowAll(b, [FullSnapshot(sv)]) == View(sv)
  {
    assert [FullSnapshot(sv)][..0] == [];
  }

  // ----- What is exact

  /** Whether all that was sent since the last full rendering is right, after one
      more message: a full rendering makes it so, a wrong append undoes it. */
  predicate ExactAfter(sv: ServerState, allow: bool, max: int, m: Message, exact: bool) {
    (exists snap :: snap in Sent(sv, allow, max, m) && snap.page.Some?) || (exact && Faithful(sv, allow, max, m))
  }

  predicate ExactRun(sv: ServerState, allow: bool, max: int, ms: seq<Message>, exact: bool) {
    if ms == [] then exact
    else
      ExactAfter(RunServer(sv, allow, max, ms[..|ms| - 1]), allow, max, ms[|ms| - 1],
                 ExactRun(sv, allow, max, ms[..|ms| - 1], exact))
  }

  /** Nothing is inexact once every append after some full rendering is right. */
  lemma {:induction false} ExactSince(sv: ServerState, allow: bool, max: int, ms: seq<Message>, exact: bool, k: nat)
    requires k <= |ms| && ExactRun(sv, allow, max, ms[..k], exact)
    requires forall i :: k <= i < |ms| ==> Faithful(RunServer(sv, allow, max, ms[..i]), allow, max, ms[i])
    ensures ExactRun(sv, allow, max, ms, exact)
    decreases |ms|
  {
    hide Sent, Faithful, RunServer;
    assert ms[..|ms|] == ms;
    if k < |ms| {
      var front := ms[..|ms| - 1];
      assert front[..k] == ms[..k];
      forall i | k <= i < |front|
        ensures Faithful(RunServer(sv, allow, max, front[..i]), allow, max, front[i])
      {
        assert front[..i] == ms[..i];
      }
      ExactSince(sv, allow, max, front, exact, k);
    }
  }

  // ----- The roots shown

  function LastN<T>(xs: seq<T>, n: int): seq<T> {
    if n <= 0 then [] else if |xs| <= n then xs else xs[|xs| - n..]
  }

  /** The root a message starts, if the store takes it as one. */
  function NewRoot(sv: ServerState, allow: bool, m: Message): seq<string> {
    if m.RecordMessage? && m.record.Some? && !sv.paused && m.record.value.SpanStarted?
       && AcceptsStart(sv.store.roots, allow, m.record.value)
       && m.record.value.parentID !in IdsF(sv.store.roots)
    then [m.record.value.spanID] else []
  }

  /** All roots ever accepted, in order. */
  function AcceptedRoots(sv: ServerState, allow: bool, max: int, ms: seq<Message>): seq<string> {
    if ms == [] then []
    else AcceptedRoots(sv, allow, max, ms[..|ms| - 1]) +
         NewRoot(RunServer(sv, allow, max, ms[..|ms| - 1]), allow, ms[|ms| - 1])
  }

  lemma {:induction false} ApplyRootIDs(ts: seq<Tree>, allow: bool, r: Record)
    ensures RootIDs(ApplyRoots(ts, allow, r)) ==
            RootIDs(ts) +
            if r.SpanStarted? && AcceptsStart(ts, allow, r) && r.parentID !in IdsF(ts) then [r.spanID] else []
  {
    hide IdsF, Ids, AcceptsStart;
    forall i | 0 <= i < |ts| && !r.NoKind?
      ensures EditAt(ts[i], Target(r), EditOf(r)).ID() == ts[i].ID()
    {
      EditKeepsID(ts[i], Target(r), EditOf(r));
    }
  }

  lemma EditKeepsID(t: Tree, x: string, e: Edit)
    ensures EditAt(t, x, e).ID() == t.ID()
  {
  }

  lemma {:induction false} NextRoots(sv: ServerState, allow: bool, max: int, m: Message)
    requires max > 0 && |sv.store.roots| <= max && !m.PauseMessage? && !m.ClearMessage?
    ensures RootIDs(Next(sv, allow, max, m).store.roots) == LastN(RootIDs(sv.store.roots) + NewRoot(sv, allow, m), max)
  {
    hide IdsF, AcceptsStart, ApplyRoots;
    if m.RecordMessage? && m.record.Some? && !sv.paused {
      ApplyRootIDs(sv.store.roots, allow, m.record.value);
    }
  }

  /** With neither pause nor clear, the roots shown are exactly the last `max`
      accepted ones, in order of acceptance. */
  lemma {:induction false} LastAcceptedRoots(allow: bool, max: int, ms: seq<Message>)
    requires max > 0 && forall i :: 0 <= i < |ms| ==> !ms[i].PauseMessage? && !ms[i].ClearMessage?
    ensures RootIDs(RunServer(START, allow, max, ms).store.roots) == LastN(AcceptedRoots(START, allow, max, ms), max)
  {
    if ms != [] {
      var front, last := ms[..|ms| - 1], ms[|ms| - 1];
      LastAcceptedRoots(allow, max, front);
      var now := RunServer(START, allow, max, front);
      assert |RootIDs(now.store.roots)| == |now.store.roots|;
      NextRoots(now, allow, max, last);
      LastNAppend(AcceptedRoots(START, allow, max, front), NewRoot(now, allow, last), max);
      hide Next, NewRoot;
    }
  }

  lemma LastNAppend<T>(xs: seq<T>, ys: seq<T>, n: int)
    ensures LastN(LastN(xs, n) + ys, n) == LastN(xs + ys, n)
  {
  }

  lemma {:induction false} PruneRootIDs(ts: seq<Tree>)
    ensures Subseq(RootIDs(PruneF(ts)), RootIDs(ts))
    decreases |ts|
  {
    if ts != [] {
      var front, last := ts[..|ts| - 1], ts[|ts| - 1];
      assert ts == front + [last];
      PruneRootIDs(front);
      PruneAppend(front, [last]);
      assert RootIDs(ts) == RootIDs(front) + [last.ID()];
      if last.info.ended {
        assert RootIDs(PruneF(ts)) == RootIDs(PruneF(front)) + [last.ID()];
        SubseqTake(RootIDs(PruneF(front)), RootIDs(front), last.ID());
      } else {
        assert PruneF(ts) == PruneF(front);
        SubseqSkip(RootIDs(PruneF(front)), RootIDs(front), last.ID());
      }
    }
  }

  lemma {:induction false} NextInOrder(sv: ServerState, allow: bool, max: int, m: Message, log: seq<string>)
    requires max > 0 && |sv.store.roots| <= max && Subseq(RootIDs(sv.store.roots), log)
    ensures Subseq(RootIDs(Next(sv, allow, max, m).store.roots), log + NewRoot(sv, allow, m))
  {
    var ids, added := RootIDs(sv.store.roots), NewRoot(sv, allow, m);
    hide Subseq, PruneF, NewRoot, AcceptsStart, HasOpen;
    if m.PauseMessage? {
      assert NewRoot(sv, allow, m) == [] && log + [] == log by { NoNewRoot(sv, allow, m); }
      PruneRootIDs(sv.store.roots);
      SubseqTransitive(RootIDs(PruneF(sv.store.roots)), ids, log);
    } else if m.ClearMessage? {
      SubseqEmpty(log + added);
      assert RootIDs([]) == [];
    } else {
      NextRoots(sv, allow, max, m);
      hide Next, RootIDs;
      LimitInOrder(ids, added, log, max);
    }
  }

  lemma NoNewRoot(sv: ServerState, allow: bool, m: Message)
    ensures |NewRoot(sv, allow, m)| <= 1 && (!m.RecordMessage? ==> NewRoot(sv, allow, m) == [])
  {
  }

  lemma {:induction false} LimitInOrder(ids: seq<string>, added: seq<string>, log: seq<string>, max: int)
    requires max > 0 && Subseq(ids, log)
    ensures Subseq(LastN(ids + added, max), log + added)
    decreases |added|
  {
    SubseqAppend(ids, log, added);
    hide Subseq;
    var grown := ids + added;
    SubseqSuffix(grown, if |grown| <= max then 0 else |grown| - max);
    SubseqTransitive(LastN(grown, max), grown, log + added);
  }

  /** Whatever happens, the roots shown are in the order they were accepted. */
  lemma {:induction false} RootsInOrder(allow: bool, max: int, ms: seq<Message>)
    requires max > 0
    ensures Subseq(RootIDs(RunServer(START, allow, max, ms).store.roots), AcceptedRoots(START, allow, max, ms))
  {
    if ms != [] {
      var front := ms[..|ms| - 1];
      RootsInOrder(allow, max, front);
      RunInvariant(allow, max, front);
      hide Next, NewRoot, HasOpen, Subseq;
      NextInOrder(RunServer(START, allow, max, front), allow, max, ms[|ms| - 1],
                  AcceptedRoots(START, allow, max, front));
    }
  }

  /** While paused nothing that is shown is still running, and no message but
      resuming changes that; the limit on roots holds throughout. */
  lemma RunInvariant(allow: bool, max: int, ms: seq<Message>)
    requires max > 0
    ensures var sv := RunServer(START, allow, max, ms);
            |sv.store.roots| <= max && (sv.paused ==> !HasOpen(sv.store.roots))
  {
    EmptyCloses();
    RunKeepsValid(START, allow, max, ms);
  }
}
