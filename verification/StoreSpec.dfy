/** Every operation of the store, as a function on the abstract forest and the
    stale marks, and what holds over any run of them. */
module StoreSpec {
  import opened Records
  import opened Attributes
  import opened Forest
  import opened Locate
  import opened Pruning

  datatype State = State(roots: seq<Tree>, stale: map<string, Time>)

  const EMPTY := State([], map[])

  ghost predicate Valid(s: State) {
    WellFormedF(s.roots) && s.stale.Keys <= IdsF(s.roots)
  }

  // ----- Records

  function StartedTree(r: Record): Tree
    requires r.SpanStarted?
  {
    Tree(Info(r.traceID, r.spanID, r.parentID, r.name, TimeValue(r.startedAt), ZERO_TIME,
              NonNil(r.attrs), [], false, TerminalUnspecified, ""), [])
  }

  predicate AcceptsStart(ts: seq<Tree>, allow: bool, r: Record)
    requires r.SpanStarted?
  {
    && r.spanID != ""
    && r.spanID !in IdsF(ts)
    && (r.parentID == "" || r.parentID in IdsF(ts) || allow)
  }

  /** The span a record changes: a start changes its parent's child list. */
  function Target(r: Record): string {
    match r
    case SpanStarted(_, _, parentID, _, _, _) => parentID
    case _ => r.SpanID()
  }

  function EditOf(r: Record): Edit
    requires !r.NoKind?
  {
    match r
    case SpanStarted(_, _, _, _, _, _) => AddChild(StartedTree(r))
    case SpanUpdated(_, _, attrs) => SetAttributes(attrs)
    case SpanEnded(_, _, at, terminal, error) => Finish(TimeValue(at), terminal, error)
    case SpanEvent(_, _, name, at, attrs, severity) =>
      AddEvent(EventState(name, TimeValue(at), NonNil(attrs), SeverityValue(severity)))
  }

  function ApplyRoots(ts: seq<Tree>, allow: bool, r: Record): seq<Tree> {
    if r.NoKind? then ts
    else if r.SpanStarted? && !AcceptsStart(ts, allow, r) then ts
    else if r.SpanStarted? && r.parentID !in IdsF(ts) then ts + [StartedTree(r)]
    else EditAtF(ts, Target(r), EditOf(r))
  }

  function Apply(s: State, allow: bool, record: Option<Record>): State {
    match record
    case None => s
    case Some(r) => s.(roots := ApplyRoots(s.roots, allow, r))
  }

  // ----- The other operations

  function OpenIdsT(t: Tree): set<string> {
    (if t.info.ended then {} else {t.ID()}) + OpenIds(t.children)
  }

  function OpenIds(ts: seq<Tree>): set<string> {
    set i, x | 0 <= i < |ts| && x in OpenIdsT(ts[i]) :: x
  }

  function Marked(stale: map<string, Time>, open: set<string>, at: Time): map<string, Time> {
    (map x | x in open :: at) + stale
  }

  /** Marks the open spans; a span marked before keeps its first mark. */
  function MarkStale(s: State, at: Time): State {
    s.(stale := Marked(s.stale, OpenIds(s.roots), at))
  }

  function Keep(s: State, roots: seq<Tree>): State {
    State(roots, map x | x in s.stale && x in IdsF(roots) :: s.stale[x])
  }

  function ClearOpen(s: State): State {
    Keep(s, PruneF(s.roots))
  }

  function LimitRoots(s: State, limit: int): State {
    if limit <= 0 then EMPTY
    else if |s.roots| <= limit then s
    else Keep(s, s.roots[|s.roots| - limit..])
  }

  // ----- Runs

  datatype Op =
    | ApplyOp(record: Option<Record>)
    | MarkOp(at: Time)
    | ClearOpenOp
    | LimitOp(limit: int)
    | ClearOp

  function Step(s: State, allow: bool, op: Op): State {
    match op
    case ApplyOp(record) => Apply(s, allow, record)
    case MarkOp(at) => MarkStale(s, at)
    case ClearOpenOp => ClearOpen(s)
    case LimitOp(limit) => LimitRoots(s, limit)
    case ClearOp => EMPTY
  }

  function Run(s: State, allow: bool, ops: seq<Op>): State {
    if ops == [] then s else Step(Run(s, allow, ops[..|ops| - 1]), allow, ops[|ops| - 1])
  }

  lemma {:induction false} OpenAmongIds(t: Tree)
    ensures OpenIdsT(t) <= Ids(t)
  {
    forall i | 0 <= i < |t.children|
      ensures OpenIdsT(t.children[i]) <= IdsF(t.children)
    {
      OpenAmongIds(t.children[i]);
      assert Ids(t.children[i]) <= IdsF(t.children);
    }
  }

  lemma {:induction false} OpenAmongIdsF(ts: seq<Tree>)
    ensures OpenIds(ts) <= IdsF(ts)
  {
    forall i | 0 <= i < |ts|
      ensures OpenIdsT(ts[i]) <= IdsF(ts)
    {
      OpenAmongIds(ts[i]);
      assert Ids(ts[i]) <= IdsF(ts);
    }
  }

  lemma {:induction false} SuffixWellFormed(ts: seq<Tree>, k: nat)
    requires k <= |ts| && WellFormedF(ts)
    ensures WellFormedF(ts[k..]) && IdsF(ts[k..]) <= IdsF(ts)
  {
    if k > 0 {
      SplitIds(ts);
      SplitWellFormed(ts);
      SuffixWellFormed(ts[1..], k - 1);
      assert ts[1..][k - 1..] == ts[k..];
    }
  }

  lemma {:induction false} NewEdit(ts: seq<Tree>, r: Record)
    requires !r.NoKind? && (r.SpanStarted? ==> r.spanID != "" && r.spanID !in IdsF(ts))
    ensures Fits(EditOf(r), Target(r)) && EditedIds(EditOf(r)) !! IdsF(ts)
    ensures r.SpanStarted? ==> Ids(StartedTree(r)) == {r.spanID}
  {
    if r.SpanStarted? {
      assert IdsF([]) == {};
      assert Ids(StartedTree(r)) == {r.spanID};
      assert EditOf(r).child == StartedTree(r);
    }
  }

  /** Records add the started span's id, if anything. */
  lemma {:induction false} ApplyIds(ts: seq<Tree>, allow: bool, r: Record)
    ensures IdsF(ApplyRoots(ts, allow, r)) ==
            IdsF(ts) + if r.SpanStarted? && AcceptsStart(ts, allow, r) then {r.spanID} else {}
  {
    if !r.NoKind? && !(r.SpanStarted? && !AcceptsStart(ts, allow, r)) {
      NewEdit(ts, r);
      if r.SpanStarted? && r.parentID !in IdsF(ts) {
        IdsAppend(ts, [StartedTree(r)]);
        SplitIds([StartedTree(r)]);
      } else {
        EditIdsF(ts, Target(r), EditOf(r));
      }
    }
  }

  lemma {:induction false} ApplyWellFormed(ts: seq<Tree>, allow: bool, r: Record)
    requires WellFormedF(ts)
    ensures WellFormedF(ApplyRoots(ts, allow, r))
  {
    if !r.NoKind? && !(r.SpanStarted? && !AcceptsStart(ts, allow, r)) {
      NewEdit(ts, r);
      if r.SpanStarted? && r.parentID !in IdsF(ts) {
        WellFormedAppend(ts, StartedTree(r));
      } else {
        EditKeepsWellFormedF(ts, Target(r), EditOf(r));
      }
    }
  }

  lemma {:induction false} StepKeepsValid(s: State, allow: bool, op: Op)
    requires Valid(s)
    ensures Valid(Step(s, allow, op))
  {
    match op
    case ApplyOp(record) =>
      if record.Some? {
        ApplyIds(s.roots, allow, record.value);
        ApplyWellFormed(s.roots, allow, record.value);
      }
    case MarkOp(at) => OpenAmongIdsF(s.roots);
    case ClearOpenOp => PruneWellFormed(s.roots);
    case LimitOp(limit) =>
      if 0 < limit < |s.roots| {
        SuffixWellFormed(s.roots, |s.roots| - limit);
      }
    case ClearOp =>
  }

  /** Whatever the records are, however they are interleaved with the other
      operations: ids stay distinct and non-empty, children name their parents,
      and only tracked spans are marked stale. */
  lemma {:induction false} RunKeepsValid(allow: bool, ops: seq<Op>)
    ensures Valid(Run(EMPTY, allow, ops))
  {
    if ops != [] {
      RunKeepsValid(allow, ops[..|ops| - 1]);
      StepKeepsValid(Run(EMPTY, allow, ops[..|ops| - 1]), allow, ops[|ops| - 1]);
    }
  }

  // ----- What a span keeps while it is tracked

  /** Same chain of ancestors; the same record too once the span has ended. */
  ghost predicate Stays(before: Hit, after: Hit) {
    && |after.above| == |before.above|
    && (forall i :: 0 <= i < |before.above| ==> after.above[i].spanID == before.above[i].spanID)
    && (before.tree.info.ended ==> after.tree.info == before.tree.info)
  }

  lemma {:induction false} EditStays(hit: Hit, x: string, e: Edit)
    ensures Stays(hit, EditHit(Some(hit), x, e).value)
  {
  }

  lemma {:induction false} SuffixFind(ts: seq<Tree>, k: nat, x: string)
    requires k <= |ts| && WellFormedF(ts) && x in IdsF(ts[k..])
    ensures Find(ts[k..], x) == Find(ts, x)
  {
    SuffixWellFormed(ts, k);
    var i :| 0 <= i < |ts[k..]| && x in Ids(ts[k..][i]);
    FindWithin(ts[k..], i, x);
    FindWithin(ts, k + i, x);
  }

  lemma ApplyStays(ts: seq<Tree>, allow: bool, r: Record, x: string)
    requires WellFormedF(ts) && x in IdsF(ts) && x in IdsF(ApplyRoots(ts, allow, r))
    ensures Find(ts, x).Some? && Find(ApplyRoots(ts, allow, r), x).Some?
    ensures Stays(Find(ts, x).value, Find(ApplyRoots(ts, allow, r), x).value)
  {
    hide WellFormed, Ids, LocateT, EditAt;
    var us := ApplyRoots(ts, allow, r);
    FindFinds(ts, x);
    FindFinds(us, x);
    if us != ts {
      NewEdit(ts, r);
      if r.SpanStarted? && r.parentID !in IdsF(ts) {
        FindPrefix(ts, [StartedTree(r)], x);
      } else {
        FindAfterEdit(ts, Target(r), EditOf(r), x);
        EditStays(Find(ts, x).value, Target(r), EditOf(r));
      }
    }
  }

  /** While a span stays tracked its depth never changes, and once it has ended
      neither do its attributes, events and terminal fields. */
  lemma {:induction false} StepStays(s: State, allow: bool, op: Op, x: string)
    requires Valid(s)
    requires x in IdsF(s.roots) && x in IdsF(Step(s, allow, op).roots)
    ensures Find(s.roots, x).Some? && Find(Step(s, allow, op).roots, x).Some?
    ensures Stays(Find(s.roots, x).value, Find(Step(s, allow, op).roots, x).value)
  {
    hide ApplyRoots, WellFormed, Ids, LocateT;
    var ts, us := s.roots, Step(s, allow, op).roots;
    FindFinds(ts, x);
    FindFinds(us, x);
    match op
    case ApplyOp(record) =>
      if record.Some? {
        ApplyStays(ts, allow, record.value, x);
      }
    case MarkOp(at) =>
    case ClearOpenOp => PruneFind(ts, x);
    case LimitOp(limit) =>
      if 0 < limit < |ts| {
        SuffixFind(ts, |ts| - limit, x);
      }
    case ClearOp =>
  }

  lemma StaysTransitive(a: Hit, b: Hit, c: Hit)
    requires Stays(a, b) && Stays(b, c)
    ensures Stays(a, c)
  {
  }

  /** The same over any run throughout which the span stays tracked. */
  lemma {:induction false} RunStays(s: State, allow: bool, ops: seq<Op>, x: string)
    requires Valid(s) && forall i :: 0 <= i <= |ops| ==> x in IdsF(Run(s, allow, ops[..i]).roots)
    ensures Find(s.roots, x).Some? && Find(Run(s, allow, ops).roots, x).Some?
    ensures Stays(Find(s.roots, x).value, Find(Run(s, allow, ops).roots, x).value)
    ensures Valid(Run(s, allow, ops))
    decreases |ops|
  {
    hide Step, Stays, Find, Valid, IdsF;
    assert ops[..|ops|] == ops;
    if ops == [] {
      NothingChanges(s, x);
    } else {
      var front, last := ops[..|ops| - 1], ops[|ops| - 1];
      forall i | 0 <= i <= |front|
        ensures x in IdsF(Run(s, allow, front[..i]).roots)
      {
        assert front[..i] == ops[..i];
      }
      RunStays(s, allow, front, x);
      var now := Run(s, allow, front);
      assert x in IdsF(Run(s, allow, ops[..|ops| - 1]).roots);
      StepStays(now, allow, last, x);
      StepKeepsValid(now, allow, last);
      StaysTransitive(Find(s.roots, x).value, Find(now.roots, x).value, Find(Run(s, allow, ops).roots, x).value);
    }
  }

  lemma NothingChanges(s: State, x: string)
    requires Valid(s) && x in IdsF(s.roots)
    ensures Find(s.roots, x).Some? && Stays(Find(s.roots, x).value, Find(s.roots, x).value)
  {
    FindFinds(s.roots, x);
  }

  /** All that clearing the open spans does: an id survives exactly if its span
      and all its ancestors have ended; survivors keep their place, their order
      and their stale marks; nothing open is left; and doing it again changes nothing. */
  lemma {:induction false} ClearOpenExact(s: State)
    requires Valid(s)
    ensures forall x :: x in IdsF(ClearOpen(s).roots) <==> x in IdsF(s.roots) && AllEnded(Path(s.roots, x))
    ensures forall x :: x in IdsF(ClearOpen(s).roots) ==> Path(ClearOpen(s).roots, x) == Path(s.roots, x)
    ensures Preorder(ClearOpen(s).roots) == Only(Preorder(s.roots), IdsF(ClearOpen(s).roots))
    ensures ClearOpen(s).stale.Keys == s.stale.Keys * IdsF(ClearOpen(s).roots)
    ensures !HasOpen(ClearOpen(s).roots)
    ensures ClearOpen(ClearOpen(s)) == ClearOpen(s)
  {
    hide IdsF, PruneF, HasOpen, Preorder, Only, Path, AllEnded, WellFormedF;
    forall x {
      PruneExact(s.roots, x);
    }
    PruneIds(s.roots);
    PruneOrder(s.roots, IdsF(PruneF(s.roots)));
    PruneCloses(s.roots);
    PruneNothing(PruneF(s.roots));
  }
}
