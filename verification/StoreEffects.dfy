/** What the store's operations come to for each span, read off the records and
    the state before: who is tracked, what a span's record says, who is stale. */
module StoreEffects {
  import opened Records
  import opened Attributes
  import opened Forest
  import opened Locate
  import opened Pruning
  import opened StoreSpec

  // ----- Starts

  /** What a start says of its span. */
  function Announced(r: Record): Info
    requires r.SpanStarted?
  {
    Info(r.traceID, r.spanID, r.parentID, r.name, if r.startedAt.Some? then r.startedAt.value else 0,
         ZERO_TIME, NonNil(r.attrs), [], false, TerminalUnspecified, "")
  }

  lemma {:induction false} AddKeepsPath(found: Option<Hit>, x: string, child: Tree)
    requires found.Some?
    ensures var hit := EditHit(found, x, AddChild(child)).value;
            hit.above == found.value.above && hit.tree.info == found.value.tree.info
  {
  }

  lemma {:induction false} StartIgnored(ts: seq<Tree>, allow: bool, r: Record)
    requires r.SpanStarted?
    ensures r.spanID == "" || r.spanID in IdsF(ts) || (!allow && r.parentID != "" && r.parentID !in IdsF(ts)) ==>
              ApplyRoots(ts, allow, r) == ts
  {
    hide IdsF;
  }

  lemma {:induction false} StartAsRoot(ts: seq<Tree>, allow: bool, r: Record)
    requires WellFormedF(ts) && r.SpanStarted? && r.spanID != "" && r.spanID !in IdsF(ts)
    requires r.parentID == "" || (allow && r.parentID !in IdsF(ts))
    ensures var us := ApplyRoots(ts, allow, r);
            && us == ts + [Tree(Announced(r), [])]
            && Path(us, r.spanID) == [Announced(r)]
            && Find(us, r.spanID).Some? && Find(us, r.spanID).value.tree == Tree(Announced(r), [])
            && forall y :: y in IdsF(ts) ==> Find(us, y) == Find(ts, y)
  {
    NoEmptyIdF(ts);
    assert Find([StartedTree(r)], r.spanID) == Some(Hit(StartedTree(r), []));
    FindPrefix(ts, [StartedTree(r)], r.spanID);
    forall y | y in IdsF(ts)
      ensures Find(ApplyRoots(ts, allow, r), y) == Find(ts, y)
    {
      FindPrefix(ts, [StartedTree(r)], y);
    }
  }

  lemma {:induction false} StartBelow(ts: seq<Tree>, allow: bool, r: Record)
    requires WellFormedF(ts) && r.SpanStarted? && r.spanID != "" && r.spanID !in IdsF(ts) && r.parentID in IdsF(ts)
    ensures var us := ApplyRoots(ts, allow, r);
            && Path(us, r.spanID) == Path(ts, r.parentID) + [Announced(r)]
            && Find(us, r.spanID).Some? && Find(us, r.spanID).value.tree == Tree(Announced(r), [])
            && (forall y :: y in IdsF(ts) ==> Path(us, y) == Path(ts, y))
            && Find(ts, r.parentID).Some? && Find(us, r.parentID).Some?
            && Find(us, r.parentID).value.tree.children ==
               Find(ts, r.parentID).value.tree.children + [Tree(Announced(r), [])]
  {
    var x, leaf := r.parentID, StartedTree(r);
    assert ApplyRoots(ts, allow, r) == EditAtF(ts, x, AddChild(leaf));
    assert leaf == Tree(Announced(r), []);
    NewEdit(ts, r);
    FindAdded(ts, x, leaf);
    FindFinds(ts, x);
    FindAfterEdit(ts, x, AddChild(leaf), x);
    hide ApplyRoots, IdsF, Ids, WellFormedF, EditAtF, Find;
    forall y | y in IdsF(ts)
      ensures Path(ApplyRoots(ts, allow, r), y) == Path(ts, y)
    {
      FindFinds(ts, y);
      FindAfterEdit(ts, x, AddChild(leaf), y);
      AddKeepsPath(Find(ts, y), x, leaf);
    }
  }

  lemma StartIds(ts: seq<Tree>, allow: bool, r: Record)
    requires r.SpanStarted? && r.spanID != "" && r.spanID !in IdsF(ts)
    requires allow || r.parentID == "" || r.parentID in IdsF(ts)
    ensures IdsF(ApplyRoots(ts, allow, r)) == IdsF(ts) + {r.spanID}
  {
    hide ApplyRoots, IdsF;
    ApplyIds(ts, allow, r);
  }

  /** A start makes its span tracked, as it announces itself, as the last child of its
      parent or the last root, unless it names no span, a tracked one, or, where unknown
      parents are not allowed, a parent that is not tracked: then it changes nothing. */
  lemma {:induction false} StartExactly(ts: seq<Tree>, allow: bool, r: Record)
    requires WellFormedF(ts) && r.SpanStarted?
    ensures var us := ApplyRoots(ts, allow, r);
            if r.spanID == "" || r.spanID in IdsF(ts) || (!allow && r.parentID != "" && r.parentID !in IdsF(ts)) then
              us == ts
            else
              && IdsF(us) == IdsF(ts) + {r.spanID}
              && Path(us, r.spanID) == Path(ts, r.parentID) + [Announced(r)]
              && Find(us, r.spanID).Some? && Find(us, r.spanID).value.tree == Tree(Announced(r), [])
              && (forall y :: y in IdsF(ts) ==> Path(us, y) == Path(ts, y))
              && (r.parentID !in IdsF(ts) ==> us == ts + [Tree(Announced(r), [])])
              && (r.parentID in IdsF(ts) ==>
                    && Find(ts, r.parentID).Some? && Find(us, r.parentID).Some?
                    && Find(us, r.parentID).value.tree.children ==
                       Find(ts, r.parentID).value.tree.children + [Tree(Announced(r), [])])
  {
    hide ApplyRoots, AcceptsStart, IdsF, Find, WellFormedF;
    StartIgnored(ts, allow, r);
    if !(r.spanID == "" || r.spanID in IdsF(ts) || (!allow && r.parentID != "" && r.parentID !in IdsF(ts))) {
      var us := ApplyRoots(ts, allow, r);
      NoEmptyIdF(ts);
      FindFinds(ts, r.parentID);
      if r.parentID in IdsF(ts) {
        StartBelow(ts, allow, r);
      } else {
        StartAsRoot(ts, allow, r);
        assert [] + [Announced(r)] == [Announced(r)];
      }
      StartIds(ts, allow, r);
      forall y | y in IdsF(ts)
        ensures Path(us, y) == Path(ts, y)
      {
        FindFinds(ts, y);
      }
    }
  }

  /** Which starts are tracked afterwards. */
  lemma StartTracked(ts: seq<Tree>, allow: bool, r: Record)
    requires WellFormedF(ts) && r.SpanStarted?
    ensures r.spanID in IdsF(ApplyRoots(ts, allow, r)) <==>
              r.spanID in IdsF(ts) || (r.spanID != "" && (allow || r.parentID == "" || r.parentID in IdsF(ts)))
  {
    hide ApplyRoots, IdsF, Find, WellFormedF;
    NoEmptyIdF(ts);
    StartExactly(ts, allow, r);
  }

  // ----- Roots

  ghost predicate Unparented(ts: seq<Tree>) {
    forall i :: 0 <= i < |ts| ==> ts[i].info.parentID == ""
  }

  lemma EditKeepsParent(t: Tree, x: string, e: Edit)
    ensures EditAt(t, x, e).info.parentID == t.info.parentID
  {
  }

  lemma {:induction false} ApplyUnparented(ts: seq<Tree>, r: Record)
    requires Unparented(ts)
    ensures Unparented(ApplyRoots(ts, false, r))
  {
    hide IdsF, EditAt;
    if !r.NoKind? {
      forall i | 0 <= i < |ts|
        ensures EditAt(ts[i], Target(r), EditOf(r)).info.parentID == ""
      {
        EditKeepsParent(ts[i], Target(r), EditOf(r));
      }
    }
  }

  lemma {:induction false} PruneUnparented(ts: seq<Tree>)
    requires Unparented(ts)
    ensures Unparented(PruneF(ts))
  {
    if ts != [] {
      PruneUnparented(ts[1..]);
    }
  }

  /** Unless unknown parents are allowed, only spans that name no parent are roots, in
      whatever run. */
  lemma {:induction false} RootsNameNoParent(ops: seq<Op>)
    ensures forall i :: 0 <= i < |Run(EMPTY, false, ops).roots| ==>
              Run(EMPTY, false, ops).roots[i].info.parentID == ""
  {
    hide ApplyRoots, PruneF;
    if ops != [] {
      var front, last := ops[..|ops| - 1], ops[|ops| - 1];
      RootsNameNoParent(front);
      var ts := Run(EMPTY, false, front).roots;
      assert Unparented(ts);
      PruneUnparented(ts);
      if last.ApplyOp? && last.record.Some? {
        ApplyUnparented(ts, last.record.value);
      }
      assert Unparented(Run(EMPTY, false, ops).roots);
    }
  }

  // ----- The other records

  /** What a record other than a start makes of what is known of a span. */
  function Written(info: Info, r: Record): Info {
    if info.spanID != r.SpanID() || info.ended then info
    else match r
      case SpanUpdated(_, _, attrs) => info.(attrs := Merge(info.attrs, attrs))
      case SpanEnded(_, _, at, terminal, error) =>
        info.(ended := true, endedAt := if at.Some? then at.value else 0, terminal := terminal, error := error)
      case SpanEvent(_, _, name, at, attrs, severity) =>
        info.(events := info.events +
                        [EventState(name, if at.Some? then at.value else 0, NonNil(attrs),
                                    if severity.Some? then severity.value else SeverityInfo)])
      case _ => info
  }

  function AllWritten(path: seq<Info>, r: Record): seq<Info> {
    seq(|path|, k requires 0 <= k < |path| => Written(path[k], r))
  }

  lemma {:induction false} EditWrites(info: Info, r: Record)
    requires !r.NoKind? && !r.SpanStarted?
    ensures (if info.spanID == Target(r) then EditInfo(info, EditOf(r)) else info) == Written(info, r)
  {
  }

  lemma {:induction false} HitWritten(hit: Hit, r: Record)
    requires !r.NoKind? && !r.SpanStarted?
    ensures var after := EditHit(Some(hit), Target(r), EditOf(r)).value;
            after.above + [after.tree.info] == AllWritten(hit.above + [hit.tree.info], r)
  {
    var after, x, e := EditHit(Some(hit), Target(r), EditOf(r)).value, Target(r), EditOf(r);
    assert after.tree.info == if hit.tree.info.spanID == x then EditInfo(hit.tree.info, e) else hit.tree.info;
    hide EditInfo, EditOf, Target, Written;
    EditWrites(hit.tree.info, r);
    forall k | 0 <= k < |hit.above|
      ensures after.above[k] == Written(hit.above[k], r)
    {
      EditWrites(hit.above[k], r);
    }
  }

  lemma {:induction false} EditKeepsPreorder(ts: seq<Tree>, x: string, e: Edit)
    requires !e.AddChild?
    ensures Preorder(EditAtF(ts, x, e)) == Preorder(ts)
  {
    if ts != [] {
      var us := EditAtF(ts, x, e);
      assert us[1..] == EditAtF(ts[1..], x, e);
      EditKeepsPreorder(ts[0].children, x, e);
      EditKeepsPreorder(ts[1..], x, e);
    }
  }

  /** Any other record changes no span's place, and of what is known of the spans only
      that of its own span, unless that has ended. */
  lemma {:induction false} RecordExactly(ts: seq<Tree>, allow: bool, r: Record)
    requires WellFormedF(ts) && !r.SpanStarted?
    ensures Preorder(ApplyRoots(ts, allow, r)) == Preorder(ts)
    ensures forall y :: Path(ApplyRoots(ts, allow, r), y) == AllWritten(Path(ts, y), r)
  {
    if r.NoKind? {
      forall y
        ensures Path(ts, y) == AllWritten(Path(ts, y), r)
      {
      }
    } else {
      var x, e := Target(r), EditOf(r);
      assert ApplyRoots(ts, allow, r) == EditAtF(ts, x, e);
      EditKeepsPreorder(ts, x, e);
      EditIdsF(ts, x, e);
      NewEdit(ts, r);
      hide ApplyRoots, EditAtF, Find, IdsF, WellFormedF, EditOf, Target, Written, Preorder;
      forall y
        ensures Path(EditAtF(ts, x, e), y) == AllWritten(Path(ts, y), r)
      {
        FindFinds(ts, y);
        FindFinds(EditAtF(ts, x, e), y);
        if y in IdsF(ts) {
          FindAfterEdit(ts, x, e, y);
          HitWritten(Find(ts, y).value, r);
        }
      }
    }
  }

  // ----- Open spans

  /** The span is tracked and has not ended. */
  predicate IsOpen(ts: seq<Tree>, x: string) {
    Find(ts, x).Some? && !Find(ts, x).value.tree.info.ended
  }

  lemma {:induction false} OpenSplit(ts: seq<Tree>)
    requires ts != []
    ensures OpenIds(ts) == OpenIdsT(ts[0]) + OpenIds(ts[1..])
  {
    hide OpenIdsT;
    forall x | x in OpenIds(ts[1..])
      ensures x in OpenIds(ts)
    {
      var i :| 0 <= i < |ts[1..]| && x in OpenIdsT(ts[1..][i]);
      assert ts[i + 1] == ts[1..][i];
    }
    forall x | x in OpenIds(ts)
      ensures x in OpenIdsT(ts[0]) + OpenIds(ts[1..])
    {
      var i :| 0 <= i < |ts| && x in OpenIdsT(ts[i]);
      assert i > 0 ==> ts[i] == ts[1..][i - 1];
    }
  }

  lemma {:induction false} OpenExactlyT(t: Tree, x: string)
    requires WellFormed(t)
    ensures x in OpenIdsT(t) <==> LocateT(t, x).Some? && !LocateT(t, x).value.tree.info.ended
    decreases t, 0
  {
    OpenAmongIdsF(t.children);
    OpenExactly(t.children, x);
  }

  lemma {:induction false} OpenExactly(ts: seq<Tree>, x: string)
    requires WellFormedF(ts)
    ensures x in OpenIds(ts) <==> IsOpen(ts, x)
    decreases ts, 1
  {
    if ts != [] {
      OpenSplit(ts);
      SplitWellFormed(ts);
      OpenExactlyT(ts[0], x);
      OpenExactly(ts[1..], x);
      LocateFinds(ts[0], x);
      OpenAmongIds(ts[0]);
      OpenAmongIdsF(ts[1..]);
      hide OpenIds, OpenIdsT, WellFormed, WellFormedF;
    }
  }

  lemma {:induction false} HasOpenIds(ts: seq<Tree>)
    ensures HasOpen(ts) <==> OpenIds(ts) != {}
  {
    if ts != [] {
      HasOpenSplit(ts);
      OpenSplit(ts);
      HasOpenIds(ts[0].children);
      HasOpenIds(ts[1..]);
      hide HasOpen, OpenIds;
    }
  }

  /** Something is open exactly if some tracked span has not ended. */
  lemma HasOpenExactly(ts: seq<Tree>)
    requires WellFormedF(ts)
    ensures HasOpen(ts) <==> exists x :: IsOpen(ts, x)
  {
    hide HasOpen, OpenIds, Find, WellFormedF;
    HasOpenIds(ts);
    if HasOpen(ts) {
      var x :| x in OpenIds(ts);
      OpenExactly(ts, x);
    }
    if x :| IsOpen(ts, x) {
      OpenExactly(ts, x);
    }
  }

  // ----- Stale marks

  /** When the span was marked, if it is. */
  function StaleSince(s: State, x: string): Option<Time> {
    if x in s.stale then Some(s.stale[x]) else None
  }

  /** Marking marks exactly the open spans, and leaves those marked before as they are. */
  lemma MarkExactly(s: State, at: Time, x: string)
    requires Valid(s)
    ensures MarkStale(s, at).roots == s.roots
    ensures x in MarkStale(s, at).stale <==>
              x in s.stale || (Find(s.roots, x).Some? && !Find(s.roots, x).value.tree.info.ended)
    ensures x in MarkStale(s, at).stale ==> MarkStale(s, at).stale[x] == if x in s.stale then s.stale[x] else at
  {
    hide OpenIds, Find, WellFormedF, IdsF;
    WellFormedOf(s);
    OpenExactly(s.roots, x);
  }

  lemma WellFormedOf(s: State)
    requires Valid(s)
    ensures WellFormedF(s.roots) && s.stale.Keys <= IdsF(s.roots)
  {
  }

  /** What one operation does to the mark of a span that stays. */
  lemma {:induction false} StepMarks(s: State, allow: bool, op: Op, x: string)
    requires Valid(s) && x in IdsF(Step(s, allow, op).roots)
    ensures StaleSince(Step(s, allow, op), x) ==
            if x in s.stale then Some(s.stale[x])
            else if op.MarkOp? && IsOpen(s.roots, x) then Some(op.at)
            else None
  {
    hide IdsF, ApplyRoots, PruneF, Find, Valid, MarkStale;
    match op
    case MarkOp(at) => MarkExactly(s, at, x);
    case _ => NoIds();
  }

  /** When the span was open as the open spans were marked, in order. */
  function MarkTimes(s: State, allow: bool, ops: seq<Op>, x: string): seq<Time> {
    if ops == [] then []
    else
      var front, last := ops[..|ops| - 1], ops[|ops| - 1];
      MarkTimes(s, allow, front, x) +
      if last.MarkOp? && IsOpen(Run(s, allow, front).roots, x) then [last.at] else []
  }

  /** Over any run that keeps a span tracked: a mark it has, it keeps; without one, it is
      marked exactly if some marking finds it open, with the time of the first that does. */
  lemma {:induction false} MarksExactly(s: State, allow: bool, ops: seq<Op>, x: string)
    requires Valid(s) && forall i :: 0 <= i <= |ops| ==> x in IdsF(Run(s, allow, ops[..i]).roots)
    ensures var mark, times := StaleSince(Run(s, allow, ops), x), MarkTimes(s, allow, ops, x);
            mark == if x in s.stale then Some(s.stale[x]) else if times == [] then None else Some(times[0])
    ensures Valid(Run(s, allow, ops))
    decreases |ops|
  {
    hide Valid, IdsF, Step, IsOpen;
    assert ops[..|ops|] == ops;
    if ops != [] {
      var front, last := ops[..|ops| - 1], ops[|ops| - 1];
      forall i | 0 <= i <= |front|
        ensures x in IdsF(Run(s, allow, front[..i]).roots)
      {
        assert front[..i] == ops[..i];
      }
      MarksExactly(s, allow, front, x);
      var now := Run(s, allow, front);
      assert x in IdsF(Run(s, allow, ops[..|ops|]).roots);
      StepMarks(now, allow, last, x);
      StepKeepsValid(now, allow, last);
    }
  }

  // ----- The limit on roots

  /** Limiting keeps the last roots as they are, with what is below them and its marks,
      and nothing else. */
  lemma {:induction false} LimitExactly(s: State, limit: int)
    requires Valid(s)
    ensures var after, k := LimitRoots(s, limit), if limit <= 0 then |s.roots| else if |s.roots| <= limit then 0
                                                  else |s.roots| - limit;
            && after.roots == s.roots[k..]
            && (forall x :: x in IdsF(after.roots) ==> Find(after.roots, x) == Find(s.roots, x))
            && (forall x :: StaleSince(after, x) == if x in IdsF(after.roots) then StaleSince(s, x) else None)
  {
    hide IdsF, Find, WellFormedF;
    WellFormedOf(s);
    var after, k := LimitRoots(s, limit), if limit <= 0 then |s.roots| else if |s.roots| <= limit then 0
                                          else |s.roots| - limit;
    assert after.roots == s.roots[k..];
    forall x | x in IdsF(after.roots)
      ensures Find(after.roots, x) == Find(s.roots, x)
    {
      SuffixFind(s.roots, k, x);
    }
    assert IdsF([]) == {} by { NoIds(); }
  }

  lemma NoIds()
    ensures IdsF([]) == {}
  {
  }
}
