/** Replaying record logs: what the rebuilt forest depends on. */
module Confluence {
  import opened Records
  import opened Forest
  import opened Locate
  import opened StoreSpec

  /** The records of a log that are about one span, in order. */
  function Project(log: seq<Record>, id: string): seq<Record> {
    if log == [] then []
    else Project(log[..|log| - 1], id) + if log[|log| - 1].SpanID() == id then [log[|log| - 1]] else []
  }

  /** What a span's own records make of it, all other spans aside. */
  function FoldSpan(own: seq<Record>): Option<Info> {
    if own == [] then None
    else
      var before, r := FoldSpan(own[..|own| - 1]), own[|own| - 1];
      if r.NoKind? then before
      else match before
        case None => if r.SpanStarted? then Some(StartedTree(r).info) else None
        case Some(info) => if r.SpanStarted? then before else Some(EditInfo(info, EditOf(r)))
  }

  /** The forest rebuilt from a log. */
  function Replay(allow: bool, log: seq<Record>): seq<Tree> {
    if log == [] then [] else ApplyRoots(Replay(allow, log[..|log| - 1]), allow, log[|log| - 1])
  }

  ghost predicate StartedIn(log: seq<Record>, id: string) {
    exists i :: 0 <= i < |log| && log[i].SpanStarted? && log[i].spanID == id
  }

  /** Every start comes after its parent's, if it names one. */
  ghost predicate ParentsFirst(log: seq<Record>) {
    forall j :: 0 <= j < |log| && log[j].SpanStarted? && log[j].parentID != "" ==> StartedIn(log[..j], log[j].parentID)
  }

  lemma {:induction false} ParentsFirstFront(log: seq<Record>)
    requires log != [] && ParentsFirst(log)
    ensures ParentsFirst(log[..|log| - 1])
    ensures log[|log| - 1].SpanStarted? && log[|log| - 1].parentID != "" ==>
              StartedIn(log[..|log| - 1], log[|log| - 1].parentID)
  {
    var front := log[..|log| - 1];
    forall j | 0 <= j < |front| && front[j].SpanStarted? && front[j].parentID != ""
      ensures StartedIn(front[..j], front[j].parentID)
    {
      assert front[..j] == log[..j] && front[j] == log[j];
    }
  }

  // ----- The forest follows the spans' own records

  /** The rebuilt span of an id: there, and as its own records say. */
  ghost predicate Follows(ts: seq<Tree>, log: seq<Record>, id: string) {
    && (Find(ts, id).Some? <==> FoldSpan(Project(log, id)).Some?)
    && (Find(ts, id).Some? ==> Find(ts, id).value.tree.info == FoldSpan(Project(log, id)).value)
  }

  /** A span without a parent is a root; any other sits right below its parent. */
  ghost predicate Placed(ts: seq<Tree>, id: string) {
    Find(ts, id).Some? ==>
      var hit := Find(ts, id).value;
      if hit.tree.info.parentID == "" then hit.above == []
      else Find(ts, hit.tree.info.parentID).Some? && hit.above == Path(ts, hit.tree.info.parentID)
  }

  lemma {:induction false} FoldKnown(log: seq<Record>, id: string)
    ensures FoldSpan(Project(log, id)).Some? <==> StartedIn(log, id)
  {
    if log != [] {
      var front, last := log[..|log| - 1], log[|log| - 1];
      FoldKnown(front, id);
      assert StartedIn(log, id) <==> StartedIn(front, id) || (last.SpanStarted? && last.spanID == id) by {
        if StartedIn(front, id) {
          var i :| 0 <= i < |front| && front[i].SpanStarted? && front[i].spanID == id;
          assert log[i] == front[i];
        }
        if last.SpanStarted? && last.spanID == id {
          assert log[|front|] == last;
        }
        if StartedIn(log, id) {
          var i :| 0 <= i < |log| && log[i].SpanStarted? && log[i].spanID == id;
          assert i < |front| ==> front[i] == log[i];
        }
      }
      ProjectLast(log, id);
    }
  }

  lemma ProjectLast(log: seq<Record>, id: string)
    requires log != []
    ensures var front, last := log[..|log| - 1], log[|log| - 1];
            if last.SpanID() == id then
              Project(log, id) == Project(front, id) + [last] &&
              Project(log, id)[..|Project(log, id)| - 1] == Project(front, id)
            else Project(log, id) == Project(front, id)
  {
  }

  lemma {:induction false} PathAfterEdit(ts: seq<Tree>, x: string, e: Edit, y: string)
    requires WellFormedF(ts) && y in IdsF(ts) && EditedIds(e) !! IdsF(ts)
    ensures Path(EditAtF(ts, x, e), y) == EditAbove(Path(ts, y), x, e)
  {
    FindAfterEdit(ts, x, e, y);
    FindFinds(ts, y);
    var hit := Find(ts, y).value;
    assert EditAt(hit.tree, x, e).info == if hit.tree.ID() == x then EditInfo(hit.tree.info, e) else hit.tree.info;
    hide EditAt, Find;
  }

  /** An edit of a tracked span keeps every other span, and its place. */
  lemma {:induction false} EditPlaced(ts: seq<Tree>, x: string, e: Edit, y: string)
    requires WellFormedF(ts) && y in IdsF(ts) && EditedIds(e) !! IdsF(ts) && Placed(ts, y)
    ensures Placed(EditAtF(ts, x, e), y)
    ensures Find(ts, y).Some? && Find(EditAtF(ts, x, e), y).Some?
    ensures var info := Find(ts, y).value.tree.info;
            Find(EditAtF(ts, x, e), y).value.tree.info == if y == x then EditInfo(info, e) else info
  {
    FindAfterEdit(ts, x, e, y);
    FindFinds(ts, y);
    var hit := Find(ts, y).value;
    var p := hit.tree.info.parentID;
    if p != "" {
      FindFinds(ts, p);
      FindAfterEdit(ts, x, e, p);
      PathAfterEdit(ts, x, e, p);
    } else {
      assert EditAbove([], x, e) == [];
    }
    hide Find, Path, EditAtF;
  }

  lemma AddChildAbove(above: seq<Info>, x: string, e: Edit)
    requires e.AddChild?
    ensures EditAbove(above, x, e) == above
  {
  }

  /** The started span, where the record says. */
  lemma {:induction false} StartPlaced(ts: seq<Tree>, allow: bool, r: Record)
    requires WellFormedF(ts) && r.SpanStarted? && AcceptsStart(ts, allow, r)
    requires r.parentID == "" || r.parentID in IdsF(ts)
    ensures var us := ApplyRoots(ts, allow, r);
            Find(us, r.spanID).Some? && Find(us, r.spanID).value.tree == StartedTree(r) && Placed(us, r.spanID)
  {
    var t, us := StartedTree(r), ApplyRoots(ts, allow, r);
    NoEmptyIdF(ts);
    NewEdit(ts, r);
    hide WellFormedF, WellFormed, Ids;
    if r.parentID == "" {
      FindPrefix(ts, [t], r.spanID);
      assert Find([t], r.spanID) == Some(Hit(t, []));
    } else {
      FindAdded(ts, r.parentID, t);
      PathAfterEdit(ts, r.parentID, EditOf(r), r.parentID);
      AddChildAbove(Path(ts, r.parentID), r.parentID, EditOf(r));
      FindAfterEdit(ts, r.parentID, EditOf(r), r.parentID);
      FindFinds(ts, r.parentID);
    }
  }

  /** Every span tracked before an accepted start is as it was. */
  lemma {:induction false} StartKeeps(ts: seq<Tree>, allow: bool, r: Record, y: string)
    requires WellFormedF(ts) && r.SpanStarted? && AcceptsStart(ts, allow, r)
    requires r.parentID == "" || r.parentID in IdsF(ts)
    requires y in IdsF(ts) && Placed(ts, y)
    ensures var us := ApplyRoots(ts, allow, r);
            Find(ts, y).Some? && Find(us, y).Some? && Find(us, y).value.tree.info == Find(ts, y).value.tree.info &&
            Placed(us, y)
  {
    var us := ApplyRoots(ts, allow, r);
    NoEmptyIdF(ts);
    NewEdit(ts, r);
    FindFinds(ts, y);
    if r.parentID == "" {
      FindPrefix(ts, [StartedTree(r)], y);
      var p := Find(ts, y).value.tree.info.parentID;
      FindFinds(ts, p);
      if p in IdsF(ts) {
        FindPrefix(ts, [StartedTree(r)], p);
      }
    } else {
      EditPlaced(ts, r.parentID, EditOf(r), y);
    }
  }

  /** One more record, for one id. */
  lemma {:induction false} FollowsNext(allow: bool, log: seq<Record>, id: string)
    requires log != [] && ParentsFirst(log) && id != ""
    requires var front := log[..|log| - 1];
             && WellFormedF(Replay(allow, front))
             && (forall x :: x != "" ==> Follows(Replay(allow, front), front, x) && Placed(Replay(allow, front), x))
    ensures Follows(Replay(allow, log), log, id) && Placed(Replay(allow, log), id)
  {
    var front, r := log[..|log| - 1], log[|log| - 1];
    var ts := Replay(allow, front);
    ProjectLast(log, id);
    ParentsFirstFront(log);
    FindFinds(ts, id);
    assert Follows(ts, front, id) && Placed(ts, id);
    if r.SpanStarted? {
      if r.parentID != "" {
        FoldKnown(front, r.parentID);
        assert Follows(ts, front, r.parentID);
        FindFinds(ts, r.parentID);
      }
      if AcceptsStart(ts, allow, r) {
        FindFinds(ts, r.spanID);
        assert Follows(ts, front, r.spanID);
        if id == r.spanID {
          StartPlaced(ts, allow, r);
        } else if id in IdsF(ts) {
          StartKeeps(ts, allow, r, id);
        } else {
          ApplyIds(ts, allow, r);
          FindFinds(ApplyRoots(ts, allow, r), id);
        }
      }
    } else if !r.NoKind? {
      ApplyIds(ts, allow, r);
      FindFinds(ApplyRoots(ts, allow, r), id);
      if id in IdsF(ts) {
        EditPlaced(ts, r.spanID, EditOf(r), id);
      }
    }
  }

  /** Main result on replaying: with parents started first, every span of the
      rebuilt forest is the fold of its own records alone, and sits below its
      parent and nowhere else. */
  lemma {:induction false} ReplayFollows(allow: bool, log: seq<Record>)
    requires ParentsFirst(log)
    ensures WellFormedF(Replay(allow, log))
    ensures forall id :: id != "" ==> Follows(Replay(allow, log), log, id) && Placed(Replay(allow, log), id)
  {
    if log != [] {
      ParentsFirstFront(log);
      ReplayFollows(allow, log[..|log| - 1]);
      ApplyWellFormed(Replay(allow, log[..|log| - 1]), allow, log[|log| - 1]);
      hide Follows, Placed, WellFormedF, ParentsFirst;
      forall id | id != ""
        ensures Follows(Replay(allow, log), log, id) && Placed(Replay(allow, log), id)
      {
        FollowsNext(allow, log, id);
      }
    }
  }

  // ----- Confluence

  lemma {:induction false} SamePath(ts: seq<Tree>, us: seq<Tree>, id: string)
    requires WellFormedF(ts) && id != ""
    requires forall x :: x != "" ==> Placed(ts, x) && Placed(us, x)
    requires forall x :: x != "" ==>
               (Find(ts, x).Some? <==> Find(us, x).Some?) &&
               (Find(ts, x).Some? ==> Find(ts, x).value.tree.info == Find(us, x).value.tree.info)
    ensures Path(ts, id) == Path(us, id)
    decreases |Path(ts, id)|
  {
    if Find(ts, id).Some? {
      assert Placed(ts, id) && Placed(us, id);
      var p := Find(ts, id).value.tree.info.parentID;
      if p != "" {
        SamePath(ts, us, p);
      }
    }
  }

  /** Two logs that say the same about every span, in whatever order they mix the
      spans, rebuild the same forest up to the order of siblings and roots: the
      same spans with the same records below the same ancestors. */
  lemma {:induction false} Confluent(allow: bool, log: seq<Record>, other: seq<Record>, id: string)
    requires ParentsFirst(log) && ParentsFirst(other) && id != ""
    requires forall x :: x != "" ==> Project(log, x) == Project(other, x)
    ensures Path(Replay(allow, log), id) == Path(Replay(allow, other), id)
  {
    ReplayFollows(allow, log);
    ReplayFollows(allow, other);
    var ts, us := Replay(allow, log), Replay(allow, other);
    forall x | x != ""
      ensures Find(ts, x).Some? <==> Find(us, x).Some?
      ensures Find(ts, x).Some? ==> Find(ts, x).value.tree.info == Find(us, x).value.tree.info
    {
      assert Follows(ts, log, x) && Follows(us, other, x);
    }
    hide Follows, Placed, WellFormedF, Find, Path, Replay, Project, ParentsFirst;
    SamePath(ts, us, id);
  }
}
