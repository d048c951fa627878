/** The abstract span forest: the value the store's heap nodes stand for, and
    every store operation as a function on it. */
module Forest {
  import opened Records
  import opened Attributes

  datatype EventState = EventState(name: string, at: Time, attrs: seq<Attribute>, severity: Severity)

  /** Everything a span knows about itself. */
  datatype Info = Info(traceID: string, spanID: string, parentID: string, name: string,
                       startedAt: Time, endedAt: Time, attrs: seq<Attribute>,
                       events: seq<EventState>, ended: bool, terminal: TerminalType, error: string)

  datatype Tree = Tree(info: Info, children: seq<Tree>) {
    function ID(): string { info.spanID }
  }

  // ----- Identity and well-formedness

  function Ids(t: Tree): set<string> {
    {t.ID()} + IdsF(t.children)
  }

  function IdsF(ts: seq<Tree>): set<string> {
    set i, x | 0 <= i < |ts| && x in Ids(ts[i]) :: x
  }

  ghost predicate Apart(a: Tree, b: Tree) {
    Ids(a) !! Ids(b)
  }

  /** Ids are non-empty and pairwise distinct, and every child names its parent. */
  ghost predicate WellFormed(t: Tree) {
    && t.ID() != ""
    && t.ID() !in IdsF(t.children)
    && WellFormedF(t.children)
    && Under(t.children, t.ID())
  }

  /** Every span of the list names `p` as its parent. */
  ghost predicate Under(ts: seq<Tree>, p: string) {
    forall i :: 0 <= i < |ts| ==> ts[i].info.parentID == p
  }

  ghost predicate WellFormedF(ts: seq<Tree>) {
    && (forall i :: 0 <= i < |ts| ==> WellFormed(ts[i]))
    && (forall i, j :: 0 <= i < j < |ts| ==> Apart(ts[i], ts[j]))
  }

  lemma {:induction false} NoEmptyId(t: Tree)
    requires WellFormed(t)
    ensures "" !in Ids(t)
  {
    forall i | 0 <= i < |t.children| { NoEmptyId(t.children[i]); }
  }

  lemma {:induction false} NoEmptyIdF(ts: seq<Tree>)
    requires WellFormedF(ts)
    ensures "" !in IdsF(ts)
  {
    forall i | 0 <= i < |ts| { NoEmptyId(ts[i]); }
  }

  lemma {:induction false} IdsAppend(ts: seq<Tree>, us: seq<Tree>)
    ensures IdsF(ts + us) == IdsF(ts) + IdsF(us)
  {
    forall x | x in IdsF(ts) + IdsF(us)
      ensures x in IdsF(ts + us)
    {
      if x in IdsF(ts) {
        var i :| 0 <= i < |ts| && x in Ids(ts[i]);
        assert (ts + us)[i] == ts[i];
      } else {
        var i :| 0 <= i < |us| && x in Ids(us[i]);
        assert (ts + us)[|ts| + i] == us[i];
      }
    }
  }

  lemma {:induction false} WellFormedAppend(ts: seq<Tree>, t: Tree)
    requires WellFormedF(ts) && WellFormed(t) && Ids(t) !! IdsF(ts)
    ensures WellFormedF(ts + [t])
  {
    forall i | 0 <= i < |ts|
      ensures Apart(ts[i], t)
    {
      assert Ids(ts[i]) <= IdsF(ts);
    }
  }

  // ----- Editing one span in place

  datatype Edit =
    | SetAttributes(incoming: seq<Option<Attribute>>)
    | AddEvent(event: EventState)
    | Finish(endedAt: Time, terminal: TerminalType, error: string)
    | AddChild(child: Tree)

  /** A span's own fields freeze once it has ended. */
  function EditInfo(info: Info, e: Edit): Info {
    if info.ended then info
    else match e
      case SetAttributes(incoming) => info.(attrs := Merge(info.attrs, incoming))
      case AddEvent(event) => info.(events := info.events + [event])
      case Finish(at, terminal, error) =>
        info.(ended := true, endedAt := at, terminal := terminal, error := error)
      case AddChild(_) => info
  }

  /** Its subtree does not: a child may still be added under an ended span. */
  function Perform(t: Tree, e: Edit): Tree {
    Tree(EditInfo(t.info, e), if e.AddChild? then t.children + [e.child] else t.children)
  }

  function EditAt(t: Tree, x: string, e: Edit): Tree {
    if t.ID() == x then Perform(t, e) else Tree(t.info, EditAtF(t.children, x, e))
  }

  function EditAtF(ts: seq<Tree>, x: string, e: Edit): seq<Tree> {
    seq(|ts|, i requires 0 <= i < |ts| => EditAt(ts[i], x, e))
  }

  function EditedIds(e: Edit): set<string> {
    if e.AddChild? then Ids(e.child) else {}
  }

  /** Adding `e.child` at x keeps ids distinct and parents named. */
  ghost predicate Fits(e: Edit, x: string) {
    e.AddChild? ==> WellFormed(e.child) && e.child.info.parentID == x
  }

  lemma {:induction false} EditElsewhere(t: Tree, x: string, e: Edit)
    requires x !in Ids(t)
    ensures EditAt(t, x, e) == t
  {
    forall i | 0 <= i < |t.children|
      ensures EditAt(t.children[i], x, e) == t.children[i]
    {
      assert Ids(t.children[i]) <= IdsF(t.children);
      EditElsewhere(t.children[i], x, e);
    }
    assert EditAtF(t.children, x, e) == t.children;
  }

  lemma {:induction false} EditElsewhereF(ts: seq<Tree>, x: string, e: Edit)
    requires x !in IdsF(ts)
    ensures EditAtF(ts, x, e) == ts
  {
    forall i | 0 <= i < |ts|
      ensures EditAt(ts[i], x, e) == ts[i]
    {
      assert Ids(ts[i]) <= IdsF(ts);
      EditElsewhere(ts[i], x, e);
    }
  }

  /** The ids after the span x, if it is among them, gains `added` below it. */
  function Grown(ids: set<string>, x: string, added: set<string>): set<string> {
    if x in ids then ids + added else ids
  }

  lemma {:induction false} GrownApart(ts: seq<Tree>, us: seq<Tree>, x: string, added: set<string>)
    requires WellFormedF(ts) && |us| == |ts| && added !! IdsF(ts)
    requires forall i :: 0 <= i < |ts| ==> Ids(us[i]) == Grown(Ids(ts[i]), x, added)
    ensures forall i, j :: 0 <= i < j < |us| ==> Apart(us[i], us[j])
  {
    forall i, j | 0 <= i < j < |us|
      ensures Apart(us[i], us[j])
    {
      assert Apart(ts[i], ts[j]);
      assert Ids(ts[i]) <= IdsF(ts) && Ids(ts[j]) <= IdsF(ts);
    }
  }

  function Union(ss: seq<set<string>>): set<string> {
    set i, x | 0 <= i < |ss| && x in ss[i] :: x
  }

  lemma GrownUnion(ss: seq<set<string>>, rs: seq<set<string>>, x: string, added: set<string>)
    requires |rs| == |ss|
    requires forall i :: 0 <= i < |ss| ==> rs[i] == Grown(ss[i], x, added)
    ensures Union(rs) == Grown(Union(ss), x, added)
  {
    forall i | 0 <= i < |ss|
      ensures ss[i] <= Union(rs) && (x in ss[i] ==> added <= Union(rs))
    {
      assert rs[i] <= Union(rs);
    }
  }

  function IdSets(ts: seq<Tree>): (ss: seq<set<string>>)
    ensures |ss| == |ts| && forall i :: 0 <= i < |ts| ==> ss[i] == Ids(ts[i])
    ensures IdsF(ts) == Union(ss)
  {
    var ss := seq(|ts|, i requires 0 <= i < |ts| => Ids(ts[i]));
    assert Union(ss) <= IdsF(ts);
    assert IdsF(ts) <= Union(ss) by {
      assert forall i :: 0 <= i < |ts| ==> Ids(ts[i]) == ss[i];
    }
    ss
  }

  lemma {:induction false} GrownIds(ts: seq<Tree>, us: seq<Tree>, x: string, added: set<string>)
    requires |us| == |ts|
    requires forall i :: 0 <= i < |ts| ==> Ids(us[i]) == Grown(Ids(ts[i]), x, added)
    ensures IdsF(us) == Grown(IdsF(ts), x, added)
  {
    GrownUnion(IdSets(ts), IdSets(us), x, added);
  }

  lemma {:induction false} EditIds(t: Tree, x: string, e: Edit)
    ensures Ids(EditAt(t, x, e)) == Grown(Ids(t), x, EditedIds(e))
    decreases t, 0
  {
    if t.ID() == x {
      if e.AddChild? {
        IdsAppend(t.children, [e.child]);
        assert IdsF([e.child]) == Ids(e.child) by { assert [e.child][0] == e.child; }
      }
    } else {
      EditIdsF(t.children, x, e);
    }
  }

  lemma {:induction false} EditIdsF(ts: seq<Tree>, x: string, e: Edit)
    ensures IdsF(EditAtF(ts, x, e)) == Grown(IdsF(ts), x, EditedIds(e))
    decreases ts, 1
  {
    forall i | 0 <= i < |ts| { EditIds(ts[i], x, e); }
    GrownIds(ts, EditAtF(ts, x, e), x, EditedIds(e));
  }

  lemma {:induction false} EditKeepsWellFormed(t: Tree, x: string, e: Edit)
    requires WellFormed(t) && Fits(e, x) && EditedIds(e) !! Ids(t)
    ensures WellFormed(EditAt(t, x, e))
    decreases t, 0
  {
    if t.ID() == x {
      if e.AddChild? {
        IdsAppend(t.children, [e.child]);
        assert IdsF([e.child]) == Ids(e.child) by { assert [e.child][0] == e.child; }
        WellFormedAppend(t.children, e.child);
      }
    } else {
      EditKeepsWellFormedF(t.children, x, e);
      EditIdsF(t.children, x, e);
    }
  }

  lemma {:induction false} EditKeepsWellFormedF(ts: seq<Tree>, x: string, e: Edit)
    requires WellFormedF(ts) && Fits(e, x) && EditedIds(e) !! IdsF(ts)
    ensures WellFormedF(EditAtF(ts, x, e))
    decreases ts, 1
  {
    var us := EditAtF(ts, x, e);
    forall i | 0 <= i < |ts|
      ensures WellFormed(us[i]) && Ids(us[i]) == Grown(Ids(ts[i]), x, EditedIds(e))
    {
      assert Ids(ts[i]) <= IdsF(ts);
      EditKeepsWellFormed(ts[i], x, e);
      EditIds(ts[i], x, e);
    }
    GrownApart(ts, us, x, EditedIds(e));
  }
}
