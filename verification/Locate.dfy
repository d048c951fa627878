/** Finding a span: the subtree it heads and the chain of spans above it. */
module Locate {
  import opened Records
  import opened Forest

  /** A found subtree and its ancestors, from the root down to its parent. */
  datatype Hit = Hit(tree: Tree, above: seq<Info>)

  function Below(info: Info, found: Option<Hit>): Option<Hit> {
    match found
    case None => None
    case Some(hit) => Some(Hit(hit.tree, [info] + hit.above))
  }

  /** Depth-first search, as FindSpan runs it. */
  function LocateT(t: Tree, x: string): Option<Hit> {
    if t.ID() == x then Some(Hit(t, [])) else Below(t.info, Find(t.children, x))
  }

  function Find(ts: seq<Tree>, x: string): Option<Hit> {
    if ts == [] then None
    else
      var first := LocateT(ts[0], x);
      if first.Some? then first else Find(ts[1..], x)
  }

  /** A span's own record and those of its ancestors, root first; [] if absent. */
  function Path(ts: seq<Tree>, x: string): seq<Info> {
    match Find(ts, x)
    case None => []
    case Some(hit) => hit.above + [hit.tree.info]
  }

  lemma {:induction false} SplitIds(ts: seq<Tree>)
    requires ts != []
    ensures IdsF(ts) == Ids(ts[0]) + IdsF(ts[1..])
  {
    assert ts == [ts[0]] + ts[1..];
    IdsAppend([ts[0]], ts[1..]);
    assert IdsF([ts[0]]) == Ids(ts[0]) by { assert [ts[0]][0] == ts[0]; }
  }

  lemma {:induction false} SplitWellFormed(ts: seq<Tree>)
    requires ts != [] && WellFormedF(ts)
    ensures WellFormed(ts[0]) && WellFormedF(ts[1..]) && Ids(ts[0]) !! IdsF(ts[1..])
  {
    var us := ts[1..];
    forall i | 0 <= i < |us|
      ensures WellFormed(us[i]) && Apart(ts[0], us[i])
    {
      assert us[i] == ts[i + 1];
    }
    forall i, j | 0 <= i < j < |us|
      ensures Apart(us[i], us[j])
    {
      assert us[i] == ts[i + 1] && us[j] == ts[j + 1];
    }
  }

  /** The search succeeds exactly on tracked ids, with the span of that id. */
  lemma {:induction false} LocateFinds(t: Tree, x: string)
    ensures LocateT(t, x).Some? <==> x in Ids(t)
    ensures LocateT(t, x).Some? ==>
              (var hit := LocateT(t, x).value;
               hit.tree.ID() == x && Ids(hit.tree) <= Ids(t) && (WellFormed(t) ==> WellFormed(hit.tree)))
    decreases t, 0
  {
    if t.ID() != x {
      FindFinds(t.children, x);
    }
  }

  lemma {:induction false} FindFinds(ts: seq<Tree>, x: string)
    ensures Find(ts, x).Some? <==> x in IdsF(ts)
    ensures Find(ts, x).Some? ==>
              (var hit := Find(ts, x).value;
               hit.tree.ID() == x && Ids(hit.tree) <= IdsF(ts) && (WellFormedF(ts) ==> WellFormed(hit.tree)))
    decreases ts, 1
  {
    if ts != [] {
      SplitIds(ts);
      if WellFormedF(ts) { SplitWellFormed(ts); }
      LocateFinds(ts[0], x);
      FindFinds(ts[1..], x);
    }
  }

  /** In a well-formed forest the search can go straight to the right tree. */
  lemma {:induction false} FindWithin(ts: seq<Tree>, i: nat, x: string)
    requires i < |ts| && WellFormedF(ts) && x in Ids(ts[i])
    ensures Find(ts, x) == LocateT(ts[i], x)
    decreases |ts|
  {
    LocateFinds(ts[i], x);
    if i > 0 {
      assert Apart(ts[0], ts[i]);
      LocateFinds(ts[0], x);
      SplitWellFormed(ts);
      assert ts[1..][i - 1] == ts[i];
      FindWithin(ts[1..], i - 1, x);
    }
  }

  // ----- Searching after an edit

  function EditAbove(above: seq<Info>, x: string, e: Edit): seq<Info> {
    seq(|above|, i requires 0 <= i < |above| => if above[i].spanID == x then EditInfo(above[i], e) else above[i])
  }

  function EditHit(found: Option<Hit>, x: string, e: Edit): Option<Hit> {
    match found
    case None => None
    case Some(hit) => Some(Hit(EditAt(hit.tree, x, e), EditAbove(hit.above, x, e)))
  }

  lemma EditAboveCons(info: Info, above: seq<Info>, x: string, e: Edit)
    ensures EditAbove([info] + above, x, e) ==
            [if info.spanID == x then EditInfo(info, e) else info] + EditAbove(above, x, e)
  {
  }

  lemma {:induction false} AboveStays(ts: seq<Tree>, y: string, x: string, e: Edit)
    requires x !in IdsF(ts)
    ensures EditHit(Find(ts, y), x, e) == Find(ts, y)
    decreases ts, 1
  {
    if ts != [] {
      SplitIds(ts);
      AboveStaysT(ts[0], y, x, e);
      AboveStays(ts[1..], y, x, e);
    }
  }

  lemma {:induction false} AboveStaysT(t: Tree, y: string, x: string, e: Edit)
    requires x !in Ids(t)
    ensures EditHit(LocateT(t, y), x, e) == LocateT(t, y)
    decreases t, 0
  {
    if t.ID() == y {
      EditElsewhere(t, x, e);
      assert EditAbove([], x, e) == [];
    } else {
      AboveStays(t.children, y, x, e);
      var found := Find(t.children, y);
      if found.Some? {
        EditAboveCons(t.info, found.value.above, x, e);
      }
    }
  }

  lemma {:induction false} FindPrefix(ts: seq<Tree>, us: seq<Tree>, y: string)
    ensures Find(ts + us, y) == if y in IdsF(ts) then Find(ts, y) else Find(us, y)
    decreases |ts|
  {
    if ts == [] {
      assert ts + us == us;
    } else {
      SplitIds(ts);
      LocateFinds(ts[0], y);
      assert (ts + us)[1..] == ts[1..] + us;
      FindPrefix(ts[1..], us, y);
    }
  }

  /** An edit moves no tracked span: every search returns the same place, with
      the edited span's new record wherever that span shows up. */
  lemma {:induction false} FindAfterEditT(t: Tree, x: string, e: Edit, y: string)
    requires WellFormed(t) && y in Ids(t) && EditedIds(e) !! Ids(t)
    ensures LocateT(EditAt(t, x, e), y) == EditHit(LocateT(t, y), x, e)
    decreases t, 0
  {
    if t.ID() == x {
      assert EditAbove([], x, e) == [];
      if y != x {
        AboveStays(t.children, y, x, e);
        FindFinds(t.children, y);
        EditAboveCons(t.info, Find(t.children, y).value.above, x, e);
        if e.AddChild? {
          FindPrefix(t.children, [e.child], y);
        }
      }
    } else if t.ID() == y {
      assert EditAbove([], x, e) == [];
    } else {
      FindAfterEdit(t.children, x, e, y);
      FindFinds(t.children, y);
      EditAboveCons(t.info, Find(t.children, y).value.above, x, e);
    }
  }

  lemma {:induction false} FindAfterEdit(ts: seq<Tree>, x: string, e: Edit, y: string)
    requires WellFormedF(ts) && y in IdsF(ts)
    requires EditedIds(e) !! IdsF(ts)
    ensures Find(EditAtF(ts, x, e), y) == EditHit(Find(ts, y), x, e)
    decreases ts, 1
  {
    SplitIds(ts);
    SplitWellFormed(ts);
    assert EditAtF(ts, x, e)[1..] == EditAtF(ts[1..], x, e);
    LocateFinds(ts[0], y);
    if y in Ids(ts[0]) {
      FindAfterEditT(ts[0], x, e, y);
    } else {
      EditIds(ts[0], x, e);
      LocateFinds(EditAt(ts[0], x, e), y);
      FindAfterEdit(ts[1..], x, e, y);
    }
  }

  /** A leaf added under x is found there, below x and all that is above x. */
  lemma {:induction false} FindAddedT(t: Tree, x: string, leaf: Tree)
    requires WellFormed(t) && x in Ids(t) && leaf.ID() !in Ids(t) && leaf.children == []
    requires Fits(AddChild(leaf), x)
    ensures LocateT(t, x).Some?
    ensures LocateT(EditAt(t, x, AddChild(leaf)), leaf.ID()) ==
            Some(Hit(leaf, LocateT(t, x).value.above + [LocateT(t, x).value.tree.info]))
    decreases t, 0
  {
    LocateFinds(t, x);
    if t.ID() == x {
      FindPrefix(t.children, [leaf], leaf.ID());
      assert Find([leaf], leaf.ID()) == Some(Hit(leaf, []));
      assert [t.info] + [] == [] + [t.info];
    } else {
      FindAdded(t.children, x, leaf);
      var above := Find(t.children, x).value.above;
      assert ([t.info] + above) + [Find(t.children, x).value.tree.info] ==
             [t.info] + (above + [Find(t.children, x).value.tree.info]);
    }
  }

  lemma {:induction false} FindAdded(ts: seq<Tree>, x: string, leaf: Tree)
    requires WellFormedF(ts) && x in IdsF(ts) && leaf.ID() !in IdsF(ts) && leaf.children == []
    requires Fits(AddChild(leaf), x)
    ensures Find(ts, x).Some?
    ensures Find(EditAtF(ts, x, AddChild(leaf)), leaf.ID()) ==
            Some(Hit(leaf, Find(ts, x).value.above + [Find(ts, x).value.tree.info]))
    decreases ts, 1
  {
    var i :| 0 <= i < |ts| && x in Ids(ts[i]);
    var us := EditAtF(ts, x, AddChild(leaf));
    assert Ids(ts[i]) <= IdsF(ts) && us[i] == EditAt(ts[i], x, AddChild(leaf));
    assert Ids(leaf) == {leaf.ID()};
    hide EditAtF, EditAt, LocateT, Find, Ids, IdsF, WellFormed;
    EditIds(ts[i], x, AddChild(leaf));
    EditKeepsWellFormedF(ts, x, AddChild(leaf));
    FindWithin(ts, i, x);
    FindWithin(us, i, leaf.ID());
    FindAddedT(ts[i], x, leaf);
  }
}
