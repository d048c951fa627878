/** When a span added below a cached tree is missing from the screen, and a run in
    which one is. */
module TuiMissed {
  import opened Records
  import opened Forest
  import opened Locate
  import opened Pruning
  import opened StoreSpec
  import opened WebView
  import opened TuiRender
  import opened TuiSpec
  import opened TuiFresh
  import opened TuiPictures

  // ----- One span added to a tree with a right cache

  /** Some closed span on the way from t down to x has an entry for where it is drawn. */
  ghost predicate Remembers(cache: Cache, t: Tree, x: string, depth: nat, width: int) {
    || (!Open(t) && Key(t.ID(), depth, width) in cache)
    || (t.ID() != x && exists i :: 0 <= i < |t.children| && x in Ids(t.children[i]) &&
                                   Remembers(cache, t.children[i], x, depth + 1, Inner(width)))
  }

  lemma {:induction false} GrewAdded(t: Tree, x: string, child: Tree)
    requires x in Ids(t)
    ensures Grew(t, EditAt(t, x, AddChild(child))) && EditAt(t, x, AddChild(child)) != t
    decreases t
  {
    var u := EditAt(t, x, AddChild(child));
    if t.ID() == x {
      forall i | 0 <= i < |t.children| {
        GrewSame(t.children[i]);
      }
      assert |u.children| == |t.children| + 1;
    } else {
      EditAtBelow(t, x, AddChild(child));
      forall i | 0 <= i < |t.children|
        ensures Grew(t.children[i], u.children[i])
      {
        if x in Ids(t.children[i]) {
          GrewAdded(t.children[i], x, child);
        } else {
          EditElsewhere(t.children[i], x, AddChild(child));
          GrewSame(t.children[i]);
        }
      }
      var i :| 0 <= i < |t.children| && x in Ids(t.children[i]);
      GrewAdded(t.children[i], x, child);
    }
  }

  lemma EditAtBelow(t: Tree, x: string, e: Edit)
    requires t.ID() != x
    ensures var u := EditAt(t, x, e);
            && u.info == t.info && u.children == EditAtF(t.children, x, e) && |u.children| == |t.children|
            && forall j :: 0 <= j < |t.children| ==> u.children[j] == EditAt(t.children[j], x, e)
  {
  }

  /** A tree and one that is to be added under x, of which nothing is cached. */
  ghost predicate Addable(t: Tree, x: string, child: Tree, cache: Cache) {
    && WellFormed(t) && Settled(t) && CoherentT(cache, t) && x in Ids(t)
    && WellFormed(child) && Settled(child) && child.info.parentID == x
    && Ids(child) !! Ids(t) && (forall key :: key in cache ==> key.spanID !in Ids(child))
  }

  lemma AddedReady(t: Tree, x: string, child: Tree, cache: Cache)
    requires Addable(t, x, child, cache)
    ensures var u := EditAt(t, x, AddChild(child)); WellFormed(u) && Settled(u) && Ids(u) == Ids(t) + Ids(child)
  {
    EditKeepsWellFormed(t, x, AddChild(child));
    EditIds(t, x, AddChild(child));
    SettledEdit(t, x, AddChild(child));
  }

  /** An entry for the changed tree shows the tree as it was. */
  lemma OldShown(t: Tree, x: string, child: Tree, depth: nat, width: int, env: Env, cache: Cache)
    requires Addable(t, x, child, cache) && Key(t.ID(), depth, width) in cache
    ensures cache[Key(t.ID(), depth, width)] == Draw(t, depth, width, NO_ENV)
    ensures cache[Key(t.ID(), depth, width)] != Draw(EditAt(t, x, AddChild(child)), depth, width, env)
  {
    hide Draw, Open, Ids, EditAt, LocateT, Grew;
    CoherentHere(cache, t, Key(t.ID(), depth, width));
    GrewAdded(t, x, child);
    GrewShows(t, EditAt(t, x, AddChild(child)), depth, width, NO_ENV, env);
  }

  lemma Parts(t: Tree, i: nat)
    requires WellFormed(t) && Settled(t) && i < |t.children|
    ensures WellFormedF(t.children) && WellFormed(t.children[i]) && Settled(t.children[i])
    ensures Ids(t.children[i]) <= IdsF(t.children) <= Ids(t)
  {
  }

  lemma ChildrenApart(t: Tree, i: nat, j: nat)
    requires WellFormed(t) && i < |t.children| && j < |t.children| && i != j
    ensures Ids(t.children[i]) !! Ids(t.children[j])
  {
    assert WellFormedF(t.children);
    hide Ids, WellFormed;
    assert Apart(t.children[if i < j then i else j], t.children[if i < j then j else i]);
  }

  /** Only the child the path goes through is changed. */
  lemma EditOneChild(t: Tree, x: string, child: Tree, i: nat, cache: Cache)
    requires Addable(t, x, child, cache) && t.ID() != x && i < |t.children| && x in Ids(t.children[i])
    ensures var u := EditAt(t, x, AddChild(child));
            && u.info == t.info && |u.children| == |t.children|
            && u.children[i] == EditAt(t.children[i], x, AddChild(child))
            && Ids(u.children[i]) == Ids(t.children[i]) + Ids(child)
            && forall j :: 0 <= j < |t.children| && j != i ==>
                 u.children[j] == t.children[j] && x !in Ids(t.children[j])
  {
    hide Draw, Open, LocateT, Settled, CoherentT, Ids, EditAt;
    EditAtBelow(t, x, AddChild(child));
    EditIds(t.children[i], x, AddChild(child));
    forall j | 0 <= j < |t.children| && j != i
      ensures x !in Ids(t.children[j]) && EditAt(t.children[j], x, AddChild(child)) == t.children[j]
    {
      ChildrenApart(t, i, j);
      EditElsewhere(t.children[j], x, AddChild(child));
    }
  }

  lemma RemembersOne(t: Tree, x: string, child: Tree, i: nat, depth: nat, width: int, cache: Cache)
    requires Addable(t, x, child, cache) && t.ID() != x && i < |t.children| && x in Ids(t.children[i])
    ensures var u := EditAt(t, x, AddChild(child));
            && |u.children| == |t.children|
            && (Remembers(cache, u, x, depth, width) <==>
                (!Open(u) && Key(u.ID(), depth, width) in cache) ||
                Remembers(cache, u.children[i], x, depth + 1, Inner(width)))
  {
    hide Open, Inner, EditAt, Ids, Addable;
    EditOneChild(t, x, child, i, cache);
    var u := EditAt(t, x, AddChild(child));
    assert u.ID() == t.ID() && x in Ids(u.children[i]);
  }

  lemma SameID(t: Tree, x: string, child: Tree)
    ensures EditAt(t, x, AddChild(child)).ID() == t.ID()
  {
  }

  lemma OnTheWay(t: Tree, x: string) returns (i: nat)
    requires x in Ids(t) && t.ID() != x
    ensures i < |t.children| && x in Ids(t.children[i])
  {
    i :| 0 <= i < |t.children| && x in Ids(t.children[i]);
  }

  /** A right cache is right for all that is drawn. */
  lemma {:induction false} CoherentFresh(t: Tree, depth: nat, width: int, env: Env, cache: Cache)
    requires WellFormed(t) && Settled(t) && CoherentT(cache, t)
    ensures Fresh(cache, t, depth, width, env)
    decreases t
  {
    hide Draw, Open, LocateT, Inner, WellFormed, Settled, CoherentT, Coherent;
    var key := Key(t.ID(), depth, width);
    if !Open(t) && key in cache {
      CoherentHere(cache, t, key);
      ClosedStable(t, depth, width, env, NO_ENV);
    } else {
      forall i | 0 <= i < |t.children|
        ensures Fresh(cache, t.children[i], depth + 1, Inner(width), env)
      {
        ChildCoherent(t, i, cache);
        CoherentFresh(t.children[i], depth + 1, Inner(width), env, cache);
      }
    }
  }

  lemma ChildCoherent(t: Tree, i: nat, cache: Cache)
    requires WellFormed(t) && Settled(t) && CoherentT(cache, t) && i < |t.children|
    ensures WellFormed(t.children[i]) && Settled(t.children[i]) && CoherentT(cache, t.children[i])
  {
    hide Draw, Open, LocateT, WellFormed, Settled, CoherentT, Coherent;
    Parts(t, i);
    CoherentBelow(cache, t);
    CoherentChild(cache, t.children, i);
  }

  /** So is one that has nothing of it. */
  lemma {:induction false} NothingFresh(t: Tree, depth: nat, width: int, env: Env, cache: Cache)
    requires forall key :: key in cache ==> key.spanID !in Ids(t)
    ensures Fresh(cache, t, depth, width, env)
    decreases t
  {
    hide Draw, Open, Inner;
    assert t.ID() in Ids(t);
    forall i | 0 <= i < |t.children|
      ensures Fresh(cache, t.children[i], depth + 1, Inner(width), env)
    {
      assert Ids(t.children[i]) <= IdsF(t.children);
      NothingFresh(t.children[i], depth + 1, Inner(width), env, cache);
    }
  }

  /** Right under x, everything is drawn right. */
  lemma AddedFresh(t: Tree, child: Tree, i: nat, depth: nat, width: int, env: Env, cache: Cache)
    requires Addable(t, t.ID(), child, cache)
    requires i < |EditAt(t, t.ID(), AddChild(child)).children|
    ensures Fresh(cache, EditAt(t, t.ID(), AddChild(child)).children[i], depth, width, env)
  {
    assert EditAt(t, t.ID(), AddChild(child)).children == t.children + [child];
    hide Draw, Open, LocateT, Ids, WellFormed, Settled, CoherentT, Fresh, EditAt;
    if i < |t.children| {
      ChildCoherent(t, i, cache);
      CoherentFresh(t.children[i], depth, width, env, cache);
    } else {
      NothingFresh(child, depth, width, env, cache);
    }
  }

  lemma AddableBelow(t: Tree, i: nat, x: string, child: Tree, cache: Cache)
    requires Addable(t, x, child, cache) && i < |t.children| && x in Ids(t.children[i])
    ensures Addable(t.children[i], x, child, cache)
  {
    hide Draw, Open, LocateT, Settled, WellFormed, CoherentT;
    Parts(t, i);
    ChildCoherent(t, i, cache);
  }

  /** The entries that drawing the tree reaches are right exactly if none of them is
      on the way to the new span's parent. */
  lemma {:induction false} FreshAdded(t: Tree, x: string, child: Tree, depth: nat, width: int, env: Env, cache: Cache)
    requires Addable(t, x, child, cache)
    ensures var u := EditAt(t, x, AddChild(child));
            Fresh(cache, u, depth, width, env) <==> !Remembers(cache, u, x, depth, width)
    decreases t
  {
    hide Draw, Open, Inner, EditAt, Ids, Settled, CoherentT, WellFormed;
    var u := EditAt(t, x, AddChild(child));
    SameID(t, x, child);
    if !Open(u) && Key(u.ID(), depth, width) in cache {
      OldShown(t, x, child, depth, width, env, cache);
    } else if t.ID() == x {
      forall i | 0 <= i < |u.children|
        ensures Fresh(cache, u.children[i], depth + 1, Inner(width), env)
      {
        AddedFresh(t, child, i, depth + 1, Inner(width), env, cache);
      }
    } else {
      var i := OnTheWay(t, x);
      EditOneChild(t, x, child, i, cache);
      AddableBelow(t, i, x, child, cache);
      FreshAdded(t.children[i], x, child, depth + 1, Inner(width), env, cache);
      forall j | 0 <= j < |u.children| && j != i
        ensures Fresh(cache, u.children[j], depth + 1, Inner(width), env)
      {
        ChildCoherent(t, j, cache);
        CoherentFresh(t.children[j], depth + 1, Inner(width), env, cache);
      }
      RemembersOne(t, x, child, i, depth, width, cache);
      hide Remembers;
    }
  }

  /** A span (with all it has below it by now) that was added anywhere in a tree whose
      cache was right, and of which nothing is cached, is on the screen if and only if
      no closed span on the way down to its parent has an entry for where it is drawn. */
  lemma ShowsExactly(t: Tree, x: string, child: Tree, depth: nat, width: int, env: Env, cache: Cache)
    requires Addable(t, x, child, cache)
    ensures var u := EditAt(t, x, AddChild(child));
            DrawCached(u, depth, width, env, cache).0 == Draw(u, depth, width, env) <==>
            !Remembers(cache, u, x, depth, width)
  {
    hide Draw, DrawCached, Fresh, Remembers, Ids, EditAt, Settled;
    AddedReady(t, x, child, cache);
    FreshAdded(t, x, child, depth, width, env, cache);
    FreshExactly(EditAt(t, x, AddChild(child)), depth, width, env, cache);
  }

  /** A forest and a span that is to be added under x, of which nothing is cached. */
  ghost predicate AddableF(ts: seq<Tree>, x: string, child: Tree, cache: Cache) {
    && WellFormedF(ts) && SettledF(ts) && Coherent(cache, ts) && x in IdsF(ts)
    && WellFormed(child) && Settled(child) && child.info.parentID == x
    && Ids(child) !! IdsF(ts) && (forall key :: key in cache ==> key.spanID !in Ids(child))
  }

  lemma AddableRoot(ts: seq<Tree>, i: nat, x: string, child: Tree, cache: Cache)
    requires AddableF(ts, x, child, cache) && i < |ts|
    ensures WellFormed(ts[i]) && Settled(ts[i]) && CoherentT(cache, ts[i])
    ensures x in Ids(ts[i]) ==> Addable(ts[i], x, child, cache)
  {
    assert Ids(ts[i]) <= IdsF(ts) && WellFormed(ts[i]) && Settled(ts[i]);
    hide Draw, Open, LocateT, Ids, IdsF, Settled, WellFormed, CoherentT, Coherent;
    CoherentChild(cache, ts, i);
  }

  /** The same for the whole screen. */
  lemma ScreenExactly(ts: seq<Tree>, x: string, child: Tree, i: nat, width: int, env: Env, cache: Cache)
    requires AddableF(ts, x, child, cache) && i < |ts| && x in Ids(ts[i])
    ensures var us := EditAtF(ts, x, AddChild(child));
            DrawRoots(us, width, env, cache).0 == DrawAll(us, 0, width, env) <==> !Remembers(cache, us[i], x, 0, width)
  {
    hide Draw, DrawAll, DrawRoots, Remembers, EditAt, Ids, Fresh, WellFormed, Settled, IdsF, Coherent;
    var us := EditAtF(ts, x, AddChild(child));
    EditKeepsWellFormedF(ts, x, AddChild(child));
    FreshScreen(us, width, env, cache);
    AddableRoot(ts, i, x, child, cache);
    FreshAdded(ts[i], x, child, 0, width, env, cache);
    forall k | 0 <= k < |us| && k != i
      ensures Fresh(cache, us[k], 0, width, env)
    {
      AddableRoot(ts, k, x, child, cache);
      ApartIds(ts[if i < k then i else k], ts[if i < k then k else i]);
      EditElsewhere(ts[k], x, AddChild(child));
      CoherentFresh(ts[k], 0, width, env, cache);
    }
  }

  // ----- A span that is never shown

  lemma {:induction false} Remembered(t: Tree, depth: nat, width: int, env: Env, cache: Cache)
    requires WellFormed(t) && Settled(t) && !Open(t) && CoherentT(cache, t)
    ensures var key, after := Key(t.ID(), depth, width), DrawCached(t, depth, width, env, cache).1;
            key in after && after[key] == Draw(t, depth, width, env)
  {
    CachedAgrees(t, depth, width, env, cache);
    hide Draw, Open, DrawRows, CoherentT, Settled, WellFormed;
  }

  /** Once a closed tree has been drawn through the cache, whatever has started and
      ended below it since, and whatever has been painted in between, is not shown as
      long as the entry stays: the old picture is. */
  lemma MissedChild(t: Tree, u: Tree, depth: nat, width: int, env: Env, later: Env, cache: Cache, between: Cache)
    requires WellFormed(t) && Settled(t) && !Open(t) && CoherentT(cache, t)
    requires !Open(u) && Grew(t, u) && t != u
    requires var key, after := Key(t.ID(), depth, width), DrawCached(t, depth, width, env, cache).1;
             key in after ==> key in between && between[key] == after[key]
    ensures DrawCached(u, depth, width, later, between).0 == Draw(t, depth, width, env)
    ensures DrawCached(u, depth, width, later, between).0 != Draw(u, depth, width, later)
  {
    Remembered(t, depth, width, env, cache);
    ClosedStable(t, depth, width, env, NO_ENV);
    ClosedStable(t, depth, width, env, later);
    hide Draw, Open, DrawRows, Order, WellFormed, CoherentT;
    assert t.ID() == u.ID();
    OldPictureShown(t, u, depth, width, later, between);
  }

  // ----- A run in which it happens

  const PARENT := SpanStarted("t", "a", "", "parent", Some(1), [])
  const PARENT_END := SpanEnded("t", "a", Some(2), TerminalComplete, "")
  const LATE := SpanStarted("t", "b", "a", "late", Some(3), [])
  const LATE_END := SpanEnded("t", "b", Some(4), TerminalComplete, "")

  function Ended(r: Record, at: Time): Tree
    requires r.SpanStarted?
  {
    Tree(StartedTree(r).info.(ended := true, endedAt := at, terminal := TerminalComplete), [])
  }

  lemma StoreOfRun(allow: bool)
    ensures var s1 := LimitRoots(Apply(EMPTY, allow, Some(PARENT)), MAX_ROOTS);
            var s2 := LimitRoots(Apply(s1, allow, Some(PARENT_END)), MAX_ROOTS);
            s2 == State([Ended(PARENT, 2)], map[])
  {
    assert IdsF([]) == {};
    var t := StartedTree(PARENT);
    assert Apply(EMPTY, allow, Some(PARENT)) == State([t], map[]);
    assert EditAtF([t], "a", EditOf(PARENT_END)) == [Ended(PARENT, 2)];
  }

  lemma OneRoot(t: Tree, x: string, e: Edit)
    ensures IdsF([t]) == Ids(t) && EditAtF([t], x, e) == [EditAt(t, x, e)]
  {
    SplitIds([t]);
    assert IdsF([]) == {};
  }

  lemma Limited(t: Tree, stale: map<string, Time>)
    ensures LimitRoots(State([t], stale), MAX_ROOTS) == State([t], stale)
  {
  }

  lemma StoreOfLate(allow: bool)
    ensures var s2 := State([Ended(PARENT, 2)], map[]);
            var s3 := LimitRoots(Apply(s2, allow, Some(LATE)), MAX_ROOTS);
            var s4 := LimitRoots(Apply(s3, allow, Some(LATE_END)), MAX_ROOTS);
            s4 == State([EditAt(Ended(PARENT, 2), "a", AddChild(Ended(LATE, 4)))], map[])
  {
    var t, late := Ended(PARENT, 2), StartedTree(LATE);
    var u := Tree(t.info, [late]);
    assert IdsF([]) == {} && Ids(t) == {"a"};
    OneRoot(t, "a", EditOf(LATE));
    assert EditAt(t, "a", EditOf(LATE)) == u;
    assert ApplyRoots([t], allow, LATE) == [u];
    Limited(u, map[]);
    OneRoot(u, "b", EditOf(LATE_END));
    OneRoot(late, "b", EditOf(LATE_END));
    assert EditAt(late, "b", EditOf(LATE_END)) == Ended(LATE, 4);
    var v := Tree(t.info, [Ended(LATE, 4)]);
    assert EditAt(u, "b", EditOf(LATE_END)) == v;
    assert ApplyRoots([u], allow, LATE_END) == [v];
    Limited(v, map[]);
    assert EditAt(t, "a", AddChild(Ended(LATE, 4))) == v;
  }

  lemma RunMore(allow: bool, msgs: seq<Message>, msg: Message, cached: bool)
    ensures TuiSpec.Run(allow, msgs + [msg], cached) == Update(TuiSpec.Run(allow, msgs, cached), allow, msg, cached)
  {
    assert (msgs + [msg])[..|msgs|] == msgs;
  }

  /** Two records and a repaint, without pause. */
  function Messages(r: Record, other: Record): seq<Message> {
    [EventMsg(Some(r), false), EventMsg(Some(other), false), RepaintMsg]
  }

  lemma RunRecords(allow: bool, msgs: seq<Message>, r: Record, other: Record, cached: bool)
    requires !TuiSpec.Run(allow, msgs, cached).paused
    ensures var m := TuiSpec.Run(allow, msgs, cached);
            var s := LimitRoots(Apply(m.store, allow, Some(r)), MAX_ROOTS);
            var m' := m.(store := LimitRoots(Apply(s, allow, Some(other)), MAX_ROOTS),
                         repaintPending := false, stickToBottom := false);
            TuiSpec.Run(allow, msgs + Messages(r, other), cached) == Repaint(m', cached)
  {
    hide TuiSpec.Run, LimitRoots, Apply, Repaint;
    RunMore(allow, msgs, EventMsg(Some(r), false), cached);
    RunMore(allow, msgs + [EventMsg(Some(r), false)], EventMsg(Some(other), false), cached);
    RunMore(allow, msgs + [EventMsg(Some(r), false)] + [EventMsg(Some(other), false)], RepaintMsg, cached);
    assert msgs + Messages(r, other) ==
           msgs + [EventMsg(Some(r), false)] + [EventMsg(Some(other), false)] + [RepaintMsg];
  }

  lemma RunSized(allow: bool, cached: bool)
    ensures TuiSpec.Run(allow, [WindowSizeMsg(80)], cached) == TuiSpec.START.(ready := true, width := 80)
  {
    hide DrawRoots, DrawAll, TuiSpec.Run;
    assert [] + [WindowSizeMsg(80)] == [WindowSizeMsg(80)];
    RunMore(allow, [], WindowSizeMsg(80), cached);
    NothingRun(allow, cached);
    NoRoots([], PaintWidth(80), EnvOf(TuiSpec.START), map[]);
  }

  lemma NothingRun(allow: bool, cached: bool)
    ensures TuiSpec.Run(allow, [], cached) == TuiSpec.START
  {
  }

  lemma RunToLate(allow: bool, first: seq<Message>, cached: bool)
    requires first == [WindowSizeMsg(80)] + Messages(PARENT, PARENT_END)
    ensures var m := TuiSpec.Run(allow, first, cached);
            && m.store == State([Ended(PARENT, 2)], map[])
            && m.ready && m.width == 80 && !m.paused && m.spin == "" && m.now == EPOCH
            && (cached ==> m.cache == DrawRoots([Ended(PARENT, 2)], PaintWidth(80), Env("", EPOCH, map[]), map[]).1)
  {
    hide TuiSpec.Run, Draw, DrawRoots, DrawAll, LimitRoots, Apply, Ended;
    RunSized(allow, cached);
    StoreOfRun(allow);
    RunRecords(allow, [WindowSizeMsg(80)], PARENT, PARENT_END, cached);
  }

  lemma ScreenOfLate(allow: bool, cached: bool)
    ensures var msgs := [WindowSizeMsg(80)] + Messages(PARENT, PARENT_END) + Messages(LATE, LATE_END);
            var width, env := PaintWidth(80), Env("", EPOCH, map[]);
            var u := EditAt(Ended(PARENT, 2), "a", AddChild(Ended(LATE, 4)));
            TuiSpec.Run(allow, msgs, cached).screen ==
            if cached then DrawRoots([u], width, env, DrawRoots([Ended(PARENT, 2)], width, env, map[]).1).0
            else DrawAll([u], 0, width, env)
  {
    hide TuiSpec.Run, Draw, DrawRoots, DrawAll, EditAt, Ended, PaintWidth, LimitRoots, Apply, Messages;
    var first := [WindowSizeMsg(80)] + Messages(PARENT, PARENT_END);
    RunToLate(allow, first, cached);
    StoreOfLate(allow);
    RunRecords(allow, first, LATE, LATE_END, cached);
  }

  lemma LateMissed(width: int, env: Env)
    ensures var t := Ended(PARENT, 2);
            var u := EditAt(t, "a", AddChild(Ended(LATE, 4)));
            var after := DrawRoots([t], width, env, map[]).1;
            DrawRoots([u], width, env, after).0 != DrawAll([u], 0, width, env)
  {
    var t, child := Ended(PARENT, 2), Ended(LATE, 4);
    var u := EditAt(t, "a", AddChild(child));
    assert t.ID() == "a" && t.ID() in Ids(t);
    assert u == Tree(t.info, [child]);
    assert WellFormed(t) && Settled(t) && !Open(t) && !Open(child);
    assert !Open(u);
    EmptyCoherentT(t);
    hide Draw, DrawCached, EditAt, Ended, Ids, Grew;
    GrewAdded(t, "a", child);
    var after := DrawCached(t, 0, width, env, map[]).1;
    MissedChild(t, u, 0, width, env, env, map[], after);
    OneDrawn(t, width, env, map[]);
    OneDrawn(u, width, env, after);
  }

  lemma EmptyCoherentT(t: Tree)
    ensures CoherentT(map[], t)
  {
  }

  lemma OneDrawn(t: Tree, width: int, env: Env, cache: Cache)
    ensures var (doc, after) := DrawCached(t, 0, width, env, cache); DrawRoots([t], width, env, cache) == ([doc], after)
    ensures DrawAll([t], 0, width, env) == [Draw(t, 0, width, env)]
  {
    hide DrawCached, Draw;
    assert [t][..0] == [];
    assert DrawRoots([], width, env, cache) == ([], cache);
    var drawn := DrawCached(t, 0, width, env, cache);
    assert DrawRoots([t], width, env, cache) == ([] + [drawn.0], drawn.1);
    assert [] + [drawn.0] == [drawn.0];
  }

  /** The viewer with its cache, shown a span that starts and ends, and then another
      that starts and ends below it, does not show what the one without it does. */
  lemma CacheIsVisible(allow: bool)
    ensures exists msgs :: Shown(TuiSpec.Run(allow, msgs, true)) != Shown(TuiSpec.Run(allow, msgs, false))
  {
    hide TuiSpec.Run, Draw, DrawRoots, DrawAll, EditAt, Ended, PaintWidth;
    var msgs := [WindowSizeMsg(80)] + Messages(PARENT, PARENT_END) + Messages(LATE, LATE_END);
    ScreenOfLate(allow, true);
    ScreenOfLate(allow, false);
    LateMissed(PaintWidth(80), Env("", EPOCH, map[]));
    assert Shown(TuiSpec.Run(allow, msgs, true)).screen != Shown(TuiSpec.Run(allow, msgs, false)).screen;
  }
}
