/** What the cached viewer draws, for any cache: exactly when it is what is there. */
module TuiFresh {
  import opened Forest
  import opened Pruning
  import opened Timeline
  import opened WebView
  import opened TuiRender
  import opened TuiExact

  // ----- What drawing adds to the cache

  /** The ids below the entries. */
  function Referred(ts: seq<Tree>, items: seq<Item>): set<string>
    requires forall it :: it in items && it.ref.ChildRef? ==> it.ref.i < |ts|
  {
    if items == [] then {}
    else
      var last := items[|items| - 1];
      Referred(ts, items[..|items| - 1]) + if last.ref.ChildRef? then Ids(ts[last.ref.i]) else {}
  }

  lemma {:induction false} ReferredBelow(ts: seq<Tree>, items: seq<Item>)
    requires forall it :: it in items && it.ref.ChildRef? ==> it.ref.i < |ts|
    ensures Referred(ts, items) <= IdsF(ts)
  {
    if items != [] {
      ReferredBelow(ts, items[..|items| - 1]);
      assert items[|items| - 1] in items;
      hide Ids;
    }
  }

  /** Drawing a tree keeps what is cached and adds entries of its own spans alone,
      whatever the cache holds. */
  lemma {:induction false} Grows(t: Tree, depth: nat, width: int, env: Env, cache: Cache)
    requires WellFormed(t)
    ensures GrownBy(cache, DrawCached(t, depth, width, env, cache).1, Ids(t))
    decreases t, 2
  {
    hide Open, DrawRows, Inner, WellFormedF, IdsF, Referred;
    RowsGrow(t, Order(t), depth, width, env, cache);
    ReferredBelow(t.children, Order(t));
  }

  lemma {:induction false} RowsGrow(t: Tree, items: seq<Item>, depth: nat, width: int, env: Env, cache: Cache)
    requires WellFormed(t) && InRange(items, |t.info.events|, |t.children|)
    ensures GrownBy(cache, DrawRows(t, items, depth, width, env, cache).1, Referred(t.children, items))
    decreases t, 1, |items|
  {
    hide DrawCached, IdsF, Inner, Ids;
    if items != [] {
      var front, last := items[..|items| - 1], items[|items| - 1];
      RowsGrow(t, front, depth, width, env, cache);
      assert last in items;
      if last.ref.ChildRef? {
        var child := t.children[last.ref.i];
        assert WellFormed(child);
        Grows(child, depth + 1, Inner(width), env, DrawRows(t, front, depth, width, env, cache).1);
      }
    }
  }

  /** The caches hold the same for the ids. */
  ghost predicate SameOn(cache: Cache, between: Cache, ids: set<string>) {
    forall key: Key :: key.spanID in ids ==>
      (key in cache <==> key in between) && (key in cache ==> cache[key] == between[key])
  }

  lemma GrownElsewhere(cache: Cache, between: Cache, added: set<string>, ids: set<string>)
    requires GrownBy(cache, between, added) && added !! ids
    ensures SameOn(cache, between, ids)
  {
  }

  // ----- Each child has one entry

  lemma OrderOnce(t: Tree, k: nat, l: nat)
    requires k < l < |Order(t)|
    ensures Order(t)[k].ref != Order(t)[l].ref
  {
    var events, starts := EventTimes(t.info), StartTimes(t.children);
    TimelineStable(events, starts);
    TimelineRefs(events, starts);
    var items := Order(t);
    assert items[k] in items && items[l] in items;
    assert Before(|events|, items[k], items[l]);
    hide Timeline.Timeline;
  }

  lemma {:induction false} ReferredApart(ts: seq<Tree>, items: seq<Item>, i: nat)
    requires forall it :: it in items && it.ref.ChildRef? ==> it.ref.i < |ts|
    requires i < |ts| && WellFormedF(ts)
    requires forall k :: 0 <= k < |items| ==> items[k].ref != ChildRef(i)
    ensures Referred(ts, items) !! Ids(ts[i])
  {
    if items != [] {
      var last := items[|items| - 1];
      ReferredApart(ts, items[..|items| - 1], i);
      assert last in items;
      if last.ref.ChildRef? {
        assert Apart(ts[if i < last.ref.i then i else last.ref.i], ts[if i < last.ref.i then last.ref.i else i]);
      }
      hide Ids, WellFormed;
    }
  }

  /** When a child is drawn, its part of the cache is as it was. */
  lemma BeforeChild(t: Tree, k: nat, depth: nat, width: int, env: Env, cache: Cache)
    requires WellFormed(t) && k < |Order(t)| && Order(t)[k].ref.ChildRef?
    ensures InRange(Order(t)[..k], |t.info.events|, |t.children|)
    ensures SameOn(cache, DrawRows(t, Order(t)[..k], depth, width, env, cache).1, Ids(t.children[Order(t)[k].ref.i]))
  {
    var items, i := Order(t)[..k], Order(t)[k].ref.i;
    assert Order(t)[k] in Order(t);
    forall l | 0 <= l < k
      ensures items[l].ref != ChildRef(i)
    {
      OrderOnce(t, l, k);
    }
    hide Order, DrawRows, Ids;
    RowsGrow(t, items, depth, width, env, cache);
    ReferredApart(t.children, items, i);
    GrownElsewhere(cache, DrawRows(t, items, depth, width, env, cache).1, Referred(t.children, items),
                   Ids(t.children[i]));
  }

  /** The row of each entry. */
  lemma {:induction false} RowAt(t: Tree, items: seq<Item>, k: nat, depth: nat, width: int, env: Env, cache: Cache)
    requires InRange(items, |t.info.events|, |t.children|) && k < |items|
    ensures InRange(items[..k], |t.info.events|, |t.children|) && items[k] in items
    ensures var rows := DrawRows(t, items, depth, width, env, cache).0;
            |rows| == |items| &&
            rows[k] ==
            match items[k].ref
            case EventRef(i) => EventRow(LineOf(t.info, i))
            case ChildRef(i) =>
              SpanRow(DrawCached(t.children[i], depth + 1, Inner(width), env,
                                 DrawRows(t, items[..k], depth, width, env, cache).1).0)
    decreases |items|
  {
    hide DrawCached, Inner;
    var front := items[..|items| - 1];
    if k < |front| {
      RowAt(t, front, k, depth, width, env, cache);
      assert front[..k] == items[..k];
    } else if front != [] {
      RowAt(t, front, 0, depth, width, env, cache);
    }
  }

  // ----- Exactly when a tree is drawn right

  lemma FrameExactly(info: Info, depth: nat, width: int, env: Env, rows: seq<Row>, others: seq<Row>)
    ensures Frame(info, depth, width, env, rows) == Frame(info, depth, width, env, others) <==> rows == others
  {
    if rows != others {
      RowsShow(info, depth, width, env, env, rows, others);
    }
  }

  /** A tree the cache has no entry for is drawn right exactly if its rows are. */
  lemma RowsDecide(u: Tree, depth: nat, width: int, env: Env, cache: Cache)
    requires Open(u) || Key(u.ID(), depth, width) !in cache
    ensures DrawCached(u, depth, width, env, cache).0 == Draw(u, depth, width, env) <==>
            DrawRows(u, Order(u), depth, width, env, cache).0 ==
            Rows(u.info, Order(u), DrawAll(u.children, depth + 1, Inner(width), env))
  {
    hide DrawRows, DrawAll, Order, Open, Inner, Frame;
    FrameExactly(u.info, depth, width, env, DrawRows(u, Order(u), depth, width, env, cache).0,
                 Rows(u.info, Order(u), DrawAll(u.children, depth + 1, Inner(width), env)));
  }

  /** Every entry that drawing the tree reaches shows what is there. */
  ghost predicate Fresh(cache: Cache, u: Tree, depth: nat, width: int, env: Env) {
    var key := Key(u.ID(), depth, width);
    if !Open(u) && key in cache then cache[key] == Draw(u, depth, width, env)
    else forall i :: 0 <= i < |u.children| ==> Fresh(cache, u.children[i], depth + 1, Inner(width), env)
  }

  lemma {:induction false} FreshSame(cache: Cache, between: Cache, u: Tree, depth: nat, width: int, env: Env)
    requires SameOn(cache, between, Ids(u))
    ensures Fresh(cache, u, depth, width, env) <==> Fresh(between, u, depth, width, env)
  {
    hide Open, Inner, Draw;
    assert u.ID() in Ids(u);
    forall i | 0 <= i < |u.children|
      ensures Fresh(cache, u.children[i], depth + 1, Inner(width), env) <==>
            Fresh(between, u.children[i], depth + 1, Inner(width), env)
    {
      assert Ids(u.children[i]) <= IdsF(u.children);
      FreshSame(cache, between, u.children[i], depth + 1, Inner(width), env);
    }
  }

  lemma {:induction false} FreshRow(u: Tree, k: nat, depth: nat, width: int, env: Env, cache: Cache)
    requires WellFormed(u) && k < |Order(u)|
    ensures var rows := DrawRows(u, Order(u), depth, width, env, cache).0;
            var plain := Rows(u.info, Order(u), DrawAll(u.children, depth + 1, Inner(width), env));
            && |rows| == |plain| == |Order(u)| && Order(u)[k] in Order(u)
            && (rows[k] == plain[k] <==>
                (Order(u)[k].ref.ChildRef? ==>
                   Fresh(cache, u.children[Order(u)[k].ref.i], depth + 1, Inner(width), env)))
    decreases u, 0
  {
    hide Draw, DrawCached, DrawRows, Order, Open, Fresh, Inner, SameOn, Ids, IdsF, WellFormedF;
    RowAt(u, Order(u), k, depth, width, env, cache);
    DrawAllAt(u.children, depth + 1, Inner(width), env);
    if Order(u)[k].ref.ChildRef? {
      var child := u.children[Order(u)[k].ref.i];
      var between := DrawRows(u, Order(u)[..k], depth, width, env, cache).1;
      BeforeChild(u, k, depth, width, env, cache);
      ChildWellFormed(u, Order(u)[k].ref.i);
      FreshExactly(child, depth + 1, Inner(width), env, between);
      FreshSame(cache, between, child, depth + 1, Inner(width), env);
    }
  }

  lemma ChildWellFormed(u: Tree, i: nat)
    requires WellFormed(u) && i < |u.children|
    ensures WellFormed(u.children[i])
  {
    assert WellFormedF(u.children);
  }

  lemma {:induction false} FreshRows(u: Tree, depth: nat, width: int, env: Env, cache: Cache)
    requires WellFormed(u)
    ensures DrawRows(u, Order(u), depth, width, env, cache).0 ==
            Rows(u.info, Order(u), DrawAll(u.children, depth + 1, Inner(width), env)) <==>
            forall i :: 0 <= i < |u.children| ==> Fresh(cache, u.children[i], depth + 1, Inner(width), env)
    decreases u, 1
  {
    hide Draw, DrawAll, DrawRows, Rows, Order, Open, Fresh, Inner, Ids, WellFormed;
    var rows := DrawRows(u, Order(u), depth, width, env, cache).0;
    var plain := Rows(u.info, Order(u), DrawAll(u.children, depth + 1, Inner(width), env));
    forall k | 0 <= k < |Order(u)|
      ensures |rows| == |plain| == |Order(u)| && Order(u)[k] in Order(u)
      ensures rows[k] == plain[k] <==>
              (Order(u)[k].ref.ChildRef? ==>
                 Fresh(cache, u.children[Order(u)[k].ref.i], depth + 1, Inner(width), env))
    {
      FreshRow(u, k, depth, width, env, cache);
    }
    if |Order(u)| == 0 {
      NoRows(u, depth, width, env, cache);
    } else {
      FreshRow(u, 0, depth, width, env, cache);
    }
    if rows == plain {
      forall i | 0 <= i < |u.children|
        ensures Fresh(cache, u.children[i], depth + 1, Inner(width), env)
      {
        OrderComplete(u, i);
        var k :| 0 <= k < |Order(u)| && Order(u)[k].ref == ChildRef(i);
        assert rows[k] == plain[k];
      }
    }
    if forall i :: 0 <= i < |u.children| ==> Fresh(cache, u.children[i], depth + 1, Inner(width), env) {
      assert forall k :: 0 <= k < |Order(u)| ==> rows[k] == plain[k];
    }
  }

  lemma NoRows(u: Tree, depth: nat, width: int, env: Env, cache: Cache)
    requires |Order(u)| == 0
    ensures DrawRows(u, Order(u), depth, width, env, cache).0 ==
            Rows(u.info, Order(u), DrawAll(u.children, depth + 1, Inner(width), env))
  {
    hide Order, DrawAll;
  }

  /** Main result on the cache: whatever it holds, a tree is drawn through it as it
      is if and only if every entry that drawing it reaches shows what is there. */
  lemma {:induction false} FreshExactly(u: Tree, depth: nat, width: int, env: Env, cache: Cache)
    requires WellFormed(u)
    ensures DrawCached(u, depth, width, env, cache).0 == Draw(u, depth, width, env) <==>
            Fresh(cache, u, depth, width, env)
    decreases u, 2
  {
    hide Draw, DrawAll, DrawRows, Rows, Order, Open, Inner, Ids, WellFormed;
    if Open(u) || Key(u.ID(), depth, width) !in cache {
      RowsDecide(u, depth, width, env, cache);
      FreshRows(u, depth, width, env, cache);
    }
  }

  // ----- On the whole screen

  lemma {:induction false} RootAt(ts: seq<Tree>, k: nat, width: int, env: Env, cache: Cache)
    requires k < |ts|
    ensures var docs := DrawRoots(ts, width, env, cache).0;
            |docs| == |ts| &&
            docs[k] == DrawCached(ts[k], 0, width, env, DrawRoots(ts[..k], width, env, cache).1).0
    decreases |ts|
  {
    hide DrawCached;
    var front := ts[..|ts| - 1];
    if k < |front| {
      RootAt(front, k, width, env, cache);
      assert front[..k] == ts[..k];
    } else if front != [] {
      RootAt(front, 0, width, env, cache);
    }
  }

  lemma ApartIds(a: Tree, b: Tree)
    requires Apart(a, b)
    ensures Ids(a) !! Ids(b)
  {
  }

  lemma {:induction false} RootsGrow(ts: seq<Tree>, k: nat, i: nat, width: int, env: Env, cache: Cache)
    requires WellFormedF(ts) && k <= i < |ts|
    ensures SameOn(cache, DrawRoots(ts[..k], width, env, cache).1, Ids(ts[i]))
  {
    if k > 0 {
      RootsGrow(ts, k - 1, i, width, env, cache);
      hide DrawCached, DrawRoots, Ids, WellFormed, Apart, SameOn, GrownBy;
      DrawRootsNext(ts, k, width, env, cache);
      assert Apart(ts[k - 1], ts[i]);
      ApartIds(ts[k - 1], ts[i]);
      var between := DrawRoots(ts[..k - 1], width, env, cache).1;
      Grows(ts[k - 1], 0, width, env, between);
      var after := DrawCached(ts[k - 1], 0, width, env, between).1;
      GrownElsewhere(between, after, Ids(ts[k - 1]), Ids(ts[i]));
      SameTransitive(cache, between, after, Ids(ts[i]));
    } else {
      assert ts[..0] == [];
    }
  }

  lemma SameTransitive(cache: Cache, between: Cache, after: Cache, ids: set<string>)
    requires SameOn(cache, between, ids) && SameOn(between, after, ids)
    ensures SameOn(cache, after, ids)
  {
  }

  /** And so is the whole screen. */
  lemma {:induction false} FreshScreen(us: seq<Tree>, width: int, env: Env, cache: Cache)
    requires WellFormedF(us)
    ensures DrawRoots(us, width, env, cache).0 == DrawAll(us, 0, width, env) <==>
            forall i :: 0 <= i < |us| ==> Fresh(cache, us[i], 0, width, env)
  {
    hide Draw, DrawRoots, DrawCached, Fresh, WellFormed, Ids, SameOn;
    forall k | 0 <= k < |us|
      ensures |DrawRoots(us, width, env, cache).0| == |us|
      ensures DrawRoots(us, width, env, cache).0[k] == DrawAll(us, 0, width, env)[k] <==>
            Fresh(cache, us[k], 0, width, env)
    {
      RootAt(us, k, width, env, cache);
      RootsGrow(us, k, k, width, env, cache);
      var between := DrawRoots(us[..k], width, env, cache).1;
      FreshExactly(us[k], 0, width, env, between);
      FreshSame(cache, between, us[k], 0, width, env);
    }
    if us == [] {
      NoRoots(us, width, env, cache);
    } else {
      RootAt(us, 0, width, env, cache);
    }
  }
}
