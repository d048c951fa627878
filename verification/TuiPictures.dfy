/** What the entries of the terminal viewer's cache are pictures of, in every run,
    and so exactly when the screen is right. */
module TuiPictures {
  import opened Records
  import opened Forest
  import opened Locate
  import opened Pruning
  import opened Timeline
  import opened StoreSpec
  import opened WebView
  import opened TuiRender
  import opened TuiSpec
  import opened TuiExact
  import opened TuiFresh

  // ----- Trees that have only gained children

  /** u is s with more children, in any number of places; nothing else is different. */
  ghost predicate Grew(s: Tree, u: Tree)
    decreases s
  {
    && s.info == u.info && |s.children| <= |u.children|
    && forall i :: 0 <= i < |s.children| ==> Grew(s.children[i], u.children[i])
  }

  lemma {:induction false} GrewSame(u: Tree)
    ensures Grew(u, u)
  {
    forall i | 0 <= i < |u.children| {
      GrewSame(u.children[i]);
    }
  }

  lemma {:induction false} GrewTransitive(s: Tree, t: Tree, u: Tree)
    requires Grew(s, t) && Grew(t, u)
    ensures Grew(s, u)
    decreases s
  {
    forall i | 0 <= i < |s.children| {
      GrewTransitive(s.children[i], t.children[i], u.children[i]);
    }
  }

  /** A tree whose spans have all ended can only gain children. */
  lemma {:induction false} GrewEdit(s: Tree, u: Tree, x: string, e: Edit)
    requires Grew(s, u) && !Open(s)
    ensures Grew(s, EditAt(u, x, e))
    decreases s
  {
    forall i | 0 <= i < |s.children|
      ensures Grew(s.children[i], EditAt(u, x, e).children[i])
    {
      if u.ID() != x {
        GrewEdit(s.children[i], u.children[i], x, e);
      }
    }
  }

  /** The tree has the same ids exactly if it has gained nothing. */
  lemma {:induction false} GrewIds(s: Tree, u: Tree)
    requires Grew(s, u) && WellFormed(u)
    ensures Ids(s) <= Ids(u) && (Ids(s) == Ids(u) <==> s == u)
    decreases s
  {
    GrewIdsBelow(s, u);
    if Ids(s) == Ids(u) {
      GrewAll(s, u);
    }
  }

  lemma {:induction false} GrewIdsBelow(s: Tree, u: Tree)
    requires Grew(s, u)
    ensures Ids(s) <= Ids(u) && IdsF(s.children) <= IdsF(u.children)
    decreases s
  {
    forall i | 0 <= i < |s.children|
      ensures Ids(s.children[i]) <= IdsF(u.children)
    {
      GrewIdsBelow(s.children[i], u.children[i]);
      assert Ids(u.children[i]) <= IdsF(u.children);
    }
  }

  lemma {:induction false} GrewAll(s: Tree, u: Tree)
    requires Grew(s, u) && WellFormed(u) && Ids(s) == Ids(u)
    ensures s == u
    decreases s
  {
    assert WellFormedF(u.children);
    GrewIdsBelow(s, u);
    forall i | 0 <= i < |u.children|
      ensures i < |s.children| && s.children[i] == u.children[i]
    {
      GrewChild(s, u, i);
      GrewAll(s.children[i], u.children[i]);
    }
    if |s.children| < |u.children| {
      GrewChild(s, u, |s.children|);
    }
  }

  /** With the same ids, every child was there, with the same ids below it. */
  lemma {:induction false} GrewChild(s: Tree, u: Tree, i: nat)
    requires Grew(s, u) && WellFormed(u) && Ids(s) == Ids(u) && i < |u.children|
    ensures i < |s.children| && Ids(s.children[i]) == Ids(u.children[i]) && WellFormed(u.children[i])
  {
    assert WellFormedF(u.children);
    forall y | y in Ids(u.children[i])
      ensures i < |s.children| && y in Ids(s.children[i])
    {
      assert y in IdsF(u.children) && y != u.ID();
      assert y in IdsF(s.children);
      var j :| 0 <= j < |s.children| && y in Ids(s.children[j]);
      GrewIdsBelow(s.children[j], u.children[j]);
      assert j != i ==> Apart(u.children[if i < j then i else j], u.children[if i < j then j else i]);
    }
    assert u.children[i].ID() in Ids(u.children[i]);
    GrewIdsBelow(s.children[i], u.children[i]);
  }

  /** Trees with different numbers of children draw differently, at all times. */
  lemma CountShows(s: Tree, u: Tree, depth: nat, width: int, env: Env, later: Env)
    requires s.info == u.info && |s.children| != |u.children|
    ensures Draw(s, depth, width, env) != Draw(u, depth, width, later)
  {
    var docs := DrawAll(s.children, depth + 1, Inner(width), env);
    var others := DrawAll(u.children, depth + 1, Inner(width), later);
    TimelineRefs(EventTimes(s.info), StartTimes(s.children));
    TimelineRefs(EventTimes(u.info), StartTimes(u.children));
    hide Timeline.Timeline;
    RowsShow(s.info, depth, width, env, later, Rows(s.info, Order(s), docs), Rows(u.info, Order(u), others));
  }

  /** So does a tree with one child that draws differently. */
  lemma ChildDiffers(t: Tree, u: Tree, i: nat, depth: nat, width: int, env: Env, later: Env)
    requires u.info == t.info && |u.children| == |t.children| && StartTimes(u.children) == StartTimes(t.children)
    requires i < |t.children|
    requires Draw(t.children[i], depth + 1, Inner(width), env) != Draw(u.children[i], depth + 1, Inner(width), later)
    ensures Draw(t, depth, width, env) != Draw(u, depth, width, later)
  {
    var docs := DrawAll(t.children, depth + 1, Inner(width), env);
    var others := DrawAll(u.children, depth + 1, Inner(width), later);
    assert docs[i] != others[i];
    OrderComplete(t, i);
    assert Order(u) == Order(t);
    var k :| 0 <= k < |Order(t)| && Order(t)[k].ref == ChildRef(i);
    assert Rows(t.info, Order(t), docs)[k] == SpanRow(docs[i]);
    assert Rows(t.info, Order(t), others)[k] == SpanRow(others[i]);
    RowsShow(t.info, depth, width, env, later, Rows(t.info, Order(t), docs), Rows(t.info, Order(t), others));
  }

  /** A tree that has grown draws differently from what it was, at all times. */
  lemma {:induction false} GrewShows(s: Tree, u: Tree, depth: nat, width: int, env: Env, later: Env)
    requires Grew(s, u) && s != u
    ensures Draw(s, depth, width, env) != Draw(u, depth, width, later)
    decreases s
  {
    if |s.children| != |u.children| {
      CountShows(s, u, depth, width, env, later);
    } else {
      assert s.children != u.children;
      var i :| 0 <= i < |s.children| && s.children[i] != u.children[i];
      GrewShows(s.children[i], u.children[i], depth + 1, Inner(width), env, later);
      assert StartTimes(u.children) == StartTimes(s.children) by {
        assert forall j :: 0 <= j < |s.children| ==> Grew(s.children[j], u.children[j]);
      }
      hide Draw;
      ChildDiffers(s, u, i, depth, width, env, later);
    }
  }

  // ----- Entries as pictures

  /** For each entry the tree it is a picture of. */
  type Pictures = map<Key, Tree>

  /** The entry is a picture of a closed tree. */
  ghost predicate Picture(doc: Doc, key: Key, s: Tree) {
    s.ID() == key.spanID && !Open(s) && Settled(s) && doc == Draw(s, key.depth, key.width, NO_ENV)
  }

  /** Every entry is a picture, and if its span is tracked, that has only gained
      children since. */
  ghost predicate Pictured(cache: Cache, pics: Pictures, ts: seq<Tree>) {
    && pics.Keys == cache.Keys
    && forall key :: key in cache ==>
         && Picture(cache[key], key, pics[key])
         && (Find(ts, key.spanID).Some? ==> Grew(pics[key], Find(ts, key.spanID).value.tree))
  }

  ghost predicate PicturedT(cache: Cache, pics: Pictures, t: Tree) {
    && pics.Keys == cache.Keys
    && forall key :: key in cache ==>
         && Picture(cache[key], key, pics[key])
         && (LocateT(t, key.spanID).Some? ==> Grew(pics[key], LocateT(t, key.spanID).value.tree))
  }

  /** Each picture that drawing the tree reaches is one of the tree there now: it
      lacks none of the spans. */
  ghost predicate Kept(pics: Pictures, u: Tree, depth: nat, width: int) {
    var key := Key(u.ID(), depth, width);
    if !Open(u) && key in pics then Ids(pics[key]) == Ids(u)
    else forall i :: 0 <= i < |u.children| ==> Kept(pics, u.children[i], depth + 1, Inner(width))
  }

  lemma PicturedHere(cache: Cache, pics: Pictures, u: Tree, key: Key)
    requires PicturedT(cache, pics, u) && key in cache && key.spanID == u.ID()
    ensures key in pics && Picture(cache[key], key, pics[key]) && Grew(pics[key], u)
  {
    hide Picture, Grew;
    assert LocateT(u, key.spanID) == Some(Hit(u, []));
  }

  lemma PicturedBelow(cache: Cache, pics: Pictures, u: Tree, i: nat)
    requires WellFormed(u) && PicturedT(cache, pics, u) && i < |u.children|
    ensures WellFormed(u.children[i]) && PicturedT(cache, pics, u.children[i])
  {
    hide Picture, Grew, LocateT;
    ChildWellFormed(u, i);
    forall key | key in cache && LocateT(u.children[i], key.spanID).Some?
      ensures LocateT(u, key.spanID).Some? &&
              LocateT(u, key.spanID).value.tree == LocateT(u.children[i], key.spanID).value.tree
    {
      LocateChild(u, i, key.spanID);
    }
  }

  lemma LocateChild(u: Tree, i: nat, x: string)
    requires WellFormed(u) && i < |u.children| && LocateT(u.children[i], x).Some?
    ensures LocateT(u, x).Some? && LocateT(u, x).value.tree == LocateT(u.children[i], x).value.tree
  {
    LocateFinds(u.children[i], x);
    FindWithin(u.children, i, x);
    assert Ids(u.children[i]) <= IdsF(u.children);
  }

  /** A reached entry shows what is there exactly if its picture is of that. */
  lemma EntryDecides(cache: Cache, pics: Pictures, u: Tree, key: Key, env: Env)
    requires WellFormed(u) && Settled(u) && !Open(u) && PicturedT(cache, pics, u) && key in cache &&
             key.spanID == u.ID()
    ensures cache[key] == Draw(u, key.depth, key.width, env) <==> Ids(pics[key]) == Ids(u)
  {
    hide Draw, Open, LocateT, Grew, Ids, WellFormed, Settled, PicturedT;
    PicturedHere(cache, pics, u, key);
    GrewIds(pics[key], u);
    if pics[key] == u {
      ClosedStable(u, key.depth, key.width, env, NO_ENV);
    } else {
      GrewShows(pics[key], u, key.depth, key.width, NO_ENV, env);
    }
  }

  lemma {:induction false} KeptFresh(cache: Cache, pics: Pictures, u: Tree, depth: nat, width: int, env: Env)
    requires WellFormed(u) && Settled(u) && PicturedT(cache, pics, u)
    ensures Fresh(cache, u, depth, width, env) <==> Kept(pics, u, depth, width)
    decreases u
  {
    hide Draw, Open, LocateT, Grew, Ids, WellFormed, Inner;
    var key := Key(u.ID(), depth, width);
    assert key in cache <==> key in pics;
    if !Open(u) && key in cache {
      EntryDecides(cache, pics, u, key, env);
    } else {
      forall i | 0 <= i < |u.children|
        ensures Fresh(cache, u.children[i], depth + 1, Inner(width), env) <==>
                Kept(pics, u.children[i], depth + 1, Inner(width))
      {
        PicturedBelow(cache, pics, u, i);
        KeptFresh(cache, pics, u.children[i], depth + 1, Inner(width), env);
      }
    }
  }

  /** Main result on pictures: the screen is right if and only if each picture the
      drawing reaches has all the spans there are now. */
  lemma KeptExactly(cache: Cache, pics: Pictures, us: seq<Tree>, width: int, env: Env)
    requires WellFormedF(us) && SettledF(us) && Pictured(cache, pics, us)
    ensures DrawRoots(us, width, env, cache).0 == DrawAll(us, 0, width, env) <==>
            forall i :: 0 <= i < |us| ==> Kept(pics, us[i], 0, width)
  {
    hide Draw, DrawAll, DrawRoots, LocateT, Grew, Ids, WellFormed, Settled, Fresh, Kept;
    FreshScreen(us, width, env, cache);
    forall i | 0 <= i < |us|
      ensures Fresh(cache, us[i], 0, width, env) <==> Kept(pics, us[i], 0, width)
    {
      PicturedRoot(cache, pics, us, i);
      KeptFresh(cache, pics, us[i], 0, width, env);
    }
  }

  lemma PicturedRoot(cache: Cache, pics: Pictures, us: seq<Tree>, i: nat)
    requires WellFormedF(us) && Pictured(cache, pics, us) && i < |us|
    ensures PicturedT(cache, pics, us[i])
  {
    hide Picture, Grew, LocateT, Find, Ids;
    forall key | key in cache && LocateT(us[i], key.spanID).Some?
      ensures Find(us, key.spanID) == LocateT(us[i], key.spanID)
    {
      LocateFinds(us[i], key.spanID);
      FindWithin(us, i, key.spanID);
    }
  }

  // ----- Painting takes pictures

  lemma {:induction false} GrewClosed(s: Tree, u: Tree)
    requires Grew(s, u) && !Open(u)
    ensures !Open(s)
    decreases s
  {
    forall i | 0 <= i < |s.children| {
      GrewClosed(s.children[i], u.children[i]);
    }
  }

  lemma PicturedChildren(cache: Cache, pics: Pictures, u: Tree)
    requires WellFormed(u) && PicturedT(cache, pics, u)
    ensures WellFormedF(u.children) && Pictured(cache, pics, u.children)
  {
    hide Picture, Grew, WellFormedF;
    assert WellFormedF(u.children);
    forall key | key in cache && Find(u.children, key.spanID).Some?
      ensures LocateT(u, key.spanID).Some? &&
              LocateT(u, key.spanID).value.tree == Find(u.children, key.spanID).value.tree
    {
      FindFinds(u.children, key.spanID);
    }
  }

  /** The children's entries, and those of the span itself, are all there are below it. */
  lemma PicturedAgain(cache: Cache, pics: Pictures, u: Tree)
    requires WellFormed(u) && Pictured(cache, pics, u.children)
    requires forall key :: key in cache && key.spanID == u.ID() ==> Grew(pics[key], u)
    ensures PicturedT(cache, pics, u)
  {
    hide Picture, Grew;
    forall key | key in cache && LocateT(u, key.spanID).Some?
      ensures Grew(pics[key], LocateT(u, key.spanID).value.tree)
    {
      if key.spanID != u.ID() {
        assert LocateT(u, key.spanID).value.tree == Find(u.children, key.spanID).value.tree;
      }
    }
  }

  ghost predicate More(pics: Pictures, after: Pictures) {
    forall key :: key in pics ==> key in after && after[key] == pics[key]
  }

  /** A tree of the forest has been drawn: the other trees' entries are as they were. */
  lemma PicturedNext(ts: seq<Tree>, i: nat, cache: Cache, pics: Pictures, between: Cache, after: Pictures)
    requires WellFormedF(ts) && i < |ts| && Pictured(cache, pics, ts)
    requires PicturedT(between, after, ts[i]) && GrownBy(cache, between, Ids(ts[i])) && More(pics, after)
    ensures Pictured(between, after, ts)
  {
    hide Picture, Grew, LocateT, Find, Ids;
    forall key | key in between && Find(ts, key.spanID).Some?
      ensures Grew(after[key], Find(ts, key.spanID).value.tree)
    {
      if key.spanID in Ids(ts[i]) {
        FindWithin(ts, i, key.spanID);
        LocateFinds(ts[i], key.spanID);
      }
    }
  }

  /** Trees of which each has grown from its picture. */
  ghost predicate GrewAllF(seen: seq<Tree>, ts: seq<Tree>) {
    |seen| == |ts| && forall i :: 0 <= i < |ts| ==> Grew(seen[i], ts[i]) && Settled(seen[i])
  }

  lemma {:induction false} SettledGrew(ts: seq<Tree>)
    requires SettledF(ts)
    ensures GrewAllF(ts, ts)
  {
    forall i | 0 <= i < |ts| {
      GrewSame(ts[i]);
    }
  }

  /** No two entries refer to the same child. */
  ghost predicate Once(items: seq<Item>) {
    forall k, l :: 0 <= k < l < |items| ==> items[k].ref != items[l].ref
  }

  lemma RowsChanged(info: Info, items: seq<Item>, seen: seq<Tree>, i: nat, s: Tree, depth: nat, width: int, env: Env)
    requires i < |seen| && InRange(items, |info.events|, |seen|)
    requires forall k :: 0 <= k < |items| ==> items[k].ref != ChildRef(i)
    ensures Rows(info, items, DrawAll(seen[i := s], depth, width, env)) ==
            Rows(info, items, DrawAll(seen, depth, width, env))
  {
    hide Draw;
    assert forall k :: 0 <= k < |items| ==> items[k] in items;
  }

  lemma RowsLast(info: Info, items: seq<Item>, last: Item, docs: seq<Doc>)
    requires InRange(items + [last], |info.events|, |docs|)
    ensures last in items + [last] && InRange(items, |info.events|, |docs|)
    ensures Rows(info, items + [last], docs) == Rows(info, items, docs) + [RowOf(info, last, docs)]
  {
    assert (items + [last])[|items|] == last;
    assert forall it :: it in items ==> it in items + [last];
  }

  lemma {:induction false} RowsPictures(t: Tree, items: seq<Item>, depth: nat, width: int, env: Env, cache: Cache,
                                        pics: Pictures)
    returns (seen: seq<Tree>, after: Pictures)
    requires WellFormed(t) && Settled(t) && Pictured(cache, pics, t.children)
    requires InRange(items, |t.info.events|, |t.children|) && Once(items)
    ensures var (rows, between) := DrawRows(t, items, depth, width, env, cache);
            && GrewAllF(seen, t.children)
            && rows == Rows(t.info, items, DrawAll(seen, depth + 1, Inner(width), env))
            && Pictured(between, after, t.children) && More(pics, after)
    decreases t, 0, |items|
  {
    hide Draw, DrawAll, DrawCached, Rows, Grew, Picture, Pictured, PicturedT, Ids, IdsF, Inner, Find, LocateT, More,
      Settled, Once;
    if items == [] {
      seen, after := t.children, pics;
      NoPictures(t, depth, width, env, cache, pics);
    } else {
      var front, last := items[..|items| - 1], items[|items| - 1];
      assert items == front + [last] && last in items;
      OnceFront(front, last);
      seen, after := RowsPictures(t, front, depth, width, env, cache, pics);
      var between := DrawRows(t, front, depth, width, env, cache).1;
      if last.ref.ChildRef? {
        var i := last.ref.i;
        ChildReady(t, i, between, after);
        var s, more := DrawPictures(t.children[i], depth + 1, Inner(width), env, between, after);
        var later := DrawCached(t.children[i], depth + 1, Inner(width), env, between).1;
        Grows(t.children[i], depth + 1, Inner(width), env, between);
        PicturedNext(t.children, i, between, after, later, more);
        RowsChanged(t.info, front, seen, i, s, depth + 1, Inner(width), env);
        MoreMore(pics, after, more);
        seen, after := seen[i := s], more;
      }
      RowsLast(t.info, front, last, DrawAll(seen, depth + 1, Inner(width), env));
      DrawAllAt(seen, depth + 1, Inner(width), env);
    }
  }

  lemma OnceFront(front: seq<Item>, last: Item)
    requires Once(front + [last])
    ensures Once(front) && forall k :: 0 <= k < |front| ==> front[k].ref != last.ref
  {
    assert forall k :: 0 <= k < |front| ==> (front + [last])[k] == front[k];
    assert (front + [last])[|front|] == last;
  }

  lemma MoreMore(pics: Pictures, between: Pictures, after: Pictures)
    requires More(pics, between) && More(between, after)
    ensures More(pics, after)
  {
  }

  lemma ChildReady(t: Tree, i: nat, cache: Cache, pics: Pictures)
    requires WellFormed(t) && Settled(t) && Pictured(cache, pics, t.children) && i < |t.children|
    ensures WellFormedF(t.children) && WellFormed(t.children[i]) && Settled(t.children[i])
    ensures PicturedT(cache, pics, t.children[i])
  {
    assert WellFormedF(t.children);
    hide Picture, Grew, LocateT, Find, Ids;
    PicturedRoot(cache, pics, t.children, i);
  }

  lemma NoPictures(t: Tree, depth: nat, width: int, env: Env, cache: Cache, pics: Pictures)
    requires Settled(t) && Pictured(cache, pics, t.children)
    ensures GrewAllF(t.children, t.children) && More(pics, pics)
    ensures DrawRows(t, [], depth, width, env, cache) == ([], cache)
    ensures Rows(t.info, [], DrawAll(t.children, depth + 1, Inner(width), env)) == []
  {
    SettledGrew(t.children);
    hide Pictured;
  }

  lemma EntryDraws(doc: Doc, key: Key, s: Tree, env: Env)
    requires Picture(doc, key, s)
    ensures Settled(s) && doc == Draw(s, key.depth, key.width, env)
  {
    ClosedStable(s, key.depth, key.width, env, NO_ENV);
  }

  lemma MoreSame(pics: Pictures)
    ensures More(pics, pics)
  {
  }

  lemma MoreWith(pics: Pictures, after: Pictures, key: Key, s: Tree)
    requires More(pics, after) && key !in pics
    ensures More(pics, after[key := s])
  {
  }

  lemma KeysSame(cache: Cache, pics: Pictures, t: Tree)
    requires PicturedT(cache, pics, t)
    ensures pics.Keys == cache.Keys
  {
  }

  lemma OrderAllOnce(t: Tree)
    ensures Once(Order(t))
  {
    forall k, l | 0 <= k < l < |Order(t)|
      ensures Order(t)[k].ref != Order(t)[l].ref
    {
      OrderOnce(t, k, l);
    }
  }

  /** The tree with its children as they were seen. */
  lemma SeenDraws(t: Tree, children: seq<Tree>, depth: nat, width: int, env: Env)
    requires Settled(t) && GrewAllF(children, t.children)
    ensures var seen := Tree(t.info, children);
            && Grew(seen, t) && Settled(seen)
            && Draw(seen, depth, width, env) ==
               Frame(t.info, depth, width, env, Rows(t.info, Order(t), DrawAll(children, depth + 1, Inner(width), env)))
  {
    var seen := Tree(t.info, children);
    assert StartTimes(children) == StartTimes(t.children) by {
      assert forall i :: 0 <= i < |children| ==> Grew(children[i], t.children[i]);
    }
    assert Order(seen) == Order(t);
    hide Frame, Rows, DrawAll;
  }

  /** A span's own entries are not touched by drawing what is below it. */
  lemma OwnEntries(cache: Cache, pics: Pictures, t: Tree, between: Cache, after: Pictures, added: set<string>)
    requires WellFormed(t) && PicturedT(cache, pics, t) && Pictured(between, after, t.children)
    requires GrownBy(cache, between, added) && added <= IdsF(t.children) && More(pics, after)
    ensures forall key :: key in between && key.spanID == t.ID() ==> Grew(after[key], t)
  {
    hide Picture, Grew, Find, WellFormedF, IdsF;
    assert LocateT(t, t.ID()) == Some(Hit(t, []));
  }

  lemma TakesPicture(t: Tree, seen: Tree, doc: Doc, key: Key, env: Env)
    requires !Open(t) && Grew(seen, t) && Settled(seen)
    requires key.spanID == t.ID() && doc == Draw(seen, key.depth, key.width, env)
    ensures Picture(doc, key, seen)
  {
    GrewClosed(seen, t);
    ClosedStable(seen, key.depth, key.width, env, NO_ENV);
    hide Draw, Open, Settled;
  }

  lemma NewPicture(cache: Cache, pics: Pictures, t: Tree, seen: Tree, doc: Doc, key: Key)
    requires PicturedT(cache, pics, t) && Grew(seen, t) && key.spanID == t.ID() && Picture(doc, key, seen)
    ensures PicturedT(cache[key := doc], pics[key := seen], t)
  {
    hide Picture, Draw, Open, Settled, Grew;
    assert LocateT(t, t.ID()) == Some(Hit(t, []));
    hide LocateT;
  }

  /** Drawing a tree through the cache draws what the tree has grown from, and leaves
      pictures only. */
  lemma {:induction false} DrawPictures(t: Tree, depth: nat, width: int, env: Env, cache: Cache, pics: Pictures)
    returns (seen: Tree, after: Pictures)
    requires WellFormed(t) && Settled(t) && PicturedT(cache, pics, t)
    ensures var (doc, between) := DrawCached(t, depth, width, env, cache);
            && Grew(seen, t) && Settled(seen) && doc == Draw(seen, depth, width, env)
            && PicturedT(between, after, t) && More(pics, after)
    decreases t, 1
  {
    hide Draw, DrawAll, DrawRows, Rows, Order, Picture, Pictured, PicturedT, Ids, IdsF, Inner, Find, LocateT, Settled,
      Open, Grew, GrewAllF, More;
    var key := Key(t.ID(), depth, width);
    if !Open(t) && key in cache {
      PicturedHere(cache, pics, t, key);
      seen, after := pics[key], pics;
      EntryDraws(cache[key], key, seen, env);
      MoreSame(pics);
    } else {
      PicturedChildren(cache, pics, t);
      OrderAllOnce(t);
      var children;
      children, after := RowsPictures(t, Order(t), depth, width, env, cache, pics);
      seen := Tree(t.info, children);
      SeenDraws(t, children, depth, width, env);
      RowsGrow(t, Order(t), depth, width, env, cache);
      ReferredBelow(t.children, Order(t));
      var between := DrawRows(t, Order(t), depth, width, env, cache).1;
      OwnEntries(cache, pics, t, between, after, Referred(t.children, Order(t)));
      PicturedAgain(between, after, t);
      if !Open(t) {
        var doc := Frame(t.info, depth, width, env, DrawRows(t, Order(t), depth, width, env, cache).0);
        TakesPicture(t, seen, doc, key, env);
        NewPicture(between, after, t, seen, doc, key);
        KeysSame(cache, pics, t);
        MoreWith(pics, after, key, seen);
        after := after[key := seen];
      }
    }
  }

  // ----- What the messages do to the pictures

  lemma {:induction false} RootsPictures(ts: seq<Tree>, n: nat, width: int, env: Env, cache: Cache, pics: Pictures)
    returns (after: Pictures)
    requires WellFormedF(ts) && SettledF(ts) && Pictured(cache, pics, ts) && n <= |ts|
    ensures Pictured(DrawRoots(ts[..n], width, env, cache).1, after, ts)
  {
    hide Draw, DrawCached, DrawRoots, Grew, Picture, Pictured, PicturedT, Ids, Find, LocateT, More, Settled, WellFormed;
    if n == 0 {
      assert ts[..0] == [];
      NoRoots(ts[..0], width, env, cache);
      after := pics;
    } else {
      var before := RootsPictures(ts, n - 1, width, env, cache, pics);
      DrawRootsNext(ts, n, width, env, cache);
      var between := DrawRoots(ts[..n - 1], width, env, cache).1;
      PicturedRoot(between, before, ts, n - 1);
      var seen;
      seen, after := DrawPictures(ts[n - 1], 0, width, env, between, before);
      Grows(ts[n - 1], 0, width, env, between);
      PicturedNext(ts, n - 1, between, before, DrawCached(ts[n - 1], 0, width, env, between).1, after);
    }
  }

  /** Other spans' records leave the pictures as they are, or let what they show grow. */
  lemma PicturedApply(cache: Cache, pics: Pictures, ts: seq<Tree>, allow: bool, r: Record)
    requires WellFormedF(ts) && Pictured(cache, pics, ts)
    requires r.SpanStarted? && AcceptsStart(ts, allow, r) ==> forall key :: key in cache ==> key.spanID != r.spanID
    ensures Pictured(cache, pics, ApplyRoots(ts, allow, r))
  {
    hide Picture, Grew, Find, ApplyRoots;
    forall key | key in cache && Find(ApplyRoots(ts, allow, r), key.spanID).Some?
      ensures Grew(pics[key], Find(ApplyRoots(ts, allow, r), key.spanID).value.tree)
    {
      PictureClosed(cache[key], key, pics[key]);
      GrewApply(pics[key], ts, allow, r, key.spanID);
    }
  }

  lemma PictureClosed(doc: Doc, key: Key, s: Tree)
    requires Picture(doc, key, s)
    ensures !Open(s)
  {
  }

  lemma GrewApply(s: Tree, ts: seq<Tree>, allow: bool, r: Record, y: string)
    requires WellFormedF(ts) && !Open(s) && Find(ApplyRoots(ts, allow, r), y).Some?
    requires r.SpanStarted? && AcceptsStart(ts, allow, r) ==> y != r.spanID
    requires Find(ts, y).Some? ==> Grew(s, Find(ts, y).value.tree)
    ensures Grew(s, Find(ApplyRoots(ts, allow, r), y).value.tree)
  {
    hide Grew, Open, Find, WellFormedF, IdsF;
    ApplyIds(ts, allow, r);
    FindFinds(ts, y);
    FindFinds(ApplyRoots(ts, allow, r), y);
    if ApplyRoots(ts, allow, r) != ts {
      NewEdit(ts, r);
      if r.SpanStarted? && r.parentID !in IdsF(ts) {
        FindPrefix(ts, [StartedTree(r)], y);
      } else {
        FindAfterEdit(ts, Target(r), EditOf(r), y);
        GrewEdit(s, Find(ts, y).value.tree, Target(r), EditOf(r));
      }
    }
  }

  lemma PicturedSuffix(cache: Cache, pics: Pictures, ts: seq<Tree>, k: nat)
    requires WellFormedF(ts) && Pictured(cache, pics, ts) && k <= |ts|
    ensures Pictured(cache, pics, ts[k..])
  {
    hide Picture, Grew, Find, IdsF;
    SuffixWellFormed(ts, k);
    forall key | key in cache && Find(ts[k..], key.spanID).Some?
      ensures Find(ts[k..], key.spanID) == Find(ts, key.spanID)
    {
      FindFinds(ts[k..], key.spanID);
      SuffixFind(ts, k, key.spanID);
    }
  }

  // ----- Runs

  /** No accepted start has an id that was tracked before, and no span ends at the
      zero time. */
  predicate Regular(m: TuiState, allow: bool, seen: set<string>, msg: Message) {
    msg.EventMsg? && msg.record.Some? && !m.paused ==>
      match msg.record.value
      case SpanStarted(_, id, _, _, _, _) => AcceptsStart(m.store.roots, allow, msg.record.value) ==> id !in seen
      case SpanEnded(_, _, at, _, _) => TimeValue(at) != ZERO_TIME
      case _ => true
  }

  predicate AllRegular(allow: bool, msgs: seq<Message>) {
    forall i :: 0 <= i < |msgs| ==>
      Regular(TuiSpec.Run(allow, msgs[..i], true), allow, StartedIds(allow, msgs[..i]), msgs[i])
  }

  /** What every regular run keeps. */
  ghost predicate Tracked(m: TuiState, pics: Pictures, seen: set<string>) {
    && HealthyStore(m.store, seen)
    && CacheWithin(m.cache, seen)
    && Pictured(m.cache, pics, m.store.roots)
  }

  lemma TakenTracked(m: TuiState, pics: Pictures, allow: bool, seen: set<string>, r: Record)
    requires Tracked(m, pics, seen)
    requires r.SpanEnded? ==> TimeValue(r.endedAt) != ZERO_TIME
    requires r.SpanStarted? && AcceptsStart(m.store.roots, allow, r) ==> r.spanID !in seen
    ensures var s := LimitRoots(Apply(m.store, allow, Some(r)), MAX_ROOTS);
            Pictured(m.cache, pics, s.roots) &&
            HealthyStore(s, seen + if r.SpanStarted? && AcceptsStart(m.store.roots, allow, r) then {r.spanID} else {})
  {
    hide Pictured, IdsF, SettledF, StoreSpec.Valid, AcceptsStart, ApplyRoots, LimitRoots, Coherent, WellFormedF;
    ValidWellFormed(m.store);
    StepKeepsValid(m.store, allow, ApplyOp(Some(r)));
    ApplyIds(m.store.roots, allow, r);
    SettledApply(m.store.roots, allow, r);
    PicturedApply(m.cache, pics, m.store.roots, allow, r);
    var s := Apply(m.store, allow, Some(r));
    ValidWellFormed(s);
    EmptyCoherent(s.roots, seen);
    LimitHealthy(s, map[], MAX_ROOTS);
    LimitIsSuffix(s, MAX_ROOTS);
    PicturedSuffix(m.cache, pics, s.roots, if |s.roots| <= MAX_ROOTS then 0 else |s.roots| - MAX_ROOTS);
  }

  lemma NoPicturesYet(ts: seq<Tree>)
    ensures Pictured(map[], map[], ts)
  {
  }

  lemma ChangeTracked(m: TuiState, pics: Pictures, allow: bool, seen: set<string>, msg: Message)
    returns (after: Pictures)
    requires Tracked(m, pics, seen) && Regular(m, allow, seen, msg)
    ensures Tracked(Change(m, allow, msg), after, seen + Started(m, allow, msg))
  {
    hide Pictured, HealthyStore, ClearOpen, StoreAfter, LimitRoots, Apply, AcceptsStart;
    after := pics;
    if msg.EventMsg? && !m.paused && msg.record.Some? {
      TakenTracked(m, pics, allow, seen, msg.record.value);
    } else {
      NothingStarted(m, allow, msg);
      assert seen + {} == seen;
      match msg
      case PauseKey =>
        PrunedHealthy(m.store, seen);
        if !m.paused {
          after := map[];
          NoPicturesYet(ClearOpen(m.store).roots);
        }
      case StateMsg(conn, at) => MarkedHealthy(m.store, conn, at, seen);
      case WindowSizeMsg(width) =>
        if m.width != width {
          after := map[];
          NoPicturesYet(m.store.roots);
        }
      case ClearKey =>
        after := map[];
        NoPicturesYet([]);
        EmptyHealthy(seen);
      case _ =>
    }
  }

  lemma RepaintTracked(m: TuiState, pics: Pictures, seen: set<string>) returns (after: Pictures)
    requires Tracked(m, pics, seen)
    ensures Tracked(Repaint(m, true), after, seen)
  {
    hide Pictured, StoreSpec.Valid, Settled, WellFormedF, DrawRoots, Draw, IdsF;
    after := pics;
    if m.ready {
      ValidWellFormed(m.store);
      var roots, width, env := m.store.roots, PaintWidth(m.width), EnvOf(m);
      after := RootsPictures(roots, |roots|, width, env, m.cache, pics);
      assert roots[..|roots|] == roots;
      DrawnWithin(roots, width, env, m.cache, seen);
    }
  }

  lemma {:induction false} DrawnWithin(ts: seq<Tree>, width: int, env: Env, cache: Cache, seen: set<string>)
    requires WellFormedF(ts) && IdsF(ts) <= seen && CacheWithin(cache, seen)
    ensures CacheWithin(DrawRoots(ts, width, env, cache).1, seen)
  {
    hide DrawCached, WellFormed, Ids, IdsF;
    if ts != [] {
      var front, last := ts[..|ts| - 1], ts[|ts| - 1];
      IdsAppend(front, [last]);
      assert ts == front + [last];
      SplitIds([last]);
      DrawnWithin(front, width, env, cache, seen);
      Grows(last, 0, width, env, DrawRoots(front, width, env, cache).1);
    }
  }

  /** In every regular run the cache holds pictures only, each of a tree that has, if
      it is still tracked, only gained children since. */
  lemma {:induction false} RunPictures(allow: bool, msgs: seq<Message>) returns (pics: Pictures)
    requires AllRegular(allow, msgs)
    ensures Tracked(TuiSpec.Run(allow, msgs, true), pics, StartedIds(allow, msgs))
  {
    hide Tracked, Change, Repaint, Paints, Started, Regular;
    if msgs == [] {
      pics := map[];
      NothingTracked();
    } else {
      var front, last := msgs[..|msgs| - 1], msgs[|msgs| - 1];
      assert forall i :: 0 <= i < |front| ==> front[..i] == msgs[..i];
      pics := RunPictures(allow, front);
      var m := TuiSpec.Run(allow, front, true);
      var seen := StartedIds(allow, front) + Started(m, allow, last);
      pics := ChangeTracked(m, pics, allow, StartedIds(allow, front), last);
      if Paints(m, last) {
        pics := RepaintTracked(Change(m, allow, last), pics, seen);
      }
    }
  }

  lemma NothingTracked()
    ensures Tracked(TuiSpec.START, map[], {})
  {
    EmptyHealthy({});
    NoPicturesYet([]);
  }

  // ----- Exactly when the screen is right

  /** Apart from the cache and what is on the screen. */
  function Unseen(m: TuiState): TuiState {
    m.(cache := map[], screen := [])
  }

  lemma ChangeUnseen(m: TuiState, plain: TuiState, allow: bool, msg: Message)
    requires Unseen(m) == Unseen(plain)
    ensures Unseen(Change(m, allow, msg)) == Unseen(Change(plain, allow, msg)) && Paints(m, msg) == Paints(plain, msg)
  {
    hide HasOpen, LimitRoots, Apply, ClearOpen, StoreAfter, ConnAfter;
  }

  /** With or without its cache, the viewer differs in nothing else, ever. */
  lemma {:induction false} RunUnseen(allow: bool, msgs: seq<Message>)
    ensures Unseen(TuiSpec.Run(allow, msgs, true)) == Unseen(TuiSpec.Run(allow, msgs, false))
  {
    hide Change, Paints, DrawRoots, DrawAll;
    if msgs != [] {
      var front := msgs[..|msgs| - 1];
      RunUnseen(allow, front);
      ChangeUnseen(TuiSpec.Run(allow, front, true), TuiSpec.Run(allow, front, false), allow, msgs[|msgs| - 1]);
    }
  }

  /** The screen is right after a paint exactly if each picture that is reached shows
      every span there is. */
  lemma PaintDecides(allow: bool, msgs: seq<Message>, msg: Message, pics: Pictures)
    requires var m := TuiSpec.Run(allow, msgs, true);
             var c := Change(m, allow, msg);
             && Paints(m, msg) && c.ready
             && WellFormedF(c.store.roots) && SettledF(c.store.roots) && Pictured(c.cache, pics, c.store.roots)
    ensures var c := Change(TuiSpec.Run(allow, msgs, true), allow, msg);
            TuiSpec.Run(allow, msgs + [msg], true).screen == TuiSpec.Run(allow, msgs + [msg], false).screen <==>
            forall i :: 0 <= i < |c.store.roots| ==> Kept(pics, c.store.roots[i], 0, PaintWidth(c.width))
  {
    hide Change, Paints, DrawRoots, DrawAll, Pictured, Kept, WellFormedF, SettledF;
    var m, plain := TuiSpec.Run(allow, msgs, true), TuiSpec.Run(allow, msgs, false);
    assert (msgs + [msg])[..|msgs|] == msgs;
    RunUnseen(allow, msgs);
    ChangeUnseen(m, plain, allow, msg);
    var c := Change(m, allow, msg);
    KeptExactly(c.cache, pics, c.store.roots, PaintWidth(c.width), EnvOf(c));
  }

  /** Main result on the terminal viewer's screen. In every run with no id tracked
      twice and no end at the zero time, whatever starts below ended spans: at every
      paint the entries are pictures of trees that have only gained children since,
      and the viewer shows what the one without a cache shows if and only if each
      picture that the drawing reaches lacks none of the spans. */
  lemma PaintExactly(allow: bool, msgs: seq<Message>, msg: Message)
    requires AllRegular(allow, msgs + [msg])
    requires Paints(TuiSpec.Run(allow, msgs, true), msg) && Change(TuiSpec.Run(allow, msgs, true), allow, msg).ready
    ensures var c := Change(TuiSpec.Run(allow, msgs, true), allow, msg);
            exists pics :: Pictured(c.cache, pics, c.store.roots) &&
              (TuiSpec.Run(allow, msgs + [msg], true).screen == TuiSpec.Run(allow, msgs + [msg], false).screen <==>
               forall i :: 0 <= i < |c.store.roots| ==> Kept(pics, c.store.roots[i], 0, PaintWidth(c.width)))
  {
    hide TuiSpec.Run, Change, Paints, Pictured, Kept, WellFormedF, SettledF, Regular;
    RegularFront(allow, msgs, msg);
    var before := RunPictures(allow, msgs);
    var m, seen := TuiSpec.Run(allow, msgs, true), StartedIds(allow, msgs);
    var pics := ChangeTracked(m, before, allow, seen, msg);
    ValidWellFormed(Change(m, allow, msg).store);
    PaintDecides(allow, msgs, msg, pics);
  }

  lemma RegularFront(allow: bool, msgs: seq<Message>, msg: Message)
    requires AllRegular(allow, msgs + [msg])
    ensures AllRegular(allow, msgs)
    ensures Regular(TuiSpec.Run(allow, msgs, true), allow, StartedIds(allow, msgs), msg)
  {
    hide TuiSpec.Run, StartedIds, Regular;
    var all := msgs + [msg];
    assert all[..|msgs|] == msgs && all[|msgs|] == msg;
    assert forall i :: 0 <= i < |msgs| ==> all[..i] == msgs[..i] && all[i] == msgs[i];
  }

  /** There is no choice in what an entry is a picture of. */
  lemma {:induction false} SamePicture(s: Tree, t: Tree, u: Tree, depth: nat, width: int, env: Env)
    requires Grew(s, u) && Grew(t, u) && Draw(s, depth, width, env) == Draw(t, depth, width, env)
    ensures s == t
    decreases s
  {
    if |s.children| != |t.children| {
      CountShows(s, t, depth, width, env, env);
      assert false;
    }
    forall i | 0 <= i < |s.children|
      ensures s.children[i] == t.children[i]
    {
      assert StartTimes(t.children) == StartTimes(s.children) by {
        assert forall j :: 0 <= j < |s.children| ==>
                 Grew(s.children[j], u.children[j]) && Grew(t.children[j], u.children[j]);
      }
      if Draw(s.children[i], depth + 1, Inner(width), env) != Draw(t.children[i], depth + 1, Inner(width), env) {
        ChildDiffers(s, t, i, depth, width, env, env);
        assert false;
      }
      SamePicture(s.children[i], t.children[i], u.children[i], depth + 1, Inner(width), env);
    }
  }

  lemma PicturesUnique(cache: Cache, pics: Pictures, other: Pictures, ts: seq<Tree>, key: Key)
    requires Pictured(cache, pics, ts) && Pictured(cache, other, ts) && key in cache && Find(ts, key.spanID).Some?
    ensures pics[key] == other[key]
  {
    hide Draw, Find, Grew, Open, Settled;
    SamePicture(pics[key], other[key], Find(ts, key.spanID).value.tree, key.depth, key.width, NO_ENV);
  }

  // ----- A span that is never shown

  /** The message does not empty the cache. */
  predicate KeepsCache(m: TuiState, msg: Message) {
    && !msg.ClearKey? && (msg.PauseKey? ==> m.paused) && (msg.WindowSizeMsg? ==> msg.newWidth == m.width)
  }

  lemma EntryStays(m: TuiState, allow: bool, msg: Message, key: Key)
    requires StoreSpec.Valid(Change(m, allow, msg).store) && KeepsCache(m, msg) && key in m.cache
    ensures key in Update(m, allow, msg, true).cache && Update(m, allow, msg, true).cache[key] == m.cache[key]
  {
    hide Change, DrawRoots, Paints, WellFormedF, StoreSpec.Valid, KeepsCache;
    var c := Change(m, allow, msg);
    ChangeKeeps(m, allow, msg);
    ValidWellFormed(c.store);
    EntriesStay(c.store.roots, PaintWidth(c.width), EnvOf(c), c.cache);
  }

  lemma ChangeKeeps(m: TuiState, allow: bool, msg: Message)
    requires KeepsCache(m, msg)
    ensures Change(m, allow, msg).cache == m.cache
  {
    hide LimitRoots, Apply, StoreAfter, ConnAfter;
  }

  lemma {:induction false} EntriesStay(ts: seq<Tree>, width: int, env: Env, cache: Cache)
    requires WellFormedF(ts)
    ensures forall key :: key in cache ==> key in DrawRoots(ts, width, env, cache).1 &&
                                           DrawRoots(ts, width, env, cache).1[key] == cache[key]
  {
    hide DrawCached, WellFormed, Ids;
    if ts != [] {
      var front, last := ts[..|ts| - 1], ts[|ts| - 1];
      EntriesStay(front, width, env, cache);
      Grows(last, 0, width, env, DrawRoots(front, width, env, cache).1);
    }
  }

  /** Once taken, a picture stays through any run that does not pause, clear or resize. */
  lemma {:induction false} PictureStays(allow: bool, msgs: seq<Message>, more: seq<Message>, key: Key)
    requires key in TuiSpec.Run(allow, msgs, true).cache
    requires forall i :: 0 <= i < |more| ==> KeepsCache(TuiSpec.Run(allow, msgs + more[..i], true), more[i])
    ensures key in TuiSpec.Run(allow, msgs + more, true).cache
    ensures TuiSpec.Run(allow, msgs + more, true).cache[key] == TuiSpec.Run(allow, msgs, true).cache[key]
    decreases |more|
  {
    hide TuiSpec.Run, Update, Change, KeepsCache, StoreSpec.Valid;
    if more == [] {
      assert msgs + more == msgs;
    } else {
      var front, last := more[..|more| - 1], more[|more| - 1];
      assert forall i :: 0 <= i < |front| ==> front[..i] == more[..i];
      PictureStays(allow, msgs, front, key);
      RunLast(allow, msgs, more);
      ChangeValid(allow, msgs + front, last);
      EntryStays(TuiSpec.Run(allow, msgs + front, true), allow, last, key);
    }
  }

  lemma RunLast(allow: bool, msgs: seq<Message>, more: seq<Message>)
    requires more != []
    ensures TuiSpec.Run(allow, msgs + more, true) ==
            Update(TuiSpec.Run(allow, msgs + more[..|more| - 1], true), allow, more[|more| - 1], true)
  {
    hide Update;
    assert (msgs + more)[..|msgs + more| - 1] == msgs + more[..|more| - 1];
  }

  lemma ChangeValid(allow: bool, msgs: seq<Message>, msg: Message)
    ensures StoreSpec.Valid(Change(TuiSpec.Run(allow, msgs, true), allow, msg).store)
  {
    TuiSpec.RunInvariant(allow, msgs, true);
    hide TuiSpec.Run, HasOpen, StoreSpec.Valid;
    ChangeBounded(TuiSpec.Run(allow, msgs, true), allow, msg);
  }

  /** As long as its entry stays, a closed tree that has grown since its picture was
      taken is drawn as it was, and not as it is. */
  lemma OldPictureShown(s: Tree, u: Tree, depth: nat, width: int, env: Env, cache: Cache)
    requires !Open(u) && Grew(s, u) && s != u
    requires Key(u.ID(), depth, width) in cache
    requires Picture(cache[Key(u.ID(), depth, width)], Key(u.ID(), depth, width), s)
    ensures DrawCached(u, depth, width, env, cache).0 == Draw(s, depth, width, env)
    ensures DrawCached(u, depth, width, env, cache).0 != Draw(u, depth, width, env)
  {
    hide Draw, Open, DrawRows, Order, Grew, Picture;
    EntryDraws(cache[Key(u.ID(), depth, width)], Key(u.ID(), depth, width), s, env);
    GrewShows(s, u, depth, width, env, env);
  }
}
