/** How far the render cache can be trusted: exactly when closed trees draw the
    same at all times, and exactly which starts leave it coherent. */
module TuiExact {
  import opened Records
  import opened Forest
  import opened Locate
  import opened Pruning
  import opened Timeline
  import opened StoreSpec
  import opened WebView
  import opened TuiRender
  import opened TuiSpec

  lemma GroupInjective(rows: seq<Row>, others: seq<Row>)
    requires Group(rows) == Group(others)
    ensures rows == others
  {
    GroupFlattens(rows);
    GroupFlattens(others);
  }

  /** Documents of the same span with different rows are different. */
  lemma RowsShow(info: Info, depth: nat, width: int, env: Env, other: Env, rows: seq<Row>, others: seq<Row>)
    requires rows != others
    ensures Frame(info, depth, width, env, rows) != Frame(info, depth, width, other, others)
  {
    if Group(rows) == Group(others) {
      GroupInjective(rows, others);
    }
  }

  /** A child that draws differently makes its parent draw differently. */
  lemma {:induction false} ChildShows(t: Tree, i: nat, depth: nat, width: int, env: Env, other: Env)
    requires i < |t.children|
    requires Draw(t.children[i], depth + 1, Inner(width), env) != Draw(t.children[i], depth + 1, Inner(width), other)
    ensures Draw(t, depth, width, env) != Draw(t, depth, width, other)
  {
    var docs := DrawAll(t.children, depth + 1, Inner(width), env);
    var others := DrawAll(t.children, depth + 1, Inner(width), other);
    assert docs[i] != others[i];
    OrderComplete(t, i);
    var k :| 0 <= k < |Order(t)| && Order(t)[k].ref == ChildRef(i);
    assert Rows(t.info, Order(t), docs)[k] == SpanRow(docs[i]);
    assert Rows(t.info, Order(t), others)[k] == SpanRow(others[i]);
    RowsShow(t.info, depth, width, env, other, Rows(t.info, Order(t), docs), Rows(t.info, Order(t), others));
  }

  lemma {:induction false} UnsettledVaries(t: Tree, depth: nat, width: int) returns (env: Env, other: Env)
    requires !Open(t) && !Settled(t)
    ensures Draw(t, depth, width, env) != Draw(t, depth, width, other)
    decreases t
  {
    if !SettledInfo(t.info) {
      env, other := Env("", t.info.startedAt, map[]), Env("", t.info.startedAt + 1000000, map[]);
      assert TimingOf(t.info, env) == Some(0) && TimingOf(t.info, other) == Some(1000000);
    } else {
      var i :| 0 <= i < |t.children| && !Settled(t.children[i]);
      env, other := UnsettledVaries(t.children[i], depth + 1, Inner(width));
      ChildShows(t, i, depth, width, env, other);
    }
  }

  /** A closed tree draws the same whatever the clock, the spinner and the stale
      marks exactly if none of its timed spans ended at the zero time. */
  lemma ClosedStableExactly(t: Tree, depth: nat, width: int)
    requires !Open(t)
    ensures Settled(t) <==>
            forall env, other :: Draw(t, depth, width, env) == Draw(t, depth, width, other)
  {
    if Settled(t) {
      forall env, other
        ensures Draw(t, depth, width, env) == Draw(t, depth, width, other)
      {
        ClosedStable(t, depth, width, env, other);
      }
    } else {
      var env, other := UnsettledVaries(t, depth, width);
    }
  }

  /** Starting a span opens every tree its parent is in. */
  lemma {:induction false} StartOpens(u: Tree, x: string, child: Tree)
    requires x in Ids(u) && Open(child)
    ensures Open(EditAt(u, x, AddChild(child)))
  {
    if u.ID() == x {
      assert (u.children + [child])[|u.children|] == child;
    } else {
      var i :| 0 <= i < |u.children| && x in Ids(u.children[i]);
      StartOpens(u.children[i], x, child);
      assert EditAtF(u.children, x, AddChild(child))[i] == EditAt(u.children[i], x, AddChild(child));
    }
  }

  /** No cached span is the one that starts, nor at or above its parent. */
  ghost predicate Untouched(cache: Cache, ts: seq<Tree>, r: Record)
    requires r.SpanStarted?
  {
    forall key :: key in cache ==>
      key.spanID != r.spanID &&
      (Find(ts, key.spanID).Some? ==> r.parentID !in Ids(Find(ts, key.spanID).value.tree))
  }

  /** An accepted start leaves a coherent cache coherent exactly if it touches no
      cached span. */
  lemma {:induction false} StartCoherentExactly(ts: seq<Tree>, allow: bool, r: Record, cache: Cache)
    requires WellFormedF(ts) && Coherent(cache, ts) && r.SpanStarted? && AcceptsStart(ts, allow, r)
    ensures Coherent(cache, ApplyRoots(ts, allow, r)) <==> Untouched(cache, ts, r)
  {
    var us := ApplyRoots(ts, allow, r);
    ApplyIds(ts, allow, r);
    forall key | key in cache && key.spanID in IdsF(us)
      ensures Find(us, key.spanID).Some?
      ensures Current(cache, key, Find(us, key.spanID).value.tree) <==>
              key.spanID != r.spanID &&
              (Find(ts, key.spanID).Some? ==> r.parentID !in Ids(Find(ts, key.spanID).value.tree))
    {
      if key.spanID == r.spanID {
        NewIsOpen(ts, allow, r);
      } else {
        OldAfterStart(ts, allow, r, key.spanID);
      }
    }
    forall key | key in cache && key.spanID !in IdsF(us)
      ensures key.spanID != r.spanID && Find(ts, key.spanID).None?
    {
      FindFinds(ts, key.spanID);
    }
  }

  lemma {:induction false} NewIsOpen(ts: seq<Tree>, allow: bool, r: Record)
    requires WellFormedF(ts) && r.SpanStarted? && AcceptsStart(ts, allow, r)
    ensures Find(ApplyRoots(ts, allow, r), r.spanID).Some?
    ensures Open(Find(ApplyRoots(ts, allow, r), r.spanID).value.tree)
  {
    var t := StartedTree(r);
    hide Open, WellFormedF;
    if r.parentID in IdsF(ts) {
      NewEdit(ts, r);
      FindAdded(ts, r.parentID, t);
    } else {
      FindPrefix(ts, [t], r.spanID);
      assert Find([t], r.spanID) == Some(Hit(t, []));
    }
    LeafOpen(r);
  }

  lemma LeafOpen(r: Record)
    requires r.SpanStarted?
    ensures Open(StartedTree(r))
  {
  }

  lemma {:induction false} OldAfterStart(ts: seq<Tree>, allow: bool, r: Record, y: string)
    requires WellFormedF(ts) && r.SpanStarted? && AcceptsStart(ts, allow, r) && y in IdsF(ts)
    ensures Find(ts, y).Some? && Find(ApplyRoots(ts, allow, r), y).Some?
    ensures var u, v := Find(ts, y).value.tree, Find(ApplyRoots(ts, allow, r), y).value.tree;
            if r.parentID in Ids(u) then Open(v) else v == u
  {
    FindFinds(ts, y);
    var u := Find(ts, y).value.tree;
    NewEdit(ts, r);
    if r.parentID !in IdsF(ts) {
      FindPrefix(ts, [StartedTree(r)], y);
    } else {
      FindAfterEdit(ts, r.parentID, EditOf(r), y);
      if r.parentID in Ids(u) {
        StartOpens(u, r.parentID, StartedTree(r));
      } else {
        EditElsewhere(u, r.parentID, EditOf(r));
      }
    }
  }

  // ----- Runs in which the cache stays right

  /** A start that is accepted touches no cached span, and no span ends at the zero time. */
  ghost predicate Steady(m: TuiState, allow: bool, msg: Message) {
    msg.EventMsg? && msg.record.Some? && !m.paused ==>
      var r := msg.record.value;
      && (r.SpanStarted? && AcceptsStart(m.store.roots, allow, r) ==> Untouched(m.cache, m.store.roots, r))
      && (r.SpanEnded? ==> TimeValue(r.endedAt) != ZERO_TIME)
  }

  ghost predicate AllSteady(allow: bool, msgs: seq<Message>) {
    forall i :: 0 <= i < |msgs| ==> Steady(TuiSpec.Run(allow, msgs[..i], true), allow, msgs[i])
  }

  /** Disciplined messages are steady: a closed tree has no parent in it that has
      not ended, and only spans tracked before are cached. */
  lemma DisciplinedSteady(m: TuiState, allow: bool, seen: set<string>, msg: Message)
    requires Healthy(m, seen) && Disciplined(m, allow, seen, msg)
    ensures Steady(m, allow, msg)
  {
    hide Draw, Open, Find, IdsF, Ids, SettledF, AcceptsStart;
    if msg.EventMsg? && msg.record.Some? && !m.paused && msg.record.value.SpanStarted? {
      var ts, r := m.store.roots, msg.record.value;
      if AcceptsStart(ts, allow, r) {
        forall key | key in m.cache && Find(ts, key.spanID).Some?
          ensures r.parentID !in Ids(Find(ts, key.spanID).value.tree)
        {
          FindFinds(ts, key.spanID);
          assert Current(m.cache, key, Find(ts, key.spanID).value.tree);
          OpenAbove(ts, key.spanID, r.parentID);
        }
      }
    }
  }

  /** So in a disciplined run every message is steady. */
  lemma DisciplinedRunSteady(allow: bool, msgs: seq<Message>)
    requires AllDisciplined(allow, msgs)
    ensures AllSteady(allow, msgs)
  {
    hide TuiSpec.Run, StartedIds, Disciplined, Healthy, Steady;
    forall i | 0 <= i < |msgs|
      ensures Steady(TuiSpec.Run(allow, msgs[..i], true), allow, msgs[i])
    {
      var front := msgs[..i];
      assert forall j :: 0 <= j < i ==> front[..j] == msgs[..j] && front[j] == msgs[j];
      CacheIsInvisible(allow, front);
      DisciplinedSteady(TuiSpec.Run(allow, front, true), allow, StartedIds(allow, front), msgs[i]);
    }
  }

  lemma OpenAbove(ts: seq<Tree>, y: string, x: string)
    requires WellFormedF(ts) && Find(ts, y).Some? && !Open(Find(ts, y).value.tree)
    ensures x in Ids(Find(ts, y).value.tree) ==> Find(ts, x).Some? && Find(ts, x).value.tree.info.ended
  {
    hide Open, Find, Ids, WellFormedF;
    if x in Ids(Find(ts, y).value.tree) {
      FindBelow(ts, y, x);
      ClosedEnded(Find(ts, y).value.tree, x);
    }
  }

  lemma SteadyStart(m: TuiState, allow: bool, seen: set<string>, r: Record)
    requires Healthy(m, seen) && r.SpanStarted? && AcceptsStart(m.store.roots, allow, r)
    requires Untouched(m.cache, m.store.roots, r)
    ensures var s := LimitRoots(Apply(m.store, allow, Some(r)), MAX_ROOTS);
            Coherent(m.cache, s.roots) && HealthyStore(s, seen + {r.spanID})
  {
    hide Coherent, IdsF, SettledF, StoreSpec.Valid, AcceptsStart, ApplyRoots, LimitRoots, Untouched, CacheWithin;
    ValidWellFormed(m.store);
    StepKeepsValid(m.store, allow, ApplyOp(Some(r)));
    ApplyIds(m.store.roots, allow, r);
    SettledApply(m.store.roots, allow, r);
    StartCoherentExactly(m.store.roots, allow, r, m.cache);
    LimitHealthy(Apply(m.store, allow, Some(r)), m.cache, MAX_ROOTS);
  }

  lemma SteadyChange(m: TuiState, allow: bool, seen: set<string>, msg: Message)
    requires Healthy(m, seen) && Steady(m, allow, msg)
    ensures Healthy(Change(m, allow, msg), seen + Started(m, allow, msg))
  {
    hide Coherent, IdsF, SettledF, StoreSpec.Valid, LimitRoots, Apply, AcceptsStart, Untouched, Find;
    if Started(m, allow, msg) == {} {
      ChangeHealthy(m, allow, seen, msg);
    } else {
      SteadyStart(m, allow, seen, msg.record.value);
    }
  }

  /** The weaker condition on runs: as long as every accepted start touches no cached
      span, the viewer with the cache shows what the one without it does. */
  lemma {:induction false} SteadyIsInvisible(allow: bool, msgs: seq<Message>)
    requires AllSteady(allow, msgs)
    ensures Shown(TuiSpec.Run(allow, msgs, true)) == Shown(TuiSpec.Run(allow, msgs, false))
    ensures Healthy(TuiSpec.Run(allow, msgs, true), StartedIds(allow, msgs))
  {
    hide Healthy, Change, Repaint, Paints, Shown, Started, Steady;
    if msgs == [] {
      StartHealthy();
    } else {
      var front, last := msgs[..|msgs| - 1], msgs[|msgs| - 1];
      assert forall i :: 0 <= i < |front| ==> front[..i] == msgs[..i];
      SteadyIsInvisible(allow, front);
      var m, plain := TuiSpec.Run(allow, front, true), TuiSpec.Run(allow, front, false);
      var seen := StartedIds(allow, front) + Started(m, allow, last);
      SteadyChange(m, allow, StartedIds(allow, front), last);
      ChangeShown(m, plain, allow, last);
      if Paints(m, last) {
        RepaintAgrees(Change(m, allow, last), Change(plain, allow, last), seen);
      }
    }
  }
}
