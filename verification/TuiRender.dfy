/** Terminal rendering of the forest as a structural document, with and without
    the cache of closed subtrees. */
module TuiRender {
  import opened Records
  import opened Forest
  import opened Locate
  import opened Pruning
  import opened Timeline
  import opened WebView

  datatype Mark = Tick | Cross | Spinner(frame: string)

  datatype EventLine = EventLine(event: EventState, offset: Option<Time>)

  datatype Row = EventRow(line: EventLine) | SpanRow(doc: Doc)

  /** A run of consecutive events is set in one block. */
  datatype Part = EventRun(lines: seq<EventLine>) | SpanPart(doc: Doc)

  datatype Doc = Doc(depth: nat, width: int, name: string, timing: Option<int>, mark: Mark,
                     error: string, attrs: seq<Attribute>, parts: seq<Part>)

  /** What changes without the spans changing: spinner frame, clock, stale marks. */
  datatype Env = Env(spin: string, now: Time, stale: Marks)

  datatype Key = Key(spanID: string, depth: nat, width: int)

  type Cache = map<Key, Doc>

  // ----- One span's frame

  function Inner(width: int): int {
    if width - 4 < 24 then 24 else width - 4
  }

  function MarkOf(info: Info, env: Env): Mark {
    if !info.ended then (if info.spanID in env.stale then Cross else Spinner(env.spin))
    else if info.error != "" then Cross else Tick
  }

  /** Elapsed time, never negative, cut to whole milliseconds. */
  function Elapsed(d: int): int {
    if d < 0 then 0 else d - d % 1000000
  }

  function TimingOf(info: Info, env: Env): Option<int> {
    if info.startedAt == ZERO_TIME then None
    else if info.ended && info.endedAt != ZERO_TIME then Some(Elapsed(info.endedAt - info.startedAt))
    else if info.spanID in env.stale then Some(Elapsed(env.stale[info.spanID] - info.startedAt))
    else Some(Elapsed(env.now - info.startedAt))
  }

  function LineOf(info: Info, i: nat): EventLine
    requires i < |info.events|
  {
    EventLine(info.events[i], OffsetOf(info, info.events[i].at))
  }

  function Frame(info: Info, depth: nat, width: int, env: Env, rows: seq<Row>): Doc {
    Doc(depth, width, info.name, TimingOf(info, env), MarkOf(info, env), info.error, info.attrs, Group(rows))
  }

  // ----- Grouping runs of events

  /** A pending run, flushed if it is not empty. */
  function Flushed(run: seq<EventLine>): seq<Part> {
    if run == [] then [] else [EventRun(run)]
  }

  /** The parts finished so far and the run still open. */
  function Grouping(rows: seq<Row>): (seq<Part>, seq<EventLine>) {
    if rows == [] then ([], [])
    else
      var (parts, run) := Grouping(rows[..|rows| - 1]);
      match rows[|rows| - 1]
      case EventRow(line) => (parts, run + [line])
      case SpanRow(doc) => (parts + Flushed(run) + [SpanPart(doc)], [])
  }

  function Group(rows: seq<Row>): seq<Part> {
    Grouping(rows).0 + Flushed(Grouping(rows).1)
  }

  function RunRows(lines: seq<EventLine>): seq<Row> {
    seq(|lines|, i requires 0 <= i < |lines| => EventRow(lines[i]))
  }

  function Flatten(parts: seq<Part>): seq<Row> {
    if parts == [] then []
    else
      Flatten(parts[..|parts| - 1]) +
      match parts[|parts| - 1]
      case EventRun(lines) => RunRows(lines)
      case SpanPart(doc) => [SpanRow(doc)]
  }

  lemma {:induction false} FlattenFlushed(parts: seq<Part>, run: seq<EventLine>)
    ensures Flatten(parts + Flushed(run)) == Flatten(parts) + RunRows(run)
  {
    if run == [] {
      assert parts + Flushed(run) == parts;
    } else {
      assert (parts + [EventRun(run)])[..|parts|] == parts;
    }
  }

  lemma {:induction false} FlattenSpan(parts: seq<Part>, doc: Doc)
    ensures Flatten(parts + [SpanPart(doc)]) == Flatten(parts) + [SpanRow(doc)]
  {
    assert (parts + [SpanPart(doc)])[..|parts|] == parts;
  }

  lemma {:induction false} GroupingFlattens(rows: seq<Row>)
    ensures Flatten(Grouping(rows).0) + RunRows(Grouping(rows).1) == rows
  {
    if rows != [] {
      var front, last := rows[..|rows| - 1], rows[|rows| - 1];
      GroupingFlattens(front);
      var (parts, run) := Grouping(front);
      match last
      case EventRow(line) =>
        assert Grouping(rows) == (parts, run + [line]);
        assert RunRows(run + [line]) == RunRows(run) + [EventRow(line)];
      case SpanRow(doc) =>
        assert Grouping(rows) == (parts + Flushed(run) + [SpanPart(doc)], []);
        hide Grouping, Flatten, Flushed;
        FlattenFlushed(parts, run);
        FlattenSpan(parts + Flushed(run), doc);
    }
  }

  /** The parts, laid out flat again, are exactly the rows: nothing is lost,
      doubled or reordered. */
  lemma GroupFlattens(rows: seq<Row>)
    ensures Flatten(Group(rows)) == rows
  {
    hide Grouping, Flatten, Flushed;
    GroupingFlattens(rows);
    FlattenFlushed(Grouping(rows).0, Grouping(rows).1);
  }

  /** Every run is as long as it can be: no two runs of events touch, and none is empty. */
  ghost predicate Maximal(parts: seq<Part>) {
    && (forall i :: 0 <= i < |parts| && parts[i].EventRun? ==> parts[i].lines != [])
    && (forall i :: 0 <= i < |parts| - 1 ==> parts[i].SpanPart? || parts[i + 1].SpanPart?)
  }

  lemma {:induction false} GroupMaximal(rows: seq<Row>)
    ensures Maximal(Group(rows))
    ensures Maximal(Grouping(rows).0)
    ensures Grouping(rows).0 != [] ==> Grouping(rows).0[|Grouping(rows).0| - 1].SpanPart?
  {
    if rows != [] {
      GroupMaximal(rows[..|rows| - 1]);
    }
  }

  // ----- Without the cache

  function RowOf(info: Info, it: Item, docs: seq<Doc>): Row
    requires if it.ref.EventRef? then it.ref.i < |info.events| else it.ref.i < |docs|
  {
    match it.ref
    case EventRef(i) => EventRow(LineOf(info, i))
    case ChildRef(i) => SpanRow(docs[i])
  }

  function Rows(info: Info, items: seq<Item>, docs: seq<Doc>): seq<Row>
    requires InRange(items, |info.events|, |docs|)
  {
    seq(|items|, k requires 0 <= k < |items| => RowOf(info, items[k], docs))
  }

  function Draw(t: Tree, depth: nat, width: int, env: Env): Doc
    decreases t, 1
  {
    Frame(t.info, depth, width, env, Rows(t.info, Order(t), DrawAll(t.children, depth + 1, Inner(width), env)))
  }

  function DrawAll(ts: seq<Tree>, depth: nat, width: int, env: Env): (docs: seq<Doc>)
    ensures |docs| == |ts|
    decreases ts, 0
  {
    seq(|ts|, i requires 0 <= i < |ts| => Draw(ts[i], depth, width, env))
  }

  // ----- With the cache

  /** A closed tree found in the cache is not drawn again; one that is not found
      is drawn, its closed parts through the cache, and then kept. */
  function DrawCached(t: Tree, depth: nat, width: int, env: Env, cache: Cache): (Doc, Cache)
    decreases t, 1
  {
    var key := Key(t.ID(), depth, width);
    if !Open(t) && key in cache then (cache[key], cache)
    else
      var (rows, cache') := DrawRows(t, Order(t), depth, width, env, cache);
      var doc := Frame(t.info, depth, width, env, rows);
      (doc, if Open(t) then cache' else cache'[key := doc])
  }

  /** The entries in timeline order, passing the cache along. */
  function DrawRows(t: Tree, items: seq<Item>, depth: nat, width: int, env: Env, cache: Cache): (seq<Row>, Cache)
    requires InRange(items, |t.info.events|, |t.children|)
    decreases t, 0, |items|
  {
    if items == [] then ([], cache)
    else
      var front, last := items[..|items| - 1], items[|items| - 1];
      var (rows, cache') := DrawRows(t, front, depth, width, env, cache);
      match last.ref
      case EventRef(i) => (rows + [EventRow(LineOf(t.info, i))], cache')
      case ChildRef(i) =>
        var (doc, cache'') := DrawCached(t.children[i], depth + 1, Inner(width), env, cache');
        (rows + [SpanRow(doc)], cache'')
  }

  function DrawRoots(ts: seq<Tree>, width: int, env: Env, cache: Cache): (seq<Doc>, Cache) {
    if ts == [] then ([], cache)
    else
      var (docs, cache') := DrawRoots(ts[..|ts| - 1], width, env, cache);
      var (doc, cache'') := DrawCached(ts[|ts| - 1], 0, width, env, cache');
      (docs + [doc], cache'')
  }

  // ----- Closed trees do not depend on the environment

  /** The end of a timed span is known, so its timing does not depend on the clock. */
  predicate SettledInfo(info: Info) {
    info.ended ==> info.startedAt == ZERO_TIME || info.endedAt != ZERO_TIME
  }

  predicate Settled(t: Tree) {
    SettledInfo(t.info) && SettledF(t.children)
  }

  predicate SettledF(ts: seq<Tree>) {
    forall i :: 0 <= i < |ts| ==> Settled(ts[i])
  }

  lemma {:induction false} ClosedStable(t: Tree, depth: nat, width: int, env: Env, other: Env)
    requires !Open(t) && Settled(t)
    ensures Draw(t, depth, width, env) == Draw(t, depth, width, other)
  {
    forall i | 0 <= i < |t.children|
      ensures Draw(t.children[i], depth + 1, Inner(width), env) == Draw(t.children[i], depth + 1, Inner(width), other)
    {
      ClosedStable(t.children[i], depth + 1, Inner(width), env, other);
    }
    assert DrawAll(t.children, depth + 1, Inner(width), env) == DrawAll(t.children, depth + 1, Inner(width), other);
  }

  // ----- A coherent cache

  const NO_ENV := Env("", 0, map[])

  /** What the cache keeps for the span is what the span looks like. */
  ghost predicate Current(cache: Cache, key: Key, u: Tree)
    requires key in cache
  {
    !Open(u) && cache[key] == Draw(u, key.depth, key.width, NO_ENV)
  }

  ghost predicate CoherentT(cache: Cache, t: Tree) {
    forall key :: key in cache && key.spanID in Ids(t) ==>
      LocateT(t, key.spanID).Some? && Current(cache, key, LocateT(t, key.spanID).value.tree)
  }

  ghost predicate Coherent(cache: Cache, ts: seq<Tree>) {
    forall key :: key in cache && key.spanID in IdsF(ts) ==>
      Find(ts, key.spanID).Some? && Current(cache, key, Find(ts, key.spanID).value.tree)
  }

  /** From one cache to the next only entries of `ids` were added. */
  ghost predicate GrownBy(cache: Cache, after: Cache, ids: set<string>) {
    && (forall key :: key in cache ==> key in after && after[key] == cache[key])
    && (forall key :: key in after && key !in cache ==> key.spanID in ids)
  }

  lemma GrownTransitive(cache: Cache, between: Cache, after: Cache, ids: set<string>)
    requires GrownBy(cache, between, ids) && GrownBy(between, after, ids)
    ensures GrownBy(cache, after, ids)
  {
  }

  lemma GrownSame(cache: Cache, ids: set<string>)
    ensures GrownBy(cache, cache, ids)
  {
  }

  lemma GrownMore(cache: Cache, after: Cache, ids: set<string>, more: set<string>)
    requires GrownBy(cache, after, ids) && ids <= more
    ensures GrownBy(cache, after, more)
  {
  }

  lemma {:induction false} CoherentChild(cache: Cache, ts: seq<Tree>, i: nat)
    requires WellFormedF(ts) && i < |ts| && Coherent(cache, ts)
    ensures CoherentT(cache, ts[i])
  {
    forall key | key in cache && key.spanID in Ids(ts[i])
      ensures LocateT(ts[i], key.spanID) == Find(ts, key.spanID) && key.spanID in IdsF(ts)
    {
      FindWithin(ts, i, key.spanID);
    }
  }

  lemma {:induction false} CoherentNext(cache: Cache, after: Cache, ts: seq<Tree>, i: nat)
    requires WellFormedF(ts) && i < |ts| && Coherent(cache, ts)
    requires GrownBy(cache, after, Ids(ts[i])) && CoherentT(after, ts[i])
    ensures Coherent(after, ts)
  {
    forall key | key in after && key.spanID in IdsF(ts)
      ensures Find(ts, key.spanID).Some? && Current(after, key, Find(ts, key.spanID).value.tree)
    {
      if key.spanID in Ids(ts[i]) {
        FindWithin(ts, i, key.spanID);
      }
    }
  }

  lemma {:induction false} CoherentBelow(cache: Cache, t: Tree)
    requires WellFormed(t)
    ensures CoherentT(cache, t) ==> Coherent(cache, t.children)
    ensures Coherent(cache, t.children) &&
            (forall key :: key in cache && key.spanID == t.ID() ==> Current(cache, key, t)) ==>
              CoherentT(cache, t)
  {
    forall key | key in cache && key.spanID in IdsF(t.children)
      ensures LocateT(t, key.spanID).Some? && Find(t.children, key.spanID).Some?
      ensures LocateT(t, key.spanID).value.tree == Find(t.children, key.spanID).value.tree
    {
      FindFinds(t.children, key.spanID);
    }
  }

  lemma {:induction false} CoherentHere(cache: Cache, t: Tree, key: Key)
    requires CoherentT(cache, t) && key in cache && key.spanID == t.ID()
    ensures Current(cache, key, t)
  {
    assert LocateT(t, key.spanID) == Some(Hit(t, []));
  }

  /** Drawing through a coherent cache is drawing without it, and leaves the
      cache coherent. */
  lemma {:induction false} CachedAgrees(t: Tree, depth: nat, width: int, env: Env, cache: Cache)
    requires WellFormed(t) && Settled(t) && CoherentT(cache, t)
    ensures var (doc, after) := DrawCached(t, depth, width, env, cache);
            doc == Draw(t, depth, width, env) && GrownBy(cache, after, Ids(t)) && CoherentT(after, t)
    decreases t, 2
  {
    var key := Key(t.ID(), depth, width);
    if !Open(t) {
      ClosedStable(t, depth, width, env, NO_ENV);
    }
    if !Open(t) && key in cache {
      CoherentHere(cache, t, key);
    } else {
      CoherentBelow(cache, t);
      RowsAgree(t, Order(t), depth, width, env, cache);
      var (rows, between) := DrawRows(t, Order(t), depth, width, env, cache);
      Finish(t, depth, width, env, cache, between);
    }
  }

  /** The finished document joins the cache if its tree is closed. */
  lemma {:induction false} Finish(t: Tree, depth: nat, width: int, env: Env, cache: Cache, between: Cache)
    requires WellFormed(t) && CoherentT(cache, t) && Coherent(between, t.children)
    requires GrownBy(cache, between, IdsF(t.children))
    requires !Open(t) ==> Draw(t, depth, width, env) == Draw(t, depth, width, NO_ENV)
    ensures var after := if Open(t) then between else between[Key(t.ID(), depth, width) := Draw(t, depth, width, env)];
            Key(t.ID(), depth, width) !in cache ==> GrownBy(cache, after, Ids(t)) && CoherentT(after, t)
  {
    var key := Key(t.ID(), depth, width);
    var after := if Open(t) then between else between[key := Draw(t, depth, width, env)];
    hide Draw, Open, WellFormedF;
    forall k | k in after && k.spanID == t.ID()
      ensures Current(after, k, t)
    {
      if k in cache {
        CoherentHere(cache, t, k);
      }
    }
    CoherentBelow(between, t);
    CoherentBelow(after, t);
  }

  lemma {:induction false} RowsAgree(t: Tree, items: seq<Item>, depth: nat, width: int, env: Env, cache: Cache)
    requires WellFormed(t) && Settled(t) && Coherent(cache, t.children)
    requires InRange(items, |t.info.events|, |t.children|)
    ensures var (rows, after) := DrawRows(t, items, depth, width, env, cache);
            && rows == Rows(t.info, items, DrawAll(t.children, depth + 1, Inner(width), env))
            && GrownBy(cache, after, IdsF(t.children)) && Coherent(after, t.children)
    decreases t, 1, |items|
  {
    hide Draw, DrawAll, DrawCached, Coherent, IdsF, WellFormed, Settled, GrownBy, Inner;
    if items == [] {
      GrownSame(cache, IdsF(t.children));
    } else {
      var front, last := items[..|items| - 1], items[|items| - 1];
      RowsAgree(t, front, depth, width, env, cache);
      assert last in items;
      DrawAllAt(t.children, depth + 1, Inner(width), env);
      if last.ref.ChildRef? {
        var between := DrawRows(t, front, depth, width, env, cache).1;
        ChildAgrees(t, last.ref.i, depth, width, env, between);
        var after := DrawCached(t.children[last.ref.i], depth + 1, Inner(width), env, between).1;
        GrownTransitive(cache, between, after, IdsF(t.children));
      }
    }
  }

  lemma DrawAllAt(ts: seq<Tree>, depth: nat, width: int, env: Env)
    ensures forall i :: 0 <= i < |ts| ==> DrawAll(ts, depth, width, env)[i] == Draw(ts[i], depth, width, env)
  {
    hide Draw;
  }

  lemma {:induction false} ChildAgrees(t: Tree, i: nat, depth: nat, width: int, env: Env, cache: Cache)
    requires i < |t.children| && WellFormed(t) && Settled(t) && Coherent(cache, t.children)
    ensures var (doc, after) := DrawCached(t.children[i], depth + 1, Inner(width), env, cache);
            && doc == Draw(t.children[i], depth + 1, Inner(width), env)
            && GrownBy(cache, after, IdsF(t.children)) && Coherent(after, t.children)
    decreases t, 0
  {
    assert WellFormed(t.children[i]) && Settled(t.children[i]) && Ids(t.children[i]) <= IdsF(t.children);
    hide Draw, DrawCached, CoherentT, Coherent, IdsF, Ids, Settled, GrownBy, Inner;
    CoherentChild(cache, t.children, i);
    CachedAgrees(t.children[i], depth + 1, Inner(width), env, cache);
    var after := DrawCached(t.children[i], depth + 1, Inner(width), env, cache).1;
    CoherentNext(cache, after, t.children, i);
    GrownMore(cache, after, Ids(t.children[i]), IdsF(t.children));
  }

  lemma DrawAllNext(ts: seq<Tree>, n: nat, width: int, env: Env)
    requires 0 < n <= |ts|
    ensures DrawAll(ts[..n], 0, width, env) == DrawAll(ts[..n - 1], 0, width, env) + [Draw(ts[n - 1], 0, width, env)]
  {
    hide Draw;
  }

  lemma DrawRootsNext(ts: seq<Tree>, n: nat, width: int, env: Env, cache: Cache)
    requires 0 < n <= |ts|
    ensures var (docs, between) := DrawRoots(ts[..n - 1], width, env, cache);
            var (doc, after) := DrawCached(ts[n - 1], 0, width, env, between);
            DrawRoots(ts[..n], width, env, cache) == (docs + [doc], after)
  {
    assert ts[..n][..n - 1] == ts[..n - 1];
    hide DrawCached;
  }

  lemma {:induction false} RootAgrees(ts: seq<Tree>, i: nat, width: int, env: Env, cache: Cache)
    requires i < |ts| && WellFormedF(ts) && SettledF(ts) && Coherent(cache, ts)
    ensures var (doc, after) := DrawCached(ts[i], 0, width, env, cache);
            doc == Draw(ts[i], 0, width, env) && GrownBy(cache, after, IdsF(ts)) && Coherent(after, ts)
  {
    assert WellFormed(ts[i]) && Settled(ts[i]) && Ids(ts[i]) <= IdsF(ts);
    hide Draw, DrawCached, CoherentT, Coherent, IdsF, Ids, WellFormed, WellFormedF, Settled, SettledF, GrownBy;
    CoherentChild(cache, ts, i);
    CachedAgrees(ts[i], 0, width, env, cache);
    var after := DrawCached(ts[i], 0, width, env, cache).1;
    CoherentNext(cache, after, ts, i);
    GrownMore(cache, after, Ids(ts[i]), IdsF(ts));
  }

  lemma NoRoots(ts: seq<Tree>, width: int, env: Env, cache: Cache)
    requires ts == []
    ensures DrawRoots(ts, width, env, cache) == ([], cache) && DrawAll(ts, 0, width, env) == []
  {
  }

  /** The whole screen: the roots drawn so far, out of all of them. */
  lemma {:induction false} RootsAgree(ts: seq<Tree>, n: nat, width: int, env: Env, cache: Cache)
    requires n <= |ts| && WellFormedF(ts) && SettledF(ts) && Coherent(cache, ts)
    ensures var (docs, after) := DrawRoots(ts[..n], width, env, cache);
            docs == DrawAll(ts[..n], 0, width, env) && GrownBy(cache, after, IdsF(ts)) && Coherent(after, ts)
  {
    hide Draw, DrawAll, DrawCached, DrawRoots, Coherent, IdsF, WellFormedF, SettledF, GrownBy;
    if n == 0 {
      NoRoots(ts[..0], width, env, cache);
      GrownSame(cache, IdsF(ts));
    } else {
      RootsAgree(ts, n - 1, width, env, cache);
      DrawAllNext(ts, n, width, env);
      DrawRootsNext(ts, n, width, env, cache);
      var between := DrawRoots(ts[..n - 1], width, env, cache).1;
      RootAgrees(ts, n - 1, width, env, between);
      GrownTransitive(cache, between, DrawCached(ts[n - 1], 0, width, env, between).1, IdsF(ts));
    }
  }
}
