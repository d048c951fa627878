/** Which patch the web server sends for a record, and exactly when applying it
    to the page shown before gives the full rendering of the store after. */
module Patching {
  import opened Records
  import opened Forest
  import opened Locate
  import opened Timeline
  import opened StoreSpec
  import opened WebView

  function ChildIndex(ts: seq<Tree>, x: string): (i: nat)
    ensures i <= |ts| && (i < |ts| ==> ts[i].ID() == x)
    ensures forall j :: 0 <= j < i ==> ts[j].ID() != x
  {
    if ts == [] || ts[0].ID() == x then 0 else 1 + ChildIndex(ts[1..], x)
  }

  /** The whole timeline again if it is short or the child is not there, and
      otherwise just the child. */
  function StartPatch(t: Tree, x: string, depth: nat, stale: Marks): Patch {
    var i := ChildIndex(t.children, x);
    if |Order(t)| <= 1 || i == |t.children| then TimelinePatch(t.ID(), RenderTimeline(t, depth, stale))
    else AppendPatch(t.ID(), SpanItem(Render(t.children[i], depth + 1, stale)))
  }

  function EventPatch(t: Tree, depth: nat, stale: Marks): Patch {
    var n := |t.info.events|;
    if |Order(t)| <= 1 || n == 0 then TimelinePatch(t.ID(), RenderTimeline(t, depth, stale))
    else AppendPatch(t.ID(), EventItem(EventCardOf(t.info, n - 1)))
  }

  /** The patch for the record, given the tree it changed, as it is now. */
  function Chosen(v: Tree, r: Record, depth: nat, stale: Marks): Patch
    requires !r.NoKind?
  {
    match r
    case SpanStarted(_, _, _, _, _, _) => StartPatch(v, r.spanID, depth, stale)
    case SpanUpdated(_, _, _) => AttributesPatch(v.ID(), v.info.attrs)
    case SpanEvent(_, _, _, _, _, _) => EventPatch(v, depth, stale)
    case SpanEnded(_, _, _, _, _) => SummaryPatch(v.ID(), SummaryOf(v.info, stale))
  }

  /** The patch for a record already applied; None asks for a full rendering. */
  function PatchFor(ts: seq<Tree>, stale: Marks, r: Record): Option<Patch> {
    if r.NoKind? || (r.SpanStarted? && r.parentID == "") then None
    else
      match Find(ts, Target(r))
      case None => None
      case Some(hit) =>
        Some(Chosen(hit.tree, r, |hit.above|, stale))
  }

  /** Before the record: it will be accepted, and its entry will come last. */
  predicate CanAppend(ts: seq<Tree>, allow: bool, r: Record) {
    match r
    case SpanStarted(_, _, _, _, at, _) =>
      && AcceptsStart(ts, allow, r)
      && Find(ts, r.parentID).Some?
      && var u := Find(ts, r.parentID).value.tree;
         ChildLast(EventTimes(u.info), StartTimes(u.children), TimeValue(at))
    case SpanEvent(_, _, _, at, _, _) =>
      && Find(ts, r.spanID).Some?
      && var u := Find(ts, r.spanID).value.tree;
         !u.info.ended && EventLast(EventTimes(u.info), StartTimes(u.children), TimeValue(at))
    case _ => true
  }

  predicate Sound(ts: seq<Tree>, allow: bool, r: Record, p: Patch) {
    p.AppendPatch? ==> CanAppend(ts, allow, r)
  }

  // ----- The effect on the addressed card

  lemma SameTimeline(u: Tree, v: Tree, depth: nat, stale: Marks)
    requires v.children == u.children && v.info.events == u.info.events
    requires v.info.spanID == u.info.spanID && v.info.startedAt == u.info.startedAt
    ensures RenderTimeline(v, depth, stale) == RenderTimeline(u, depth, stale)
  {
    assert Order(v) == Order(u);
    var cards := RenderAll(u.children, depth + 1, stale);
    assert Layout(v.info, Order(u), cards) == Layout(u.info, Order(u), cards);
  }

  lemma LocalFinish(u: Tree, e: Edit, depth: nat, stale: Marks)
    requires e.Finish?
    ensures Local(u, e, depth, stale, SummaryPatch(u.ID(), SummaryOf(Perform(u, e).info, stale)))
  {
    SameTimeline(u, Perform(u, e), depth, stale);
  }

  lemma LocalAttributes(u: Tree, e: Edit, depth: nat, stale: Marks)
    requires e.SetAttributes?
    ensures Local(u, e, depth, stale, AttributesPatch(u.ID(), Perform(u, e).info.attrs))
  {
    SameTimeline(u, Perform(u, e), depth, stale);
  }

  lemma LocalTimeline(u: Tree, e: Edit, depth: nat, stale: Marks)
    requires e.AddEvent? || e.AddChild?
    ensures Local(u, e, depth, stale, TimelinePatch(u.ID(), RenderTimeline(Perform(u, e), depth, stale)))
  {
  }

  lemma OrderEmpty(t: Tree)
    ensures |Order(t)| == |t.info.events| + |t.children|
  {
    TimelineRefs(EventTimes(t.info), StartTimes(t.children));
  }

  /** Nothing was added: appending anything is wrong. */
  lemma LocalIgnored(u: Tree, e: Edit, depth: nat, stale: Marks, item: CardItem)
    requires Perform(u, e) == u && |Order(u)| > 0
    ensures !Local(u, e, depth, stale, AppendPatch(u.ID(), item))
  {
    assert |RenderTimeline(u, depth, stale)| == |Order(u)|;
  }

  /** v is u with more events or children. */
  ghost predicate Extends(u: Tree, v: Tree) {
    && v.info.(events := u.info.events) == u.info
    && u.info.events <= v.info.events
    && u.children <= v.children
  }

  lemma OldLayout(u: Tree, v: Tree, depth: nat, stale: Marks)
    requires Extends(u, v)
    ensures InRange(Order(u), |v.info.events|, |v.children|)
    ensures Layout(v.info, Order(u), RenderAll(v.children, depth + 1, stale)) == RenderTimeline(u, depth, stale)
  {
    var before, after := RenderAll(u.children, depth + 1, stale), RenderAll(v.children, depth + 1, stale);
    forall k | 0 <= k < |Order(u)|
      ensures LayoutItem(v.info, Order(u)[k], after) == LayoutItem(u.info, Order(u)[k], before)
    {
      assert Order(u)[k] in Order(u);
    }
  }

  /** With one more entry x, appending its item gives the new timeline exactly if
      x is the last entry, provided its item is unmistakable. */
  lemma AppendedLayout(u: Tree, v: Tree, x: Item, depth: nat, stale: Marks)
    requires Extends(u, v) && x in Order(v) && Order(v) != []
    requires Order(v)[|Order(v)| - 1] == x ==> Order(v) == Order(u) + [x]
    requires var cards := RenderAll(v.children, depth + 1, stale);
             forall y :: y in Order(v) && LayoutItem(v.info, y, cards) == LayoutItem(v.info, x, cards) ==> y == x
    ensures var cards := RenderAll(v.children, depth + 1, stale);
            RenderTimeline(v, depth, stale) == RenderTimeline(u, depth, stale) + [LayoutItem(v.info, x, cards)] <==>
            Order(v)[|Order(v)| - 1] == x
  {
    var cards, last := RenderAll(v.children, depth + 1, stale), |Order(v)| - 1;
    OldLayout(u, v, depth, stale);
    assert Order(v)[last] in Order(v);
    assert RenderTimeline(v, depth, stale) == Layout(v.info, Order(v), cards);
    assert RenderTimeline(v, depth, stale)[last] == LayoutItem(v.info, Order(v)[last], cards);
    if Order(v)[last] == x {
      assert Layout(v.info, Order(u) + [x], cards) == Layout(v.info, Order(u), cards) + [LayoutItem(v.info, x, cards)];
    }
  }

  /** Swapping in the longer list is right exactly if it is the new timeline. */
  lemma LocalAppend(u: Tree, e: Edit, depth: nat, stale: Marks, item: CardItem)
    requires Extends(u, Perform(u, e)) && |Order(u)| > 0
    ensures Local(u, e, depth, stale, AppendPatch(u.ID(), item)) <==>
            RenderTimeline(Perform(u, e), depth, stale) == RenderTimeline(u, depth, stale) + [item]
  {
    assert |RenderTimeline(u, depth, stale)| == |Order(u)|;
    hide RenderTimeline;
  }

  /** Where a new event ends up. */
  lemma EventEntry(u: Tree, event: EventState)
    requires !u.info.ended
    ensures var v, x := Perform(u, AddEvent(event)), Item(event.at, EventRef(|u.info.events|));
            && Extends(u, v) && x in Order(v) && Order(v) != []
            && (Order(v)[|Order(v)| - 1] == x <==> EventLast(EventTimes(u.info), StartTimes(u.children), event.at))
            && (Order(v)[|Order(v)| - 1] == x ==> Order(v) == Order(u) + [x])
  {
    var v, events, starts := Perform(u, AddEvent(event)), EventTimes(u.info), StartTimes(u.children);
    var x := Item(event.at, EventRef(|events|));
    assert EventTimes(v.info) == events + [event.at];
    assert Raw(EventTimes(v.info), starts)[|events|] == x;
    OrderMembers(v);
    EventLastExact(events, starts, event.at);
    hide Timeline.Timeline, EventLast;
  }

  /** The item of the newest event is unlike any other. */
  lemma EventUnmistakable(v: Tree, x: Item, cards: seq<Card>)
    requires |cards| == |v.children| && x in Order(v) && x.ref.EventRef?
    ensures forall y :: y in Order(v) && LayoutItem(v.info, y, cards) == LayoutItem(v.info, x, cards) ==> y == x
  {
    OrderMembers(v);
    hide Order;
  }

  lemma LocalAppendEvent(u: Tree, event: EventState, depth: nat, stale: Marks)
    requires !u.info.ended && |Order(u)| > 0
    ensures var v := Perform(u, AddEvent(event));
            Local(u, AddEvent(event), depth, stale,
                  AppendPatch(u.ID(), EventItem(EventCardOf(v.info, |u.info.events|)))) <==>
            EventLast(EventTimes(u.info), StartTimes(u.children), event.at)
  {
    hide Order, EventLast, RenderAll, RenderTimeline, Local, Extends;
    var v, x := Perform(u, AddEvent(event)), Item(event.at, EventRef(|u.info.events|));
    var cards := RenderAll(v.children, depth + 1, stale);
    EventEntry(u, event);
    EventUnmistakable(v, x, cards);
    AppendedLayout(u, v, x, depth, stale);
    LocalAppend(u, AddEvent(event), depth, stale, LayoutItem(v.info, x, cards));
  }

  /** Where a new child ends up. */
  lemma ChildEntry(u: Tree, child: Tree)
    ensures var v, x := Perform(u, AddChild(child)), Item(child.info.startedAt, ChildRef(|u.children|));
            && Extends(u, v) && x in Order(v) && Order(v) != []
            && (Order(v)[|Order(v)| - 1] == x <==>
                ChildLast(EventTimes(u.info), StartTimes(u.children), child.info.startedAt))
            && (Order(v)[|Order(v)| - 1] == x ==> Order(v) == Order(u) + [x])
  {
    var v, events, starts := Perform(u, AddChild(child)), EventTimes(u.info), StartTimes(u.children);
    var x := Item(child.info.startedAt, ChildRef(|starts|));
    assert StartTimes(v.children) == starts + [child.info.startedAt];
    assert Raw(events, StartTimes(v.children))[|events| + |starts|] == x;
    OrderMembers(v);
    ChildLastExact(events, starts, child.info.startedAt);
    hide Timeline.Timeline, ChildLast;
  }

  /** The new child's card is unlike those of its siblings. */
  lemma {:induction false} NewCard(ts: seq<Tree>, child: Tree, depth: nat, stale: Marks)
    requires child.ID() !in IdsF(ts)
    ensures var cards := RenderAll(ts + [child], depth, stale);
            cards[|ts|] == Render(child, depth, stale) &&
            forall i :: 0 <= i < |ts| ==> cards[i] != cards[|ts|]
  {
    var cards := RenderAll(ts + [child], depth, stale);
    forall i | 0 <= i < |ts|
      ensures cards[i].id != cards[|ts|].id
    {
      assert ts[i].ID() in Ids(ts[i]);
      assert cards[i] == Render(ts[i], depth, stale) && cards[|ts|] == Render(child, depth, stale);
    }
  }

  lemma ChildUnmistakable(v: Tree, x: Item, cards: seq<Card>)
    requires |cards| == |v.children| > 0 && x in Order(v) && x.ref == ChildRef(|cards| - 1)
    requires forall i :: 0 <= i < |cards| - 1 ==> cards[i] != cards[|cards| - 1]
    ensures forall y :: y in Order(v) && LayoutItem(v.info, y, cards) == LayoutItem(v.info, x, cards) ==> y == x
  {
    OrderMembers(v);
    hide Order;
  }

  lemma LocalAppendChild(u: Tree, child: Tree, depth: nat, stale: Marks)
    requires |Order(u)| > 0 && child.ID() !in IdsF(u.children)
    ensures Local(u, AddChild(child), depth, stale,
                  AppendPatch(u.ID(), SpanItem(Render(child, depth + 1, stale)))) <==>
            ChildLast(EventTimes(u.info), StartTimes(u.children), child.info.startedAt)
  {
    hide Order, ChildLast, Render, RenderAll, RenderTimeline, Local, Extends, IdsF;
    var v, x := Perform(u, AddChild(child)), Item(child.info.startedAt, ChildRef(|u.children|));
    var cards := RenderAll(v.children, depth + 1, stale);
    ChildEntry(u, child);
    NewCard(u.children, child, depth + 1, stale);
    ChildUnmistakable(v, x, cards);
    AppendedLayout(u, v, x, depth, stale);
    LocalAppend(u, AddChild(child), depth, stale, LayoutItem(v.info, x, cards));
  }

  /** The entries of the timeline, each known by what it refers to. */
  lemma OrderMembers(t: Tree)
    ensures |Order(t)| == |t.info.events| + |t.children|
    ensures forall y :: y in Order(t) <==> y in Raw(EventTimes(t.info), StartTimes(t.children))
    ensures forall y, z :: y in Order(t) && z in Order(t) && y.ref == z.ref ==> y == z
  {
    TimelineRefs(EventTimes(t.info), StartTimes(t.children));
    SortMembers(Raw(EventTimes(t.info), StartTimes(t.children)));
  }

  // ----- Choosing the patch

  lemma {:induction false} NoEdit(t: Tree, x: string)
    ensures EditAt(t, x, SetAttributes([])) == t
  {
    if t.ID() != x {
      forall i | 0 <= i < |t.children|
        ensures EditAt(t.children[i], x, SetAttributes([])) == t.children[i]
      {
        NoEdit(t.children[i], x);
      }
      assert EditAtF(t.children, x, SetAttributes([])) == t.children;
    }
  }

  /** What the store's forest underwent: the edit the record asks for, or nothing. */
  ghost function Effect(ts: seq<Tree>, allow: bool, r: Record): Edit
    requires !r.NoKind?
  {
    if r.SpanStarted? && !AcceptsStart(ts, allow, r) then SetAttributes([]) else EditOf(r)
  }

  lemma {:induction false} Effective(ts: seq<Tree>, allow: bool, r: Record)
    requires WellFormedF(ts) && !r.NoKind? && Target(r) in IdsF(ts)
    ensures ApplyRoots(ts, allow, r) == EditAtF(ts, Target(r), Effect(ts, allow, r))
    ensures Find(ts, Target(r)).Some?
    ensures Find(ApplyRoots(ts, allow, r), Target(r)) ==
            EditHit(Find(ts, Target(r)), Target(r), Effect(ts, allow, r))
  {
    FindFinds(ts, Target(r));
    if Effect(ts, allow, r) != EditOf(r) {
      forall i | 0 <= i < |ts|
        ensures EditAt(ts[i], Target(r), SetAttributes([])) == ts[i]
      {
        NoEdit(ts[i], Target(r));
      }
      assert EditAtF(ts, Target(r), SetAttributes([])) == ts;
    } else {
      NewEdit(ts, r);
    }
    FindAfterEdit(ts, Target(r), Effect(ts, allow, r), Target(r));
  }

  lemma {:induction false} IgnoredStartLocal(ts: seq<Tree>, allow: bool, r: Record, u: Tree, depth: nat, stale: Marks)
    requires r.SpanStarted? && !AcceptsStart(ts, allow, r)
    ensures var p := Chosen(u, r, depth, stale);
            Perform(u, SetAttributes([])) == u &&
            (Local(u, SetAttributes([]), depth, stale, p) <==> Sound(ts, allow, r, p))
  {
    var e := SetAttributes([]);
    var i := ChildIndex(u.children, r.spanID);
    assert Perform(u, e) == u;
    hide Find, AcceptsStart, Order, RenderTimeline;
    if |Order(u)| > 1 && i < |u.children| {
      LocalIgnored(u, e, depth, stale, SpanItem(Render(u.children[i], depth + 1, stale)));
    }
  }

  lemma {:induction false} NewChildIndex(ts: seq<Tree>, t: Tree)
    requires t.ID() !in IdsF(ts)
    ensures ChildIndex(ts + [t], t.ID()) == |ts|
  {
    var i := ChildIndex(ts + [t], t.ID());
    assert (ts + [t])[|ts|] == t;
    if i < |ts| {
      assert ts[i].ID() in Ids(ts[i]);
    }
  }

  lemma {:induction false} StartChosen(u: Tree, r: Record, depth: nat, stale: Marks)
    requires r.SpanStarted? && r.spanID !in IdsF(u.children)
    ensures var v := Perform(u, EditOf(r));
            Chosen(v, r, depth, stale) ==
            if |Order(u)| > 0 then AppendPatch(u.ID(), SpanItem(Render(StartedTree(r), depth + 1, stale)))
            else TimelinePatch(u.ID(), RenderTimeline(v, depth, stale))
  {
    hide Order, Render, RenderTimeline, ChildIndex, IdsF, EditInfo, StartedTree;
    var v := Perform(u, EditOf(r));
    StartedBelow(u, r);
    OrderEmpty(u);
    OrderEmpty(v);
    NewChildIndex(u.children, StartedTree(r));
  }

  lemma StartedBelow(u: Tree, r: Record)
    requires r.SpanStarted?
    ensures StartedTree(r).ID() == r.spanID
    ensures var v := Perform(u, EditOf(r));
            && v.children == u.children + [StartedTree(r)] && v.ID() == u.ID()
            && v.info.events == u.info.events
  {
  }

  lemma {:induction false} StartLocal(ts: seq<Tree>, allow: bool, r: Record, u: Tree, depth: nat, stale: Marks)
    requires r.SpanStarted? && AcceptsStart(ts, allow, r) && r.spanID !in IdsF(u.children)
    requires Find(ts, r.parentID).Some? && Find(ts, r.parentID).value.tree == u
    ensures var p := Chosen(Perform(u, EditOf(r)), r, depth, stale);
            Local(u, EditOf(r), depth, stale, p) <==> Sound(ts, allow, r, p)
  {
    hide Find, AcceptsStart, Order, Render, RenderTimeline, Chosen, IdsF, Local, ChildLast, Perform;
    StartChosen(u, r, depth, stale);
    if |Order(u)| > 0 {
      LocalAppendChild(u, StartedTree(r), depth, stale);
    } else {
      LocalTimeline(u, EditOf(r), depth, stale);
    }
  }

  lemma {:induction false} IgnoredEventLocal(ts: seq<Tree>, allow: bool, r: Record, u: Tree, depth: nat, stale: Marks)
    requires r.SpanEvent? && Find(ts, r.spanID).Some? && Find(ts, r.spanID).value.tree == u && u.info.ended
    ensures var p := Chosen(u, r, depth, stale);
            Perform(u, EditOf(r)) == u && (Local(u, EditOf(r), depth, stale, p) <==> Sound(ts, allow, r, p))
  {
    assert !CanAppend(ts, allow, r) && Perform(u, EditOf(r)) == u;
    hide CanAppend, Find, Order, RenderTimeline;
    if |Order(u)| > 1 && |u.info.events| > 0 {
      LocalIgnored(u, EditOf(r), depth, stale, EventItem(EventCardOf(u.info, |u.info.events| - 1)));
    }
  }

  lemma {:induction false} EventLocal(ts: seq<Tree>, allow: bool, r: Record, u: Tree, depth: nat, stale: Marks)
    requires r.SpanEvent? && Find(ts, r.spanID).Some? && Find(ts, r.spanID).value.tree == u && !u.info.ended
    ensures var p := Chosen(Perform(u, EditOf(r)), r, depth, stale);
            Local(u, EditOf(r), depth, stale, p) <==> Sound(ts, allow, r, p)
  {
    var event := EditOf(r).event;
    assert CanAppend(ts, allow, r) == EventLast(EventTimes(u.info), StartTimes(u.children), event.at);
    hide CanAppend, Find, Order, Render, RenderTimeline, Local, EventLast;
    OrderEmpty(u);
    OrderEmpty(Perform(u, EditOf(r)));
    if |Order(u)| > 0 {
      LocalAppendEvent(u, event, depth, stale);
    } else {
      LocalTimeline(u, EditOf(r), depth, stale);
    }
  }

  // ----- Root ids and the whole page

  function RootIDs(ts: seq<Tree>): seq<string> {
    seq(|ts|, i requires 0 <= i < |ts| => ts[i].ID())
  }

  function Page(s: State): seq<Card> {
    RenderAll(s.roots, 0, s.stale)
  }

  /** A new root shows in the root ids, even when the oldest one is evicted for it. */
  lemma {:induction false} NewRootShows(s: State, allow: bool, r: Record, limit: int)
    requires limit > 0 && r.SpanStarted? && AcceptsStart(s.roots, allow, r) && r.parentID !in IdsF(s.roots)
    ensures RootIDs(LimitRoots(Apply(s, allow, Some(r)), limit).roots) != RootIDs(s.roots)
  {
    var ids := RootIDs(LimitRoots(Apply(s, allow, Some(r)), limit).roots);
    assert ids != [] && ids[|ids| - 1] == r.spanID;
    if |ids| == |s.roots| {
      var last := s.roots[|ids| - 1];
      assert last.ID() in Ids(last);
      assert RootIDs(s.roots)[|ids| - 1] == last.ID();
    }
  }

  /** A record that leaves the root ids alone neither added nor evicted a root. */
  lemma {:induction false} SameRoots(s: State, allow: bool, r: Record, limit: int)
    requires limit > 0
    requires RootIDs(LimitRoots(Apply(s, allow, Some(r)), limit).roots) == RootIDs(s.roots)
    ensures LimitRoots(Apply(s, allow, Some(r)), limit) == Apply(s, allow, Some(r))
    ensures !r.NoKind? && r.SpanStarted? && AcceptsStart(s.roots, allow, r) ==> r.parentID in IdsF(s.roots)
  {
    var after := LimitRoots(Apply(s, allow, Some(r)), limit);
    if r.SpanStarted? && AcceptsStart(s.roots, allow, r) && r.parentID !in IdsF(s.roots) {
      NewRootShows(s, allow, r, limit);
    } else {
      assert |after.roots| == |RootIDs(after.roots)| == |RootIDs(s.roots)| == |s.roots|;
    }
  }

  /** Main result on patches. For every state and record, whether the store takes
      the record or ignores it: when the root ids stay and a patch is sent, it turns
      the old page into the new one exactly if it does not append, or the record
      is one the store accepts and whose entry belongs at the end. */
  lemma {:induction false} PatchRefines(s: State, allow: bool, r: Record, limit: int)
    requires Valid(s) && limit > 0
    requires RootIDs(LimitRoots(Apply(s, allow, Some(r)), limit).roots) == RootIDs(s.roots)
    ensures var after := LimitRoots(Apply(s, allow, Some(r)), limit);
            match PatchFor(after.roots, after.stale, r)
            case None => true
            case Some(p) => PatchAll(Page(s), p) == Page(after) <==> Sound(s.roots, allow, r, p)
  {
    SameRoots(s, allow, r, limit);
    var after := Apply(s, allow, Some(r));
    if PatchFor(after.roots, after.stale, r).Some? {
      PatchTarget(s, allow, r);
      PatchRefinesAt(s, allow, r);
    }
  }

  /** An append, right or wrong, is only ever sent to a list the page has: its span was
      tracked before the record, with an entry in its timeline. */
  lemma AppendFindsList(s: State, allow: bool, r: Record, limit: int)
    requires Valid(s) && limit > 0
    requires RootIDs(LimitRoots(Apply(s, allow, Some(r)), limit).roots) == RootIDs(s.roots)
    ensures var after := LimitRoots(Apply(s, allow, Some(r)), limit);
            var patch := PatchFor(after.roots, after.stale, r);
            patch.Some? && patch.value.AppendPatch? ==>
              Find(s.roots, patch.value.id).Some? && Order(Find(s.roots, patch.value.id).value.tree) != []
  {
    hide Order, Render, RenderTimeline, ApplyRoots, Find, IdsF, WellFormedF, Perform;
    SameRoots(s, allow, r, limit);
    var after := Apply(s, allow, Some(r));
    if PatchFor(after.roots, after.stale, r).Some? {
      PatchTarget(s, allow, r);
      Effective(s.roots, allow, r);
      FindFinds(s.roots, Target(r));
      var u, v := Find(s.roots, Target(r)).value.tree, Find(after.roots, Target(r)).value.tree;
      AtMostOneMore(u, Target(r), Effect(s.roots, allow, r));
      OrderEmpty(u);
      OrderEmpty(v);
    }
  }

  lemma AtMostOneMore(u: Tree, x: string, e: Edit)
    requires u.ID() == x
    ensures var v := EditAt(u, x, e);
            v.ID() == x && |v.info.events| + |v.children| <= |u.info.events| + |u.children| + 1
  {
  }

  /** A patch is only sent for a span that was already there. */
  lemma {:induction false} PatchTarget(s: State, allow: bool, r: Record)
    requires !r.NoKind? && Find(ApplyRoots(s.roots, allow, r), Target(r)).Some?
    requires r.SpanStarted? && AcceptsStart(s.roots, allow, r) ==> r.parentID in IdsF(s.roots)
    ensures Target(r) in IdsF(s.roots)
  {
    FindFinds(ApplyRoots(s.roots, allow, r), Target(r));
    ApplyIds(s.roots, allow, r);
  }

  lemma {:induction false} PatchRefinesAt(s: State, allow: bool, r: Record)
    requires Valid(s) && !r.NoKind? && Target(r) in IdsF(s.roots)
    ensures var after := Apply(s, allow, Some(r));
            Find(after.roots, Target(r)).Some? &&
            var hit := Find(after.roots, Target(r)).value;
            var p := Chosen(hit.tree, r, |hit.above|, s.stale);
            PatchAll(Page(s), p) == Page(after) <==> Sound(s.roots, allow, r, p)
  {
    hide Local, PatchAll, RenderAll, Sound, Chosen, EditAt, EditAtF, ApplyRoots, Find, IdsF, Effect;
    var x, e := Target(r), Effect(s.roots, allow, r);
    Effective(s.roots, allow, r);
    FindFinds(s.roots, x);
    var hit := Find(s.roots, x).value;
    EditHere(hit.tree, x, e);
    AnyLocal(s.roots, allow, r, hit.tree, |hit.above|, s.stale);
    PatchForest(s.roots, e, 0, s.stale, Chosen(Perform(hit.tree, e), r, |hit.above|, s.stale));
  }

  lemma EditHere(t: Tree, x: string, e: Edit)
    requires t.ID() == x
    ensures EditAt(t, x, e) == Perform(t, e) && Perform(t, e).ID() == x
  {
  }

  lemma {:induction false} AnyLocal(ts: seq<Tree>, allow: bool, r: Record, u: Tree, depth: nat, stale: Marks)
    requires WellFormedF(ts) && !r.NoKind? && Find(ts, Target(r)).Some? && Find(ts, Target(r)).value.tree == u
    ensures var e := Effect(ts, allow, r);
            var p := Chosen(Perform(u, e), r, depth, stale);
            p.id == u.ID() && (Local(u, e, depth, stale, p) <==> Sound(ts, allow, r, p))
  {
    hide Local, CanAppend, Render, RenderTimeline, Order, WellFormed, WellFormedF, Find;
    FindFinds(ts, Target(r));
    match r
    case SpanStarted(_, _, _, _, _, _) =>
      if AcceptsStart(ts, allow, r) {
        StartLocal(ts, allow, r, u, depth, stale);
      } else {
        IgnoredStartLocal(ts, allow, r, u, depth, stale);
      }
    case SpanUpdated(_, _, _) => LocalAttributes(u, EditOf(r), depth, stale);
    case SpanEvent(_, _, _, _, _, _) =>
      if u.info.ended {
        IgnoredEventLocal(ts, allow, r, u, depth, stale);
      } else {
        EventLocal(ts, allow, r, u, depth, stale);
      }
    case SpanEnded(_, _, _, _, _) => LocalFinish(u, EditOf(r), depth, stale);
  }
}
