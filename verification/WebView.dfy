/** What the web viewer shows: a tree of cards, its full rendering from the
    forest, and the small patches that update it in place. */
module WebView {
  import opened Records
  import opened Forest
  import opened Locate
  import opened Timeline

  datatype Status = Running | Stale | Complete | Failed

  /** Start and end in milliseconds; an end of 0 lets the timer run on. */
  datatype Timer = Timer(startMS: int, endMS: int)

  datatype Summary = Summary(name: string, traceID: string, timer: Option<Timer>, status: Status, error: string)

  /** The card of one event; parent, instant, index and name make up its key. */
  datatype EventCard = EventCard(parentID: string, index: nat, event: EventState, offset: Option<Time>)

  datatype CardItem = EventItem(event: EventCard) | SpanItem(card: Card)

  datatype Card = Card(id: string, depth: nat, summary: Summary, attrs: seq<Attribute>, timeline: seq<CardItem>)

  type Marks = map<string, Time>

  // ----- Full rendering

  function UnixMilli(t: Time): int {
    t / 1000000
  }

  function StatusOf(info: Info, stale: Marks): Status {
    if !info.ended then (if info.spanID in stale then Stale else Running)
    else if info.error != "" then Failed else Complete
  }

  function TimerOf(info: Info, stale: Marks): Option<Timer> {
    if info.startedAt == ZERO_TIME then None
    else Some(Timer(UnixMilli(info.startedAt),
                    if info.ended && info.endedAt != ZERO_TIME then UnixMilli(info.endedAt)
                    else if info.spanID in stale then UnixMilli(stale[info.spanID]) else 0))
  }

  function SummaryOf(info: Info, stale: Marks): Summary {
    Summary(info.name, info.traceID, TimerOf(info, stale), StatusOf(info, stale), info.error)
  }

  function OffsetOf(info: Info, at: Time): Option<Time> {
    if info.startedAt == ZERO_TIME || at == ZERO_TIME then None
    else Some(if at < info.startedAt then 0 else at - info.startedAt)
  }

  function EventCardOf(info: Info, i: nat): EventCard
    requires i < |info.events|
  {
    EventCard(info.spanID, i, info.events[i], OffsetOf(info, info.events[i].at))
  }

  function EventTimes(info: Info): seq<Time> {
    seq(|info.events|, i requires 0 <= i < |info.events| => info.events[i].at)
  }

  function StartTimes(ts: seq<Tree>): seq<Time> {
    seq(|ts|, i requires 0 <= i < |ts| => ts[i].info.startedAt)
  }

  predicate InRange(items: seq<Item>, events: nat, cards: nat) {
    forall it :: it in items ==> if it.ref.EventRef? then it.ref.i < events else it.ref.i < cards
  }

  /** The order of a span's events and children. */
  function Order(t: Tree): (items: seq<Item>)
    ensures InRange(items, |t.info.events|, |t.children|)
  {
    TimelineRefs(EventTimes(t.info), StartTimes(t.children));
    Timeline.Timeline(EventTimes(t.info), StartTimes(t.children))
  }

  function LayoutItem(info: Info, it: Item, cards: seq<Card>): CardItem
    requires if it.ref.EventRef? then it.ref.i < |info.events| else it.ref.i < |cards|
  {
    match it.ref
    case EventRef(i) => EventItem(EventCardOf(info, i))
    case ChildRef(i) => SpanItem(cards[i])
  }

  function Layout(info: Info, items: seq<Item>, cards: seq<Card>): seq<CardItem>
    requires InRange(items, |info.events|, |cards|)
  {
    seq(|items|, k requires 0 <= k < |items| => LayoutItem(info, items[k], cards))
  }

  function RenderTimeline(t: Tree, depth: nat, stale: Marks): seq<CardItem>
    decreases t, 0
  {
    Layout(t.info, Order(t), RenderAll(t.children, depth + 1, stale))
  }

  function Render(t: Tree, depth: nat, stale: Marks): Card
    decreases t, 1
  {
    Card(t.ID(), depth, SummaryOf(t.info, stale), t.info.attrs, RenderTimeline(t, depth, stale))
  }

  function RenderAll(ts: seq<Tree>, depth: nat, stale: Marks): (cards: seq<Card>)
    ensures |cards| == |ts|
    decreases ts, 0
  {
    seq(|ts|, i requires 0 <= i < |ts| => Render(ts[i], depth, stale))
  }

  // ----- Patches

  datatype Patch =
    | SummaryPatch(id: string, summary: Summary)
    | AttributesPatch(id: string, attrs: seq<Attribute>)
    | TimelinePatch(id: string, timeline: seq<CardItem>)
    | AppendPatch(id: string, item: CardItem)

  /** The swap on the addressed card. Appending needs a list to append to: an
      empty timeline has none in the page, and the swap then does nothing. */
  function Swap(card: Card, p: Patch): Card {
    match p
    case SummaryPatch(_, summary) => card.(summary := summary)
    case AttributesPatch(_, attrs) => card.(attrs := attrs)
    case TimelinePatch(_, timeline) => card.(timeline := timeline)
    case AppendPatch(_, item) =>
      if card.timeline == [] then card else card.(timeline := card.timeline + [item])
  }

  function PatchCard(card: Card, p: Patch): Card
    decreases card, 1
  {
    if card.id == p.id then Swap(card, p) else card.(timeline := PatchItems(card.timeline, p))
  }

  function PatchItem(item: CardItem, p: Patch): CardItem
    decreases item, 2
  {
    match item
    case EventItem(_) => item
    case SpanItem(card) => SpanItem(PatchCard(card, p))
  }

  function PatchItems(items: seq<CardItem>, p: Patch): (r: seq<CardItem>)
    ensures |r| == |items|
    decreases items, 0
  {
    seq(|items|, k requires 0 <= k < |items| => PatchItem(items[k], p))
  }

  function PatchAll(cards: seq<Card>, p: Patch): (r: seq<Card>)
    ensures |r| == |cards|
  {
    seq(|cards|, i requires 0 <= i < |cards| => PatchCard(cards[i], p))
  }

  // ----- A patch works on the page exactly if it works on its card

  lemma LayoutPatched(info: Info, items: seq<Item>, cards: seq<Card>, p: Patch)
    requires InRange(items, |info.events|, |cards|)
    ensures PatchItems(Layout(info, items, cards), p) == Layout(info, items, PatchAll(cards, p))
  {
    var left, right := PatchItems(Layout(info, items, cards), p), Layout(info, items, PatchAll(cards, p));
    forall k | 0 <= k < |items|
      ensures left[k] == right[k]
    {
      assert items[k] in items;
      assert left[k] == PatchItem(LayoutItem(info, items[k], cards), p);
    }
  }

  /** Every child has its entry. */
  lemma OrderComplete(t: Tree, i: nat)
    requires i < |t.children|
    ensures exists k :: 0 <= k < |Order(t)| && Order(t)[k].ref == ChildRef(i)
  {
    var events, starts := EventTimes(t.info), StartTimes(t.children);
    TimelineStable(events, starts);
    var it := Raw(events, starts)[|events| + i];
    assert it in multiset(Raw(events, starts));
    assert it in Order(t);
  }

  /** So two layouts of the same order agree only if the cards do. */
  lemma LayoutInjective(t: Tree, cards: seq<Card>, others: seq<Card>)
    requires |cards| == |others| == |t.children|
    ensures Layout(t.info, Order(t), cards) == Layout(t.info, Order(t), others) <==> cards == others
  {
    if Layout(t.info, Order(t), cards) == Layout(t.info, Order(t), others) {
      forall i | 0 <= i < |cards|
        ensures cards[i] == others[i]
      {
        OrderComplete(t, i);
        var k :| 0 <= k < |Order(t)| && Order(t)[k].ref == ChildRef(i);
        assert Layout(t.info, Order(t), cards)[k] == Layout(t.info, Order(t), others)[k];
        assert Layout(t.info, Order(t), cards)[k] == SpanItem(cards[i]);
        assert Layout(t.info, Order(t), others)[k] == SpanItem(others[i]);
      }
    }
  }

  lemma {:induction false} PatchElsewhere(t: Tree, depth: nat, stale: Marks, p: Patch)
    requires p.id !in Ids(t)
    ensures PatchCard(Render(t, depth, stale), p) == Render(t, depth, stale)
  {
    var cards := RenderAll(t.children, depth + 1, stale);
    LayoutPatched(t.info, Order(t), cards, p);
    forall i | 0 <= i < |t.children|
      ensures PatchAll(cards, p)[i] == cards[i]
    {
      assert Ids(t.children[i]) <= IdsF(t.children);
      PatchElsewhere(t.children[i], depth + 1, stale, p);
    }
    assert PatchAll(cards, p) == cards;
  }

  lemma {:induction false} EditKeepsTimes(ts: seq<Tree>, x: string, e: Edit)
    ensures StartTimes(EditAtF(ts, x, e)) == StartTimes(ts)
  {
  }

  /** The patch does to the card of u what the edit does to u. */
  ghost predicate Local(u: Tree, e: Edit, depth: nat, stale: Marks, p: Patch) {
    Swap(Render(u, depth, stale), p) == Render(Perform(u, e), depth, stale)
  }

  /** Above the target, a patch works exactly if it works on the children. */
  lemma {:induction false} PatchAbove(t: Tree, e: Edit, depth: nat, stale: Marks, p: Patch)
    requires t.ID() != p.id
    ensures PatchCard(Render(t, depth, stale), p) == Render(EditAt(t, p.id, e), depth, stale) <==>
            PatchAll(RenderAll(t.children, depth + 1, stale), p) ==
            RenderAll(EditAtF(t.children, p.id, e), depth + 1, stale)
  {
    var cards, u := RenderAll(t.children, depth + 1, stale), EditAt(t, p.id, e);
    EditKeepsTimes(t.children, p.id, e);
    assert Order(u) == Order(t);
    assert RenderTimeline(u, depth, stale) == Layout(t.info, Order(t), RenderAll(u.children, depth + 1, stale));
    assert RenderTimeline(t, depth, stale) == Layout(t.info, Order(t), cards);
    hide Order, RenderTimeline;
    var left, right := PatchCard(Render(t, depth, stale), p), Render(u, depth, stale);
    assert right == Card(t.ID(), depth, SummaryOf(t.info, stale), t.info.attrs, right.timeline);
    assert left == Card(t.ID(), depth, SummaryOf(t.info, stale), t.info.attrs, left.timeline);
    assert right.timeline == Layout(t.info, Order(t), RenderAll(u.children, depth + 1, stale));
    assert left.timeline == PatchItems(Layout(t.info, Order(t), cards), p);
    hide Render, RenderAll, PatchCard, PatchAll, PatchItems, Layout, EditAt, EditAtF;
    LayoutPatched(t.info, Order(t), cards, p);
    LayoutInjective(t, PatchAll(cards, p), RenderAll(u.children, depth + 1, stale));
  }

  lemma {:induction false} PatchTree(t: Tree, e: Edit, depth: nat, stale: Marks, p: Patch)
    requires WellFormed(t) && p.id in Ids(t)
    ensures LocateT(t, p.id).Some?
    ensures var hit := LocateT(t, p.id).value;
            PatchCard(Render(t, depth, stale), p) == Render(EditAt(t, p.id, e), depth, stale) <==>
            Local(hit.tree, e, depth + |hit.above|, stale, p)
    decreases t, 0
  {
    hide Render, RenderAll, PatchCard, PatchAll, EditAt, EditAtF, Local, Find, WellFormedF, IdsF;
    LocateFinds(t, p.id);
    if t.ID() != p.id {
      PatchForest(t.children, e, depth + 1, stale, p);
      PatchAbove(t, e, depth, stale, p);
    } else {
      PatchHere(t, e, depth, stale, p);
    }
  }

  lemma PatchHere(t: Tree, e: Edit, depth: nat, stale: Marks, p: Patch)
    requires t.ID() == p.id
    ensures PatchCard(Render(t, depth, stale), p) == Render(EditAt(t, p.id, e), depth, stale) <==>
            Local(t, e, depth, stale, p)
  {
    assert Render(t, depth, stale).id == p.id;
    assert EditAt(t, p.id, e) == Perform(t, e);
    hide Render, Perform, Swap;
  }

  lemma {:induction false} InTree(ts: seq<Tree>, x: string) returns (j: nat)
    requires WellFormedF(ts) && x in IdsF(ts)
    ensures j < |ts| && x in Ids(ts[j]) && WellFormed(ts[j])
  {
    j :| 0 <= j < |ts| && x in Ids(ts[j]);
  }

  lemma {:induction false} PatchForest(ts: seq<Tree>, e: Edit, depth: nat, stale: Marks, p: Patch)
    requires WellFormedF(ts) && p.id in IdsF(ts)
    ensures Find(ts, p.id).Some?
    ensures var hit := Find(ts, p.id).value;
            PatchAll(RenderAll(ts, depth, stale), p) == RenderAll(EditAtF(ts, p.id, e), depth, stale) <==>
            Local(hit.tree, e, depth + |hit.above|, stale, p)
    decreases ts, 1
  {
    hide PatchCard, PatchAll, Render, RenderAll, EditAt, EditAtF, Local, Find, LocateT, Ids, IdsF, WellFormed,
      WellFormedF;
    var j := InTree(ts, p.id);
    FindWithin(ts, j, p.id);
    PatchTree(ts[j], e, depth, stale, p);
    PatchSplit(ts, j, e, depth, stale, p);
  }

  /** In a forest, a patch works exactly if it works on the tree it addresses. */
  lemma {:induction false} PatchSplit(ts: seq<Tree>, j: nat, e: Edit, depth: nat, stale: Marks, p: Patch)
    requires j < |ts| && WellFormedF(ts) && p.id in Ids(ts[j])
    ensures PatchAll(RenderAll(ts, depth, stale), p) == RenderAll(EditAtF(ts, p.id, e), depth, stale) <==>
            PatchCard(Render(ts[j], depth, stale), p) == Render(EditAt(ts[j], p.id, e), depth, stale)
  {
    var left, right := PatchAll(RenderAll(ts, depth, stale), p), RenderAll(EditAtF(ts, p.id, e), depth, stale);
    assert left[j] == PatchCard(Render(ts[j], depth, stale), p);
    assert right[j] == Render(EditAt(ts[j], p.id, e), depth, stale);
    PatchOthers(ts, j, e, depth, stale, p);
    hide PatchCard, PatchAll, Render, RenderAll, EditAt, EditAtF, Ids, IdsF, WellFormed, WellFormedF;
    OneDiffers(left, right, j);
  }

  lemma OneDiffers<T>(left: seq<T>, right: seq<T>, j: nat)
    requires j < |left| == |right| && forall i :: 0 <= i < |left| && i != j ==> left[i] == right[i]
    ensures left == right <==> left[j] == right[j]
  {
  }

  lemma {:induction false} PatchOthers(ts: seq<Tree>, j: nat, e: Edit, depth: nat, stale: Marks, p: Patch)
    requires j < |ts| && WellFormedF(ts) && p.id in Ids(ts[j])
    ensures var left, right := PatchAll(RenderAll(ts, depth, stale), p), RenderAll(EditAtF(ts, p.id, e), depth, stale);
            |left| == |right| == |ts| && forall i :: 0 <= i < |ts| && i != j ==> left[i] == right[i]
  {
    var left, right := PatchAll(RenderAll(ts, depth, stale), p), RenderAll(EditAtF(ts, p.id, e), depth, stale);
    forall i | 0 <= i < |ts| && i != j
      ensures left[i] == right[i]
    {
      assert Apart(ts[i], ts[j]) || Apart(ts[j], ts[i]);
      PatchElsewhere(ts[i], depth, stale, p);
      EditElsewhere(ts[i], p.id, e);
    }
  }
}
