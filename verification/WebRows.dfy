/** What a card's timeline shows of its span's events and children. */
module WebRows {
  import opened Forest
  import opened Timeline
  import opened WebView
  import opened TimelineOrder

  /** An item shows its entry: an event of the span with its place and offset, or the card
      of a child, one deeper. */
  ghost predicate ShowsEntry(t: Tree, it: Item, item: CardItem, depth: nat, stale: Marks) {
    match it.ref
    case EventRef(i) =>
      && i < |t.info.events| && item.EventItem?
      && item.event == EventCard(t.ID(), i, t.info.events[i], item.event.offset)
      && Offset(item.event.offset, t.info.startedAt, t.info.events[i].at)
    case ChildRef(i) => i < |t.children| && item == SpanItem(Render(t.children[i], depth + 1, stale))
  }

  /** A card's timeline has one item for each entry of its span's timeline, in order. */
  lemma TimelineExactly(t: Tree, depth: nat, stale: Marks)
    ensures var items := RenderTimeline(t, depth, stale);
            && |items| == |Order(t)| == |t.info.events| + |t.children|
            && forall k :: 0 <= k < |items| ==> ShowsEntry(t, Order(t)[k], items[k], depth, stale)
  {
    OrderExactly(t);
    hide Order, Render;
    forall k | 0 <= k < |Order(t)|
      ensures ShowsEntry(t, Order(t)[k], RenderTimeline(t, depth, stale)[k], depth, stale)
    {
      assert Refers(t, Order(t)[k]);
    }
  }

  // ----- Every event is on the page once

  /** The events on a card, here and below. */
  function CardEvents(card: Card): multiset<EventState>
    decreases card, 1
  {
    ItemsEvents(card.timeline)
  }

  function ItemsEvents(items: seq<CardItem>): multiset<EventState>
    decreases items, 0
  {
    if items == [] then multiset{} else ItemsEvents(items[..|items| - 1]) + ItemEvents(items[|items| - 1])
  }

  function ItemEvents(item: CardItem): multiset<EventState>
    decreases item, 2
  {
    match item
    case EventItem(card) => multiset{card.event}
    case SpanItem(card) => CardEvents(card)
  }

  function EntryEvents(t: Tree, cards: seq<Card>, it: Item): multiset<EventState>
    requires |cards| == |t.children|
  {
    match it.ref
    case EventRef(i) => if i < |t.info.events| then multiset{t.info.events[i]} else multiset{}
    case ChildRef(i) => if i < |cards| then CardEvents(cards[i]) else multiset{}
  }

  lemma {:induction false} LayoutSum(t: Tree, items: seq<Item>, cards: seq<Card>)
    requires |cards| == |t.children| && InRange(items, |t.info.events|, |cards|)
    ensures ItemsEvents(Layout(t.info, items, cards)) == Sum(items, it => EntryEvents(t, cards, it))
  {
    if items != [] {
      var front, last := items[..|items| - 1], items[|items| - 1];
      var all := Layout(t.info, items, cards);
      assert last in items && all[..|all| - 1] == Layout(t.info, front, cards);
      hide CardEvents;
      LayoutSum(t, front, cards);
      SumEqual(front, it => EntryEvents(t, cards, it), it => EntryEvents(t, cards, it));
    }
  }

  lemma ItemsCount(t: Tree, cards: seq<Card>, below: seq<multiset<EventState>>)
    requires |cards| == |below| == |t.children|
    requires forall i :: 0 <= i < |cards| ==> CardEvents(cards[i]) == below[i]
    ensures ItemsEvents(Layout(t.info, Order(t), cards)) == multiset(t.info.events) + Total(below)
  {
    hide Order, Sum, Layout, ItemsEvents, CardEvents, Total;
    LayoutSum(t, Order(t), cards);
    SumEvents(t, it => EntryEvents(t, cards, it), below);
  }

  lemma LayoutCounts(t: Tree, cards: seq<Card>)
    requires |cards| == |t.children|
    requires forall i :: 0 <= i < |cards| ==> CardEvents(cards[i]) == TreeEvents(t.children[i])
    ensures ItemsEvents(Layout(t.info, Order(t), cards)) == TreeEvents(t)
  {
    assert TreeEvents(t) == multiset(t.info.events) + Total(Each(t.children));
    hide *;
    ItemsCount(t, cards, Each(t.children));
  }

  /** A card shows its span's own events, and those of all that is below it, each once. */
  lemma {:induction false} EventsShown(t: Tree, depth: nat, stale: Marks)
    ensures CardEvents(Render(t, depth, stale)) == TreeEvents(t)
  {
    var cards := RenderAll(t.children, depth + 1, stale);
    assert Render(t, depth, stale).timeline == Layout(t.info, Order(t), cards);
    forall i | 0 <= i < |cards|
      ensures CardEvents(cards[i]) == TreeEvents(t.children[i])
    {
      EventsShown(t.children[i], depth + 1, stale);
    }
    hide Render, RenderAll, TreeEvents, ItemsEvents, Layout, Order;
    LayoutCounts(t, cards);
  }

  function PageEvents(page: seq<Card>): multiset<EventState> {
    Total(seq(|page|, i requires 0 <= i < |page| => CardEvents(page[i])))
  }

  /** The page shows every event of every span, each once. */
  lemma PageShowsEvents(ts: seq<Tree>, depth: nat, stale: Marks)
    ensures PageEvents(RenderAll(ts, depth, stale)) == ForestEvents(ts)
  {
    hide Render, CardEvents, TreeEvents;
    forall i | 0 <= i < |ts|
      ensures CardEvents(Render(ts[i], depth, stale)) == TreeEvents(ts[i])
    {
      EventsShown(ts[i], depth, stale);
    }
    var page := RenderAll(ts, depth, stale);
    assert seq(|page|, i requires 0 <= i < |page| => CardEvents(page[i])) ==
           seq(|ts|, i requires 0 <= i < |ts| => TreeEvents(ts[i]));
  }
}
