/** The timeline of a span, entry by entry: every event and every child has one, in
    chronological order. */
module TimelineOrder {
  import opened Records
  import opened Forest
  import opened Timeline
  import opened WebView

  /** What an entry refers to, and when it was. */
  ghost predicate Refers(t: Tree, it: Item) {
    match it.ref
    case EventRef(i) => i < |t.info.events| && it.at == t.info.events[i].at
    case ChildRef(i) => i < |t.children| && it.at == t.children[i].info.startedAt
  }

  ghost predicate Has(items: seq<Item>, ref: Ref) {
    exists k :: 0 <= k < |items| && items[k].ref == ref
  }

  lemma RawRefers(t: Tree)
    ensures var raw := Raw(EventTimes(t.info), StartTimes(t.children));
            && (forall it :: it in raw ==> Refers(t, it))
            && (forall i :: 0 <= i < |t.info.events| ==> raw[i] == Item(t.info.events[i].at, EventRef(i)))
            && (forall i :: 0 <= i < |t.children| ==>
                  raw[|t.info.events| + i] == Item(t.children[i].info.startedAt, ChildRef(i)))
  {
  }

  /** Every entry is that of an event or a child at its time, every event and every child
      has exactly one, and they are in order of time: the zero time last, and what has the
      same time in order of insertion, events first. */
  lemma OrderExactly(t: Tree)
    ensures var items, n := Order(t), |t.info.events|;
            && |items| == |t.info.events| + |t.children|
            && (forall k :: 0 <= k < |items| ==> Refers(t, items[k]))
            && (forall i: nat :: i < |t.info.events| ==> Has(items, EventRef(i)))
            && (forall i: nat :: i < |t.children| ==> Has(items, ChildRef(i)))
            && (forall k, l :: 0 <= k < l < |items| ==>
                  if items[k].at == items[l].at then items[k].Index(n) < items[l].Index(n)
                  else items[l].at == ZERO_TIME || (items[k].at != ZERO_TIME && items[k].at < items[l].at))
  {
    var events, starts := EventTimes(t.info), StartTimes(t.children);
    var raw, items := Raw(events, starts), Order(t);
    TimelineRefs(events, starts);
    TimelineStable(events, starts);
    SortMembers(raw);
    RawRefers(t);
    assert items == Sort(raw);
    hide Raw, Sort, Order, EventTimes, StartTimes;
    forall k | 0 <= k < |items|
      ensures Refers(t, items[k])
    {
      assert items[k] in items;
    }
    forall i: nat | i < |t.info.events|
      ensures Has(items, EventRef(i))
    {
      assert raw[i] in items;
    }
    forall i: nat | i < |t.children|
      ensures Has(items, ChildRef(i))
    {
      assert raw[|events| + i] in items;
    }
  }

  // ----- Summing up over the entries

  function Sum<T>(items: seq<Item>, f: Item -> multiset<T>): multiset<T> {
    if items == [] then multiset{} else Sum(items[..|items| - 1], f) + f(items[|items| - 1])
  }

  lemma {:induction false} SumAppend<T>(items: seq<Item>, more: seq<Item>, f: Item -> multiset<T>)
    ensures Sum(items + more, f) == Sum(items, f) + Sum(more, f)
    decreases |more|
  {
    if more == [] {
      assert items + more == items;
    } else {
      assert (items + more)[..|items + more| - 1] == items + more[..|more| - 1];
      SumAppend(items, more[..|more| - 1], f);
    }
  }

  lemma SumOne<T>(x: Item, f: Item -> multiset<T>)
    ensures Sum([x], f) == f(x)
  {
    assert Sum([], f) == multiset{};
    assert [x][..0] == [];
  }

  lemma SumWithin<T>(a: seq<Item>, x: Item, b: seq<Item>, f: Item -> multiset<T>)
    ensures Sum(a + [x] + b, f) == Sum(a + b, f) + f(x)
  {
    hide Sum;
    SumAppend(a + [x], b, f);
    SumAppend(a, [x], f);
    SumAppend(a, b, f);
    SumOne(x, f);
  }

  lemma Without(items: seq<Item>, j: nat)
    requires j < |items|
    ensures items == items[..j] + [items[j]] + items[j + 1..]
    ensures multiset(items[..j] + items[j + 1..]) == multiset(items) - multiset{items[j]}
  {
    assert items == items[..j] + [items[j]] + items[j + 1..];
  }

  /** The order does not matter. */
  lemma {:induction false} SumPermuted<T>(items: seq<Item>, others: seq<Item>, f: Item -> multiset<T>)
    requires multiset(items) == multiset(others)
    ensures Sum(items, f) == Sum(others, f)
    decreases |items|
  {
    if items == [] {
      assert |others| == |multiset(others)| == 0;
    } else {
      var front, last := items[..|items| - 1], items[|items| - 1];
      assert Sum(items, f) == Sum(front, f) + f(last);
      hide Sum;
      assert last in multiset(others);
      var j :| 0 <= j < |others| && others[j] == last;
      var a, b := others[..j], others[j + 1..];
      Without(others, j);
      DropLast(items);
      SumPermuted(front, a + b, f);
      SumWithin(a, last, b, f);
    }
  }

  lemma {:induction false} SumEqual<T>(items: seq<Item>, f: Item -> multiset<T>, g: Item -> multiset<T>)
    requires forall it :: it in items ==> f(it) == g(it)
    ensures Sum(items, f) == Sum(items, g)
  {
    if items != [] {
      SumEqual(items[..|items| - 1], f, g);
    }
  }

  /** So it is the sum over the events and the children as they are. */
  lemma SumOrder<T>(t: Tree, f: Item -> multiset<T>)
    ensures var events, starts := EventTimes(t.info), StartTimes(t.children);
            Sum(Order(t), f) == Sum(Raw(events, []), f) + Sum(Raw([], starts), f)
  {
    var events, starts := EventTimes(t.info), StartTimes(t.children);
    TimelineStable(events, starts);
    SumPermuted(Order(t), Raw(events, starts), f);
    assert Raw(events, starts) == Raw(events, []) + Raw([], starts);
    SumAppend(Raw(events, []), Raw([], starts), f);
  }

  // ----- The events of a span and of all below it

  function Total<T>(ms: seq<multiset<T>>): multiset<T> {
    if ms == [] then multiset{} else Total(ms[..|ms| - 1]) + ms[|ms| - 1]
  }

  function TreeEvents(t: Tree): multiset<EventState>
    decreases t, 1
  {
    multiset(t.info.events) + ForestEvents(t.children)
  }

  function ForestEvents(ts: seq<Tree>): multiset<EventState>
    decreases ts, 0
  {
    Total(seq(|ts|, i requires 0 <= i < |ts| => TreeEvents(ts[i])))
  }

  function EventItems(events: seq<EventState>): seq<Item> {
    seq(|events|, i requires 0 <= i < |events| => Item(events[i].at, EventRef(i)))
  }

  function ChildItems(starts: seq<Time>): seq<Item> {
    seq(|starts|, i requires 0 <= i < |starts| => Item(starts[i], ChildRef(i)))
  }

  lemma {:induction false} SumOfEvents(events: seq<EventState>, f: Item -> multiset<EventState>)
    requires forall i :: 0 <= i < |events| ==> f(Item(events[i].at, EventRef(i))) == multiset{events[i]}
    ensures Sum(EventItems(events), f) == multiset(events)
  {
    if events != [] {
      var front := events[..|events| - 1];
      SumOfEvents(front, f);
      assert EventItems(events)[..|events| - 1] == EventItems(front);
      assert events == front + [events[|events| - 1]];
    }
  }

  lemma {:induction false} SumOfChildren(starts: seq<Time>, f: Item -> multiset<EventState>,
                                         below: seq<multiset<EventState>>)
    requires |below| == |starts|
    requires forall i :: 0 <= i < |starts| ==> f(Item(starts[i], ChildRef(i))) == below[i]
    ensures Sum(ChildItems(starts), f) == Total(below)
  {
    if starts != [] {
      var front := starts[..|starts| - 1];
      SumOfChildren(front, f, below[..|below| - 1]);
      assert ChildItems(starts)[..|starts| - 1] == ChildItems(front);
    }
  }

  lemma RawItems(t: Tree)
    ensures Raw(EventTimes(t.info), []) == EventItems(t.info.events)
    ensures Raw([], StartTimes(t.children)) == ChildItems(StartTimes(t.children))
    ensures |StartTimes(t.children)| == |t.children| &&
            forall i :: 0 <= i < |t.children| ==> StartTimes(t.children)[i] == t.children[i].info.startedAt
  {
  }

  function Each(ts: seq<Tree>): (below: seq<multiset<EventState>>)
    ensures |below| == |ts| && forall i :: 0 <= i < |ts| ==> below[i] == TreeEvents(ts[i])
    ensures ForestEvents(ts) == Total(below)
  {
    seq(|ts|, i requires 0 <= i < |ts| => TreeEvents(ts[i]))
  }

  /** If each event entry counts as its event, the timeline counts as the events and what
      the child entries count as. */
  lemma SumEvents(t: Tree, f: Item -> multiset<EventState>, below: seq<multiset<EventState>>)
    requires forall i :: 0 <= i < |t.info.events| ==>
               f(Item(t.info.events[i].at, EventRef(i))) == multiset{t.info.events[i]}
    requires |below| == |t.children|
    requires forall i :: 0 <= i < |below| ==> f(Item(t.children[i].info.startedAt, ChildRef(i))) == below[i]
    ensures Sum(Order(t), f) == multiset(t.info.events) + Total(below)
  {
    hide *;
    RawItems(t);
    SumOrder(t, f);
    SumOfEvents(t.info.events, f);
    SumOfChildren(StartTimes(t.children), f, below);
  }

  /** Nothing, any number of times. */
  function Nothing(n: nat): (below: seq<multiset<EventState>>)
    ensures |below| == n && (forall i :: 0 <= i < n ==> below[i] == multiset{}) && Total(below) == multiset{}
  {
    if n == 0 then []
    else
      assert (Nothing(n - 1) + [multiset{}])[..n - 1] == Nothing(n - 1);
      Nothing(n - 1) + [multiset{}]
  }

  // ----- Offsets

  /** An event's offset: none if either time is zero, and otherwise the time since its
      span's start, or nothing if it was before. */
  ghost predicate Offset(offset: Option<Time>, startedAt: Time, at: Time) {
    && (offset.None? <==> startedAt == ZERO_TIME || at == ZERO_TIME)
    && (offset.Some? ==>
          && offset.value >= 0
          && (at >= startedAt ==> startedAt + offset.value == at)
          && (at < startedAt ==> offset.value == 0))
  }
}
