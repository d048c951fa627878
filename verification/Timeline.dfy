/** The stable chronological merge of a span's events and children. */
module Timeline {
  import opened Records

  datatype Ref = EventRef(i: nat) | ChildRef(i: nat)

  datatype Item = Item(at: Time, ref: Ref) {
    /** Position before sorting, when there are n events. */
    function Index(n: nat): nat {
      match ref
      case EventRef(i) => i
      case ChildRef(i) => n + i
    }
  }

  /** Events first, then children, in insertion order. */
  function Raw(events: seq<Time>, children: seq<Time>): seq<Item> {
    seq(|events|, i requires 0 <= i < |events| => Item(events[i], EventRef(i))) +
    seq(|children|, i requires 0 <= i < |children| => Item(children[i], ChildRef(i)))
  }

  /** The order of times: the zero time comes last. */
  predicate Sooner(a: Time, b: Time) {
    a != ZERO_TIME && (b == ZERO_TIME || a < b)
  }

  /** The comparator handed to the stable sort. */
  function Compare(n: nat, left: Item, right: Item): int {
    if left.at == ZERO_TIME && right.at == ZERO_TIME then
      (if left.Index(n) < right.Index(n) then -1 else if left.Index(n) == right.Index(n) then 0 else 1)
    else if left.at == ZERO_TIME then 1
    else if right.at == ZERO_TIME then -1
    else if left.at < right.at then -1
    else if left.at == right.at then 0
    else 1
  }

  /** Puts x behind everything that is not strictly later. */
  function Insert(s: seq<Item>, x: Item): seq<Item> {
    if s == [] || !Sooner(x.at, s[|s| - 1].at) then s + [x]
    else Insert(s[..|s| - 1], x) + [s[|s| - 1]]
  }

  function Sort(raw: seq<Item>): seq<Item> {
    if raw == [] then [] else Insert(Sort(raw[..|raw| - 1]), raw[|raw| - 1])
  }

  function Timeline(events: seq<Time>, children: seq<Time>): seq<Item> {
    Sort(Raw(events, children))
  }

  // ----- The order is the unique stable one

  /** The key order: untimed last, then by time, then by insertion index. */
  predicate Before(n: nat, a: Item, b: Item) {
    Sooner(a.at, b.at) || (!Sooner(b.at, a.at) && a.Index(n) < b.Index(n))
  }

  ghost predicate Increasing(n: nat, s: seq<Item>) {
    forall i, j :: 0 <= i < j < |s| ==> Before(n, s[i], s[j])
  }

  lemma {:induction false} InsertMultiset(s: seq<Item>, x: Item)
    ensures multiset(Insert(s, x)) == multiset(s) + multiset{x}
  {
    if s != [] && Sooner(x.at, s[|s| - 1].at) {
      InsertMultiset(s[..|s| - 1], x);
      assert s == s[..|s| - 1] + [s[|s| - 1]];
    }
  }

  lemma {:induction false} InsertIncreasing(n: nat, s: seq<Item>, x: Item)
    requires Increasing(n, s) && forall y :: y in s ==> y.Index(n) < x.Index(n)
    ensures Increasing(n, Insert(s, x))
  {
    if s != [] && Sooner(x.at, s[|s| - 1].at) {
      var front, last := s[..|s| - 1], s[|s| - 1];
      InsertIncreasing(n, front, x);
      InsertMultiset(front, x);
      forall y | y in Insert(front, x)
        ensures Before(n, y, last)
      {
        assert y in multiset(Insert(front, x));
        if y != x {
          assert y in front;
        }
      }
    }
  }

  lemma {:induction false} SortMultiset(raw: seq<Item>)
    ensures multiset(Sort(raw)) == multiset(raw)
  {
    if raw != [] {
      SortMultiset(raw[..|raw| - 1]);
      InsertMultiset(Sort(raw[..|raw| - 1]), raw[|raw| - 1]);
      assert raw == raw[..|raw| - 1] + [raw[|raw| - 1]];
    }
  }

  lemma {:induction false} SortMembers(raw: seq<Item>)
    ensures forall y :: y in Sort(raw) <==> y in raw
  {
    SortMultiset(raw);
    forall y
      ensures y in Sort(raw) <==> y in raw
    {
      assert y in Sort(raw) <==> y in multiset(Sort(raw));
      assert y in raw <==> y in multiset(raw);
    }
  }

  lemma {:induction false} SortStable(n: nat, raw: seq<Item>)
    requires forall i, j :: 0 <= i < j < |raw| ==> raw[i].Index(n) < raw[j].Index(n)
    ensures multiset(Sort(raw)) == multiset(raw)
    ensures Increasing(n, Sort(raw))
  {
    SortMultiset(raw);
    if raw != [] {
      SortStable(n, raw[..|raw| - 1]);
      SortMembers(raw[..|raw| - 1]);
      InsertIncreasing(n, Sort(raw[..|raw| - 1]), raw[|raw| - 1]);
    }
  }

  /** The timeline lists every event and child once, strictly increasing in
      (untimed, time, insertion index). */
  lemma TimelineStable(events: seq<Time>, children: seq<Time>)
    ensures multiset(Timeline(events, children)) == multiset(Raw(events, children))
    ensures Increasing(|events|, Timeline(events, children))
  {
    SortStable(|events|, Raw(events, children));
  }

  lemma BeforeLast(n: nat, s: seq<Item>, y: Item)
    requires Increasing(n, s) && y in s
    ensures y == s[|s| - 1] || Before(n, y, s[|s| - 1])
  {
  }

  lemma DropLast(s: seq<Item>)
    requires s != []
    ensures multiset(s[..|s| - 1]) == multiset(s) - multiset{s[|s| - 1]}
  {
    assert s == s[..|s| - 1] + [s[|s| - 1]];
  }

  lemma SameLast(n: nat, s: seq<Item>, t: seq<Item>)
    requires Increasing(n, s) && Increasing(n, t) && multiset(s) == multiset(t) && s != []
    ensures t != [] && t[|t| - 1] == s[|s| - 1]
  {
    assert s[|s| - 1] in multiset(t) && t[|t| - 1] in multiset(s);
    BeforeLast(n, s, t[|t| - 1]);
    BeforeLast(n, t, s[|s| - 1]);
  }

  /** And no other list does. */
  lemma {:induction false} IncreasingUnique(n: nat, s: seq<Item>, t: seq<Item>)
    requires Increasing(n, s) && Increasing(n, t) && multiset(s) == multiset(t)
    ensures s == t
    decreases |s|
  {
    if s != [] {
      SameLast(n, s, t);
      DropLast(s);
      DropLast(t);
      IncreasingUnique(n, s[..|s| - 1], t[..|t| - 1]);
      assert s == s[..|s| - 1] + [s[|s| - 1]];
      assert t == t[..|t| - 1] + [t[|t| - 1]];
    } else {
      assert |multiset(t)| == |t|;
    }
  }

  /** Every entry refers to an event or child that exists. */
  lemma TimelineRefs(events: seq<Time>, children: seq<Time>)
    ensures |Timeline(events, children)| == |events| + |children|
    ensures forall it :: it in Timeline(events, children) ==> it in Raw(events, children)
  {
    SortMultiset(Raw(events, children));
    SortMembers(Raw(events, children));
    assert |multiset(Timeline(events, children))| == |multiset(Raw(events, children))|;
  }

  // ----- Adding one entry

  /** A new child goes to the end of the unsorted list. */
  lemma AppendChild(events: seq<Time>, children: seq<Time>, at: Time)
    ensures Timeline(events, children + [at]) ==
            Insert(Timeline(events, children), Item(at, ChildRef(|children|)))
  {
    var raw := Raw(events, children + [at]);
    assert raw[..|raw| - 1] == Raw(events, children);
  }

  /** A new event goes before the children in the unsorted list. It ends up last
      exactly if no event is later and every child is sooner. */
  predicate EventLast(events: seq<Time>, children: seq<Time>, at: Time) {
    && (forall i :: 0 <= i < |events| ==> !Sooner(at, events[i]))
    && (forall i :: 0 <= i < |children| ==> Sooner(children[i], at))
  }

  /** A new child ends up last exactly if nothing is later. */
  predicate ChildLast(events: seq<Time>, children: seq<Time>, at: Time) {
    && (forall i :: 0 <= i < |events| ==> !Sooner(at, events[i]))
    && (forall i :: 0 <= i < |children| ==> !Sooner(at, children[i]))
  }

  lemma {:induction false} InsertEnd(s: seq<Item>, last: Item, x: Item)
    requires Sooner(x.at, last.at)
    ensures Insert(s + [last], x) == Insert(s, x) + [last]
  {
    assert (s + [last])[..|s|] == s;
  }

  lemma {:induction false} AppendEvent(events: seq<Time>, children: seq<Time>, at: Time)
    requires EventLast(events, children, at)
    ensures Timeline(events + [at], children) == Timeline(events, children) + [Item(at, EventRef(|events|))]
  {
    var added := Item(at, EventRef(|events|));
    if children == [] {
      var raw := Raw(events + [at], []);
      assert raw[..|raw| - 1] == Raw(events, []);
      TimelineRefs(events, []);
      assert forall it :: it in Raw(events, []) ==> !Sooner(at, it.at);
    } else {
      var front, last := children[..|children| - 1], children[|children| - 1];
      assert children == front + [last];
      AppendEvent(events, front, at);
      AppendChild(events + [at], front, last);
      AppendChild(events, front, last);
      InsertEnd(Timeline(events, front), added, Item(last, ChildRef(|front|)));
    }
  }

  /** The last entry of the timeline comes after every other. */
  lemma LastIsGreatest(events: seq<Time>, children: seq<Time>, it: Item)
    requires it in Raw(events, children)
    ensures var items := Timeline(events, children);
            |items| > 0 && (it == items[|items| - 1] || Before(|events|, it, items[|items| - 1]))
  {
    TimelineStable(events, children);
    assert it in multiset(Timeline(events, children));
  }

  /** A new event is the last entry exactly if no event is later and every child
      is strictly sooner; then the rest of the timeline is as before. */
  lemma EventLastExact(events: seq<Time>, children: seq<Time>, at: Time)
    ensures var items := Timeline(events + [at], children);
            && |items| > 0
            && (EventLast(events, children, at) <==> items[|items| - 1] == Item(at, EventRef(|events|)))
            && (EventLast(events, children, at) <==>
                items == Timeline(events, children) + [Item(at, EventRef(|events|))])
  {
    var raw, x := Raw(events + [at], children), Item(at, EventRef(|events|));
    assert raw[|events|] == x;
    LastIsGreatest(events + [at], children, x);
    var items := Timeline(events + [at], children);
    if items[|items| - 1] == x {
      forall i | 0 <= i < |events|
        ensures !Sooner(at, events[i])
      {
        assert raw[i] == Item(events[i], EventRef(i));
        LastIsGreatest(events + [at], children, raw[i]);
      }
      forall i | 0 <= i < |children|
        ensures Sooner(children[i], at)
      {
        assert raw[|events| + 1 + i] == Item(children[i], ChildRef(i));
        LastIsGreatest(events + [at], children, raw[|events| + 1 + i]);
      }
    }
    if EventLast(events, children, at) {
      AppendEvent(events, children, at);
    }
  }

  /** Likewise for a new child, which only needs that nothing is later. */
  lemma ChildLastExact(events: seq<Time>, children: seq<Time>, at: Time)
    ensures var items := Timeline(events, children + [at]);
            && |items| > 0
            && (ChildLast(events, children, at) <==> items[|items| - 1] == Item(at, ChildRef(|children|)))
            && (ChildLast(events, children, at) <==>
                items == Timeline(events, children) + [Item(at, ChildRef(|children|))])
  {
    var raw, x := Raw(events, children + [at]), Item(at, ChildRef(|children|));
    assert raw[|events| + |children|] == x;
    LastIsGreatest(events, children + [at], x);
    var items := Timeline(events, children + [at]);
    if items[|items| - 1] == x {
      forall i | 0 <= i < |events|
        ensures !Sooner(at, events[i])
      {
        assert raw[i] == Item(events[i], EventRef(i));
        LastIsGreatest(events, children + [at], raw[i]);
      }
      forall i | 0 <= i < |children|
        ensures !Sooner(at, children[i])
      {
        assert raw[|events| + i] == Item(children[i], ChildRef(i));
        LastIsGreatest(events, children + [at], raw[|events| + i]);
      }
    }
    if ChildLast(events, children, at) {
      AppendChild(events, children, at);
      TimelineRefs(events, children);
      assert forall it :: it in Raw(events, children) ==> !Sooner(at, it.at);
    }
  }

  // ----- The sort itself

  lemma {:induction false} InsertPlace(s: seq<Item>, j: nat, x: Item)
    requires j <= |s| && (j > 0 ==> !Sooner(x.at, s[j - 1].at))
    requires forall k :: j <= k < |s| ==> Sooner(x.at, s[k].at)
    ensures Insert(s, x) == s[..j] + [x] + s[j..]
  {
    if j < |s| {
      var front, last := s[..|s| - 1], s[|s| - 1];
      InsertPlace(front, j, x);
      assert front[..j] == s[..j] && s[j..] == front[j..] + [last];
    } else {
      assert s[..j] == s;
    }
  }

  /** One pass of the insertion sort over the slice: the entry at i moves down
      past everything that compares greater. */
  method Sink(items: seq<Item>, n: nat, i: nat) returns (sunk: seq<Item>)
    requires i < |items|
    requires forall y :: y in items[..i] ==> (Compare(n, items[i], y) < 0 <==> Sooner(items[i].at, y.at))
    ensures sunk == Insert(items[..i], items[i]) + items[i + 1..]
  {
    hide Insert, Compare, Sooner;
    sunk := items;
    assert forall k :: 0 <= k < i ==> items[k] in items[..i];
    var j := i;
    while j > 0 && Compare(n, sunk[j], sunk[j - 1]) < 0
      invariant 0 <= j <= i
      invariant sunk == items[..j] + [items[i]] + items[j..i] + items[i + 1..]
      invariant forall k :: j <= k < i ==> Sooner(items[i].at, items[k].at)
    {
      sunk := sunk[j := sunk[j - 1]][j - 1 := sunk[j]];
      j := j - 1;
    }
    InsertPlace(items[..i], j, items[i]);
    assert items[..i][..j] == items[..j] && items[..i][j..] == items[j..i];
  }

  /** A later entry compares less than an earlier one exactly if it is sooner. */
  lemma ComparesSooner(n: nat, raw: seq<Item>, i: nat)
    requires i < |raw| && forall j, k :: 0 <= j < k < |raw| ==> raw[j].Index(n) < raw[k].Index(n)
    ensures |Sort(raw[..i])| == i
    ensures forall y :: y in Sort(raw[..i]) ==> (Compare(n, raw[i], y) < 0 <==> Sooner(raw[i].at, y.at))
  {
    SortMultiset(raw[..i]);
    SortMembers(raw[..i]);
    assert |multiset(Sort(raw[..i]))| == |multiset(raw[..i])|;
  }

  /** The stable sort with the comparator. */
  method SortStableFunc(raw: seq<Item>, n: nat) returns (items: seq<Item>)
    requires forall i, j :: 0 <= i < j < |raw| ==> raw[i].Index(n) < raw[j].Index(n)
    ensures items == Sort(raw)
  {
    hide Insert, Sort, Compare, Sooner;
    items := raw;
    SortNone(raw[..0]);
    for i := 0 to |raw|
      invariant items == Sort(raw[..i]) + raw[i..]
    {
      ComparesSooner(n, raw, i);
      SortNext(raw, i);
      ghost var sorted := Sort(raw[..i]);
      assert items[..i] == sorted && items[i] == raw[i] && items[i + 1..] == raw[i + 1..];
      items := Sink(items, n, i);
    }
    assert raw[..|raw|] == raw;
  }

  lemma SortNone(raw: seq<Item>)
    requires raw == []
    ensures Sort(raw) == []
  {
  }

  lemma SortNext(raw: seq<Item>, i: nat)
    requires i < |raw|
    ensures Sort(raw[..i + 1]) == Insert(Sort(raw[..i]), raw[i])
  {
    assert raw[..i + 1][..i] == raw[..i];
    hide Insert;
  }

  /** Collects the entries and sorts them. */
  method TimelineItems(events: seq<Time>, children: seq<Time>) returns (items: seq<Item>)
    ensures items == Timeline(events, children)
  {
    ghost var raw := Raw(events, children);
    items := [];
    for i := 0 to |events|
      invariant items == raw[..i]
    {
      items := items + [Item(events[i], EventRef(i))];
    }
    for i := 0 to |children|
      invariant items == raw[..|events| + i]
    {
      items := items + [Item(children[i], ChildRef(i))];
    }
    assert items == raw;
    items := SortStableFunc(items, |events|);
  }
}
