/** The timeline order of a span's node. */
module SpanTimeline {
  import opened Forest
  import opened Timeline
  import opened StoreModel
  import opened WebView

  method SpanOrder(span: SpanState, ghost h: Heap, ghost nodes: set<SpanState>, ghost t: Tree)
    returns (order: seq<Item>)
    requires Current(h, nodes) && Rep(h, span, t)
    ensures order == Order(t) && |span.children| == |t.children|
  {
    var children := span.children;
    var starts := seq(|children|, i requires 0 <= i < |children| => children[i].startedAt);
    assert children == h[t.ID()].children;
    StartsOf(h, children, t.children);
    assert starts == StartTimes(t.children);
    order := TimelineItems(EventTimes(span.Fields()), starts);
  }

  lemma {:induction false} StartsOf(h: Heap, ns: seq<SpanState>, ts: seq<Tree>)
    requires RepF(h, ns, ts) && forall x :: x in h ==> h[x].info == h[x].node.Fields()
    ensures |ns| == |ts| && forall i :: 0 <= i < |ts| ==> ns[i].startedAt == ts[i].info.startedAt
  {
  }
}
