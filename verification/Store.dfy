/** The store itself: linked span nodes, an index by id and a table of stale
    marks, all updated in place, kept equal to an abstract forest. */
module StoreModel {
  import opened Records
  import opened Attributes
  import opened Forest
  import opened Locate
  import opened Pruning
  import opened StoreSpec

  type Index = map<string, SpanState>

  class SpanState {
    const traceID: string
    const spanID: string
    const parentID: string
    const name: string
    const startedAt: Time
    var endedAt: Time
    var attributes: seq<Attribute>
    var events: seq<EventState>
    var children: seq<SpanState>
    var ended: bool
    var terminalType: TerminalType
    var errorMessage: string

    function Fields(): Info
      reads this
    {
      Info(traceID, spanID, parentID, name, startedAt, endedAt, attributes, events,
           ended, terminalType, errorMessage)
    }

    constructor (traceID: string, spanID: string, parentID: string, name: string,
                 startedAt: Time, attributes: seq<Attribute>)
      ensures Fields() == Info(traceID, spanID, parentID, name, startedAt, ZERO_TIME, attributes, [],
                               false, TerminalUnspecified, "")
      ensures children == []
    {
      this.traceID, this.spanID, this.parentID, this.name := traceID, spanID, parentID, name;
      this.startedAt, endedAt := startedAt, ZERO_TIME;
      this.attributes, events, children := attributes, [], [];
      ended, terminalType, errorMessage := false, TerminalUnspecified, "";
    }

    method Finish(at: Time, terminalType: TerminalType, message: string)
      requires !ended
      modifies this`ended, this`endedAt, this`terminalType, this`errorMessage
      ensures Fields() == EditInfo(old(Fields()), Forest.Finish(at, terminalType, message))
    {
      ended := true;
      endedAt := at;
      this.terminalType := terminalType;
      errorMessage := message;
    }

    method AppendChild(child: SpanState)
      modifies this`children
      ensures children == old(children) + [child] && Fields() == old(Fields())
    {
      children := children + [child];
    }

    method AppendEvent(event: EventState)
      requires !ended
      modifies this`events
      ensures Fields() == EditInfo(old(Fields()), AddEvent(event))
    {
      events := events + [event];
    }

    /** Each effective attribute replaces the first one with its key, or is appended. */
    method MergeAttributes(incoming: seq<Option<Attribute>>)
      modifies this`attributes
      ensures attributes == Merge(old(attributes), incoming)
    {
      for n := 0 to |incoming|
        invariant attributes == Merge(old(attributes), incoming[..n])
      {
        assert incoming[..n + 1][..n] == incoming[..n];
        if incoming[n].None? || incoming[n].value.key == "" {
          continue;
        }
        var a := incoming[n].value;
        ghost var before := attributes;
        var matched := false;
        var i := 0;
        while i < |attributes| && !matched
          invariant 0 <= i <= |before|
          invariant attributes == if matched then SetAttribute(before, a) else before
          invariant !matched ==> forall j :: 0 <= j < i ==> before[j].key != a.key
          decreases |before| - i, !matched
        {
          if attributes[i].key == a.key {
            assert FirstMatch(before, a.key) == i;
            attributes := attributes[i := a];
            matched := true;
          } else {
            i := i + 1;
          }
        }
        if !matched {
          assert FirstMatch(before, a.key) == |before|;
          attributes := attributes + [a];
        }
      }
      assert incoming[..|incoming|] == incoming;
    }
  }

  // ----- Which forest a set of nodes stands for

  /** A node and what its fields hold. */
  datatype Cell = Cell(node: SpanState, info: Info, children: seq<SpanState>)

  type Heap = map<string, Cell>

  ghost function CellOf(n: SpanState): Cell
    reads n
  {
    Cell(n, n.Fields(), n.children)
  }

  /** Every entry of the index holds the node of that id; so no two ids share a node. */
  ghost predicate Keyed(index: Index, nodes: set<SpanState>) {
    forall x :: x in index ==> index[x].spanID == x && index[x] in nodes
  }

  ghost function Cells(index: Index, nodes: set<SpanState>): Heap
    requires Keyed(index, nodes)
    reads nodes
  {
    map x | x in index :: CellOf(index[x])
  }

  /** The cells still say what their nodes hold. */
  ghost predicate Current(h: Heap, nodes: set<SpanState>)
    reads nodes
  {
    forall x :: x in h ==> h[x].node in nodes && h[x].node.spanID == x && CellOf(h[x].node) == h[x]
  }

  /** The node `n`, with all below it, stands for the tree `t`. */
  ghost predicate Rep(h: Heap, n: SpanState, t: Tree)
    decreases t
  {
    && t.ID() in h
    && h[t.ID()].node == n
    && h[t.ID()].info == t.info
    && RepF(h, h[t.ID()].children, t.children)
  }

  ghost predicate RepF(h: Heap, ns: seq<SpanState>, ts: seq<Tree>)
    decreases ts
  {
    |ns| == |ts| && forall i :: 0 <= i < |ts| ==> Rep(h, ns[i], ts[i])
  }

  /** Only the cells of the tree's own ids matter. */
  lemma {:induction false} RepAgree(h: Heap, k: Heap, n: SpanState, t: Tree)
    requires Rep(h, n, t)
    requires forall x :: x in Ids(t) && x in h ==> x in k && k[x] == h[x]
    ensures Rep(k, n, t)
  {
    forall i | 0 <= i < |t.children|
      ensures Rep(k, h[t.ID()].children[i], t.children[i])
    {
      assert Ids(t.children[i]) <= IdsF(t.children);
      RepAgree(h, k, h[t.ID()].children[i], t.children[i]);
    }
  }

  lemma {:induction false} RepAgreeF(h: Heap, k: Heap, ns: seq<SpanState>, ts: seq<Tree>)
    requires RepF(h, ns, ts)
    requires forall x :: x in IdsF(ts) && x in h ==> x in k && k[x] == h[x]
    ensures RepF(k, ns, ts)
  {
    forall i | 0 <= i < |ts|
      ensures Rep(k, ns[i], ts[i])
    {
      assert Ids(ts[i]) <= IdsF(ts);
      RepAgree(h, k, ns[i], ts[i]);
    }
  }

  /** The cell of a found id is the node of the found subtree. */
  lemma {:induction false} FindRep(h: Heap, ns: seq<SpanState>, ts: seq<Tree>, x: string)
    requires RepF(h, ns, ts) && Find(ts, x).Some?
    ensures x in h && Rep(h, h[x].node, Find(ts, x).value.tree)
    decreases ts, 1
  {
    if LocateT(ts[0], x).Some? {
      LocateRep(h, ns[0], ts[0], x);
    } else {
      FindRep(h, ns[1..], ts[1..], x);
    }
  }

  lemma {:induction false} LocateRep(h: Heap, n: SpanState, t: Tree, x: string)
    requires Rep(h, n, t) && LocateT(t, x).Some?
    ensures x in h && Rep(h, h[x].node, LocateT(t, x).value.tree)
    decreases t, 0
  {
    if t.ID() != x {
      FindRep(h, h[t.ID()].children, t.children, x);
    }
  }

  function Added(e: Edit): seq<Tree> {
    if e.AddChild? then [e.child] else []
  }

  /** From `h` to `k` only the node of x changed, as the edit says. */
  ghost predicate Edited(h: Heap, k: Heap, x: string, e: Edit, added: seq<SpanState>) {
    && (forall y :: y in h && y != x ==> y in k && k[y] == h[y])
    && (x in h ==> x in k && k[x] == Cell(h[x].node, EditInfo(h[x].info, e), h[x].children + added))
  }

  /** Editing the node of x in place edits the tree. */
  lemma {:induction false} RepEdit(h: Heap, k: Heap, n: SpanState, t: Tree, x: string, e: Edit, added: seq<SpanState>)
    requires Rep(h, n, t) && WellFormed(t)
    requires Edited(h, k, x, e, added) && RepF(k, added, Added(e))
    ensures Rep(k, n, EditAt(t, x, e))
    decreases t, 0
  {
    RepEditF(h, k, h[t.ID()].children, t.children, x, e, added);
    if t.ID() == x {
      EditElsewhereF(t.children, x, e);
    }
  }

  lemma {:induction false} RepEditF(h: Heap, k: Heap, ns: seq<SpanState>, ts: seq<Tree>, x: string, e: Edit,
                                    added: seq<SpanState>)
    requires RepF(h, ns, ts) && WellFormedF(ts)
    requires Edited(h, k, x, e, added) && RepF(k, added, Added(e))
    ensures RepF(k, ns, EditAtF(ts, x, e))
    decreases ts, 1
  {
    forall i | 0 <= i < |ts|
      ensures Rep(k, ns[i], EditAt(ts[i], x, e))
    {
      RepEdit(h, k, ns[i], ts[i], x, e, added);
    }
  }

  // ----- Nodes and index against the abstract state, operation by operation

  /** The cells, reached from the root nodes, are the forest; all of it is indexed. */
  ghost predicate Mirrors(h: Heap, ns: seq<SpanState>, s: State) {
    StoreSpec.Valid(s) && RepF(h, ns, s.roots) && h.Keys == IdsF(s.roots)
  }

  lemma {:induction false} MirrorKeys(h: Heap, ns: seq<SpanState>, s: State)
    requires Mirrors(h, ns, s)
    ensures h.Keys == IdsF(s.roots) && |ns| == |s.roots|
  {
  }

  function EditCell(c: Cell, e: Edit, added: seq<SpanState>): (r: Cell)
    ensures added == [] ==> r.children == c.children
  {
    Cell(c.node, EditInfo(c.info, e), c.children + added)
  }

  function EditHeap(h: Heap, x: string, e: Edit): Heap {
    if x in h then h[x := EditCell(h[x], e, [])] else h
  }

  lemma {:induction false} MirrorApply(h: Heap, ns: seq<SpanState>, s: State, allow: bool, r: Record)
    requires Mirrors(h, ns, s) && !r.NoKind? && !r.SpanStarted?
    ensures Mirrors(EditHeap(h, r.spanID, EditOf(r)), ns, StoreSpec.Apply(s, allow, Some(r)))
  {
    hide Rep, IdsF, Ids, WellFormedF, WellFormed, EditAt, EditAtF;
    StepKeepsValid(s, allow, ApplyOp(Some(r)));
    ApplyIds(s.roots, allow, r);
    RepEditF(h, EditHeap(h, r.spanID, EditOf(r)), ns, s.roots, r.spanID, EditOf(r), []);
  }

  function StartedCell(r: Record, span: SpanState): Cell
    requires r.SpanStarted?
  {
    Cell(span, StartedTree(r).info, [])
  }

  lemma {:induction false} NodeOfStart(k: Heap, r: Record, span: SpanState)
    requires r.SpanStarted? && r.spanID in k && k[r.spanID] == StartedCell(r, span)
    ensures RepF(k, [span], [StartedTree(r)])
  {
  }

  /** A start links the new node under its parent. */
  lemma {:induction false} MirrorChild(h: Heap, ns: seq<SpanState>, s: State, allow: bool, r: Record, span: SpanState)
    requires Mirrors(h, ns, s) && r.SpanStarted? && AcceptsStart(s.roots, allow, r) && r.parentID in h
    ensures var parent := h[r.parentID].(children := h[r.parentID].children + [span]);
            Mirrors(h[r.parentID := parent][r.spanID := StartedCell(r, span)], ns,
                    StoreSpec.Apply(s, allow, Some(r)))
  {
    hide RepF, Rep, IdsF, Ids, WellFormedF, WellFormed;
    var k := h[r.parentID := EditCell(h[r.parentID], EditOf(r), [span])][r.spanID := StartedCell(r, span)];
    StepKeepsValid(s, allow, ApplyOp(Some(r)));
    ApplyIds(s.roots, allow, r);
    NodeOfStart(k, r, span);
    RepEditF(h, k, ns, s.roots, r.parentID, EditOf(r), [span]);
  }

  /** Or it becomes a root. */
  lemma {:induction false} MirrorRoot(h: Heap, ns: seq<SpanState>, s: State, allow: bool, r: Record, span: SpanState)
    requires Mirrors(h, ns, s) && r.SpanStarted? && AcceptsStart(s.roots, allow, r) && r.parentID !in h
    ensures Mirrors(h[r.spanID := StartedCell(r, span)], ns + [span], StoreSpec.Apply(s, allow, Some(r)))
  {
    hide Rep, IdsF, Ids, WellFormedF, WellFormed;
    var k := h[r.spanID := StartedCell(r, span)];
    StepKeepsValid(s, allow, ApplyOp(Some(r)));
    ApplyIds(s.roots, allow, r);
    NodeOfStart(k, r, span);
    RepAgreeF(h, k, ns, s.roots);
  }

  /** Dropping the first `n` roots, and their ids from the tables, keeps the rest. */
  lemma {:induction false} MirrorSuffix(h: Heap, ns: seq<SpanState>, s: State, n: nat)
    requires Mirrors(h, ns, s) && n < |s.roots|
    ensures Mirrors(Without(h, IdsF(s.roots[..n])), ns[n..], Keep(s, s.roots[n..]))
  {
    var k := Without(h, IdsF(s.roots[..n]));
    SplitAt(s.roots, n);
    SuffixWellFormed(s.roots, n);
    hide Rep, Ids, IdsF, WellFormed, WellFormedF;
    assert RepF(h, ns[n..], s.roots[n..]);
    RepAgreeF(h, k, ns[n..], s.roots[n..]);
  }

  lemma {:induction false} MirrorLimit(h: Heap, ns: seq<SpanState>, s: State, limit: int, n: nat)
    requires Mirrors(h, ns, s) && 0 < limit < |s.roots| && n == |s.roots| - limit
    ensures |ns| == |s.roots| && RepF(h, ns[..n], s.roots[..n])
    ensures var after := StoreSpec.LimitRoots(s, limit);
            && after == State(s.roots[n..], Without(s.stale, IdsF(s.roots[..n])))
            && Mirrors(Without(h, IdsF(s.roots[..n])), ns[n..], after)
  {
    MirrorSuffix(h, ns, s, n);
    KeepSuffix(s, n);
    hide Rep, IdsF, WellFormedF, Keep;
  }

  lemma {:induction false} KeepSuffix(s: State, n: nat)
    requires StoreSpec.Valid(s) && n < |s.roots|
    ensures Keep(s, s.roots[n..]) == State(s.roots[n..], Without(s.stale, IdsF(s.roots[..n])))
  {
    SplitAt(s.roots, n);
    hide IdsF;
  }

  lemma {:induction false} MirrorParts(h: Heap, ns: seq<SpanState>, s: State)
    requires Mirrors(h, ns, s)
    ensures WellFormedF(s.roots) && RepF(h, ns, s.roots)
    ensures ns == [] ==> ClearOpen(s) == s
  {
  }

  lemma {:induction false} MirrorMark(h: Heap, ns: seq<SpanState>, s: State, at: Time)
    requires Mirrors(h, ns, s)
    ensures Mirrors(h, ns, MarkStale(s, at))
  {
    hide RepF, IdsF, WellFormedF;
    StepKeepsValid(s, true, MarkOp(at));
  }

  lemma {:induction false} KeepPruned(s: State)
    requires StoreSpec.Valid(s)
    ensures ClearOpen(s) == State(PruneF(s.roots), Without(s.stale, Lost(s.roots)))
  {
    PruneIds(s.roots);
    hide IdsF, WellFormedF, PruneF;
  }

  /** Pruning the nodes, and dropping what was lost from the tables. */
  lemma {:induction false} MirrorPrune(h: Heap, k: Heap, ns: seq<SpanState>, kept: seq<SpanState>, s: State)
    requires Mirrors(h, ns, s) && RepF(k, kept, PruneF(s.roots)) && AgreeOff(h, k, IdsF(s.roots))
    ensures ClearOpen(s) == State(PruneF(s.roots), Without(s.stale, Lost(s.roots)))
    ensures Mirrors(Without(k, Lost(s.roots)), kept, ClearOpen(s))
  {
    hide RepF, Rep, IdsF, WellFormedF, PruneF;
    StepKeepsValid(s, true, ClearOpenOp);
    KeepPruned(s);
    PruneIds(s.roots);
    RepAgreeF(k, Without(k, Lost(s.roots)), kept, PruneF(s.roots));
  }

  /** The same nodes, and the same contents but for those of `ids`. */
  ghost predicate AgreeOff(h: Heap, k: Heap, ids: set<string>) {
    && k.Keys == h.Keys
    && (forall x :: x in h ==> k[x].node == h[x].node)
    && (forall x :: x in h && x !in ids ==> k[x] == h[x])
  }

  /** The first `i` trees have been pruned, leaving `kept`; nothing else changed. */
  ghost predicate PrunedTo(h: Heap, k: Heap, kept: seq<SpanState>, ts: seq<Tree>, i: nat)
    requires i <= |ts|
  {
    AgreeOff(h, k, IdsF(ts[..i])) && RepF(k, kept, PruneF(ts[..i]))
  }

  lemma {:induction false} PruneReady(h: Heap, k: Heap, ns: seq<SpanState>, kept: seq<SpanState>, ts: seq<Tree>, i: nat)
    requires i < |ts| && WellFormedF(ts) && RepF(h, ns, ts) && PrunedTo(h, k, kept, ts, i)
    ensures |ns| == |ts| && Rep(k, ns[i], ts[i]) && WellFormed(ts[i])
  {
    PrefixApart(ts, i);
    hide IdsF, Ids, WellFormed;
    RepAgree(h, k, ns[i], ts[i]);
  }

  lemma {:induction false} PruneNext(h: Heap, k: Heap, l: Heap, n: SpanState, kept: seq<SpanState>, ts: seq<Tree>,
                                     i: nat)
    requires i < |ts| && WellFormedF(ts) && PrunedTo(h, k, kept, ts, i)
    requires AgreeOff(k, l, Ids(ts[i])) && (ts[i].info.ended ==> Rep(l, n, Prune(ts[i])))
    ensures PrunedTo(h, l, if ts[i].info.ended then kept + [n] else kept, ts, i + 1)
  {
    hide IdsF, Ids, WellFormedF, Prune, PruneF, Rep;
    PrefixApart(ts, i);
    PruneIds(ts[..i]);
    IdsAppend(ts[..i], [ts[i]]);
    assert ts[..i + 1] == ts[..i] + [ts[i]];
    RepAgreeF(k, l, kept, PruneF(ts[..i]));
    PruneAppend(ts[..i], [ts[i]]);
    PruneOne(ts[i]);
  }

  lemma {:induction false} PrunedAll(h: Heap, k: Heap, kept: seq<SpanState>, ts: seq<Tree>)
    requires PrunedTo(h, k, kept, ts, |ts|)
    ensures AgreeOff(h, k, IdsF(ts)) && RepF(k, kept, PruneF(ts))
  {
    assert ts[..|ts|] == ts;
  }

  lemma PruneOne(t: Tree)
    ensures PruneF([t]) == if t.info.ended then [Prune(t)] else []
  {
  }

  /** Pruning the children leaves the span's own cell alone. */
  lemma {:induction false} ApartFromChildren(h: Heap, k: Heap, t: Tree)
    requires WellFormed(t) && t.ID() in h && AgreeOff(h, k, IdsF(t.children))
    ensures t.ID() in k && k[t.ID()] == h[t.ID()]
  {
  }

  /** Once its children are pruned, so is the span. */
  lemma {:induction false} PruneHere(h: Heap, k: Heap, n: SpanState, kept: seq<SpanState>, t: Tree)
    requires WellFormed(t) && Rep(h, n, t)
    requires AgreeOff(h, k, IdsF(t.children)) && RepF(k, kept, PruneF(t.children))
    ensures var l := k[t.ID() := Cell(n, t.info, kept)]; Rep(l, n, Prune(t)) && AgreeOff(h, l, Ids(t))
  {
    var l := k[t.ID() := Cell(n, t.info, kept)];
    PruneIds(t.children);
    assert t.ID() !in IdsF(PruneF(t.children)) && IdsF(t.children) <= Ids(t);
    hide IdsF, Ids, WellFormed, PruneF, RepF;
    RepAgreeF(k, l, kept, PruneF(t.children));
  }

  class Store {
    var roots: seq<SpanState>
    var byID: Index
    var staleOpenAt: map<string, Time>
    const allowUnknownParents: bool
    ghost var forest: seq<Tree>
    ghost var nodes: set<SpanState>

    /** The nodes reachable from the roots are exactly those of the index, form
        the forest, and are all that is ever marked stale. */
    ghost predicate Valid()
      reads this, nodes
    {
      Keyed(byID, nodes) && Mirrors(Cells(byID, nodes), roots, Abs())
    }

    ghost function Abs(): State
      reads this
    {
      State(forest, staleOpenAt)
    }

    constructor (allowUnknownParents: bool)
      ensures Valid() && Abs() == EMPTY && byID == map[] && nodes == {}
      ensures this.allowUnknownParents == allowUnknownParents
    {
      roots, byID, staleOpenAt, forest, nodes := [], map[], map[], [], {};
      this.allowUnknownParents := allowUnknownParents;
    }

    method Apply(record: Option<Record>)
      requires Valid()
      modifies this, nodes
      ensures Valid() && fresh(nodes - old(nodes))
      ensures Abs() == StoreSpec.Apply(old(Abs()), allowUnknownParents, record)
    {
      if record.None? {
        return;
      }
      var r := record.value;
      match r
      case SpanStarted(_, _, _, _, _, _) => ApplyStarted(r);
      case SpanUpdated(_, _, _) => ApplyUpdated(r);
      case SpanEnded(_, _, _, _, _) => ApplyEnded(r);
      case SpanEvent(_, _, _, _, _, _) => ApplyEvent(r);
      case NoKind =>
    }

    method ApplyStarted(r: Record)
      requires Valid() && r.SpanStarted?
      modifies this, nodes
      ensures Valid() && fresh(nodes - old(nodes))
      ensures Abs() == StoreSpec.Apply(old(Abs()), allowUnknownParents, Some(r))
    {
      hide Mirrors, IdsF;
      MirrorKeys(Cells(byID, nodes), roots, Abs());
      if r.spanID == "" || r.spanID in byID {
        return;
      }
      var parentKnown := r.parentID in byID;
      if r.parentID != "" && !parentKnown && !allowUnknownParents {
        return;
      }
      assert AcceptsStart(forest, allowUnknownParents, r);
      hide AcceptsStart, ApplyRoots, IdsF;
      var attrs := CloneAttributes(r.attrs);
      var span := new SpanState(r.traceID, r.spanID, r.parentID, r.name, TimeValue(r.startedAt), attrs);
      assert CellOf(span) == StartedCell(r, span);
      if parentKnown {
        LinkChild(r, span);
      } else {
        LinkRoot(r, span);
      }
    }

    /** Writing to one node changes one cell. */
    twostate lemma CellsOne(x: string)
      requires old(Keyed(byID, nodes)) && unchanged(this) && x in byID
      requires forall n :: n in nodes && n != byID[x] ==> unchanged(n)
      ensures Cells(byID, nodes) == old(Cells(byID, nodes))[x := CellOf(byID[x])]
    {
    }

    method AdoptChild(parentID: string, span: SpanState)
      requires Keyed(byID, nodes) && parentID in byID && span !in nodes
      modifies nodes
      ensures Keyed(byID, nodes) && CellOf(span) == old(CellOf(span))
      ensures var h := old(Cells(byID, nodes));
              Cells(byID, nodes) == h[parentID := h[parentID].(children := h[parentID].children + [span])]
    {
      byID[parentID].AppendChild(span);
      CellsOne(parentID);
    }

    /** Indexes a new node and appends it to its parent's children. */
    method LinkChild(r: Record, span: SpanState)
      requires Valid() && r.SpanStarted? && AcceptsStart(forest, allowUnknownParents, r)
      requires r.spanID !in byID && r.parentID in byID
      requires span !in nodes && span.spanID == r.spanID && CellOf(span) == StartedCell(r, span)
      modifies this, nodes
      ensures Valid() && nodes == old(nodes) + {span}
      ensures Abs() == StoreSpec.Apply(old(Abs()), allowUnknownParents, Some(r))
    {
      hide Mirrors, AcceptsStart, ApplyRoots, IdsF, StartedCell, EditOf, Cells, Keyed, CellOf;
      ghost var h := Cells(byID, nodes);
      CellsKeys(byID, nodes);
      MirrorChild(h, roots, Abs(), allowUnknownParents, r, span);
      AdoptChild(r.parentID, span);
      CellsGrow(byID, nodes, r.spanID, span);
      byID, nodes, forest := byID[r.spanID := span], nodes + {span}, ApplyRoots(forest, allowUnknownParents, r);
    }

    /** Indexes a new node and appends it to the roots. */
    method LinkRoot(r: Record, span: SpanState)
      requires Valid() && r.SpanStarted? && AcceptsStart(forest, allowUnknownParents, r)
      requires r.spanID !in byID && r.parentID !in byID
      requires span !in nodes && span.spanID == r.spanID && CellOf(span) == StartedCell(r, span)
      modifies this
      ensures Valid() && nodes == old(nodes) + {span}
      ensures Abs() == StoreSpec.Apply(old(Abs()), allowUnknownParents, Some(r))
    {
      hide Mirrors, AcceptsStart, ApplyRoots, IdsF, StartedCell, EditOf, Cells, Keyed, CellOf;
      ghost var h := Cells(byID, nodes);
      CellsKeys(byID, nodes);
      MirrorRoot(h, roots, Abs(), allowUnknownParents, r, span);
      CellsGrow(byID, nodes, r.spanID, span);
      byID, nodes, forest := byID[r.spanID := span], nodes + {span}, ApplyRoots(forest, allowUnknownParents, r);
      roots := roots + [span];
    }

    method ApplyUpdated(r: Record)
      requires Valid() && r.SpanUpdated?
      modifies this, nodes
      ensures Valid() && nodes == old(nodes)
      ensures Abs() == StoreSpec.Apply(old(Abs()), allowUnknownParents, Some(r))
    {
      hide Mirrors, IdsF, ApplyRoots, EditHeap, EditOf, Keyed;
      ghost var h := Cells(byID, nodes);
      MirrorApply(h, roots, Abs(), allowUnknownParents, r);
      RecordUpdate(r);
      forest := ApplyRoots(forest, allowUnknownParents, r);
    }

    /** The update on its node, if that is tracked and has not ended. */
    method RecordUpdate(r: Record)
      requires Keyed(byID, nodes) && r.SpanUpdated?
      modifies nodes
      ensures Keyed(byID, nodes) && Cells(byID, nodes) == EditHeap(old(Cells(byID, nodes)), r.spanID, EditOf(r))
    {
      if r.spanID in byID && !byID[r.spanID].ended {
        byID[r.spanID].MergeAttributes(r.attrs);
        CellsOne(r.spanID);
      }
    }

    method ApplyEnded(r: Record)
      requires Valid() && r.SpanEnded?
      modifies this, nodes
      ensures Valid() && nodes == old(nodes)
      ensures Abs() == StoreSpec.Apply(old(Abs()), allowUnknownParents, Some(r))
    {
      hide Mirrors, IdsF, ApplyRoots, EditHeap, EditOf, Keyed;
      ghost var h := Cells(byID, nodes);
      MirrorApply(h, roots, Abs(), allowUnknownParents, r);
      RecordEnd(r);
      forest := ApplyRoots(forest, allowUnknownParents, r);
    }

    /** The end on its node, if that is tracked and has not ended. */
    method RecordEnd(r: Record)
      requires Keyed(byID, nodes) && r.SpanEnded?
      modifies nodes
      ensures Keyed(byID, nodes) && Cells(byID, nodes) == EditHeap(old(Cells(byID, nodes)), r.spanID, EditOf(r))
    {
      if r.spanID in byID && !byID[r.spanID].ended {
        byID[r.spanID].Finish(TimeValue(r.endedAt), r.terminal, r.error);
        CellsOne(r.spanID);
      }
    }

    method ApplyEvent(r: Record)
      requires Valid() && r.SpanEvent?
      modifies this, nodes
      ensures Valid() && nodes == old(nodes)
      ensures Abs() == StoreSpec.Apply(old(Abs()), allowUnknownParents, Some(r))
    {
      hide Mirrors, IdsF, ApplyRoots, EditHeap, EditOf, Keyed;
      ghost var h := Cells(byID, nodes);
      MirrorApply(h, roots, Abs(), allowUnknownParents, r);
      RecordEvent(r);
      forest := ApplyRoots(forest, allowUnknownParents, r);
    }

    /** The event on its node, if that is tracked and has not ended. */
    method RecordEvent(r: Record)
      requires Keyed(byID, nodes) && r.SpanEvent?
      modifies nodes
      ensures Keyed(byID, nodes) && Cells(byID, nodes) == EditHeap(old(Cells(byID, nodes)), r.spanID, EditOf(r))
    {
      if r.spanID in byID && !byID[r.spanID].ended {
        var attrs := CloneAttributes(r.attrs);
        byID[r.spanID].AppendEvent(EventState(r.name, TimeValue(r.eventAt), attrs, SeverityValue(r.severity)));
        CellsOne(r.spanID);
      }
    }

    // ----- Searching

    method FindSpan(spanID: string) returns (found: SpanState?, depth: nat)
      requires Valid()
      ensures found == if spanID in byID then byID[spanID] else null
      ensures found != null ==> Find(forest, spanID).Some? && depth == |Find(forest, spanID).value.above|
      ensures found == null ==> depth == 0
    {
      NoEmptyIdF(forest);
      if spanID == "" {
        return null, 0;
      }
      FindFinds(forest, spanID);
      ghost var h := Cells(byID, nodes);
      for i := 0 to |roots|
        invariant Find(forest, spanID) == Find(forest[i..], spanID)
      {
        assert forest[i..][1..] == forest[i + 1..];
        found, depth := FindBelow(roots[i], spanID, 0, h, forest[i]);
        if found != null {
          return;
        }
      }
      return null, 0;
    }

    /** Searches one subtree; a found span comes back with its depth. */
    method FindBelow(span: SpanState, spanID: string, depth: nat, ghost h: Heap, ghost t: Tree)
      returns (found: SpanState?, foundDepth: nat)
      requires Current(h, nodes) && Rep(h, span, t)
      ensures found == null <==> LocateT(t, spanID).None?
      ensures found != null ==> spanID in h && found == h[spanID].node
      ensures foundDepth == if found == null then 0 else depth + |LocateT(t, spanID).value.above|
      decreases t
    {
      if span.spanID == spanID {
        return span, depth;
      }
      for i := 0 to |span.children|
        invariant Find(t.children, spanID) == Find(t.children[i..], spanID)
      {
        assert t.children[i..][1..] == t.children[i + 1..];
        found, foundDepth := FindBelow(span.children[i], spanID, depth + 1, h, t.children[i]);
        if found != null {
          return;
        }
      }
      return null, 0;
    }

    method HasOpenSpans() returns (open: bool)
      requires Valid()
      ensures open == HasOpen(forest)
    {
      ghost var h := Cells(byID, nodes);
      for i := 0 to |roots|
        invariant forall j :: 0 <= j < i ==> !Open(forest[j])
      {
        var o := HasOpenSpan(roots[i], h, forest[i]);
        if o {
          return true;
        }
      }
      return false;
    }

    method HasOpenSpan(span: SpanState, ghost h: Heap, ghost t: Tree) returns (open: bool)
      requires Current(h, nodes) && Rep(h, span, t)
      ensures open == Open(t)
      decreases t
    {
      if !span.ended {
        return true;
      }
      for i := 0 to |span.children|
        invariant forall j :: 0 <= j < i ==> !Open(t.children[j])
      {
        var o := HasOpenSpan(span.children[i], h, t.children[i]);
        if o {
          return true;
        }
      }
      return false;
    }

    // ----- Stale marks

    method MarkOpenSpansStale(at: Time)
      requires Valid()
      modifies this`staleOpenAt
      ensures Valid() && Abs() == MarkStale(old(Abs()), at)
    {
      hide Mirrors, Rep, OpenIds, OpenIdsT, Marked;
      ghost var h, before := Cells(byID, nodes), staleOpenAt;
      MirrorParts(h, roots, Abs());
      MirrorMark(h, roots, Abs(), at);
      MarkedNone(before, forest[..0], at);
      for i := 0 to |roots|
        modifies this`staleOpenAt
        invariant staleOpenAt == Marked(before, OpenIds(forest[..i]), at)
      {
        MarkOpenSpanStale(roots[i], at, h, forest[i]);
        MarkedNext(before, forest, i, at);
      }
      assert forest[..|forest|] == forest;
    }

    method MarkOpenSpanStale(span: SpanState, at: Time, ghost h: Heap, ghost t: Tree)
      requires Current(h, nodes) && Rep(h, span, t)
      modifies this`staleOpenAt
      ensures staleOpenAt == Marked(old(staleOpenAt), OpenIdsT(t), at)
      decreases t
    {
      if !span.ended {
        if span.spanID !in staleOpenAt {
          staleOpenAt := staleOpenAt[span.spanID := at];
        }
      }
      ghost var before := staleOpenAt;
      MarkedHere(old(staleOpenAt), before, t, at);
      hide Rep, OpenIds, OpenIdsT, Marked, IdsF, Ids;
      MarkedNone(before, t.children[..0], at);
      for i := 0 to |span.children|
        modifies this`staleOpenAt
        invariant staleOpenAt == Marked(before, OpenIds(t.children[..i]), at)
      {
        MarkOpenSpanStale(span.children[i], at, h, t.children[i]);
        MarkedNext(before, t.children, i, at);
      }
      assert t.children[..|t.children|] == t.children;
    }

    // ----- Removal

    method Clear()
      requires Valid()
      modifies this
      ensures Valid() && Abs() == EMPTY && byID == map[] && nodes == old(nodes)
    {
      roots, byID, staleOpenAt, forest := [], map[], map[], [];
    }

    method DeleteSpan(span: SpanState, ghost h: Heap, ghost t: Tree)
      requires Current(h, nodes) && Rep(h, span, t)
      modifies this`byID, this`staleOpenAt
      ensures byID == Without(old(byID), Ids(t))
      ensures staleOpenAt == Without(old(staleOpenAt), Ids(t))
      decreases t, 0
    {
      byID := byID - {span.spanID};
      staleOpenAt := staleOpenAt - {span.spanID};
      WithoutHere(old(byID), byID, t);
      WithoutHere(old(staleOpenAt), staleOpenAt, t);
      DeleteSpans(span.children, h, t.children);
    }

    method DeleteSpans(spans: seq<SpanState>, ghost h: Heap, ghost ts: seq<Tree>)
      requires Current(h, nodes) && RepF(h, spans, ts)
      modifies this`byID, this`staleOpenAt
      ensures byID == Without(old(byID), IdsF(ts))
      ensures staleOpenAt == Without(old(staleOpenAt), IdsF(ts))
      decreases ts, 1
    {
      hide Rep, Ids, IdsF, Without;
      WithoutNone(byID, ts[..0]);
      WithoutNone(staleOpenAt, ts[..0]);
      for i := 0 to |spans|
        invariant byID == Without(old(byID), IdsF(ts[..i]))
        invariant staleOpenAt == Without(old(staleOpenAt), IdsF(ts[..i]))
      {
        DeleteSpan(spans[i], h, ts[i]);
        WithoutNext(old(byID), ts, i);
        WithoutNext(old(staleOpenAt), ts, i);
      }
      assert ts[..|ts|] == ts;
    }

    method ClearOpenSpans()
      requires Valid()
      modifies this, nodes
      ensures Valid() && nodes == old(nodes)
      ensures Abs() == ClearOpen(old(Abs()))
    {
      hide Mirrors;
      MirrorParts(Cells(byID, nodes), roots, Abs());
      if |roots| == 0 {
        return;
      }
      PruneRoots();
    }

    method PruneRoots()
      requires Valid()
      modifies this, nodes
      ensures Valid() && nodes == old(nodes)
      ensures Abs() == ClearOpen(old(Abs()))
    {
      hide Mirrors, RepF, WellFormedF, ClearOpen, Lost, Without, PruneF, AgreeOff;
      ghost var h, before := Cells(byID, nodes), Abs();
      MirrorParts(h, roots, before);
      var kept, k := KeepClosedSpans(roots, h, forest);
      MirrorPrune(h, k, roots, kept, before);
      CellsPruned(old(byID), nodes, h, k, forest);
      roots, forest := kept, PruneF(forest);
    }

    /** Prunes a span's subtree; tells whether the span itself stays. */
    method KeepClosedSpan(span: SpanState, ghost h: Heap, ghost t: Tree) returns (keep: bool, ghost k: Heap)
      requires Current(h, nodes) && Rep(h, span, t) && WellFormed(t)
      modifies this`byID, this`staleOpenAt, nodes`children
      ensures keep == t.info.ended
      ensures Current(k, nodes) && (keep ==> Rep(k, span, Prune(t)))
      ensures AgreeOff(h, k, Ids(t))
      ensures byID == Without(old(byID), Lost([t]))
      ensures staleOpenAt == Without(old(staleOpenAt), Lost([t]))
      decreases t, 1
    {
      LostHere(t);
      hide IdsF, Ids, PruneF, Prune, RepF, Lost, Without;
      if !span.ended {
        DeleteSpan(span, h, t);
        return false, h;
      }
      k := PruneChildren(span, h, t);
      return true, k;
    }

    /** Replaces a span's children by the pruned ones. */
    method PruneChildren(span: SpanState, ghost h: Heap, ghost t: Tree) returns (ghost k: Heap)
      requires Current(h, nodes) && Rep(h, span, t) && WellFormed(t)
      modifies this`byID, this`staleOpenAt, nodes`children
      ensures Current(k, nodes) && Rep(k, span, Prune(t)) && AgreeOff(h, k, Ids(t))
      ensures byID == Without(old(byID), Lost(t.children))
      ensures staleOpenAt == Without(old(staleOpenAt), Lost(t.children))
      decreases t, 0
    {
      assert WellFormedF(t.children) && RepF(h, span.children, t.children);
      assert t.ID() in h && h[t.ID()] == CellOf(span);
      hide IdsF, Ids, WellFormed, WellFormedF, PruneF, Prune, Rep, RepF, Lost, Without;
      var keptChildren;
      keptChildren, k := KeepClosedSpans(span.children, h, t.children);
      assert t.ID() in k && k[t.ID()].node == span && k[t.ID()].info == t.info by { ApartFromChildren(h, k, t); }
      PruneHere(h, k, span, keptChildren, t);
      hide AgreeOff, Current;
      k := ReplaceChildren(span, keptChildren, k);
    }

    method ReplaceChildren(span: SpanState, children: seq<SpanState>, ghost k: Heap) returns (ghost l: Heap)
      requires Current(k, nodes) && span.spanID in k && k[span.spanID].node == span
      modifies span`children
      ensures l == k[span.spanID := Cell(span, k[span.spanID].info, children)]
      ensures Current(l, nodes)
    {
      span.children := children;
      l := k[span.spanID := Cell(span, k[span.spanID].info, children)];
    }

    method KeepClosedSpans(spans: seq<SpanState>, ghost h: Heap, ghost ts: seq<Tree>)
      returns (kept: seq<SpanState>, ghost k: Heap)
      requires Current(h, nodes) && RepF(h, spans, ts) && WellFormedF(ts)
      modifies this`byID, this`staleOpenAt, nodes`children
      ensures Current(k, nodes) && RepF(k, kept, PruneF(ts)) && AgreeOff(h, k, IdsF(ts))
      ensures byID == Without(old(byID), Lost(ts))
      ensures staleOpenAt == Without(old(staleOpenAt), Lost(ts))
      decreases ts, 1
    {
      kept, k := [], h;
      WithoutLost(byID, ts[..0]);
      WithoutLost(staleOpenAt, ts[..0]);
      assert |spans| == |ts| && PrunedTo(h, k, kept, ts, 0);
      assert ts[..|ts|] == ts;
      hide PrunedTo, RepF, Rep, IdsF, Ids, WellFormedF, WellFormed, PruneF, Prune, Lost, Without, AgreeOff;
      for i := 0 to |spans|
        invariant Current(k, nodes) && PrunedTo(h, k, kept, ts, i)
        invariant byID == Without(old(byID), Lost(ts[..i]))
        invariant staleOpenAt == Without(old(staleOpenAt), Lost(ts[..i]))
      {
        PruneReady(h, k, spans, kept, ts, i);
        var keep, l := KeepClosedSpan(spans[i], k, ts[i]);
        PruneNext(h, k, l, spans[i], kept, ts, i);
        WithoutLostNext(old(byID), ts, i);
        WithoutLostNext(old(staleOpenAt), ts, i);
        if keep {
          kept := kept + [spans[i]];
        }
        k := l;
      }
      PrunedAll(h, k, kept, ts);
    }

    method LimitRoots(limit: int)
      requires Valid()
      modifies this
      ensures Valid() && nodes == old(nodes)
      ensures Abs() == StoreSpec.LimitRoots(old(Abs()), limit)
    {
      hide Mirrors;
      if limit <= 0 {
        Clear();
        return;
      }
      MirrorKeys(Cells(byID, nodes), roots, Abs());
      if |roots| <= limit {
        return;
      }
      hide StoreSpec.LimitRoots;
      MirrorLimit(Cells(byID, nodes), roots, Abs(), limit, |roots| - limit);
      DropRoots(|roots| - limit);
    }

    method DropRoots(remove: nat)
      requires remove <= |roots| == |forest| && Keyed(byID, nodes)
      requires RepF(Cells(byID, nodes), roots[..remove], forest[..remove])
      modifies this
      ensures nodes == old(nodes) && Keyed(byID, nodes)
      ensures Cells(byID, nodes) == Without(old(Cells(byID, nodes)), old(IdsF(forest[..remove])))
      ensures roots == old(roots[remove..])
      ensures Abs() == State(old(forest[remove..]), Without(old(staleOpenAt), old(IdsF(forest[..remove]))))
    {
      hide RepF, Rep, IdsF, Without;
      CellsWithout(byID, nodes, IdsF(forest[..remove]));
      DeleteSpans(roots[..remove], Cells(byID, nodes), forest[..remove]);
      roots, forest := roots[remove..], forest[remove..];
    }
  }

  // ----- Pruning, one tree after another

  /** The ids that pruning removes. */
  function Lost(ts: seq<Tree>): set<string> {
    IdsF(ts) - IdsF(PruneF(ts))
  }

  lemma {:induction false} LostHere(t: Tree)
    requires WellFormed(t)
    ensures Lost([t]) == if t.info.ended then Lost(t.children) else Ids(t)
  {
    SplitIds([t]);
    if t.info.ended {
      PruneIds(t.children);
      SplitIds([Prune(t)]);
      assert PruneF([t]) == [Prune(t)];
    } else {
      assert PruneF([t]) == [];
    }
  }

  lemma {:induction false} LostNext(ts: seq<Tree>, i: nat)
    requires i < |ts| && WellFormedF(ts)
    ensures Lost(ts[..i + 1]) == Lost(ts[..i]) + Lost([ts[i]])
  {
    assert ts[..i + 1] == ts[..i] + [ts[i]];
    hide IdsF, Ids, WellFormedF, PruneF;
    PruneAppend(ts[..i], [ts[i]]);
    IdsAppend(ts[..i], [ts[i]]);
    IdsAppend(PruneF(ts[..i]), PruneF([ts[i]]));
    PruneIds(ts[..i]);
    PruneIds([ts[i]]);
    PrefixApart(ts, i);
  }

  lemma {:induction false} WithoutLost<V>(m: map<string, V>, ts: seq<Tree>)
    requires ts == []
    ensures Without(m, Lost(ts)) == m
  {
    assert IdsF(ts) == {};
  }

  lemma {:induction false} WithoutLostNext<V>(m: map<string, V>, ts: seq<Tree>, i: nat)
    requires i < |ts| && WellFormedF(ts)
    ensures Without(Without(m, Lost(ts[..i])), Lost([ts[i]])) == Without(m, Lost(ts[..i + 1]))
  {
    hide Lost, WellFormedF;
    LostNext(ts, i);
  }

  lemma {:induction false} PrefixApart(ts: seq<Tree>, i: nat)
    requires i < |ts| && WellFormedF(ts)
    ensures IdsF(ts[..i]) !! Ids(ts[i]) && IdsF([ts[i]]) == Ids(ts[i])
  {
    SplitIds([ts[i]]);
    forall j | 0 <= j < i
      ensures Apart(ts[j], ts[i])
    {
    }
  }

  // ----- Removing ids from a table, one tree after another

  function Without<V>(m: map<string, V>, ids: set<string>): map<string, V> {
    m - ids
  }

  lemma {:induction false} WithoutNone<V>(m: map<string, V>, ts: seq<Tree>)
    requires ts == []
    ensures Without(m, IdsF(ts)) == m
  {
    assert IdsF(ts) == {};
  }

  lemma {:induction false} WithoutNext<V>(m: map<string, V>, ts: seq<Tree>, i: nat)
    requires i < |ts|
    ensures Without(Without(m, IdsF(ts[..i])), Ids(ts[i])) == Without(m, IdsF(ts[..i + 1]))
  {
    assert ts[..i + 1] == ts[..i] + [ts[i]];
    IdsAppend(ts[..i], [ts[i]]);
    SplitIds([ts[i]]);
    hide Ids, IdsF;
  }

  lemma {:induction false} WithoutHere<V>(m: map<string, V>, here: map<string, V>, t: Tree)
    requires here == m - {t.ID()}
    ensures Without(here, IdsF(t.children)) == Without(m, Ids(t))
  {
  }

  lemma CellsPruned(index: Index, nodes: set<SpanState>, h: Heap, k: Heap, ts: seq<Tree>)
    requires Keyed(index, nodes) && h.Keys == index.Keys && forall x :: x in index ==> h[x].node == index[x]
    requires Current(k, nodes) && AgreeOff(h, k, IdsF(ts))
    ensures Keyed(Without(index, Lost(ts)), nodes)
    ensures Cells(Without(index, Lost(ts)), nodes) == Without(k, Lost(ts))
  {
    hide Lost, IdsF;
    assert Cells(index, nodes) == k;
    CellsWithout(index, nodes, Lost(ts));
  }

  lemma CellsKeys(index: Index, nodes: set<SpanState>)
    requires Keyed(index, nodes)
    ensures Cells(index, nodes).Keys == index.Keys
  {
  }

  lemma CellsGrow(index: Index, nodes: set<SpanState>, x: string, n: SpanState)
    requires Keyed(index, nodes) && n.spanID == x
    ensures Keyed(index[x := n], nodes + {n})
    ensures Cells(index[x := n], nodes + {n}) == Cells(index, nodes)[x := CellOf(n)]
  {
  }

  lemma CellsWithout(index: Index, nodes: set<SpanState>, ids: set<string>)
    requires Keyed(index, nodes)
    ensures Keyed(Without(index, ids), nodes)
    ensures Cells(Without(index, ids), nodes) == Without(Cells(index, nodes), ids)
  {
  }

  // ----- Marking, one tree after another

  lemma {:induction false} MarkedNone(stale: map<string, Time>, ts: seq<Tree>, at: Time)
    requires ts == []
    ensures Marked(stale, OpenIds(ts), at) == stale
  {
    assert OpenIds(ts) == {};
  }

  lemma MarkedTwice(stale: map<string, Time>, a: set<string>, b: set<string>, at: Time)
    ensures Marked(Marked(stale, a, at), b, at) == Marked(stale, a + b, at)
  {
  }

  lemma {:induction false} MarkedNext(stale: map<string, Time>, ts: seq<Tree>, i: nat, at: Time)
    requires i < |ts|
    ensures Marked(Marked(stale, OpenIds(ts[..i]), at), OpenIdsT(ts[i]), at) ==
            Marked(stale, OpenIds(ts[..i + 1]), at)
  {
    assert OpenIds(ts[..i + 1]) == OpenIds(ts[..i]) + OpenIdsT(ts[i]) by {
      assert ts[..i + 1][i] == ts[i];
      assert forall j :: 0 <= j < i ==> ts[..i + 1][j] == ts[..i][j];
    }
    hide OpenIds, OpenIdsT;
    MarkedTwice(stale, OpenIds(ts[..i]), OpenIdsT(ts[i]), at);
  }

  /** Marking a span and then its children marks its tree. */
  lemma {:induction false} MarkedHere(stale: map<string, Time>, here: map<string, Time>, t: Tree, at: Time)
    requires here == if t.info.ended || t.ID() in stale then stale else stale[t.ID() := at]
    ensures Marked(here, OpenIds(t.children), at) == Marked(stale, OpenIdsT(t), at)
  {
    var own := if t.info.ended then {} else {t.ID()};
    assert here == Marked(stale, own, at);
    MarkedTwice(stale, own, OpenIds(t.children), at);
  }

  lemma {:induction false} SplitAt(ts: seq<Tree>, k: nat)
    requires k <= |ts| && WellFormedF(ts)
    ensures IdsF(ts) == IdsF(ts[..k]) + IdsF(ts[k..]) && IdsF(ts[..k]) !! IdsF(ts[k..])
  {
    assert ts == ts[..k] + ts[k..];
    IdsAppend(ts[..k], ts[k..]);
    forall i, j | 0 <= i < k <= j < |ts|
      ensures Apart(ts[i], ts[j])
    {
    }
  }
}
