/** Removing the spans that are still open, together with everything below them. */
module Pruning {
  import opened Records
  import opened Forest
  import opened Locate

  function Prune(t: Tree): Tree {
    Tree(t.info, PruneF(t.children))
  }

  function PruneF(ts: seq<Tree>): seq<Tree> {
    if ts == [] then []
    else (if ts[0].info.ended then [Prune(ts[0])] else []) + PruneF(ts[1..])
  }

  predicate Open(t: Tree) {
    !t.info.ended || HasOpen(t.children)
  }

  predicate HasOpen(ts: seq<Tree>) {
    exists i :: 0 <= i < |ts| && Open(ts[i])
  }

  ghost predicate AllEnded(path: seq<Info>) {
    forall i :: 0 <= i < |path| ==> path[i].ended
  }

  /** Ids in the order a depth-first walk meets them. */
  function Preorder(ts: seq<Tree>): seq<string> {
    if ts == [] then []
    else [ts[0].ID()] + Preorder(ts[0].children) + Preorder(ts[1..])
  }

  function Only(xs: seq<string>, keep: set<string>): seq<string> {
    if xs == [] then []
    else (if xs[0] in keep then [xs[0]] else []) + Only(xs[1..], keep)
  }

  lemma {:induction false} PruneAppend(ts: seq<Tree>, us: seq<Tree>)
    ensures PruneF(ts + us) == PruneF(ts) + PruneF(us)
    decreases |ts|
  {
    if ts == [] {
      assert ts + us == us;
    } else {
      var first := if ts[0].info.ended then [Prune(ts[0])] else [];
      assert (ts + us)[0] == ts[0] && (ts + us)[1..] == ts[1..] + us;
      assert PruneF(ts + us) == first + PruneF(ts[1..] + us);
      assert PruneF(ts) == first + PruneF(ts[1..]);
      hide PruneF, Prune;
      PruneAppend(ts[1..], us);
    }
  }

  lemma {:induction false} PruneIds(ts: seq<Tree>)
    ensures IdsF(PruneF(ts)) <= IdsF(ts)
  {
    if ts != [] {
      var kept := if ts[0].info.ended then [Prune(ts[0])] else [];
      SplitIds(ts);
      IdsAppend(kept, PruneF(ts[1..]));
      if ts[0].info.ended {
        PruneIds(ts[0].children);
        SplitIds(kept);
        assert IdsF(kept) <= Ids(ts[0]);
      }
      PruneIds(ts[1..]);
    }
  }

  lemma {:induction false} PruneUnder(ts: seq<Tree>, p: string)
    requires Under(ts, p)
    ensures Under(PruneF(ts), p)
  {
    if ts != [] {
      PruneUnder(ts[1..], p);
    }
  }

  lemma {:induction false} PruneWellFormed(ts: seq<Tree>)
    requires WellFormedF(ts)
    ensures WellFormedF(PruneF(ts))
  {
    if ts != [] {
      SplitWellFormed(ts);
      PruneWellFormed(ts[1..]);
      if ts[0].info.ended {
        PruneWellFormed(ts[0].children);
        PruneUnder(ts[0].children, ts[0].ID());
        PruneIds(ts[0].children);
        PruneIds(ts[1..]);
        WellFormedCons(Prune(ts[0]), PruneF(ts[1..]));
      }
    }
  }

  lemma {:induction false} WellFormedCons(t: Tree, ts: seq<Tree>)
    requires WellFormed(t) && WellFormedF(ts) && Ids(t) !! IdsF(ts)
    ensures WellFormedF([t] + ts)
  {
    forall i | 0 <= i < |ts|
      ensures Apart(t, ts[i])
    {
      assert Ids(ts[i]) <= IdsF(ts);
    }
  }

  /** What is left of a search result: nothing, unless the span and everything
      above it have ended. */
  ghost function PruneFound(found: Option<Hit>): Option<Hit> {
    match found
    case None => None
    case Some(hit) =>
      if AllEnded(hit.above + [hit.tree.info]) then Some(Hit(Prune(hit.tree), hit.above)) else None
  }

  lemma AllEndedCons(info: Info, path: seq<Info>)
    ensures AllEnded([info] + path) <==> info.ended && AllEnded(path)
  {
    assert ([info] + path)[0] == info;
    assert forall i :: 0 <= i < |path| ==> ([info] + path)[i + 1] == path[i];
  }

  lemma PruneBelow(info: Info, found: Option<Hit>)
    ensures info.ended ==> Below(info, PruneFound(found)) == PruneFound(Below(info, found))
    ensures !info.ended ==> PruneFound(Below(info, found)) == None
  {
    if found.Some? {
      var above, last := found.value.above, [found.value.tree.info];
      assert ([info] + above) + last == [info] + (above + last);
      AllEndedCons(info, above + last);
      hide AllEnded, Prune, PruneF;
    }
  }

  lemma {:induction false} PruneLocate(t: Tree, x: string)
    requires WellFormed(t)
    ensures PruneFound(LocateT(t, x)) == if t.info.ended then LocateT(Prune(t), x) else None
    decreases t, 0
  {
    PruneBelow(t.info, Find(t.children, x));
    PruneFind(t.children, x);
    assert ([] + [t.info])[0] == t.info;
  }

  lemma {:induction false} PruneFind(ts: seq<Tree>, x: string)
    requires WellFormedF(ts)
    ensures Find(PruneF(ts), x) == PruneFound(Find(ts, x))
    decreases ts, 1
  {
    if ts != [] {
      SplitWellFormed(ts);
      LocateFinds(ts[0], x);
      PruneLocate(ts[0], x);
      PruneFind(ts[1..], x);
      if x in Ids(ts[0]) {
        PruneIds(ts[1..]);
        FindFinds(PruneF(ts[1..]), x);
      }
      if ts[0].info.ended {
        assert PruneF(ts)[1..] == PruneF(ts[1..]);
      } else {
        assert PruneF(ts) == PruneF(ts[1..]);
      }
    }
  }

  /** Exactly the spans that have ended and whose ancestors all have stay, and
      under the same ancestors, hence at the same depth. */
  lemma PruneExact(ts: seq<Tree>, x: string)
    requires WellFormedF(ts)
    ensures x in IdsF(PruneF(ts)) <==> x in IdsF(ts) && AllEnded(Path(ts, x))
    ensures x in IdsF(PruneF(ts)) ==> Path(PruneF(ts), x) == Path(ts, x)
  {
    FindFinds(ts, x);
    FindFinds(PruneF(ts), x);
    PruneFind(ts, x);
  }

  lemma {:induction false} OnlyAppend(xs: seq<string>, ys: seq<string>, keep: set<string>)
    ensures Only(xs + ys, keep) == Only(xs, keep) + Only(ys, keep)
  {
    if xs == [] {
      assert xs + ys == ys;
    } else {
      assert (xs + ys)[1..] == xs[1..] + ys;
      OnlyAppend(xs[1..], ys, keep);
    }
  }

  lemma {:induction false} PreorderIds(ts: seq<Tree>)
    ensures forall x :: x in Preorder(ts) <==> x in IdsF(ts)
  {
    if ts != [] {
      SplitIds(ts);
      PreorderIds(ts[0].children);
      PreorderIds(ts[1..]);
    }
  }

  lemma {:induction false} OnlyNone(xs: seq<string>, keep: set<string>)
    requires forall x :: x in xs ==> x !in keep
    ensures Only(xs, keep) == []
  {
    if xs != [] {
      OnlyNone(xs[1..], keep);
    }
  }

  /** What a keep-set for a whole forest is on its parts. */
  lemma {:induction false} KeepSplit(ts: seq<Tree>, keep: set<string>)
    requires ts != [] && WellFormedF(ts) && keep * IdsF(ts) == IdsF(PruneF(ts))
    ensures keep * IdsF(ts[1..]) == IdsF(PruneF(ts[1..]))
    ensures ts[0].info.ended ==> ts[0].ID() in keep
    ensures ts[0].info.ended ==> keep * IdsF(ts[0].children) == IdsF(PruneF(ts[0].children))
    ensures !ts[0].info.ended ==> keep !! Ids(ts[0])
  {
    var kept := if ts[0].info.ended then [Prune(ts[0])] else [];
    SplitIds(ts);
    SplitWellFormed(ts);
    PruneIds(ts[1..]);
    PruneIds(ts[0].children);
    IdsAppend(kept, PruneF(ts[1..]));
    if kept != [] {
      SplitIds(kept);
    }
  }

  /** The kept spans stay in the order they had. */
  lemma {:induction false} PruneOrder(ts: seq<Tree>, keep: set<string>)
    requires WellFormedF(ts) && keep * IdsF(ts) == IdsF(PruneF(ts))
    ensures Preorder(PruneF(ts)) == Only(Preorder(ts), keep)
  {
    if ts != [] {
      var id, kids, rest := ts[0].ID(), Preorder(ts[0].children), Preorder(ts[1..]);
      SplitWellFormed(ts);
      KeepSplit(ts, keep);
      PruneOrder(ts[1..], keep);
      OnlyAppend([id] + kids, rest, keep);
      if ts[0].info.ended {
        OnlyAppend([id], kids, keep);
        PruneOrder(ts[0].children, keep);
        assert PruneF(ts)[1..] == PruneF(ts[1..]);
      } else {
        PreorderIds(ts[0].children);
        OnlyNone([id] + kids, keep);
        assert PruneF(ts) == PruneF(ts[1..]);
      }
    }
  }

  lemma {:induction false} HasOpenSplit(ts: seq<Tree>)
    requires ts != []
    ensures HasOpen(ts) <==> Open(ts[0]) || HasOpen(ts[1..])
  {
    if HasOpen(ts) && !Open(ts[0]) {
      var i :| 0 <= i < |ts| && Open(ts[i]);
      assert ts[1..][i - 1] == ts[i];
    }
    if HasOpen(ts[1..]) {
      var i :| 0 <= i < |ts[1..]| && Open(ts[1..][i]);
      assert ts[i + 1] == ts[1..][i];
    }
  }

  lemma {:induction false} PruneCloses(ts: seq<Tree>)
    ensures !HasOpen(PruneF(ts))
  {
    if ts != [] {
      PruneCloses(ts[0].children);
      PruneCloses(ts[1..]);
      if ts[0].info.ended {
        assert PruneF(ts)[1..] == PruneF(ts[1..]);
        HasOpenSplit(PruneF(ts));
      }
    }
  }

  /** With nothing open there is nothing to prune; so pruning twice is pruning once. */
  lemma {:induction false} PruneNothing(ts: seq<Tree>)
    requires !HasOpen(ts)
    ensures PruneF(ts) == ts
  {
    if ts != [] {
      HasOpenSplit(ts);
      PruneNothing(ts[0].children);
      PruneNothing(ts[1..]);
    }
  }

  lemma {:induction false} PruneShorter(ts: seq<Tree>)
    ensures |PruneF(ts)| <= |ts|
  {
    if ts != [] {
      PruneShorter(ts[1..]);
    }
  }
}
