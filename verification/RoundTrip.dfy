/** What the hub's log and its subscribers have of every span, and what they can
    rebuild from it. */
module RoundTrip {
  import opened Records
  import opened Forest
  import opened Locate
  import opened Subsequence
  import opened Confluence
  import opened HubSpec
  import opened Streams
  import opened EmitterSpec
  import opened EmitterProof

  // ----- Per-span streams

  lemma GrammarPrefix(own: seq<Record>, more: seq<Record>)
    requires Grammar(more) && own <= more
    ensures Grammar(own)
  {
  }

  /** In every run, each span's published records are its start, then updates and
      events, then at most its end. */
  lemma StreamGrammar(ops: seq<Operation>, id: string)
    ensures Grammar(Project(EmitterSpec.Run(NEW_SYSTEM, ops).hub.log, id))
  {
    EmitterValid(ops);
    var s := EmitterSpec.Run(NEW_SYSTEM, ops);
    hide Project, HubSpec.Valid, Serial, EmitterSpec.Run, FoldSpan, Shows, CallsOwned, ParentsBefore;
    assert Logged(s, id);
    if id in s.spans {
      assert SpanValid(s, id);
      GrammarPrefix(Project(s.hub.log, id), s.spans[id].issued);
    }
  }

  /** And each subscriber gets a subsequence of them, out of what was published
      while it was registered: all of that, once nobody is sending, if its buffer
      was never full. */
  lemma SubscriberGrammar(ops: seq<Operation>, id: string, ch: ChanId)
    requires ch < |EmitterSpec.Run(NEW_SYSTEM, ops).hub.chans|
    ensures var h := EmitterSpec.Run(NEW_SYSTEM, ops).hub;
            var c := h.chans[ch];
            && c.since <= Horizon(h, c) <= |h.log|
            && Subseq(Project(c.received + c.buffer, id), Project(h.log[c.since..Horizon(h, c)], id))
            && (!c.dropped && (forall tid :: !Reading(h, tid)) ==>
                  Project(c.received + c.buffer, id) == Project(h.log[c.since..Horizon(h, c)], id))
  {
    hide Project, HubSpec.Valid, Serial, EmitterSpec.Run, Subseq, FoldSpan, Shows, CallsOwned, ParentsBefore, Logged,
      SpanValid;
    EmitterValid(ops);
    SubscriberStream(EmitterSpec.Run(NEW_SYSTEM, ops).hub, ch, id);
  }

  /** A record of the log was handed over by its span. */
  lemma {:induction false} LogMember(log: seq<Record>, i: nat)
    requires i < |log|
    ensures log[i] in Project(log, log[i].SpanID())
  {
    var front := log[..|log| - 1];
    ProjectLast(log, log[i].SpanID());
    if i < |front| {
      LogMember(front, i);
      assert front[i] == log[i];
    }
  }

  lemma IssuedBy(s: System, id: string, k: nat)
    requires id in s.spans && SpanValid(s, id) && k < |s.spans[id].issued|
    ensures var r := s.spans[id].issued[k];
            && !r.NoKind? && r.traceID == s.spans[id].traceID
            && (r.SpanStarted? ==> r.parentID == s.spans[id].parentID)
  {
    hide FoldSpan, Shows;
  }

  lemma LoggedSpan(s: System, i: nat)
    requires EmitterSpec.Valid(s) && i < |s.hub.log|
    ensures var r := s.hub.log[i];
            && r.SpanID() in s.spans && !r.NoKind? && r.traceID == s.spans[r.SpanID()].traceID
            && (r.SpanStarted? ==> r.parentID == s.spans[r.spanID].parentID)
  {
    hide Project, HubSpec.Valid, Serial, CallsOwned, ParentsBefore, SpanValid, WaitingFor;
    var r := s.hub.log[i];
    var id := r.SpanID();
    LogMember(s.hub.log, i);
    assert Logged(s, id);
    var k :| 0 <= k < |Project(s.hub.log, id)| && Project(s.hub.log, id)[k] == r;
    assert id in s.spans && s.spans[id].issued[k] == r;
    IssuedBy(s, id, k);
  }

  /** A child's start comes after its parent's, and shares its trace id. */
  lemma ParentsStartFirst(ops: seq<Operation>)
    ensures var log := EmitterSpec.Run(NEW_SYSTEM, ops).hub.log;
            && ParentsFirst(log)
            && forall i, j :: 0 <= i < |log| && 0 <= j < |log| && log[i].SpanStarted? && log[j].SpanStarted? &&
                              log[j].parentID == log[i].spanID ==>
                 log[j].traceID == log[i].traceID
  {
    EmitterValid(ops);
    var s := EmitterSpec.Run(NEW_SYSTEM, ops);
    var log := s.hub.log;
    hide EmitterSpec.Run, HubSpec.Valid, Serial, FoldSpan, CallsOwned, Logged, Shows, Grammar;
    forall j | 0 <= j < |log| && log[j].SpanStarted? && log[j].parentID != ""
      ensures StartedIn(log[..j], log[j].parentID)
    {
      var i :| 0 <= i < j && IsStart(s.hub, i, log[j].parentID) && i !in s.hub.during[j];
      assert log[..j][i] == log[i];
    }
    forall i, j | 0 <= i < |log| && 0 <= j < |log| && log[i].SpanStarted? && log[j].SpanStarted? &&
                  log[j].parentID == log[i].spanID
      ensures log[j].traceID == log[i].traceID
    {
      LoggedSpan(s, i);
      LoggedSpan(s, j);
      assert SpanValid(s, log[i].spanID) && SpanValid(s, log[j].spanID);
    }
  }

  /** Whatever a subscriber loses: the start of a child is tried on it only after its
      parent's, if that was published while it was registered; and of the two starts
      it never has the parent's behind the child's. */
  lemma SubscriberParentsFirst(ops: seq<Operation>, ch: ChanId, k: nat)
    requires var h := EmitterSpec.Run(NEW_SYSTEM, ops).hub;
             ch < |h.chans| && k < |h.chans[ch].offers| && StartsBelow(h, h.chans[ch].offers[k])
    ensures var h := EmitterSpec.Run(NEW_SYSTEM, ops).hub;
            var c := h.chans[ch];
            exists i: nat :: i < c.offers[k] && IsStart(h, i, h.log[c.offers[k]].parentID) &&
              (i < c.since || i in c.offers[..k]) &&
              forall l :: 0 <= l < |c.accepted| && c.accepted[l] == c.offers[k] && i in c.accepted ==>
                i in c.accepted[..l]
  {
    EmitterValid(ops);
    var s := EmitterSpec.Run(NEW_SYSTEM, ops);
    var h := s.hub;
    hide EmitterSpec.Run, Subseq, FoldSpan, SpanValid, CallsOwned, Logged, Serial, CallsValid, Safe, Pending, At;
    var c := h.chans[ch];
    assert Queued(h, c) && Delivered(h, ch);
    var i: nat :| i < c.offers[k] && IsStart(h, i, h.log[c.offers[k]].parentID) && i !in h.during[c.offers[k]];
    AcceptedOrder(h, ch, k, i);
  }

  /** A start that names a parent. */
  ghost predicate StartsBelow(h: Hub, t: nat) {
    t < |h.log| && h.log[t].SpanStarted? && h.log[t].parentID != ""
  }

  lemma AcceptedOrder(h: Hub, ch: ChanId, k: nat, i: nat)
    requires HubSpec.Valid(h) && ch < |h.chans| && k < |h.chans[ch].offers| && i < h.chans[ch].offers[k] < |h.log|
    requires |h.during| == |h.log| && i !in h.during[h.chans[ch].offers[k]]
    ensures var c := h.chans[ch];
            && (i < c.since || i in c.offers[..k])
            && forall l :: 0 <= l < |c.accepted| && c.accepted[l] == c.offers[k] && i in c.accepted ==>
                 i in c.accepted[..l]
  {
    hide Subseq, CallsValid, Safe, Pending, At;
    var c := h.chans[ch];
    assert Queued(h, c) && Delivered(h, ch);
    forall l | 0 <= l < |c.accepted| && c.accepted[l] == c.offers[k] && i in c.accepted
      ensures i in c.accepted[..l]
    {
      SubseqMembers(c.accepted, c.offers);
      assert c.since <= i;
      assert i in c.offers[..k];
      var p :| 0 <= p < k && c.offers[p] == i;
      SubseqOrder(c.accepted, c.offers, p, k, l);
    }
  }

  // ----- Rebuilding

  /** Subscribed before anything was published, still registered, its buffer never
      full and now empty, with no publication under way. */
  predicate CaughtUp(h: Hub, ch: ChanId) {
    && ch < |h.chans| && ch in h.subs && !h.closed && h.calls == map[]
    && h.chans[ch].since == 0 && !h.chans[ch].dropped && h.chans[ch].buffer == []
  }

  lemma CaughtUpReceives(h: Hub, ch: ChanId)
    requires HubSpec.Valid(h) && CaughtUp(h, ch)
    ensures var c := h.chans[ch];
            && (forall k :: 0 <= k < |c.offers| ==> c.offers[k] < |h.log|)
            && c.received == At(h.log, c.offers)
            && (forall k, t :: 0 <= k < |c.offers| && 0 <= t < c.offers[k] && c.offers[k] < |h.during| &&
                               t !in h.during[c.offers[k]] ==>
                  t in c.offers[..k])
  {
    var c := h.chans[ch];
    assert Queued(h, c) && Delivered(h, ch);
    assert c.received + c.buffer == c.received;
  }

  lemma CaughtUpStream(s: System, ch: ChanId, id: string)
    requires EmitterSpec.Valid(s) && CaughtUp(s.hub, ch)
    ensures Project(s.hub.chans[ch].received, id) == if id in s.spans then s.spans[id].issued else []
  {
    var h := s.hub;
    var c := h.chans[ch];
    hide Project, FoldSpan, Shows, Grammar, SpanValid, CallsOwned, ParentsBefore, Serial, Subseq;
    assert Safe(h);
    hide HubSpec.Valid;
    SubscriberStream(h, ch, id);
    assert c.open && h.log[0..|h.log|] == h.log && c.received + c.buffer == c.received;
    assert forall tid :: !Reading(h, tid);
    assert Logged(s, id) && !WaitingFor(h, id);
  }

  lemma CaughtUpParents(s: System, ch: ChanId)
    requires EmitterSpec.Valid(s) && CaughtUp(s.hub, ch)
    ensures ParentsFirst(s.hub.chans[ch].received)
  {
    var h := s.hub;
    var offers, received := h.chans[ch].offers, h.chans[ch].received;
    hide HubSpec.Valid, FoldSpan, SpanValid, CallsOwned, Logged, Serial;
    CaughtUpReceives(h, ch);
    forall j | 0 <= j < |received| && received[j].SpanStarted? && received[j].parentID != ""
      ensures StartedIn(received[..j], received[j].parentID)
    {
      var u := offers[j];
      assert received[j] == h.log[u];
      var i :| 0 <= i < u && IsStart(h, i, h.log[u].parentID) && i !in h.during[u];
      assert i in offers[..j];
      var k :| 0 <= k < j && offers[k] == i;
      assert received[..j][k] == h.log[i];
    }
  }

  /** Main result: in every interleaving of span operations on one hub, a
      subscriber present from the start whose buffer never fills can replay what
      it received into an empty store and has exactly the emitter's spans, each
      below its parent, with the name, latest attribute per key, events in order
      and terminal state its callers gave it. */
  lemma SubscriberRebuilds(ops: seq<Operation>, ch: ChanId, allow: bool)
    requires CaughtUp(EmitterSpec.Run(NEW_SYSTEM, ops).hub, ch)
    ensures var s := EmitterSpec.Run(NEW_SYSTEM, ops);
            var ts := Replay(allow, s.hub.chans[ch].received);
            && WellFormedF(ts)
            && forall id :: id != "" ==>
                 && (Find(ts, id).Some? <==> id in s.spans)
                 && (id in s.spans ==> Shows(Find(ts, id).value.tree.info, id, s.spans[id]))
                 && Placed(ts, id)
  {
    EmitterValid(ops);
    var s := EmitterSpec.Run(NEW_SYSTEM, ops);
    var received := s.hub.chans[ch].received;
    CaughtUpParents(s, ch);
    ReplayFollows(allow, received);
    var ts := Replay(allow, received);
    hide EmitterSpec.Run, HubSpec.Valid, Project, FoldSpan, Find, Placed, Replay, WellFormedF, Shows, Grammar,
      CallsOwned, Logged, Serial, ParentsBefore, ParentsFirst;
    forall id | id != ""
      ensures Find(ts, id).Some? <==> id in s.spans
      ensures id in s.spans ==> Shows(Find(ts, id).value.tree.info, id, s.spans[id])
    {
      CaughtUpStream(s, ch, id);
      assert Follows(ts, received, id);
      if id in s.spans {
        assert SpanValid(s, id);
      } else {
        assert FoldSpan(Project(received, id)).None? by {
          NothingFolds();
        }
      }
    }
  }

  lemma NothingFolds()
    ensures FoldSpan([]) == None
  {
  }
}
