/** Every run of the emitter keeps its invariant. */
module EmitterProof {
  import opened Records
  import opened Attributes
  import opened Forest
  import opened StoreSpec
  import opened Confluence
  import opened HubSpec
  import opened Streams
  import opened EmitterSpec

  // ----- Attributes on the way

  lemma {:induction false} NonNilMore(attrs: seq<Option<Attribute>>, last: Option<Attribute>)
    ensures NonNil(attrs + [last]) == NonNil(attrs) + if last.Some? then [last.value] else []
  {
    if attrs == [] {
      assert attrs + [last] == [last];
    } else {
      assert (attrs + [last])[1..] == attrs[1..] + [last];
      NonNilMore(attrs[1..], last);
    }
  }

  lemma {:induction false} NonNilCloned(attrs: seq<Option<Attribute>>, n: nat)
    requires n <= |NonNil(attrs)|
    ensures NonNil(Cloned(attrs)[..n]) == NonNil(attrs)[..n]
  {
    if n > 0 {
      NonNilCloned(attrs, n - 1);
      assert Cloned(attrs)[..n] == Cloned(attrs)[..n - 1] + [Some(NonNil(attrs)[n - 1])];
      NonNilMore(Cloned(attrs)[..n - 1], Some(NonNil(attrs)[n - 1]));
    }
  }

  /** Copying an attribute list drops nothing that an update would apply. */
  lemma {:induction false} MergeCloned(attrs: seq<Attribute>, incoming: seq<Option<Attribute>>)
    ensures Merge(attrs, Cloned(incoming)) == Merge(attrs, incoming)
  {
    if incoming == [] {
      assert Cloned(incoming) == [];
    } else {
      var front, last := incoming[..|incoming| - 1], incoming[|incoming| - 1];
      MergeCloned(attrs, front);
      assert incoming == front + [last];
      NonNilMore(front, last);
      if last.Some? {
        assert Cloned(incoming) == Cloned(front) + [last];
        assert Cloned(incoming)[..|Cloned(incoming)| - 1] == Cloned(front);
      } else {
        assert Cloned(incoming) == Cloned(front);
      }
    }
  }

  lemma {:induction false} FirstTagsLookup(attrs: seq<Option<Attribute>>, key: string)
    ensures Lookup(NonNil(attrs), key) == Get(FirstTags(attrs), key)
  {
    if attrs != [] {
      FirstTagsLookup(attrs[1..], key);
      var own, rest := NonNil(attrs), NonNil(attrs[1..]);
      if attrs[0].None? {
        assert own == rest;
      } else {
        assert own[0] == attrs[0].value && own[1..] == rest;
        assert FirstMatch(own, key) == if own[0].key == key then 0 else 1 + FirstMatch(rest, key);
      }
    }
  }

  lemma {:induction false} TaggedLookup(attrs: seq<Attribute>, tags: map<string, Attribute>,
                                        incoming: seq<Option<Attribute>>, key: string)
    requires Lookup(attrs, key) == Get(tags, key)
    ensures Lookup(Merge(attrs, incoming), key) == Get(Tagged(tags, incoming), key)
  {
    if incoming != [] {
      var front, last := incoming[..|incoming| - 1], incoming[|incoming| - 1];
      TaggedLookup(attrs, tags, front, key);
      if Effective(last) {
        SetAttributeLookup(Merge(attrs, front), last.value, key);
      }
    }
  }

  // ----- One span

  lemma FoldFirst(r: Record)
    requires r.SpanStarted?
    ensures FoldSpan([r]) == Some(StartedTree(r).info)
  {
    assert [r][..0] == [];
    assert FoldSpan([]) == None;
  }

  lemma FoldMore(own: seq<Record>, r: Record)
    requires FoldSpan(own).Some? && !r.SpanStarted? && !r.NoKind?
    ensures FoldSpan(own + [r]) == Some(EditInfo(FoldSpan(own).value, EditOf(r)))
  {
    assert (own + [r])[..|own|] == own;
  }

  lemma StartShows(id: string, span: Span, r: Record, attrs: seq<Option<Attribute>>)
    requires r == SpanStarted(span.traceID, id, span.parentID, span.name, Some(span.startedAt), Cloned(attrs))
    requires span.tags == FirstTags(attrs) && span.events == [] && !span.ended
    requires span.endedAt == ZERO_TIME && span.terminal == TerminalUnspecified && span.error == ""
    ensures Shows(StartedTree(r).info, id, span)
  {
    NonNilCloned(attrs, |NonNil(attrs)|);
    assert Cloned(attrs)[..|NonNil(attrs)|] == Cloned(attrs) && NonNil(attrs)[..|NonNil(attrs)|] == NonNil(attrs);
    forall key
      ensures Lookup(NonNil(attrs), key) == Get(FirstTags(attrs), key)
    {
      FirstTagsLookup(attrs, key);
    }
  }

  lemma UpdateShows(info: Info, id: string, span: Span, attrs: seq<Option<Attribute>>)
    requires Shows(info, id, span) && !span.ended
    ensures Shows(EditInfo(info, EditOf(SpanUpdated(span.traceID, id, Cloned(attrs)))), id,
                  span.(tags := Tagged(span.tags, attrs)))
  {
    MergeCloned(info.attrs, attrs);
    forall key
      ensures Lookup(Merge(info.attrs, attrs), key) == Get(Tagged(span.tags, attrs), key)
    {
      TaggedLookup(info.attrs, span.tags, attrs, key);
    }
  }

  lemma EventShows(info: Info, id: string, span: Span, name: string, at: Time, attrs: seq<Option<Attribute>>,
                   severity: Severity)
    requires Shows(info, id, span) && !span.ended
    ensures var given := if severity.SeverityUnspecified? then None else Some(severity);
            var event := EventState(name, at, NonNil(attrs),
                                    if severity.SeverityUnspecified? then SeverityInfo else severity);
            Shows(EditInfo(info, EditOf(SpanEvent(span.traceID, id, name, Some(at), Cloned(attrs), given))), id,
                  span.(events := span.events + [event]))
  {
    NonNilCloned(attrs, |NonNil(attrs)|);
    assert Cloned(attrs)[..|NonNil(attrs)|] == Cloned(attrs) && NonNil(attrs)[..|NonNil(attrs)|] == NonNil(attrs);
  }

  /** Another record on a span that has not ended. */
  lemma GrammarMore(own: seq<Record>, r: Record)
    requires Grammar(own) && own != [] && !own[|own| - 1].SpanEnded?
    requires r.SpanUpdated? || r.SpanEvent? || r.SpanEnded?
    ensures Grammar(own + [r])
  {
  }

  // ----- Hub steps

  /** The hub goes on with the publications it has. */
  ghost predicate Calm(h: Hub, h': Hub) {
    && h'.log == h.log && h'.during == h.during && (h.closed ==> h'.closed)
    && (forall tid :: tid in h'.calls ==> tid in h.calls && h'.calls[tid].record == h.calls[tid].record &&
                                          h'.calls[tid].Waiting? == h.calls[tid].Waiting?)
    && (forall tid :: tid in h.calls && h.calls[tid].Waiting? ==> tid in h'.calls || h.closed)
    && Flights(h') <= Flights(h)
  }

  lemma CalmCalls(h: Hub, h': Hub)
    requires h'.log == h.log && h'.during == h.during && (h.closed ==> h'.closed)
    requires forall tid :: tid in h'.calls ==> tid in h.calls && h'.calls[tid] == h.calls[tid]
    requires forall tid :: tid in h.calls && h.calls[tid].Waiting? ==> tid in h'.calls || h.closed
    ensures Calm(h, h')
  {
    assert forall tid :: Reading(h', tid) ==> Reading(h, tid) && h'.calls[tid].ticket == h.calls[tid].ticket;
  }

  lemma CalmSend(h: Hub, tid: ThreadId, ch: ChanId)
    ensures Calm(h, HubSpec.Step(h, Send(tid, ch)))
  {
    var h' := HubSpec.Step(h, Send(tid, ch));
    assert forall x :: Reading(h', x) ==> Reading(h, x) && h'.calls[x].ticket == h.calls[x].ticket;
  }

  lemma CalmSteps(h: Hub, a: HubSpec.Action)
    requires !a.Publish? && !(a.Enter? && !h.closed)
    ensures Calm(h, HubSpec.Step(h, a))
  {
    if a.Send? {
      CalmSend(h, a.tid, a.ch);
    } else {
      hide Calm;
      CalmCalls(h, HubSpec.Step(h, a));
    }
  }

  lemma CalmLogged(s: System, h': Hub, id: string)
    requires Calm(s.hub, h') && Logged(s, id)
    ensures Logged(s.(hub := h'), id)
  {
    var s' := s.(hub := h');
    if WaitingFor(h', id) {
      assert WaitingFor(s.hub, id);
    } else if WaitingFor(s.hub, id) {
      var tid :| tid in s.hub.calls && s.hub.calls[tid].Waiting? && s.hub.calls[tid].record.SpanID() == id;
      assert s.hub.closed;
    }
    assert Out(s, id, true) <= Out(s, id, false);
    assert Out(s', id, WaitingFor(h', id)) == Out(s, id, WaitingFor(h', id));
    hide Project;
  }

  lemma CalmParents(h: Hub, h': Hub)
    requires Calm(h, h') && ParentsBefore(h)
    ensures ParentsBefore(h')
  {
    assert forall i: nat, id :: IsStart(h', i, id) <==> IsStart(h, i, id);
    if !h'.closed {
      forall tid | tid in h'.calls && h'.calls[tid].Waiting? && h'.calls[tid].record.SpanStarted? &&
                   h'.calls[tid].record.parentID != ""
        ensures exists i: nat :: IsStart(h', i, h'.calls[tid].record.parentID) && i !in Flights(h')
      {
        var i: nat :| IsStart(h, i, h.calls[tid].record.parentID) && i !in Flights(h);
        assert IsStart(h', i, h'.calls[tid].record.parentID);
      }
    }
  }

  lemma SpanStays(s: System, h': Hub, id: string)
    requires id in s.spans && SpanValid(s, id)
    ensures SpanValid(s.(hub := h'), id)
  {
    hide FoldSpan, Shows, Grammar;
  }

  lemma OwnedStays(s: System, h': Hub)
    requires CallsOwned(s)
    requires forall tid :: tid in h'.calls ==> tid in s.hub.calls && h'.calls[tid].record == s.hub.calls[tid].record
    ensures CallsOwned(s.(hub := h'))
  {
  }

  lemma CalmValid(s: System, a: HubSpec.Action)
    requires EmitterSpec.Valid(s) && !a.Publish? && !(a.Enter? && !s.hub.closed)
    ensures EmitterSpec.Valid(s.(hub := HubSpec.Step(s.hub, a)))
  {
    hide HubSpec.Step, HubSpec.Valid, Logged, ParentsBefore, SpanValid, CallsOwned;
    var h' := HubSpec.Step(s.hub, a);
    var s' := s.(hub := h');
    CalmSteps(s.hub, a);
    StepValid(s.hub, a);
    CalmParents(s.hub, h');
    forall id
      ensures Logged(s', id)
    {
      CalmLogged(s, h', id);
    }
    OwnedStays(s, s'.hub);
    forall id | id in s.spans
      ensures SpanValid(s', id)
    {
      SpanStays(s, s'.hub, id);
    }
  }

  // ----- A publication gets the read lock

  lemma EnterLogged(s: System, tid: ThreadId, id: string)
    requires EmitterSpec.Valid(s) && tid in s.hub.calls && s.hub.calls[tid].Waiting? && !s.hub.closed && !s.hub.closing
    ensures Logged(s.(hub := HubSpec.Step(s.hub, Enter(tid))), id)
  {
    hide HubSpec.Valid, ParentsBefore, SpanValid, Project, Serial;
    var h' := HubSpec.Step(s.hub, Enter(tid));
    var r := s.hub.calls[tid].record;
    assert h'.log == s.hub.log + [r] && !h'.closed;
    assert Logged(s, id);
    ProjectMore(s.hub.log, r, id);
    if r.SpanID() == id {
      assert WaitingFor(s.hub, id);
      assert !WaitingFor(h', id);
      var issued := s.spans[id].issued;
      assert issued == issued[..|issued| - 1] + [r];
    } else {
      if WaitingFor(s.hub, id) {
        var x :| x in s.hub.calls && s.hub.calls[x].Waiting? && s.hub.calls[x].record.SpanID() == id;
        assert x in h'.calls && h'.calls[x].Waiting?;
      }
      if WaitingFor(h', id) {
        var x :| x in h'.calls && h'.calls[x].Waiting? && h'.calls[x].record.SpanID() == id;
        assert x in s.hub.calls && s.hub.calls[x].Waiting?;
      }
      assert Out(s.(hub := h'), id, WaitingFor(h', id)) == Out(s, id, WaitingFor(s.hub, id));
    }
  }

  lemma EnterSerial(s: System, tid: ThreadId)
    requires HubSpec.Valid(s.hub) && CallsOwned(s) && Serial(s.hub)
    requires tid in s.hub.calls && s.hub.calls[tid].Waiting? && !s.hub.closed && !s.hub.closing
    ensures Serial(HubSpec.Step(s.hub, Enter(tid)))
  {
    var h := s.hub;
    var h' := HubSpec.Step(h, Enter(tid));
    forall i | 0 <= i < |h.log| && h.log[i].SpanID() == h.calls[tid].record.SpanID()
      ensures i !in Flights(h)
    {
      assert forall x :: Reading(h, x) ==> h.calls[x].ticket != i;
    }
  }

  lemma EnterParents(h: Hub, tid: ThreadId)
    requires ParentsBefore(h)
    requires tid in h.calls && h.calls[tid].Waiting? && !h.closed && !h.closing
    ensures ParentsBefore(HubSpec.Step(h, Enter(tid)))
  {
    var h' := HubSpec.Step(h, Enter(tid));
    var n := |h.log|;
    assert forall t :: t in Flights(h') ==> t in Flights(h) || t == n by {
      assert forall x :: Reading(h', x) ==> x == tid || (Reading(h, x) && h'.calls[x] == h.calls[x]);
    }
    hide Flights;
    assert forall i: nat, id :: IsStart(h, i, id) ==> IsStart(h', i, id);
    forall j | 0 <= j < |h'.log| && h'.log[j].SpanStarted? && h'.log[j].parentID != ""
      ensures exists i :: 0 <= i < j && IsStart(h', i, h'.log[j].parentID) && i !in h'.during[j]
    {
      if j == n {
        var i: nat :| IsStart(h, i, h.calls[tid].record.parentID) && i !in Flights(h);
        assert IsStart(h', i, h'.log[j].parentID);
      } else {
        var i :| 0 <= i < j && IsStart(h, i, h.log[j].parentID) && i !in h.during[j];
        assert IsStart(h', i, h'.log[j].parentID);
      }
    }
    forall x | x in h'.calls && h'.calls[x].Waiting? && h'.calls[x].record.SpanStarted? &&
               h'.calls[x].record.parentID != ""
      ensures exists i: nat :: IsStart(h', i, h'.calls[x].record.parentID) && i !in Flights(h')
    {
      var i: nat :| IsStart(h, i, h.calls[x].record.parentID) && i !in Flights(h);
      assert IsStart(h', i, h'.calls[x].record.parentID);
    }
  }

  lemma EnterValid(s: System, tid: ThreadId)
    requires EmitterSpec.Valid(s) && tid in s.hub.calls && s.hub.calls[tid].Waiting? && !s.hub.closed && !s.hub.closing
    ensures EmitterSpec.Valid(s.(hub := HubSpec.Step(s.hub, Enter(tid))))
  {
    hide HubSpec.Valid, Logged, ParentsBefore, Serial, SpanValid, CallsOwned, Flights;
    var s' := s.(hub := HubSpec.Step(s.hub, Enter(tid)));
    StepValid(s.hub, Enter(tid));
    EnterSerial(s, tid);
    EnterParents(s.hub, tid);
    forall id
      ensures Logged(s', id)
    {
      EnterLogged(s, tid, id);
    }
    OwnedStays(s, s'.hub);
    forall id | id in s.spans
      ensures SpanValid(s', id)
    {
      SpanStays(s, s'.hub, id);
    }
  }

  // ----- A span publishes

  lemma {:induction false} ProjectMember(log: seq<Record>, id: string)
    requires Project(log, id) != []
    ensures exists i :: 0 <= i < |log| && log[i] == Project(log, id)[0]
  {
    var front, last := log[..|log| - 1], log[|log| - 1];
    ProjectLast(log, id);
    if Project(front, id) != [] {
      ProjectMember(front, id);
      var i :| 0 <= i < |front| && front[i] == Project(front, id)[0];
      assert log[i] == Project(log, id)[0];
    } else {
      assert log[|log| - 1] == Project(log, id)[0];
    }
  }

  /** Once `Start` has returned, the start is on its way to nobody. */
  lemma ParentPublished(s: System, p: string)
    requires EmitterSpec.Valid(s) && p in s.spans && !Starting(s.hub, p) && !s.hub.closed
    ensures exists i: nat :: IsStart(s.hub, i, p) && i !in Flights(s.hub)
  {
    var h, issued := s.hub, s.spans[p].issued;
    assert SpanValid(s, p) && Logged(s, p);
    if WaitingFor(h, p) {
      var tid :| tid in h.calls && h.calls[tid].Waiting? && h.calls[tid].record.SpanID() == p;
      assert h.calls[tid].record == issued[|issued| - 1];
      assert |issued| > 1;
    }
    ProjectMember(h.log, p);
    var i :| 0 <= i < |h.log| && h.log[i] == issued[0];
    hide FoldSpan, Shows, Project;
    assert issued[0].SpanID() == p;
    assert IsStart(h, i, p);
    assert forall x :: Reading(h, x) ==> h.calls[x].ticket != i;
  }

  ghost predicate MayIssue(s: System, tid: ThreadId, id: string, span: Span, r: Record) {
    && tid !in s.hub.calls && !Busy(s.hub, id) && r.SpanID() == id
    && span.issued == (if id in s.spans then s.spans[id].issued else [])
    && (id in s.spans ==> span.traceID == s.spans[id].traceID)
    && SpanValid(Issue(s, tid, id, span, r), id)
    && (r.SpanStarted? && r.parentID != "" && !s.hub.closed ==>
          exists i: nat :: IsStart(s.hub, i, r.parentID) && i !in Flights(s.hub))
  }

  lemma IssueCalls(s: System, tid: ThreadId, id: string, span: Span, r: Record)
    requires CallsOwned(s) && MayIssue(s, tid, id, span, r)
    ensures CallsOwned(Issue(s, tid, id, span, r))
  {
    hide SpanValid;
    assert forall x :: x in s.hub.calls ==> s.hub.calls[x].record.SpanID() != id;
  }

  lemma IssueLogged(s: System, tid: ThreadId, id: string, span: Span, r: Record, x: string)
    requires Logged(s, x) && MayIssue(s, tid, id, span, r)
    ensures Logged(Issue(s, tid, id, span, r), x)
  {
    hide SpanValid, Project;
    var s' := Issue(s, tid, id, span, r);
    if x == id {
      assert !WaitingFor(s.hub, id);
      assert s'.hub.calls[tid].Waiting? && WaitingFor(s'.hub, id);
      assert s'.spans[id].issued[..|s'.spans[id].issued| - 1] == span.issued;
    } else {
      if WaitingFor(s'.hub, x) {
        var y :| y in s'.hub.calls && s'.hub.calls[y].Waiting? && s'.hub.calls[y].record.SpanID() == x;
        assert y in s.hub.calls;
      }
      if WaitingFor(s.hub, x) {
        var y :| y in s.hub.calls && s.hub.calls[y].Waiting? && s.hub.calls[y].record.SpanID() == x;
        assert y in s'.hub.calls && s'.hub.calls[y] == s.hub.calls[y];
      }
      assert Out(s', x, WaitingFor(s'.hub, x)) == Out(s, x, WaitingFor(s.hub, x));
    }
  }

  lemma IssueParents(s: System, tid: ThreadId, id: string, span: Span, r: Record)
    requires ParentsBefore(s.hub) && MayIssue(s, tid, id, span, r)
    ensures ParentsBefore(Issue(s, tid, id, span, r).hub)
  {
    var h, h' := s.hub, Issue(s, tid, id, span, r).hub;
    hide SpanValid;
    assert Flights(h') == Flights(h) by {
      assert forall x :: Reading(h', x) <==> Reading(h, x);
    }
    assert forall i: nat, y :: IsStart(h', i, y) <==> IsStart(h, i, y);
    hide Flights;
  }

  lemma IssueSpans(s: System, tid: ThreadId, id: string, span: Span, r: Record, x: string)
    requires MayIssue(s, tid, id, span, r) && x in s.spans && x != id && SpanValid(s, x)
    ensures SpanValid(Issue(s, tid, id, span, r), x)
  {
    hide FoldSpan, Shows, Grammar;
  }

  lemma IssueValid(s: System, tid: ThreadId, id: string, span: Span, r: Record)
    requires EmitterSpec.Valid(s) && MayIssue(s, tid, id, span, r)
    ensures EmitterSpec.Valid(Issue(s, tid, id, span, r))
  {
    hide HubSpec.Valid, SpanValid, Logged, ParentsBefore, CallsOwned;
    var s' := Issue(s, tid, id, span, r);
    StepValid(s.hub, Publish(tid, r));
    IssueCalls(s, tid, id, span, r);
    IssueParents(s, tid, id, span, r);
    forall x
      ensures Logged(s', x)
    {
      IssueLogged(s, tid, id, span, r, x);
    }
    forall x | x in s'.spans
      ensures SpanValid(s', x)
    {
      if x != id {
        IssueSpans(s, tid, id, span, r, x);
      }
    }
  }

  /** The span after one more record. */
  lemma GrownValid(s: System, tid: ThreadId, id: string, span: Span, r: Record)
    requires EmitterSpec.Valid(s) && id in s.spans && SpanValid(s, id)
    requires span.issued == s.spans[id].issued && !s.spans[id].ended && r.SpanID() == id
    requires span.traceID == s.spans[id].traceID && span.parentID == s.spans[id].parentID
    requires (r.SpanUpdated? || r.SpanEvent? || r.SpanEnded?) && r.traceID == span.traceID
    requires span.ended == r.SpanEnded?
    requires Shows(EditInfo(FoldSpan(s.spans[id].issued).value, EditOf(r)), id, span)
    ensures SpanValid(Issue(s, tid, id, span, r), id)
  {
    hide EmitterSpec.Valid, HubSpec.Step, EditInfo;
    FoldMore(span.issued, r);
    GrammarMore(span.issued, r);
    hide FoldSpan, Grammar;
    assert (span.issued + [r])[0] == span.issued[0];
    var s' := Issue(s, tid, id, span, r);
    assert Shows(FoldSpan(s'.spans[id].issued).value, id, span.(issued := s'.spans[id].issued));
    hide Shows;
  }

  lemma GrownMayIssue(s: System, tid: ThreadId, id: string, span: Span, r: Record)
    requires EmitterSpec.Valid(s) && CanLock(s, tid, id)
    requires span.issued == s.spans[id].issued && !s.spans[id].ended && r.SpanID() == id
    requires span.traceID == s.spans[id].traceID && span.parentID == s.spans[id].parentID
    requires (r.SpanUpdated? || r.SpanEvent? || r.SpanEnded?) && r.traceID == span.traceID
    requires span.ended == r.SpanEnded?
    requires FoldSpan(s.spans[id].issued).Some? ==>
               Shows(EditInfo(FoldSpan(s.spans[id].issued).value, EditOf(r)), id, span)
    ensures EmitterSpec.Valid(Issue(s, tid, id, span, r))
  {
    hide FoldSpan, Shows, EditInfo, Logged, ParentsBefore, CallsOwned, HubSpec.Valid, HubSpec.Step;
    assert SpanValid(s, id);
    GrownValid(s, tid, id, span, r);
    hide SpanValid;
    IssueValid(s, tid, id, span, r);
  }

  lemma SetAttributesValid(s: System, tid: ThreadId, id: string, attrs: seq<Option<Attribute>>)
    requires EmitterSpec.Valid(s) && CanLock(s, tid, id)
    ensures EmitterSpec.Valid(DoSetAttributes(s, tid, id, attrs))
  {
    hide FoldSpan, Shows, Grammar, EditInfo, Logged, ParentsBefore, CallsOwned, HubSpec.Valid, Issue;
    var span := s.spans[id];
    if !span.ended && attrs != [] {
      assert SpanValid(s, id);
      UpdateShows(FoldSpan(span.issued).value, id, span, attrs);
      GrownMayIssue(s, tid, id, span.(tags := Tagged(span.tags, attrs)), SpanUpdated(span.traceID, id, Cloned(attrs)));
    }
  }

  lemma AddEventValid(s: System, tid: ThreadId, id: string, name: string, at: Time,
                      attrs: seq<Option<Attribute>>, severity: Severity)
    requires EmitterSpec.Valid(s) && CanLock(s, tid, id)
    ensures EmitterSpec.Valid(DoAddEvent(s, tid, id, name, at, attrs, severity))
  {
    hide FoldSpan, Shows, Grammar, EditInfo, Logged, ParentsBefore, CallsOwned, HubSpec.Valid, Issue;
    var span := s.spans[id];
    if !span.ended {
      assert SpanValid(s, id);
      EventShows(FoldSpan(span.issued).value, id, span, name, at, attrs, severity);
      var given := if severity.SeverityUnspecified? then None else Some(severity);
      var event := EventState(name, at, NonNil(attrs),
                              if severity.SeverityUnspecified? then SeverityInfo else severity);
      GrownMayIssue(s, tid, id, span.(events := span.events + [event]),
                    SpanEvent(span.traceID, id, name, Some(at), Cloned(attrs), given));
    }
  }

  lemma EndShows(info: Info, id: string, span: Span, terminal: TerminalType, error: string, at: Time)
    requires Shows(info, id, span) && !span.ended
    ensures Shows(EditInfo(info, EditOf(SpanEnded(span.traceID, id, Some(at), terminal, error))), id,
                  span.(ended := true, endedAt := at, terminal := terminal, error := error))
  {
  }

  lemma EndValid(s: System, tid: ThreadId, id: string, terminal: TerminalType, error: string, at: Time)
    requires EmitterSpec.Valid(s) && CanLock(s, tid, id)
    ensures EmitterSpec.Valid(DoEnd(s, tid, id, terminal, error, at))
  {
    hide FoldSpan, Shows, Grammar, EditInfo, Logged, ParentsBefore, CallsOwned, HubSpec.Valid, Issue;
    var span := s.spans[id];
    if !span.ended {
      assert SpanValid(s, id);
      EndShows(FoldSpan(span.issued).value, id, span, terminal, error, at);
      GrownMayIssue(s, tid, id, span.(ended := true, endedAt := at, terminal := terminal, error := error),
                    SpanEnded(span.traceID, id, Some(at), terminal, error));
    }
  }

  /** A new span, before and after its start is handed over. */
  lemma NewSpanValid(s: System, tid: ThreadId, id: string, span: Span, r: Record, attrs: seq<Option<Attribute>>)
    requires id != "" && id !in s.spans && span.issued == [] && span.traceID != ""
    requires span.parentID != "" ==> span.parentID in s.spans && s.spans[span.parentID].traceID == span.traceID
    requires r == SpanStarted(span.traceID, id, span.parentID, span.name, Some(span.startedAt), Cloned(attrs))
    requires span.tags == FirstTags(attrs) && span.events == [] && !span.ended
    requires span.endedAt == ZERO_TIME && span.terminal == TerminalUnspecified && span.error == ""
    ensures SpanValid(Issue(s, tid, id, span, r), id)
  {
    StartShows(id, span, r, attrs);
    FoldFirst(r);
    assert span.issued + [r] == [r];
    hide FoldSpan, FirstTags, Cloned, StartedTree;
  }

  lemma StartValid(s: System, op: Operation)
    requires EmitterSpec.Valid(s) && op.Start?
    ensures EmitterSpec.Valid(DoStart(s, op))
  {
    hide Logged, ParentsBefore, HubSpec.Valid, FoldSpan, Shows, Grammar, FirstTags, Cloned;
    if DoStart(s, op) != s {
      var live := op.parent.Some? && op.parent.value.Live?;
      var traceID := if live then s.spans[op.parent.value.id].traceID else op.freshTrace;
      var parentID := if live then op.parent.value.id else "";
      var span := Span(traceID, parentID, op.name, op.at, FirstTags(op.attrs), [],
                       false, ZERO_TIME, TerminalUnspecified, "", []);
      var r := SpanStarted(traceID, op.id, parentID, op.name, Some(op.at), Cloned(op.attrs));
      if live {
        assert SpanValid(s, parentID);
        if !s.hub.closed {
          ParentPublished(s, parentID);
        }
      }
      hide SpanValid, IsStart, Flights;
      NewSpanValid(s, op.tid, op.id, span, r, op.attrs);
      assert !Busy(s.hub, op.id);
      IssueValid(s, op.tid, op.id, span, r);
    }
  }

  lemma StepKeepsValid(s: System, op: Operation)
    requires EmitterSpec.Valid(s)
    ensures EmitterSpec.Valid(EmitterSpec.Step(s, op))
  {
    hide EmitterSpec.Valid, DoStart, DoSetAttributes, DoAddEvent, DoEnd, CanLock;
    match op
    case Start(_, _, _, _, _, _, _, _) => StartValid(s, op);
    case SetAttributes(tid, span, attrs) =>
      if span.Live? && CanLock(s, tid, span.id) {
        SetAttributesValid(s, tid, span.id, attrs);
      }
    case AddEvent(tid, span, name, at, now, attrs, severity) =>
      if span.Live? && CanLock(s, tid, span.id) {
        AddEventValid(s, tid, span.id, name, if at == ZERO_TIME then now else at, attrs, severity);
      }
    case End(tid, span, terminal, error, at) =>
      if span.Live? && CanLock(s, tid, span.id) {
        EndValid(s, tid, span.id, terminal, error, at);
      }
    case OfHub(a) =>
      if a.Enter? && !s.hub.closed {
        if a.tid in s.hub.calls && s.hub.calls[a.tid].Waiting? && !s.hub.closing {
          EnterValid(s, a.tid);
        }
      } else if !a.Publish? {
        CalmValid(s, a);
      }
  }

  lemma NewSystemValid()
    ensures EmitterSpec.Valid(NEW_SYSTEM)
  {
    RunValid([]);
    assert forall id :: Project([], id) == [];
    assert forall id :: !WaitingFor(NEW_HUB, id);
  }

  lemma {:induction false} EmitterValid(ops: seq<Operation>)
    ensures EmitterSpec.Valid(EmitterSpec.Run(NEW_SYSTEM, ops))
  {
    hide EmitterSpec.Valid, EmitterSpec.Step;
    if ops == [] {
      NewSystemValid();
    } else {
      EmitterValid(ops[..|ops| - 1]);
      StepKeepsValid(EmitterSpec.Run(NEW_SYSTEM, ops[..|ops| - 1]), ops[|ops| - 1]);
    }
  }
}
