/** Spans in place: each method takes the span's mutex, tests, sets and publishes; it
    is an operation of the emitter, followed by the hub's steps. */
module SpanModel {
  import opened Records
  import opened Attributes
  import opened Forest
  import opened HubSpec
  import opened EmitterSpec
  import opened HubModel

  // ----- Operations of the emitter

  type Spans = map<string, Span>

  /** The operation, and then steps of the hub, lead there. */
  ghost predicate Does(h: Hub, spans: Spans, op: Operation, h': Hub, spans': Spans) {
    var s := EmitterSpec.Step(System(h, spans), op);
    spans' == s.spans && Reaches(s.hub, h')
  }

  /** The operation on one span, whatever other spans there are. */
  ghost predicate DoesTo(h: Hub, id: string, before: Span, op: Operation, h': Hub, after: Span) {
    forall spans: Spans :: id in spans && spans[id] == before ==> Does(h, spans, op, h', spans[id := after])
  }

  lemma DoesNothing(h: Hub, id: string, span: Span, op: Operation)
    requires forall spans: Spans :: id in spans && spans[id] == span ==>
               EmitterSpec.Step(System(h, spans), op) == System(h, spans)
    ensures DoesTo(h, id, span, op, h, span)
  {
    ReachesSame(h);
    forall spans: Spans | id in spans && spans[id] == span
      ensures Does(h, spans, op, h, spans[id := span])
    {
      assert spans[id := span] == spans;
    }
  }

  lemma DoesIssue(h: Hub, id: string, before: Span, op: Operation, h': Hub, after: Span, r: Record)
    requires forall spans: Spans :: id in spans && spans[id] == before ==>
               EmitterSpec.Step(System(h, spans), op) == Issue(System(h, spans), 0, id, after, r)
    requires Reaches(HubSpec.Step(h, Publish(0, r)), h')
    ensures DoesTo(h, id, before, op, h', after.(issued := after.issued + [r]))
  {
    forall spans: Spans | id in spans && spans[id] == before
      ensures Does(h, spans, op, h', spans[id := after.(issued := after.issued + [r])])
    {
      assert EmitterSpec.Step(System(h, spans), op) == Issue(System(h, spans), 0, id, after, r);
    }
  }

  lemma SetAttributesSteps(h: Hub, id: string, span: Span, attrs: seq<Option<Attribute>>)
    requires h.calls == map[]
    ensures forall spans: Spans :: id in spans && spans[id] == span ==>
              EmitterSpec.Step(System(h, spans), Operation.SetAttributes(0, Live(id), attrs)) ==
              if span.ended || attrs == [] then System(h, spans)
              else Issue(System(h, spans), 0, id, span.(tags := Tagged(span.tags, attrs)),
                         SpanUpdated(span.traceID, id, Cloned(attrs)))
  {
    hide Issue, Tagged, Cloned;
  }

  function Noted(name: string, at: Time, attrs: seq<Option<Attribute>>, severity: Severity): EventState {
    EventState(name, at, NonNil(attrs), if severity.SeverityUnspecified? then SeverityInfo else severity)
  }

  lemma AddEventSteps(h: Hub, id: string, span: Span, name: string, at: Time, now: Time,
                      attrs: seq<Option<Attribute>>, severity: Severity)
    requires h.calls == map[]
    ensures var when := if at == ZERO_TIME then now else at;
            var given := if severity.SeverityUnspecified? then None else Some(severity);
            forall spans: Spans :: id in spans && spans[id] == span ==>
              EmitterSpec.Step(System(h, spans), Operation.AddEvent(0, Live(id), name, at, now, attrs, severity)) ==
              if span.ended then System(h, spans)
              else Issue(System(h, spans), 0, id, span.(events := span.events + [Noted(name, when, attrs, severity)]),
                         SpanEvent(span.traceID, id, name, Some(when), Cloned(attrs), given))
  {
    hide Issue, Cloned, NonNil;
  }

  lemma EndSteps(h: Hub, id: string, span: Span, terminal: TerminalType, error: string, at: Time)
    requires h.calls == map[]
    ensures forall spans: Spans :: id in spans && spans[id] == span ==>
              EmitterSpec.Step(System(h, spans), Operation.End(0, Live(id), terminal, error, at)) ==
              if span.ended then System(h, spans)
              else Issue(System(h, spans), 0, id,
                         span.(ended := true, endedAt := at, terminal := terminal, error := error),
                         SpanEnded(span.traceID, id, Some(at), terminal, error))
  {
    hide Issue;
  }

  // ----- Spans

  /** The spans and the hub a context carries. */
  datatype Context = Context(hub: HubObject?, span: SpanObject?)

  class SpanObject {
    const hub: HubObject?
    const traceID: string
    const spanID: string
    const parentID: string
    var ended: bool
    /** What its callers made of it, as far as it is on a hub. */
    ghost var made: Span

    /** A span without a hub has no ids either. */
    ghost predicate Valid()
      reads this, hub, if hub == null then [] else hub.chans
    {
      if hub == null then traceID == "" && spanID == "" && parentID == ""
      else
        && traceID != "" && spanID != "" && hub.Valid()
        && made.traceID == traceID && made.parentID == parentID && made.ended == ended
    }

    constructor (hub: HubObject?, traceID: string, spanID: string, parentID: string, ghost made: Span)
      ensures this.hub == hub && this.traceID == traceID && this.spanID == spanID && this.parentID == parentID
      ensures !ended && this.made == made
    {
      this.hub, this.traceID, this.spanID, this.parentID, ended := hub, traceID, spanID, parentID, false;
      this.made := made;
    }

    method Recording() returns (recording: bool)
      ensures recording <==> hub != null && !ended
    {
      recording := hub != null && !ended;
    }

    /** Hands a record over: the operation's step, and then the hub's. */
    method Emit(r: Record, ghost after: Span, ghost op: Operation)
      requires hub != null && hub.Valid()
      requires forall spans: Spans :: spanID in spans && spans[spanID] == made ==>
                 EmitterSpec.Step(System(hub.spec, spans), op) == Issue(System(hub.spec, spans), 0, spanID, after, r)
      modifies this`made, hub, hub.chans
      ensures hub.Valid() && hub.Published(r) && made == after.(issued := after.issued + [r])
      ensures DoesTo(old(hub.spec), spanID, old(made), op, hub.spec, made)
    {
      hide DoesTo, HubObject.Valid, HubSpec.Step, EmitterSpec.Step, Reaches;
      ghost var h := hub.spec;
      hub.Publish(r);
      DoesIssue(h, spanID, made, op, hub.spec, after, r);
      made := after.(issued := after.issued + [r]);
    }

    /** Publishes an update unless the span is inert or ended or nothing is given;
        an update whose attributes are all nil is still published. */
    method SetAttributes(attrs: seq<Option<Attribute>>)
      requires Valid()
      modifies this`made, hub, if hub == null then [] else hub.chans
      ensures Valid() && ended == old(ended)
      ensures hub != null && !ended && attrs != [] ==> hub.Published(SpanUpdated(traceID, spanID, Cloned(attrs)))
      ensures hub != null && (ended || attrs == []) ==> unchanged(hub) && forall ch :: ch in hub.chans ==> unchanged(ch)
      ensures hub != null ==>
                DoesTo(old(hub.spec), spanID, old(made), Operation.SetAttributes(0, Live(spanID), attrs), hub.spec,
                       made)
    {
      hide DoesTo, HubObject.Valid, HubSpec.Step, Reaches;
      if hub == null {
        return;
      }
      hub.Idle();
      SetAttributesSteps(hub.spec, spanID, made, attrs);
      if ended || attrs == [] {
        DoesNothing(hub.spec, spanID, made, Operation.SetAttributes(0, Live(spanID), attrs));
        return;
      }
      var cloned := Clone(attrs);
      Emit(SpanUpdated(traceID, spanID, cloned), made.(tags := Tagged(made.tags, attrs)),
           Operation.SetAttributes(0, Live(spanID), attrs));
    }

    /** Publishes an event unless the span is inert or ended; the zero time stands
        for now, and no severity for the schema's default. */
    method AddEvent(name: string, at: Time, now: Time, attrs: seq<Option<Attribute>>, severity: Severity)
      requires Valid()
      modifies this`made, hub, if hub == null then [] else hub.chans
      ensures Valid() && ended == old(ended)
      ensures hub != null && !ended ==>
                hub.Published(SpanEvent(traceID, spanID, name, Some(if at == ZERO_TIME then now else at), Cloned(attrs),
                                        if severity == SeverityUnspecified then None else Some(severity)))
      ensures hub != null && ended ==> unchanged(hub) && forall ch :: ch in hub.chans ==> unchanged(ch)
      ensures hub != null ==>
                DoesTo(old(hub.spec), spanID, old(made),
                       Operation.AddEvent(0, Live(spanID), name, at, now, attrs, severity), hub.spec, made)
    {
      hide DoesTo, HubObject.Valid, HubSpec.Step, Reaches;
      if hub == null {
        return;
      }
      var eventAt := at;
      if eventAt == ZERO_TIME {
        eventAt := now;
      }
      ghost var op := Operation.AddEvent(0, Live(spanID), name, at, now, attrs, severity);
      hub.Idle();
      AddEventSteps(hub.spec, spanID, made, name, at, now, attrs, severity);
      if ended {
        DoesNothing(hub.spec, spanID, made, op);
        return;
      }
      var cloned := Clone(attrs);
      var given := None;
      if severity != SeverityUnspecified {
        given := Some(severity);
      }
      Emit(SpanEvent(traceID, spanID, name, Some(eventAt), cloned, given),
           made.(events := made.events + [Noted(name, eventAt, attrs, severity)]), op);
    }

    /** Ends the span once, and publishes that; an inert span stays as it is. */
    method End(terminal: TerminalType, error: string, now: Time)
      requires Valid()
      modifies this`ended, this`made, hub, if hub == null then [] else hub.chans
      ensures Valid() && ended == (old(ended) || hub != null)
      ensures hub != null && !old(ended) ==> hub.Published(SpanEnded(traceID, spanID, Some(now), terminal, error))
      ensures hub != null && old(ended) ==> unchanged(hub) && forall ch :: ch in hub.chans ==> unchanged(ch)
      ensures hub != null ==>
                DoesTo(old(hub.spec), spanID, old(made), Operation.End(0, Live(spanID), terminal, error, now),
                       hub.spec, made)
    {
      hide DoesTo, HubObject.Valid, HubSpec.Step, Reaches;
      if hub == null {
        return;
      }
      ghost var op := Operation.End(0, Live(spanID), terminal, error, now);
      hub.Idle();
      EndSteps(hub.spec, spanID, made, terminal, error, now);
      if ended {
        DoesNothing(hub.spec, spanID, made, op);
        return;
      }
      ended := true;
      Emit(SpanEnded(traceID, spanID, Some(now), terminal, error),
           made.(ended := true, endedAt := now, terminal := terminal, error := error), op);
    }

    method Complete(now: Time)
      requires Valid()
      modifies this`ended, this`made, hub, if hub == null then [] else hub.chans
      ensures Valid() && ended == (old(ended) || hub != null)
      ensures hub != null && !old(ended) ==> hub.Published(SpanEnded(traceID, spanID, Some(now), TerminalComplete, ""))
    {
      End(TerminalComplete, "", now);
    }

    method Error(err: Option<string>, now: Time)
      requires Valid()
      modifies this`ended, this`made, hub, if hub == null then [] else hub.chans
      ensures Valid() && ended == (old(ended) || hub != null)
      ensures hub != null && !old(ended) ==>
                hub.Published(SpanEnded(traceID, spanID, Some(now), TerminalError,
                                        if err == None then "" else err.value))
    {
      match err
      case None => End(TerminalError, "", now);
      case Some(message) => End(TerminalError, message, now);
    }
  }

  method Clone(attrs: seq<Option<Attribute>>) returns (cloned: seq<Option<Attribute>>)
    ensures cloned == Cloned(attrs)
  {
    var kept := CloneAttributes(attrs);
    cloned := seq(|kept|, i requires 0 <= i < |kept| => Some(kept[i]));
  }

  // ----- Starting

  /** The hub a package-level start uses: the parent's, or else the context's. */
  function HubOf(ctx: Context): HubObject? {
    if ctx.span != null && ctx.span.hub != null then ctx.span.hub else ctx.hub
  }

  /** Starts a span on a hub: below the context's span if that has ids, in its
      trace; in a fresh trace otherwise; inert without a hub. The context returned
      carries both. */
  method StartWithHub(ctx: Context, hub: HubObject?, name: string, attrs: seq<Option<Attribute>>, now: Time,
                      freshID: string, freshTrace: string)
    returns (ctx': Context, span: SpanObject)
    requires freshID != "" && freshTrace != ""
    requires hub != null ==> hub.Valid()
    requires ctx.span != null ==> ctx.span.Valid()
    modifies hub, if hub == null then [] else hub.chans
    ensures fresh(span) && span.Valid() && span.hub == hub && !span.ended && ctx'.span == span
    ensures ctx'.hub == if hub == null then ctx.hub else hub
    ensures hub != null ==> span.spanID == freshID
    ensures hub != null && ctx.span != null && ctx.span.hub != null ==>
              span.traceID == ctx.span.traceID && span.parentID == ctx.span.spanID
    ensures hub != null && (ctx.span == null || ctx.span.hub == null) ==>
              span.traceID == freshTrace && span.parentID == ""
    ensures hub != null ==>
              hub.Published(SpanStarted(span.traceID, span.spanID, span.parentID, name, Some(now), Cloned(attrs)))
    ensures hub != null && (ctx.span != null && ctx.span.hub != null ==> ctx.span.hub == hub) ==>
              Starts(old(hub.spec), Operation.Start(0, true, RefOf(ctx), freshID, freshTrace, name, now, attrs),
                     hub.spec, span.made)
  {
    hide Starts, HubObject.Tied, HubObject.Published, HubSpec.Step;
    if hub == null {
      span := new SpanObject(null, "", "", "", Blank("", "", name, now, attrs));
      ctx' := ctx.(span := span);
      return;
    }
    if ctx.span != null && ctx.span.traceID != "" {
      span := StartOn(hub, ctx.span.traceID, freshID, ctx.span.spanID, name, attrs, now, RefOf(ctx), freshTrace);
    } else {
      span := StartOn(hub, freshTrace, freshID, "", name, attrs, now, RefOf(ctx), freshTrace);
    }
    ctx' := Context(hub, span);
  }

  function Blank(traceID: string, parentID: string, name: string, now: Time, attrs: seq<Option<Attribute>>): Span {
    Span(traceID, parentID, name, now, FirstTags(attrs), [], false, ZERO_TIME, TerminalUnspecified, "", [])
  }

  /** The span is made, and its start published. */
  method StartOn(hub: HubObject, traceID: string, spanID: string, parentID: string, name: string,
                 attrs: seq<Option<Attribute>>, now: Time, ghost parent: Option<SpanRef>, ghost freshTrace: string)
    returns (span: SpanObject)
    requires hub.Valid() && traceID != "" && spanID != "" && freshTrace != ""
    modifies hub, hub.chans
    ensures fresh(span) && span.Valid() && span.hub == hub && !span.ended
    ensures span.traceID == traceID && span.spanID == spanID && span.parentID == parentID
    ensures hub.Published(SpanStarted(traceID, spanID, parentID, name, Some(now), Cloned(attrs)))
    ensures (if parent.Some? && parent.value.Live? then parentID == parent.value.id != ""
             else parentID == "" && traceID == freshTrace) ==>
              Starts(old(hub.spec), Operation.Start(0, true, parent, spanID, freshTrace, name, now, attrs), hub.spec,
                     span.made)
  {
    hide Starts, HubObject.Valid, HubSpec.Step, Reaches, FirstTags, Cloned;
    ghost var blank := Blank(traceID, parentID, name, now, attrs);
    span := new SpanObject(hub, traceID, spanID, parentID, blank);
    var cloned := Clone(attrs);
    ghost var h, r := hub.spec, SpanStarted(traceID, spanID, parentID, name, Some(now), cloned);
    hub.Idle();
    hub.Publish(SpanStarted(span.traceID, span.spanID, span.parentID, name, Some(now), cloned));
    span.made := blank.(issued := [r]);
    if if parent.Some? && parent.value.Live? then parentID == parent.value.id != ""
       else parentID == "" && traceID == freshTrace {
      StartSteps(h, parent, blank, spanID, freshTrace, name, now, attrs, hub.spec);
    }
  }

  /** The span a context carries, as the emitter's operations name it. */
  function RefOf(ctx: Context): Option<SpanRef> {
    if ctx.span == null then None
    else if ctx.span.hub == null then Some(Inert)
    else Some(Live(ctx.span.spanID))
  }

  /** The start of a new span, whatever other spans there are, as long as its parent
      is one of them and in the trace it is in. */
  ghost predicate Starts(h: Hub, op: Operation, h': Hub, made: Span)
    requires op.Start?
  {
    forall spans: Spans ::
      op.id !in spans && (made.parentID != "" ==>
                            made.parentID in spans && spans[made.parentID].traceID == made.traceID) ==>
        Does(h, spans, op, h', spans[op.id := made])
  }

  lemma StartSteps(h: Hub, parent: Option<SpanRef>, blank: Span, id: string, freshTrace: string, name: string,
                   now: Time, attrs: seq<Option<Attribute>>, h': Hub)
    requires h.calls == map[] && id != "" && freshTrace != ""
    requires parent.Some? && parent.value.Live? ==> blank.parentID == parent.value.id != ""
    requires !(parent.Some? && parent.value.Live?) ==> blank.parentID == "" && blank.traceID == freshTrace
    requires blank == Span(blank.traceID, blank.parentID, name, now, FirstTags(attrs), [], false, ZERO_TIME,
                           TerminalUnspecified, "", [])
    requires var r := SpanStarted(blank.traceID, id, blank.parentID, name, Some(now), Cloned(attrs));
             Reaches(HubSpec.Step(h, Publish(0, r)), h')
    ensures var r := SpanStarted(blank.traceID, id, blank.parentID, name, Some(now), Cloned(attrs));
            Starts(h, Operation.Start(0, true, parent, id, freshTrace, name, now, attrs), h', blank.(issued := [r]))
  {
    hide HubSpec.Step, FirstTags, Cloned, Reaches;
    var op := Operation.Start(0, true, parent, id, freshTrace, name, now, attrs);
    var r := SpanStarted(blank.traceID, id, blank.parentID, name, Some(now), Cloned(attrs));
    assert [] + [r] == [r];
    forall spans: Spans | id !in spans && (blank.parentID != "" ==>
                            blank.parentID in spans && spans[blank.parentID].traceID == blank.traceID)
      ensures Does(h, spans, op, h', spans[id := blank.(issued := [r])])
    {
      assert EmitterSpec.Step(System(h, spans), op) == Issue(System(h, spans), 0, id, blank, r);
    }
  }

  /** The package-level start; everything started below it is on the same hub. */
  method Start(ctx: Context, name: string, attrs: seq<Option<Attribute>>, now: Time, freshID: string,
               freshTrace: string)
    returns (ctx': Context, span: SpanObject)
    requires freshID != "" && freshTrace != ""
    requires HubOf(ctx) != null ==> HubOf(ctx).Valid()
    requires ctx.span != null ==> ctx.span.Valid()
    modifies HubOf(ctx), if HubOf(ctx) == null then [] else HubOf(ctx).chans
    ensures fresh(span) && span.Valid() && ctx'.span == span && HubOf(ctx') == HubOf(ctx) == span.hub
    ensures span.hub != null && ctx.span != null && ctx.span.hub != null ==>
              span.traceID == ctx.span.traceID && span.parentID == ctx.span.spanID
    ensures span.hub != null ==>
              span.hub.Published(SpanStarted(span.traceID, span.spanID, span.parentID, name, Some(now), Cloned(attrs)))
  {
    ctx', span := StartWithHub(ctx, HubOf(ctx), name, attrs, now, freshID, freshTrace);
  }
}
