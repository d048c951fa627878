/** Spans on one hub, used by any number of threads: every span's mutex, the
    hub's lock and channels, and the subscribers, interleaved step by step. */
module EmitterSpec {
  import opened Records
  import opened Attributes
  import opened Forest
  import opened Confluence
  import opened HubSpec
  import opened Streams

  /** What a caller may hold instead of a nil span: one without a hub, or one on it. */
  datatype SpanRef = Inert | Live(id: string)

  /** A span as its callers made it, and the records it handed to Publish. */
  datatype Span = Span(traceID: string, parentID: string, name: string, startedAt: Time,
                       tags: map<string, Attribute>, events: seq<EventState>,
                       ended: bool, endedAt: Time, terminal: TerminalType, error: string, issued: seq<Record>)

  datatype System = System(hub: Hub, spans: map<string, Span>)

  const NEW_SYSTEM := System(NEW_HUB, map[])

  /** `Start` with the ids it draws, which are new; `hasHub` when the context or
      the receiver provides the hub, `parent` the span the context carries. */
  datatype Operation =
    | Start(tid: ThreadId, hasHub: bool, parent: Option<SpanRef>, id: string, freshTrace: string,
            name: string, at: Time, attrs: seq<Option<Attribute>>)
    | SetAttributes(tid: ThreadId, span: SpanRef, attrs: seq<Option<Attribute>>)
    | AddEvent(tid: ThreadId, span: SpanRef, name: string, at: Time, now: Time,
               attrs: seq<Option<Attribute>>, severity: Severity)
    | End(tid: ThreadId, span: SpanRef, terminal: TerminalType, error: string, at: Time)
    | OfHub(action: HubSpec.Action)

  // ----- What callers make of a span

  /** The first attribute given for each key. */
  function FirstTags(attrs: seq<Option<Attribute>>): map<string, Attribute> {
    if attrs == [] then map[]
    else if attrs[0].None? then FirstTags(attrs[1..])
    else FirstTags(attrs[1..])[attrs[0].value.key := attrs[0].value]
  }

  /** Each write replaces what its key had. */
  function Tagged(tags: map<string, Attribute>, attrs: seq<Option<Attribute>>): map<string, Attribute> {
    if attrs == [] then tags
    else
      var before, last := Tagged(tags, attrs[..|attrs| - 1]), attrs[|attrs| - 1];
      if Effective(last) then before[last.value.key := last.value] else before
  }

  function Cloned(attrs: seq<Option<Attribute>>): seq<Option<Attribute>> {
    seq(|NonNil(attrs)|, i requires 0 <= i < |NonNil(attrs)| => Some(NonNil(attrs)[i]))
  }

  // ----- Steps

  /** Some thread is inside Publish with a record of the span; except in `Start`,
      it holds the span's mutex. */
  predicate Busy(h: Hub, id: string) {
    exists tid :: tid in h.calls && h.calls[tid].record.SpanID() == id
  }

  predicate Starting(h: Hub, id: string) {
    exists tid :: tid in h.calls && h.calls[tid].record.SpanStarted? && h.calls[tid].record.spanID == id
  }

  /** The thread is free, and can lock the span. */
  predicate CanLock(s: System, tid: ThreadId, id: string) {
    tid !in s.hub.calls && id in s.spans && !Busy(s.hub, id)
  }

  function Issue(s: System, tid: ThreadId, id: string, span: Span, r: Record): System {
    System(HubSpec.Step(s.hub, Publish(tid, r)), s.spans[id := span.(issued := span.issued + [r])])
  }

  function DoStart(s: System, op: Operation): System
    requires op.Start?
  {
    var live := op.parent.Some? && op.parent.value.Live?;
    if op.tid in s.hub.calls || op.id in s.spans || op.id == "" || op.freshTrace == "" then s
    else if !op.hasHub && !live then s
    else if live && (op.parent.value.id !in s.spans || Starting(s.hub, op.parent.value.id)) then s
    else
      var traceID := if live then s.spans[op.parent.value.id].traceID else op.freshTrace;
      var parentID := if live then op.parent.value.id else "";
      var span := Span(traceID, parentID, op.name, op.at, FirstTags(op.attrs), [],
                       false, ZERO_TIME, TerminalUnspecified, "", []);
      Issue(s, op.tid, op.id, span, SpanStarted(traceID, op.id, parentID, op.name, Some(op.at), Cloned(op.attrs)))
  }

  function DoSetAttributes(s: System, tid: ThreadId, id: string, attrs: seq<Option<Attribute>>): System
    requires CanLock(s, tid, id)
  {
    var span := s.spans[id];
    if span.ended || attrs == [] then s
    else
      Issue(s, tid, id, span.(tags := Tagged(span.tags, attrs)), SpanUpdated(span.traceID, id, Cloned(attrs)))
  }

  function DoAddEvent(s: System, tid: ThreadId, id: string, name: string, at: Time,
                      attrs: seq<Option<Attribute>>, severity: Severity): System
    requires CanLock(s, tid, id)
  {
    var span := s.spans[id];
    if span.ended then s
    else
      var given := if severity.SeverityUnspecified? then None else Some(severity);
      var event := EventState(name, at, NonNil(attrs),
                              if severity.SeverityUnspecified? then SeverityInfo else severity);
      Issue(s, tid, id, span.(events := span.events + [event]),
            SpanEvent(span.traceID, id, name, Some(at), Cloned(attrs), given))
  }

  function DoEnd(s: System, tid: ThreadId, id: string, terminal: TerminalType, error: string, at: Time): System
    requires CanLock(s, tid, id)
  {
    var span := s.spans[id];
    if span.ended then s
    else
      Issue(s, tid, id, span.(ended := true, endedAt := at, terminal := terminal, error := error),
            SpanEnded(span.traceID, id, Some(at), terminal, error))
  }

  /** One step; calls on a span without a hub, and steps not enabled, change nothing. */
  function Step(s: System, op: Operation): System {
    match op
    case Start(_, _, _, _, _, _, _, _) => DoStart(s, op)
    case SetAttributes(tid, span, attrs) =>
      if span.Inert? || !CanLock(s, tid, span.id) then s else DoSetAttributes(s, tid, span.id, attrs)
    case AddEvent(tid, span, name, at, now, attrs, severity) =>
      if span.Inert? || !CanLock(s, tid, span.id) then s
      else DoAddEvent(s, tid, span.id, name, if at == ZERO_TIME then now else at, attrs, severity)
    case End(tid, span, terminal, error, at) =>
      if span.Inert? || !CanLock(s, tid, span.id) then s else DoEnd(s, tid, span.id, terminal, error, at)
    case OfHub(action) => if action.Publish? then s else s.(hub := HubSpec.Step(s.hub, action))
  }

  function Run(s: System, ops: seq<Operation>): System {
    if ops == [] then s else Step(Run(s, ops[..|ops| - 1]), ops[|ops| - 1])
  }

  // ----- What holds in every run

  /** A span's records: its start, then updates and events, then at most its end. */
  ghost predicate Grammar(own: seq<Record>) {
    && (own != [] ==> own[0].SpanStarted?)
    && (forall k :: 0 < k < |own| ==> own[k].SpanUpdated? || own[k].SpanEvent? || own[k].SpanEnded?)
    && (forall k :: 0 <= k < |own| - 1 ==> !own[k].SpanEnded?)
  }

  function Get<K, V>(m: map<K, V>, key: K): Option<V> {
    if key in m then Some(m[key]) else None
  }

  /** A rebuilt span shows exactly what the callers made of the span. */
  ghost predicate Shows(info: Info, id: string, span: Span) {
    && info.spanID == id && info.traceID == span.traceID && info.parentID == span.parentID
    && info.name == span.name && info.startedAt == span.startedAt
    && (forall key :: Lookup(info.attrs, key) == Get(span.tags, key))
    && info.events == span.events
    && info.ended == span.ended && info.endedAt == span.endedAt
    && info.terminal == span.terminal && info.error == span.error
  }

  ghost predicate SpanValid(s: System, id: string)
    requires id in s.spans
  {
    var span := s.spans[id];
    && id != "" && span.traceID != ""
    && (span.parentID != "" ==> span.parentID in s.spans && s.spans[span.parentID].traceID == span.traceID)
    && span.issued != [] && Grammar(span.issued)
    && span.issued[0].parentID == span.parentID
    && (span.ended <==> span.issued[|span.issued| - 1].SpanEnded?)
    && (forall k :: 0 <= k < |span.issued| ==>
          span.issued[k].SpanID() == id && !span.issued[k].NoKind? && span.issued[k].traceID == span.traceID)
    && FoldSpan(span.issued).Some? && Shows(FoldSpan(span.issued).value, id, span)
  }

  /** Each publication under way is its span's latest, and no span has two. */
  ghost predicate CallsOwned(s: System) {
    && (forall tid :: tid in s.hub.calls ==>
          var r := s.hub.calls[tid].record;
          r.SpanID() in s.spans && s.spans[r.SpanID()].issued != [] &&
          r == s.spans[r.SpanID()].issued[|s.spans[r.SpanID()].issued| - 1])
    && (forall tid, tid' :: tid in s.hub.calls && tid' in s.hub.calls && tid != tid' ==>
          s.hub.calls[tid].record.SpanID() != s.hub.calls[tid'].record.SpanID())
  }

  ghost predicate WaitingFor(h: Hub, id: string) {
    exists tid :: tid in h.calls && h.calls[tid].Waiting? && h.calls[tid].record.SpanID() == id
  }

  /** What the span published, less the record that still waits for the hub. */
  function Out(s: System, id: string, waiting: bool): seq<Record> {
    var issued := if id in s.spans then s.spans[id].issued else [];
    if waiting && issued != [] then issued[..|issued| - 1] else issued
  }

  /** The hub's log has a span's records in order: all of them until it closes. */
  ghost predicate Logged(s: System, id: string) {
    && Project(s.hub.log, id) <= Out(s, id, WaitingFor(s.hub, id))
    && (!s.hub.closed ==> Project(s.hub.log, id) == Out(s, id, WaitingFor(s.hub, id)))
  }

  ghost predicate IsStart(h: Hub, i: nat, id: string) {
    i < |h.log| && h.log[i].SpanStarted? && h.log[i].spanID == id
  }

  /** A parent's start had been published before its child's began to be. */
  ghost predicate ParentsBefore(h: Hub) {
    && |h.during| == |h.log|
    && (forall j :: 0 <= j < |h.log| && h.log[j].SpanStarted? && h.log[j].parentID != "" ==>
          exists i :: 0 <= i < j && IsStart(h, i, h.log[j].parentID) && i !in h.during[j])
    && (!h.closed ==> forall tid :: tid in h.calls && h.calls[tid].Waiting? && h.calls[tid].record.SpanStarted? &&
                                    h.calls[tid].record.parentID != "" ==>
          exists i: nat :: IsStart(h, i, h.calls[tid].record.parentID) && i !in Flights(h))
  }

  ghost predicate Valid(s: System) {
    && HubSpec.Valid(s.hub)
    && (forall id :: id in s.spans ==> SpanValid(s, id))
    && CallsOwned(s)
    && (forall id :: Logged(s, id))
    && Serial(s.hub)
    && ParentsBefore(s.hub)
  }
}
