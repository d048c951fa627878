/** The record schema: what the emitter publishes and the store consumes.
    Optional message fields are `Option`s; repeated message fields may hold nil
    elements, as the generated Go slices of pointers may. */
module Records {

  datatype Option<+T> = None | Some(value: T)

  /** An instant, in nanoseconds since the Unix epoch. */
  type Time = int

  /** Go's zero `time.Time`: midnight of January 1, year 1 (UTC). */
  const ZERO_TIME: Time := -62135596800 * 1000000000

  const EPOCH: Time := 0

  datatype Attribute = Attribute(key: string, value: string, hints: seq<string>)

  datatype Severity = SeverityUnspecified | SeverityInfo | SeverityWarn | SeverityError

  datatype TerminalType = TerminalUnspecified | TerminalComplete | TerminalError

  datatype Record =
    | SpanStarted(traceID: string, spanID: string, parentID: string, name: string,
                  startedAt: Option<Time>, attrs: seq<Option<Attribute>>)
    | SpanUpdated(traceID: string, spanID: string, attrs: seq<Option<Attribute>>)
    | SpanEnded(traceID: string, spanID: string, endedAt: Option<Time>,
                terminal: TerminalType, error: string)
    | SpanEvent(traceID: string, spanID: string, name: string, eventAt: Option<Time>,
                attrs: seq<Option<Attribute>>, severity: Option<Severity>)
    | NoKind
  {
    /** The span a record is about; "" when no kind is set. */
    function SpanID(): string {
      if NoKind? then "" else spanID
    }
  }

  /** A missing timestamp reaches the store as a nil pointer inside a non-nil
      interface, so it becomes the epoch and not the zero time. */
  function TimeValue(ts: Option<Time>): Time {
    match ts
    case None => EPOCH
    case Some(t) => t
  }

  /** The schema default of an event that carries no severity. */
  function SeverityValue(s: Option<Severity>): Severity {
    match s
    case None => SeverityInfo
    case Some(v) => v
  }
}
