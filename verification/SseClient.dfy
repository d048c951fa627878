/** The record stream's client: connecting, and connecting again, until cancelled. */
module SseClient {
  import opened Records
  import opened Connection
  import opened Lines
  import opened RecordFrames

  type State = ConnectionState

  function ConnectingState(attempt: nat): State {
    ConnectionState(Connecting, attempt, "", ZERO_TIME)
  }

  function ConnectedState(attempt: nat): State {
    ConnectionState(Connected, attempt, "", ZERO_TIME)
  }

  function RetryingState(attempt: nat, err: string, retryAt: Time): State {
    ConnectionState(Retrying, attempt, err, retryAt)
  }

  const DISCONNECTED := ConnectionState(Disconnected, 0, "", ZERO_TIME)

  const RETRY_DELAY: Time := 2 * 1000000000

  /** What the network does to one attempt: a request that cannot be built or
      sent, a status other than OK, or a body that ends, perhaps in an error, and
      is closed, perhaps with another. */
  datatype Outcome =
    | NoRequest(error: string)
    | NoResponse(error: string)
    | BadStatus(status: string, closeError: Option<string>)
    | Body(text: string, readError: Option<string>, closeError: Option<string>)

  /** One turn of the retry loop: what it finds of its context at each check. */
  datatype Round = Round(doneBefore: bool, outcome: Outcome, doneAfter: bool, now: Time, doneWaiting: bool)

  predicate Cancelled(r: Round) {
    r.doneBefore || r.doneAfter || r.doneWaiting
  }

  const TOO_LONG := "bufio.Scanner: token too long"

  /** Closing the body reports an error only if there was none before. */
  function Closing(err: Option<string>, closeError: Option<string>): Option<string> {
    if closeError.Some? && err.None? then Some("close response body: " + closeError.value) else err
  }

  /** Why an attempt fails: that the body cannot be closed is never the reason. */
  function Failure(outcome: Outcome): string {
    match outcome
    case NoRequest(error) => error
    case NoResponse(error) => error
    case BadStatus(status, _) => "unexpected status: " + status
    case Body(text, readError, _) =>
      if ScanLines(text, MAX_FRAME).tooLong then TOO_LONG
      else if readError.Some? then readError.value else "stream closed"
  }

  /** One connection: it always ends in an error, at least that the stream closed. */
  method StreamOnce(decode: Decoder, outcome: Outcome, attempt: nat)
    returns (err: Option<string>, states: seq<State>, records: seq<Record>)
    ensures err == Some(Failure(outcome))
    ensures outcome.NoRequest? || outcome.NoResponse? ==> err == Some(outcome.error)
    ensures outcome.BadStatus? ==> err == Some("unexpected status: " + outcome.status)
    ensures outcome.Body? ==> err == if LongLine(outcome.text, MAX_FRAME) then Some(TOO_LONG)
                                     else if outcome.readError.Some? then outcome.readError
                                     else Some("stream closed")
    ensures states == if outcome.Body? then [ConnectedState(attempt)] else []
    ensures records == if outcome.Body? then Scanned(decode, outcome.text) else []
  {
    err, states, records := None, [], [];
    match outcome
    case NoRequest(error) => err := Some(error);
    case NoResponse(error) => err := Some(error);
    case BadStatus(status, closeError) =>
      err := Closing(Some("unexpected status: " + status), closeError);
    case Body(text, readError, closeError) =>
      states := states + [ConnectedState(attempt)];
      TooLongExactly(text, MAX_FRAME);
      var tooLong;
      records, tooLong := ScanFrames(decode, text);
      if tooLong {
        err := Some(TOO_LONG);
      } else if readError.Some? {
        err := readError;
      } else {
        err := Some("stream closed");
      }
      err := Closing(err, closeError);
  }

  // ----- The trace language

  /** What may come right after what: attempts count up from one, by one with each
      retry, and nothing comes after the end. */
  predicate MayFollow(before: Option<State>, next: State) {
    match next.phase
    case Connecting =>
      if before.None? then next.attempt == 1
      else before.value.phase.Retrying? && next.attempt == before.value.attempt + 1
    case Connected => before == Some(ConnectingState(next.attempt))
    case Retrying => before == Some(ConnectingState(next.attempt)) || before == Some(ConnectedState(next.attempt))
    case Disconnected => before.None? || !before.value.phase.Disconnected?
    case NoPhase => false
  }

  function Latest(states: seq<State>): Option<State> {
    if states == [] then None else Some(states[|states| - 1])
  }

  ghost predicate Trace(states: seq<State>) {
    forall i :: 0 <= i < |states| ==> MayFollow(Latest(states[..i]), states[i])
  }

  lemma TraceMore(states: seq<State>, next: State)
    requires Trace(states) && MayFollow(Latest(states), next)
    ensures Trace(states + [next])
  {
    forall i | 0 <= i < |states| + 1
      ensures MayFollow(Latest((states + [next])[..i]), (states + [next])[i])
    {
      assert (states + [next])[..i] == states[..i];
      assert states[..|states|] == states;
    }
  }

  lemma MoreTrace(before: seq<State>, more: seq<State>, next: State)
    requires more != [] && Trace(before + more) && MayFollow(Some(more[|more| - 1]), next)
    ensures Trace(before + (more + [next]))
  {
    TraceMore(before + more, next);
    assert before + more + [next] == before + (more + [next]);
  }

  /** How many times connecting was reported. */
  function Attempts(states: seq<State>): nat {
    if states == [] then 0
    else Attempts(states[..|states| - 1]) + if states[|states| - 1].phase.Connecting? then 1 else 0
  }

  /** What the trace language comes to: every attempt's states carry its number,
      counted from one, and only the last state can say disconnected. */
  lemma {:induction false} TraceShape(states: seq<State>, i: nat)
    requires Trace(states) && i < |states|
    ensures states[i].phase.Disconnected? ==> i == |states| - 1
    ensures !states[i].phase.Disconnected? ==> states[i].attempt == Attempts(states[..i + 1])
    ensures states[i].phase.Retrying? || states[i].phase.Connected? ==>
              i > 0 && states[i - 1].attempt == states[i].attempt
  {
    assert states[..i + 1][..i] == states[..i];
    assert MayFollow(Latest(states[..i]), states[i]);
    if i + 1 < |states| {
      assert MayFollow(Latest(states[..i + 1]), states[i + 1]);
    }
    if i > 0 {
      TraceShape(states, i - 1);
      assert states[..i - 1 + 1] == states[..i];
    }
  }

  /** The attempt is reached: nothing before it was cancelled. */
  ghost predicate Reached(rounds: seq<Round>, i: nat) {
    i < |rounds| && !rounds[i].doneBefore && forall j :: 0 <= j < i ==> !Cancelled(rounds[j])
  }

  function Got(decode: Decoder, round: Round): seq<Record> {
    if round.doneBefore || !round.outcome.Body? then [] else Scanned(decode, round.outcome.text)
  }

  /** What the attempts up to the first cancellation received. */
  function Received(decode: Decoder, rounds: seq<Round>): seq<Record> {
    if rounds == [] then []
    else Got(decode, rounds[0]) + if Cancelled(rounds[0]) then [] else Received(decode, rounds[1..])
  }

  /** Before attempt `attempt + 1`: a start, or a retry announced. */
  ghost predicate Waiting(states: seq<State>, attempt: nat) {
    if attempt == 0 then states == []
    else states != [] && states[|states| - 1].phase.Retrying? && states[|states| - 1].attempt == attempt
  }

  /** The retry announced after a failed attempt. */
  function Retry(round: Round, attempt: nat): State {
    RetryingState(attempt, Failure(round.outcome), round.now + RETRY_DELAY)
  }

  /** What a turn reports. */
  ghost predicate Says(more: seq<State>, round: Round, attempt: nat) {
    && (DISCONNECTED in more <==> Cancelled(round))
    && (forall k: nat :: ConnectingState(k) in more <==> k == attempt && !round.doneBefore)
    && (forall k: nat :: ConnectedState(k) in more <==> k == attempt && !round.doneBefore && round.outcome.Body?)
    && (forall s: State :: s.phase.Retrying? ==>
          (s in more <==> !round.doneBefore && !round.doneAfter && s == Retry(round, attempt)))
  }

  lemma SaysNothing(round: Round, attempt: nat)
    requires round.doneBefore
    ensures Says([DISCONNECTED], round, attempt)
  {
  }

  lemma SaysTurn(reported: seq<State>, tail: seq<State>, round: Round, attempt: nat)
    requires !round.doneBefore && reported == (if round.outcome.Body? then [ConnectedState(attempt)] else [])
    requires if round.doneAfter then tail == [DISCONNECTED]
             else if round.doneWaiting then tail == [Retry(round, attempt), DISCONNECTED]
             else tail == [Retry(round, attempt)]
    ensures Says([ConnectingState(attempt)] + reported + tail, round, attempt)
  {
    var more := [ConnectingState(attempt)] + reported + tail;
    assert forall s :: s in tail ==> !s.phase.Connecting? && !s.phase.Connected?;
    assert forall s :: s in more <==> s == ConnectingState(attempt) || s in reported || s in tail;
    assert forall s :: s in reported <==> round.outcome.Body? && s == ConnectedState(attempt);
    assert DISCONNECTED in tail <==> Cancelled(round);
  }

  lemma SaysAfter(states: seq<State>, more: seq<State>, round: Round, attempt: nat)
    requires Says(more, round, attempt)
    ensures DISCONNECTED in states + more <==> DISCONNECTED in states || Cancelled(round)
    ensures forall k: nat :: ConnectingState(k) in states + more <==>
              ConnectingState(k) in states || (k == attempt && !round.doneBefore)
    ensures forall k: nat :: ConnectedState(k) in states + more <==>
              ConnectedState(k) in states || (k == attempt && !round.doneBefore && round.outcome.Body?)
    ensures forall s: State :: s.phase.Retrying? ==>
              (s in states + more <==>
               s in states || (!round.doneBefore && !round.doneAfter && s == Retry(round, attempt)))
  {
    hide ConnectingState, ConnectedState;
  }

  /** One turn of the retry loop; `stop` when it is the last. */
  method Turn(decode: Decoder, round: Round, attempt: nat, ghost before: seq<State>)
    returns (more: seq<State>, records: seq<Record>, stop: bool)
    requires attempt > 0 && Trace(before) && Waiting(before, attempt - 1)
    ensures Trace(before + more) && stop == Cancelled(round) && (!stop ==> Waiting(before + more, attempt))
    ensures Says(more, round, attempt)
    ensures records == Got(decode, round)
  {
    hide Trace, Scanned, ScanLines, Says;
    if round.doneBefore {
      TraceMore(before, DISCONNECTED);
      SaysNothing(round, attempt);
      return [DISCONNECTED], [], true;
    }
    more := [ConnectingState(attempt)];
    TraceMore(before, ConnectingState(attempt));
    var err, reported;
    err, reported, records := StreamOnce(decode, round.outcome, attempt);
    if reported != [] {
      MoreTrace(before, more, ConnectedState(attempt));
    } else {
      assert more + reported == more;
    }
    more, stop := more + reported, false;
    if err.Some? {
      if round.doneAfter {
        MoreTrace(before, more, DISCONNECTED);
        SaysTurn(reported, [DISCONNECTED], round, attempt);
        return more + [DISCONNECTED], records, true;
      }
      var retrying := RetryingState(attempt, err.value, round.now + RETRY_DELAY);
      MoreTrace(before, more, retrying);
      if round.doneWaiting {
        MoreTrace(before, more + [retrying], DISCONNECTED);
        SaysTurn(reported, [retrying, DISCONNECTED], round, attempt);
        assert more + [retrying, DISCONNECTED] == more + [retrying] + [DISCONNECTED];
        return more + [retrying] + [DISCONNECTED], records, true;
      }
      SaysTurn(reported, [retrying], round, attempt);
      more := more + [retrying];
    }
  }

  /** What was reported before the given round, none of those before it being cancelled. */
  ghost predicate AtRound(states: seq<State>, rounds: seq<Round>, i: nat)
    requires i <= |rounds|
  {
    && DISCONNECTED !in states && (forall j :: 0 <= j < i ==> !Cancelled(rounds[j]))
    && (forall k: nat :: ConnectingState(k) in states <==> 0 < k <= i)
    && (forall k: nat :: ConnectedState(k) in states <==> 0 < k <= i && rounds[k - 1].outcome.Body?)
    && (forall s: State :: s.phase.Retrying? ==>
          (s in states <==> 0 < s.attempt <= i && s == Retry(rounds[s.attempt - 1], s.attempt)))
  }

  /** What was reported in all. */
  ghost predicate Reported(states: seq<State>, rounds: seq<Round>) {
    && (DISCONNECTED in states <==> exists i :: 0 <= i < |rounds| && Cancelled(rounds[i]))
    && (forall k: nat :: ConnectingState(k) in states <==> k > 0 && Reached(rounds, k - 1))
    && (forall k: nat :: ConnectedState(k) in states <==>
          k > 0 && Reached(rounds, k - 1) && rounds[k - 1].outcome.Body?)
    && (forall s: State :: s.phase.Retrying? ==>
          (s in states <==>
           && s.attempt > 0 && Reached(rounds, s.attempt - 1) && !rounds[s.attempt - 1].doneAfter
           && s.err == Failure(rounds[s.attempt - 1].outcome)
           && s.retryAt == rounds[s.attempt - 1].now + 2_000_000_000))
  }

  lemma NextRound(states: seq<State>, more: seq<State>, rounds: seq<Round>, i: nat)
    requires i < |rounds| && AtRound(states, rounds, i) && Says(more, rounds[i], i + 1) && !Cancelled(rounds[i])
    ensures AtRound(states + more, rounds, i + 1)
  {
    SaysAfter(states, more, rounds[i], i + 1);
    assert Retry(rounds[i], i + 1).attempt == i + 1;
    hide ConnectingState, ConnectedState, Says, Retry;
  }

  lemma LastRound(states: seq<State>, more: seq<State>, rounds: seq<Round>, i: nat)
    requires i < |rounds| && AtRound(states, rounds, i) && Says(more, rounds[i], i + 1) && Cancelled(rounds[i])
    ensures Reported(states + more, rounds)
  {
    SaysAfter(states, more, rounds[i], i + 1);
    hide ConnectingState, ConnectedState, Says, Failure;
    assert forall k: nat :: Reached(rounds, k) <==> k < i || (k == i && !rounds[i].doneBefore);
  }

  lemma NoMoreRounds(states: seq<State>, rounds: seq<Round>)
    requires AtRound(states, rounds, |rounds|)
    ensures Reported(states, rounds)
  {
    hide ConnectingState, ConnectedState, Failure;
    assert forall k: nat :: Reached(rounds, k) <==> k < |rounds|;
  }

  /** The retry loop, as long as the given rounds last: the states reported. */
  method Stream(decode: Decoder, rounds: seq<Round>) returns (states: seq<State>, records: seq<Record>)
    ensures Trace(states)
    ensures Reported(states, rounds)
    ensures records == Received(decode, rounds)
  {
    hide Trace, Got, ConnectingState, ConnectedState, Says, Received, AtRound, Reported, Retry, Failure;
    assert rounds[0..] == rounds;
    ReceivedFrom(decode, rounds, |rounds|);
    states, records := [], [];
    NoTrace(rounds);
    for i := 0 to |rounds|
      invariant Trace(states) && Waiting(states, i) && AtRound(states, rounds, i)
      invariant records + Received(decode, rounds[i..]) == Received(decode, rounds)
    {
      ReceivedFrom(decode, rounds, i);
      var more, got, stop := Turn(decode, rounds[i], i + 1, states);
      if stop {
        LastRound(states, more, rounds, i);
        return states + more, records + got;
      }
      NextRound(states, more, rounds, i);
      states, records := states + more, records + got;
    }
    NoMoreRounds(states, rounds);
  }

  lemma ReceivedFrom(decode: Decoder, rounds: seq<Round>, i: nat)
    requires i <= |rounds|
    ensures i == |rounds| ==> Received(decode, rounds[i..]) == []
    ensures i < |rounds| ==>
              Received(decode, rounds[i..]) ==
              Got(decode, rounds[i]) + if Cancelled(rounds[i]) then [] else Received(decode, rounds[i + 1..])
  {
    hide Got;
    assert i < |rounds| ==> rounds[i..][1..] == rounds[i + 1..];
  }

  lemma NoTrace(rounds: seq<Round>)
    ensures Trace([]) && AtRound([], rounds, 0)
  {
  }
}
