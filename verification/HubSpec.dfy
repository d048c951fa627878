/** The hub as a concurrent protocol: any number of publishers, subscribers,
    cancellations and a closer, interleaved step by step. */
module HubSpec {
  import opened Records
  import opened Subsequence

  const DEFAULT_BUFFER := 256

  type ChanId = nat
  type ThreadId = nat

  /** A call of Publish: waiting for the read lock, or sending under it to the
      channels it has not tried yet. Its ticket is its place in the log. */
  datatype Call =
    | Waiting(record: Record)
    | Sending(record: Record, ticket: nat, rest: set<ChanId>)

  /** A channel, with the part of the log published while it was registered
      (from `since`, and to `until` once closed), the tickets of the sends that
      were tried on it, and those that found room. */
  datatype Channel = Channel(capacity: nat, open: bool, buffer: seq<Record>, received: seq<Record>,
                             since: nat, until: nat, offers: seq<nat>, accepted: seq<nat>, dropped: bool)

  /** `closing` while Close holds the write lock; `log` has the records in the
      order their publishers got the read lock, and `during` the tickets still
      being sent when each did. */
  datatype Hub = Hub(closed: bool, closing: bool, subs: set<ChanId>, chans: seq<Channel>, calls: map<ThreadId, Call>,
                     log: seq<Record>, during: seq<set<nat>>, panicked: bool)

  const NEW_HUB := Hub(false, false, {}, [], map[], [], [], false)

  datatype Action =
    | Publish(tid: ThreadId, record: Record)
    | Enter(tid: ThreadId)
    | Send(tid: ThreadId, ch: ChanId)
    | Return(tid: ThreadId)
    | Subscribe(size: int)
    | Cancel(ch: ChanId)
    | BeginClose
    | CloseOne(ch: ChanId)
    | EndClose
    | Receive(ch: ChanId)

  // ----- Steps

  predicate Reading(h: Hub, tid: ThreadId) {
    tid in h.calls && h.calls[tid].Sending?
  }

  /** The write lock can be taken. */
  predicate Lockable(h: Hub) {
    !h.closing && forall tid :: tid in h.calls ==> !Reading(h, tid)
  }

  function Flights(h: Hub): set<nat> {
    set tid | tid in h.calls && Reading(h, tid) :: h.calls[tid].ticket
  }

  /** A send that gives up when the buffer is full. */
  function TrySend(c: Channel, record: Record, ticket: nat): Channel {
    if |c.buffer| < c.capacity then
      c.(buffer := c.buffer + [record], offers := c.offers + [ticket], accepted := c.accepted + [ticket])
    else
      c.(offers := c.offers + [ticket], dropped := true)
  }

  /** Closing a channel; closing it twice, or sending on it afterwards, panics. */
  function Shut(h: Hub, ch: ChanId): Hub
    requires ch < |h.chans|
  {
    if !h.chans[ch].open then h.(panicked := true)
    else h.(chans := h.chans[ch := h.chans[ch].(open := false, until := |h.log|)], subs := h.subs - {ch})
  }

  /** One step; a step that is not enabled changes nothing. */
  function Step(h: Hub, a: Action): Hub {
    match a
    case Publish(tid, record) =>
      if tid in h.calls then h else h.(calls := h.calls[tid := Waiting(record)])
    case Enter(tid) =>
      if tid !in h.calls || Reading(h, tid) || h.closing then h
      else if h.closed then h.(calls := h.calls - {tid})
      else h.(calls := h.calls[tid := Sending(h.calls[tid].record, |h.log|, h.subs)],
              log := h.log + [h.calls[tid].record], during := h.during + [Flights(h)])
    case Send(tid, ch) =>
      if !Reading(h, tid) || ch !in h.calls[tid].rest || ch >= |h.chans| then h
      else if !h.chans[ch].open then h.(panicked := true)
      else
        var call := h.calls[tid];
        h.(calls := h.calls[tid := call.(rest := call.rest - {ch})],
           chans := h.chans[ch := TrySend(h.chans[ch], call.record, call.ticket)])
    case Return(tid) =>
      if !Reading(h, tid) || h.calls[tid].rest != {} then h else h.(calls := h.calls - {tid})
    case Subscribe(size) =>
      if !Lockable(h) then h
      else
        var capacity := if size <= 0 then DEFAULT_BUFFER else size;
        var c := Channel(capacity, !h.closed, [], [], |h.log|, |h.log|, [], [], false);
        h.(chans := h.chans + [c], subs := if h.closed then h.subs else h.subs + {|h.chans|})
    case Cancel(ch) =>
      if !Lockable(h) || ch >= |h.chans| || ch !in h.subs then h else Shut(h, ch)
    case BeginClose =>
      if !Lockable(h) || h.closed then h else h.(closed := true, closing := true)
    case CloseOne(ch) =>
      if !h.closing || ch >= |h.chans| || ch !in h.subs then h else Shut(h, ch)
    case EndClose =>
      if !h.closing || h.subs != {} then h else h.(closing := false)
    case Receive(ch) =>
      if ch >= |h.chans| || h.chans[ch].buffer == [] then h
      else
        var c := h.chans[ch];
        h.(chans := h.chans[ch := c.(buffer := c.buffer[1..], received := c.received + [c.buffer[0]])])
  }

  function Run(h: Hub, actions: seq<Action>): Hub {
    if actions == [] then h else Step(Run(h, actions[..|actions| - 1]), actions[|actions| - 1])
  }

  // ----- What holds in every run

  /** The records with the given tickets. */
  function At(log: seq<Record>, tickets: seq<nat>): seq<Record>
    requires forall k :: 0 <= k < |tickets| ==> tickets[k] < |log|
  {
    seq(|tickets|, k requires 0 <= k < |tickets| => log[tickets[k]])
  }

  /** The end of what was published while the channel was registered. */
  function Horizon(h: Hub, c: Channel): nat {
    if c.open then |h.log| else c.until
  }

  /** The publisher of the ticket is still to try the channel. */
  ghost predicate Pending(h: Hub, ch: ChanId, t: nat) {
    exists tid :: Reading(h, tid) && h.calls[tid].ticket == t && ch in h.calls[tid].rest
  }

  ghost predicate CallsValid(h: Hub) {
    && |h.during| == |h.log|
    && (forall tid :: Reading(h, tid) ==>
          && h.calls[tid].ticket < |h.log|
          && h.calls[tid].record == h.log[h.calls[tid].ticket]
          && h.calls[tid].rest <= h.subs)
    && (forall tid, tid' :: Reading(h, tid) && Reading(h, tid') && tid != tid' ==>
          h.calls[tid].ticket != h.calls[tid'].ticket)
    && (forall tid, tid' :: Reading(h, tid) && Reading(h, tid') && h.calls[tid].ticket < h.calls[tid'].ticket ==>
          h.calls[tid].ticket in h.during[h.calls[tid'].ticket])
  }

  /** A channel is open exactly while it is registered, and nothing panics. */
  ghost predicate Safe(h: Hub) {
    && !h.panicked
    && (forall ch :: ch in h.subs ==> ch < |h.chans|)
    && (forall ch :: 0 <= ch < |h.chans| ==> (h.chans[ch].open <==> ch in h.subs))
    && (h.closing ==> h.closed)
    && (h.closed && !h.closing ==> h.subs == {})
    && (h.closed ==> forall tid :: tid in h.calls ==> !Reading(h, tid))
  }

  /** What is received, then buffered, is what found room, in order, out of all
      that was tried; everything, if the buffer was never full. */
  ghost predicate Queued(h: Hub, c: Channel) {
    && c.since <= Horizon(h, c) <= |h.log|
    && (forall k :: 0 <= k < |c.offers| ==> c.since <= c.offers[k] < Horizon(h, c))
    && (forall k :: 0 <= k < |c.accepted| ==> c.accepted[k] < |h.log|)
    && c.received + c.buffer == At(h.log, c.accepted)
    && |c.buffer| <= c.capacity
    && Subseq(c.accepted, c.offers)
    && (!c.dropped ==> c.accepted == c.offers)
  }

  /** Everything published while the channel was registered is tried on it once,
      or about to be; and a publication that ended before another one began is
      tried before it. */
  ghost predicate Delivered(h: Hub, ch: ChanId)
    requires ch < |h.chans| && |h.during| == |h.log| && Queued(h, h.chans[ch])
  {
    var c := h.chans[ch];
    && (forall k, k' :: 0 <= k < k' < |c.offers| ==> c.offers[k] != c.offers[k'])
    && (forall t: nat :: Pending(h, ch, t) ==> c.since <= t < Horizon(h, c))
    && (forall t :: c.since <= t < Horizon(h, c) ==> (t in c.offers <==> !Pending(h, ch, t)))
    && (forall k, t :: 0 <= k < |c.offers| && c.since <= t < c.offers[k] && t !in h.during[c.offers[k]] ==>
          t in c.offers[..k])
  }

  ghost predicate Valid(h: Hub) {
    && CallsValid(h) && Safe(h)
    && forall ch :: 0 <= ch < |h.chans| ==> Queued(h, h.chans[ch]) && Delivered(h, ch)
  }

  // ----- Every step keeps it

  /** A step that leaves the log, the sends and the channels' histories alone. */
  ghost predicate SameFlights(h: Hub, h': Hub) {
    && h'.log == h.log && h'.during == h.during
    && (forall x :: Reading(h', x) ==> Reading(h, x) && h'.calls[x] == h.calls[x])
    && (forall x :: Reading(h, x) && h.calls[x].rest != {} ==> Reading(h', x) && h'.calls[x] == h.calls[x])
  }

  lemma SamePending(h: Hub, h': Hub)
    requires SameFlights(h, h')
    ensures forall ch, t :: Pending(h', ch, t) <==> Pending(h, ch, t)
  {
    forall ch, t
      ensures Pending(h', ch, t) <==> Pending(h, ch, t)
    {
      if Pending(h, ch, t) {
        var x :| Reading(h, x) && h.calls[x].ticket == t && ch in h.calls[x].rest;
        assert Reading(h', x);
      }
      if Pending(h', ch, t) {
        var x :| Reading(h', x) && h'.calls[x].ticket == t && ch in h'.calls[x].rest;
        assert Reading(h, x);
      }
    }
  }

  lemma SameCalls(h: Hub, h': Hub)
    requires SameFlights(h, h') && CallsValid(h)
    requires h'.subs == h.subs || forall x :: !Reading(h, x)
    ensures CallsValid(h')
  {
  }

  /** A channel's guarantees depend on its own history alone. */
  lemma SameDelivered(h: Hub, h': Hub, ch: ChanId)
    requires SameFlights(h, h') && ch < |h.chans| && ch < |h'.chans| && |h.during| == |h.log|
    requires Queued(h, h.chans[ch]) && Delivered(h, ch)
    requires var c, c' := h.chans[ch], h'.chans[ch];
             && c'.since == c.since && Horizon(h', c') == Horizon(h, c) && c'.offers == c.offers &&
                c'.accepted == c.accepted
             && c'.received + c'.buffer == c.received + c.buffer && |c'.buffer| <= |c.buffer|
             && c'.capacity == c.capacity && c'.dropped == c.dropped
    ensures Queued(h', h'.chans[ch]) && Delivered(h', ch)
  {
    SamePending(h, h');
    hide Pending, Subseq, At;
  }

  lemma PublishValid(h: Hub, tid: ThreadId, record: Record)
    requires Valid(h) && tid !in h.calls
    ensures Valid(Step(h, Publish(tid, record)))
  {
    var h' := Step(h, Publish(tid, record));
    hide Queued, Delivered;
    SameCalls(h, h');
    forall ch | 0 <= ch < |h'.chans|
      ensures Queued(h', h'.chans[ch]) && Delivered(h', ch)
    {
      SameDelivered(h, h', ch);
    }
  }

  /** The end of a publication that is not sending, or is done. */
  lemma LeaveValid(h: Hub, tid: ThreadId)
    requires Valid(h) && tid in h.calls
    requires Reading(h, tid) ==> h.calls[tid].rest == {}
    ensures Valid(h.(calls := h.calls - {tid}))
  {
    var h' := h.(calls := h.calls - {tid});
    hide Queued, Delivered;
    SameCalls(h, h');
    forall ch | 0 <= ch < |h'.chans|
      ensures Queued(h', h'.chans[ch]) && Delivered(h', ch)
    {
      SameDelivered(h, h', ch);
    }
  }

  lemma EnterCalls(h: Hub, tid: ThreadId)
    requires Valid(h) && tid in h.calls && !Reading(h, tid) && !h.closed
    ensures CallsValid(Step(h, Enter(tid))) && Safe(Step(h, Enter(tid)))
  {
    var h' := Step(h, Enter(tid));
    assert forall x :: Reading(h', x) <==> Reading(h, x) || x == tid;
    assert forall x :: Reading(h, x) ==> h.calls[x].ticket in Flights(h);
  }

  lemma EnterPending(h: Hub, tid: ThreadId, ch: ChanId, t: nat)
    requires tid in h.calls && !Reading(h, tid) && !h.closed && !h.closing
    ensures Pending(Step(h, Enter(tid)), ch, t) <==> Pending(h, ch, t) || (t == |h.log| && ch in h.subs)
  {
    var h' := Step(h, Enter(tid));
    assert Reading(h', tid);
    if Pending(h, ch, t) {
      var x :| Reading(h, x) && h.calls[x].ticket == t && ch in h.calls[x].rest;
      assert Reading(h', x) && h'.calls[x] == h.calls[x];
    }
    if Pending(h', ch, t) {
      var x :| Reading(h', x) && h'.calls[x].ticket == t && ch in h'.calls[x].rest;
      assert x != tid ==> Reading(h, x);
    }
  }

  lemma EnterDelivers(h: Hub, tid: ThreadId, ch: ChanId)
    requires Valid(h) && tid in h.calls && !Reading(h, tid) && !h.closed && ch < |h.chans|
    ensures var h' := Step(h, Enter(tid)); |h'.during| == |h'.log| && Queued(h', h'.chans[ch]) && Delivered(h', ch)
  {
    var h' := Step(h, Enter(tid));
    var c := h.chans[ch];
    assert Queued(h, c) && Delivered(h, ch);
    assert At(h'.log, c.accepted) == At(h.log, c.accepted);
    forall t: nat
      ensures Pending(h', ch, t) <==> Pending(h, ch, t) || (t == |h.log| && ch in h.subs)
    {
      EnterPending(h, tid, ch, t);
    }
    hide Pending, At, Subseq;
  }

  // A send: the channel it tries, and the others.

  lemma AtMore(log: seq<Record>, tickets: seq<nat>, t: nat)
    requires forall k :: 0 <= k < |tickets| ==> tickets[k] < |log|
    requires t < |log|
    ensures At(log, tickets + [t]) == At(log, tickets) + [log[t]]
  {
  }

  lemma SendPending(h: Hub, tid: ThreadId, ch: ChanId, x: ChanId, t: nat)
    requires CallsValid(h) && Safe(h) && Reading(h, tid) && ch in h.calls[tid].rest
    ensures Pending(Step(h, Send(tid, ch)), x, t) <==> Pending(h, x, t) && !(x == ch && t == h.calls[tid].ticket)
  {
    var h' := Step(h, Send(tid, ch));
    assert ch in h.subs;
    if Pending(h', x, t) {
      var y :| Reading(h', y) && h'.calls[y].ticket == t && x in h'.calls[y].rest;
      assert Reading(h, y);
    }
    if Pending(h, x, t) && !(x == ch && t == h.calls[tid].ticket) {
      var y :| Reading(h, y) && h.calls[y].ticket == t && x in h.calls[y].rest;
      assert Reading(h', y) && x in h'.calls[y].rest;
    }
  }

  lemma SendCalls(h: Hub, tid: ThreadId, ch: ChanId)
    requires CallsValid(h) && Safe(h) && Reading(h, tid) && ch in h.calls[tid].rest
    ensures ch < |h.chans| && h.chans[ch].open
    ensures CallsValid(Step(h, Send(tid, ch))) && Safe(Step(h, Send(tid, ch)))
  {
    var h' := Step(h, Send(tid, ch));
    assert ch in h.subs;
    assert forall x :: Reading(h', x) ==> Reading(h, x) && h'.calls[x].ticket == h.calls[x].ticket;
  }

  lemma TryQueues(h: Hub, c: Channel, t: nat)
    requires Queued(h, c) && c.since <= t < Horizon(h, c)
    ensures Queued(h, TrySend(c, h.log[t], t))
  {
    if |c.buffer| < c.capacity {
      AtMore(h.log, c.accepted, t);
      SubseqTake(c.accepted, c.offers, t);
      assert c.received + (c.buffer + [h.log[t]]) == (c.received + c.buffer) + [h.log[t]];
    } else {
      SubseqSkip(c.accepted, c.offers, t);
    }
    hide Subseq, At;
  }

  lemma SendQueues(h: Hub, tid: ThreadId, ch: ChanId)
    requires Valid(h) && Reading(h, tid) && ch in h.calls[tid].rest
    ensures ch < |h.chans|
    ensures var h' := Step(h, Send(tid, ch)); Queued(h', h'.chans[ch])
  {
    SendCalls(h, tid, ch);
    var c, call := h.chans[ch], h.calls[tid];
    assert Queued(h, c) && Delivered(h, ch);
    assert Pending(h, ch, call.ticket);
    assert c.since <= call.ticket < Horizon(h, c) && h.log[call.ticket] == call.record;
    TryQueues(h, c, call.ticket);
    var c' := TrySend(c, call.record, call.ticket);
    assert Queued(h, c') && Step(h, Send(tid, ch)).chans[ch] == c';
    hide Delivered, Pending, CallsValid, Safe, TrySend, Subseq, At;
  }

  /** Every earlier publication that ended before this one began has been tried:
      otherwise it would still be going on. */
  lemma SendOrder(h: Hub, tid: ThreadId, ch: ChanId, t: nat)
    requires Valid(h) && Reading(h, tid) && ch in h.calls[tid].rest && ch < |h.chans|
    requires h.chans[ch].since <= t < h.calls[tid].ticket && t !in h.during[h.calls[tid].ticket]
    ensures t in h.chans[ch].offers
  {
    assert Delivered(h, ch);
    assert ch in h.subs;
    assert forall x :: Reading(h, x) ==> h.calls[x].ticket != t;
  }

  /** What the guarantees of one channel say of the send that is next. */
  lemma SendFits(h: Hub, tid: ThreadId, ch: ChanId)
    requires Valid(h) && Reading(h, tid) && ch in h.calls[tid].rest && ch < |h.chans|
    ensures var c, u := h.chans[ch], h.calls[tid].ticket;
            && c.open && u !in c.offers && c.since <= u < |h.log|
            && (forall k :: 0 <= k < |c.offers| ==> c.offers[k] < |h.log|)
            && (forall t :: c.since <= t < u && t !in h.during[u] ==> t in c.offers)
  {
    var c, u := h.chans[ch], h.calls[tid].ticket;
    assert Queued(h, c) && Delivered(h, ch);
    assert ch in h.subs;
    assert Pending(h, ch, u);
    forall t | c.since <= t < u && t !in h.during[u]
      ensures t in c.offers
    {
      SendOrder(h, tid, ch, t);
    }
    hide Pending, Subseq, At;
  }

  lemma SendDelivers(h: Hub, tid: ThreadId, ch: ChanId)
    requires Valid(h) && Reading(h, tid) && ch in h.calls[tid].rest
    ensures var h' := Step(h, Send(tid, ch));
            ch < |h'.chans| && |h'.during| == |h'.log| && Queued(h', h'.chans[ch]) && Delivered(h', ch)
  {
    hide CallsValid, Safe, Queued, Pending, Subseq, At;
    SendCalls(h, tid, ch);
    SendQueues(h, tid, ch);
    SendFits(h, tid, ch);
    var h' := Step(h, Send(tid, ch));
    forall t: nat
      ensures Pending(h', ch, t) <==> Pending(h, ch, t) && t != h.calls[tid].ticket
    {
      SendPending(h, tid, ch, ch, t);
    }
    var c, c', u := h.chans[ch], h'.chans[ch], h.calls[tid].ticket;
    assert Delivered(h, ch);
    assert c'.offers == c.offers + [u];
    forall k, t | 0 <= k < |c'.offers| && c'.since <= t < c'.offers[k] && t !in h'.during[c'.offers[k]]
      ensures t in c'.offers[..k]
    {
      assert c'.offers[..k] == c.offers[..k];
    }
  }

  lemma SendElsewhere(h: Hub, tid: ThreadId, ch: ChanId, other: ChanId)
    requires Valid(h) && Reading(h, tid) && ch in h.calls[tid].rest && other < |h.chans| && other != ch
    ensures var h' := Step(h, Send(tid, ch));
            other < |h'.chans| && |h'.during| == |h'.log| && Queued(h', h'.chans[other]) && Delivered(h', other)
  {
    SendCalls(h, tid, ch);
    var h' := Step(h, Send(tid, ch));
    forall t: nat
      ensures Pending(h', other, t) <==> Pending(h, other, t)
    {
      SendPending(h, tid, ch, other, t);
    }
    assert Queued(h, h.chans[other]) && Delivered(h, other);
    hide Pending, Subseq;
  }

  lemma SendValid(h: Hub, tid: ThreadId, ch: ChanId)
    requires Valid(h) && Reading(h, tid) && ch in h.calls[tid].rest
    ensures Valid(Step(h, Send(tid, ch)))
  {
    SendCalls(h, tid, ch);
    var h' := Step(h, Send(tid, ch));
    assert |h'.chans| == |h.chans|;
    hide Step, CallsValid, Queued, Delivered, Safe;
    forall x | 0 <= x < |h'.chans|
      ensures |h'.during| == |h'.log| && Queued(h', h'.chans[x]) && Delivered(h', x)
    {
      if x == ch {
        SendDelivers(h, tid, ch);
      } else {
        SendElsewhere(h, tid, ch, x);
      }
    }
  }

  // The subscribers' and the closer's steps.

  lemma SubscribeValid(h: Hub, size: int)
    requires Valid(h) && Lockable(h)
    ensures Valid(Step(h, Subscribe(size)))
  {
    var h' := Step(h, Subscribe(size));
    assert forall x :: !Reading(h, x);
    SamePending(h, h');
    SameCalls(h, h');
    hide CallsValid;
    forall ch | 0 <= ch < |h'.chans|
      ensures Queued(h', h'.chans[ch]) && Delivered(h', ch)
    {
      if ch < |h.chans| {
        SameDelivered(h, h', ch);
      }
    }
  }

  lemma ShutValid(h: Hub, ch: ChanId)
    requires Valid(h) && ch in h.subs && ch < |h.chans|
    requires forall x :: x in h.calls ==> !Reading(h, x)
    requires h.closed ==> h.closing
    ensures Valid(Shut(h, ch))
  {
    var h' := Shut(h, ch);
    SameCalls(h, h');
    hide Queued, Delivered, CallsValid;
    forall x | 0 <= x < |h'.chans|
      ensures Queued(h', h'.chans[x]) && Delivered(h', x)
    {
      SameDelivered(h, h', x);
    }
  }

  lemma SameFlightsAll(h: Hub, h': Hub)
    requires h'.log == h.log && h'.during == h.during && h'.calls == h.calls
    ensures SameFlights(h, h') && forall x :: Reading(h', x) <==> Reading(h, x)
  {
  }

  lemma ClosingValid(h: Hub, a: Action)
    requires Valid(h) && (a.BeginClose? || a.EndClose?)
    ensures Valid(Step(h, a))
  {
    hide CallsValid, Queued, Delivered, Pending, Reading;
    var h' := Step(h, a);
    SameFlightsAll(h, h');
    SameCalls(h, h');
    forall x | 0 <= x < |h'.chans|
      ensures Queued(h', h'.chans[x]) && Delivered(h', x)
    {
      SameDelivered(h, h', x);
    }
  }

  lemma ReceiveValid(h: Hub, ch: ChanId)
    requires Valid(h) && ch < |h.chans| && h.chans[ch].buffer != []
    ensures Valid(Step(h, Receive(ch)))
  {
    var h' := Step(h, Receive(ch));
    var c := h.chans[ch];
    assert c.received + [c.buffer[0]] + c.buffer[1..] == c.received + c.buffer;
    hide Queued, Delivered;
    SameCalls(h, h');
    forall x | 0 <= x < |h'.chans|
      ensures Queued(h', h'.chans[x]) && Delivered(h', x)
    {
      SameDelivered(h, h', x);
    }
  }

  lemma StepValid(h: Hub, a: Action)
    requires Valid(h)
    ensures Valid(Step(h, a))
  {
    hide CallsValid, Queued, Delivered, Pending, Subseq;
    if Step(h, a) != h {
      match a
      case Publish(tid, record) => PublishValid(h, tid, record);
      case Enter(tid) =>
        if h.closed {
          LeaveValid(h, tid);
        } else {
          EnterCalls(h, tid);
          forall ch | 0 <= ch < |h.chans|
            ensures var h' := Step(h, Enter(tid));
                    |h'.during| == |h'.log| && Queued(h', h'.chans[ch]) && Delivered(h', ch)
          {
            EnterDelivers(h, tid, ch);
          }
        }
      case Send(tid, ch) => SendValid(h, tid, ch);
      case Return(tid) => LeaveValid(h, tid);
      case Subscribe(size) => SubscribeValid(h, size);
      case Cancel(ch) => ShutValid(h, ch);
      case CloseOne(ch) => ShutValid(h, ch);
      case Receive(ch) => ReceiveValid(h, ch);
      case _ => ClosingValid(h, a);
    }
  }

  /** Main result on the hub: over all interleavings, no channel is sent to after
      it is closed or closed twice, a channel is open exactly while registered,
      and every subscriber gets what was published while it was, as `Queued` and
      `Delivered` say. */
  lemma {:induction false} RunValid(actions: seq<Action>)
    ensures Valid(Run(NEW_HUB, actions))
  {
    if actions == [] {
      assert forall ch, t :: !Pending(NEW_HUB, ch, t);
    } else {
      RunValid(actions[..|actions| - 1]);
      StepValid(Run(NEW_HUB, actions[..|actions| - 1]), actions[|actions| - 1]);
    }
  }

  // ----- Nothing lost

  lemma Remove(xs: seq<nat>, k: nat)
    requires k < |xs| && forall i, j :: 0 <= i < j < |xs| ==> xs[i] != xs[j]
    ensures var rest := xs[..k] + xs[k + 1..];
            && (forall i, j :: 0 <= i < j < |rest| ==> rest[i] != rest[j])
            && (forall t: nat :: t in rest <==> t in xs && t != xs[k])
  {
    var rest := xs[..k] + xs[k + 1..];
    assert forall i :: 0 <= i < |rest| ==> rest[i] == if i < k then xs[i] else xs[i + 1];
    forall t: nat | t in xs && t != xs[k]
      ensures t in rest
    {
      var i :| 0 <= i < |xs| && xs[i] == t;
      assert rest[if i < k then i else i - 1] == t;
    }
  }

  lemma AtBoth(log: seq<Record>, xs: seq<nat>, ys: seq<nat>)
    requires forall k :: 0 <= k < |xs| ==> xs[k] < |log|
    requires forall k :: 0 <= k < |ys| ==> ys[k] < |log|
    ensures At(log, xs + ys) == At(log, xs) + At(log, ys)
  {
  }

  /** Moving one ticket to the end. */
  lemma Extract(log: seq<Record>, xs: seq<nat>, k: nat)
    requires k < |xs| && forall i :: 0 <= i < |xs| ==> xs[i] < |log|
    ensures multiset(At(log, xs)) == multiset(At(log, xs[..k] + xs[k + 1..])) + multiset{log[xs[k]]}
  {
    var front, t, back := xs[..k], xs[k], xs[k + 1..];
    assert xs == (front + [t]) + back;
    AtBoth(log, front, back);
    AtBoth(log, front + [t], back);
    AtMore(log, front, t);
    hide At;
  }

  lemma {:induction false} Permuted(log: seq<Record>, xs: seq<nat>, lo: nat, hi: nat)
    requires lo <= hi <= |log|
    requires forall k :: 0 <= k < |xs| ==> xs[k] < |log|
    requires forall k, k' :: 0 <= k < k' < |xs| ==> xs[k] != xs[k']
    requires forall t: nat :: t in xs <==> lo <= t < hi
    ensures multiset(At(log, xs)) == multiset(log[lo..hi])
    decreases hi
  {
    hide At;
    if lo < hi {
      assert hi - 1 in xs;
      var k :| 0 <= k < |xs| && xs[k] == hi - 1;
      Remove(xs, k);
      Permuted(log, xs[..k] + xs[k + 1..], lo, hi - 1);
      Extract(log, xs, k);
      assert log[lo..hi] == log[lo..hi - 1] + [log[hi - 1]];
    } else {
      assert forall t: nat :: t !in xs;
      NoTickets(log, xs);
    }
  }

  lemma NoTickets(log: seq<Record>, xs: seq<nat>)
    requires forall k :: 0 <= k < |xs| ==> xs[k] < |log|
    requires forall t: nat :: t !in xs
    ensures At(log, xs) == []
  {
    HeadIn(xs);
  }

  lemma HeadIn(xs: seq<nat>)
    ensures xs == [] || xs[0] in xs
  {
  }

  /** A subscriber whose buffer was never full has, once nobody is sending, every
      record published while it was registered exactly as often as published. */
  lemma Complete(actions: seq<Action>, ch: ChanId)
    requires var h := Run(NEW_HUB, actions);
             ch < |h.chans| && !h.chans[ch].dropped && forall tid :: !Reading(h, tid)
    ensures var h := Run(NEW_HUB, actions);
            var c := h.chans[ch];
            c.since <= Horizon(h, c) <= |h.log| &&
            multiset(c.received + c.buffer) == multiset(h.log[c.since..Horizon(h, c)])
  {
    RunValid(actions);
    var h := Run(NEW_HUB, actions);
    var c := h.chans[ch];
    hide Run;
    assert Queued(h, c) && Delivered(h, ch);
    assert forall t :: !Pending(h, ch, t);
    Permuted(h.log, c.offers, c.since, Horizon(h, c));
  }

  lemma RunMore(h: Hub, actions: seq<Action>, a: Action)
    ensures Run(h, actions + [a]) == Step(Run(h, actions), a)
  {
    assert (actions + [a])[..|actions|] == actions;
  }

  lemma {:induction false} RunBoth(h: Hub, actions: seq<Action>, more: seq<Action>)
    ensures Run(h, actions + more) == Run(Run(h, actions), more)
  {
    hide Step;
    if more == [] {
      assert actions + more == actions;
    } else {
      var front, last := more[..|more| - 1], more[|more| - 1];
      RunBoth(h, actions, front);
      assert actions + more == (actions + front) + [last];
      RunMore(h, actions + front, last);
    }
  }

  lemma RunTwo(h: Hub, actions: seq<Action>, a: Action, b: Action)
    ensures Run(h, actions + [a, b]) == Step(Step(Run(h, actions), a), b)
  {
    hide *;
    RunMore(h, actions, a);
    RunMore(h, actions + [a], b);
    assert actions + [a] + [b] == actions + [a, b];
  }

  // ----- No order between publications that overlap

  lemma SendOffers(h: Hub, tid: ThreadId, other: ThreadId, ch: ChanId)
    requires Valid(h) && Reading(h, tid) && Reading(h, other) && tid != other
    requires ch in h.calls[tid].rest && ch in h.calls[other].rest
    ensures var h' := Step(h, Send(tid, ch));
            && Valid(h') && Reading(h', other) && h'.calls[other] == h.calls[other]
            && ch < |h.chans| && ch < |h'.chans| && h'.chans[ch].offers == h.chans[ch].offers + [h.calls[tid].ticket]
  {
    SendCalls(h, tid, ch);
    SendValid(h, tid, ch);
    hide Valid;
  }

  /** Where two publications both have a channel still to try, either may be first:
      only a publication that has ended is sure to come before. */
  lemma EitherOrder(h: Hub, tid: ThreadId, other: ThreadId, ch: ChanId)
    requires Valid(h) && Reading(h, tid) && Reading(h, other) && tid != other
    requires ch in h.calls[tid].rest && ch in h.calls[other].rest
    ensures var one := Step(Step(h, Send(tid, ch)), Send(other, ch));
            var two := Step(Step(h, Send(other, ch)), Send(tid, ch));
            var t, u := h.calls[tid].ticket, h.calls[other].ticket;
            && Valid(one) && Valid(two) && t != u
            && ch < |h.chans| && ch < |one.chans| && ch < |two.chans|
            && one.chans[ch].offers == h.chans[ch].offers + [t] + [u]
            && two.chans[ch].offers == h.chans[ch].offers + [u] + [t]
  {
    SendOffers(h, tid, other, ch);
    SendOffers(h, other, tid, ch);
    SecondSend(Step(h, Send(tid, ch)), other, ch);
    SecondSend(Step(h, Send(other, ch)), tid, ch);
    hide Step, Queued, Delivered, Safe;
  }

  lemma SecondSend(h: Hub, tid: ThreadId, ch: ChanId)
    requires Valid(h) && Reading(h, tid) && ch in h.calls[tid].rest
    ensures Valid(Step(h, Send(tid, ch))) && ch < |h.chans| && ch < |Step(h, Send(tid, ch)).chans|
    ensures Step(h, Send(tid, ch)).chans[ch].offers == h.chans[ch].offers + [h.calls[tid].ticket]
  {
    SendCalls(h, tid, ch);
    SendValid(h, tid, ch);
    hide Valid;
  }

  /** Two subscribers, and two publications that have both begun. */
  function Racing(r: Record, r': Record, rest: set<ChanId>, rest': set<ChanId>, c: Channel, c': Channel): Hub {
    Hub(false, false, {0, 1}, [c, c'], map[0 := Sending(r, 0, rest), 1 := Sending(r', 1, rest')],
        [r, r'], [{}, {0}], false)
  }

  function Roomy(buffer: seq<Record>, tickets: seq<nat>): Channel {
    Channel(2, true, buffer, [], 0, 0, tickets, tickets, false)
  }

  lemma RaceEnters(r: Record, r': Record)
    ensures var c := Roomy([], []);
            var h := Hub(false, false, {0, 1}, [c, c], map[0 := Waiting(r), 1 := Waiting(r')], [], [], false);
            Step(Step(h, Enter(0)), Enter(1)) == Racing(r, r', {0, 1}, {0, 1}, c, c)
  {
    var c := Roomy([], []);
    var h := Hub(false, false, {0, 1}, [c, c], map[0 := Waiting(r), 1 := Waiting(r')], [], [], false);
    assert !Reading(h, 0) && !Reading(h, 1);
    assert Flights(h) == {};
    var h' := h.(calls := map[0 := Sending(r, 0, {0, 1}), 1 := Waiting(r')], log := [r], during := [{}]);
    assert h'.calls == h.calls[0 := Sending(r, 0, {0, 1})];
    assert Step(h, Enter(0)) == h';
    assert Reading(h', 0) && !Reading(h', 1);
    assert Flights(h') == {0};
  }

  lemma RaceBegins(r: Record, r': Record)
    ensures exists actions :: Run(NEW_HUB, actions) == Racing(r, r', {0, 1}, {0, 1}, Roomy([], []), Roomy([], []))
  {
    RunTwo(NEW_HUB, [], Subscribe(2), Subscribe(2));
    var h2 := Step(Step(NEW_HUB, Subscribe(2)), Subscribe(2));
    assert h2 == Hub(false, false, {0, 1}, [Roomy([], []), Roomy([], [])], map[], [], [], false);
    var a2 := [] + [Subscribe(2), Subscribe(2)];
    RunTwo(NEW_HUB, a2, Publish(0, r), Publish(1, r'));
    assert Step(Step(h2, Publish(0, r)), Publish(1, r')) == h2.(calls := map[0 := Waiting(r), 1 := Waiting(r')]);
    var a4 := a2 + [Publish(0, r), Publish(1, r')];
    RunTwo(NEW_HUB, a4, Enter(0), Enter(1));
    RaceEnters(r, r');
    hide Step, Run, Racing;
    assert Run(NEW_HUB, a4 + [Enter(0), Enter(1)]) == Racing(r, r', {0, 1}, {0, 1}, Roomy([], []), Roomy([], []));
  }

  lemma RaceSends(r: Record, r': Record, rest: set<ChanId>, rest': set<ChanId>, c: Channel, c': Channel)
    requires c.open && c'.open
    ensures var h := Racing(r, r', rest, rest', c, c');
            && (0 in rest ==> Step(h, Send(0, 0)) == Racing(r, r', rest - {0}, rest', TrySend(c, r, 0), c'))
            && (1 in rest ==> Step(h, Send(0, 1)) == Racing(r, r', rest - {1}, rest', c, TrySend(c', r, 0)))
            && (0 in rest' ==> Step(h, Send(1, 0)) == Racing(r, r', rest, rest' - {0}, TrySend(c, r', 1), c'))
            && (1 in rest' ==> Step(h, Send(1, 1)) == Racing(r, r', rest, rest' - {1}, c, TrySend(c', r', 1)))
  {
    var h := Racing(r, r', rest, rest', c, c');
    assert Reading(h, 0) && Reading(h, 1);
    hide TrySend;
  }

  /** Publications that do overlap may reach two subscribers in opposite orders. */
  lemma OrdersDiffer(r: Record, r': Record)
    ensures exists actions :: var h := Run(NEW_HUB, actions);
              |h.chans| == 2 && h.chans[0].buffer == [r, r'] && h.chans[1].buffer == [r', r]
  {
    hide Run, Step;
    RaceBegins(r, r');
    var c := Roomy([], []);
    var a6 :| Run(NEW_HUB, a6) == Racing(r, r', {0, 1}, {0, 1}, c, c);
    RunTwo(NEW_HUB, a6, Send(0, 0), Send(1, 0));
    RunTwo(NEW_HUB, a6 + [Send(0, 0), Send(1, 0)], Send(1, 1), Send(0, 1));
    RaceSends(r, r', {0, 1}, {0, 1}, c, c);
    RaceSends(r, r', {0, 1} - {0}, {0, 1}, TrySend(c, r, 0), c);
    var c0 := TrySend(TrySend(c, r, 0), r', 1);
    RaceSends(r, r', {0, 1} - {0}, {0, 1} - {0}, c0, c);
    RaceSends(r, r', {0, 1} - {0}, {0, 1} - {0} - {1}, c0, TrySend(c, r', 1));
    var h := Run(NEW_HUB, a6 + [Send(0, 0), Send(1, 0)] + [Send(1, 1), Send(0, 1)]);
    assert h.chans == [c0, TrySend(TrySend(c, r', 1), r, 0)];
  }
}
