/** The hub in place: its set of channels, and the loops over it under the lock.
    Every method is a sequence of the protocol's steps. */
module HubModel {
  import opened Records
  import opened HubSpec

  /** A buffered channel. Sending on a closed one, or closing it again, panics. */
  class Chan {
    const capacity: nat
    var buffer: seq<Record>
    var open: bool

    constructor (capacity: nat, open: bool)
      ensures this.capacity == capacity && this.open == open && buffer == []
    {
      this.capacity, this.open, buffer := capacity, open, [];
    }

    /** A send that gives up when the buffer is full. */
    method TrySend(record: Record)
      requires open
      modifies this`buffer
      ensures buffer == if |old(buffer)| < capacity then old(buffer) + [record] else old(buffer)
    {
      if |buffer| < capacity {
        buffer := buffer + [record];
      }
    }

    method Close()
      requires open
      modifies this`open
      ensures !open
    {
      open := false;
    }
  }

  lemma Free(h: Hub)
    requires HubSpec.Valid(h) && h.calls == map[] && !h.closing
    ensures Lockable(h) && |h.chans| !in h.subs
    ensures forall i :: 0 <= i < |h.chans| ==> (h.chans[i].open <==> i in h.subs)
  {
  }

  lemma CancelStep(h: Hub, i: ChanId)
    requires HubSpec.Valid(h) && h.calls == map[] && !h.closing && i < |h.chans|
    ensures HubSpec.Valid(HubSpec.Step(h, HubSpec.Cancel(i)))
    ensures HubSpec.Step(h, HubSpec.Cancel(i)) == if i in h.subs then Shut(h, i) else h
    ensures i in h.subs ==> h.chans[i].open
  {
    StepValid(h, HubSpec.Cancel(i));
    Free(h);
  }

  lemma NoSubs(h: Hub)
    requires HubSpec.Valid(h) && h.closed && !h.closing
    ensures h.subs == {}
  {
  }

  lemma InRange(h: Hub)
    requires HubSpec.Valid(h)
    ensures forall i :: i in h.subs ==> i < |h.chans|
    ensures forall i :: 0 <= i < |h.chans| ==> (h.chans[i].open <==> i in h.subs)
  {
  }

  lemma BeginStep(h: Hub, record: Record)
    requires HubSpec.Valid(h) && h.calls == map[] && !h.closing && !h.closed
    ensures var h' := HubSpec.Step(HubSpec.Step(h, HubSpec.Publish(0, record)), Enter(0));
            && HubSpec.Valid(h')
            && h' == h.(calls := map[0 := Sending(record, |h.log|, h.subs)], log := h.log + [record],
                        during := h.during + [{}])
  {
    var h1 := HubSpec.Step(h, HubSpec.Publish(0, record));
    StepValid(h, HubSpec.Publish(0, record));
    StepValid(h1, Enter(0));
    hide HubSpec.Valid;
    assert !Reading(h1, 0);
    assert Flights(h1) == {};
    assert h1.calls[0 := Sending(record, |h.log|, h.subs)] == map[0 := Sending(record, |h.log|, h.subs)];
  }

  lemma SendStep(h: Hub, record: Record, ticket: nat, rest: set<ChanId>, i: ChanId)
    requires HubSpec.Valid(h) && h.calls == map[0 := Sending(record, ticket, rest)] && i in rest
    ensures i < |h.chans| && h.chans[i].open
    ensures var h' := HubSpec.Step(h, Send(0, i));
            && HubSpec.Valid(h')
            && h' == h.(calls := map[0 := Sending(record, ticket, rest - {i})],
                        chans := h.chans[i := HubSpec.TrySend(h.chans[i], record, ticket)])
  {
    assert Reading(h, 0);
    SendCalls(h, 0, i);
    StepValid(h, Send(0, i));
    hide HubSpec.Valid, HubSpec.TrySend;
    assert h.calls[0 := Sending(record, ticket, rest - {i})] == map[0 := Sending(record, ticket, rest - {i})];
  }

  lemma ReturnStep(h: Hub, record: Record, ticket: nat)
    requires HubSpec.Valid(h) && h.calls == map[0 := Sending(record, ticket, {})]
    ensures var h' := HubSpec.Step(h, Return(0)); HubSpec.Valid(h') && h' == h.(calls := map[])
  {
    assert Reading(h, 0);
    StepValid(h, Return(0));
    hide HubSpec.Valid;
    assert h.calls - {0} == map[];
  }

  lemma ClosingStep(h: Hub)
    requires HubSpec.Valid(h) && h.calls == map[] && !h.closing && !h.closed
    ensures HubSpec.Valid(HubSpec.Step(h, BeginClose))
    ensures HubSpec.Step(h, BeginClose) == h.(closed := true, closing := true)
  {
    StepValid(h, BeginClose);
    Free(h);
  }

  lemma CloseOneStep(h: Hub, i: ChanId)
    requires HubSpec.Valid(h) && h.closing && i in h.subs
    ensures i < |h.chans| && h.chans[i].open
    ensures HubSpec.Step(h, CloseOne(i)) == Shut(h, i) && HubSpec.Valid(Shut(h, i))
  {
    StepValid(h, CloseOne(i));
  }

  lemma ShutLog(h: Hub, i: ChanId)
    requires i < |h.chans|
    ensures Shut(h, i).log == h.log && Shut(h, i).closed == h.closed
  {
  }

  lemma EndCloseStep(h: Hub)
    requires HubSpec.Valid(h) && h.closing && h.subs == {}
    ensures HubSpec.Step(h, EndClose) == h.(closing := false) && HubSpec.Valid(h.(closing := false))
  {
    StepValid(h, EndClose);
  }

  /** Some sequence of the protocol's own steps leads there; nobody else publishes. */
  ghost predicate Reaches(h: Hub, h': Hub) {
    exists steps :: Quiet(steps) && HubSpec.Run(h, steps) == h'
  }

  ghost predicate Quiet(steps: seq<Action>) {
    forall k :: 0 <= k < |steps| ==> !steps[k].Publish?
  }

  lemma ReachesSame(h: Hub)
    ensures Reaches(h, h)
  {
    assert Quiet([]) && HubSpec.Run(h, []) == h;
  }

  lemma ReachesStep(h: Hub, h': Hub, a: Action)
    requires Reaches(h, h') && !a.Publish?
    ensures Reaches(h, HubSpec.Step(h', a))
  {
    hide HubSpec.Step, HubSpec.Run;
    var steps :| Quiet(steps) && HubSpec.Run(h, steps) == h';
    RunMore(h, steps, a);
    assert Quiet(steps + [a]);
  }

  lemma ReachesTransitive(h: Hub, between: Hub, h': Hub)
    requires Reaches(h, between) && Reaches(between, h')
    ensures Reaches(h, h')
  {
    hide HubSpec.Step, HubSpec.Run;
    var steps :| Quiet(steps) && HubSpec.Run(h, steps) == between;
    var more :| Quiet(more) && HubSpec.Run(between, more) == h';
    RunBoth(h, steps, more);
    assert Quiet(steps + more);
  }

  /** On a closed hub a publication is over as soon as it begins. */
  lemma NoPublication(h: Hub, record: Record)
    requires h.calls == map[] && h.closed && !h.closing
    ensures HubSpec.Step(HubSpec.Step(h, HubSpec.Publish(0, record)), Enter(0)) == h
  {
    var h' := HubSpec.Step(h, HubSpec.Publish(0, record));
    assert !Reading(h', 0) && h'.calls - {0} == map[];
  }

  class HubObject {
    var subs: set<Chan>
    var closed: bool
    /** Every channel ever made, by its id in the protocol, and the protocol's state. */
    ghost var chans: seq<Chan>
    ghost var spec: Hub

    /** The object and its channels are the protocol's state. */
    ghost predicate Tied()
      reads this, chans
    {
      && closed == spec.closed
      && |chans| == |spec.chans|
      && (forall i, j :: 0 <= i < j < |chans| ==> chans[i] != chans[j])
      && (forall i :: 0 <= i < |chans| ==>
            && chans[i].buffer == spec.chans[i].buffer
            && chans[i].open == spec.chans[i].open
            && chans[i].capacity == spec.chans[i].capacity)
      && (forall i :: 0 <= i < |chans| ==> (chans[i] in subs <==> i in spec.subs))
      && (forall ch :: ch in subs ==> ch in chans)
      && HubSpec.Valid(spec)
    }

    lemma Idle()
      requires Valid()
      ensures spec.calls == map[]
    {
    }

    /** Nobody is inside the hub. */
    ghost predicate Valid()
      reads this, chans
    {
      Tied() && spec.calls == map[] && !spec.closing
    }

    constructor ()
      ensures Valid() && subs == {} && !closed && chans == [] && spec == NEW_HUB
    {
      subs, closed, chans, spec := {}, false, [], NEW_HUB;
      RunValid([]);
    }

    /** A new channel, registered unless the hub is closed; then it is closed too. */
    method Subscribe(size: int) returns (ch: Chan)
      requires Valid()
      modifies this`subs, this`chans, this`spec
      ensures Valid() && fresh(ch) && chans == old(chans) + [ch]
      ensures ch.capacity == (if size <= 0 then 256 else size) && ch.buffer == [] && ch.open == !closed
      ensures subs == if closed then old(subs) else old(subs) + {ch}
      ensures spec == HubSpec.Step(old(spec), HubSpec.Subscribe(size))
    {
      hide HubSpec.Valid, Lockable;
      StepValid(spec, HubSpec.Subscribe(size));
      Free(spec);
      var capacity := if size <= 0 then DEFAULT_BUFFER else size;
      ch := new Chan(capacity, !closed);
      spec := HubSpec.Step(spec, HubSpec.Subscribe(size));
      chans := chans + [ch];
      if !closed {
        subs := subs + {ch};
      }
    }

    /** Closing a registered channel and forgetting it. */
    method Drop(ch: Chan, ghost i: nat)
      requires Tied() && i < |chans| && chans[i] == ch && ch in subs
      requires HubSpec.Valid(Shut(spec, i))
      modifies this`subs, this`spec, ch`open
      ensures Tied() && !ch.open && subs == old(subs) - {ch} && spec == Shut(old(spec), i)
      ensures spec.calls == old(spec.calls) && spec.closing == old(spec.closing)
    {
      hide HubSpec.Valid;
      InRange(spec);
      subs := subs - {ch};
      ch.Close();
      spec := Shut(spec, i);
    }

    /** The cancel function of a subscription; calling it again does nothing. */
    method Cancel(ch: Chan)
      requires Valid() && ch in chans
      modifies this`subs, this`spec, ch`open
      ensures Valid() && ch !in subs && subs == old(subs) - {ch}
      ensures ch.open == (old(ch.open) && ch !in old(subs))
      ensures exists i: nat :: i < |chans| && chans[i] == ch && spec == HubSpec.Step(old(spec), HubSpec.Cancel(i))
    {
      hide HubSpec.Valid, HubSpec.Step, Shut;
      ghost var i: nat :| i < |chans| && chans[i] == ch;
      CancelStep(spec, i);
      Free(spec);
      if ch in subs {
        Drop(ch, i);
      }
    }

    /** The ids of some channels. */
    ghost function Indices(some: set<Chan>): set<ChanId>
      reads this
    {
      set i | 0 <= i < |chans| && chans[i] in some
    }

    ghost predicate Sends(record: Record, ticket: nat, rest: set<Chan>)
      reads this
    {
      spec.calls == map[0 := Sending(record, ticket, Indices(rest))] && !spec.closing && rest <= subs
    }

    /** One turn of the loop of Publish. */
    method SendOne(ch: Chan, record: Record, ghost ticket: nat, ghost rest: set<Chan>)
      requires Tied() && Sends(record, ticket, rest) && ch in rest
      modifies this`spec, ch`buffer
      ensures Tied() && Sends(record, ticket, rest - {ch})
      ensures ch.buffer == if |old(ch.buffer)| < ch.capacity then old(ch.buffer) + [record] else old(ch.buffer)
      ensures spec.log == old(spec.log) && Reaches(old(spec), spec)
    {
      hide HubSpec.Valid, HubSpec.Step, Reaches;
      ghost var i: nat :| i < |chans| && chans[i] == ch;
      assert i in Indices(rest);
      ReachesSame(spec);
      ReachesStep(spec, spec, Send(0, i));
      SendStep(spec, record, ticket, Indices(rest), i);
      assert Indices(rest - {ch}) == Indices(rest) - {i};
      ch.TrySend(record);
      spec := HubSpec.Step(spec, Send(0, i));
    }

    /** Every registered channel with room has the record at its end; the others,
        and a closed hub, have nothing new. */
    twostate predicate Published(record: Record)
      reads this, chans
    {
      && unchanged(`subs) && unchanged(`closed) && unchanged(`chans)
      && Reaches(HubSpec.Step(old(spec), HubSpec.Publish(0, record)), spec)
      && spec.log == (if closed then old(spec.log) else old(spec.log) + [record])
      && (forall ch :: ch in chans ==> ch.open == old(ch.open))
      && (forall ch :: ch in chans ==>
            ch.buffer == if ch in subs && |old(ch.buffer)| < ch.capacity then old(ch.buffer) + [record]
                         else old(ch.buffer))
    }

    /** The loop of Publish. */
    method SendAll(record: Record, ghost ticket: nat)
      requires Tied() && Sends(record, ticket, subs)
      modifies this`spec, chans
      ensures Tied() && Sends(record, ticket, {}) && spec.log == old(spec.log) && Reaches(old(spec), spec)
      ensures forall ch :: ch in chans ==> ch.open == old(ch.open)
      ensures forall ch :: ch in chans ==>
                ch.buffer == if ch in subs && |old(ch.buffer)| < ch.capacity then old(ch.buffer) + [record]
                             else old(ch.buffer)
    {
      hide HubSpec.Valid, HubSpec.Step, Reaches;
      ghost var start := spec;
      ReachesSame(start);
      var rest := subs;
      while rest != {}
        invariant Tied() && Sends(record, ticket, rest) && spec.log == old(spec.log) && Reaches(start, spec)
        invariant forall ch :: ch in chans ==> ch.open == old(ch.open)
        invariant forall ch :: ch in chans && (ch !in subs || ch in rest) ==> ch.buffer == old(ch.buffer)
        invariant forall ch :: ch in subs && ch !in rest ==>
                    ch.buffer == if |old(ch.buffer)| < ch.capacity then old(ch.buffer) + [record] else old(ch.buffer)
      {
        var ch :| ch in rest;
        assert ch in chans;
        ghost var between := spec;
        SendOne(ch, record, ticket, rest);
        ReachesTransitive(start, between, spec);
        rest := rest - {ch};
      }
    }

    /** Publishes under the read lock, without waiting for a slow subscriber: the
        protocol's publication, and then its steps. */
    method Publish(record: Record)
      requires Valid()
      modifies this`spec, chans
      ensures Valid() && Published(record)
    {
      hide HubSpec.Valid, HubSpec.Step, Reaches;
      ghost var begun := HubSpec.Step(spec, HubSpec.Publish(0, record));
      ReachesSame(begun);
      ReachesStep(begun, begun, Enter(0));
      if closed {
        NoSubs(spec);
        NoPublication(spec, record);
      } else {
        BeginStep(spec, record);
        InRange(spec);
        ghost var ticket := |spec.log|;
        spec := HubSpec.Step(begun, Enter(0));
        assert Indices(subs) == spec.subs;
        ghost var entered := spec;
        SendAll(record, ticket);
        ReachesTransitive(begun, entered, spec);
        assert Indices({}) == {};
        ReturnStep(spec, record, ticket);
        ReachesStep(begun, spec, Return(0));
        spec := HubSpec.Step(spec, Return(0));
      }
    }

    /** One turn of the loop of Close. */
    method CloseNext()
      requires Tied() && spec.calls == map[] && spec.closing && subs != {}
      modifies this`subs, this`spec, chans
      ensures Tied() && spec.calls == map[] && spec.closing && spec.log == old(spec.log)
      ensures subs < old(subs) && Reaches(old(spec), spec)
      ensures forall ch :: ch in chans ==> ch.buffer == old(ch.buffer)
    {
      hide HubSpec.Valid, HubSpec.Step, Shut, Reaches;
      var ch :| ch in subs;
      ghost var i: nat :| i < |chans| && chans[i] == ch;
      CloseOneStep(spec, i);
      ShutLog(spec, i);
      ReachesSame(spec);
      ReachesStep(spec, spec, CloseOne(i));
      Drop(ch, i);
    }

    /** The loop of Close. */
    method CloseAll()
      requires Tied() && spec.calls == map[] && spec.closing
      modifies this`subs, this`spec, chans
      ensures Tied() && spec.calls == map[] && spec.closing && subs == {} && spec.log == old(spec.log)
      ensures Reaches(old(spec), spec)
      ensures forall ch :: ch in chans ==> ch.buffer == old(ch.buffer)
    {
      hide Tied, Reaches;
      ReachesSame(spec);
      while subs != {}
        invariant Tied() && spec.calls == map[] && spec.closing && spec.log == old(spec.log) && Reaches(old(spec), spec)
        invariant forall ch :: ch in chans ==> ch.buffer == old(ch.buffer)
        decreases subs
      {
        ghost var between := spec;
        CloseNext();
        ReachesTransitive(old(spec), between, spec);
      }
    }

    /** Every registered channel is closed, once; so is the hub, for good. */
    method Close()
      requires Valid()
      modifies this`closed, this`subs, this`spec, chans
      ensures Valid() && closed && subs == {}
      ensures forall ch :: ch in chans ==> ch.buffer == old(ch.buffer) && !ch.open
      ensures spec.log == old(spec.log) && Reaches(old(spec), spec)
    {
      hide HubSpec.Valid, HubSpec.Step, Reaches;
      ghost var start := spec;
      ReachesSame(start);
      if !closed {
        ClosingStep(spec);
        ReachesStep(start, spec, BeginClose);
        closed, spec := true, HubSpec.Step(spec, BeginClose);
        ghost var begun := spec;
        CloseAll();
        ReachesTransitive(start, begun, spec);
        InRange(spec);
        assert forall i :: 0 <= i < |chans| ==> chans[i] !in subs;
        EndCloseStep(spec);
        ReachesStep(start, spec, EndClose);
        spec := HubSpec.Step(spec, EndClose);
      }
      NoSubs(spec);
      InRange(spec);
    }

    /** A subscriber takes the oldest record of its channel, if there is one. */
    method Receive(ch: Chan) returns (record: Option<Record>)
      requires Valid() && ch in chans
      modifies this`spec, ch`buffer
      ensures Valid() && spec.log == old(spec.log) && Reaches(old(spec), spec)
      ensures record == if old(ch.buffer) == [] then None else Some(old(ch.buffer)[0])
      ensures ch.buffer == if old(ch.buffer) == [] then [] else old(ch.buffer)[1..]
    {
      hide HubSpec.Valid, Reaches;
      ghost var i: nat :| i < |chans| && chans[i] == ch;
      ReachesSame(spec);
      record := None;
      if ch.buffer != [] {
        ReachesStep(spec, spec, HubSpec.Receive(i));
        StepValid(spec, HubSpec.Receive(i));
        record, ch.buffer := Some(ch.buffer[0]), ch.buffer[1..];
        spec := HubSpec.Step(spec, HubSpec.Receive(i));
      }
    }
  }
}
