/** What one subscriber sees of one span: the span's own records, in the order
    they were published, when its publications do not overlap. */
module Streams {
  import opened Records
  import opened Subsequence
  import opened Confluence
  import opened HubSpec

  /** The tickets of a span's records. */
  function Own(tickets: seq<nat>, log: seq<Record>, id: string): seq<nat>
    requires forall k :: 0 <= k < |tickets| ==> tickets[k] < |log|
  {
    if tickets == [] then []
    else
      var t := tickets[|tickets| - 1];
      Own(tickets[..|tickets| - 1], log, id) + if log[t].SpanID() == id then [t] else []
  }

  ghost predicate Rising(xs: seq<nat>) {
    forall i, j :: 0 <= i < j < |xs| ==> xs[i] < xs[j]
  }

  lemma {:induction false} OwnMembers(tickets: seq<nat>, log: seq<Record>, id: string)
    requires forall k :: 0 <= k < |tickets| ==> tickets[k] < |log|
    ensures forall t :: t in Own(tickets, log, id) <==> t in tickets && log[t].SpanID() == id
    ensures forall k :: 0 <= k < |Own(tickets, log, id)| ==> Own(tickets, log, id)[k] in tickets
  {
    if tickets != [] {
      OwnMembers(tickets[..|tickets| - 1], log, id);
      assert tickets == tickets[..|tickets| - 1] + [tickets[|tickets| - 1]];
    }
  }

  /** The last ticket decided. */
  lemma OwnLast(tickets: seq<nat>, log: seq<Record>, id: string)
    requires tickets != [] && forall k :: 0 <= k < |tickets| ==> tickets[k] < |log|
    ensures var front, t := tickets[..|tickets| - 1], tickets[|tickets| - 1];
            && At(log, tickets) == At(log, front) + [log[t]]
            && Own(tickets, log, id) == if log[t].SpanID() == id then Own(front, log, id) + [t] else Own(front, log, id)
  {
    assert tickets == tickets[..|tickets| - 1] + [tickets[|tickets| - 1]];
  }

  lemma ProjectMore(log: seq<Record>, r: Record, id: string)
    ensures Project(log + [r], id) == if r.SpanID() == id then Project(log, id) + [r] else Project(log, id)
  {
    ProjectLast(log + [r], id);
    assert (log + [r])[..|log|] == log;
  }

  lemma {:induction false} OwnProject(tickets: seq<nat>, log: seq<Record>, id: string)
    requires forall k :: 0 <= k < |tickets| ==> tickets[k] < |log|
    ensures forall k :: 0 <= k < |Own(tickets, log, id)| ==> Own(tickets, log, id)[k] < |log|
    ensures Project(At(log, tickets), id) == At(log, Own(tickets, log, id))
  {
    OwnMembers(tickets, log, id);
    if tickets == [] {
      assert At(log, tickets) == [];
    } else {
      var front, t := tickets[..|tickets| - 1], tickets[|tickets| - 1];
      OwnProject(front, log, id);
      OwnLast(tickets, log, id);
      ProjectMore(At(log, front), log[t], id);
      if log[t].SpanID() == id {
        AtMore(log, Own(front, log, id), t);
      }
      hide Own, At, Project;
    }
  }

  ghost predicate Selects(log: seq<Record>, xs: seq<nat>, id: string, lo: nat, hi: nat)
    requires lo <= hi <= |log|
  {
    Rising(xs) && forall k :: 0 <= k < |xs| ==> lo <= xs[k] < hi && log[xs[k]].SpanID() == id
  }

  ghost predicate SelectsAll(log: seq<Record>, xs: seq<nat>, id: string, lo: nat, hi: nat)
    requires lo <= hi <= |log|
  {
    forall t :: lo <= t < hi && log[t].SpanID() == id ==> t in xs
  }

  lemma SelectLast(log: seq<Record>, xs: seq<nat>, id: string, lo: nat, hi: nat)
    requires lo < hi <= |log| && Selects(log, xs, id, lo, hi)
    ensures forall k :: 0 <= k < |xs| ==> xs[k] < |log|
    ensures var last := xs != [] && xs[|xs| - 1] == hi - 1;
            var rest := if last then xs[..|xs| - 1] else xs;
            && (last ==> log[hi - 1].SpanID() == id)
            && Selects(log, rest, id, lo, hi - 1)
            && (SelectsAll(log, xs, id, lo, hi) ==>
                  SelectsAll(log, rest, id, lo, hi - 1) && (last <==> log[hi - 1].SpanID() == id))
  {
    if xs != [] && xs[|xs| - 1] == hi - 1 {
      var rest := xs[..|xs| - 1];
      assert xs == rest + [hi - 1];
    } else if xs != [] {
      assert forall k :: 0 <= k < |xs| ==> xs[k] <= xs[|xs| - 1];
      assert hi - 1 !in xs;
    }
  }

  lemma SelectsRoom(log: seq<Record>, xs: seq<nat>, id: string, lo: nat, hi: nat)
    requires lo <= hi <= |log| && Selects(log, xs, id, lo, hi)
    ensures lo < hi || xs == []
  {
    assert xs != [] ==> lo <= xs[0] < hi;
  }

  lemma SelectsNone(log: seq<Record>, xs: seq<nat>, id: string, lo: nat)
    requires lo <= |log| && Selects(log, xs, id, lo, lo)
    ensures xs == [] && At(log, xs) == Project(log[lo..lo], id) && Subseq(At(log, xs), Project(log[lo..lo], id))
  {
    hide Selects;
    SelectsRoom(log, xs, id, lo, lo);
  }

  /** Rising tickets of a span select a subsequence of its records, and all of
      them if none is left out. */
  lemma {:induction false} RisingSubseq(log: seq<Record>, xs: seq<nat>, id: string, lo: nat, hi: nat)
    requires lo <= hi <= |log| && Selects(log, xs, id, lo, hi)
    ensures forall k :: 0 <= k < |xs| ==> xs[k] < |log|
    ensures Subseq(At(log, xs), Project(log[lo..hi], id))
    ensures SelectsAll(log, xs, id, lo, hi) ==> At(log, xs) == Project(log[lo..hi], id)
    decreases hi
  {
    hide *;
    if lo == hi {
      SelectsNone(log, xs, id, lo);
    } else {
      var window, r := log[lo..hi - 1], log[hi - 1];
      assert log[lo..hi] == window + [r];
      ProjectMore(window, r, id);
      SelectLast(log, xs, id, lo, hi);
      if xs != [] && xs[|xs| - 1] == hi - 1 {
        var rest := xs[..|xs| - 1];
        RisingSubseq(log, rest, id, lo, hi - 1);
        AtMore(log, rest, hi - 1);
        assert rest + [hi - 1] == xs;
        SubseqTake(At(log, rest), Project(window, id), r);
      } else {
        RisingSubseq(log, xs, id, lo, hi - 1);
        SubseqSkip(At(log, xs), Project(window, id), r);
      }
    }
  }

  lemma {:induction false} SubseqProject(xs: seq<Record>, ys: seq<Record>, id: string)
    requires Subseq(xs, ys)
    ensures Subseq(Project(xs, id), Project(ys, id))
    decreases |ys|
  {
    if xs != [] {
      var xs', ys' := xs[..|xs| - 1], ys[..|ys| - 1];
      ProjectLast(ys, id);
      ProjectLast(xs, id);
      if xs[|xs| - 1] == ys[|ys| - 1] && Subseq(xs', ys') {
        SubseqProject(xs', ys', id);
        if ys[|ys| - 1].SpanID() == id {
          SubseqTake(Project(xs', id), Project(ys', id), ys[|ys| - 1]);
        }
      } else {
        SubseqProject(xs, ys', id);
        if ys[|ys| - 1].SpanID() == id {
          SubseqSkip(Project(xs, id), Project(ys', id), ys[|ys| - 1]);
        }
      }
    }
  }

  lemma {:induction false} SubseqAt(log: seq<Record>, xs: seq<nat>, ys: seq<nat>)
    requires Subseq(xs, ys)
    requires forall k :: 0 <= k < |ys| ==> ys[k] < |log|
    requires forall k :: 0 <= k < |xs| ==> xs[k] < |log|
    ensures Subseq(At(log, xs), At(log, ys))
    decreases |ys|
  {
    if xs != [] {
      var ys' := ys[..|ys| - 1];
      AtMore(log, ys', ys[|ys| - 1]);
      assert ys' + [ys[|ys| - 1]] == ys;
      if xs[|xs| - 1] == ys[|ys| - 1] && Subseq(xs[..|xs| - 1], ys') {
        var xs' := xs[..|xs| - 1];
        SubseqAt(log, xs', ys');
        AtMore(log, xs', xs[|xs| - 1]);
        assert xs' + [xs[|xs| - 1]] == xs;
        SubseqTake(At(log, xs'), At(log, ys'), log[ys[|ys| - 1]]);
      } else {
        SubseqAt(log, xs, ys');
        SubseqSkip(At(log, xs), At(log, ys'), log[ys[|ys| - 1]]);
      }
    }
  }

  // ----- Publications of one span that do not overlap

  /** No two publications of one span were ever under way together. */
  ghost predicate Serial(h: Hub) {
    && |h.during| == |h.log|
    && forall i, j :: 0 <= i < j < |h.log| && h.log[i].SpanID() == h.log[j].SpanID() ==> i !in h.during[j]
  }

  lemma RisingMore(xs: seq<nat>, u: nat)
    requires Rising(xs) && forall k :: 0 <= k < |xs| ==> xs[k] < u
    ensures Rising(xs + [u])
  {
  }

  /** A later send of the same span has a later ticket. */
  lemma LaterTicket(h: Hub, ch: ChanId, k: nat, n: nat)
    requires Valid(h) && Serial(h) && ch < |h.chans| && k < n < |h.chans[ch].offers|
    requires h.chans[ch].offers[k] < |h.log| && h.chans[ch].offers[n] < |h.log|
    requires h.log[h.chans[ch].offers[k]].SpanID() == h.log[h.chans[ch].offers[n]].SpanID()
    ensures h.chans[ch].offers[k] < h.chans[ch].offers[n]
  {
    var offers := h.chans[ch].offers;
    assert Queued(h, h.chans[ch]) && Delivered(h, ch);
    hide CallsValid, Safe, Pending, Subseq, At;
    assert offers[n] !in offers[..k];
  }

  lemma {:induction false} OffersRising(h: Hub, ch: ChanId, id: string, n: nat)
    requires Valid(h) && Serial(h) && ch < |h.chans| && n <= |h.chans[ch].offers|
    requires forall k :: 0 <= k < |h.chans[ch].offers| ==> h.chans[ch].offers[k] < |h.log|
    ensures Rising(Own(h.chans[ch].offers[..n], h.log, id))
  {
    hide Valid, Serial;
    var offers := h.chans[ch].offers;
    if n > 0 {
      var front, u := offers[..n - 1], offers[n - 1];
      OffersRising(h, ch, id, n - 1);
      assert offers[..n] == front + [u];
      assert offers[..n][..n - 1] == front;
      OwnLast(offers[..n], h.log, id);
      OwnMembers(front, h.log, id);
      var own := Own(front, h.log, id);
      if h.log[u].SpanID() == id {
        forall i | 0 <= i < |own|
          ensures own[i] < u
        {
          assert own[i] in front;
          var k :| 0 <= k < n - 1 && offers[k] == own[i];
          assert own[i] in own;
          LaterTicket(h, ch, k, n - 1);
        }
        RisingMore(own, u);
      }
    }
  }

  /** Main result on streams: of every span whose publications do not overlap, a
      subscriber gets a subsequence, in publication order, of what was published
      while it was registered; all of it, once nobody is sending, if its buffer
      was never full. */
  lemma {:induction false} SubscriberStream(h: Hub, ch: ChanId, id: string)
    requires Valid(h) && Serial(h) && ch < |h.chans|
    ensures var c := h.chans[ch];
            && c.since <= Horizon(h, c) <= |h.log|
            && Subseq(Project(c.received + c.buffer, id), Project(h.log[c.since..Horizon(h, c)], id))
            && (!c.dropped && (forall tid :: !Reading(h, tid)) ==>
                  Project(c.received + c.buffer, id) == Project(h.log[c.since..Horizon(h, c)], id))
  {
    var c := h.chans[ch];
    assert Queued(h, c) && Delivered(h, ch);
    OffersRising(h, ch, id, |c.offers|);
    assert c.offers[..|c.offers|] == c.offers;
    OwnMembers(c.offers, h.log, id);
    OwnProject(c.offers, h.log, id);
    var own := Own(c.offers, h.log, id);
    RisingSubseq(h.log, own, id, c.since, Horizon(h, c));
    SubseqAt(h.log, c.accepted, c.offers);
    SubseqProject(At(h.log, c.accepted), At(h.log, c.offers), id);
    SubseqTransitive(Project(At(h.log, c.accepted), id), At(h.log, own), Project(h.log[c.since..Horizon(h, c)], id));
    if !c.dropped && forall tid :: !Reading(h, tid) {
      assert forall t :: !Pending(h, ch, t);
    }
    hide Subseq, Project, Own, Rising, At;
  }
}
