/** The dual-feed arbitrator (feed_arbitrator.hpp): two copies of a feed merged through a reorder buffer whose slots
    are sequence numbers modulo its size. */
module Arbitrators {
  import opened Bits
  import opened Wrappers
  import opened Protocol

  datatype GapEntry = GapEntry(msg: Message, active: bool)

  const EMPTY_ENTRY := GapEntry(BLANK, false)

  datatype Arbiter = Arbiter(expectedSeqNo: Word, duplicatesDropped: Word, sequenceGapsDetected: Word,
                             retransmitRequests: Word, gapBuffer: seq<GapEntry>)

  function Fresh(size: nat): Arbiter {
    Arbiter(1, 0, 0, 0, seq(size, _ => EMPTY_ENTRY))
  }

  /** Drops a duplicate, passes an in-sequence packet, or buffers a packet from the future in its slot,
      overwriting whatever was there. */
  function Ingest(a: Arbiter, msg: Message): (r: (Arbiter, Option<Message>))
    requires |a.gapBuffer| > 0
    ensures |r.0.gapBuffer| == |a.gapBuffer|
  {
    var seqNo := msg.seqNo;
    if seqNo < a.expectedSeqNo then (a.(duplicatesDropped := Wrap(a.duplicatesDropped + 1)), None)
    else if seqNo == a.expectedSeqNo then (a.(expectedSeqNo := Wrap(a.expectedSeqNo + 1)), Some(msg))
    else
      (a.(sequenceGapsDetected := Wrap(a.sequenceGapsDetected + (seqNo - a.expectedSeqNo)),
          retransmitRequests := Wrap(a.retransmitRequests + 1),
          gapBuffer := a.gapBuffer[seqNo % |a.gapBuffer| := GapEntry(msg, true)]), None)
  }

  function TryDrain(a: Arbiter): (r: (Arbiter, Option<Message>))
    requires |a.gapBuffer| > 0
    ensures |r.0.gapBuffer| == |a.gapBuffer|
  {
    var slot := a.expectedSeqNo % |a.gapBuffer|;
    var e := a.gapBuffer[slot];
    if e.active && e.msg.seqNo == a.expectedSeqNo then
      (a.(gapBuffer := a.gapBuffer[slot := e.(active := false)], expectedSeqNo := Wrap(a.expectedSeqNo + 1)),
       Some(e.msg))
    else (a, None)
  }

  // ----- Safety, for any use -----

  datatype Event = Arrival(msg: Message) | DrainCall

  /** What a caller has seen of an arbiter. */
  datatype Trace = Trace(arbiter: Arbiter, ingested: seq<Message>, emitted: seq<Message>, direct: nat, drained: nat)

  function Emission(out: Option<Message>): seq<Message> {
    if out.Some? then [out.value] else []
  }

  function Observe(t: Trace, e: Event): (r: Trace)
    requires |t.arbiter.gapBuffer| > 0
    ensures |r.arbiter.gapBuffer| == |t.arbiter.gapBuffer|
  {
    match e
    case Arrival(msg) =>
      var (a, out) := Ingest(t.arbiter, msg);
      Trace(a, t.ingested + [msg], t.emitted + Emission(out), t.direct + |Emission(out)|, t.drained)
    case DrainCall =>
      var (a, out) := TryDrain(t.arbiter);
      Trace(a, t.ingested, t.emitted + Emission(out), t.direct, t.drained + |Emission(out)|)
  }

  function History(size: nat, events: seq<Event>): (r: Trace)
    requires size > 0
    ensures |r.arbiter.gapBuffer| == size
  {
    if events == [] then Trace(Fresh(size), [], [], 0, 0)
    else Observe(History(size, events[..|events| - 1]), events[|events| - 1])
  }

  /** The emissions are in order, come from ingested messages, and are what the expectation counts. */
  ghost predicate InOrder(t: Trace) {
    && (forall i :: 0 <= i < |t.arbiter.gapBuffer| && t.arbiter.gapBuffer[i].active ==>
          t.arbiter.gapBuffer[i].msg in t.ingested)
    && (forall k :: 0 <= k < |t.emitted| ==> t.emitted[k].seqNo == Wrap(k + 1) && t.emitted[k] in t.ingested)
    && |t.emitted| == t.direct + t.drained
    && t.arbiter.expectedSeqNo == Wrap(|t.emitted| + 1)
  }

  /** Every ingest is a direct emission, a dropped duplicate or a retransmit request. */
  ghost predicate Accounted(t: Trace) {
    Wrap(t.direct + t.arbiter.duplicatesDropped + t.arbiter.retransmitRequests) == Wrap(|t.ingested|)
  }

  lemma InOrderStep(t: Trace, e: Event)
    requires |t.arbiter.gapBuffer| > 0 && InOrder(t)
    ensures InOrder(Observe(t, e))
  {
    WrapSuccessor(|t.emitted| + 1);
  }

  /** Which counters an arrival moves. */
  lemma ArrivalCounts(t: Trace, msg: Message)
    requires |t.arbiter.gapBuffer| > 0
    ensures var a, b := t.arbiter, Observe(t, Arrival(msg)).arbiter;
      && b.duplicatesDropped ==
         (if msg.seqNo < a.expectedSeqNo then Wrap(a.duplicatesDropped + 1) else a.duplicatesDropped)
      && b.retransmitRequests ==
         (if msg.seqNo > a.expectedSeqNo then Wrap(a.retransmitRequests + 1) else a.retransmitRequests)
      && b.sequenceGapsDetected ==
         (if msg.seqNo > a.expectedSeqNo then Wrap(a.sequenceGapsDetected + (msg.seqNo - a.expectedSeqNo))
          else a.sequenceGapsDetected)
    ensures Observe(t, Arrival(msg)).direct == t.direct + if msg.seqNo == t.arbiter.expectedSeqNo then 1 else 0
    ensures Observe(t, Arrival(msg)).ingested == t.ingested + [msg]
  {
  }

  lemma DrainCounts(t: Trace)
    requires |t.arbiter.gapBuffer| > 0
    ensures var a, b := t.arbiter, Observe(t, DrainCall).arbiter;
      && b.duplicatesDropped == a.duplicatesDropped
      && b.retransmitRequests == a.retransmitRequests
      && b.sequenceGapsDetected == a.sequenceGapsDetected
    ensures Observe(t, DrainCall).direct == t.direct && Observe(t, DrainCall).ingested == t.ingested
  {
  }

  lemma {:induction false} EmitsInOrder(size: nat, events: seq<Event>)
    requires size > 0
    ensures InOrder(History(size, events))
  {
    if events != [] {
      EmitsInOrder(size, events[..|events| - 1]);
      InOrderStep(History(size, events[..|events| - 1]), events[|events| - 1]);
    }
  }

  // ----- What the counters count -----

  /** The number the arbiter has to emit next, after what has come out so far. */
  function NextNumber(emitted: seq<Message>): Word {
    Wrap(|emitted| + 1)
  }

  /** By how much an arrival runs ahead of the next number. */
  function Lead(e: Event, next: Word): nat {
    if e.Arrival? && e.msg.seqNo > next then e.msg.seqNo - next else 0
  }

  function StaleOne(e: Event, next: Word): nat {
    if e.Arrival? && e.msg.seqNo < next then 1 else 0
  }

  function EarlyOne(e: Event, next: Word): nat {
    if e.Arrival? && e.msg.seqNo > next then 1 else 0
  }

  /** Arrivals below the number then due, arrivals beyond it, and by how much these ran ahead in all. */
  datatype Tally = Tally(stale: nat, early: nat, leads: nat)

  function Plus(c: Tally, e: Event, next: Word): Tally {
    Tally(c.stale + StaleOne(e, next), c.early + EarlyOne(e, next), c.leads + Lead(e, next))
  }

  function TallyOf(size: nat, events: seq<Event>): Tally
    requires size > 0
  {
    if events == [] then Tally(0, 0, 0)
    else
      var before, e := events[..|events| - 1], events[|events| - 1];
      Plus(TallyOf(size, before), e, NextNumber(History(size, before).emitted))
  }

  lemma PlainNumbers(size: nat, events: seq<Event>, emitted: seq<Message>)
    requires size > 0 && emitted == History(size, events).emitted && |emitted| < WORD - 1
    ensures NextNumber(emitted) == |emitted| + 1
    ensures forall k :: 0 <= k < |emitted| ==> emitted[k].seqNo == k + 1
  {
    EmitsInOrder(size, events);
    DivModUnique(|emitted| + 1, WORD, 0, |emitted| + 1);
    forall k | 0 <= k < |emitted| ensures emitted[k].seqNo == k + 1 {
      DivModUnique(k + 1, WORD, 0, k + 1);
    }
  }

  /** While the count has not wrapped, an arrival is stale exactly when its number is zero or has been emitted. */
  lemma StaleMeansEmitted(size: nat, events: seq<Event>, emitted: seq<Message>, msg: Message)
    requires size > 0 && emitted == History(size, events).emitted && |emitted| < WORD - 1
    ensures msg.seqNo < NextNumber(emitted) <==>
      msg.seqNo == 0 || exists k :: 0 <= k < |emitted| && emitted[k].seqNo == msg.seqNo
  {
    PlainNumbers(size, events, emitted);
    if 0 < msg.seqNo <= |emitted| {
      assert emitted[msg.seqNo - 1].seqNo == msg.seqNo;
    }
  }

  ghost predicate Counted(a: Arbiter, c: Tally) {
    && a.duplicatesDropped == Wrap(c.stale)
    && a.retransmitRequests == Wrap(c.early)
    && a.sequenceGapsDetected == Wrap(c.leads)
  }

  lemma CountedStep(t: Trace, e: Event, c: Tally)
    requires |t.arbiter.gapBuffer| > 0 && Counted(t.arbiter, c)
    ensures Counted(Observe(t, e).arbiter, Plus(c, e, t.arbiter.expectedSeqNo))
  {
    match e
    case Arrival(msg) =>
      ArrivalCounts(t, msg);
      AddWrapped(c.stale, 1);
      AddWrapped(c.early, 1);
      if msg.seqNo > t.arbiter.expectedSeqNo {
        AddWrapped(c.leads, msg.seqNo - t.arbiter.expectedSeqNo);
      }
    case DrainCall => DrainCounts(t);
  }

  lemma IngestedStep(t: Trace, e: Event, c: Tally)
    requires |t.arbiter.gapBuffer| > 0 && t.direct + c.stale + c.early == |t.ingested|
    ensures var t', c' := Observe(t, e), Plus(c, e, t.arbiter.expectedSeqNo);
      t'.direct + c'.stale + c'.early == |t'.ingested|
  {
    match e
    case Arrival(msg) => ArrivalCounts(t, msg);
    case DrainCall => DrainCounts(t);
  }

  lemma DueNext(size: nat, events: seq<Event>, t: Trace)
    requires size > 0 && t == History(size, events)
    ensures t.arbiter.expectedSeqNo == NextNumber(t.emitted)
  {
    EmitsInOrder(size, events);
  }

  /** Under any mix of events each counter is its own count, as a 64-bit word: duplicates are the stale arrivals,
      retransmit requests the early ones, and the gaps detected are the sum of their leads. Every ingest is a direct
      emission or one of the first two. */
  lemma {:induction false} CountersCount(size: nat, events: seq<Event>, t: Trace)
    requires size > 0 && t == History(size, events)
    ensures Counted(t.arbiter, TallyOf(size, events))
    ensures t.direct + TallyOf(size, events).stale + TallyOf(size, events).early == |t.ingested|
  {
    if events != [] {
      var before, e := events[..|events| - 1], events[|events| - 1];
      var s, c := History(size, before), TallyOf(size, before);
      CountersCount(size, before, s);
      DueNext(size, before, s);
      CountedStep(s, e, c);
      IngestedStep(s, e, c);
    }
  }

  lemma SumOfWords(x: nat, y: nat, z: nat)
    ensures Wrap(x + Wrap(y) + Wrap(z)) == Wrap(x + y + z)
  {
    AddWrapped(y, x + Wrap(z));
    AddWrapped(z, x + y);
  }

  lemma CountsAccount(t: Trace, c: Tally)
    requires Counted(t.arbiter, c) && t.direct + c.stale + c.early == |t.ingested|
    ensures Accounted(t)
  {
    SumOfWords(t.direct, c.stale, c.early);
  }

  /** Under any mix of duplicates, reordering, slot collisions and stale entries: the emitted sequence numbers are
      1, 2, 3, ... (modulo 2^64), every emitted message was ingested, every ingest is a direct emission, a dropped
      duplicate or a retransmit request, and the expectation counts the emissions. */
  lemma ArbiterSafety(size: nat, events: seq<Event>)
    requires size > 0
    ensures InOrder(History(size, events)) && Accounted(History(size, events))
  {
    var t := History(size, events);
    EmitsInOrder(size, events);
    CountersCount(size, events, t);
    CountsAccount(t, TallyOf(size, events));
  }

  // ----- The driver: ingest, then drain until nothing comes -----

  function Active(s: seq<GapEntry>): nat {
    if s == [] then 0 else Active(s[..|s| - 1]) + (if s[|s| - 1].active then 1 else 0)
  }

  lemma {:induction false} Deactivated(s: seq<GapEntry>, i: nat, e: GapEntry)
    requires i < |s| && s[i].active && !e.active
    ensures Active(s[i := e]) == Active(s) - 1
  {
    var n := |s| - 1;
    if i == n {
      assert s[i := e][..n] == s[..n];
    } else {
      assert s[i := e][..n] == s[..n][i := e];
      Deactivated(s[..n], i, e);
    }
  }

  lemma DrainDeactivates(a: Arbiter)
    requires |a.gapBuffer| > 0 && TryDrain(a).1.Some?
    ensures Active(TryDrain(a).0.gapBuffer) < Active(a.gapBuffer)
  {
    var slot := a.expectedSeqNo % |a.gapBuffer|;
    Deactivated(a.gapBuffer, slot, a.gapBuffer[slot].(active := false));
  }

  /** Draining to a fixpoint. Each success empties a slot, so it ends. */
  function DrainAll(a: Arbiter): (r: (Arbiter, seq<Message>))
    requires |a.gapBuffer| > 0
    ensures |r.0.gapBuffer| == |a.gapBuffer|
    decreases Active(a.gapBuffer)
  {
    var (b, out) := TryDrain(a);
    if out.None? then (a, [])
    else
      DrainDeactivates(a);
      var (c, rest) := DrainAll(b);
      (c, [out.value] + rest)
  }

  /** One packet through the driver. */
  function Deliver(a: Arbiter, msg: Message): (r: (Arbiter, seq<Message>))
    requires |a.gapBuffer| > 0
    ensures |r.0.gapBuffer| == |a.gapBuffer|
  {
    var (b, out) := Ingest(a, msg);
    if out.None? then (b, [])
    else
      var (c, rest) := DrainAll(b);
      (c, [out.value] + rest)
  }

  function DeliverAll(size: nat, msgs: seq<Message>): (r: (Arbiter, seq<Message>))
    requires size > 0
    ensures |r.0.gapBuffer| == size
  {
    if msgs == [] then (Fresh(size), [])
    else
      var (a, out) := DeliverAll(size, msgs[..|msgs| - 1]);
      var (b, more) := Deliver(a, msgs[|msgs| - 1]);
      (b, out + more)
  }

  // ----- What the arbiter holds, for any feed -----

  ghost predicate Received(msgs: seq<Message>, seqNo: nat) {
    exists m :: m in msgs && m.seqNo == seqNo
  }

  /** `n` is the length of the longest contiguous run from 1 among the received numbers. */
  ghost predicate LongestRun(msgs: seq<Message>, n: nat) {
    && (forall q :: 1 <= q <= n ==> Received(msgs, q))
    && !Received(msgs, n + 1)
  }

  ghost predicate Pending(a: Arbiter, seqNo: nat)
    requires |a.gapBuffer| > 0
  {
    var e := a.gapBuffer[seqNo % |a.gapBuffer|];
    seqNo >= a.expectedSeqNo && e.active && e.msg.seqNo == seqNo
  }

  /** Buffered numbers were received, sit in their own slots and have not been emitted; emitted ones were received. */
  ghost predicate Placed(a: Arbiter, msgs: seq<Message>) {
    && |a.gapBuffer| > 0
    && a.expectedSeqNo >= 1
    && (forall i :: 0 <= i < |a.gapBuffer| && a.gapBuffer[i].active ==>
          && a.gapBuffer[i].msg in msgs
          && a.gapBuffer[i].msg.seqNo % |a.gapBuffer| == i
          && a.expectedSeqNo <= a.gapBuffer[i].msg.seqNo)
    && (forall q :: 1 <= q < a.expectedSeqNo ==> Received(msgs, q))
  }

  /** Between packets nothing is left to drain. */
  ghost predicate Settled(a: Arbiter, msgs: seq<Message>) {
    Placed(a, msgs) && !Pending(a, a.expectedSeqNo)
  }

  /** A number that has been passed or waits in its slot. */
  ghost predicate Safe(a: Arbiter, seqNo: nat)
    requires |a.gapBuffer| > 0
  {
    seqNo < a.expectedSeqNo || Pending(a, seqNo)
  }

  /** Nothing received is lost. */
  ghost predicate Kept(a: Arbiter, msgs: seq<Message>)
    requires |a.gapBuffer| > 0
  {
    forall m :: m in msgs ==> Safe(a, m.seqNo)
  }

  /** The emissions so far. */
  ghost predicate Emitted(out: seq<Message>, first: nat, msgs: seq<Message>) {
    forall k :: 0 <= k < |out| ==> out[k].seqNo == first + k && out[k] in msgs
  }

  lemma ReceivedMore(msgs: seq<Message>, msg: Message)
    ensures forall q :: Received(msgs + [msg], q) <==> Received(msgs, q) || q == msg.seqNo
  {
    forall q ensures Received(msgs + [msg], q) <==> Received(msgs, q) || q == msg.seqNo {
      if Received(msgs, q) {
        var m :| m in msgs && m.seqNo == q;
        assert m in msgs + [msg];
      }
      if q == msg.seqNo {
        assert msg in msgs + [msg];
      }
    }
  }

  /** The number after the one a drain emits. */
  lemma DrainAdvances(a: Arbiter, msgs: seq<Message>)
    requires Placed(a, msgs) && BelowWrap(msgs) && TryDrain(a).1.Some?
    ensures TryDrain(a).0.expectedSeqNo == a.expectedSeqNo + 1
    ensures TryDrain(a).1.value in msgs && TryDrain(a).1.value.seqNo == a.expectedSeqNo
  {
    var e := a.gapBuffer[a.expectedSeqNo % |a.gapBuffer|];
    assert e.msg in msgs;
    DivModUnique(a.expectedSeqNo + 1, WORD, 0, a.expectedSeqNo + 1);
  }

  lemma DrainPlaces(a: Arbiter, msgs: seq<Message>)
    requires Placed(a, msgs) && BelowWrap(msgs) && TryDrain(a).1.Some?
    ensures Placed(TryDrain(a).0, msgs)
  {
    var b := TryDrain(a).0;
    var slot := a.expectedSeqNo % |a.gapBuffer|;
    DrainAdvances(a, msgs);
    assert b.gapBuffer == a.gapBuffer[slot := a.gapBuffer[slot].(active := false)];
    forall i | 0 <= i < |b.gapBuffer| && b.gapBuffer[i].active
      ensures b.gapBuffer[i].msg in msgs
      ensures b.gapBuffer[i].msg.seqNo % |b.gapBuffer| == i
      ensures b.expectedSeqNo <= b.gapBuffer[i].msg.seqNo
    {
      assert i != slot && b.gapBuffer[i] == a.gapBuffer[i];
    }
    assert Received(msgs, a.expectedSeqNo);
  }

  lemma {:induction false} DrainAllSettles(a: Arbiter, msgs: seq<Message>)
    requires Placed(a, msgs) && BelowWrap(msgs)
    ensures var (b, out) := DrainAll(a);
      && Settled(b, msgs)
      && b.expectedSeqNo == a.expectedSeqNo + |out|
      && Emitted(out, a.expectedSeqNo, msgs)
    decreases Active(a.gapBuffer)
  {
    var (b, out) := TryDrain(a);
    if out.Some? {
      DrainDeactivates(a);
      DrainAdvances(a, msgs);
      DrainPlaces(a, msgs);
      DrainAllSettles(b, msgs);
    }
  }

  lemma DrainSafe(a: Arbiter, msgs: seq<Message>, q: nat)
    requires Placed(a, msgs) && BelowWrap(msgs) && TryDrain(a).1.Some?
    ensures Safe(TryDrain(a).0, q) <==> Safe(a, q)
  {
    DrainAdvances(a, msgs);
  }

  /** Draining neither loses a number nor brings one back. */
  lemma {:induction false} DrainAllSafe(a: Arbiter, msgs: seq<Message>, q: nat)
    requires Placed(a, msgs) && BelowWrap(msgs)
    ensures Safe(DrainAll(a).0, q) <==> Safe(a, q)
    decreases Active(a.gapBuffer)
  {
    if TryDrain(a).1.Some? {
      DrainDeactivates(a);
      DrainPlaces(a, msgs);
      DrainSafe(a, msgs, q);
      DrainAllSafe(TryDrain(a).0, msgs, q);
    }
  }

  lemma IngestPlaces(a: Arbiter, msgs: seq<Message>, msg: Message)
    requires Settled(a, msgs) && msg.seqNo < WORD - 1
    ensures Placed(Ingest(a, msg).0, msgs + [msg])
    ensures Ingest(a, msg).1.Some? <==> msg.seqNo == a.expectedSeqNo
    ensures msg.seqNo == a.expectedSeqNo ==> Ingest(a, msg).0.expectedSeqNo == a.expectedSeqNo + 1
    ensures msg.seqNo != a.expectedSeqNo ==>
      Ingest(a, msg).0.expectedSeqNo == a.expectedSeqNo && !Pending(Ingest(a, msg).0, a.expectedSeqNo)
  {
    DivModUnique(msg.seqNo + 1, WORD, 0, msg.seqNo + 1);
    ReceivedMore(msgs, msg);
  }

  /** The packet is buffered over the slot of another number still waiting. */
  predicate Overwrites(a: Arbiter, msg: Message, q: nat)
    requires |a.gapBuffer| > 0
  {
    msg.seqNo > a.expectedSeqNo && q >= a.expectedSeqNo && q != msg.seqNo
    && q % |a.gapBuffer| == msg.seqNo % |a.gapBuffer|
  }

  lemma IngestSafe(a: Arbiter, msg: Message, q: nat)
    requires |a.gapBuffer| > 0 && msg.seqNo < WORD - 1
    ensures Safe(Ingest(a, msg).0, q) <==> q == msg.seqNo || (Safe(a, q) && !Overwrites(a, msg, q))
  {
    DivModUnique(msg.seqNo + 1, WORD, 0, msg.seqNo + 1);
  }

  /** One packet, on any feed: the emissions are the next numbers in order, and a number is safe afterwards if and only
      if it is the packet's own or was safe and is not overwritten. */
  lemma DeliverStep(a: Arbiter, msgs: seq<Message>, msg: Message)
    requires Settled(a, msgs) && BelowWrap(msgs + [msg])
    ensures var (b, out) := Deliver(a, msg);
      && Settled(b, msgs + [msg])
      && b.expectedSeqNo == a.expectedSeqNo + |out|
      && Emitted(out, a.expectedSeqNo, msgs + [msg])
      && forall q: nat :: Safe(b, q) <==> q == msg.seqNo || (Safe(a, q) && !Overwrites(a, msg, q))
  {
    assert msg in msgs + [msg];
    var b := Ingest(a, msg).0;
    IngestPlaces(a, msgs, msg);
    if msg.seqNo == a.expectedSeqNo {
      DrainAllSettles(b, msgs + [msg]);
    }
    forall q: nat
      ensures Safe(Deliver(a, msg).0, q) <==> q == msg.seqNo || (Safe(a, q) && !Overwrites(a, msg, q))
    {
      IngestSafe(a, msg, q);
      if msg.seqNo == a.expectedSeqNo {
        DrainAllSafe(b, msgs + [msg], q);
      }
    }
  }

  lemma EmittedMore(out: seq<Message>, more: seq<Message>, before: seq<Message>, msg: Message)
    requires Emitted(out, 1, before) && Emitted(more, 1 + |out|, before + [msg])
    ensures Emitted(out + more, 1, before + [msg])
  {
  }

  /** Any feed at all: what comes out is 1, 2, 3, ... from what came in, and the expectation counts it. */
  lemma {:induction false} DeliverAllSettles(size: nat, msgs: seq<Message>, a: Arbiter, out: seq<Message>)
    requires size > 0 && BelowWrap(msgs) && (a, out) == DeliverAll(size, msgs)
    ensures Settled(a, msgs) && a.expectedSeqNo == 1 + |out| && Emitted(out, 1, msgs)
  {
    if msgs != [] {
      var before, last := msgs[..|msgs| - 1], msgs[|msgs| - 1];
      var (b, first) := DeliverAll(size, before);
      DeliverAllSettles(size, before, b, first);
      assert msgs == before + [last];
      DeliverStep(b, before, last);
      EmittedMore(first, Deliver(b, last).1, before, last);
    }
  }

  // ----- Completeness: exactly when nothing is lost -----

  /** The packet runs ahead of the first missing number and shares its slot with another number received and still
      waiting: everything here can be read off the feed. */
  ghost predicate Collides(msgs: seq<Message>, size: nat, msg: Message)
    requires size > 0
  {
    exists n: nat, m :: LongestRun(msgs, n) && m in msgs &&
      msg.seqNo > n + 1 && m.seqNo > n && m.seqNo != msg.seqNo && m.seqNo % size == msg.seqNo % size
  }

  ghost predicate NoCollision(msgs: seq<Message>, size: nat)
    requires size > 0
  {
    msgs == [] ||
    var before, last := msgs[..|msgs| - 1], msgs[|msgs| - 1];
    NoCollision(before, size) && !Collides(before, size, last)
  }

  /** After every packet of the feed, every number received so far is safe. */
  ghost predicate NeverLost(size: nat, msgs: seq<Message>)
    requires size > 0
  {
    Kept(DeliverAll(size, msgs).0, msgs) && (msgs == [] || NeverLost(size, msgs[..|msgs| - 1]))
  }

  lemma LongestRunUnique(msgs: seq<Message>, msgs': seq<Message>, n: nat, n': nat)
    requires forall m :: m in msgs <==> m in msgs'
    requires LongestRun(msgs, n) && LongestRun(msgs', n')
    ensures n == n'
  {
    forall q ensures Received(msgs, q) <==> Received(msgs', q) {
      if Received(msgs, q) {
        var m :| m in msgs && m.seqNo == q;
        assert m in msgs';
      }
      if Received(msgs', q) {
        var m :| m in msgs' && m.seqNo == q;
        assert m in msgs;
      }
    }
  }

  lemma KeptRun(a: Arbiter, msgs: seq<Message>)
    requires Settled(a, msgs) && Kept(a, msgs)
    ensures LongestRun(msgs, a.expectedSeqNo - 1)
  {
  }

  /** On a state that has lost nothing, a packet loses something if and only if it collides. */
  lemma KeptStepIff(a: Arbiter, msgs: seq<Message>, msg: Message)
    requires Settled(a, msgs) && Kept(a, msgs) && BelowWrap(msgs + [msg])
    ensures Kept(Deliver(a, msg).0, msgs + [msg]) <==> !Collides(msgs, |a.gapBuffer|, msg)
  {
    var size, n := |a.gapBuffer|, a.expectedSeqNo - 1;
    DeliverStep(a, msgs, msg);
    KeptRun(a, msgs);
    if Collides(msgs, size, msg) {
      var n': nat, m :| LongestRun(msgs, n') && m in msgs &&
        msg.seqNo > n' + 1 && m.seqNo > n' && m.seqNo != msg.seqNo && m.seqNo % size == msg.seqNo % size;
      LongestRunUnique(msgs, msgs, n, n');
      assert Overwrites(a, msg, m.seqNo);
      assert m in msgs + [msg];
    } else {
      forall m | m in msgs + [msg] ensures Safe(Deliver(a, msg).0, m.seqNo) {
        assert m in msgs ==> Safe(a, m.seqNo) && (m.seqNo == msg.seqNo || !Overwrites(a, msg, m.seqNo));
      }
    }
  }

  /** For every feed, of any order and any lead: nothing is ever lost if and only if no packet collides. */
  lemma {:induction false} NeverLostIff(size: nat, msgs: seq<Message>)
    requires size > 0 && BelowWrap(msgs)
    ensures NeverLost(size, msgs) <==> NoCollision(msgs, size)
  {
    if msgs != [] {
      var before, last := msgs[..|msgs| - 1], msgs[|msgs| - 1];
      var (a, out) := DeliverAll(size, before);
      NeverLostIff(size, before);
      DeliverAllSettles(size, before, a, out);
      assert msgs == before + [last];
      if NeverLost(size, before) {
        KeptStepIff(a, before, last);
      }
    }
  }

  /** If no packet collides and the caller drains to a fixpoint after each accepted packet, the output is exactly the
      longest contiguous run from 1 of everything received on either feed, in order. */
  lemma ArbiterCompleteness(size: nat, msgs: seq<Message>, a: Arbiter, out: seq<Message>)
    requires size > 0 && NoCollision(msgs, size) && BelowWrap(msgs) && (a, out) == DeliverAll(size, msgs)
    ensures LongestRun(msgs, |out|) && Emitted(out, 1, msgs)
  {
    DeliverAllSettles(size, msgs, a, out);
    NeverLostIff(size, msgs);
    KeptRun(a, msgs);
  }

  /** And nothing is lost: what has not come out is still in its slot. */
  lemma NothingLost(size: nat, msgs: seq<Message>, a: Arbiter, out: seq<Message>, m: Message)
    requires size > 0 && NoCollision(msgs, size) && BelowWrap(msgs) && (a, out) == DeliverAll(size, msgs)
    requires m in msgs && m.seqNo > |out|
    ensures Pending(a, m.seqNo)
  {
    DeliverAllSettles(size, msgs, a, out);
    NeverLostIff(size, msgs);
  }

  // ----- A loss is felt -----

  /** In-order repairs: each packet is the number the arbiter expects when it comes. */
  ghost predicate Repairs(size: nat, msgs: seq<Message>, rest: seq<Message>)
    requires size > 0
    decreases |rest|
  {
    rest == [] ||
    (rest[0].seqNo == DeliverAll(size, msgs).0.expectedSeqNo && Repairs(size, msgs + [rest[0]], rest[1..]))
  }

  ghost predicate Complete(size: nat, msgs: seq<Message>)
    requires size > 0
  {
    LongestRun(msgs, |DeliverAll(size, msgs).1|)
  }

  lemma DeliverMore(size: nat, msgs: seq<Message>, msg: Message)
    requires size > 0
    ensures var (a, out) := DeliverAll(size, msgs); var (b, more) := Deliver(a, msg);
      DeliverAll(size, msgs + [msg]) == (b, out + more)
  {
    assert (msgs + [msg])[..|msgs|] == msgs;
  }

  /** A repair moves the expectation on and changes the fate of no other number. */
  lemma RepairStep(size: nat, msgs: seq<Message>, next: Message, a: Arbiter, b: Arbiter)
    requires size > 0 && BelowWrap(msgs) && a == DeliverAll(size, msgs).0
    requires next.seqNo == a.expectedSeqNo < WORD - 1 && b == DeliverAll(size, msgs + [next]).0
    ensures b.expectedSeqNo > a.expectedSeqNo
    ensures forall q: nat :: Safe(b, q) <==> q == next.seqNo || Safe(a, q)
  {
    DeliverAllSettles(size, msgs, a, DeliverAll(size, msgs).1);
    DeliverMore(size, msgs, next);
    DeliverStep(a, msgs, next);
    assert Safe(b, next.seqNo);
    assert !Pending(b, b.expectedSeqNo);
  }

  lemma FrontMoves(msgs: seq<Message>, rest: seq<Message>)
    requires rest != []
    ensures msgs + [rest[0]] + rest[1..] == msgs + rest
  {
  }

  lemma {:induction false} RepairsKeep(size: nat, msgs: seq<Message>, rest: seq<Message>)
    requires size > 0 && BelowWrap(msgs + rest) && Repairs(size, msgs, rest)
    requires Kept(DeliverAll(size, msgs).0, msgs)
    ensures Kept(DeliverAll(size, msgs + rest).0, msgs + rest)
    decreases |rest|
  {
    if rest == [] {
      assert msgs + rest == msgs;
    } else {
      var next := rest[0];
      FrontMoves(msgs, rest);
      assert forall m :: m in msgs + [next] ==> m in msgs + rest;
      RepairStep(size, msgs, next, DeliverAll(size, msgs).0, DeliverAll(size, msgs + [next]).0);
      RepairsKeep(size, msgs + [next], rest[1..]);
    }
  }

  /** Repairs lead up to a number that has been lost, and no further. */
  lemma {:induction false} RepairsReach(size: nat, msgs: seq<Message>, a: Arbiter, q: Word)
    returns (rest: seq<Message>)
    requires size > 0 && BelowWrap(msgs) && a == DeliverAll(size, msgs).0 && !Safe(a, q) && q < WORD - 1
    ensures BelowWrap(msgs + rest) && Repairs(size, msgs, rest)
    ensures DeliverAll(size, msgs + rest).0.expectedSeqNo == q
    decreases q - a.expectedSeqNo
  {
    if a.expectedSeqNo == q {
      rest := [];
      assert msgs + rest == msgs;
    } else {
      var next := Cancel(a.expectedSeqNo, 0, 0, 0);
      var b := DeliverAll(size, msgs + [next]).0;
      RepairStep(size, msgs, next, a, b);
      var more := RepairsReach(size, msgs + [next], b, q);
      rest := [next] + more;
      assert rest[0] == next && rest[1..] == more;
      FrontMoves(msgs, rest);
    }
  }

  /** Nothing received has been lost if and only if the output stays complete whatever in-order repairs follow. */
  lemma KeptMeansComplete(size: nat, msgs: seq<Message>)
    requires size > 0 && BelowWrap(msgs)
    ensures Kept(DeliverAll(size, msgs).0, msgs) <==>
      forall rest :: BelowWrap(msgs + rest) && Repairs(size, msgs, rest) ==> Complete(size, msgs + rest)
  {
    var (a, out) := DeliverAll(size, msgs);
    if Kept(a, msgs) {
      forall rest | BelowWrap(msgs + rest) && Repairs(size, msgs, rest) ensures Complete(size, msgs + rest) {
        var (b, more) := DeliverAll(size, msgs + rest);
        RepairsKeep(size, msgs, rest);
        DeliverAllSettles(size, msgs + rest, b, more);
        KeptRun(b, msgs + rest);
      }
    } else {
      var m :| m in msgs && !Safe(a, m.seqNo);
      var rest := RepairsReach(size, msgs, a, m.seqNo);
      var (b, more) := DeliverAll(size, msgs + rest);
      DeliverAllSettles(size, msgs + rest, b, more);
      assert m in msgs + rest;
      assert Received(msgs + rest, |more| + 1);
      assert !Complete(size, msgs + rest);
    }
  }

  // ----- The window -----

  /** Every packet arrives less than `size` ahead of the first number then missing. */
  ghost predicate InWindow(msgs: seq<Message>, size: nat) {
    msgs == [] ||
    var before, last := msgs[..|msgs| - 1], msgs[|msgs| - 1];
    InWindow(before, size) && forall n: nat :: LongestRun(before, n) ==> last.seqNo < n + 1 + size
  }

  lemma RunExists(msgs: seq<Message>, k: nat) returns (n: nat)
    requires k < WORD && forall q :: 1 <= q <= k ==> Received(msgs, q)
    ensures LongestRun(msgs, n)
    decreases WORD - k
  {
    if Received(msgs, k + 1) {
      n := RunExists(msgs, k + 1);
    } else {
      n := k;
    }
  }

  /** The window only moves up. */
  lemma {:induction false} WindowBound(msgs: seq<Message>, size: nat, n: nat)
    requires InWindow(msgs, size) && LongestRun(msgs, n)
    ensures forall m :: m in msgs ==> m.seqNo < n + 1 + size
  {
    if msgs != [] {
      var before, last := msgs[..|msgs| - 1], msgs[|msgs| - 1];
      var n' := RunExists(before, 0);
      WindowBound(before, size, n');
      assert msgs == before + [last];
      ReceivedMore(before, last);
      var missing: nat := n + 1;
      assert missing <= n' ==> Received(before, missing);
    }
  }

  /** Two numbers less than the buffer size apart do not share a slot: in-window feeds never collide. */
  lemma {:induction false} WindowNeverCollides(msgs: seq<Message>, size: nat)
    requires size > 0 && InWindow(msgs, size)
    ensures NoCollision(msgs, size)
  {
    if msgs != [] {
      var before, last := msgs[..|msgs| - 1], msgs[|msgs| - 1];
      WindowNeverCollides(before, size);
      forall n: nat, m | LongestRun(before, n) && m in before && last.seqNo > n + 1 && m.seqNo > n
        && m.seqNo != last.seqNo
        ensures m.seqNo % size != last.seqNo % size
      {
        WindowBound(before, size, n);
        if m.seqNo < last.seqNo {
          DistinctSlots(m.seqNo, last.seqNo, size);
        } else {
          DistinctSlots(last.seqNo, m.seqNo, size);
        }
      }
    }
  }

  // ----- Confluence -----

  /** Both feeds carry the same message under one number. */
  ghost predicate Consistent(msgs: seq<Message>) {
    forall m, m' :: m in msgs && m' in msgs && m.seqNo == m'.seqNo ==> m == m'
  }

  /** Two arrival orders of the same messages, neither with a collision, come out as the same sequence. */
  lemma SameOutput(size: nat, msgs: seq<Message>, out: seq<Message>,
                   size': nat, msgs': seq<Message>, out': seq<Message>)
    requires size > 0 && NoCollision(msgs, size) && size' > 0 && NoCollision(msgs', size')
    requires BelowWrap(msgs) && Consistent(msgs) && forall m :: m in msgs <==> m in msgs'
    requires out == DeliverAll(size, msgs).1 && out' == DeliverAll(size', msgs').1
    ensures out == out'
  {
    ArbiterCompleteness(size, msgs, DeliverAll(size, msgs).0, out);
    ArbiterCompleteness(size', msgs', DeliverAll(size', msgs').0, out');
    LongestRunUnique(msgs, msgs', |out|, |out'|);
    assert forall k :: 0 <= k < |out| ==> out[k].seqNo == k + 1 && out[k] in msgs && out'[k].seqNo == k + 1;
  }

  // ----- Outside the window -----

  const EARLY := Cancel(2, 0, 7, 0)
  const TOO_EARLY := Cancel(4, 0, 7, 0)
  const FIRST := Cancel(1, 0, 7, 0)

  lemma LostSteps() returns (a1: Arbiter, a2: Arbiter, a3: Arbiter)
    ensures |a1.gapBuffer| == |a2.gapBuffer| == |a3.gapBuffer| == 2
    ensures Deliver(Fresh(2), EARLY) == (a1, [])
    ensures Deliver(a1, TOO_EARLY) == (a2, [])
    ensures Deliver(a2, FIRST) == (a3, [FIRST])
  {
    a1 := Ingest(Fresh(2), EARLY).0;
    a2 := Ingest(a1, TOO_EARLY).0;
    a3 := Ingest(a2, FIRST).0;
    assert a1.gapBuffer[0] == GapEntry(EARLY, true);
    assert a2.gapBuffer[0] == GapEntry(TOO_EARLY, true);
    assert a3.expectedSeqNo == 2 && a3.gapBuffer[0].msg == TOO_EARLY;
    DrainUnfolds(a3);
    assert [FIRST] + [] == [FIRST];
  }

  /** One packet outside a two-slot window collides with another: 4 overwrites 2, and the run stops at 1. */
  lemma LostOutsideWindow()
    ensures DeliverAll(2, [EARLY, TOO_EARLY, FIRST]).1 == [FIRST]
    ensures Received([EARLY, TOO_EARLY, FIRST], 1) && Received([EARLY, TOO_EARLY, FIRST], 2)
    ensures !NoCollision([EARLY, TOO_EARLY, FIRST], 2)
  {
    var feed := [EARLY, TOO_EARLY, FIRST];
    var a1, a2, a3 := LostSteps();
    DeliverMore(2, [], EARLY);
    DeliverMore(2, [EARLY], TOO_EARLY);
    DeliverMore(2, [EARLY, TOO_EARLY], FIRST);
    assert [] + [EARLY] == [EARLY] && [EARLY] + [TOO_EARLY] == [EARLY, TOO_EARLY];
    assert [EARLY, TOO_EARLY] + [FIRST] == feed;
    assert FIRST in feed && EARLY in feed;
    if NoCollision(feed, 2) {
      var (a, out) := DeliverAll(2, feed);
      ArbiterCompleteness(2, feed, a, out);
    }
  }

  const AHEAD := Cancel(3, 0, 7, 0)

  /** Leaving the window is not yet a loss: 3 runs ahead of two slots, but nothing else waits in its slot. */
  lemma AheadButComplete()
    ensures var feed := [AHEAD, FIRST, EARLY];
      && !InWindow(feed, 2) && NoCollision(feed, 2)
      && |DeliverAll(2, feed).1| == 3 && Emitted(DeliverAll(2, feed).1, 1, feed)
  {
    var feed := [AHEAD, FIRST, EARLY];
    var one, two := [AHEAD], [AHEAD, FIRST];
    assert feed[..2] == two && two[..1] == one && one[..0] == [];
    assert LongestRun([], 0) && !InWindow(one, 2);
    assert !Collides([], 2, AHEAD);
    assert FIRST in two;
    forall n: nat | LongestRun(two, n) ensures n == 1 {
      assert n >= 2 ==> Received(two, 2);
      assert Received(two, 1);
    }
    assert !Collides(one, 2, FIRST) && !Collides(two, 2, EARLY);
    assert NoCollision(one, 2) && NoCollision(two, 2);
    assert FIRST in feed && EARLY in feed && AHEAD in feed;
    var (a, out) := DeliverAll(2, feed);
    ArbiterCompleteness(2, feed, a, out);
    assert LongestRun(feed, 3);
    LongestRunUnique(feed, feed, 3, |out|);
  }

  // ----- The class -----

  class DualFeedArbitrator {
    var expectedSeqNo: Word
    var duplicatesDropped: Word
    var sequenceGapsDetected: Word
    var retransmitRequests: Word
    const gapBuffer: array<GapEntry>

    ghost predicate Valid()
    {
      gapBuffer.Length > 0
    }

    ghost function State(): Arbiter
      reads this, gapBuffer
    {
      Arbiter(expectedSeqNo, duplicatesDropped, sequenceGapsDetected, retransmitRequests, gapBuffer[..])
    }

    constructor (maxBufferedGaps: nat)
      requires maxBufferedGaps > 0
      ensures Valid() && fresh(gapBuffer) && gapBuffer.Length == maxBufferedGaps
      ensures State() == Fresh(maxBufferedGaps)
    {
      gapBuffer := new GapEntry[maxBufferedGaps](_ => EMPTY_ENTRY);
      expectedSeqNo, duplicatesDropped, sequenceGapsDetected, retransmitRequests := 1, 0, 0, 0;
    }

    method Reset()
      requires Valid()
      modifies this, gapBuffer
      ensures State() == Fresh(gapBuffer.Length)
    {
      for i := 0 to gapBuffer.Length
        invariant forall j :: 0 <= j < i ==> gapBuffer[j] == EMPTY_ENTRY
      {
        gapBuffer[i] := EMPTY_ENTRY;
      }
      expectedSeqNo, duplicatesDropped, sequenceGapsDetected, retransmitRequests := 1, 0, 0, 0;
    }

    method IngestPacket(msg: Message) returns (out: Option<Message>)
      requires Valid()
      modifies this, gapBuffer
      ensures State() == Ingest(old(State()), msg).0 && out == Ingest(old(State()), msg).1
    {
      var seqNo := msg.seqNo;
      if seqNo < expectedSeqNo {
        duplicatesDropped := Wrap(duplicatesDropped + 1);
        return None;
      }
      if seqNo == expectedSeqNo {
        expectedSeqNo := Wrap(expectedSeqNo + 1);
        return Some(msg);
      }
      var gap := seqNo - expectedSeqNo;
      sequenceGapsDetected := Wrap(sequenceGapsDetected + gap);
      retransmitRequests := Wrap(retransmitRequests + 1);
      gapBuffer[seqNo % gapBuffer.Length] := GapEntry(msg, true);
      return None;
    }

    method TryDrainBuffered() returns (out: Option<Message>)
      requires Valid()
      modifies this, gapBuffer
      ensures State() == TryDrain(old(State())).0 && out == TryDrain(old(State())).1
    {
      var slot := expectedSeqNo % gapBuffer.Length;
      if gapBuffer[slot].active && gapBuffer[slot].msg.seqNo == expectedSeqNo {
        out := Some(gapBuffer[slot].msg);
        gapBuffer[slot] := gapBuffer[slot].(active := false);
        expectedSeqNo := Wrap(expectedSeqNo + 1);
      } else {
        out := None;
      }
    }

    /** The driver loop of one packet: ends because every drained message empties a slot. */
    method DeliverPacket(msg: Message) returns (out: seq<Message>)
      requires Valid()
      modifies this, gapBuffer
      ensures State() == Deliver(old(State()), msg).0 && out == Deliver(old(State()), msg).1
    {
      var first := IngestPacket(msg);
      if first.None? {
        return [];
      }
      out := [first.value];
      ghost var start := State();
      while true
        invariant DrainAll(State()).0 == DrainAll(start).0
        invariant out + DrainAll(State()).1 == [first.value] + DrainAll(start).1
        decreases Active(gapBuffer[..])
      {
        ghost var before := State();
        DrainUnfolds(before);
        var next := TryDrainBuffered();
        if next.None? {
          return;
        }
        out := out + [next.value];
      }
    }
  }

  lemma DrainUnfolds(a: Arbiter)
    requires |a.gapBuffer| > 0
    ensures var (b, out) := TryDrain(a);
      if out.None? then DrainAll(a) == (a, []) && b == a
      else
        && Active(b.gapBuffer) < Active(a.gapBuffer)
        && DrainAll(a).0 == DrainAll(b).0 && DrainAll(a).1 == [out.value] + DrainAll(b).1
  {
    if TryDrain(a).1.Some? {
      DrainDeactivates(a);
    }
  }
}
