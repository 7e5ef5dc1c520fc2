/** The sequence check of the book: what its three counters add up to over a run. */
module GapAccounting {
  import opened Bits
  import opened Protocol
  import opened OrderBooks

  /** The sequence number expected after a run, counted without wrap-around. */
  function Expected(seqNos: seq<nat>): nat {
    if seqNos == [] then 1 else seqNos[|seqNos| - 1] + 1
  }

  function Max0(x: int): nat {
    if x > 0 then x else 0
  }

  /** Sequence numbers skipped by forward jumps. */
  function Skipped(seqNos: seq<nat>): nat {
    if seqNos == [] then 0
    else var n := |seqNos| - 1; Skipped(seqNos[..n]) + Max0(seqNos[n] - Expected(seqNos[..n]))
  }

  /** How far backward steps went back. */
  function Backtracked(seqNos: seq<nat>): nat {
    if seqNos == [] then 0
    else var n := |seqNos| - 1; Backtracked(seqNos[..n]) + Max0(Expected(seqNos[..n]) - seqNos[n])
  }

  /** Strictly increasing from at least one. */
  ghost predicate Increasing(seqNos: seq<nat>) {
    (forall i :: 0 <= i < |seqNos| ==> seqNos[i] >= 1) && forall i, j :: 0 <= i < j < |seqNos| ==> seqNos[i] < seqNos[j]
  }

  lemma {:induction false} Balance(seqNos: seq<nat>)
    ensures |seqNos| + Skipped(seqNos) == Expected(seqNos) - 1 + Backtracked(seqNos)
  {
    if seqNos != [] {
      Balance(seqNos[..|seqNos| - 1]);
    }
  }

  lemma IncreasingStep(seqNos: seq<nat>)
    requires seqNos != []
    ensures var n := |seqNos| - 1;
      Increasing(seqNos) <==> Increasing(seqNos[..n]) && seqNos[n] >= Expected(seqNos[..n])
  {
    var n := |seqNos| - 1;
    var before := seqNos[..n];
    assert forall i :: 0 <= i < n ==> before[i] == seqNos[i];
    if Increasing(before) && seqNos[n] >= Expected(before) {
      forall i | 0 <= i < n ensures seqNos[i] < seqNos[n] {
        assert before[i] <= before[n - 1];
      }
    }
  }

  lemma {:induction false} NoBacktrackIff(seqNos: seq<nat>)
    ensures Backtracked(seqNos) == 0 <==> Increasing(seqNos)
  {
    if seqNos != [] {
      var n := |seqNos| - 1;
      NoBacktrackIff(seqNos[..n]);
      IncreasingStep(seqNos);
    }
  }

  function SeqNos(msgs: seq<Message>): (r: seq<nat>)
    ensures |r| == |msgs| && forall i :: 0 <= i < |msgs| ==> r[i] == msgs[i].seqNo
  {
    seq(|msgs|, i requires 0 <= i < |msgs| => msgs[i].seqNo)
  }

  lemma SequencedStep(b: BookState, seqNo: Word)
    requires seqNo < WORD - 1 && b.expectedSeqNo > 0
    ensures Sequenced(b, seqNo).expectedSeqNo == seqNo + 1
    ensures Sequenced(b, seqNo).sequenceGapsDetected == Wrap(b.sequenceGapsDetected + Max0(seqNo - b.expectedSeqNo))
  {
    DivModUnique(seqNo + 1, WORD, 0, seqNo + 1);
    DivModUnique(b.sequenceGapsDetected, WORD, 0, b.sequenceGapsDetected);
  }

  lemma CountersStep(b: BookState, msg: Message, limits: Limits)
    requires limits.depth > 0 && msg.seqNo < WORD - 1 && b.expectedSeqNo > 0
    ensures var b' := Process(b, msg, limits);
      && b'.expectedSeqNo == msg.seqNo + 1
      && b'.totalMessagesProcessed == Wrap(b.totalMessagesProcessed + 1)
      && b'.sequenceGapsDetected == Wrap(b.sequenceGapsDetected + Max0(msg.seqNo - b.expectedSeqNo))
  {
    SequencedStep(b, msg.seqNo);
  }

  lemma CountersMore(b: BookState, msg: Message, limits: Limits, expected: nat, processed: nat, skipped: nat)
    requires limits.depth > 0 && msg.seqNo < WORD - 1 && b.expectedSeqNo == expected > 0
    requires b.totalMessagesProcessed == Wrap(processed) && b.sequenceGapsDetected == Wrap(skipped)
    ensures var b' := Process(b, msg, limits);
      && b'.expectedSeqNo == msg.seqNo + 1
      && b'.totalMessagesProcessed == Wrap(processed + 1)
      && b'.sequenceGapsDetected == Wrap(skipped + Max0(msg.seqNo - expected))
  {
    CountersStep(b, msg, limits);
    AddWrapped(processed, 1);
    AddWrapped(skipped, Max0(msg.seqNo - expected));
  }

  /** The book's counters are these sums, as 64-bit words. */
  lemma {:induction false} Counters(msgs: seq<Message>, b: BookState, limits: Limits)
    requires limits.depth > 0 && b == Run(EMPTY_BOOK, msgs, limits) && BelowWrap(msgs)
    ensures b.expectedSeqNo == Expected(SeqNos(msgs))
    ensures b.totalMessagesProcessed == Wrap(|msgs|)
    ensures b.sequenceGapsDetected == Wrap(Skipped(SeqNos(msgs)))
  {
    if msgs != [] {
      var n := |msgs| - 1;
      var a, before := Run(EMPTY_BOOK, msgs[..n], limits), SeqNos(msgs[..n]);
      Counters(msgs[..n], a, limits);
      assert SeqNos(msgs)[..n] == before;
      CountersMore(a, msgs[n], limits, Expected(before), n, Skipped(before));
    }
  }

  /** From reset, on every run whose counters stay within 64 bits: messages processed plus gaps detected are at
      least the last sequence number, and equal it exactly when no message steps backwards. */
  lemma GapsCoverTheFeed(msgs: seq<Message>, b: BookState, limits: Limits)
    requires limits.depth > 0 && b == Run(EMPTY_BOOK, msgs, limits) && msgs != [] && BelowWrap(msgs)
    requires |msgs| < WORD && Skipped(SeqNos(msgs)) < WORD
    ensures b.totalMessagesProcessed + b.sequenceGapsDetected >= msgs[|msgs| - 1].seqNo
    ensures b.totalMessagesProcessed + b.sequenceGapsDetected == msgs[|msgs| - 1].seqNo <==>
      Increasing(SeqNos(msgs))
  {
    Counters(msgs, b, limits);
    Balance(SeqNos(msgs));
    NoBacktrackIff(SeqNos(msgs));
    DivModUnique(|msgs|, WORD, 0, |msgs|);
    DivModUnique(Skipped(SeqNos(msgs)), WORD, 0, Skipped(SeqNos(msgs)));
  }

  /** The sequence numbers a feed should have carried and did not. */
  ghost function Missing(seqNos: seq<nat>): set<nat> {
    set x: nat | 1 <= x < Expected(seqNos) && x !in seqNos
  }

  ghost function Range(lo: nat, hi: nat): (r: set<nat>)
    requires lo <= hi
    ensures forall x :: x in r <==> lo <= x < hi
    ensures |r| == hi - lo
    decreases hi - lo
  {
    if lo == hi then {} else Range(lo, hi - 1) + {hi - 1}
  }

  lemma {:induction false} IncreasingBounds(seqNos: seq<nat>)
    requires Increasing(seqNos)
    ensures forall x :: x in seqNos ==> 1 <= x < Expected(seqNos)
  {
    if seqNos != [] {
      var n := |seqNos| - 1;
      IncreasingStep(seqNos);
      IncreasingBounds(seqNos[..n]);
      assert seqNos == seqNos[..n] + [seqNos[n]];
    }
  }

  lemma MissingStep(before: seq<nat>, last: nat)
    requires last >= Expected(before)
    requires forall x :: x in before ==> x < Expected(before)
    ensures |Missing(before + [last])| == |Missing(before)| + (last - Expected(before))
  {
    var lo, after := Expected(before), before + [last];
    assert Expected(after) == last + 1;
    assert Missing(after) == Missing(before) + Range(lo, last);
    assert Missing(before) !! Range(lo, last);
  }

  lemma {:induction false} MissingCounted(seqNos: seq<nat>)
    requires Increasing(seqNos)
    ensures |Missing(seqNos)| == Skipped(seqNos)
  {
    if seqNos != [] {
      var n := |seqNos| - 1;
      IncreasingStep(seqNos);
      MissingCounted(seqNos[..n]);
      IncreasingBounds(seqNos[..n]);
      MissingStep(seqNos[..n], seqNos[n]);
      assert seqNos == seqNos[..n] + [seqNos[n]];
    } else {
      assert Missing(seqNos) == {};
    }
  }

  /** On a strictly increasing feed the gap counter is the number of missing sequence numbers. */
  lemma GapsAreTheMissing(msgs: seq<Message>, limits: Limits)
    requires limits.depth > 0 && BelowWrap(msgs) && Increasing(SeqNos(msgs))
    ensures Run(EMPTY_BOOK, msgs, limits).sequenceGapsDetected == |Missing(SeqNos(msgs))|
  {
    Counters(msgs, Run(EMPTY_BOOK, msgs, limits), limits);
    MissingCounted(SeqNos(msgs));
    Balance(SeqNos(msgs));
    NoBacktrackIff(SeqNos(msgs));
    DivModUnique(Skipped(SeqNos(msgs)), WORD, 0, Skipped(SeqNos(msgs)));
  }

  function Fills(msgs: seq<Message>): nat {
    if msgs == [] then 0
    else Fills(msgs[..|msgs| - 1]) + if msgs[|msgs| - 1].Execute? then 1 else 0
  }

  /** The trade counter counts every execute message, known order or not. */
  lemma {:induction false} TradesCounted(msgs: seq<Message>, limits: Limits)
    requires limits.depth > 0
    ensures Run(EMPTY_BOOK, msgs, limits).tradesExecuted == Wrap(Fills(msgs))
  {
    if msgs != [] {
      TradesCounted(msgs[..|msgs| - 1], limits);
      WrapSuccessor(Fills(msgs[..|msgs| - 1]));
    }
  }

  /** Below 2^64 messages the message counter is their number. */
  lemma {:induction false} MessagesCounted(msgs: seq<Message>, limits: Limits)
    requires limits.depth > 0 && |msgs| < WORD
    ensures Run(EMPTY_BOOK, msgs, limits).totalMessagesProcessed == |msgs|
  {
    if msgs != [] {
      MessagesCounted(msgs[..|msgs| - 1], limits);
      Small(|msgs|);
    }
  }

  lemma Small(x: nat)
    requires x < WORD
    ensures Wrap(x) == x
  {
    DivModUnique(x, WORD, 0, x);
  }

  /** After the last sequence number of the word the expectation is zero, which switches the check off: whatever comes
      next is taken without a gap, and the expectation starts again at one. */
  lemma BlindAfterWrap(b: BookState, last: Message, next: Message, limits: Limits)
    requires limits.depth > 0 && b.expectedSeqNo > 0 && last.seqNo == WORD - 1
    ensures var b1 := Process(b, last, limits); var b2 := Process(b1, next, limits);
      b1.expectedSeqNo == 0 && b2.expectedSeqNo == 1 && b2.sequenceGapsDetected == b1.sequenceGapsDetected
  {
    DivModUnique(WORD, WORD, 1, 0);
    DivModUnique(1, WORD, 0, 1);
  }
}
