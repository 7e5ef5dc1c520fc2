/** The arbitrator in front of the book: arrival order and duplication cannot be seen in the book. */
module FeedConfluence {
  import opened Bits
  import opened Protocol
  import opened OrderBooks
  import opened Arbitrators
  import Gaps = GapAccounting

  ghost predicate Consecutive(out: seq<Message>) {
    forall k :: 0 <= k < |out| ==> out[k].seqNo == k + 1
  }

  /** A gap-free feed keeps the book's own sequence check silent, and its expectation in step. */
  lemma {:induction false} NoGapsDownstream(out: seq<Message>, b: BookState, limits: Limits)
    requires limits.depth > 0 && b == Run(EMPTY_BOOK, out, limits) && Consecutive(out) && |out| < WORD - 1
    ensures b.sequenceGapsDetected == 0 && b.expectedSeqNo == |out| + 1
    decreases |out|
  {
    if out != [] {
      var n := |out| - 1;
      var before := Run(EMPTY_BOOK, out[..n], limits);
      NoGapsDownstream(out[..n], before, limits);
      Gaps.CountersStep(before, out[n], limits);
    }
  }

  lemma OutputFitsWord(size: nat, msgs: seq<Message>)
    requires size > 0 && BelowWrap(msgs)
    ensures |DeliverAll(size, msgs).1| < WORD - 1 && Consecutive(DeliverAll(size, msgs).1)
    ensures DeliverAll(size, msgs).0.expectedSeqNo == |DeliverAll(size, msgs).1| + 1
  {
    var (a, out) := DeliverAll(size, msgs);
    DeliverAllSettles(size, msgs, a, out);
    if out != [] {
      var last := out[|out| - 1];
      assert last in msgs && last.seqNo == |out|;
    }
  }

  /** For any two arrival orders of the same message set without collisions, through buffers of any sizes, the book
      ends the same; and after every emitted message it has seen no gap and expects the next number, as the
      arbitrator does. */
  lemma BooksAgree(size: nat, msgs: seq<Message>, size': nat, msgs': seq<Message>, limits: Limits)
    requires limits.depth > 0
    requires size > 0 && NoCollision(msgs, size) && size' > 0 && NoCollision(msgs', size')
    requires BelowWrap(msgs) && Consistent(msgs) && forall m :: m in msgs <==> m in msgs'
    ensures var (a, out) := DeliverAll(size, msgs); var (a', out') := DeliverAll(size', msgs');
      && Run(EMPTY_BOOK, out, limits) == Run(EMPTY_BOOK, out', limits)
      && a.expectedSeqNo == a'.expectedSeqNo == Run(EMPTY_BOOK, out, limits).expectedSeqNo
      && forall k :: 0 <= k <= |out| ==>
           Run(EMPTY_BOOK, out[..k], limits).sequenceGapsDetected == 0
           && Run(EMPTY_BOOK, out[..k], limits).expectedSeqNo == k + 1
  {
    SameOutput(size, msgs, DeliverAll(size, msgs).1, size', msgs', DeliverAll(size', msgs').1);
    OutputFitsWord(size, msgs);
    OutputFitsWord(size', msgs');
    var out := DeliverAll(size, msgs).1;
    forall k | 0 <= k <= |out|
      ensures Run(EMPTY_BOOK, out[..k], limits).sequenceGapsDetected == 0
      ensures Run(EMPTY_BOOK, out[..k], limits).expectedSeqNo == k + 1
    {
      NoGapsDownstream(out[..k], Run(EMPTY_BOOK, out[..k], limits), limits);
    }
    assert out[..|out|] == out;
  }
}
