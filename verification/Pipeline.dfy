/** The two benchmark drivers of main.cpp: one loop over the feed, and a producer and a consumer thread around the
    queue. Both must leave the same book. */
module Pipelines {
  import opened Bits
  import opened Protocol
  import opened OrderBooks
  import opened RingBuffers
  import opened BookTheorems
  import opened BookLimits
  import Gaps = GapAccounting

  /** Where the consumer loop stands. */
  datatype Loop =
    | AtFlag                  // about to load producerFinished
    | AtEmptyTest             // saw the flag set: about to compare tail and head
    | InPop                   // inside tryPop
    | AtBook(msg: Message)    // popped an item: about to apply it to the book
    | Exited

  datatype Pipeline = Pipeline(ring: Ring<Message>, finished: bool, loop: Loop, book: BookState)

  datatype Move =
    | Produce(action: Action<Message>)
    | Finish
    | LoadFlag
    | TestEmpty(seenHead: nat)
    | Consume(action: Action<Message>)
    | Apply

  predicate IsPush(a: Action<Message>) {
    a.PushBegin? || a.PushReload? || a.PushWrite? || a.PushPublish?
  }

  /** The producer offers the feed in order, retrying each item until it is pushed. The emptiness test may see any
      published head the consumer has not yet seen past. */
  predicate Allowed(s: Pipeline, feed: seq<Message>, m: Move) {
    match m
    case Produce(a) =>
      && IsPush(a) && Enabled(s.ring, a) && !s.finished
      && (a.PushBegin? ==> |s.ring.pushed| < |feed| && a.newItem == feed[|s.ring.pushed|])
    case Finish => s.ring.producer.Idle? && |s.ring.pushed| == |feed|
    case LoadFlag => s.loop.AtFlag?
    case TestEmpty(seen) => s.loop.AtEmptyTest? && s.ring.seenPushed <= seen <= |s.ring.pushed|
    case Consume(a) => s.loop.InPop? && !IsPush(a) && Enabled(s.ring, a)
    case Apply => s.loop.AtBook?
  }

  /** After a pop step: still inside `tryPop`, back at the loop test after a refusal, or holding an item. */
  function LoopAfter(a: Action<Message>, before: Ring<Message>, after: Ring<Message>): Loop {
    if a.PopRelease? && before.consumer.Release? then AtBook(before.consumer.item)
    else if after.consumer.Rest? then AtFlag
    else InPop
  }

  ghost function Next(s: Pipeline, feed: seq<Message>, limits: Limits, m: Move): (r: Pipeline)
    requires limits.depth > 0 && IsCapacity(|s.ring.buffer|) && |s.ring.buffer| > 0 && Allowed(s, feed, m)
    ensures |r.ring.buffer| == |s.ring.buffer|
  {
    match m
    case Produce(a) => s.(ring := Step(s.ring, a))
    case Finish => s.(finished := true)
    case LoadFlag => s.(loop := if s.finished then AtEmptyTest else InPop)
    case TestEmpty(seen) => s.(loop := if s.ring.tail == Wrap(seen) then Exited else InPop)
    case Consume(a) =>
      var after := Step(s.ring, a);
      s.(ring := after, loop := LoopAfter(a, s.ring, after))
    case Apply => s.(book := Process(s.book, s.loop.msg, limits), loop := AtFlag)
  }

  ghost function Moves(s: Pipeline, feed: seq<Message>, limits: Limits, moves: seq<Move>): (r: Pipeline)
    requires limits.depth > 0 && IsCapacity(|s.ring.buffer|) && |s.ring.buffer| > 0
    ensures |r.ring.buffer| == |s.ring.buffer|
  {
    if moves == [] then s
    else
      var t, m := Moves(s, feed, limits, moves[..|moves| - 1]), moves[|moves| - 1];
      if Allowed(t, feed, m) then Next(t, feed, limits, m) else t
  }

  function Start(buffer: seq<Message>): Pipeline {
    Pipeline(RingBuffers.Initial(buffer), false, AtFlag, EMPTY_BOOK)
  }

  /** How many items the book has absorbed. */
  function Absorbed(s: Pipeline): int {
    |s.ring.popped| - (if s.loop.AtBook? then 1 else 0)
  }

  ghost predicate Good(s: Pipeline, feed: seq<Message>, limits: Limits)
    requires limits.depth > 0
  {
    && Inv(s.ring)
    && s.ring.pushed <= feed
    && (Holding(s.ring.producer) ==>
          |s.ring.pushed| < |feed| && s.ring.producer.item == feed[|s.ring.pushed|])
    && (s.finished ==> s.ring.producer.Idle? && |s.ring.pushed| == |feed|)
    && (!s.loop.InPop? ==> s.ring.consumer.Rest?)
    && (s.loop.AtEmptyTest? || s.loop.Exited? ==> s.finished)
    && (s.loop.AtBook? ==> |s.ring.popped| > 0 && s.loop.msg == feed[|s.ring.popped| - 1])
    && s.book == Run(EMPTY_BOOK, feed[..Absorbed(s)], limits)
  }

  lemma BookStep(feed: seq<Message>, k: nat, limits: Limits)
    requires limits.depth > 0 && k < |feed|
    ensures Run(EMPTY_BOOK, feed[..k + 1], limits) == Process(Run(EMPTY_BOOK, feed[..k], limits), feed[k], limits)
  {
    assert feed[..k + 1][..k] == feed[..k];
  }

  predicate Holding(p: Producer<Message>) {
    p.Reload? || p.Write? || p.Publish?
  }

  /** A push step leaves the consumer's side alone and only ever publishes the item it holds. */
  lemma PushFacts(r: Ring<Message>, a: Action<Message>)
    requires Inv(r) && IsPush(a) && Enabled(r, a)
    ensures var r' := Step(r, a);
      && r'.popped == r.popped && r'.consumer == r.consumer
      && (if a.PushPublish? then r'.pushed == r.pushed + [r.producer.item] && r'.producer.Idle?
          else r'.pushed == r.pushed)
      && (Holding(r'.producer) ==> r'.producer.item == if a.PushBegin? then a.newItem else r.producer.item)
  {
  }

  /** A pop step leaves the producer's side alone and hands over the next pushed item. */
  lemma PopFacts(r: Ring<Message>, a: Action<Message>)
    requires Inv(r) && !IsPush(a) && Enabled(r, a)
    ensures var r' := Step(r, a);
      && r'.pushed == r.pushed && r'.producer == r.producer
      && (if a.PopRelease? then |r.popped| < |r.pushed| && r'.popped == r.popped + [r.pushed[|r.popped|]]
            && r.consumer.item == r.pushed[|r.popped|] && r'.consumer.Rest?
          else r'.popped == r.popped)
  {
  }

  lemma GoodProduce(s: Pipeline, feed: seq<Message>, limits: Limits, a: Action<Message>)
    requires limits.depth > 0 && Good(s, feed, limits) && Allowed(s, feed, Produce(a))
    ensures Good(Next(s, feed, limits, Produce(a)), feed, limits)
  {
    InvStep(s.ring, a);
    PushFacts(s.ring, a);
  }

  lemma GoodConsume(s: Pipeline, feed: seq<Message>, limits: Limits, a: Action<Message>)
    requires limits.depth > 0 && Good(s, feed, limits) && Allowed(s, feed, Consume(a))
    ensures Good(Next(s, feed, limits, Consume(a)), feed, limits)
  {
    InvStep(s.ring, a);
    PopFacts(s.ring, a);
  }

  lemma GoodApply(s: Pipeline, feed: seq<Message>, limits: Limits)
    requires limits.depth > 0 && Good(s, feed, limits) && Allowed(s, feed, Apply)
    ensures Good(Next(s, feed, limits, Apply), feed, limits)
  {
    BookStep(feed, |s.ring.popped| - 1, limits);
  }

  /** The moves that touch neither the ring nor the book. */
  lemma GoodControl(s: Pipeline, feed: seq<Message>, limits: Limits, m: Move)
    requires limits.depth > 0 && Good(s, feed, limits) && Allowed(s, feed, m)
    requires m.Finish? || m.LoadFlag? || m.TestEmpty?
    ensures Good(Next(s, feed, limits, m), feed, limits)
  {
  }

  lemma GoodStep(s: Pipeline, feed: seq<Message>, limits: Limits, m: Move)
    requires limits.depth > 0 && Good(s, feed, limits) && Allowed(s, feed, m)
    ensures Good(Next(s, feed, limits, m), feed, limits)
  {
    match m
    case Produce(a) => GoodProduce(s, feed, limits, a);
    case Consume(a) => GoodConsume(s, feed, limits, a);
    case Apply => GoodApply(s, feed, limits);
    case _ => GoodControl(s, feed, limits, m);
  }

  lemma {:induction false} GoodMoves(buffer: seq<Message>, feed: seq<Message>, limits: Limits, moves: seq<Move>)
    requires limits.depth > 0 && IsCapacity(|buffer|) && |buffer| > 0
    ensures Good(Moves(Start(buffer), feed, limits, moves), feed, limits)
  {
    if moves != [] {
      var t, m := Moves(Start(buffer), feed, limits, moves[..|moves| - 1]), moves[|moves| - 1];
      GoodMoves(buffer, feed, limits, moves[..|moves| - 1]);
      if Allowed(t, feed, m) {
        GoodStep(t, feed, limits, m);
      }
    } else {
      InitialInv(buffer);
    }
  }

  /** In every interleaving the consumer's book is the fold of a prefix of the feed, never more than was pushed. */
  lemma BookIsAPrefix(buffer: seq<Message>, feed: seq<Message>, limits: Limits, moves: seq<Move>)
    requires limits.depth > 0 && IsCapacity(|buffer|) && |buffer| > 0
    ensures var s := Moves(Start(buffer), feed, limits, moves);
      && 0 <= Absorbed(s) <= |s.ring.pushed| <= |feed|
      && s.book == Run(EMPTY_BOOK, feed[..Absorbed(s)], limits)
  {
    GoodMoves(buffer, feed, limits, moves);
  }

  lemma PrefixBooksDiffer(feed: seq<Message>, k: nat, limits: Limits)
    requires limits.depth > 0 && k <= |feed| < WORD
    ensures Run(EMPTY_BOOK, feed[..k], limits) == Run(EMPTY_BOOK, feed, limits) <==> k == |feed|
  {
    Gaps.MessagesCounted(feed[..k], limits);
    Gaps.MessagesCounted(feed, limits);
    assert feed[..|feed|] == feed;
  }

  /** The consumer leaves its loop having absorbed exactly as many messages as the head it compared with. It leaves
      with the book of the direct loop if and only if that load of the head was up to date. */
  lemma ExitIsComplete(buffer: seq<Message>, feed: seq<Message>, limits: Limits, moves: seq<Move>, seen: nat,
                       s: Pipeline)
    requires limits.depth > 0 && IsCapacity(|buffer|) && |buffer| > 0
    requires s == Moves(Start(buffer), feed, limits, moves)
    requires Allowed(s, feed, TestEmpty(seen)) && Next(s, feed, limits, TestEmpty(seen)).loop.Exited?
    ensures Absorbed(s) == seen <= |feed| && s.book == Run(EMPTY_BOOK, feed[..seen], limits)
    ensures Absorbed(s) == |feed| <==> seen == |s.ring.pushed|
    ensures |feed| < WORD ==> (s.book == Run(EMPTY_BOOK, feed, limits) <==> seen == |s.ring.pushed|)
  {
    GoodMoves(buffer, feed, limits, moves);
    EmptyMeans(|s.ring.popped|, seen, |buffer|);
    if |feed| < WORD {
      PrefixBooksDiffer(feed, seen, limits);
    }
  }

  /** The run of one message through a two-slot queue up to the consumer's emptiness test: pushed, never popped. */
  function Hasty(m: Message): seq<Move> {
    [Produce(PushBegin(m)), Produce(PushWrite), Produce(PushPublish), Finish, LoadFlag]
  }

  lemma OneMove(s: Pipeline, feed: seq<Message>, limits: Limits, moves: seq<Move>, m: Move)
    requires limits.depth > 0 && IsCapacity(|s.ring.buffer|) && |s.ring.buffer| > 0
    ensures var t := Moves(s, feed, limits, moves);
      Moves(s, feed, limits, moves + [m]) == if Allowed(t, feed, m) then Next(t, feed, limits, m) else t
  {
    assert (moves + [m])[..|moves|] == moves;
  }

  lemma HastyState(buffer: seq<Message>, m: Message, limits: Limits) returns (s: Pipeline)
    requires limits.depth > 0 && IsCapacity(|buffer|) && |buffer| == 2
    ensures s == Moves(Start(buffer), [m], limits, Hasty(m))
    ensures s.loop == AtEmptyTest && s.finished && s.book == EMPTY_BOOK
    ensures s.ring.pushed == [m] && s.ring.popped == [] && s.ring.seenPushed == 0 && s.ring.tail == 0
  {
    var h := Hasty(m);
    var s0 := Start(buffer);
    FullMeans(0, 0, 2);
    var s1 := Next(s0, [m], limits, h[0]);
    var s2 := Next(s1, [m], limits, h[1]);
    var s3 := Next(s2, [m], limits, h[2]);
    var s4 := Next(s3, [m], limits, h[3]);
    s := Next(s4, [m], limits, h[4]);
    OneMove(s0, [m], limits, [], h[0]);
    OneMove(s0, [m], limits, h[..1], h[1]);
    OneMove(s0, [m], limits, h[..2], h[2]);
    OneMove(s0, [m], limits, h[..3], h[3]);
    OneMove(s0, [m], limits, h[..4], h[4]);
    assert [] + [h[0]] == h[..1] && h[..1] + [h[1]] == h[..2] && h[..2] + [h[2]] == h[..3];
    assert h[..3] + [h[3]] == h[..4] && h[..4] + [h[4]] == h;
  }

  /** An early exit: the flag is set after the push, yet the test still sees the old head, and the consumer leaves
      with the message in the queue and a book that is not the direct loop's. */
  lemma EarlyExit(buffer: seq<Message>, m: Message, limits: Limits)
    requires limits.depth > 0 && IsCapacity(|buffer|) && |buffer| == 2
    ensures var s := Moves(Start(buffer), [m], limits, Hasty(m));
      && Allowed(s, [m], TestEmpty(0))
      && Next(s, [m], limits, TestEmpty(0)).loop.Exited?
      && s.ring.pushed == [m] && s.ring.popped == []
      && s.book != Run(EMPTY_BOOK, [m], limits)
  {
    var s := HastyState(buffer, m, limits);
    PrefixBooksDiffer([m], 0, limits);
    assert [m][..0] == [];
  }

  /** The direct benchmark loop. Its order table ends with every order it saw die still counted. */
  method RunDirect(book: LimitOrderBook, feed: seq<Message>)
    requires book.Valid()
    modifies book, book.orderTable, book.orderTable.table, book.bids, book.asks
    ensures book.Valid() && book.State() == Run(EMPTY_BOOK, feed, book.Bounds())
    ensures book.orderTable.Drift() == Deaths(feed, book.orderTable.table.Length)
    ensures book.orderTable.activeCount == Births(feed, book.orderTable.table.Length)
  {
    book.Reset();
    for i := 0 to |feed|
      invariant book.Valid() && book.State() == Run(EMPTY_BOOK, feed[..i], book.Bounds())
      invariant book.orderTable.Drift() == Deaths(feed[..i], book.orderTable.table.Length)
    {
      BookStep(feed, i, book.Bounds());
      DeathsStep(feed, i, book.Bounds());
      book.ProcessMessage(feed[i]);
    }
    assert feed[..|feed|] == feed;
    RunOrders(feed, book.Bounds());
    LiveIsBirthsLessDeaths(feed, book.orderTable.table.Length);
  }

  lemma DeathsStep(feed: seq<Message>, k: nat, limits: Limits)
    requires limits.depth > 0 && k < |feed|
    ensures Deaths(feed[..k + 1], limits.capacity) == Deaths(feed[..k], limits.capacity) +
      if Dies(Run(EMPTY_BOOK, feed[..k], limits).orders, feed[k]) then 1 else 0
  {
    assert feed[..k + 1][..k] == feed[..k];
    RunOrders(feed[..k], limits);
  }
}
