/** How the consumer of the threaded benchmark leaves its loop: only through the emptiness test, with what that test
    saw, and on every feed some interleaving leaves with everything. */
module PipelineExits {
  import opened Bits
  import opened Protocol
  import opened OrderBooks
  import opened RingBuffers
  import opened Pipelines

  /** Move `j` of a run is an emptiness test that lets the consumer out. */
  ghost predicate LeavesAt(buffer: seq<Message>, feed: seq<Message>, limits: Limits, moves: seq<Move>,
                           j: nat, seen: nat)
    requires limits.depth > 0 && IsCapacity(|buffer|) && |buffer| > 0
  {
    && j < |moves| && moves[j] == TestEmpty(seen)
    && var t := Moves(Start(buffer), feed, limits, moves[..j]);
       Allowed(t, feed, TestEmpty(seen)) && Next(t, feed, limits, TestEmpty(seen)).loop.Exited?
  }

  /** Once out, the consumer does nothing more, and the producer had finished. */
  lemma OutIsOut(s: Pipeline, feed: seq<Message>, limits: Limits, m: Move)
    requires limits.depth > 0 && Good(s, feed, limits) && Allowed(s, feed, m) && s.loop.Exited?
    ensures var t := Next(s, feed, limits, m);
      t.loop.Exited? && t.ring.popped == s.ring.popped && t.ring.pushed == s.ring.pushed && t.book == s.book
  {
  }

  /** Nothing but an emptiness test that finds the head it saw at the tail lets the consumer out. */
  lemma OnlyTestLeaves(s: Pipeline, feed: seq<Message>, limits: Limits, m: Move)
    requires limits.depth > 0 && Good(s, feed, limits) && Allowed(s, feed, m)
    requires !s.loop.Exited? && Next(s, feed, limits, m).loop.Exited?
    ensures m.TestEmpty? && Next(s, feed, limits, m).ring == s.ring && Next(s, feed, limits, m).book == s.book
    ensures |s.ring.popped| == m.seenHead <= |feed| && s.ring.popped == feed[..m.seenHead] && |s.ring.pushed| == |feed|
    ensures s.book == Run(EMPTY_BOOK, feed[..m.seenHead], limits)
  {
    if m.TestEmpty? {
      EmptyMeans(|s.ring.popped|, m.seenHead, |s.ring.buffer|);
    }
  }

  /** In every interleaving: a consumer that has left did so at an emptiness test, and it has popped and processed
      exactly the messages up to the head that test saw. */
  lemma {:induction false} ExitedByTest(buffer: seq<Message>, feed: seq<Message>, limits: Limits, moves: seq<Move>,
                                        s: Pipeline)
    returns (j: nat, seen: nat)
    requires limits.depth > 0 && IsCapacity(|buffer|) && |buffer| > 0
    requires s == Moves(Start(buffer), feed, limits, moves) && s.loop.Exited?
    ensures LeavesAt(buffer, feed, limits, moves, j, seen)
    ensures seen <= |feed| && s.ring.popped == feed[..seen] && s.book == Run(EMPTY_BOOK, feed[..seen], limits)
    ensures Moves(Start(buffer), feed, limits, moves[..j]).ring.pushed == s.ring.pushed == feed
    decreases |moves|
  {
    var n := |moves| - 1;
    var before, m := moves[..n], moves[n];
    var t := Moves(Start(buffer), feed, limits, before);
    GoodMoves(buffer, feed, limits, before);
    GoodMoves(buffer, feed, limits, moves);
    if t.loop.Exited? {
      j, seen := ExitedByTest(buffer, feed, limits, before, t);
      assert before[..j] == moves[..j];
      if Allowed(t, feed, m) {
        OutIsOut(t, feed, limits, m);
      }
    } else {
      OnlyTestLeaves(t, feed, limits, m);
      j, seen := n, m.seenHead;
    }
  }

  /** Every emptiness test of a run compared with the head published at that moment. */
  ghost predicate TestsAreFresh(buffer: seq<Message>, feed: seq<Message>, limits: Limits, moves: seq<Move>)
    requires limits.depth > 0 && IsCapacity(|buffer|) && |buffer| > 0
  {
    forall j :: 0 <= j < |moves| && moves[j].TestEmpty? ==>
      moves[j].seenHead == |Moves(Start(buffer), feed, limits, moves[..j]).ring.pushed|
  }

  /** If every test saw the head then published, a consumer that has left has the whole feed and the direct loop's
      book; and for feeds shorter than the counters, it has that book only if the test it left by did. */
  lemma FreshExitIsComplete(buffer: seq<Message>, feed: seq<Message>, limits: Limits, moves: seq<Move>, s: Pipeline)
    requires limits.depth > 0 && IsCapacity(|buffer|) && |buffer| > 0
    requires s == Moves(Start(buffer), feed, limits, moves) && s.loop.Exited?
    ensures TestsAreFresh(buffer, feed, limits, moves) ==>
      s.ring.popped == feed && s.book == Run(EMPTY_BOOK, feed, limits)
    ensures |feed| < WORD && s.book == Run(EMPTY_BOOK, feed, limits) ==>
      exists j, seen :: LeavesAt(buffer, feed, limits, moves, j, seen) && seen == |feed|
  {
    var j, seen := ExitedByTest(buffer, feed, limits, moves, s);
    assert feed[..|feed|] == feed;
    if |feed| < WORD {
      PrefixBooksDiffer(feed, seen, limits);
    }
  }

  // ----- A run that leaves with everything -----

  /** Between items: the first `k` messages pushed, popped and processed, both threads about to go on. */
  ghost predicate Between(s: Pipeline, feed: seq<Message>, limits: Limits, k: nat)
    requires limits.depth > 0
  {
    && Good(s, feed, limits) && !s.finished && s.loop.AtFlag? && s.ring.producer.Idle?
    && |s.ring.pushed| == |s.ring.popped| == k
  }

  lemma {:induction false} MovesAppend(s: Pipeline, feed: seq<Message>, limits: Limits, a: seq<Move>, b: seq<Move>)
    requires limits.depth > 0 && IsCapacity(|s.ring.buffer|) && |s.ring.buffer| > 0
    ensures Moves(s, feed, limits, a + b) == Moves(Moves(s, feed, limits, a), feed, limits, b)
    decreases |b|
  {
    if b == [] {
      assert a + b == a;
    } else {
      assert (a + b)[..|a + b| - 1] == a + b[..|b| - 1];
      MovesAppend(s, feed, limits, a, b[..|b| - 1]);
    }
  }

  /** One more allowed move at the end of a run. */
  lemma Extend(s: Pipeline, feed: seq<Message>, limits: Limits, moves: seq<Move>, t: Pipeline, m: Move)
    returns (moves': seq<Move>, t': Pipeline)
    requires limits.depth > 0 && IsCapacity(|s.ring.buffer|) && |s.ring.buffer| > 0
    requires t == Moves(s, feed, limits, moves) && Allowed(t, feed, m) && Good(t, feed, limits)
    ensures moves' == moves + [m] && t' == Moves(s, feed, limits, moves') == Next(t, feed, limits, m)
    ensures Good(t', feed, limits)
  {
    moves', t' := moves + [m], Next(t, feed, limits, m);
    OneMove(s, feed, limits, moves, m);
    GoodStep(t, feed, limits, m);
  }

  /** The producer pushes the next message. */
  lemma PushNext(s: Pipeline, feed: seq<Message>, limits: Limits, k: nat) returns (moves: seq<Move>, t: Pipeline)
    requires limits.depth > 0 && Between(s, feed, limits, k) && k < |feed|
    ensures t == Moves(s, feed, limits, moves) && Good(t, feed, limits)
    ensures !t.finished && t.loop.AtFlag? && t.ring.producer.Idle? && t.ring.consumer.Rest?
    ensures t.ring.pushed == s.ring.pushed + [feed[k]] && t.ring.popped == s.ring.popped
  {
    moves, t := Extend(s, feed, limits, [], s, Produce(PushBegin(feed[k])));
    if t.ring.producer.Reload? {
      FullMeans(k, k, |s.ring.buffer|);
      moves, t := Extend(s, feed, limits, moves, t, Produce(PushReload(k)));
    }
    moves, t := Extend(s, feed, limits, moves, t, Produce(PushWrite));
    moves, t := Extend(s, feed, limits, moves, t, Produce(PushPublish));
  }

  /** The consumer finds the flag clear and looks at the cached head. */
  lemma StartPop(s: Pipeline, feed: seq<Message>, limits: Limits) returns (moves: seq<Move>, t: Pipeline)
    requires limits.depth > 0 && Good(s, feed, limits) && !s.finished && s.loop.AtFlag?
    ensures t == Moves(s, feed, limits, moves) && Good(t, feed, limits)
    ensures !t.finished && t.loop.InPop? && t.ring.producer == s.ring.producer
    ensures t.ring.consumer.Read? || t.ring.consumer.Refresh?
    ensures t.ring.pushed == s.ring.pushed && t.ring.popped == s.ring.popped
  {
    moves, t := Extend(s, feed, limits, [], s, LoadFlag);
    moves, t := Extend(s, feed, limits, moves, t, Consume(PopBegin));
  }

  /** It looks at the head itself if it has to, and finds an item in the queue. */
  lemma FindItem(s: Pipeline, feed: seq<Message>, limits: Limits, k: nat) returns (moves: seq<Move>, t: Pipeline)
    requires limits.depth > 0 && Good(s, feed, limits) && !s.finished && s.loop.InPop? && s.ring.producer.Idle?
    requires s.ring.consumer.Read? || s.ring.consumer.Refresh?
    requires |s.ring.pushed| == k + 1 && |s.ring.popped| == k
    ensures t == Moves(s, feed, limits, moves) && Good(t, feed, limits)
    ensures !t.finished && t.loop.InPop? && t.ring.producer.Idle? && t.ring.consumer.Read?
    ensures t.ring.pushed == s.ring.pushed && t.ring.popped == s.ring.popped
  {
    moves, t := [], s;
    if s.ring.consumer.Refresh? {
      EmptyMeans(k, k + 1, |s.ring.buffer|);
      moves, t := Extend(s, feed, limits, [], s, Consume(PopRefresh(k + 1)));
    }
  }

  /** It takes the item out. */
  lemma TakeItem(s: Pipeline, feed: seq<Message>, limits: Limits, k: nat) returns (moves: seq<Move>, t: Pipeline)
    requires limits.depth > 0 && Good(s, feed, limits) && !s.finished && s.loop.InPop? && s.ring.producer.Idle?
    requires s.ring.consumer.Read? && |s.ring.pushed| == k + 1 && |s.ring.popped| == k
    ensures t == Moves(s, feed, limits, moves) && Good(t, feed, limits)
    ensures !t.finished && t.loop.AtBook? && t.ring.producer.Idle?
    ensures |t.ring.pushed| == |t.ring.popped| == k + 1
  {
    moves, t := Extend(s, feed, limits, [], s, Consume(PopRead));
    moves, t := Extend(s, feed, limits, moves, t, Consume(PopRelease));
  }

  /** The consumer pops the message and processes it. */
  lemma PopNext(s: Pipeline, feed: seq<Message>, limits: Limits, k: nat) returns (moves: seq<Move>, t: Pipeline)
    requires limits.depth > 0 && Good(s, feed, limits) && !s.finished && s.loop.AtFlag? && s.ring.producer.Idle?
    requires |s.ring.pushed| == k + 1 && |s.ring.popped| == k
    ensures t == Moves(s, feed, limits, moves) && Between(t, feed, limits, k + 1)
  {
    var start, p := StartPop(s, feed, limits);
    var find, r := FindItem(p, feed, limits, k);
    var take, q := TakeItem(r, feed, limits, k);
    MovesAppend(s, feed, limits, start, find);
    MovesAppend(s, feed, limits, start + find, take);
    moves, t := Extend(s, feed, limits, start + find + take, q, Apply);
  }

  lemma {:induction false} Hand(buffer: seq<Message>, feed: seq<Message>, limits: Limits, k: nat)
    returns (moves: seq<Move>, t: Pipeline)
    requires limits.depth > 0 && IsCapacity(|buffer|) && |buffer| > 0 && k <= |feed|
    ensures t == Moves(Start(buffer), feed, limits, moves) && Between(t, feed, limits, k)
  {
    if k == 0 {
      moves, t := [], Start(buffer);
      GoodMoves(buffer, feed, limits, []);
    } else {
      var first, s := Hand(buffer, feed, limits, k - 1);
      var push, r := PushNext(s, feed, limits, k - 1);
      var pop, q := PopNext(r, feed, limits, k - 1);
      MovesAppend(Start(buffer), feed, limits, first, push);
      MovesAppend(Start(buffer), feed, limits, first + push, pop);
      moves, t := first + push + pop, q;
    }
  }

  /** Every feed has a run, through a queue of any size, that leaves with all of it and the direct loop's book. */
  lemma CompleteRun(buffer: seq<Message>, feed: seq<Message>, limits: Limits) returns (moves: seq<Move>)
    requires limits.depth > 0 && IsCapacity(|buffer|) && |buffer| > 0
    ensures var s := Moves(Start(buffer), feed, limits, moves);
      s.loop.Exited? && s.ring.popped == feed && s.book == Run(EMPTY_BOOK, feed, limits)
  {
    var n := |feed|;
    var t: Pipeline;
    moves, t := Hand(buffer, feed, limits, n);
    moves, t := Extend(Start(buffer), feed, limits, moves, t, Finish);
    moves, t := Extend(Start(buffer), feed, limits, moves, t, LoadFlag);
    EmptyMeans(n, n, |buffer|);
    moves, t := Extend(Start(buffer), feed, limits, moves, t, TestEmpty(n));
    assert feed[..n] == feed;
  }
}
