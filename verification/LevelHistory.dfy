/** What a shown level holds, told from the feed since the price was last hidden: levels that come back after an
    eviction hold only what has arrived since, and no less. */
module LevelHistories {
  import opened Protocol
  import opened OrderBooks
  import opened LiveTotals
  import opened BookTheorems

  ghost predicate ShownAfter(msgs: seq<Message>, limits: Limits, bid: bool, p: int)
    requires limits.depth > 0
  {
    p in Side(Run(EMPTY_BOOK, msgs, limits), bid)
  }

  /** The length of the last prefix of a feed after which a price was not shown. */
  ghost function LastHidden(msgs: seq<Message>, limits: Limits, bid: bool, p: int): (k: nat)
    requires limits.depth > 0
    ensures k <= |msgs| && !ShownAfter(msgs[..k], limits, bid, p)
    ensures ShownAfter(msgs, limits, bid, p) <==> k < |msgs|
  {
    assert msgs[..|msgs|] == msgs;
    if msgs == [] || !ShownAfter(msgs, limits, bid, p) then |msgs|
    else
      var n := |msgs| - 1;
      var k := LastHidden(msgs[..n], limits, bid, p);
      assert msgs[..n][..k] == msgs[..k];
      k
  }

  /** After every longer prefix it was. */
  lemma {:induction false} ShownSince(msgs: seq<Message>, limits: Limits, bid: bool, p: int, j: nat)
    requires limits.depth > 0 && LastHidden(msgs, limits, bid, p) < j <= |msgs|
    ensures ShownAfter(msgs[..j], limits, bid, p)
  {
    if j < |msgs| {
      assert msgs[..|msgs| - 1][..j] == msgs[..j];
      ShownSince(msgs[..|msgs| - 1], limits, bid, p, j);
    } else {
      assert msgs[..j] == msgs;
    }
  }

  /** What one message brings to a price. */
  ghost function Brought(msgs: seq<Message>, i: nat, capacity: nat, bid: bool, p: int, of: Measure): int
    requires i < |msgs|
  {
    DeltaOf(ChangeOf(OrdersRun(msgs[..i], capacity), msgs[i], capacity), bid, p, of)
  }

  /** What a feed has brought to a price from its message `k` on. */
  ghost function Arrived(msgs: seq<Message>, k: nat, capacity: nat, bid: bool, p: int, of: Measure): int
    decreases |msgs|
  {
    if |msgs| <= k then 0
    else Arrived(msgs[..|msgs| - 1], k, capacity, bid, p, of) + Brought(msgs, |msgs| - 1, capacity, bid, p, of)
  }

  /** A change moves a level that stays shown by its deltas, and opens one with its quantity and at least one order. */
  lemma LevelMoves(m: Ladder, c: Change, bid: bool, depth: nat, p: int)
    requires depth > 0 && p in SideAfter(m, bid, c, depth)
    ensures var a := SideAfter(m, bid, c, depth)[p];
      if p in m then Moved(m[p], a, c, bid, p)
      else
        && c.Change? && c.bid == bid && c.price == p && c.qtyDelta > 0
        && a.quantity == c.qtyDelta
        && a.orderCount == if c.orderDelta >= 1 then c.orderDelta else 1
  {
  }

  lemma SideOfRun(msgs: seq<Message>, b: BookState, limits: Limits, bid: bool)
    requires limits.depth > 0 && msgs != [] && b == Run(EMPTY_BOOK, msgs[..|msgs| - 1], limits)
    ensures Side(Run(EMPTY_BOOK, msgs, limits), bid) ==
      SideAfter(Side(b, bid), bid,
                ChangeOf(OrdersRun(msgs[..|msgs| - 1], limits.capacity), msgs[|msgs| - 1], limits.capacity),
                limits.depth)
  {
    RunOrders(msgs[..|msgs| - 1], limits);
  }

  /** A level that holds what has arrived since message `k` opened it. */
  ghost predicate HoldsSince(a: Aggregate, msgs: seq<Message>, k: nat, capacity: nat, bid: bool, p: int)
    requires k < |msgs|
  {
    var first := Brought(msgs, k, capacity, bid, p, Number);
    && Brought(msgs, k, capacity, bid, p, Volume) > 0
    && a.quantity == Arrived(msgs, k, capacity, bid, p, Volume)
    && a.orderCount == Arrived(msgs, k, capacity, bid, p, Number) + if first >= 1 then 0 else 1 - first
  }

  lemma HoldsMore(a: Aggregate, a': Aggregate, msgs: seq<Message>, k: nat, capacity: nat, bid: bool, p: int)
    requires k < |msgs| - 1 && HoldsSince(a, msgs[..|msgs| - 1], k, capacity, bid, p)
    requires a'.quantity == a.quantity + Brought(msgs, |msgs| - 1, capacity, bid, p, Volume)
    requires a'.orderCount == a.orderCount + Brought(msgs, |msgs| - 1, capacity, bid, p, Number)
    ensures HoldsSince(a', msgs, k, capacity, bid, p)
  {
    var before := msgs[..|msgs| - 1];
    assert before[..k] == msgs[..k] && before[k] == msgs[k];
  }

  lemma HoldsFirst(a: Aggregate, msgs: seq<Message>, capacity: nat, bid: bool, p: int)
    requires msgs != []
    requires a.quantity == Brought(msgs, |msgs| - 1, capacity, bid, p, Volume) > 0
    requires var d := Brought(msgs, |msgs| - 1, capacity, bid, p, Number); a.orderCount == if d >= 1 then d else 1
    ensures HoldsSince(a, msgs, |msgs| - 1, capacity, bid, p)
  {
    assert Arrived(msgs[..|msgs| - 1], |msgs| - 1, capacity, bid, p, Volume) == 0;
    assert Arrived(msgs[..|msgs| - 1], |msgs| - 1, capacity, bid, p, Number) == 0;
  }

  /** On any feed, a shown price holds exactly the volume that has arrived there since it was last hidden, and as many
      orders, where the message that opened it counts as one order at least. */
  lemma {:induction false} ShownIsArrived(msgs: seq<Message>, limits: Limits, bid: bool, p: int)
    requires limits.depth > 0 && ShownAfter(msgs, limits, bid, p)
    ensures HoldsSince(Side(Run(EMPTY_BOOK, msgs, limits), bid)[p], msgs, LastHidden(msgs, limits, bid, p),
                       limits.capacity, bid, p)
  {
    var before := msgs[..|msgs| - 1];
    var b := Run(EMPTY_BOOK, before, limits);
    var m, m' := Side(b, bid), Side(Run(EMPTY_BOOK, msgs, limits), bid);
    SideOfRun(msgs, b, limits, bid);
    LevelMoves(m, ChangeOf(OrdersRun(before, limits.capacity), msgs[|msgs| - 1], limits.capacity), bid,
      limits.depth, p);
    if ShownAfter(before, limits, bid, p) {
      ShownIsArrived(before, limits, bid, p);
      HoldsMore(m[p], m'[p], msgs, LastHidden(msgs, limits, bid, p), limits.capacity, bid, p);
    } else {
      HoldsFirst(m'[p], msgs, limits.capacity, bid, p);
    }
  }

  /** On a well-formed feed what arrives is the movement of the live sum. */
  lemma {:induction false} ArrivedIsShift(msgs: seq<Message>, k: nat, capacity: nat, bid: bool, p: int)
    requires k <= |msgs| && Throughout(WELL_FORMED, msgs, capacity)
    ensures var s, t := Sum(OrdersRun(msgs[..k], capacity), bid, p), Sum(OrdersRun(msgs, capacity), bid, p);
      && Arrived(msgs, k, capacity, bid, p, Volume) == t.quantity - s.quantity
      && Arrived(msgs, k, capacity, bid, p, Number) == t.orderCount - s.orderCount
    decreases |msgs|
  {
    if k < |msgs| {
      var n := |msgs| - 1;
      assert msgs[..n][..k] == msgs[..k];
      ArrivedIsShift(msgs[..n], k, capacity, bid, p);
      ExactShift(OrdersRun(msgs[..n], capacity), msgs[n], capacity, bid, p);
    } else {
      assert msgs[..k] == msgs;
    }
  }

  /** An add brings one order; what opens a level otherwise is an amendment of an order already counted. */
  lemma OpenerCount(msgs: seq<Message>, k: nat, limits: Limits, bid: bool, p: int)
    requires limits.depth > 0 && k < |msgs| && Throughout(WELL_FORMED, msgs[..k + 1], limits.capacity)
    requires Brought(msgs, k, limits.capacity, bid, p, Volume) > 0
    ensures Brought(msgs, k, limits.capacity, bid, p, Number) == if msgs[k].Add? then 1 else 0
  {
    assert msgs[..k + 1][..k] == msgs[..k];
    PositiveRun(msgs[..k], limits);
    RunOrders(msgs[..k], limits);
  }

  lemma {:induction false} ThroughoutPrefix(msgs: seq<Message>, k: nat, capacity: nat)
    requires k <= |msgs| && Throughout(WELL_FORMED, msgs, capacity)
    ensures Throughout(WELL_FORMED, msgs[..k], capacity)
  {
    if k < |msgs| {
      assert msgs[..|msgs| - 1][..k] == msgs[..k];
      ThroughoutPrefix(msgs[..|msgs| - 1], k, capacity);
    } else {
      assert msgs[..k] == msgs;
    }
  }

  /** On every well-formed feed a shown price holds the live total now less the live total when it was last hidden, in
      quantity and in orders, and one order more if what opened it was not an add: that order was there before. */
  lemma ShownSinceHidden(msgs: seq<Message>, limits: Limits, bid: bool, p: int)
    requires limits.depth > 0 && Throughout(WELL_FORMED, msgs, limits.capacity) && ShownAfter(msgs, limits, bid, p)
    ensures var b := Run(EMPTY_BOOK, msgs, limits);
      var k := LastHidden(msgs, limits, bid, p);
      var hidden := Sum(Run(EMPTY_BOOK, msgs[..k], limits).orders, bid, p);
      && Side(b, bid)[p].quantity == Sum(b.orders, bid, p).quantity - hidden.quantity
      && Side(b, bid)[p].orderCount ==
         Sum(b.orders, bid, p).orderCount - hidden.orderCount + if msgs[k].Add? then 0 else 1
  {
    var k := LastHidden(msgs, limits, bid, p);
    ShownIsArrived(msgs, limits, bid, p);
    RunOrders(msgs, limits);
    RunOrders(msgs[..k], limits);
    ArrivedIsShift(msgs, k, limits.capacity, bid, p);
    ThroughoutPrefix(msgs, k + 1, limits.capacity);
    OpenerCount(msgs, k, limits, bid, p);
  }
}
