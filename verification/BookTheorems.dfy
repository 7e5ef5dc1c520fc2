/** What the lossy, incrementally maintained price arrays say about the live orders, over whole runs. */
module BookTheorems {
  import opened Wrappers
  import opened Protocol
  import opened OrderTables
  import opened OrderBooks
  import opened LiveTotals
  import Levels = PriceLevels

  ghost function Side(b: BookState, bid: bool): Ladder {
    if bid then b.bids else b.asks
  }

  /** One message seen from one side: the level update, and the orders before and after. */
  ghost function SideStep(m: Ladder, orders: Orders, msg: Message, bid: bool, limits: Limits): Ladder
    requires limits.depth > 0
  {
    SideAfter(m, bid, ChangeOf(orders, msg, limits.capacity), limits.depth)
  }

  /** The records a run leaves: they do not depend on what the sides show. */
  ghost function OrdersRun(msgs: seq<Message>, capacity: nat): Orders {
    if msgs == [] then map[]
    else OrdersAfter(OrdersRun(msgs[..|msgs| - 1], capacity), msgs[|msgs| - 1], capacity)
  }

  lemma {:induction false} RunOrders(msgs: seq<Message>, limits: Limits)
    requires limits.depth > 0
    ensures Run(EMPTY_BOOK, msgs, limits).orders == OrdersRun(msgs, limits.capacity)
  {
    if msgs != [] {
      RunOrders(msgs[..|msgs| - 1], limits);
    }
  }

  /** Every message of a run meets a condition on the records it finds. */
  ghost predicate Throughout(ok: (Orders, Message) -> bool, msgs: seq<Message>, capacity: nat) {
    msgs == [] ||
    var n := |msgs| - 1;
    Throughout(ok, msgs[..n], capacity) && ok(OrdersRun(msgs[..n], capacity), msgs[n])
  }

  ghost const WELL_FORMED := (orders: Orders, msg: Message) => WellFormedMessage(orders, msg)
  ghost const GENTLE := (orders: Orders, msg: Message) => GentleMessage(orders, msg)

  // ----- The book never overstates -----

  ghost predicate CoveredAt(m: Ladder, orders: Orders, bid: bool, p: int) {
    p in m ==> m[p].quantity > 0 && m[p].orderCount > 0 && AtMost(m[p], Sum(orders, bid, p))
  }

  lemma CoveredApply(m: Ladder, c: Change, bid: bool, depth: nat, p: int, total: Aggregate, total': Aggregate)
    requires depth > 0
    requires p in m ==> m[p].quantity > 0 && m[p].orderCount > 0 && AtMost(m[p], total)
    requires MovedAtLeast(total, total', c, bid, p)
    requires c.Change? && c.bid == bid && c.price == p && c.qtyDelta > 0 ==>
      AtMost(Levels.Opened(c.qtyDelta, c.orderDelta), total')
    ensures var m' := SideAfter(m, bid, c, depth);
      p in m' ==> m'[p].quantity > 0 && m'[p].orderCount > 0 && AtMost(m'[p], total')
  {
  }

  lemma CoveredStep(m: Ladder, orders: Orders, msg: Message, bid: bool, limits: Limits, p: int)
    requires limits.depth > 0 && LivePositive(orders) && GentleMessage(orders, msg)
    requires CoveredAt(m, orders, bid, p)
    ensures CoveredAt(SideStep(m, orders, msg, bid, limits), OrdersAfter(orders, msg, limits.capacity), bid, p)
  {
    var c := ChangeOf(orders, msg, limits.capacity);
    GentleShift(orders, msg, limits.capacity, bid, p);
    if c.Change? && c.qtyDelta > 0 {
      ArrivalIsBacked(orders, msg, limits.capacity);
    }
    CoveredApply(m, c, bid, limits.depth, p, Sum(orders, bid, p),
      Sum(OrdersAfter(orders, msg, limits.capacity), bid, p));
  }

  /** Whatever is cancelled, filled, evicted, over-executed or amended upwards, as long as adds are positive and never
      reuse a live id, each shown level is at most the true total of the live orders there: every shown level has a
      live order behind it. */
  lemma {:induction false} NeverOverstates(msgs: seq<Message>, limits: Limits, bid: bool, p: int)
    requires limits.depth > 0 && Throughout(GENTLE, msgs, limits.capacity)
    ensures var b := Run(EMPTY_BOOK, msgs, limits);
      && LivePositive(b.orders)
      && CoveredAt(Side(b, bid), b.orders, bid, p)
      && (p in Side(b, bid) ==> exists id :: Resting(b.orders, id, bid, p))
  {
    var b := Run(EMPTY_BOOK, msgs, limits);
    if msgs != [] {
      var n := |msgs| - 1;
      var a := Run(EMPTY_BOOK, msgs[..n], limits);
      RunOrders(msgs[..n], limits);
      NeverOverstates(msgs[..n], limits, bid, p);
      CoveredStep(Side(a, bid), a.orders, msgs[n], bid, limits, p);
      PositiveKept(a.orders, msgs[n], limits.capacity);
    }
    SumBounds(b.orders, bid, p);
  }

  // ----- Exactness above the watermark -----

  /** The level at `p` is exactly the live orders resting there; no level, no orders. */
  ghost predicate ExactAt(m: Ladder, orders: Orders, bid: bool, p: int) {
    if p in m then m[p] == Sum(orders, bid, p) else Sum(orders, bid, p) == NOTHING
  }

  /** The price a step forgets: the evicted worst level, or the arriving price that did not make the cut. */
  ghost function Dropped(m: Ladder, c: Change, bid: bool, depth: nat): Option<int>
    requires depth > 0
  {
    if c.Change? && c.bid == bid && c.price !in m && c.qtyDelta > 0 && |m| >= depth && exists p :: p in m then
      var w := Levels.Worst(m, !bid);
      Some(if Levels.Better(c.price, w, !bid) then w else c.price)
    else None
  }

  ghost function BestOf(a: Option<int>, b: Option<int>, bid: bool): Option<int> {
    if a.None? then b else if b.None? then a else if Levels.Better(b.value, a.value, !bid) then b else a
  }

  /** The watermark of a run: the best price the side has ever dropped. */
  ghost function Watermark(msgs: seq<Message>, limits: Limits, bid: bool): Option<int>
    requires limits.depth > 0
  {
    if msgs == [] then None
    else
      var n := |msgs| - 1;
      var b := Run(EMPTY_BOOK, msgs[..n], limits);
      BestOf(Watermark(msgs[..n], limits, bid),
             Dropped(Side(b, bid), ChangeOf(b.orders, msgs[n], limits.capacity), bid, limits.depth), bid)
  }

  predicate Above(p: int, mark: Option<int>, bid: bool) {
    mark.None? || Levels.Better(p, mark.value, !bid)
  }

  lemma EmptyLadder(m: Ladder)
    ensures (forall p :: p !in m) ==> |m| == 0
  {
    if forall p :: p !in m {
      assert m == map[];
    }
  }

  lemma NonEmptyLadder(m: Ladder)
    requires |m| > 0
    ensures exists p :: p in m
  {
    EmptyLadder(m);
  }

  /** A sum of positive live records. */
  predicate Genuine(a: Aggregate) {
    0 <= a.orderCount <= a.quantity && (a == NOTHING || a.orderCount > 0)
  }

  lemma ExactApply(m: Ladder, c: Change, bid: bool, depth: nat, p: int, total: Aggregate, total': Aggregate)
    requires depth > 0 && (|m| > 0 ==> exists q :: q in m)
    requires if p in m then m[p] == total else total == NOTHING
    requires Moved(total, total', c, bid, p) && Genuine(total')
    requires Above(p, Dropped(m, c, bid, depth), bid)
    ensures var m' := SideAfter(m, bid, c, depth); if p in m' then m'[p] == total' else total' == NOTHING
  {
  }

  lemma ExactStep(m: Ladder, orders: Orders, msg: Message, bid: bool, limits: Limits, p: int)
    requires limits.depth > 0 && LivePositive(orders) && WellFormedMessage(orders, msg)
    requires ExactAt(m, orders, bid, p)
    requires Above(p, Dropped(m, ChangeOf(orders, msg, limits.capacity), bid, limits.depth), bid)
    ensures ExactAt(SideStep(m, orders, msg, bid, limits), OrdersAfter(orders, msg, limits.capacity), bid, p)
  {
    var orders' := OrdersAfter(orders, msg, limits.capacity);
    if |m| > 0 {
      NonEmptyLadder(m);
    }
    ExactShift(orders, msg, limits.capacity, bid, p);
    PositiveKept(orders, msg, limits.capacity);
    SumBounds(orders', bid, p);
    ExactApply(m, ChangeOf(orders, msg, limits.capacity), bid, limits.depth, p,
      Sum(orders, bid, p), Sum(orders', bid, p));
  }

  lemma AboveBoth(p: int, a: Option<int>, b: Option<int>, bid: bool)
    requires Above(p, BestOf(a, b, bid), bid)
    ensures Above(p, a, bid) && Above(p, b, bid)
  {
  }

  lemma {:induction false} PositiveRun(msgs: seq<Message>, limits: Limits)
    requires limits.depth > 0 && Throughout(WELL_FORMED, msgs, limits.capacity)
    ensures LivePositive(Run(EMPTY_BOOK, msgs, limits).orders)
  {
    if msgs != [] {
      var n := |msgs| - 1;
      RunOrders(msgs[..n], limits);
      PositiveRun(msgs[..n], limits);
      PositiveKept(Run(EMPTY_BOOK, msgs[..n], limits).orders, msgs[n], limits.capacity);
    }
  }

  lemma {:induction false} ExactRun(msgs: seq<Message>, limits: Limits, bid: bool, p: int)
    requires limits.depth > 0 && Throughout(WELL_FORMED, msgs, limits.capacity)
    requires Above(p, Watermark(msgs, limits, bid), bid)
    ensures ExactAt(Side(Run(EMPTY_BOOK, msgs, limits), bid), Run(EMPTY_BOOK, msgs, limits).orders, bid, p)
  {
    if msgs != [] {
      var n := |msgs| - 1;
      var a := Run(EMPTY_BOOK, msgs[..n], limits);
      RunOrders(msgs[..n], limits);
      PositiveRun(msgs[..n], limits);
      AboveBoth(p, Watermark(msgs[..n], limits, bid),
        Dropped(Side(a, bid), ChangeOf(a.orders, msgs[n], limits.capacity), bid, limits.depth), bid);
      ExactRun(msgs[..n], limits, bid, p);
      ExactStep(Side(a, bid), a.orders, msgs[n], bid, limits, p);
    }
  }

  /** Under any message whatever, a side holds at most `depth` prices, each with positive volume. */
  ghost predicate Structural(m: Ladder, depth: nat) {
    |m| <= depth && forall p :: p in m ==> m[p].quantity > 0 && m[p].orderCount > 0
  }

  lemma SizeAfterRemove(m: Ladder, p: int)
    requires p in m
    ensures |m - {p}| == |m| - 1
  {
    assert (m - {p}).Keys == m.Keys - {p};
    assert |(m - {p}).Keys| == |m - {p}|;
    assert |m.Keys| == |m|;
  }

  lemma SizeAfterStore(m: Ladder, p: int, a: Aggregate)
    ensures |m[p := a]| == if p in m then |m| else |m| + 1
  {
    assert m[p := a].Keys == m.Keys + {p};
    assert |m[p := a].Keys| == |m[p := a]|;
    assert |m.Keys| == |m|;
  }

  lemma SizeStep(m: Ladder, c: Change, depth: nat)
    requires depth > 0 && |m| <= depth && c.Change?
    ensures |Levels.Apply(m, c.price, c.qtyDelta, c.orderDelta, !c.bid, depth)| <= depth
  {
    var newLevel := Levels.Opened(c.qtyDelta, c.orderDelta);
    if c.price in m {
      SizeAfterRemove(m, c.price);
      SizeAfterStore(m, c.price,
        Levels.Aggregate(m[c.price].quantity + c.qtyDelta, m[c.price].orderCount + c.orderDelta));
    } else if |m| < depth {
      SizeAfterStore(m, c.price, newLevel);
    } else {
      NonEmptyLadder(m);
      var w := Levels.Worst(m, !c.bid);
      SizeAfterRemove(m, w);
      SizeAfterStore(m - {w}, c.price, newLevel);
    }
  }

  lemma StructuralStep(m: Ladder, c: Change, bid: bool, depth: nat)
    requires depth > 0 && Structural(m, depth)
    ensures Structural(SideAfter(m, bid, c, depth), depth)
  {
    if c.Change? && c.bid == bid {
      SizeStep(m, c, depth);
    }
  }

  lemma {:induction false} StructuralRun(msgs: seq<Message>, limits: Limits, bid: bool)
    requires limits.depth > 0
    ensures Structural(Side(Run(EMPTY_BOOK, msgs, limits), bid), limits.depth)
  {
    if msgs != [] {
      var n := |msgs| - 1;
      var a := Run(EMPTY_BOOK, msgs[..n], limits);
      StructuralRun(msgs[..n], limits, bid);
      StructuralStep(Side(a, bid), ChangeOf(a.orders, msgs[n], limits.capacity), bid, limits.depth);
    }
  }

  /** In every run of a well-formed feed, every price strictly better than the best price the side has ever
      dropped is shown exactly when some live record rests there, with the sum of their quantities and with
      their number. A side that has dropped nothing is exact everywhere. */
  lemma WatermarkExactness(msgs: seq<Message>, b: BookState, limits: Limits, bid: bool, p: int)
    requires limits.depth > 0 && b == Run(EMPTY_BOOK, msgs, limits) && Throughout(WELL_FORMED, msgs, limits.capacity)
    requires Above(p, Watermark(msgs, limits, bid), bid)
    ensures ExactAt(Side(b, bid), b.orders, bid, p)
    ensures p in Side(b, bid) <==> exists id :: Resting(b.orders, id, bid, p)
    ensures p in Side(b, bid) ==> Side(b, bid)[p].orderCount == |RestingIds(b.orders, bid, p)|
  {
    ExactRun(msgs, limits, bid, p);
    PositiveRun(msgs, limits);
    StructuralRun(msgs, limits, bid);
    SumBounds(b.orders, bid, p);
    CountIsCardinality(b.orders, bid, p);
  }
}
