/** Where the book's promises stop: the exact conditions, and inputs beyond them. */
module BookLimits {
  import opened Bits
  import opened Wrappers
  import opened Protocol
  import opened OrderTables
  import opened OrderBooks
  import opened LiveTotals
  import opened BookTheorems
  import Levels = PriceLevels

  // ----- Exactness of one step, both ways -----

  /** The shown level of a live order, before an amendment, agrees with the live orders. */
  ghost predicate ShownExactly(m: Ladder, orders: Orders, id: Word) {
    && IsLive(orders, id)
    && orders[id].price in m
    && ExactAt(m, orders, orders[id].side == 'B', orders[id].price)
  }

  lemma AmendExactIff(m: Ladder, orders: Orders, id: Word, o: Order, c: Change, depth: nat)
    requires depth > 0 && LivePositive(orders) && ShownExactly(m, orders, id)
    requires var r := orders[id];
      && c.Change? && c.bid == (r.side == 'B') && c.price == r.price
      && o.side == r.side && o.price == r.price
      && (!o.cancelled ==> o.quantity > 0 && c.orderDelta == 0 && c.qtyDelta == o.quantity - r.quantity)
      && (o.cancelled ==> c.orderDelta == -1 && c.qtyDelta <= -r.quantity)
    ensures ExactAt(SideAfter(m, c.bid, c, depth), orders[id := o], c.bid, c.price) <==>
      !o.cancelled || c.qtyDelta == -orders[id].quantity || m[c.price].orderCount == 1
  {
    SumStore(orders, id, o, c.bid, c.price);
    SumBounds(orders[id := o], c.bid, c.price);
  }

  /** A fill keeps a shown, exact level exact if and only if it does not exceed the order's remaining quantity,
      or the order is alone at its price. The record is clamped at zero but the level is not. */
  lemma ExecuteExactIff(m: Ladder, orders: Orders, msg: Message, limits: Limits)
    requires limits.depth > 0 && LivePositive(orders) && msg.Execute? && ShownExactly(m, orders, msg.orderId)
    ensures var o := orders[msg.orderId]; var bid := o.side == 'B';
      ExactAt(SideStep(m, orders, msg, bid, limits), OrdersAfter(orders, msg, limits.capacity), bid, o.price) <==>
      msg.execQuantity <= o.quantity || m[o.price].orderCount == 1
  {
    AmendExactIff(m, orders, msg.orderId, Rewritten(orders, msg, limits.capacity),
      ChangeOf(orders, msg, limits.capacity), limits.depth);
  }

  /** A cancel keeps a shown, exact level exact if and only if the new quantity is not negative, or the order is
      alone at its price. */
  lemma CancelExactIff(m: Ladder, orders: Orders, msg: Message, limits: Limits)
    requires limits.depth > 0 && LivePositive(orders) && msg.Cancel? && ShownExactly(m, orders, msg.orderId)
    ensures var o := orders[msg.orderId]; var bid := o.side == 'B';
      ExactAt(SideStep(m, orders, msg, bid, limits), OrdersAfter(orders, msg, limits.capacity), bid, o.price) <==>
      msg.quantity >= 0 || m[o.price].orderCount == 1
  {
    AmendExactIff(m, orders, msg.orderId, Rewritten(orders, msg, limits.capacity),
      ChangeOf(orders, msg, limits.capacity), limits.depth);
  }

  /** Every price of both sides agrees with the live orders, whether shown or not. */
  ghost predicate ExactBook(b: BookState) {
    forall bid, p :: ExactAt(Side(b, bid), b.orders, bid, p)
  }

  ghost predicate Fits(m: Ladder, price: int, depth: nat) {
    price in m || |m| < depth
  }

  /** The arriving price pushes the worst shown price out. */
  ghost predicate Evicts(m: Ladder, price: int, ascending: bool, depth: nat, w: int) {
    !Fits(m, price, depth) && w in m && w == Levels.Worst(m, ascending) && Levels.Better(price, w, ascending)
  }

  /** The overwritten order was alone at the worst shown price, and its own new price pushes that price out. */
  ghost predicate SelfEvicts(b: BookState, msg: Message, limits: Limits)
    requires msg.Add? && IsLive(b.orders, msg.orderId)
  {
    var r, bid := b.orders[msg.orderId], msg.side == 'B';
    (r.side == 'B') == bid && Evicts(Side(b, bid), msg.price, !bid, limits.depth, r.price)
    && Side(b, bid)[r.price].orderCount == 1
  }

  /** What an add does to the level of a price other than its own: nothing, unless it pushes it out. */
  lemma AddElsewhere(m: Ladder, c: Change, bid: bool, depth: nat, p: int)
    requires depth > 0 && |m| <= depth && c.Change? && c.qtyDelta > 0
    requires !(c.bid == bid && c.price == p)
    ensures var m' := SideAfter(m, bid, c, depth);
      if c.bid == bid && Evicts(m, c.price, !bid, depth, p) then p !in m'
      else (p in m' <==> p in m) && (p in m ==> m'[p] == m[p])
  {
    if |m| > 0 {
      NonEmptyLadder(m);
    }
  }

  /** And to the level of its own price: it grows or opens there, if it fits or pushes another out. */
  lemma AddHere(m: Ladder, c: Change, depth: nat, w: int)
    requires depth > 0 && Structural(m, depth) && c.Change? && c.qtyDelta > 0 && c.orderDelta == 1
    requires Fits(m, c.price, depth) || Evicts(m, c.price, !c.bid, depth, w)
    ensures var m', a := SideAfter(m, c.bid, c, depth), if c.price in m then m[c.price] else NOTHING;
      && c.price in m'
      && m'[c.price] == Levels.Aggregate(a.quantity + c.qtyDelta, a.orderCount + 1)
  {
  }

  /** A fresh add keeps the book exact if and only if its price fits: a full side forgets something. */
  lemma FreshAddExactIff(b: BookState, msg: Message, limits: Limits)
    requires limits.depth > 0 && LivePositive(b.orders) && ExactBook(b) && msg.Add? && msg.quantity > 0
    requires forall bid :: Structural(Side(b, bid), limits.depth)
    requires Accepts(b.orders, msg.orderId, limits.capacity) && !IsLive(b.orders, msg.orderId)
    ensures ExactBook(Process(b, msg, limits)) <==> Fits(Side(b, msg.side == 'B'), msg.price, limits.depth)
  {
    var b', bid := Process(b, msg, limits), msg.side == 'B';
    var m, c := Side(b, bid), ChangeOf(b.orders, msg, limits.capacity);
    PositiveKept(b.orders, msg, limits.capacity);
    if Fits(m, msg.price, limits.depth) {
      forall side, p ensures ExactAt(Side(b', side), b'.orders, side, p) {
        ExactStep(Side(b, side), b.orders, msg, side, limits, p);
      }
    } else {
      NonEmptyLadder(m);
      var w := Levels.Worst(m, !bid);
      var gone := if Levels.Better(msg.price, w, !bid) then w else msg.price;
      assert ExactAt(m, b.orders, bid, gone);
      ExactShift(b.orders, msg, limits.capacity, bid, gone);
      assert gone !in Side(b', bid);
      assert !ExactAt(Side(b', bid), b'.orders, bid, gone);
    }
  }

  /** Re-adding a live id leaves the old quantity behind, unless the old level goes with it. */
  lemma ReAddAtOldPrice(b: BookState, msg: Message, limits: Limits)
    requires limits.depth > 0 && LivePositive(b.orders) && ExactBook(b) && msg.Add? && msg.quantity > 0
    requires forall bid :: Structural(Side(b, bid), limits.depth)
    requires IsLive(b.orders, msg.orderId)
    ensures var r := b.orders[msg.orderId]; var bid := r.side == 'B'; var b' := Process(b, msg, limits);
      ExactAt(Side(b', bid), b'.orders, bid, r.price) <==> SelfEvicts(b, msg, limits)
  {
    var r, c := b.orders[msg.orderId], ChangeOf(b.orders, msg, limits.capacity);
    var bid := r.side == 'B';
    var m := Side(b, bid);
    var orders' := OrdersAfter(b.orders, msg, limits.capacity);
    assert ExactAt(m, b.orders, bid, r.price);
    PositiveKept(b.orders, msg, limits.capacity);
    SumAtLeast(b.orders, msg.orderId, bid, r.price);
    SumStore(b.orders, msg.orderId, Rewritten(b.orders, msg, limits.capacity), bid, r.price);
    SumBounds(orders', bid, r.price);
    if c.bid == bid && c.price == r.price {
      AddHere(m, c, limits.depth, b.orders[msg.orderId].price);
    } else {
      AddElsewhere(m, c, bid, limits.depth, r.price);
    }
  }

  lemma SelfEvictedIsExact(b: BookState, msg: Message, limits: Limits, side: bool, p: int)
    requires limits.depth > 0 && LivePositive(b.orders) && ExactBook(b) && msg.Add? && msg.quantity > 0
    requires forall bid :: Structural(Side(b, bid), limits.depth)
    requires IsLive(b.orders, msg.orderId) && SelfEvicts(b, msg, limits)
    requires !(side == (msg.side == 'B') && p == b.orders[msg.orderId].price)
    ensures ExactAt(Side(Process(b, msg, limits), side), Process(b, msg, limits).orders, side, p)
  {
    var c, m := ChangeOf(b.orders, msg, limits.capacity), Side(b, side);
    assert ExactAt(m, b.orders, side, p);
    SumStore(b.orders, msg.orderId, Rewritten(b.orders, msg, limits.capacity), side, p);
    if c.bid == side && c.price == p {
      AddHere(m, c, limits.depth, b.orders[msg.orderId].price);
    } else {
      AddElsewhere(m, c, side, limits.depth, p);
    }
  }

  /** A positive add keeps an exact book exact if and only if it is refused, or is fresh and fits, or overwrites an
      order alone at the worst price that its own better price pushes out. Any other re-add of a live id overwrites
      the record and leaves the old quantity in its level; any other fresh add makes a full side forget a price. */
  lemma AddExactIff(b: BookState, msg: Message, limits: Limits)
    requires limits.depth > 0 && LivePositive(b.orders) && ExactBook(b) && msg.Add? && msg.quantity > 0
    requires forall bid :: Structural(Side(b, bid), limits.depth)
    ensures ExactBook(Process(b, msg, limits)) <==>
      || !Accepts(b.orders, msg.orderId, limits.capacity)
      || if IsLive(b.orders, msg.orderId) then SelfEvicts(b, msg, limits)
         else Fits(Side(b, msg.side == 'B'), msg.price, limits.depth)
  {
    var b' := Process(b, msg, limits);
    if !Accepts(b.orders, msg.orderId, limits.capacity) {
      assert b'.orders == b.orders && b'.bids == b.bids && b'.asks == b.asks;
      assert forall bid :: Side(b', bid) == Side(b, bid);
    } else if !IsLive(b.orders, msg.orderId) {
      FreshAddExactIff(b, msg, limits);
    } else {
      var r := b.orders[msg.orderId];
      ReAddAtOldPrice(b, msg, limits);
      if SelfEvicts(b, msg, limits) {
        forall side, p ensures ExactAt(Side(b', side), b'.orders, side, p) {
          if !(side == (r.side == 'B') && p == r.price) {
            SelfEvictedIsExact(b, msg, limits, side, p);
          }
        }
      }
    }
  }

  // ----- A forgotten level does not come back -----

  const SHALLOW := Limits(1, 16)
  const FORGETTING: seq<Message> := [Add(1, 0, 1, 'B', 100, 5), Add(2, 0, 2, 'B', 101, 7), Cancel(3, 0, 2, 0)]

  /** On a well-formed feed a one-level side can show nothing while an order rests on it: the top-of-book reading
      of the array is not an invariant once a better level has come and gone. */
  lemma ForgottenLevel()
    ensures Throughout(WELL_FORMED, FORGETTING, SHALLOW.capacity)
    ensures var b := Run(EMPTY_BOOK, FORGETTING, SHALLOW); b.bids == map[] && Resting(b.orders, 1, true, 100)
    ensures Watermark(FORGETTING, SHALLOW, true) == Some(100)
  {
    var b1, b2, b3 := ForgettingRun();
    ForgettingPrefixes();
    assert Throughout(WELL_FORMED, FORGETTING[..0], SHALLOW.capacity);
    assert Throughout(WELL_FORMED, FORGETTING[..1], SHALLOW.capacity);
    assert Throughout(WELL_FORMED, FORGETTING[..2], SHALLOW.capacity);
    ForgettingMarks();
  }

  lemma ForgettingPrefixes()
    ensures FORGETTING[..0] == [] && FORGETTING[..1][..0] == []
    ensures FORGETTING[..2][..1] == FORGETTING[..1] && FORGETTING[..3] == FORGETTING
    ensures Run(EMPTY_BOOK, FORGETTING[..0], SHALLOW) == EMPTY_BOOK
    ensures Run(EMPTY_BOOK, FORGETTING[..1], SHALLOW) == Process(EMPTY_BOOK, FORGETTING[0], SHALLOW)
    ensures Run(EMPTY_BOOK, FORGETTING[..2], SHALLOW) ==
      Process(Run(EMPTY_BOOK, FORGETTING[..1], SHALLOW), FORGETTING[1], SHALLOW)
    ensures Run(EMPTY_BOOK, FORGETTING, SHALLOW) ==
      Process(Run(EMPTY_BOOK, FORGETTING[..2], SHALLOW), FORGETTING[2], SHALLOW)
  {
    RunStep(EMPTY_BOOK, FORGETTING[..0], FORGETTING[0], SHALLOW);
    RunStep(EMPTY_BOOK, FORGETTING[..1], FORGETTING[1], SHALLOW);
    RunStep(EMPTY_BOOK, FORGETTING[..2], FORGETTING[2], SHALLOW);
    assert FORGETTING[..0] + [FORGETTING[0]] == FORGETTING[..1];
    assert FORGETTING[..1] + [FORGETTING[1]] == FORGETTING[..2];
    assert FORGETTING[..2] + [FORGETTING[2]] == FORGETTING;
  }

  lemma ForgettingMarks()
    ensures Watermark(FORGETTING, SHALLOW, true) == Some(100)
  {
    var b1, b2, b3 := ForgettingRun();
    ForgettingPrefixes();
    assert Watermark(FORGETTING[..0], SHALLOW, true) == None;
    assert Watermark(FORGETTING[..1], SHALLOW, true) == None;
    assert Watermark(FORGETTING[..2], SHALLOW, true) == Some(100);
  }

  lemma ForgettingRun() returns (b1: BookState, b2: BookState, b3: BookState)
    ensures var limits := Limits(1, 16);
      && b1 == Process(EMPTY_BOOK, Add(1, 0, 1, 'B', 100, 5), limits)
      && b2 == Process(b1, Add(2, 0, 2, 'B', 101, 7), limits)
      && b3 == Process(b2, Cancel(3, 0, 2, 0), limits)
    ensures !IsLive(b1.orders, 2) && IsLive(b2.orders, 2)
    ensures b1.bids == map[100 := Levels.Aggregate(5, 1)]
    ensures b3.bids == map[] && Resting(b3.orders, 1, true, 100)
    ensures Dropped(EMPTY_BOOK.bids, ChangeOf(EMPTY_BOOK.orders, Add(1, 0, 1, 'B', 100, 5), 16), true, 1) == None
    ensures Dropped(b1.bids, ChangeOf(b1.orders, Add(2, 0, 2, 'B', 101, 7), 16), true, 1) == Some(100)
    ensures Dropped(b2.bids, ChangeOf(b2.orders, Cancel(3, 0, 2, 0), 16), true, 1) == None
  {
    var limits := Limits(1, 16);
    var o1: Orders := map[1 := Order('B', 100, 5, false, 0)];
    var o2: Orders := o1[2 := Order('B', 101, 7, false, 0)];
    b1 := Process(EMPTY_BOOK, Add(1, 0, 1, 'B', 100, 5), limits);
    assert b1.orders == o1;
    b2 := Process(b1, Add(2, 0, 2, 'B', 101, 7), limits);
    assert b2.orders == o2;
    b3 := Process(b2, Cancel(3, 0, 2, 0), limits);
    assert ChangeOf(o2, Cancel(3, 0, 2, 0), 16) == Change(true, 101, -7, -1);
    ShowsOnlyLast();
  }

  lemma ShowsOnlyLast()
    ensures var m1: Ladder := map[100 := Levels.Aggregate(5, 1)];
      var m2: Ladder := map[101 := Levels.Aggregate(7, 1)];
      && Levels.Apply(map[], 100, 5, 1, false, 1) == m1
      && 100 in m1 && Levels.Worst(m1, false) == 100
      && Levels.Apply(m1, 101, 7, 1, false, 1) == m2
      && Levels.Apply(m2, 101, -7, -1, false, 1) == map[]
  {
    var m1: Ladder := map[100 := Levels.Aggregate(5, 1)];
    assert 100 in m1;
    assert Levels.Worst(m1, false) == 100;
  }

  // ----- The crossed book -----

  ghost predicate Uncrossed(b: BookState) {
    forall p, q :: p in b.bids && q in b.asks ==> p < q
  }

  /** The change shows a price that was not shown before. */
  ghost predicate Opens(m: Ladder, c: Change, depth: nat) {
    && c.Change? && c.price !in m && c.qtyDelta > 0
    && (|m| < depth || ((exists p :: p in m) && Levels.Better(c.price, Levels.Worst(m, !c.bid), !c.bid)))
  }

  /** The price meets or passes a shown price of the other side. */
  ghost predicate Reaches(b: BookState, bid: bool, price: int) {
    exists q :: q in Side(b, !bid) && !Levels.Better(price, q, bid)
  }

  lemma OpensIff(m: Ladder, c: Change, depth: nat)
    requires depth > 0 && c.Change?
    ensures var m' := SideAfter(m, c.bid, c, depth);
      && (forall p :: p in m' && p !in m ==> p == c.price)
      && (c.price in m' && c.price !in m <==> Opens(m, c, depth))
  {
  }

  /** Nothing in the book prevents a crossed market: a message keeps an uncrossed book uncrossed if and only if it
      does not open a level at or through the other side. */
  lemma UncrossedIff(b: BookState, msg: Message, limits: Limits)
    requires limits.depth > 0 && Uncrossed(b)
    ensures var c := ChangeOf(b.orders, msg, limits.capacity);
      Uncrossed(Process(b, msg, limits)) <==>
      !(c.Change? && Opens(Side(b, c.bid), c, limits.depth) && Reaches(b, c.bid, c.price))
  {
    var c := ChangeOf(b.orders, msg, limits.capacity);
    var b' := Process(b, msg, limits);
    if c.Change? {
      OpensIff(Side(b, c.bid), c, limits.depth);
      UncrossedSides(b, b', c, limits.depth);
    } else {
      assert b'.bids == b.bids && b'.asks == b.asks;
    }
  }

  lemma UncrossedSides(b: BookState, b': BookState, c: Change, depth: nat)
    requires c.Change? && Uncrossed(b)
    requires Side(b', !c.bid) == Side(b, !c.bid)
    requires forall p :: p in Side(b', c.bid) && p !in Side(b, c.bid) ==> p == c.price
    requires c.price in Side(b', c.bid) && c.price !in Side(b, c.bid) <==> Opens(Side(b, c.bid), c, depth)
    ensures Uncrossed(b') <==> !(Opens(Side(b, c.bid), c, depth) && Reaches(b, c.bid, c.price))
  {
    if Opens(Side(b, c.bid), c, depth) && Reaches(b, c.bid, c.price) {
      var q :| q in Side(b, !c.bid) && !Levels.Better(c.price, q, c.bid);
      assert c.price in Side(b', c.bid) && q in Side(b', !c.bid);
    } else {
      forall p, q | p in b'.bids && q in b'.asks ensures p < q {
        var own, other := if c.bid then p else q, if c.bid then q else p;
        assert own in Side(b', c.bid) && other in Side(b, !c.bid);
        assert own == c.price || own in Side(b, c.bid);
        assert Levels.Better(own, other, c.bid);
      }
    }
  }

  lemma CrossedBook()
    ensures var feed := [Add(1, 0, 1, 'B', 101, 5), Add(2, 0, 2, 'S', 100, 5)];
      Throughout(WELL_FORMED, feed, 16) && !Uncrossed(Run(EMPTY_BOOK, feed, Limits(5, 16)))
  {
    var limits := Limits(5, 16);
    var a1, a2 := Add(1, 0, 1, 'B', 101, 5), Add(2, 0, 2, 'S', 100, 5);
    RunStep(EMPTY_BOOK, [], a1, limits);
    RunStep(EMPTY_BOOK, [a1], a2, limits);
    assert [] + [a1] == [a1] && [a1] + [a2] == [a1, a2];
    assert [a1, a2][..1] == [a1] && [a1][..0] == [];
    RunOrders([a1], limits);
    assert Throughout(WELL_FORMED, [a1], 16);
    var b := Run(EMPTY_BOOK, [a1, a2], limits);
    assert 101 in b.bids && 100 in b.asks;
  }

  // ----- The table's own count -----

  /** Orders that died through the book, which sets their flag without calling erase. */
  ghost function Deaths(msgs: seq<Message>, capacity: nat): nat {
    if msgs == [] then 0
    else
      var n := |msgs| - 1;
      Deaths(msgs[..n], capacity) + if Dies(OrdersRun(msgs[..n], capacity), msgs[n]) then 1 else 0
  }

  /** Accepted adds that brought an id to life. */
  ghost function Births(msgs: seq<Message>, capacity: nat): nat {
    if msgs == [] then 0
    else
      var n := |msgs| - 1;
      var orders := OrdersRun(msgs[..n], capacity);
      var born := msgs[n].Add? && Accepts(orders, msgs[n].orderId, capacity) && !IsLive(orders, msgs[n].orderId);
      Births(msgs[..n], capacity) + if born then 1 else 0
  }

  lemma LiveStep(orders: Orders, msg: Message, capacity: nat)
    ensures var born := msg.Add? && Accepts(orders, msg.orderId, capacity) && !IsLive(orders, msg.orderId);
      |Live(OrdersAfter(orders, msg, capacity))| + (if Dies(orders, msg) then 1 else 0) ==
      |Live(orders)| + if born then 1 else 0
  {
    if ChangeOf(orders, msg, capacity).Change? {
      LiveAfterStore(orders, msg.orderId, Rewritten(orders, msg, capacity));
      assert IsLive(orders, msg.orderId) <==> msg.orderId in Live(orders);
    } else {
      assert OrdersAfter(orders, msg, capacity) == orders;
    }
  }

  /** Live orders are births less deaths. Since the drift of a book's table is its deaths, `size()` there counts
      every order that ever came to life and never goes down. */
  lemma {:induction false} LiveIsBirthsLessDeaths(msgs: seq<Message>, capacity: nat)
    ensures |Live(OrdersRun(msgs, capacity))| + Deaths(msgs, capacity) == Births(msgs, capacity)
  {
    if msgs == [] {
      assert Live(OrdersRun(msgs, capacity)) == {};
    } else {
      var n := |msgs| - 1;
      LiveIsBirthsLessDeaths(msgs[..n], capacity);
      LiveStep(OrdersRun(msgs[..n], capacity), msgs[n], capacity);
    }
  }
}
