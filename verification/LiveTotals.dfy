/** The simple model the book is measured against: sums over the live records of the order table. */
module LiveTotals {
  import opened Bits
  import opened Protocol
  import opened OrderTables
  import opened OrderBooks
  import Levels = PriceLevels

  type Aggregate = Levels.Aggregate

  const NOTHING := Levels.Aggregate(0, 0)

  predicate AtMost(a: Aggregate, b: Aggregate) {
    a.quantity <= b.quantity && a.orderCount <= b.orderCount
  }

  /** A live record resting on one side at one price. */
  predicate RestsAt(o: Order, bid: bool, price: int) {
    !o.cancelled && (o.side == 'B') == bid && o.price == price
  }

  /** The two things summed at a price. */
  datatype Measure = Volume | Number

  function Weight(o: Order, bid: bool, price: int, of: Measure): int {
    if !RestsAt(o, bid, price) then 0 else if of.Volume? then o.quantity else 1
  }

  function WeightIn(orders: Orders, id: Word, bid: bool, price: int, of: Measure): int {
    if id in orders then Weight(orders[id], bid, price, of) else 0
  }

  ghost function Pick(orders: Orders): (id: Word)
    requires exists id :: id in orders
    ensures id in orders
  {
    var id :| id in orders;
    id
  }

  ghost function Accumulated(orders: Orders, bid: bool, price: int, of: Measure): int
    decreases |orders|
  {
    if exists id :: id in orders then
      var id := Pick(orders);
      Weight(orders[id], bid, price, of) + Accumulated(orders - {id}, bid, price, of)
    else 0
  }

  /** Total quantity and number of the live records at a price. */
  ghost function Sum(orders: Orders, bid: bool, price: int): Aggregate {
    Levels.Aggregate(Accumulated(orders, bid, price, Volume), Accumulated(orders, bid, price, Number))
  }

  lemma {:induction false} AccumulatedRemove(orders: Orders, id: Word, bid: bool, price: int, of: Measure)
    requires id in orders
    ensures Accumulated(orders, bid, price, of) ==
      Weight(orders[id], bid, price, of) + Accumulated(orders - {id}, bid, price, of)
    decreases |orders|
  {
    var x := Pick(orders);
    if x != id {
      var without := orders - {x} - {id};
      AccumulatedRemove(orders - {x}, id, bid, price, of);
      AccumulatedRemove(orders - {id}, x, bid, price, of);
      assert orders - {id} - {x} == without;
    }
  }

  lemma AccumulatedStore(orders: Orders, id: Word, o: Order, bid: bool, price: int, of: Measure)
    ensures Accumulated(orders[id := o], bid, price, of) ==
      Accumulated(orders, bid, price, of) + Weight(o, bid, price, of)
      - WeightIn(orders, id, bid, price, of)
  {
    var after := orders[id := o];
    AccumulatedRemove(after, id, bid, price, of);
    assert after - {id} == orders - {id};
    if id in orders {
      AccumulatedRemove(orders, id, bid, price, of);
    } else {
      assert orders - {id} == orders;
    }
  }

  // ----- Sums of positive records -----

  ghost predicate LivePositive(orders: Orders) {
    forall id :: id in orders && !orders[id].cancelled ==> orders[id].quantity > 0
  }

  ghost predicate Resting(orders: Orders, id: Word, bid: bool, price: int) {
    id in orders && RestsAt(orders[id], bid, price)
  }

  lemma {:induction false} SumSigns(orders: Orders, bid: bool, price: int)
    requires LivePositive(orders)
    ensures 0 <= Sum(orders, bid, price).orderCount <= Sum(orders, bid, price).quantity
    decreases |orders|
  {
    if exists id :: id in orders {
      SumSigns(orders - {Pick(orders)}, bid, price);
    }
  }

  lemma {:induction false} RestingWitness(orders: Orders, bid: bool, price: int, of: Measure) returns (id: Word)
    requires Accumulated(orders, bid, price, of) != 0
    ensures Resting(orders, id, bid, price)
    decreases |orders|
  {
    id := Pick(orders);
    if !RestsAt(orders[id], bid, price) {
      id := RestingWitness(orders - {id}, bid, price, of);
    }
  }

  lemma SumAtLeast(orders: Orders, id: Word, bid: bool, price: int)
    requires LivePositive(orders) && Resting(orders, id, bid, price)
    ensures AtMost(Levels.Aggregate(orders[id].quantity, 1), Sum(orders, bid, price))
  {
    AccumulatedRemove(orders, id, bid, price, Volume);
    AccumulatedRemove(orders, id, bid, price, Number);
    SumSigns(orders - {id}, bid, price);
  }

  /** A sum is positive exactly where some live record rests, and then in both components. */
  lemma SumBounds(orders: Orders, bid: bool, price: int)
    requires LivePositive(orders)
    ensures 0 <= Sum(orders, bid, price).orderCount <= Sum(orders, bid, price).quantity
    ensures Sum(orders, bid, price) != NOTHING <==> exists id :: Resting(orders, id, bid, price)
    ensures Sum(orders, bid, price).orderCount > 0 <==> exists id :: Resting(orders, id, bid, price)
  {
    SumSigns(orders, bid, price);
    if exists id :: Resting(orders, id, bid, price) {
      var id :| Resting(orders, id, bid, price);
      SumAtLeast(orders, id, bid, price);
    } else if Sum(orders, bid, price).quantity != 0 {
      var id := RestingWitness(orders, bid, price, Volume);
    }
  }

  ghost function RestingIds(orders: Orders, bid: bool, price: int): set<Word> {
    set id | id in orders && RestsAt(orders[id], bid, price)
  }

  /** The second component of a sum is the number of records resting there. */
  lemma {:induction false} CountIsCardinality(orders: Orders, bid: bool, price: int)
    ensures Accumulated(orders, bid, price, Number) == |RestingIds(orders, bid, price)|
    decreases |orders|
  {
    if exists id :: id in orders {
      var x := Pick(orders);
      var rest := orders - {x};
      CountIsCardinality(rest, bid, price);
      if RestsAt(orders[x], bid, price) {
        assert RestingIds(orders, bid, price) == RestingIds(rest, bid, price) + {x};
      } else {
        assert RestingIds(orders, bid, price) == RestingIds(rest, bid, price);
      }
    } else {
      assert RestingIds(orders, bid, price) == {};
    }
  }

  // ----- How one message moves the sums -----

  /** An 'A' has positive quantity and an id that is not live; an 'X' leaves a non-negative quantity; an 'E' fills at
      most what remains (a negative fill grows the order, in the record and in its level alike). Messages to unknown
      or dead ids are free. */
  ghost predicate WellFormedMessage(orders: Orders, msg: Message) {
    match msg
    case Add(_, _, id, _, _, quantity) => quantity > 0 && !IsLive(orders, id)
    case Cancel(_, _, id, quantity) => IsLive(orders, id) ==> quantity >= 0
    case Execute(_, _, id, execQuantity, _) => IsLive(orders, id) ==> execQuantity <= orders[id].quantity
    case Other(_, _) => true
  }

  /** Only adds are constrained: cancels and fills may be as wild as they like. */
  ghost predicate GentleMessage(orders: Orders, msg: Message) {
    msg.Add? ==> msg.quantity > 0 && !IsLive(orders, msg.orderId)
  }

  /** What a change adds at a price. */
  function DeltaOf(c: Change, bid: bool, price: int, of: Measure): int {
    if c.Change? && c.bid == bid && c.price == price then (if of.Volume? then c.qtyDelta else c.orderDelta) else 0
  }

  lemma PositiveKept(orders: Orders, msg: Message, capacity: nat)
    requires LivePositive(orders)
    requires msg.Add? ==> msg.quantity > 0
    ensures LivePositive(OrdersAfter(orders, msg, capacity))
  {
  }

  /** The record a message leaves behind for its id, when it touches one. */
  ghost function Rewritten(orders: Orders, msg: Message, capacity: nat): (o: Order)
    requires ChangeOf(orders, msg, capacity).Change?
    ensures OrdersAfter(orders, msg, capacity) == orders[msg.orderId := o]
  {
    OrdersAfter(orders, msg, capacity)[msg.orderId]
  }

  lemma ExactWeight(orders: Orders, msg: Message, capacity: nat, bid: bool, price: int, of: Measure)
    requires WellFormedMessage(orders, msg) && ChangeOf(orders, msg, capacity).Change?
    ensures Weight(Rewritten(orders, msg, capacity), bid, price, of) ==
      WeightIn(orders, msg.orderId, bid, price, of) + DeltaOf(ChangeOf(orders, msg, capacity), bid, price, of)
  {
  }

  /** `b` is `a` moved by a change. */
  ghost predicate Moved(a: Aggregate, b: Aggregate, c: Change, bid: bool, price: int) {
    && b.quantity == a.quantity + DeltaOf(c, bid, price, Volume)
    && b.orderCount == a.orderCount + DeltaOf(c, bid, price, Number)
  }

  /** `b` is at least `a` moved by a change. */
  ghost predicate MovedAtLeast(a: Aggregate, b: Aggregate, c: Change, bid: bool, price: int) {
    && b.quantity >= a.quantity + DeltaOf(c, bid, price, Volume)
    && b.orderCount >= a.orderCount + DeltaOf(c, bid, price, Number)
  }

  /** On a well-formed feed the level delta is exactly the movement of the live sum. */
  lemma ExactShift(orders: Orders, msg: Message, capacity: nat, bid: bool, price: int)
    requires WellFormedMessage(orders, msg)
    ensures Moved(Sum(orders, bid, price), Sum(OrdersAfter(orders, msg, capacity), bid, price),
                  ChangeOf(orders, msg, capacity), bid, price)
  {
    if ChangeOf(orders, msg, capacity).Change? {
      SumStore(orders, msg.orderId, Rewritten(orders, msg, capacity), bid, price);
      ExactWeight(orders, msg, capacity, bid, price, Volume);
      ExactWeight(orders, msg, capacity, bid, price, Number);
    } else {
      assert OrdersAfter(orders, msg, capacity) == orders;
    }
  }

  lemma GentleWeight(orders: Orders, msg: Message, capacity: nat, bid: bool, price: int, of: Measure)
    requires LivePositive(orders) && GentleMessage(orders, msg) && ChangeOf(orders, msg, capacity).Change?
    ensures Weight(Rewritten(orders, msg, capacity), bid, price, of) >=
      WeightIn(orders, msg.orderId, bid, price, of) + DeltaOf(ChangeOf(orders, msg, capacity), bid, price, of)
  {
  }

  /** Otherwise the level delta never exceeds that movement. */
  lemma GentleShift(orders: Orders, msg: Message, capacity: nat, bid: bool, price: int)
    requires LivePositive(orders) && GentleMessage(orders, msg)
    ensures MovedAtLeast(Sum(orders, bid, price), Sum(OrdersAfter(orders, msg, capacity), bid, price),
                         ChangeOf(orders, msg, capacity), bid, price)
  {
    if ChangeOf(orders, msg, capacity).Change? {
      SumStore(orders, msg.orderId, Rewritten(orders, msg, capacity), bid, price);
      GentleWeight(orders, msg, capacity, bid, price, Volume);
      GentleWeight(orders, msg, capacity, bid, price, Number);
    } else {
      assert OrdersAfter(orders, msg, capacity) == orders;
    }
  }

  lemma SumStore(orders: Orders, id: Word, o: Order, bid: bool, price: int)
    ensures var s, t := Sum(orders, bid, price), Sum(orders[id := o], bid, price);
      && t.quantity == s.quantity + Weight(o, bid, price, Volume)
         - WeightIn(orders, id, bid, price, Volume)
      && t.orderCount == s.orderCount + Weight(o, bid, price, Number)
         - WeightIn(orders, id, bid, price, Number)
  {
    AccumulatedStore(orders, id, o, bid, price, Volume);
    AccumulatedStore(orders, id, o, bid, price, Number);
  }

  /** Where volume arrives, a live record stands behind it afterwards. */
  lemma ArrivalIsBacked(orders: Orders, msg: Message, capacity: nat)
    requires LivePositive(orders) && GentleMessage(orders, msg)
    requires ChangeOf(orders, msg, capacity).Change? && ChangeOf(orders, msg, capacity).qtyDelta > 0
    ensures var c := ChangeOf(orders, msg, capacity);
      && c.orderDelta >= 0
      && AtMost(Levels.Opened(c.qtyDelta, c.orderDelta), Sum(OrdersAfter(orders, msg, capacity), c.bid, c.price))
      && (msg.Cancel? ==> Sum(orders, c.bid, c.price).orderCount >= 1)
  {
    var c := ChangeOf(orders, msg, capacity);
    PositiveKept(orders, msg, capacity);
    SumAtLeast(OrdersAfter(orders, msg, capacity), msg.orderId, c.bid, c.price);
    if msg.Cancel? {
      SumAtLeast(orders, msg.orderId, c.bid, c.price);
    }
  }
}
