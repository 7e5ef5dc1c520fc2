/** The limit order book (order_book.hpp): messages update the order table, then one price level. */
module OrderBooks {
  import opened Bits
  import opened Wrappers
  import opened Protocol
  import opened OrderTables
  import Levels = PriceLevels

  type Ladder = Levels.Ladder

  /** The template parameters: visible levels per side, and slots of the order table. */
  datatype Limits = Limits(depth: nat, capacity: nat)

  /** Everything a book holds, with each array read as the map it stands for. */
  datatype BookState = BookState(orders: Orders, bids: Ladder, asks: Ladder, totalMessagesProcessed: Word,
                                 expectedSeqNo: Word, sequenceGapsDetected: Word, tradesExecuted: Word)

  const EMPTY_BOOK := BookState(map[], map[], map[], 0, 1, 0, 0)

  /** The level update one message causes, if any. */
  datatype Change = NoChange | Change(bid: bool, price: int, qtyDelta: int, orderDelta: int)

  predicate IsLive(orders: Orders, id: Word) {
    id in orders && !orders[id].cancelled
  }

  /** An insert fails only for an unknown id in a table without a free slot. */
  predicate Accepts(orders: Orders, id: Word, capacity: nat) {
    id in orders || |orders| < capacity
  }

  function Remaining(quantity: int, execQuantity: int): int {
    if quantity > execQuantity then quantity - execQuantity else 0
  }

  function OrdersAfter(orders: Orders, msg: Message, capacity: nat): Orders {
    match msg
    case Add(_, ts, id, side, price, quantity) =>
      if Accepts(orders, id, capacity) then orders[id := Order(side, price, quantity, false, ts)] else orders
    case Cancel(_, _, id, quantity) =>
      if IsLive(orders, id) then orders[id := orders[id].(quantity := quantity, cancelled := quantity <= 0)]
      else orders
    case Execute(_, _, id, execQuantity, _) =>
      if IsLive(orders, id) then
        var left := Remaining(orders[id].quantity, execQuantity);
        orders[id := orders[id].(quantity := left, cancelled := left == 0)]
      else orders
    case Other(_, _) => orders
  }

  /** The execute delta is the raw fill, even where the record is clamped at zero. */
  function ChangeOf(orders: Orders, msg: Message, capacity: nat): Change {
    match msg
    case Add(_, _, id, side, price, quantity) =>
      if Accepts(orders, id, capacity) then Change(side == 'B', price, quantity, 1) else NoChange
    case Cancel(_, _, id, quantity) =>
      if IsLive(orders, id) then
        var o := orders[id];
        Change(o.side == 'B', o.price, quantity - o.quantity, if quantity <= 0 then -1 else 0)
      else NoChange
    case Execute(_, _, id, execQuantity, _) =>
      if IsLive(orders, id) then
        var o := orders[id];
        Change(o.side == 'B', o.price, -execQuantity, if Remaining(o.quantity, execQuantity) == 0 then -1 else 0)
      else NoChange
    case Other(_, _) => NoChange
  }

  /** The message ends the life of an order. */
  predicate Dies(orders: Orders, msg: Message) {
    match msg
    case Cancel(_, _, id, quantity) => IsLive(orders, id) && quantity <= 0
    case Execute(_, _, id, execQuantity, _) => IsLive(orders, id) && Remaining(orders[id].quantity, execQuantity) == 0
    case _ => false
  }

  /** One side after a change: bids descend, asks ascend. */
  ghost function SideAfter(m: Ladder, bid: bool, c: Change, depth: nat): Ladder
    requires depth > 0
  {
    if c.Change? && c.bid == bid then Levels.Apply(m, c.price, c.qtyDelta, c.orderDelta, !bid, depth) else m
  }

  /** The sequence check. A wrapped expectation of zero switches the check off for one message. */
  function Sequenced(b: BookState, seqNo: Word): BookState {
    if b.expectedSeqNo > 0 && seqNo != b.expectedSeqNo then
      b.(sequenceGapsDetected :=
           if seqNo > b.expectedSeqNo then Wrap(b.sequenceGapsDetected + (seqNo - b.expectedSeqNo))
           else b.sequenceGapsDetected,
         expectedSeqNo := Wrap(seqNo + 1))
    else b.(expectedSeqNo := Wrap(b.expectedSeqNo + 1))
  }

  /** The order and level updates of a message, without the counters. */
  ghost function Touched(b: BookState, msg: Message, limits: Limits): BookState
    requires limits.depth > 0
  {
    var c := ChangeOf(b.orders, msg, limits.capacity);
    b.(orders := OrdersAfter(b.orders, msg, limits.capacity),
       bids := SideAfter(b.bids, true, c, limits.depth),
       asks := SideAfter(b.asks, false, c, limits.depth))
  }

  /** What `processMessage` does to the whole state. */
  ghost function Process(b: BookState, msg: Message, limits: Limits): BookState
    requires limits.depth > 0
  {
    Touched(Sequenced(b, msg.seqNo), msg, limits).(
      totalMessagesProcessed := Wrap(b.totalMessagesProcessed + 1),
      tradesExecuted := if msg.Execute? then Wrap(b.tradesExecuted + 1) else b.tradesExecuted)
  }

  /** A whole run of messages. */
  ghost function Run(b: BookState, msgs: seq<Message>, limits: Limits): BookState
    requires limits.depth > 0
  {
    if msgs == [] then b else Process(Run(b, msgs[..|msgs| - 1], limits), msgs[|msgs| - 1], limits)
  }

  lemma RunStep(b: BookState, msgs: seq<Message>, msg: Message, limits: Limits)
    requires limits.depth > 0
    ensures Run(b, msgs + [msg], limits) == Process(Run(b, msgs, limits), msg, limits)
  {
    assert (msgs + [msg])[..|msgs|] == msgs;
  }

  class LimitOrderBook {
    const orderTable: OrderTable
    const bids: array<Levels.PriceLevel>
    const asks: array<Levels.PriceLevel>
    var totalMessagesProcessed: Word
    var expectedSeqNo: Word
    var sequenceGapsDetected: Word
    var tradesExecutedCount: Word

    /** The structural invariant, kept by every message whether or not it makes sense. */
    ghost predicate Valid()
      reads this, orderTable, orderTable.table, bids, asks
    {
      && orderTable.Valid()
      && bids != asks && bids.Length == asks.Length > 0
      && Levels.WellFormed(bids[..], false)
      && Levels.WellFormed(asks[..], true)
    }

    ghost function Bounds(): Limits {
      Limits(bids.Length, orderTable.table.Length)
    }

    ghost function State(): BookState
      reads this, orderTable, orderTable.table, bids, asks
    {
      BookState(orderTable.Map(), Levels.View(bids[..]), Levels.View(asks[..]), totalMessagesProcessed,
                expectedSeqNo, sequenceGapsDetected, tradesExecutedCount)
    }

    constructor (depth: nat, capacity: nat)
      requires depth > 0 && capacity > 0 && IsCapacity(capacity)
      ensures Valid() && State() == EMPTY_BOOK && Bounds() == Limits(depth, capacity)
      ensures fresh(orderTable) && fresh(orderTable.table) && fresh(bids) && fresh(asks)
    {
      orderTable := new OrderTable(capacity);
      bids := new Levels.PriceLevel[depth](_ => Levels.EMPTY_LEVEL);
      asks := new Levels.PriceLevel[depth](_ => Levels.EMPTY_LEVEL);
      totalMessagesProcessed, expectedSeqNo, sequenceGapsDetected, tradesExecutedCount := 0, 1, 0, 0;
      new;
      BlankSide(bids[..], false);
      BlankSide(asks[..], true);
    }

    method Reset()
      requires Valid()
      modifies this, orderTable, orderTable.table, bids, asks
      ensures Valid() && State() == EMPTY_BOOK && orderTable.Drift() == 0
    {
      orderTable.Clear();
      for i := 0 to bids.Length
        invariant forall j :: 0 <= j < i ==> bids[j] == asks[j] == Levels.EMPTY_LEVEL
        invariant orderTable.Valid() && orderTable.Map() == map[] && orderTable.Drift() == 0
      {
        bids[i], asks[i] := Levels.EMPTY_LEVEL, Levels.EMPTY_LEVEL;
      }
      totalMessagesProcessed, expectedSeqNo, sequenceGapsDetected, tradesExecutedCount := 0, 1, 0, 0;
      BlankSide(bids[..], false);
      BlankSide(asks[..], true);
    }

    method ProcessMessage(msg: Message)
      requires Valid()
      modifies this, orderTable, orderTable.table, bids, asks
      ensures Valid() && State() == Process(old(State()), msg, Bounds())
      ensures orderTable.Drift() == old(orderTable.Drift()) + if Dies(old(State()).orders, msg) then 1 else 0
    {
      CheckSequence(msg.seqNo);
      match msg
      case Add(_, _, _, _, _, _) => ProcessAdd(msg);
      case Cancel(_, _, _, _) => ProcessCancel(msg);
      case Execute(_, _, _, _, _) => ProcessExecute(msg);
      case Other(_, _) =>
    }

    method CheckSequence(seqNo: Word)
      modifies this
      ensures State() == Sequenced(old(State()), seqNo).(
        totalMessagesProcessed := Wrap(old(totalMessagesProcessed) + 1))
    {
      totalMessagesProcessed := Wrap(totalMessagesProcessed + 1);
      if expectedSeqNo > 0 && seqNo != expectedSeqNo {
        if seqNo > expectedSeqNo {
          sequenceGapsDetected := Wrap(sequenceGapsDetected + (seqNo - expectedSeqNo));
        }
        expectedSeqNo := Wrap(seqNo + 1);
      } else {
        expectedSeqNo := Wrap(expectedSeqNo + 1);
      }
    }

    method ProcessAdd(msg: Message)
      requires Valid() && msg.Add?
      modifies orderTable, orderTable.table, bids, asks
      ensures Valid() && State() == Touched(old(State()), msg, Bounds())
      ensures orderTable.Drift() == old(orderTable.Drift()) + if Dies(old(State()).orders, msg) then 1 else 0
    {
      TableBound(orderTable);
      var rec := orderTable.Insert(msg.orderId, msg.side, msg.price, msg.quantity, msg.timestampNs);
      if rec.None? {
        return;
      }
      ApplyChange(msg.side == 'B', msg.price, msg.quantity, 1);
    }

    /** The common head of cancel and execute: the slot of a live order, null for unknown ids and tombstones. */
    method FindLive(orderId: Word) returns (slot: Option<nat>)
      requires Valid()
      ensures slot.Some? <==> IsLive(State().orders, orderId)
      ensures slot.Some? ==> Behind(slot.value, orderId)
    {
      slot := orderTable.Lookup(orderId);
      if slot.Some? && orderTable.table[slot.value].cancelled {
        slot := None;
      }
    }

    /** The slot holds the record of an order. */
    ghost predicate Behind(slot: nat, orderId: Word)
      reads this, orderTable, orderTable.table, bids, asks
    {
      && slot < orderTable.table.Length
      && orderTable.table[slot].occupied && orderTable.table[slot].orderId == orderId
      && orderId in State().orders && State().orders[orderId] == Stored(orderTable.table[slot])
    }

    method ProcessCancel(msg: Message)
      requires Valid() && msg.Cancel?
      modifies orderTable, orderTable.table, bids, asks
      ensures Valid() && State() == Touched(old(State()), msg, Bounds())
      ensures orderTable.Drift() == old(orderTable.Drift()) + if Dies(old(State()).orders, msg) then 1 else 0
    {
      var rec := FindLive(msg.orderId);
      if rec.None? {
        return;
      }
      var qtyDelta := msg.quantity - orderTable.table[rec.value].quantity;
      var orderDelta := if msg.quantity <= 0 then -1 else 0;
      AmendRecord(msg.orderId, rec.value, qtyDelta, orderDelta, msg.quantity, msg.quantity <= 0);
    }

    method ProcessExecute(msg: Message)
      requires Valid() && msg.Execute?
      modifies this`tradesExecutedCount, orderTable, orderTable.table, bids, asks
      ensures Valid()
      ensures State() == Touched(old(State()), msg, Bounds()).(tradesExecuted := Wrap(old(tradesExecutedCount) + 1))
      ensures orderTable.Drift() == old(orderTable.Drift()) + if Dies(old(State()).orders, msg) then 1 else 0
    {
      tradesExecutedCount := Wrap(tradesExecutedCount + 1);
      Fill(msg);
    }

    /** `processExecute` after the trade is counted. */
    method Fill(msg: Message)
      requires Valid() && msg.Execute?
      modifies orderTable, orderTable.table, bids, asks
      ensures Valid() && State() == Touched(old(State()), msg, Bounds())
      ensures orderTable.Drift() == old(orderTable.Drift()) + if Dies(old(State()).orders, msg) then 1 else 0
    {
      var rec := FindLive(msg.orderId);
      if rec.None? {
        return;
      }
      var newQty := Remaining(orderTable.table[rec.value].quantity, msg.execQuantity);
      AmendRecord(msg.orderId, rec.value, -msg.execQuantity, if newQty == 0 then -1 else 0, newQty, newQty == 0);
    }

    /** The common tail of cancel and execute: first the level, then the record behind the pointer. */
    method AmendRecord(ghost orderId: Word, slot: nat, qtyDelta: int, orderDelta: int, quantity: int, cancelled: bool)
      requires Valid() && IsLive(State().orders, orderId) && Behind(slot, orderId)
      modifies orderTable, orderTable.table, bids, asks
      ensures Valid()
      ensures var b := old(State()); var o := b.orders[orderId];
        var c := Change(o.side == 'B', o.price, qtyDelta, orderDelta);
        State() == b.(orders := b.orders[orderId := o.(quantity := quantity, cancelled := cancelled)],
                      bids := SideAfter(b.bids, true, c, bids.Length),
                      asks := SideAfter(b.asks, false, c, bids.Length))
      ensures orderTable.Drift() == old(orderTable.Drift()) + if cancelled then 1 else 0
    {
      ApplyChange(orderTable.table[slot].side == 'B', orderTable.table[slot].price, qtyDelta, orderDelta);
      orderTable.Edit(slot, quantity, cancelled);
    }

    /** The choice of side made at the end of each handler. */
    method ApplyChange(bid: bool, price: int, qtyDelta: int, orderDelta: int)
      requires Valid()
      modifies bids, asks
      ensures Valid()
      ensures State() == old(State()).(
        bids := SideAfter(old(State()).bids, true, Change(bid, price, qtyDelta, orderDelta), bids.Length),
        asks := SideAfter(old(State()).asks, false, Change(bid, price, qtyDelta, orderDelta), bids.Length))
    {
      if bid {
        Levels.ApplyDelta(bids, price, qtyDelta, orderDelta, false);
      } else {
        Levels.ApplyDelta(asks, price, qtyDelta, orderDelta, true);
      }
    }

    /** The best bid, or zero on an empty side: no shown bid is higher. */
    method BestBidPrice() returns (p: int)
      requires Valid()
      ensures State().bids == map[] ==> p == 0
      ensures State().bids != map[] ==> p in State().bids && forall q :: q in State().bids ==> q <= p
    {
      p := if bids[0].active then bids[0].price else 0;
      TopIsBest(bids[..], false);
    }

    /** The best ask, or zero on an empty side: no shown ask is lower. */
    method BestAskPrice() returns (p: int)
      requires Valid()
      ensures State().asks == map[] ==> p == 0
      ensures State().asks != map[] ==> p in State().asks && forall q :: q in State().asks ==> p <= q
    {
      p := if asks[0].active then asks[0].price else 0;
      TopIsBest(asks[..], true);
    }
  }

  lemma TableBound(t: OrderTable)
    requires t.Valid()
    ensures |t.Map()| <= t.table.Length
  {
    ContentsSize(t.table[..]);
  }

  lemma BlankSide(s: seq<Levels.PriceLevel>, ascending: bool)
    requires forall i :: 0 <= i < |s| ==> s[i] == Levels.EMPTY_LEVEL
    ensures Levels.WellFormed(s, ascending) && Levels.View(s) == map[]
  {
    Levels.ShownIsView(s, map[], ascending);
  }

  /** Slot zero is the top of the book. */
  lemma TopIsBest(s: seq<Levels.PriceLevel>, ascending: bool)
    requires s != [] && Levels.WellFormed(s, ascending)
    ensures s[0].active <==> Levels.View(s) != map[]
    ensures s[0].active ==> s[0].price in Levels.View(s)
    ensures forall q :: q in Levels.View(s) ==> q == s[0].price || Levels.Better(s[0].price, q, ascending)
  {
    Levels.ViewShows(s, ascending);
    forall q | q in Levels.View(s) ensures s[0].active && (q == s[0].price || Levels.Better(s[0].price, q, ascending)) {
      var i :| Levels.At(s, i, q);
    }
  }
}
