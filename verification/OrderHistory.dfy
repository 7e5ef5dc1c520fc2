/** What the messages of a feed mean for one order, told from the messages alone: which ids the table takes in, what an
    order's record is, and what a live order has left. */
module OrderHistories {
  import opened Bits
  import opened Wrappers
  import opened Protocol
  import opened OrderTables
  import opened OrderBooks
  import opened LiveTotals
  import opened BookTheorems

  // ----- Which ids are taken in -----

  /** The ids that adds have named. */
  ghost function AddedIds(msgs: seq<Message>): set<Word> {
    set i | 0 <= i < |msgs| && msgs[i].Add? :: msgs[i].orderId
  }

  lemma AddedMore(msgs: seq<Message>)
    requires msgs != []
    ensures var n := |msgs| - 1;
      AddedIds(msgs) == AddedIds(msgs[..n]) + if msgs[n].Add? then {msgs[n].orderId} else {}
  {
    var n := |msgs| - 1;
    forall id ensures id in AddedIds(msgs) <==> id in AddedIds(msgs[..n]) || (msgs[n].Add? && id == msgs[n].orderId) {
      if id in AddedIds(msgs[..n]) {
        var i :| 0 <= i < n && msgs[..n][i].Add? && msgs[..n][i].orderId == id;
        assert msgs[i].orderId == id;
      }
      if id in AddedIds(msgs) {
        var i :| 0 <= i < |msgs| && msgs[i].Add? && msgs[i].orderId == id;
        assert i == n || msgs[..n][i].orderId == id;
      }
    }
  }

  lemma {:induction false} AddedAreKnown(msgs: seq<Message>, capacity: nat)
    ensures Saturates(OrdersRun(msgs, capacity), AddedIds(msgs), capacity)
  {
    if msgs != [] {
      var before, last := msgs[..|msgs| - 1], msgs[|msgs| - 1];
      var orders := OrdersRun(before, capacity);
      AddedAreKnown(before, capacity);
      AddedMore(msgs);
      if ChangeOf(orders, last, capacity).Change? {
        SaturatesMore(orders, AddedIds(before), last.orderId, Rewritten(orders, last, capacity), capacity);
      }
    } else {
      assert AddedIds(msgs) == {};
    }
  }

  // ----- The record of an id -----

  /** The record a feed leaves for one id: its last accepted add, amended since by the quantities that cancels set and
      by what fills took, until one of them ends the order. An add is accepted if the id is known already, or if
      fewer different ids than slots have been added. */
  ghost function LastRecord(msgs: seq<Message>, capacity: nat, id: Word): Option<Order> {
    if msgs == [] then None
    else
      var before, last := msgs[..|msgs| - 1], msgs[|msgs| - 1];
      var r := LastRecord(before, capacity, id);
      if last.Other? || last.orderId != id then r
      else if last.Add? then
        if r.Some? || |AddedIds(before)| < capacity
        then Some(Order(last.side, last.price, last.quantity, false, last.timestampNs))
        else None
      else if r.None? || r.value.cancelled then r
      else
        var o := r.value;
        if last.Cancel? then Some(Order(o.side, o.price, last.quantity, last.quantity <= 0, o.timestamp))
        else if last.execQuantity < o.quantity then
          Some(Order(o.side, o.price, o.quantity - last.execQuantity, false, o.timestamp))
        else Some(Order(o.side, o.price, 0, true, o.timestamp))
  }

  /** In every run of any messages, what the book holds for an id is its own history, whatever happened to others. */
  lemma {:induction false} RecordIsHistory(msgs: seq<Message>, limits: Limits, id: Word)
    requires limits.depth > 0
    ensures var orders := Run(EMPTY_BOOK, msgs, limits).orders;
      LastRecord(msgs, limits.capacity, id) == if id in orders then Some(orders[id]) else None
  {
    RunOrders(msgs, limits);
    RecordOfRun(msgs, limits.capacity, id);
  }

  lemma {:induction false} RecordOfRun(msgs: seq<Message>, capacity: nat, id: Word)
    ensures var orders := OrdersRun(msgs, capacity);
      LastRecord(msgs, capacity, id) == if id in orders then Some(orders[id]) else None
  {
    if msgs != [] {
      var before := msgs[..|msgs| - 1];
      RecordOfRun(before, capacity, id);
      AddedAreKnown(before, capacity);
      SaturatedIff(OrdersRun(before, capacity), AddedIds(before), capacity);
    }
  }

  // ----- What a live order has left -----

  /** The quantity last set for an id by an add or a cancel, less the fills since. */
  function Outstanding(msgs: seq<Message>, id: Word): int {
    if msgs == [] then 0
    else
      var before, last := Outstanding(msgs[..|msgs| - 1], id), msgs[|msgs| - 1];
      if last.Other? || last.orderId != id then before
      else match last
        case Add(_, _, _, _, _, quantity) => quantity
        case Cancel(_, _, _, quantity) => quantity
        case Execute(_, _, _, execQuantity, _) => before - execQuantity
  }

  /** The last add of an id. */
  function LastAdd(msgs: seq<Message>, id: Word): (r: Option<Message>)
    ensures r.Some? ==> r.value.Add? && r.value in msgs && r.value.orderId == id
  {
    if msgs == [] then None
    else
      var last := msgs[|msgs| - 1];
      if last.Add? && last.orderId == id then Some(last) else LastAdd(msgs[..|msgs| - 1], id)
  }

  /** The live record of an add with so much left. */
  function Placed(add: Message, left: int): Order
    requires add.Add?
  {
    Order(add.side, add.price, left, false, add.timestampNs)
  }

  /** The id has been added, its last add was accepted, and no cancel or fill since has left it nothing. */
  ghost predicate Alive(msgs: seq<Message>, capacity: nat, id: Word) {
    msgs != [] &&
    var before, last := msgs[..|msgs| - 1], msgs[|msgs| - 1];
    if last.Other? || last.orderId != id then Alive(before, capacity, id)
    else if last.Add? then LastRecord(before, capacity, id).Some? || |AddedIds(before)| < capacity
    else Alive(before, capacity, id) && Outstanding(msgs, id) > 0
  }

  lemma {:induction false} AliveRecord(msgs: seq<Message>, capacity: nat, id: Word)
    ensures var r := LastRecord(msgs, capacity, id); var add := LastAdd(msgs, id);
      && (Alive(msgs, capacity, id) <==> r.Some? && !r.value.cancelled)
      && (Alive(msgs, capacity, id) ==> add.Some? && r.value == Placed(add.value, Outstanding(msgs, id)))
  {
    if msgs != [] {
      AliveRecord(msgs[..|msgs| - 1], capacity, id);
    }
  }

  /** In every run of any messages an order is live exactly when no cancel or fill since its last accepted add has left
      it nothing, and then it rests on the side and at the price of that add with the quantity last set for it less
      the fills since. */
  lemma LiveOrderMeaning(msgs: seq<Message>, limits: Limits, id: Word)
    requires limits.depth > 0
    ensures var orders := Run(EMPTY_BOOK, msgs, limits).orders; var add := LastAdd(msgs, id);
      && (IsLive(orders, id) <==> Alive(msgs, limits.capacity, id))
      && (IsLive(orders, id) ==> add.Some? && orders[id] == Placed(add.value, Outstanding(msgs, id)))
  {
    RecordIsHistory(msgs, limits, id);
    AliveRecord(msgs, limits.capacity, id);
  }

  // ----- One message -----

  /** A cancel with a positive quantity sets what is left of a live order: it keeps its side, price and place in the
      count, and the live volume at its price moves by the difference. */
  lemma ReduceSets(b: BookState, seqNo: Word, ts: nat, id: Word, q: int, limits: Limits)
    requires limits.depth > 0 && IsLive(b.orders, id) && q > 0
    ensures var b' := Process(b, Cancel(seqNo, ts, id, q), limits); var o := b.orders[id]; var bid := o.side == 'B';
      && IsLive(b'.orders, id)
      && b'.orders[id] == Order(o.side, o.price, q, false, o.timestamp)
      && (forall other :: other != id ==> (other in b'.orders <==> other in b.orders))
      && (forall other :: other != id && other in b.orders ==> b'.orders[other] == b.orders[other])
      && Sum(b'.orders, bid, o.price).quantity == Sum(b.orders, bid, o.price).quantity + q - o.quantity
      && Sum(b'.orders, bid, o.price).orderCount == Sum(b.orders, bid, o.price).orderCount
  {
    var o := b.orders[id];
    SumStore(b.orders, id, o.(quantity := q, cancelled := false), o.side == 'B', o.price);
  }
}
