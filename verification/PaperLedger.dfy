/** The paper-trading ledger of web/app.js: market buys, sells and flattens against the top of the book. Prices are
    exact reals; the order book rows the dashboard shows are parameters, best first, in ticks. */
module PaperLedgers {
  import Text = Decimals

  datatype Portfolio = Portfolio(initialCash: real, cash: real, position: int, avgEntryPrice: real, realizedPnL: real)

  datatype Outcome = Filled | EmptyBook | InsufficientCash | AlreadyFlat

  function Opening(cash: real): Portfolio {
    Portfolio(cash, cash, 0, 0.0, 0.0)
  }

  function Dollars(ticks: int): real {
    ticks as real / 100.0
  }

  /** A tick is a cent. */
  lemma TicksAreCents(ticks: int)
    ensures Text.Cents(Dollars(ticks)) == ticks
  {
    Text.TickPrice(ticks);
  }

  /** Money for a number of shares at a price. */
  function Value(price: real, shares: int): real {
    price * shares as real
  }

  function Abs(x: int): nat {
    if x < 0 then -x else x
  }

  /** `executeBuyMarket`: extends a long, or covers a short and possibly turns it round. */
  function Buy(p: Portfolio, asks: seq<int>, qty: int): (Portfolio, Outcome)
    requires qty > 0
  {
    if asks == [] then (p, EmptyBook)
    else
      var bestAsk := Dollars(asks[0]);
      var totalCost := Value(bestAsk, qty);
      if p.cash < totalCost then (p, InsufficientCash)
      else
        var newPos := p.position + qty;
        var paid := p.(cash := p.cash - totalCost, position := newPos);
        if p.position >= 0 then
          (paid.(avgEntryPrice := (Value(p.avgEntryPrice, p.position) + totalCost) / newPos as real), Filled)
        else
          var coveredQty := if Abs(p.position) < qty then Abs(p.position) else qty;
          (paid.(realizedPnL := p.realizedPnL + Value(p.avgEntryPrice - bestAsk, coveredQty),
                 avgEntryPrice := if newPos > 0 then bestAsk else if newPos == 0 then 0.0 else p.avgEntryPrice),
           Filled)
  }

  /** `executeSellMarket`: closes a long and possibly turns it round, or extends a short. No credit check. */
  function Sell(p: Portfolio, bids: seq<int>, qty: int): (Portfolio, Outcome)
    requires qty > 0
  {
    if bids == [] then (p, EmptyBook)
    else
      var bestBid := Dollars(bids[0]);
      var totalProceeds := Value(bestBid, qty);
      var newPos := p.position - qty;
      var paid := p.(cash := p.cash + totalProceeds, position := newPos);
      if p.position > 0 then
        var closedQty := if p.position < qty then p.position else qty;
        (paid.(realizedPnL := p.realizedPnL + Value(bestBid - p.avgEntryPrice, closedQty),
               avgEntryPrice := if newPos < 0 then bestBid else if newPos == 0 then 0.0 else p.avgEntryPrice),
         Filled)
      else
        (paid.(avgEntryPrice := (Value(p.avgEntryPrice, Abs(p.position)) + totalProceeds) / Abs(newPos) as real),
         Filled)
  }

  function Flatten(p: Portfolio, bids: seq<int>, asks: seq<int>): (Portfolio, Outcome) {
    if p.position == 0 then (p, AlreadyFlat)
    else if p.position > 0 then Sell(p, bids, p.position)
    else Buy(p, asks, Abs(p.position))
  }

  // ----- Conservation -----

  /** Every dollar is initial cash, realized profit, or tied up in the position at its entry price. */
  ghost predicate Balanced(p: Portfolio) {
    && p.cash == p.initialCash + p.realizedPnL - Value(p.avgEntryPrice, p.position)
    && (p.position == 0 ==> p.avgEntryPrice == 0.0)
  }

  lemma ValueAdds(price: real, a: int, b: int)
    ensures Value(price, a + b) == Value(price, a) + Value(price, b)
    ensures Value(price, -a) == -Value(price, a)
    ensures Value(price, 0) == 0.0
  {
    assert (a + b) as real == a as real + b as real;
    assert (-a) as real == -(a as real);
  }

  lemma ValueOfDifference(x: real, y: real, n: int)
    ensures Value(x - y, n) == Value(x, n) - Value(y, n)
  {
  }

  lemma Averaged(total: real, n: int)
    requires n != 0
    ensures Value(total / n as real, n) == total
  {
  }

  lemma BuyBalances(p: Portfolio, asks: seq<int>, qty: int)
    requires qty > 0 && Balanced(p)
    ensures Balanced(Buy(p, asks, qty).0)
  {
    if asks != [] && p.cash >= Value(Dollars(asks[0]), qty) {
      var ask := Dollars(asks[0]);
      var newPos := p.position + qty;
      ValueAdds(p.avgEntryPrice, p.position, qty);
      if p.position >= 0 {
        Averaged(Value(p.avgEntryPrice, p.position) + Value(ask, qty), newPos);
      } else {
        var covered := if Abs(p.position) < qty then Abs(p.position) else qty;
        ValueOfDifference(p.avgEntryPrice, ask, covered);
        ValueAdds(p.avgEntryPrice, p.position, 0);
        ValueAdds(ask, covered, newPos);
        ValueAdds(0.0, newPos, 0);
      }
    }
  }

  lemma SellBalances(p: Portfolio, bids: seq<int>, qty: int)
    requires qty > 0 && Balanced(p)
    ensures Balanced(Sell(p, bids, qty).0)
  {
    if bids != [] {
      var bid := Dollars(bids[0]);
      var newPos := p.position - qty;
      if p.position > 0 {
        var closed := if p.position < qty then p.position else qty;
        ValueOfDifference(bid, p.avgEntryPrice, closed);
        ValueAdds(p.avgEntryPrice, newPos, qty);
        ValueAdds(bid, closed, -newPos);
        ValueAdds(bid, newPos, 0);
        ValueAdds(0.0, newPos, 0);
      } else {
        var total := Value(p.avgEntryPrice, Abs(p.position)) + Value(bid, qty);
        Averaged(total, Abs(newPos));
        ValueAdds(total / Abs(newPos) as real, newPos, 0);
        ValueAdds(p.avgEntryPrice, p.position, 0);
      }
    }
  }

  // ----- One trade -----

  /** The price and signed size of a trade at the top of the book: buys count up, sells count down. */
  predicate Traded(p: Portfolio, q: Portfolio, price: real, change: int) {
    && q.cash == p.cash - Value(price, change)
    && q.position == p.position + change
    && q.initialCash == p.initialCash
  }

  /** A buy fills exactly when a row is shown and the cash covers it, at the best ask; else nothing moves. */
  lemma BuyFills(p: Portfolio, asks: seq<int>, qty: int)
    requires qty > 0
    ensures var (q, outcome) := Buy(p, asks, qty);
      if asks != [] && p.cash >= Value(Dollars(asks[0]), qty)
      then outcome.Filled? && Traded(p, q, Dollars(asks[0]), qty)
      else !outcome.Filled? && q == p
  {
  }

  /** A sell fills exactly when a row is shown, at the best bid, with or without a position. */
  lemma SellFills(p: Portfolio, bids: seq<int>, qty: int)
    requires qty > 0
    ensures var (q, outcome) := Sell(p, bids, qty);
      if bids != [] then outcome.Filled? && Traded(p, q, Dollars(bids[0]), -qty) else outcome == EmptyBook && q == p
  {
    if bids != [] {
      ValueAdds(Dollars(bids[0]), qty, 0);
    }
  }

  /** The average cost method: extending a position realizes nothing and averages the entry price over the shares;
      reducing one keeps its entry price and realizes the difference on the shares closed; turning one round closes
      all of it and enters the rest at the trade's price. */
  ghost predicate AverageCost(p: Portfolio, q: Portfolio, price: real, change: int) {
    if p.position == 0 || (p.position > 0) == (change > 0) then
      q.realizedPnL == p.realizedPnL
      && Value(q.avgEntryPrice, q.position) == Value(p.avgEntryPrice, p.position) + Value(price, change)
    else if Abs(change) <= Abs(p.position) then
      q.realizedPnL == p.realizedPnL - Value(price - p.avgEntryPrice, change)
      && q.avgEntryPrice == if Abs(change) == Abs(p.position) then 0.0 else p.avgEntryPrice
    else
      q.realizedPnL == p.realizedPnL + Value(price - p.avgEntryPrice, p.position) && q.avgEntryPrice == price
  }

  lemma ValueNegated(x: real, y: real, n: int)
    ensures Value(x - y, -n) == Value(y - x, n)
  {
    ValueAdds(x - y, n, 0);
    ValueOfDifference(x, y, n);
    ValueOfDifference(y, x, n);
  }

  lemma BuyAverages(p: Portfolio, asks: seq<int>, qty: int)
    requires qty > 0 && asks != [] && p.cash >= Value(Dollars(asks[0]), qty)
    ensures AverageCost(p, Buy(p, asks, qty).0, Dollars(asks[0]), qty)
  {
    var ask := Dollars(asks[0]);
    var newPos := p.position + qty;
    if p.position >= 0 {
      Averaged(Value(p.avgEntryPrice, p.position) + Value(ask, qty), newPos);
      ValueAdds(p.avgEntryPrice, 0, 0);
    } else {
      ValueNegated(ask, p.avgEntryPrice, -qty);
      ValueNegated(p.avgEntryPrice, ask, p.position);
      ValueOfDifference(p.avgEntryPrice, ask, qty);
      ValueOfDifference(ask, p.avgEntryPrice, qty);
    }
  }

  lemma SellAverages(p: Portfolio, bids: seq<int>, qty: int)
    requires qty > 0 && bids != []
    ensures AverageCost(p, Sell(p, bids, qty).0, Dollars(bids[0]), -qty)
  {
    var bid := Dollars(bids[0]);
    var newPos := p.position - qty;
    if p.position > 0 {
      ValueNegated(bid, p.avgEntryPrice, qty);
      ValueOfDifference(bid, p.avgEntryPrice, qty);
      ValueOfDifference(p.avgEntryPrice, bid, qty);
    } else {
      var total := Value(p.avgEntryPrice, Abs(p.position)) + Value(bid, qty);
      Averaged(total, Abs(newPos));
      ValueAdds(total / Abs(newPos) as real, newPos, 0);
      ValueAdds(p.avgEntryPrice, p.position, 0);
      ValueAdds(bid, qty, 0);
    }
  }

  // ----- Whole sessions -----

  /** A click, with the book rows shown at that moment. */
  datatype Trade =
    | BuyMarket(asks: seq<int>, qty: int)
    | SellMarket(bids: seq<int>, qty: int)
    | FlattenAll(bids: seq<int>, asks: seq<int>)

  /** The size chips and their default are positive. */
  ghost predicate Sized(t: Trade) {
    t.FlattenAll? || t.qty > 0
  }

  ghost predicate BidNotNegative(t: Trade) {
    t.BuyMarket? || t.bids == [] || t.bids[0] >= 0
  }

  ghost function Execute(p: Portfolio, t: Trade): Portfolio
    requires Sized(t)
  {
    match t
    case BuyMarket(asks, qty) => Buy(p, asks, qty).0
    case SellMarket(bids, qty) => Sell(p, bids, qty).0
    case FlattenAll(bids, asks) => Flatten(p, bids, asks).0
  }

  ghost predicate AllSized(trades: seq<Trade>) {
    forall i :: 0 <= i < |trades| ==> Sized(trades[i])
  }

  ghost function Session(cash: real, trades: seq<Trade>): Portfolio
    requires AllSized(trades)
  {
    if trades == [] then Opening(cash) else Execute(Session(cash, trades[..|trades| - 1]), trades[|trades| - 1])
  }

  lemma ValueNotNegative(price: real, n: int)
    requires price >= 0.0 && n >= 0
    ensures Value(price, n) >= 0.0
  {
  }

  lemma SellAddsCash(p: Portfolio, bids: seq<int>, qty: int)
    requires qty > 0 && (bids != [] ==> bids[0] >= 0)
    ensures Sell(p, bids, qty).0.cash >= p.cash
  {
    if bids != [] {
      ValueNotNegative(Dollars(bids[0]), qty);
    }
  }

  lemma ExecuteBalances(p: Portfolio, t: Trade)
    requires Sized(t) && Balanced(p)
    ensures Balanced(Execute(p, t)) && Execute(p, t).initialCash == p.initialCash
  {
    match t
    case BuyMarket(asks, qty) => BuyBalances(p, asks, qty);
    case SellMarket(bids, qty) => SellBalances(p, bids, qty);
    case FlattenAll(bids, asks) =>
      if p.position > 0 {
        SellBalances(p, bids, p.position);
      } else if p.position < 0 {
        BuyBalances(p, asks, Abs(p.position));
      }
  }

  /** In every session of market buys, sells and flattens, at whatever prices, the ledger balances. */
  lemma {:induction false} LedgerConserves(cash: real, trades: seq<Trade>)
    requires AllSized(trades)
    ensures var p := Session(cash, trades); Balanced(p) && p.initialCash == cash
  {
    if trades == [] {
      ValueAdds(0.0, 0, 0);
    } else {
      LedgerConserves(cash, trades[..|trades| - 1]);
      ExecuteBalances(Session(cash, trades[..|trades| - 1]), trades[|trades| - 1]);
    }
  }

  lemma ExecuteKeepsCash(p: Portfolio, t: Trade)
    requires Sized(t) && BidNotNegative(t) && p.cash >= 0.0
    ensures Execute(p, t).cash >= 0.0
  {
    match t
    case BuyMarket(_, _) =>
    case SellMarket(bids, qty) => SellAddsCash(p, bids, qty);
    case FlattenAll(bids, _) =>
      if p.position > 0 {
        SellAddsCash(p, bids, p.position);
      }
  }

  /** Where bids are not negative, cash never goes negative: a buy that would overdraw is refused. */
  lemma {:induction false} CashNeverNegative(cash: real, trades: seq<Trade>)
    requires cash >= 0.0 && AllSized(trades) && forall i :: 0 <= i < |trades| ==> BidNotNegative(trades[i])
    ensures Session(cash, trades).cash >= 0.0
  {
    if trades != [] {
      CashNeverNegative(cash, trades[..|trades| - 1]);
      ExecuteKeepsCash(Session(cash, trades[..|trades| - 1]), trades[|trades| - 1]);
    }
  }

  // ----- Mark to market -----

  function UnrealizedPnL(p: Portfolio, mid: real): real {
    if p.position > 0 then Value(mid - p.avgEntryPrice, p.position)
    else if p.position < 0 then Value(p.avgEntryPrice - mid, Abs(p.position))
    else 0.0
  }

  /** `totalEquity` as the dashboard computes it: a short position is not marked. */
  function TotalEquity(p: Portfolio, mid: real): real {
    p.cash + if p.position > 0 then Value(mid, p.position) else 0.0
  }

  /** Marked at any mid price, cash plus position is initial cash plus realized plus unrealized profit. */
  lemma MarkToMarket(p: Portfolio, mid: real)
    requires Balanced(p)
    ensures p.cash + Value(mid, p.position) == p.initialCash + p.realizedPnL + UnrealizedPnL(p, mid)
  {
    ValueOfDifference(mid, p.avgEntryPrice, p.position);
    ValueOfDifference(p.avgEntryPrice, mid, Abs(p.position));
    ValueAdds(mid, p.position, 0);
    ValueAdds(p.avgEntryPrice, p.position, 0);
  }

  /** The displayed equity is that sum if and only if the position is not short, or the mid price is zero. */
  lemma EquityShownIff(p: Portfolio, mid: real)
    requires Balanced(p)
    ensures TotalEquity(p, mid) == p.initialCash + p.realizedPnL + UnrealizedPnL(p, mid) <==>
      p.position >= 0 || mid == 0.0
  {
    MarkToMarket(p, mid);
    ValueAdds(mid, 0, 0);
    if p.position < 0 {
      ZeroProduct(mid, p.position);
    }
  }

  lemma ZeroProduct(price: real, n: int)
    requires n != 0
    ensures Value(price, n) == 0.0 <==> price == 0.0
  {
    if Value(price, n) == 0.0 {
      assert price == Value(price, n) / n as real;
    }
  }

  /** A flatten of an open position succeeds exactly when the side it needs has a row and, for a short, the cash
      covers it; it then leaves no position, and cash equal to initial cash plus realized profit. */
  lemma FlattenSettles(p: Portfolio, bids: seq<int>, asks: seq<int>)
    requires Balanced(p) && p.position != 0
    ensures var (q, outcome) := Flatten(p, bids, asks);
      && (outcome.Filled? <==> if p.position > 0 then bids != []
            else asks != [] && p.cash >= Value(Dollars(asks[0]), Abs(p.position)))
      && (outcome.Filled? ==> q.position == 0 && q.cash == q.initialCash + q.realizedPnL)
      && (!outcome.Filled? ==> q == p)
  {
    if p.position > 0 {
      SellBalances(p, bids, p.position);
    } else {
      BuyBalances(p, asks, Abs(p.position));
    }
    ValueAdds(0.0, 0, 0);
  }

  class Desk {
    const initialCash: real
    var cash: real
    var position: int
    var avgEntryPrice: real
    var realizedPnL: real

    ghost function State(): Portfolio
      reads this
    {
      Portfolio(initialCash, cash, position, avgEntryPrice, realizedPnL)
    }

    constructor (initialCash: real)
      ensures State() == Opening(initialCash)
    {
      this.initialCash, this.cash := initialCash, initialCash;
      position, avgEntryPrice, realizedPnL := 0, 0.0, 0.0;
    }

    method ExecuteBuyMarket(asks: seq<int>, qty: int) returns (outcome: Outcome)
      requires qty > 0
      modifies this
      ensures State() == Buy(old(State()), asks, qty).0
      ensures outcome == Buy(old(State()), asks, qty).1
    {
      if |asks| == 0 {
        return EmptyBook;
      }
      var bestAsk := Dollars(asks[0]);
      var totalCost := Value(bestAsk, qty);
      if cash < totalCost {
        return InsufficientCash;
      }
      cash := cash - totalCost;
      var oldPos := position;
      var newPos := oldPos + qty;
      if oldPos >= 0 {
        var totalValue := Value(avgEntryPrice, oldPos) + totalCost;
        avgEntryPrice := totalValue / newPos as real;
      } else {
        var coveredQty := if Abs(oldPos) < qty then Abs(oldPos) else qty;
        var pnl := Value(avgEntryPrice - bestAsk, coveredQty);
        realizedPnL := realizedPnL + pnl;
        if newPos > 0 {
          avgEntryPrice := bestAsk;
        } else if newPos == 0 {
          avgEntryPrice := 0.0;
        }
      }
      position := newPos;
      return Filled;
    }

    method ExecuteSellMarket(bids: seq<int>, qty: int) returns (outcome: Outcome)
      requires qty > 0
      modifies this
      ensures State() == Sell(old(State()), bids, qty).0
      ensures outcome == Sell(old(State()), bids, qty).1
    {
      if |bids| == 0 {
        return EmptyBook;
      }
      var bestBid := Dollars(bids[0]);
      var totalProceeds := Value(bestBid, qty);
      cash := cash + totalProceeds;
      var oldPos := position;
      var newPos := oldPos - qty;
      if oldPos > 0 {
        var closedQty := if oldPos < qty then oldPos else qty;
        var pnl := Value(bestBid - avgEntryPrice, closedQty);
        realizedPnL := realizedPnL + pnl;
        if newPos <= 0 {
          avgEntryPrice := if newPos < 0 then bestBid else 0.0;
        }
      } else {
        var totalValue := Value(avgEntryPrice, Abs(oldPos)) + totalProceeds;
        avgEntryPrice := totalValue / Abs(newPos) as real;
      }
      position := newPos;
      return Filled;
    }

    method FlattenPosition(bids: seq<int>, asks: seq<int>) returns (outcome: Outcome)
      modifies this
      ensures State() == Flatten(old(State()), bids, asks).0
      ensures outcome == Flatten(old(State()), bids, asks).1
    {
      if position == 0 {
        return AlreadyFlat;
      }
      if position > 0 {
        outcome := ExecuteSellMarket(bids, position);
      } else {
        outcome := ExecuteBuyMarket(asks, Abs(position));
      }
    }

    /** A whole session at a desk that has just opened. */
    method Play(trades: seq<Trade>)
      requires State() == Opening(initialCash) && AllSized(trades)
      modifies this
      ensures State() == Session(initialCash, trades)
    {
      for k := 0 to |trades|
        invariant State() == Session(initialCash, trades[..k])
      {
        assert trades[..k + 1][..k] == trades[..k];
        var outcome: Outcome;
        match trades[k]
        case BuyMarket(asks, qty) => outcome := ExecuteBuyMarket(asks, qty);
        case SellMarket(bids, qty) => outcome := ExecuteSellMarket(bids, qty);
        case FlattenAll(bids, asks) => outcome := FlattenPosition(bids, asks);
      }
      assert trades[..|trades|] == trades;
    }
  }
}
