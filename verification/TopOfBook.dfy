/** When the shown array is the true top of the book: a certificate over runs, and the exact step that loses it. */
module TopOfBook {
  import opened Wrappers
  import opened Protocol
  import opened OrderTables
  import opened OrderBooks
  import opened LiveTotals
  import opened BookTheorems
  import Levels = PriceLevels

  // ----- The reference: every live price, unbounded, then cut at depth -----

  ghost function LivePrices(orders: Orders, bid: bool): set<int> {
    set id | id in orders && RestsAt(orders[id], bid, orders[id].price) :: orders[id].price
  }

  lemma LivePricesMeaning(orders: Orders, bid: bool, p: int)
    ensures p in LivePrices(orders, bid) <==> exists id :: Resting(orders, id, bid, p)
  {
    if p in LivePrices(orders, bid) {
      var id :| id in orders && RestsAt(orders[id], bid, orders[id].price) && orders[id].price == p;
      assert Resting(orders, id, bid, p);
    }
    if exists id :: Resting(orders, id, bid, p) {
      var id :| Resting(orders, id, bid, p);
      assert orders[id].price in LivePrices(orders, bid);
    }
  }

  /** The full per-price aggregate of the live orders. */
  ghost function Full(orders: Orders, bid: bool): Ladder {
    map p | p in LivePrices(orders, bid) :: Sum(orders, bid, p)
  }

  ghost function Ahead(f: Ladder, p: int, ascending: bool): set<int> {
    set q | q in f && Levels.Better(q, p, ascending)
  }

  /** The best `depth` prices of a ladder. */
  ghost function TopN(f: Ladder, depth: nat, ascending: bool): Ladder {
    map p | p in f && |Ahead(f, p, ascending)| < depth :: f[p]
  }

  lemma SubsetSize(a: set<int>, b: set<int>)
    requires a <= b
    ensures |a| <= |b|
  {
    assert b == a + (b - a);
  }

  lemma RankBelowDepth(m: Ladder, f: Ladder, p: int, depth: nat, ascending: bool)
    requires p in m && |m| <= depth && Ahead(f, p, ascending) <= m.Keys
    ensures |Ahead(f, p, ascending)| < depth
  {
    var a := Ahead(f, p, ascending);
    SubsetSize(a, m.Keys - {p});
    assert |m.Keys| == |m|;
  }

  lemma RankBeyondDepth(m: Ladder, f: Ladder, p: int, depth: nat, ascending: bool)
    requires |m| >= depth && m.Keys <= Ahead(f, p, ascending)
    ensures |Ahead(f, p, ascending)| >= depth
  {
    SubsetSize(m.Keys, Ahead(f, p, ascending));
    assert |m.Keys| == |m|;
  }

  // ----- The top of a ladder, said without ranks -----

  function Least(a: nat, b: nat): nat {
    if a <= b then a else b
  }

  /** True values, unshown prices behind every shown one, as many prices as fit. */
  ghost predicate IsTop(m: Ladder, f: Ladder, depth: nat, ascending: bool) {
    && (forall p :: p in m ==> p in f && m[p] == f[p])
    && (forall p, q :: p in f && p !in m && q in m ==> Levels.Better(q, p, ascending))
    && |m| == Least(depth, |f|)
  }

  lemma SameKeys(m: Ladder, f: Ladder)
    requires |m| == |f| && m.Keys <= f.Keys
    ensures m.Keys == f.Keys
  {
    assert f.Keys == m.Keys + (f.Keys - m.Keys);
    assert |m.Keys| == |m| && |f.Keys| == |f|;
  }

  lemma TopKeys(m: Ladder, f: Ladder, depth: nat, p: int, ascending: bool)
    requires IsTop(m, f, depth, ascending) && p in f
    ensures p in m <==> |Ahead(f, p, ascending)| < depth
  {
    forall q | q in m.Keys ensures q in f.Keys {
      assert q in m;
    }
    if p in m {
      forall q | q in Ahead(f, p, ascending) ensures q in m.Keys {
      }
      RankBelowDepth(m, f, p, depth, ascending);
    } else {
      if |m| == |f| {
        SameKeys(m, f);
      }
      forall q | q in m.Keys ensures q in Ahead(f, p, ascending) {
        assert q in m;
      }
      RankBeyondDepth(m, f, p, depth, ascending);
    }
  }

  lemma TopIsTopN(m: Ladder, f: Ladder, depth: nat, ascending: bool)
    requires IsTop(m, f, depth, ascending)
    ensures m == TopN(f, depth, ascending)
  {
    forall p
      ensures p in m <==> p in TopN(f, depth, ascending)
      ensures p in m ==> m[p] == TopN(f, depth, ascending)[p]
    {
      if p in f {
        TopKeys(m, f, depth, p, ascending);
      }
    }
  }

  // ----- The certificate -----

  /** The watermark certificate: nothing was dropped, or the array is full and wholly above the mark. */
  ghost predicate Certified(m: Ladder, mark: Option<int>, bid: bool, depth: nat) {
    mark.None? || (|m| >= depth && forall p :: p in m ==> Above(p, mark, bid))
  }

  /** Where the array is exact on all of its own territory, the certificate makes it the top. */
  lemma CertifiedIsTop(m: Ladder, f: Ladder, mark: Option<int>, bid: bool, depth: nat)
    requires Structural(m, depth) && Certified(m, mark, bid, depth)
    requires forall p :: Above(p, mark, bid) ==> (p in m <==> p in f) && (p in m ==> m[p] == f[p])
    ensures IsTop(m, f, depth, !bid)
  {
    forall p | p in m.Keys ensures p in f.Keys {
      assert p in m && Above(p, mark, bid);
    }
    SubsetSize(m.Keys, f.Keys);
    assert |m.Keys| == |m| && |f.Keys| == |f|;
    if mark.None? {
      forall p ensures p in m.Keys <==> p in f.Keys {
        assert Above(p, mark, bid);
      }
      assert m.Keys == f.Keys;
    }
  }

  lemma CertificateMeansTop(m: Ladder, orders: Orders, mark: Option<int>, bid: bool, depth: nat)
    requires LivePositive(orders) && Structural(m, depth) && Certified(m, mark, bid, depth)
    requires forall p :: Above(p, mark, bid) ==> ExactAt(m, orders, bid, p)
    ensures m == TopN(Full(orders, bid), depth, !bid)
  {
    var f := Full(orders, bid);
    forall p ensures Above(p, mark, bid) ==> (p in m <==> p in f) && (p in m ==> m[p] == f[p]) {
      SumBounds(orders, bid, p);
      LivePricesMeaning(orders, bid, p);
    }
    CertifiedIsTop(m, f, mark, bid, depth);
    TopIsTopN(m, f, depth, !bid);
  }

  /** On any well-formed feed, cancels and fills included: while a side has dropped nothing, or is full of
      prices better than anything it ever dropped, it is exactly the true top of the book. */
  lemma CertifiedTop(msgs: seq<Message>, b: BookState, limits: Limits, bid: bool)
    requires limits.depth > 0 && b == Run(EMPTY_BOOK, msgs, limits) && Throughout(WELL_FORMED, msgs, limits.capacity)
    requires Certified(Side(b, bid), Watermark(msgs, limits, bid), bid, limits.depth)
    ensures Side(b, bid) == TopN(Full(b.orders, bid), limits.depth, !bid)
  {
    PositiveRun(msgs, limits);
    StructuralRun(msgs, limits, bid);
    var mark := Watermark(msgs, limits, bid);
    forall p | Above(p, mark, bid) ensures ExactAt(Side(b, bid), b.orders, bid, p) {
      ExactRun(msgs, limits, bid, p);
    }
    CertificateMeansTop(Side(b, bid), b.orders, mark, bid, limits.depth);
  }

  // ----- Adds only -----

  ghost predicate FreshAdd(orders: Orders, msg: Message) {
    msg.Add? && msg.quantity > 0 && !IsLive(orders, msg.orderId)
  }

  ghost const FRESH_ADDS := (orders: Orders, msg: Message) => FreshAdd(orders, msg)

  /** On a full side the arrival or the worst shown price is dropped, behind everything then shown. */
  lemma FullArrival(m: Ladder, c: Change, depth: nat, mark: Option<int>, w: int)
    requires depth > 0 && |m| == depth && c.Change? && Certified(m, mark, c.bid, depth)
    requires c.price !in m && c.qtyDelta > 0 && w in m && w == Levels.Worst(m, !c.bid)
    ensures Certified(SideAfter(m, c.bid, c, depth), BestOf(mark, Dropped(m, c, c.bid, depth), c.bid), c.bid, depth)
  {
    var m' := SideAfter(m, c.bid, c, depth);
    var gone := if Levels.Better(c.price, w, !c.bid) then w else c.price;
    assert Dropped(m, c, c.bid, depth) == Some(gone);
    SizeAfterRemove(m, w);
    SizeAfterStore(m - {w}, c.price, Levels.Opened(c.qtyDelta, c.orderDelta));
    assert |m'| == depth;
    forall p | p in m' ensures Levels.Better(p, gone, !c.bid) && Above(p, mark, c.bid) {
      assert p in m.Keys || p == c.price;
      assert Above(w, mark, c.bid);
    }
  }

  /** An arrival never un-certifies a side: what it drops is behind everything it shows. */
  lemma CertificateKept(m: Ladder, c: Change, bid: bool, depth: nat, mark: Option<int>)
    requires depth > 0 && Structural(m, depth) && Certified(m, mark, bid, depth)
    requires c.Change? ==> c.qtyDelta > 0 && c.orderDelta > 0
    ensures Certified(SideAfter(m, bid, c, depth), BestOf(mark, Dropped(m, c, bid, depth), bid), bid, depth)
  {
    if c.Change? && c.bid == bid {
      if c.price in m {
        SizeAfterStore(m, c.price,
          Levels.Aggregate(m[c.price].quantity + c.qtyDelta, m[c.price].orderCount + c.orderDelta));
      } else if |m| >= depth {
        NonEmptyLadder(m);
        FullArrival(m, c, depth, mark, Levels.Worst(m, !bid));
      }
    }
  }

  lemma {:induction false} AddsCertify(msgs: seq<Message>, limits: Limits, bid: bool)
    requires limits.depth > 0 && Throughout(FRESH_ADDS, msgs, limits.capacity)
    ensures Certified(Side(Run(EMPTY_BOOK, msgs, limits), bid), Watermark(msgs, limits, bid), bid, limits.depth)
  {
    if msgs != [] {
      var n := |msgs| - 1;
      var a := Run(EMPTY_BOOK, msgs[..n], limits);
      RunOrders(msgs[..n], limits);
      AddsCertify(msgs[..n], limits, bid);
      StructuralRun(msgs[..n], limits, bid);
      CertificateKept(Side(a, bid), ChangeOf(a.orders, msgs[n], limits.capacity), bid, limits.depth,
        Watermark(msgs[..n], limits, bid));
    }
  }

  lemma {:induction false} AddsAreWellFormed(msgs: seq<Message>, limits: Limits)
    requires limits.depth > 0 && Throughout(FRESH_ADDS, msgs, limits.capacity)
    ensures Throughout(WELL_FORMED, msgs, limits.capacity)
  {
    if msgs != [] {
      AddsAreWellFormed(msgs[..|msgs| - 1], limits);
    }
  }

  /** For every run of adds with fresh ids and positive quantities each side is the top `depth` levels of the
      full per-price aggregate, in price, quantity and order count, although evicted levels are discarded. */
  lemma AddsShowTopN(msgs: seq<Message>, b: BookState, limits: Limits, bid: bool)
    requires limits.depth > 0 && b == Run(EMPTY_BOOK, msgs, limits) && Throughout(FRESH_ADDS, msgs, limits.capacity)
    ensures Side(b, bid) == TopN(Full(b.orders, bid), limits.depth, !bid)
  {
    AddsAreWellFormed(msgs, limits);
    AddsCertify(msgs, limits, bid);
    CertifiedTop(msgs, b, limits, bid);
  }

  // ----- Exactly when a step loses the top -----

  /** The worst price of a ladder ranks last and affects no other rank. */
  lemma WithoutWorst(f: Ladder, w: int, depth: nat, ascending: bool)
    requires Levels.IsWorst(f.Keys, w, ascending)
    ensures |f - {w}| == |f| - 1
    ensures TopN(f, depth, ascending) ==
      if |f| <= depth then TopN(f - {w}, depth, ascending)[w := f[w]] else TopN(f - {w}, depth, ascending)
  {
    var g := f - {w};
    SizeAfterRemove(f, w);
    assert w in f;
    assert Ahead(f, w, ascending) == g.Keys;
    assert |g.Keys| == |g|;
    forall p | p in g ensures Ahead(f, p, ascending) == Ahead(g, p, ascending) {
      assert Levels.Better(p, w, ascending);
    }
  }

  lemma {:induction false} TopNSize(f: Ladder, depth: nat, ascending: bool)
    ensures |TopN(f, depth, ascending)| == Least(depth, |f|)
    decreases |f|
  {
    if |f| == 0 {
      assert TopN(f, depth, ascending).Keys <= f.Keys;
      SubsetSize(TopN(f, depth, ascending).Keys, f.Keys);
      assert |TopN(f, depth, ascending).Keys| == |TopN(f, depth, ascending)|;
      assert |f.Keys| == |f|;
    } else {
      NonEmptyLadder(f);
      var w := Levels.Worst(f, ascending);
      WithoutWorst(f, w, depth, ascending);
      TopNSize(f - {w}, depth, ascending);
      assert w !in TopN(f - {w}, depth, ascending);
      SizeAfterStore(TopN(f - {w}, depth, ascending), w, f[w]);
    }
  }

  lemma TopNIsTop(f: Ladder, depth: nat, ascending: bool)
    ensures IsTop(TopN(f, depth, ascending), f, depth, ascending)
  {
    var m := TopN(f, depth, ascending);
    TopNSize(f, depth, ascending);
    forall p, q | p in f && p !in m && q in m ensures Levels.Better(q, p, ascending) {
      if !Levels.Better(q, p, ascending) {
        assert Ahead(f, p, ascending) <= Ahead(f, q, ascending);
        SubsetSize(Ahead(f, p, ascending), Ahead(f, q, ascending));
      }
    }
  }

  /** The change runs a shown price out of volume or orders. */
  ghost predicate Empties(m: Ladder, c: Change, bid: bool) {
    && c.Change? && c.bid == bid && c.price in m
    && (m[c.price].quantity + c.qtyDelta <= 0 || m[c.price].orderCount + c.orderDelta <= 0)
  }

  /** The aggregate of a price in a ladder, nothing where it is absent. */
  ghost function Of(f: Ladder, p: int): Aggregate {
    if p in f then f[p] else NOTHING
  }

  predicate Positive(a: Aggregate) {
    a.quantity > 0 && a.orderCount > 0
  }

  ghost predicate AllPositive(f: Ladder) {
    forall p :: p in f ==> Positive(f[p])
  }

  /** `f'` is `f` moved by a change at its price, both of them sums of positive live records. */
  ghost predicate FollowsChange(f: Ladder, f': Ladder, c: Change, bid: bool) {
    && AllPositive(f) && AllPositive(f')
    && (forall p :: Moved(Of(f, p), Of(f', p), c, bid, p))
  }

  /** The aggregate moves only at the price of a change. */
  lemma MovesAtPrice(f: Ladder, f': Ladder, c: Change, bid: bool)
    requires FollowsChange(f, f', c, bid)
    ensures !(c.Change? && c.bid == bid) ==> f' == f
    ensures c.Change? && c.bid == bid ==> f' == if c.price in f' then f[c.price := f'[c.price]] else f - {c.price}
  {
    forall p | !(c.Change? && c.bid == bid && c.price == p)
      ensures p in f <==> p in f'
      ensures p in f ==> f[p] == f'[p]
    {
      assert Moved(Of(f, p), Of(f', p), c, bid, p);
    }
  }

  lemma ShrinkTop(m: Ladder, f: Ladder, p: int, depth: nat, ascending: bool)
    requires IsTop(m, f, depth, ascending) && p in m
    ensures IsTop(m - {p}, f - {p}, depth, ascending) <==> |f| <= depth
  {
    SizeAfterRemove(m, p);
    SizeAfterRemove(f, p);
  }

  lemma ReviseTop(m: Ladder, f: Ladder, p: int, a: Aggregate, depth: nat, ascending: bool)
    requires IsTop(m, f, depth, ascending) && p in m
    ensures IsTop(m[p := a], f[p := a], depth, ascending)
  {
    SizeAfterStore(m, p, a);
    SizeAfterStore(f, p, a);
  }

  /** Below depth everything is shown. */
  lemma AllShown(m: Ladder, f: Ladder, depth: nat, ascending: bool)
    requires IsTop(m, f, depth, ascending) && |m| < depth
    ensures m == f
  {
    forall p | p in m.Keys ensures p in f.Keys {
      assert p in m;
    }
    SameKeys(m, f);
    forall p
      ensures p in m <==> p in f
      ensures p in m ==> m[p] == f[p]
    {
      assert p in m.Keys <==> p in f.Keys;
    }
  }

  /** What happens to an unshown price behind a full side does not matter. */
  lemma HiddenMove(m: Ladder, f: Ladder, f': Ladder, p: int, depth: nat, ascending: bool)
    requires IsTop(m, f, depth, ascending) && p !in m && |m| == depth
    requires f' == f - {p} || (p in f' && f' == f[p := f'[p]] && forall q :: q in m ==> Levels.Better(q, p, ascending))
    ensures IsTop(m, f', depth, ascending)
  {
    forall q | q in m.Keys ensures q in f'.Keys {
      assert q in m;
    }
    SubsetSize(m.Keys, f'.Keys);
    assert |m.Keys| == |m| && |f'.Keys| == |f'|;
  }

  lemma GrowTop(m: Ladder, p: int, a: Aggregate, depth: nat, ascending: bool)
    requires |m| < depth
    ensures IsTop(m[p := a], m[p := a], depth, ascending)
  {
    SizeAfterStore(m, p, a);
  }

  /** A new price ahead of the worst shown one takes its place. */
  lemma ReplaceTop(m: Ladder, f: Ladder, p: int, a: Aggregate, w: int, depth: nat, ascending: bool)
    requires IsTop(m, f, depth, ascending) && |m| == depth && p !in m
    requires Levels.IsWorst(m.Keys, w, ascending) && Levels.Better(p, w, ascending)
    ensures p !in f
    ensures IsTop((m - {w})[p := a], f[p := a], depth, ascending)
  {
    assert w in m;
    SizeAfterRemove(m, w);
    SizeAfterStore(m - {w}, p, a);
    SizeAfterStore(f, p, a);
    forall u, q | u in f[p := a] && u !in (m - {w})[p := a] && q in (m - {w})[p := a]
      ensures Levels.Better(q, u, ascending)
    {
      assert q == p || (q in m.Keys && Levels.Better(q, w, ascending));
      assert u == w || Levels.Better(w, u, ascending);
    }
  }

  lemma TopStepShown(m: Ladder, f: Ladder, f': Ladder, c: Change, depth: nat)
    requires depth > 0 && c.Change? && FollowsChange(f, f', c, c.bid)
    requires IsTop(m, f, depth, !c.bid) && c.price in m
    ensures IsTop(SideAfter(m, c.bid, c, depth), f', depth, !c.bid) <==>
      !(Empties(m, c, c.bid) && |f| > depth)
  {
    MovesAtPrice(f, f', c, c.bid);
    assert Moved(Of(f, c.price), Of(f', c.price), c, c.bid, c.price);
    if c.price in f' {
      ReviseTop(m, f, c.price, f'[c.price], depth, !c.bid);
    } else {
      ShrinkTop(m, f, c.price, depth, !c.bid);
    }
  }

  lemma TopStepOpen(m: Ladder, f: Ladder, f': Ladder, c: Change, depth: nat)
    requires depth > 0 && c.Change? && FollowsChange(f, f', c, c.bid)
    requires IsTop(m, f, depth, !c.bid) && c.price !in m && |m| < depth
    ensures IsTop(SideAfter(m, c.bid, c, depth), f', depth, !c.bid)
  {
    AllShown(m, f, depth, !c.bid);
    MovesAtPrice(f, f', c, c.bid);
    assert Moved(Of(f, c.price), Of(f', c.price), c, c.bid, c.price);
    if c.price in f' {
      assert f'[c.price] == Levels.Opened(c.qtyDelta, c.orderDelta);
      GrowTop(m, c.price, f'[c.price], depth, !c.bid);
    } else {
      assert f' == m;
    }
  }

  lemma TopStepFull(m: Ladder, f: Ladder, f': Ladder, c: Change, w: int, depth: nat)
    requires depth > 0 && c.Change? && FollowsChange(f, f', c, c.bid)
    requires IsTop(m, f, depth, !c.bid) && c.price !in m && |m| == depth && w in m && w == Levels.Worst(m, !c.bid)
    ensures IsTop(SideAfter(m, c.bid, c, depth), f', depth, !c.bid)
  {
    MovesAtPrice(f, f', c, c.bid);
    assert Moved(Of(f, c.price), Of(f', c.price), c, c.bid, c.price);
    if c.qtyDelta > 0 && Levels.Better(c.price, w, !c.bid) {
      var a := Levels.Opened(c.qtyDelta, c.orderDelta);
      ReplaceTop(m, f, c.price, a, w, depth, !c.bid);
      assert f' == f[c.price := a];
    } else {
      assert SideAfter(m, c.bid, c, depth) == m;
      if c.price in f' {
        assert c.price in f || Levels.Better(w, c.price, !c.bid);
        forall q | q in m ensures Levels.Better(q, c.price, !c.bid) {
          assert q in m.Keys;
        }
      }
      HiddenMove(m, f, f', c.price, depth, !c.bid);
    }
  }

  lemma FullFollows(orders: Orders, msg: Message, bid: bool, capacity: nat)
    requires LivePositive(orders) && WellFormedMessage(orders, msg)
    ensures FollowsChange(Full(orders, bid), Full(OrdersAfter(orders, msg, capacity), bid),
                          ChangeOf(orders, msg, capacity), bid)
  {
    var orders' := OrdersAfter(orders, msg, capacity);
    PositiveKept(orders, msg, capacity);
    forall p
      ensures Of(Full(orders, bid), p) == Sum(orders, bid, p)
      ensures Of(Full(orders', bid), p) == Sum(orders', bid, p)
      ensures Moved(Of(Full(orders, bid), p), Of(Full(orders', bid), p), ChangeOf(orders, msg, capacity), bid, p)
      ensures p in Full(orders, bid) ==> Positive(Full(orders, bid)[p])
      ensures p in Full(orders', bid) ==> Positive(Full(orders', bid)[p])
    {
      LivePricesMeaning(orders, bid, p);
      LivePricesMeaning(orders', bid, p);
      SumBounds(orders, bid, p);
      SumBounds(orders', bid, p);
      ExactShift(orders, msg, capacity, bid, p);
    }
  }

  lemma TopIff(m: Ladder, f: Ladder, depth: nat, ascending: bool)
    ensures m == TopN(f, depth, ascending) <==> IsTop(m, f, depth, ascending)
  {
    TopNIsTop(f, depth, ascending);
    if IsTop(m, f, depth, ascending) {
      TopIsTopN(m, f, depth, ascending);
    }
  }

  /** A side that is the true top of the book stays so over a well-formed message if and only if the message does not
      empty a shown price while more prices are live than the side has room for. */
  lemma TopKeptIff(m: Ladder, orders: Orders, msg: Message, bid: bool, limits: Limits)
    requires limits.depth > 0 && LivePositive(orders) && WellFormedMessage(orders, msg)
    requires m == TopN(Full(orders, bid), limits.depth, !bid)
    ensures SideStep(m, orders, msg, bid, limits) ==
        TopN(Full(OrdersAfter(orders, msg, limits.capacity), bid), limits.depth, !bid)
      <==> !(Empties(m, ChangeOf(orders, msg, limits.capacity), bid) && |LivePrices(orders, bid)| > limits.depth)
  {
    var c := ChangeOf(orders, msg, limits.capacity);
    var f, f' := Full(orders, bid), Full(OrdersAfter(orders, msg, limits.capacity), bid);
    FullFollows(orders, msg, bid, limits.capacity);
    assert f.Keys == LivePrices(orders, bid);
    assert |f.Keys| == |f|;
    TopIff(m, f, limits.depth, !bid);
    TopIff(SideStep(m, orders, msg, bid, limits), f', limits.depth, !bid);
    if !(c.Change? && c.bid == bid) {
      MovesAtPrice(f, f', c, bid);
    } else if c.price in m {
      TopStepShown(m, f, f', c, limits.depth);
    } else if |m| < limits.depth {
      TopStepOpen(m, f, f', c, limits.depth);
    } else {
      NonEmptyLadder(m);
      TopStepFull(m, f, f', c, Levels.Worst(m, !bid), limits.depth);
    }
  }

  ghost predicate TopNow(b: BookState, limits: Limits, bid: bool) {
    Side(b, bid) == TopN(Full(b.orders, bid), limits.depth, !bid)
  }

  /** The message empties a shown price while more prices are live than the side has room for. */
  ghost predicate Uncovers(b: BookState, msg: Message, limits: Limits, bid: bool) {
    Empties(Side(b, bid), ChangeOf(b.orders, msg, limits.capacity), bid) && |LivePrices(b.orders, bid)| > limits.depth
  }

  lemma TopNowStep(b: BookState, msg: Message, limits: Limits, bid: bool)
    requires limits.depth > 0 && LivePositive(b.orders) && WellFormedMessage(b.orders, msg) && TopNow(b, limits, bid)
    ensures TopNow(Process(b, msg, limits), limits, bid) <==> !Uncovers(b, msg, limits, bid)
  {
    TopKeptIff(Side(b, bid), b.orders, msg, bid, limits);
  }

  /** A side is the true top of the book after every prefix of a feed. */
  ghost predicate AlwaysTop(msgs: seq<Message>, limits: Limits, bid: bool)
    requires limits.depth > 0
  {
    TopNow(Run(EMPTY_BOOK, msgs, limits), limits, bid) &&
    (msgs == [] || AlwaysTop(msgs[..|msgs| - 1], limits, bid))
  }

  ghost predicate NeverUncovers(msgs: seq<Message>, limits: Limits, bid: bool)
    requires limits.depth > 0
  {
    msgs == [] ||
    var before, last := msgs[..|msgs| - 1], msgs[|msgs| - 1];
    NeverUncovers(before, limits, bid) && !Uncovers(Run(EMPTY_BOOK, before, limits), last, limits, bid)
  }

  lemma EmptyTop(limits: Limits, bid: bool)
    ensures TopNow(EMPTY_BOOK, limits, bid)
  {
    assert TopN(Full(map[], bid), limits.depth, !bid) == map[];
  }

  /** Over whole well-formed feeds: a side is the true top of the book throughout if and only if no message empties a
      shown price while more prices are live than the side has room for. */
  lemma {:induction false} AlwaysTopIff(msgs: seq<Message>, limits: Limits, bid: bool)
    requires limits.depth > 0 && Throughout(WELL_FORMED, msgs, limits.capacity)
    ensures AlwaysTop(msgs, limits, bid) <==> NeverUncovers(msgs, limits, bid)
  {
    if msgs == [] {
      EmptyTop(limits, bid);
    } else {
      var before := msgs[..|msgs| - 1];
      AlwaysTopIff(before, limits, bid);
      RunOrders(before, limits);
      PositiveRun(before, limits);
      if AlwaysTop(before, limits, bid) {
        TopNowStep(Run(EMPTY_BOOK, before, limits), msgs[|msgs| - 1], limits, bid);
      }
    }
  }
}
