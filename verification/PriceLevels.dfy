/** One side of the book: the fixed array of the best price levels, updated in place
    (order_book.hpp, `applyDelta` and `removeLevel`), and the price map it stands for. */
module PriceLevels {

  datatype PriceLevel = PriceLevel(price: int, quantity: int, orderCount: int, active: bool)

  const EMPTY_LEVEL := PriceLevel(0, 0, 0, false)

  /** What a level says about its price. */
  datatype Aggregate = Aggregate(quantity: int, orderCount: int)

  /** The prices a side shows, each with its aggregate. */
  type Ladder = map<int, Aggregate>

  /** `p` ranks strictly ahead of `q`: lower for asks (ascending), higher for bids. */
  predicate Better(p: int, q: int, ascending: bool) {
    if ascending then p < q else p > q
  }

  /** The structural invariant of a side: active levels form a prefix in strict price order and hold
      positive volume, every other slot is the empty level. */
  ghost predicate WellFormed(s: seq<PriceLevel>, ascending: bool) {
    && (forall i, j :: 0 <= i < j < |s| && s[j].active ==> s[i].active && Better(s[i].price, s[j].price, ascending))
    && (forall i :: 0 <= i < |s| ==>
          if s[i].active then s[i].quantity > 0 && s[i].orderCount > 0 else s[i] == EMPTY_LEVEL)
  }

  function Total(l: PriceLevel): Aggregate {
    Aggregate(l.quantity, l.orderCount)
  }

  /** The ladder an array of levels shows: its active levels, keyed by price. */
  ghost function View(s: seq<PriceLevel>): Ladder {
    if s == [] then map[]
    else
      var last, rest := s[|s| - 1], View(s[..|s| - 1]);
      if last.active then rest[last.price := Total(last)] else rest
  }

  ghost predicate At(s: seq<PriceLevel>, i: int, p: int) {
    0 <= i < |s| && s[i].active && s[i].price == p
  }

  /** `m` is the ladder that `s` shows, said level by level. */
  ghost predicate Shows(s: seq<PriceLevel>, m: Ladder) {
    && (forall i :: 0 <= i < |s| && s[i].active ==> s[i].price in m && m[s[i].price] == Total(s[i]))
    && (forall p :: p in m ==> exists i :: At(s, i, p))
  }

  lemma {:induction false} ViewKeys(s: seq<PriceLevel>, p: int)
    ensures p in View(s) <==> exists i :: At(s, i, p)
  {
    if s != [] {
      var n := |s| - 1;
      ViewKeys(s[..n], p);
      assert forall i :: At(s[..n], i, p) ==> At(s, i, p);
      assert forall i :: At(s, i, p) ==> i == n || At(s[..n], i, p);
      assert s[n].active ==> At(s, n, s[n].price);
    }
  }

  lemma {:induction false} ViewValue(s: seq<PriceLevel>, i: int, ascending: bool)
    requires WellFormed(s, ascending) && 0 <= i < |s| && s[i].active
    ensures s[i].price in View(s) && View(s)[s[i].price] == Total(s[i])
  {
    var n := |s| - 1;
    if i < n {
      assert s[..n][i] == s[i];
      ViewValue(s[..n], i, ascending);
      assert s[n].active ==> Better(s[i].price, s[n].price, ascending);
    }
  }

  lemma {:induction false} ViewSize(s: seq<PriceLevel>, ascending: bool)
    requires WellFormed(s, ascending)
    ensures |View(s)| <= |s|
    ensures forall i :: 0 <= i < |s| ==> (s[i].active <==> i < |View(s)|)
  {
    if s != [] {
      var n := |s| - 1;
      var t := s[..n];
      ViewSize(t, ascending);
      assert forall i :: 0 <= i < n ==> t[i] == s[i];
      if s[n].active {
        ViewKeys(t, s[n].price);
        assert forall i :: 0 <= i < n ==> s[i].active && Better(s[i].price, s[n].price, ascending);
        assert s[n].price !in View(t);
        if n > 0 {
          assert t[n - 1].active;
        }
      }
    }
  }

  lemma ViewShows(s: seq<PriceLevel>, ascending: bool)
    requires WellFormed(s, ascending)
    ensures Shows(s, View(s))
    ensures |View(s)| <= |s|
    ensures forall i :: 0 <= i < |s| ==> (s[i].active <==> i < |View(s)|)
  {
    ViewSize(s, ascending);
    forall i | 0 <= i < |s| && s[i].active
      ensures s[i].price in View(s) && View(s)[s[i].price] == Total(s[i])
    {
      ViewValue(s, i, ascending);
    }
    forall p | p in View(s) ensures exists i :: At(s, i, p) {
      ViewKeys(s, p);
    }
  }

  lemma ShownIsView(s: seq<PriceLevel>, m: Ladder, ascending: bool)
    requires WellFormed(s, ascending) && Shows(s, m)
    ensures View(s) == m
  {
    ViewShows(s, ascending);
    forall p
      ensures p in m <==> p in View(s)
      ensures p in m ==> m[p] == View(s)[p]
    {
      if exists i :: At(s, i, p) {
        var i :| At(s, i, p);
      }
    }
  }

  // ----- What a delta means for the ladder -----

  /** `w` is the price every other price of the set is ahead of. */
  ghost predicate IsWorst(prices: set<int>, w: int, ascending: bool) {
    w in prices && forall p :: p in prices && p != w ==> Better(p, w, ascending)
  }

  lemma {:induction false} WorstExists(prices: set<int>, ascending: bool)
    requires exists p :: p in prices
    ensures exists w :: IsWorst(prices, w, ascending)
    decreases |prices|
  {
    var p :| p in prices;
    var rest := prices - {p};
    assert forall q :: q in prices ==> q == p || q in rest;
    if exists q :: q in rest {
      WorstExists(rest, ascending);
      var w :| IsWorst(rest, w, ascending);
      assert IsWorst(prices, if Better(p, w, ascending) then w else p, ascending);
    } else {
      assert IsWorst(prices, p, ascending);
    }
  }

  ghost function Worst(m: Ladder, ascending: bool): (w: int)
    requires exists p :: p in m
    ensures IsWorst(m.Keys, w, ascending)
  {
    assert exists p :: p in m.Keys by { var p :| p in m; assert p in m.Keys; }
    WorstExists(m.Keys, ascending);
    var w :| IsWorst(m.Keys, w, ascending);
    w
  }

  /** The level a positive delta opens at a price that is not shown. */
  function Opened(qtyDelta: int, orderDelta: int): Aggregate {
    Aggregate(qtyDelta, if orderDelta > 0 then orderDelta else 1)
  }

  /** A signed change of volume and order count at one price of a ladder of at most `depth` prices. */
  ghost function Apply(m: Ladder, price: int, qtyDelta: int, orderDelta: int, ascending: bool, depth: nat): Ladder
    requires depth > 0
  {
    if price in m then
      var a := Aggregate(m[price].quantity + qtyDelta, m[price].orderCount + orderDelta);
      if a.quantity <= 0 || a.orderCount <= 0 then m - {price} else m[price := a]
    else if qtyDelta <= 0 then m
    else if |m| < depth then m[price := Opened(qtyDelta, orderDelta)]
    else if (exists p :: p in m) && Better(price, Worst(m, ascending), ascending) then
      (m - {Worst(m, ascending)})[price := Opened(qtyDelta, orderDelta)]
    else m
  }

  // ----- The three edits of the array, on sequences -----

  lemma UpdatedShows(s: seq<PriceLevel>, i: int, l: PriceLevel, m: Ladder)
    requires Shows(s, m) && 0 <= i < |s| && s[i].active && l.active && l.price == s[i].price
    requires forall j :: 0 <= j < |s| && j != i && s[j].active ==> s[j].price != s[i].price
    ensures Shows(s[i := l], m[l.price := Total(l)])
  {
    var t, m' := s[i := l], m[l.price := Total(l)];
    forall p | p in m' ensures exists j :: At(t, j, p) {
      var j :| At(s, j, p);
      assert At(t, j, p);
    }
  }

  lemma UpdateLevel(s: seq<PriceLevel>, i: int, l: PriceLevel, ascending: bool)
    requires WellFormed(s, ascending) && 0 <= i < |s| && s[i].active
    requires l.active && l.price == s[i].price && l.quantity > 0 && l.orderCount > 0
    ensures WellFormed(s[i := l], ascending)
    ensures View(s[i := l]) == View(s)[l.price := Total(l)]
  {
    ViewShows(s, ascending);
    UpdatedShows(s, i, l, View(s));
    ShownIsView(s[i := l], View(s)[l.price := Total(l)], ascending);
  }

  function Removed(s: seq<PriceLevel>, i: int): seq<PriceLevel>
    requires 0 <= i < |s|
  {
    seq(|s|, j requires 0 <= j < |s| => if j < i then s[j] else if j + 1 < |s| then s[j + 1] else EMPTY_LEVEL)
  }

  lemma RemovedWellFormed(s: seq<PriceLevel>, i: int, ascending: bool)
    requires WellFormed(s, ascending) && 0 <= i < |s| && s[i].active
    ensures WellFormed(Removed(s, i), ascending)
  {
  }

  lemma RemovedShows(s: seq<PriceLevel>, i: int, m: Ladder)
    requires Shows(s, m) && 0 <= i < |s|
    requires forall j :: 0 <= j < |s| && j != i && s[j].active ==> s[j].price != s[i].price
    ensures Shows(Removed(s, i), m - {s[i].price})
  {
    var t := Removed(s, i);
    forall p | p in m - {s[i].price} ensures exists j :: At(t, j, p) {
      var j :| At(s, j, p);
      assert At(t, if j < i then j else j - 1, p);
    }
  }

  lemma RemovedShape(s: seq<PriceLevel>, i: int, ascending: bool)
    requires WellFormed(s, ascending) && 0 <= i < |s| && s[i].active
    ensures WellFormed(Removed(s, i), ascending)
    ensures View(Removed(s, i)) == View(s) - {s[i].price}
  {
    RemovedWellFormed(s, i, ascending);
    ViewShows(s, ascending);
    RemovedShows(s, i, View(s));
    ShownIsView(Removed(s, i), View(s) - {s[i].price}, ascending);
  }

  /** `s` with the last of its first `k + 1` slots dropped and `l` moved in at `pos`. */
  function Inserted(s: seq<PriceLevel>, pos: int, k: int, l: PriceLevel): seq<PriceLevel>
    requires 0 <= pos <= k < |s|
  {
    seq(|s|, j requires 0 <= j < |s| =>
      if j < pos || j > k then s[j] else if j == pos then l else s[j - 1])
  }

  /** `l` may move in at `pos`: slots up to `k` are occupied but for `k` itself, later ones are not,
      and `l` ranks between its new neighbours. */
  ghost predicate Fits(s: seq<PriceLevel>, pos: int, k: int, l: PriceLevel, ascending: bool) {
    && 0 <= pos <= k < |s|
    && l.active && l.quantity > 0 && l.orderCount > 0
    && (forall i :: 0 <= i < |s| ==> (i < k ==> s[i].active) && (i > k ==> !s[i].active))
    && (forall i :: 0 <= i < pos ==> Better(s[i].price, l.price, ascending))
    && (forall i :: pos <= i < k ==> Better(l.price, s[i].price, ascending))
  }

  lemma InsertedWellFormed(s: seq<PriceLevel>, pos: int, k: int, l: PriceLevel, ascending: bool)
    requires WellFormed(s, ascending) && Fits(s, pos, k, l, ascending)
    ensures WellFormed(Inserted(s, pos, k, l), ascending)
  {
  }

  lemma InsertedShows(s: seq<PriceLevel>, pos: int, k: int, l: PriceLevel, m: Ladder, ascending: bool)
    requires Shows(s, m) && Fits(s, pos, k, l, ascending)
    requires forall j :: 0 <= j < k && s[k].active ==> s[j].price != s[k].price
    ensures Shows(Inserted(s, pos, k, l), (if s[k].active then m - {s[k].price} else m)[l.price := Total(l)])
  {
    var t := Inserted(s, pos, k, l);
    var m' := (if s[k].active then m - {s[k].price} else m)[l.price := Total(l)];
    forall p | p in m' ensures exists j :: At(t, j, p) {
      if p == l.price {
        assert At(t, pos, p);
      } else {
        var j :| At(s, j, p);
        assert At(t, if j < pos then j else j + 1, p);
      }
    }
    forall j | 0 <= j < |t| && t[j].active ensures t[j].price in m' && m'[t[j].price] == Total(t[j]) {
      if j != pos {
        assert t[j] == s[if j < pos then j else j - 1];
      }
    }
  }

  lemma InsertedShape(s: seq<PriceLevel>, pos: int, k: int, l: PriceLevel, ascending: bool)
    requires WellFormed(s, ascending) && Fits(s, pos, k, l, ascending)
    ensures WellFormed(Inserted(s, pos, k, l), ascending)
    ensures View(Inserted(s, pos, k, l)) ==
            (if s[k].active then View(s) - {s[k].price} else View(s))[l.price := Total(l)]
  {
    InsertedWellFormed(s, pos, k, l, ascending);
    ViewShows(s, ascending);
    InsertedShows(s, pos, k, l, View(s), ascending);
    ShownIsView(Inserted(s, pos, k, l),
      (if s[k].active then View(s) - {s[k].price} else View(s))[l.price := Total(l)], ascending);
  }

  // ----- The array algorithms -----

  method RemoveLevel(levels: array<PriceLevel>, idx: nat)
    requires idx < levels.Length
    modifies levels
    ensures levels[..] == Removed(old(levels[..]), idx)
  {
    ghost var s := levels[..];
    var i := idx;
    while i + 1 < levels.Length
      invariant idx <= i < levels.Length
      invariant forall j :: 0 <= j < idx || i <= j < levels.Length ==> levels[j] == s[j]
      invariant forall j :: idx <= j < i ==> levels[j] == s[j + 1]
    {
      levels[i] := levels[i + 1];
      i := i + 1;
    }
    levels[levels.Length - 1] := EMPTY_LEVEL;
    forall j | 0 <= j < levels.Length ensures levels[j] == Removed(s, idx)[j] {
      assert idx <= j < levels.Length - 1 ==> levels[j] == s[j + 1];
    }
  }

  /** Swaps a new level towards the front until it is no better than its neighbour. */
  method BubbleIntoPlace(levels: array<PriceLevel>, last: nat, ghost base: seq<PriceLevel>, ascending: bool)
    returns (ghost pos: nat)
    requires last < levels.Length && levels[last].active
    requires |base| == levels.Length && levels[..] == base[last := levels[last]]
    requires forall i, j :: 0 <= i < j < last ==> Better(base[i].price, base[j].price, ascending)
    requires forall i :: 0 <= i < last ==> base[i].price != levels[last].price
    modifies levels
    ensures pos <= last && levels[..] == Inserted(base, pos, last, old(levels[last]))
    ensures forall i :: 0 <= i < pos ==> Better(base[i].price, old(levels[last]).price, ascending)
    ensures forall i :: pos <= i < last ==> Better(old(levels[last]).price, base[i].price, ascending)
  {
    var insertPos := last;
    while insertPos > 0
      invariant 0 <= insertPos <= last
      invariant levels[insertPos] == old(levels[last])
      invariant forall i :: 0 <= i < insertPos ==> levels[i] == base[i]
      invariant forall i :: insertPos < i <= last ==> levels[i] == base[i - 1]
      invariant forall i :: last < i < levels.Length ==> levels[i] == base[i]
      invariant forall i :: insertPos <= i < last ==> Better(old(levels[last]).price, base[i].price, ascending)
    {
      var outOfOrder := if ascending then levels[insertPos].price < levels[insertPos - 1].price
                        else levels[insertPos].price > levels[insertPos - 1].price;
      if !outOfOrder {
        break;
      }
      levels[insertPos], levels[insertPos - 1] := levels[insertPos - 1], levels[insertPos];
      insertPos := insertPos - 1;
    }
    pos := insertPos;
    assert pos > 0 ==> Better(base[pos - 1].price, old(levels[last]).price, ascending);
    assert levels[..] == Inserted(base, pos, last, old(levels[last]));
  }

  /** Step 1 of `applyDelta`: the price is shown at slot `i`. */
  method AdjustLevel(levels: array<PriceLevel>, i: nat, qtyDelta: int, orderDelta: int, ascending: bool)
    requires WellFormed(levels[..], ascending) && i < levels.Length && levels[i].active
    modifies levels
    ensures WellFormed(levels[..], ascending)
    ensures View(levels[..]) ==
      Apply(old(View(levels[..])), old(levels[i].price), qtyDelta, orderDelta, ascending, levels.Length)
  {
    ghost var s := levels[..];
    ViewValue(s, i, ascending);
    var l := levels[i].(quantity := levels[i].quantity + qtyDelta, orderCount := levels[i].orderCount + orderDelta);
    levels[i] := l;
    if l.quantity <= 0 || l.orderCount <= 0 {
      RemoveLevel(levels, i);
      assert levels[..] == Removed(s, i);
      RemovedShape(s, i, ascending);
    } else {
      assert levels[..] == s[i := l];
      UpdateLevel(s, i, l, ascending);
    }
  }

  /** The first inactive slot, or the length of a full array. */
  method FirstInactive(levels: array<PriceLevel>) returns (k: nat)
    ensures k <= levels.Length
    ensures forall j :: 0 <= j < k ==> levels[j].active
    ensures k < levels.Length ==> !levels[k].active
  {
    k := 0;
    while k < levels.Length && levels[k].active
      invariant k <= levels.Length
      invariant forall j :: 0 <= j < k ==> levels[j].active
    {
      k := k + 1;
    }
  }

  /** A new level is written over slot `k`, the last one in use or the first one free, and bubbled into place. */
  method InsertAt(levels: array<PriceLevel>, k: nat, l: PriceLevel, ascending: bool)
    requires WellFormed(levels[..], ascending) && k < levels.Length
    requires forall i :: 0 <= i < levels.Length ==> (i < k ==> levels[i].active) && (i > k ==> !levels[i].active)
    requires l.active && l.quantity > 0 && l.orderCount > 0 && l.price !in View(levels[..])
    modifies levels
    ensures WellFormed(levels[..], ascending)
    ensures View(levels[..]) == (if old(levels[k].active) then old(View(levels[..])) - {old(levels[k].price)}
                                 else old(View(levels[..])))[l.price := Total(l)]
  {
    ghost var s := levels[..];
    forall i | 0 <= i < k ensures s[i].price != l.price {
      ViewValue(s, i, ascending);
    }
    levels[k] := l;
    ghost var pos := BubbleIntoPlace(levels, k, s, ascending);
    assert Fits(s, pos, k, l, ascending);
    InsertedShape(s, pos, k, l, ascending);
  }

  /** Steps 2 and 3 of `applyDelta`: the price is not shown and volume arrives for it. */
  method OpenLevel(levels: array<PriceLevel>, price: int, qtyDelta: int, orderDelta: int, ascending: bool)
    requires levels.Length > 0 && WellFormed(levels[..], ascending)
    requires price !in View(levels[..]) && qtyDelta > 0
    modifies levels
    ensures WellFormed(levels[..], ascending)
    ensures View(levels[..]) == Apply(old(View(levels[..])), price, qtyDelta, orderDelta, ascending, levels.Length)
  {
    ViewSize(levels[..], ascending);
    var insertPos := FirstInactive(levels);
    if insertPos == levels.Length {
      LastIsWorst(levels[..], ascending);
      var last := levels[levels.Length - 1].price;
      var improves := if ascending then price < last else price > last;
      if !improves {
        return;
      }
      insertPos := levels.Length - 1;
    }
    InsertAt(levels, insertPos, PriceLevel(price, qtyDelta, if orderDelta > 0 then orderDelta else 1, true), ascending);
  }

  /** The hot path of the book: one pass to find the price; otherwise a slot is found and bubbled. */
  method ApplyDelta(levels: array<PriceLevel>, price: int, qtyDelta: int, orderDelta: int, ascending: bool)
    requires levels.Length > 0 && WellFormed(levels[..], ascending)
    modifies levels
    ensures WellFormed(levels[..], ascending)
    ensures View(levels[..]) == Apply(old(View(levels[..])), price, qtyDelta, orderDelta, ascending, levels.Length)
  {
    for i := 0 to levels.Length
      invariant levels[..] == old(levels[..])
      invariant forall j :: 0 <= j < i ==> !At(levels[..], j, price)
    {
      if levels[i].active && levels[i].price == price {
        AdjustLevel(levels, i, qtyDelta, orderDelta, ascending);
        return;
      }
    }
    ViewKeys(levels[..], price);
    if qtyDelta <= 0 {
      return;
    }
    OpenLevel(levels, price, qtyDelta, orderDelta, ascending);
  }

  lemma LastIsWorst(s: seq<PriceLevel>, ascending: bool)
    requires s != [] && WellFormed(s, ascending) && s[|s| - 1].active
    ensures |View(s)| == |s| && s[|s| - 1].price in View(s)
    ensures Worst(View(s), ascending) == s[|s| - 1].price
  {
    ViewShows(s, ascending);
    var w := Worst(View(s), ascending);
    var i :| At(s, i, w);
    assert s[|s| - 1].price in View(s);
  }

  /** The last level of a full array comes off the ladder with its price alone. */
  lemma LastComesOff(s: seq<PriceLevel>, ascending: bool)
    requires s != [] && WellFormed(s, ascending) && s[|s| - 1].active
    ensures View(s[..|s| - 1]) == View(s) - {s[|s| - 1].price}
  {
    ViewKeys(s[..|s| - 1], s[|s| - 1].price);
  }

  lemma SameLast(s: seq<PriceLevel>, t: seq<PriceLevel>, ascending: bool)
    requires s != [] && WellFormed(s, ascending) && WellFormed(t, ascending)
    requires |s| == |t| && View(s) == View(t)
    ensures s[|s| - 1] == t[|s| - 1]
  {
    ViewSize(s, ascending);
    ViewSize(t, ascending);
    if s[|s| - 1].active {
      LastIsWorst(s, ascending);
      LastIsWorst(t, ascending);
      ViewValue(s, |s| - 1, ascending);
      ViewValue(t, |s| - 1, ascending);
    }
  }

  lemma PrefixWellFormed(s: seq<PriceLevel>, n: nat, ascending: bool)
    requires n <= |s| && WellFormed(s, ascending)
    ensures WellFormed(s[..n], ascending)
  {
  }

  lemma SamePrefix(s: seq<PriceLevel>, t: seq<PriceLevel>, ascending: bool)
    requires s != [] && WellFormed(s, ascending) && WellFormed(t, ascending)
    requires |s| == |t| && View(s) == View(t) && s[|s| - 1] == t[|s| - 1]
    ensures View(s[..|s| - 1]) == View(t[..|s| - 1])
  {
    if s[|s| - 1].active {
      LastComesOff(s, ascending);
      LastComesOff(t, ascending);
    }
  }

  /** An array is fixed by the ladder it shows: a well-formed side has no other degree of freedom. */
  lemma {:induction false} ViewDeterminesArray(s: seq<PriceLevel>, t: seq<PriceLevel>, ascending: bool)
    requires WellFormed(s, ascending) && WellFormed(t, ascending)
    requires |s| == |t| && View(s) == View(t)
    ensures s == t
  {
    if s != [] {
      var n := |s| - 1;
      assert s == s[..n] + [s[n]] && t == t[..n] + [t[n]];
      assert s[n] == t[n] by { SameLast(s, t, ascending); }
      assert s[..n] == t[..n] by {
        SamePrefix(s, t, ascending);
        PrefixWellFormed(s, n, ascending);
        PrefixWellFormed(t, n, ascending);
        ViewDeterminesArray(s[..n], t[..n], ascending);
      }
    }
  }
}
