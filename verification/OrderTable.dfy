/** The open-addressing hash table from order ids to records (order_table.hpp): linear probing over a
    power-of-two array, with tombstones, proved to be a bounded map. */
module OrderTables {
  import opened Bits
  import opened Wrappers

  datatype OrderRecord = OrderRecord(orderId: Word, side: char, occupied: bool, cancelled: bool,
                                     price: int, quantity: int, timestamp: nat)

  const BLANK_RECORD := OrderRecord(0, '\0', false, false, 0, 0, 0)

  /** What the table stores for an id. A cancelled order is a tombstone: its id stays known. */
  datatype Order = Order(side: char, price: int, quantity: int, cancelled: bool, timestamp: nat)

  type Orders = map<Word, Order>

  const FIBONACCI_PRIME: Word := 0x9E37_79B9_7F4A_7C15

  /** The 64-bit multiplicative hash, `(id * prime >> 43) & MASK`. Nothing below uses more than its range. */
  function Hash(orderId: Word, capacity: nat): (h: nat)
    requires capacity >= 1
    ensures h < capacity
  {
    AndAtMost(Wrap(orderId * FIBONACCI_PRIME) / 0x800_0000_0000, capacity - 1);
    And(Wrap(orderId * FIBONACCI_PRIME) / 0x800_0000_0000, capacity - 1)
  }

  /** The slot of the `probe`-th probe from `start`: the ring position after `start`. */
  function Slot(start: nat, probe: nat, capacity: nat): (i: nat)
    requires start < capacity && probe < capacity
    ensures i < capacity
  {
    if start + probe < capacity then start + probe else start + probe - capacity
  }

  /** The probe that reaches slot `i`: the inverse of `Slot`. */
  function Distance(start: nat, i: nat, capacity: nat): (d: nat)
    requires start < capacity && i < capacity
    ensures d < capacity && Slot(start, d, capacity) == i
    ensures forall p: nat :: p < capacity && Slot(start, p, capacity) == i ==> p == d
  {
    if i >= start then i - start else i + capacity - start
  }

  lemma RingPosition(x: nat, capacity: nat)
    requires capacity > 0 && x < 2 * capacity
    ensures x % capacity == if x < capacity then x else x - capacity
  {
    if x < capacity {
      DivModUnique(x, capacity, 0, x);
    } else {
      DivModUnique(x, capacity, 1, x - capacity);
    }
  }

  lemma ProbeIndex(start: nat, probe: nat, capacity: nat)
    requires IsCapacity(capacity) && start < capacity && probe < capacity
    ensures And(start + probe, capacity - 1) == Slot(start, probe, capacity)
  {
    RingPosition(start + probe, capacity);
    MaskIsModuloCapacity(start + probe, capacity);
  }

  // ----- The table as a sequence of slots -----

  ghost predicate Holding(t: seq<OrderRecord>, i: int, id: Word) {
    0 <= i < |t| && t[i].occupied && t[i].orderId == id
  }

  ghost predicate UniqueIds(t: seq<OrderRecord>) {
    forall i, j :: 0 <= i < |t| && 0 <= j < |t| && t[i].occupied && t[j].occupied && i != j ==>
      t[i].orderId != t[j].orderId
  }

  /** No empty slot lies on the probe path from an id's hash to the slot that holds it. */
  ghost predicate ChainUnbroken(t: seq<OrderRecord>, i: int)
    requires 0 <= i < |t|
  {
    var start := Hash(t[i].orderId, |t|);
    forall d: nat :: d < Distance(start, i, |t|) ==> t[Slot(start, d, |t|)].occupied
  }

  ghost predicate WellFormed(t: seq<OrderRecord>) {
    && UniqueIds(t)
    && forall i :: 0 <= i < |t| && t[i].occupied ==> ChainUnbroken(t, i)
  }

  function Stored(r: OrderRecord): Order {
    Order(r.side, r.price, r.quantity, r.cancelled, r.timestamp)
  }

  ghost function Contents(t: seq<OrderRecord>): Orders {
    if t == [] then map[]
    else
      var last, rest := t[|t| - 1], Contents(t[..|t| - 1]);
      if last.occupied then rest[last.orderId := Stored(last)] else rest
  }

  /** `m` is what the slots of `t` hold. */
  ghost predicate Holds(t: seq<OrderRecord>, m: Orders) {
    && (forall i :: 0 <= i < |t| && t[i].occupied ==> t[i].orderId in m && m[t[i].orderId] == Stored(t[i]))
    && (forall id :: id in m ==> exists i :: Holding(t, i, id))
  }

  lemma {:induction false} ContentsKeys(t: seq<OrderRecord>, id: Word)
    ensures id in Contents(t) <==> exists i :: Holding(t, i, id)
  {
    if t != [] {
      var n := |t| - 1;
      ContentsKeys(t[..n], id);
      assert forall i :: Holding(t[..n], i, id) ==> Holding(t, i, id);
      assert forall i :: Holding(t, i, id) ==> i == n || Holding(t[..n], i, id);
      assert t[n].occupied ==> Holding(t, n, t[n].orderId);
    }
  }

  lemma {:induction false} ContentsValue(t: seq<OrderRecord>, i: int)
    requires UniqueIds(t) && 0 <= i < |t| && t[i].occupied
    ensures t[i].orderId in Contents(t) && Contents(t)[t[i].orderId] == Stored(t[i])
  {
    var n := |t| - 1;
    if i < n {
      assert t[..n][i] == t[i];
      ContentsValue(t[..n], i);
    }
  }

  lemma {:induction false} ContentsSize(t: seq<OrderRecord>)
    requires UniqueIds(t)
    ensures |Contents(t)| <= |t|
    ensures |Contents(t)| == |t| <==> forall i :: 0 <= i < |t| ==> t[i].occupied
  {
    if t != [] {
      var n := |t| - 1;
      ContentsSize(t[..n]);
      ContentsKeys(t[..n], t[n].orderId);
      assert forall i :: 0 <= i < n ==> t[..n][i] == t[i];
    }
  }

  lemma ContentsHolds(t: seq<OrderRecord>)
    requires UniqueIds(t)
    ensures Holds(t, Contents(t))
  {
    forall i | 0 <= i < |t| && t[i].occupied
      ensures t[i].orderId in Contents(t) && Contents(t)[t[i].orderId] == Stored(t[i])
    {
      ContentsValue(t, i);
    }
    forall id | id in Contents(t) ensures exists i :: Holding(t, i, id) {
      ContentsKeys(t, id);
    }
  }

  lemma HeldIsContents(t: seq<OrderRecord>, m: Orders)
    requires UniqueIds(t) && Holds(t, m)
    ensures Contents(t) == m
  {
    ContentsHolds(t);
    forall id
      ensures id in m <==> id in Contents(t)
      ensures id in m ==> m[id] == Contents(t)[id]
    {
      if exists i :: Holding(t, i, id) {
        var i :| Holding(t, i, id);
      }
    }
  }

  /** The probes before `probe` saw occupied slots of other ids. */
  ghost predicate ProbedPast(t: seq<OrderRecord>, id: Word, probe: nat)
    requires probe <= |t|
  {
    forall d: nat :: d < probe ==>
      var r := t[Slot(Hash(id, |t|), d, |t|)]; r.occupied && r.orderId != id
  }

  /** A probe that meets an empty slot, or has seen every slot, proves the id absent. */
  lemma MissMeansAbsent(t: seq<OrderRecord>, id: Word, probe: nat)
    requires WellFormed(t) && probe <= |t| && ProbedPast(t, id, probe)
    requires probe < |t| ==> !t[Slot(Hash(id, |t|), probe, |t|)].occupied
    ensures id !in Contents(t)
    ensures probe == |t| ==> |Contents(t)| == |t|
  {
    ContentsKeys(t, id);
    ContentsSize(t);
    forall i | 0 <= i < |t|
      ensures !Holding(t, i, id)
      ensures probe == |t| ==> t[i].occupied
    {
      var d := Distance(Hash(id, |t|), i, |t|);
      assert t[i].occupied ==> ChainUnbroken(t, i);
    }
  }

  /** Writing a record for a new id at the first empty slot of its probe path. */
  lemma StoreNew(t: seq<OrderRecord>, probe: nat, r: OrderRecord)
    requires WellFormed(t) && probe < |t| && ProbedPast(t, r.orderId, probe)
    requires !t[Slot(Hash(r.orderId, |t|), probe, |t|)].occupied && r.occupied
    ensures var t' := t[Slot(Hash(r.orderId, |t|), probe, |t|) := r];
      WellFormed(t') && Contents(t') == Contents(t)[r.orderId := Stored(r)]
    ensures r.orderId !in Contents(t) && |Contents(t)| < |t|
  {
    var s := Slot(Hash(r.orderId, |t|), probe, |t|);
    var t' := t[s := r];
    MissMeansAbsent(t, r.orderId, probe);
    ContentsHolds(t);
    ContentsSize(t);
    assert UniqueIds(t');
    forall i | 0 <= i < |t'| && t'[i].occupied ensures ChainUnbroken(t', i) {
      if i != s {
        assert ChainUnbroken(t, i);
      }
    }
    StoreHolds(t, s, r, Contents(t));
    HeldIsContents(t', Contents(t)[r.orderId := Stored(r)]);
  }

  /** Overwriting the record of an id in place. */
  lemma StoreSame(t: seq<OrderRecord>, s: nat, r: OrderRecord)
    requires WellFormed(t) && Holding(t, s, r.orderId) && r.occupied
    ensures WellFormed(t[s := r]) && Contents(t[s := r]) == Contents(t)[r.orderId := Stored(r)]
    ensures r.orderId in Contents(t) && Contents(t)[r.orderId] == Stored(t[s])
  {
    var t' := t[s := r];
    ContentsHolds(t);
    forall i | 0 <= i < |t'| && t'[i].occupied ensures ChainUnbroken(t', i) {
      assert ChainUnbroken(t, i);
    }
    StoreHolds(t, s, r, Contents(t));
    HeldIsContents(t', Contents(t)[r.orderId := Stored(r)]);
  }

  lemma StoreHolds(t: seq<OrderRecord>, s: nat, r: OrderRecord, m: Orders)
    requires Holds(t, m) && s < |t| && r.occupied
    requires !t[s].occupied || t[s].orderId == r.orderId
    requires forall i :: 0 <= i < |t| && i != s && t[i].occupied ==> t[i].orderId != r.orderId
    ensures Holds(t[s := r], m[r.orderId := Stored(r)])
  {
    var t', m' := t[s := r], m[r.orderId := Stored(r)];
    forall id | id in m' ensures exists i :: Holding(t', i, id) {
      if id == r.orderId {
        assert Holding(t', s, id);
      } else {
        var i :| Holding(t, i, id);
        assert Holding(t', i, id);
      }
    }
  }

  // ----- Counting live orders -----

  ghost function Live(m: Orders): set<Word> {
    set id | id in m && !m[id].cancelled
  }

  lemma LiveAfterStore(m: Orders, id: Word, o: Order)
    ensures |Live(m[id := o])| == |Live(m)| + (if o.cancelled then 0 else 1) - (if id in Live(m) then 1 else 0)
  {
    var m' := m[id := o];
    var rest := Live(m) - {id};
    assert Live(m') == if o.cancelled then rest else rest + {id};
    if id in Live(m) {
      assert Live(m) == rest + {id};
    } else {
      assert Live(m) == rest;
    }
  }

  class OrderTable {
    const table: array<OrderRecord>
    var occupiedCount: nat
    var activeCount: nat

    ghost predicate Valid()
      reads this, table
    {
      && IsCapacity(table.Length)
      && table.Length >= 1
      && WellFormed(table[..])
      && occupiedCount == |Contents(table[..])|
    }

    /** The map the table stands for. */
    ghost function Map(): Orders
      reads this, table
    {
      Contents(table[..])
    }

    /** How far `size()` is above the number of live orders. */
    ghost function Drift(): int
      reads this, table
    {
      activeCount - |Live(Map())|
    }

    constructor (capacity: nat)
      requires IsCapacity(capacity) && capacity >= 1
      ensures Valid() && fresh(table) && table.Length == capacity
      ensures Map() == map[] && Drift() == 0
    {
      table := new OrderRecord[capacity](_ => BLANK_RECORD);
      occupiedCount, activeCount := 0, 0;
      new;
      BlankIsEmpty(table[..]);
    }

    method Clear()
      requires Valid()
      modifies this, table
      ensures Valid() && Map() == map[] && Drift() == 0
    {
      for i := 0 to table.Length
        invariant forall j :: 0 <= j < i ==> table[j] == BLANK_RECORD
      {
        table[i] := BLANK_RECORD;
      }
      occupiedCount, activeCount := 0, 0;
      BlankIsEmpty(table[..]);
    }

    /** Stores a record; null exactly when the id is unknown and every slot holds some other id. */
    method Insert(orderId: Word, side: char, price: int, quantity: int, ts: nat) returns (slot: Option<nat>)
      requires Valid()
      modifies this, table
      ensures Valid()
      ensures slot.None? <==> orderId !in old(Map()) && |old(Map())| == table.Length
      ensures slot.None? ==> Map() == old(Map())
      ensures slot.Some? ==> Map() == old(Map())[orderId := Order(side, price, quantity, false, ts)]
      ensures slot.Some? ==> Holding(table[..], slot.value, orderId)
      ensures Drift() == old(Drift())
    {
      var startIdx := Hash(orderId, table.Length);
      for probe := 0 to table.Length
        invariant table[..] == old(table[..]) && occupiedCount == old(occupiedCount)
        invariant activeCount == old(activeCount)
        invariant ProbedPast(table[..], orderId, probe)
      {
        ProbeIndex(startIdx, probe, table.Length);
        var i := And(startIdx + probe, table.Length - 1);
        if !table[i].occupied {
          var r := OrderRecord(orderId, side, true, false, price, quantity, ts);
          StoreNew(table[..], probe, r);
          LiveAfterStore(Map(), orderId, Stored(r));
          table[i] := r;
          assert table[..] == old(table[..])[i := r];
          occupiedCount, activeCount := occupiedCount + 1, activeCount + 1;
          return Some(i);
        } else if table[i].orderId == orderId {
          var r := OrderRecord(orderId, side, true, false, price, quantity, ts);
          StoreSame(table[..], i, r);
          LiveAfterStore(Map(), orderId, Stored(r));
          KnownSize(Map(), orderId, Stored(r));
          if table[i].cancelled {
            activeCount := activeCount + 1;
          }
          table[i] := r;
          assert table[..] == old(table[..])[i := r];
          return Some(i);
        }
      }
      MissMeansAbsent(table[..], orderId, table.Length);
      return None;
    }

    /** The slot of a known id, null otherwise. */
    method Lookup(orderId: Word) returns (slot: Option<nat>)
      requires Valid()
      ensures slot.Some? <==> orderId in Map()
      ensures slot.Some? ==> Holding(table[..], slot.value, orderId)
      ensures slot.Some? ==> Map()[orderId] == Stored(table[slot.value])
    {
      var startIdx := Hash(orderId, table.Length);
      for probe := 0 to table.Length
        invariant ProbedPast(table[..], orderId, probe)
      {
        ProbeIndex(startIdx, probe, table.Length);
        var i := And(startIdx + probe, table.Length - 1);
        if !table[i].occupied {
          MissMeansAbsent(table[..], orderId, probe);
          return None;
        }
        if table[i].orderId == orderId {
          ContentsValue(table[..], i);
          return Some(i);
        }
      }
      MissMeansAbsent(table[..], orderId, table.Length);
      return None;
    }

    /** Tombstones a live order. Through this call `size()` stays as accurate as it was. */
    method Erase(orderId: Word) returns (erased: bool)
      requires Valid()
      modifies this, table
      ensures Valid()
      ensures erased <==> orderId in old(Map()) && !old(Map())[orderId].cancelled
      ensures !erased ==> Map() == old(Map())
      ensures erased ==> Map() == old(Map())[orderId := old(Map())[orderId].(cancelled := true)]
      ensures old(Drift()) >= 0 ==> Drift() == old(Drift())
    {
      var slot := Lookup(orderId);
      if slot.None? || table[slot.value].cancelled {
        return false;
      }
      assert orderId in Live(Map());
      Edit(slot.value, table[slot.value].quantity, true);
      if activeCount > 0 {
        activeCount := activeCount - 1;
      }
      return true;
    }

    /** The record edit the book performs through the pointer that `lookup` returned. */
    method Edit(slot: nat, quantity: int, cancelled: bool)
      requires Valid() && slot < table.Length && table[slot].occupied
      modifies table
      ensures Valid()
      ensures var id := old(table[slot].orderId);
        && id in old(Map())
        && Map() == old(Map())[id := old(Map())[id].(quantity := quantity, cancelled := cancelled)]
      ensures |Live(Map())| == |old(Live(Map()))|
        + (if cancelled then 0 else 1) - (if old(table[slot].cancelled) then 0 else 1)
    {
      var r := table[slot].(quantity := quantity, cancelled := cancelled);
      StoreSame(table[..], slot, r);
      LiveAfterStore(Map(), r.orderId, Stored(r));
      KnownSize(Map(), r.orderId, Stored(r));
      table[slot] := r;
      assert table[..] == old(table[..])[slot := r];
    }

    method Size() returns (n: nat)
      ensures n == |Live(Map())| + Drift()
    {
      n := activeCount;
    }
  }

  lemma KnownSize(m: Orders, id: Word, o: Order)
    requires id in m
    ensures |m[id := o]| == |m|
  {
    assert m[id := o].Keys == m.Keys;
    assert |m[id := o].Keys| == |m[id := o]|;
  }

  lemma {:induction false} BlankIsEmpty(t: seq<OrderRecord>)
    requires forall i :: 0 <= i < |t| ==> t[i] == BLANK_RECORD
    ensures WellFormed(t) && Contents(t) == map[]
  {
    HeldIsContents(t, map[]);
  }

  // ----- Histories -----

  /** One use of the table: an insert, an erase, or an edit through a looked-up pointer. */
  datatype Use =
    | Store(id: Word, side: char, price: int, qty: int, ts: nat)
    | Tombstone(id: Word)
    | Amend(id: Word, quantity: int, cancelled: bool)

  function FreshOrder(u: Use): Order
    requires u.Store?
  {
    Order(u.side, u.price, u.qty, false, u.ts)
  }

  /** The map after a use. */
  function Used(m: Orders, u: Use, capacity: nat): Orders {
    match u
    case Store(id, _, _, _, _) => if id in m || |m| < capacity then m[id := FreshOrder(u)] else m
    case Tombstone(id) => if id in m then m[id := m[id].(cancelled := true)] else m
    case Amend(id, quantity, cancelled) =>
      if id in m then m[id := m[id].(quantity := quantity, cancelled := cancelled)] else m
  }

  function AfterUses(uses: seq<Use>, capacity: nat): Orders {
    if uses == [] then map[] else Used(AfterUses(uses[..|uses| - 1], capacity), uses[|uses| - 1], capacity)
  }

  /** The history of one id alone: its last store with the tombstones and edits since. */
  function LastStored(uses: seq<Use>, id: Word): Option<Order> {
    if uses == [] then None
    else
      var before, u := LastStored(uses[..|uses| - 1], id), uses[|uses| - 1];
      if u.id != id then before
      else if u.Store? then Some(FreshOrder(u))
      else if before.None? then None
      else if u.Tombstone? then Some(before.value.(cancelled := true))
      else Some(before.value.(quantity := u.quantity, cancelled := u.cancelled))
  }

  ghost function StoredIds(uses: seq<Use>): set<Word> {
    set i | 0 <= i < |uses| && uses[i].Store? :: uses[i].id
  }

  lemma StoredMore(uses: seq<Use>)
    requires uses != []
    ensures var n := |uses| - 1;
      StoredIds(uses) == StoredIds(uses[..n]) + if uses[n].Store? then {uses[n].id} else {}
  {
    var n := |uses| - 1;
    forall id ensures id in StoredIds(uses) <==>
      id in StoredIds(uses[..n]) || (uses[n].Store? && id == uses[n].id)
    {
      if id in StoredIds(uses[..n]) {
        var i :| 0 <= i < n && uses[..n][i].Store? && uses[..n][i].id == id;
        assert uses[i].id == id;
      }
      if id in StoredIds(uses) {
        var i :| 0 <= i < |uses| && uses[i].Store? && uses[i].id == id;
        assert i == n || uses[..n][i].id == id;
      }
    }
  }

  lemma SmallerSet(a: set<Word>, b: set<Word>)
    requires a <= b
    ensures |a| <= |b|
    ensures a != b ==> |a| < |b|
  {
    assert b == a + (b - a);
    if a != b {
      var x :| x in b && x !in a;
      assert b == a + {x} + (b - a - {x});
    }
  }

  /** Some store of the id came while fewer than `capacity` different ids had been stored. Slots are never freed, so
      this is the only way in: erased and dead ids keep theirs. */
  ghost predicate Admitted(uses: seq<Use>, capacity: nat, id: Word) {
    exists i :: 0 <= i < |uses| && uses[i].Store? && uses[i].id == id && |StoredIds(uses[..i])| < capacity
  }

  lemma AdmittedMore(uses: seq<Use>, capacity: nat, id: Word)
    requires uses != []
    ensures var before, u := uses[..|uses| - 1], uses[|uses| - 1];
      Admitted(uses, capacity, id) <==>
        Admitted(before, capacity, id) || (u.Store? && u.id == id && |StoredIds(before)| < capacity)
  {
    var n := |uses| - 1;
    forall i | 0 <= i < n ensures uses[..n][..i] == uses[..i] && uses[..n][i] == uses[i] {
    }
    if Admitted(uses[..n], capacity, id) {
      var i :| 0 <= i < n && uses[..n][i].Store? && uses[..n][i].id == id && |StoredIds(uses[..n][..i])| < capacity;
      assert uses[i].id == id && |StoredIds(uses[..i])| < capacity;
    }
    if Admitted(uses, capacity, id) {
      var i :| 0 <= i <= n && uses[i].Store? && uses[i].id == id && |StoredIds(uses[..i])| < capacity;
      assert i == n || (uses[..n][i].id == id && |StoredIds(uses[..n][..i])| < capacity);
    }
  }

  /** The known ids are all those that ever asked until the table is full; then they are `capacity` many of them. */
  ghost predicate Saturates(m: Orders, asked: set<Word>, capacity: nat) {
    && m.Keys <= asked
    && |m| <= capacity
    && (|m| < capacity ==> m.Keys == asked)
  }

  lemma SaturatesMore(m: Orders, asked: set<Word>, id: Word, o: Order, capacity: nat)
    requires Saturates(m, asked, capacity) && (id in m || |m| < capacity)
    ensures Saturates(m[id := o], asked + {id}, capacity)
  {
    var m' := m[id := o];
    assert m'.Keys == m.Keys + {id};
    assert |m.Keys| == |m| && |m'.Keys| == |m'|;
    if id in m {
      assert m'.Keys == m.Keys;
    }
  }

  lemma SaturatesSame(m: Orders, m': Orders, asked: set<Word>, capacity: nat)
    requires Saturates(m, asked, capacity) && m'.Keys == m.Keys
    ensures Saturates(m', asked, capacity)
  {
    assert |m.Keys| == |m| && |m'.Keys| == |m'|;
  }

  lemma SaturatedIff(m: Orders, asked: set<Word>, capacity: nat)
    requires Saturates(m, asked, capacity)
    ensures |m| < capacity <==> |asked| < capacity
  {
    SmallerSet(m.Keys, asked);
    assert |m.Keys| == |m|;
  }

  lemma {:induction false} KnownIds(uses: seq<Use>, capacity: nat)
    ensures Saturates(AfterUses(uses, capacity), StoredIds(uses), capacity)
  {
    if uses != [] {
      var before, u := uses[..|uses| - 1], uses[|uses| - 1];
      var m := AfterUses(before, capacity);
      KnownIds(before, capacity);
      StoredMore(uses);
      if u.Store? {
        if u.id in m || |m| < capacity {
          SaturatesMore(m, StoredIds(before), u.id, FreshOrder(u), capacity);
        }
      } else {
        SaturatesSame(m, Used(m, u, capacity), StoredIds(before), capacity);
      }
    }
  }

  /** Over any history whatever: an id is known exactly when it was admitted, known ids never vanish, and what is
      looked up for one is the last record stored for it with the tombstones and edits since, whatever happened to
      other ids. An id that first came to a full table is refused for good. */
  lemma {:induction false} LookupIsLastStored(uses: seq<Use>, capacity: nat, id: Word)
    ensures id in AfterUses(uses, capacity) <==> Admitted(uses, capacity, id)
    ensures Admitted(uses, capacity, id) ==> LastStored(uses, id) == Some(AfterUses(uses, capacity)[id])
  {
    if uses != [] {
      var before := uses[..|uses| - 1];
      LookupIsLastStored(before, capacity, id);
      AdmittedMore(uses, capacity, id);
      KnownIds(before, capacity);
      SaturatedIff(AfterUses(before, capacity), StoredIds(before), capacity);
    }
  }

  /** A table large enough for its different ids refuses nothing. */
  lemma {:induction false} RoomForAll(uses: seq<Use>, capacity: nat, id: Word)
    requires |StoredIds(uses)| <= capacity
    ensures Admitted(uses, capacity, id) <==> id in StoredIds(uses)
    ensures id !in StoredIds(uses) ==> LastStored(uses, id) == None
  {
    if uses != [] {
      var before := uses[..|uses| - 1];
      StoredMore(uses);
      SmallerSet(StoredIds(before), StoredIds(uses));
      RoomForAll(before, capacity, id);
      AdmittedMore(uses, capacity, id);
    }
  }

  /** Plays a history on a probing table: stores insert, tombstones erase, edits go through the looked-up slot. */
  method Perform(t: OrderTable, uses: seq<Use>)
    requires t.Valid() && t.Map() == map[]
    modifies t, t.table
    ensures t.Valid() && t.Map() == AfterUses(uses, t.table.Length)
  {
    for i := 0 to |uses|
      invariant t.Valid() && t.Map() == AfterUses(uses[..i], t.table.Length)
    {
      assert uses[..i + 1][..i] == uses[..i];
      PerformOne(t, uses[i]);
    }
    assert uses[..|uses|] == uses;
  }

  method PerformOne(t: OrderTable, u: Use)
    requires t.Valid()
    modifies t, t.table
    ensures t.Valid() && t.Map() == Used(old(t.Map()), u, t.table.Length)
  {
    match u
    case Store(id, side, price, qty, ts) =>
      ContentsSize(t.table[..]);
      var slot := t.Insert(id, side, price, qty, ts);
    case Tombstone(id) =>
      var erased := t.Erase(id);
    case Amend(id, quantity, cancelled) =>
      var slot := t.Lookup(id);
      if slot.Some? {
        t.Edit(slot.value, quantity, cancelled);
      }
  }

  /** What a probing table answers for an id after any history: the last record stored for it with the tombstones and
      edits since if it was admitted, and nothing otherwise. While at most `capacity` different ids were stored that
      is the last record of every id. */
  method RecordAfter(capacity: nat, uses: seq<Use>, id: Word) returns (r: Option<Order>)
    requires IsCapacity(capacity) && capacity >= 1
    ensures r == if Admitted(uses, capacity, id) then LastStored(uses, id) else None
    ensures |StoredIds(uses)| <= capacity ==> r == LastStored(uses, id)
  {
    var t := new OrderTable(capacity);
    Perform(t, uses);
    var slot := t.Lookup(id);
    r := if slot.Some? then Some(Stored(t.table[slot.value])) else None;
    LookupIsLastStored(uses, capacity, id);
    if |StoredIds(uses)| <= capacity {
      RoomForAll(uses, capacity, id);
    }
  }
}
