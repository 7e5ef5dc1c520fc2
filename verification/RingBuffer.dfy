/** The single-producer single-consumer queue (ring_buffer.hpp), cut into its atomic steps. The producer and the
    consumer each own one index and a cached copy of the other's; a load of the other's index may return any value
    it has published since the thread last looked. */
module RingBuffers {
  import opened Bits

  datatype Producer<T> =
    | Idle
    | Reload(item: T)     // the cached tail says full: about to load the tail
    | Write(item: T)      // about to write the slot under the head
    | Publish(item: T)    // slot written, about to store the head

  datatype Consumer<T> =
    | Rest
    | Refresh             // the cached head says empty: about to load the head
    | Read                // about to read the slot under the tail
    | Release(item: T)    // item copied out, about to store the tail

  /** The shared words and slots, where each thread stands, and the history of published items. The counts
      `seenPopped` and `seenPushed` are the caches before wrapping to 64 bits. */
  datatype Ring<T> = Ring(
    head: Word, cachedTail: Word, tail: Word, cachedHead: Word, buffer: seq<T>,
    producer: Producer<T>, consumer: Consumer<T>,
    pushed: seq<T>, popped: seq<T>, seenPopped: nat, seenPushed: nat)

  datatype Action<T> =
    | PushBegin(newItem: T)
    | PushReload(seenTail: nat)
    | PushWrite
    | PushPublish
    | PopBegin
    | PopRefresh(seenHead: nat)
    | PopRead
    | PopRelease

  function Initial<T>(buffer: seq<T>): Ring<T> {
    Ring(0, 0, 0, 0, buffer, Idle, Rest, [], [], 0, 0)
  }

  function Slot(index: Word, capacity: nat): nat
    requires capacity > 0
  {
    And(index, capacity - 1)
  }

  /** Whose turn an action is, and which published value a load may return. */
  predicate Enabled<T>(s: Ring<T>, a: Action<T>) {
    match a
    case PushBegin(_) => s.producer.Idle?
    case PushReload(seen) => s.producer.Reload? && s.seenPopped <= seen <= |s.popped|
    case PushWrite => s.producer.Write?
    case PushPublish => s.producer.Publish?
    case PopBegin => s.consumer.Rest?
    case PopRefresh(seen) => s.consumer.Refresh? && s.seenPushed <= seen <= |s.pushed|
    case PopRead => s.consumer.Read?
    case PopRelease => s.consumer.Release?
  }

  predicate Full(head: Word, tail: Word, capacity: nat) {
    Wrap(head - tail) >= capacity
  }

  ghost function Step<T>(s: Ring<T>, a: Action<T>): (r: Ring<T>)
    requires IsCapacity(|s.buffer|) && |s.buffer| > 0 && Enabled(s, a)
    ensures |r.buffer| == |s.buffer|
  {
    var capacity := |s.buffer|;
    match a
    case PushBegin(item) =>
      s.(producer := if Full(s.head, s.cachedTail, capacity) then Reload(item) else Write(item))
    case PushReload(seen) =>
      s.(cachedTail := Wrap(seen), seenPopped := seen,
         producer := if Full(s.head, Wrap(seen), capacity) then Idle else Write(s.producer.item))
    case PushWrite =>
      MaskInRange(s.head, capacity);
      s.(buffer := s.buffer[Slot(s.head, capacity) := s.producer.item], producer := Publish(s.producer.item))
    case PushPublish =>
      s.(head := Wrap(s.head + 1), pushed := s.pushed + [s.producer.item], producer := Idle)
    case PopBegin =>
      s.(consumer := if s.tail == s.cachedHead then Refresh else Read)
    case PopRefresh(seen) =>
      s.(cachedHead := Wrap(seen), seenPushed := seen, consumer := if s.tail == Wrap(seen) then Rest else Read)
    case PopRead =>
      MaskInRange(s.tail, capacity);
      s.(consumer := Release(s.buffer[Slot(s.tail, capacity)]))
    case PopRelease =>
      s.(tail := Wrap(s.tail + 1), popped := s.popped + [s.consumer.item], consumer := Rest)
  }

  lemma MaskInRange(index: Word, capacity: nat)
    requires IsCapacity(capacity) && capacity > 0
    ensures Slot(index, capacity) == index % capacity < capacity
  {
    MaskIsModuloCapacity(index, capacity);
  }

  /** Any interleaving: actions out of turn do nothing. */
  ghost function Steps<T>(s: Ring<T>, actions: seq<Action<T>>): (r: Ring<T>)
    requires IsCapacity(|s.buffer|) && |s.buffer| > 0
    ensures |r.buffer| == |s.buffer|
  {
    if actions == [] then s
    else
      var t, a := Steps(s, actions[..|actions| - 1]), actions[|actions| - 1];
      if Enabled(t, a) then Step(t, a) else t
  }

  // ----- The invariant -----

  ghost predicate Indices<T>(s: Ring<T>) {
    && s.head == Wrap(|s.pushed|) && s.tail == Wrap(|s.popped|)
    && s.cachedTail == Wrap(s.seenPopped) && s.cachedHead == Wrap(s.seenPushed)
    && s.seenPopped <= |s.popped| <= s.seenPushed <= |s.pushed| <= s.seenPopped + |s.buffer|
    && (s.producer.Write? || s.producer.Publish? ==> |s.pushed| < s.seenPopped + |s.buffer|)
    && (s.consumer.Read? || s.consumer.Release? ==> |s.popped| < s.seenPushed)
  }

  /** The published items not yet popped sit in their slots, in order; so does the one about to be published. */
  ghost predicate Contents<T>(s: Ring<T>)
    requires |s.buffer| > 0 && |s.popped| <= |s.pushed|
  {
    && s.popped == s.pushed[..|s.popped|]
    && (forall i :: |s.popped| <= i < |s.pushed| ==> s.buffer[i % |s.buffer|] == s.pushed[i])
    && (s.producer.Publish? ==> s.buffer[|s.pushed| % |s.buffer|] == s.producer.item)
    && (s.consumer.Release? ==> |s.popped| < |s.pushed| && s.consumer.item == s.pushed[|s.popped|])
  }

  ghost predicate Inv<T>(s: Ring<T>) {
    IsCapacity(|s.buffer|) && |s.buffer| > 0 && Indices(s) && Contents(s)
  }

  lemma CapacityFits(capacity: nat)
    requires IsCapacity(capacity)
    ensures capacity < WORD
  {
    var k: nat :| k <= 63 && capacity == Pow2(k);
    PowersGrow(k, 63);
    WordIsPow2();
  }

  lemma {:induction false} PowersGrow(j: nat, k: nat)
    requires j <= k
    ensures Pow2(j) <= Pow2(k)
    decreases k - j
  {
    if j < k {
      PowersGrow(j, k - 1);
    }
  }

  /** The unsigned fullness test, through the wrap, is the comparison of the true counts. */
  lemma FullMeans(pushed: nat, seen: nat, capacity: nat)
    requires IsCapacity(capacity) && seen <= pushed <= seen + capacity
    ensures Full(Wrap(pushed), Wrap(seen), capacity) <==> pushed == seen + capacity
  {
    CapacityFits(capacity);
    WrappedDifference(pushed, seen);
  }

  /** Equal words mean equal counts when the counts are within a capacity. */
  lemma EmptyMeans(popped: nat, seen: nat, capacity: nat)
    requires IsCapacity(capacity) && popped <= seen <= popped + capacity
    ensures Wrap(popped) == Wrap(seen) <==> popped == seen
  {
    CapacityFits(capacity);
    WrappedDifference(seen, popped);
  }

  lemma IndicesStep<T>(s: Ring<T>, a: Action<T>)
    requires Inv(s) && Enabled(s, a)
    ensures |Step(s, a).buffer| == |s.buffer| && Indices(Step(s, a))
  {
    var capacity := |s.buffer|;
    match a
    case PushBegin(_) => FullMeans(|s.pushed|, s.seenPopped, capacity);
    case PushReload(seen) => FullMeans(|s.pushed|, seen, capacity);
    case PushPublish => WrapSuccessor(|s.pushed|);
    case PopBegin => EmptyMeans(|s.popped|, s.seenPushed, capacity);
    case PopRefresh(seen) => EmptyMeans(|s.popped|, seen, capacity);
    case PopRelease => WrapSuccessor(|s.popped|);
    case _ =>
  }

  lemma ContentsStep<T>(s: Ring<T>, a: Action<T>)
    requires Inv(s) && Enabled(s, a)
    ensures Indices(Step(s, a)) && |Step(s, a).buffer| == |s.buffer| && Contents(Step(s, a))
  {
    var capacity := |s.buffer|;
    var s' := Step(s, a);
    IndicesStep(s, a);
    match a
    case PushWrite =>
      MaskOfWrapped(|s.pushed|, capacity);
      forall i | |s.popped| <= i < |s.pushed| ensures s'.buffer[i % capacity] == s.pushed[i] {
        DistinctSlots(i, |s.pushed|, capacity);
      }
    case PushPublish =>
    case PopRead => MaskOfWrapped(|s.popped|, capacity);
    case PopRelease => assert s.pushed[..|s.popped| + 1] == s.pushed[..|s.popped|] + [s.pushed[|s.popped|]];
    case _ =>
  }

  lemma InvStep<T>(s: Ring<T>, a: Action<T>)
    requires Inv(s) && Enabled(s, a)
    ensures Inv(Step(s, a))
  {
    ContentsStep(s, a);
  }

  lemma {:induction false} InvSteps<T>(s: Ring<T>, actions: seq<Action<T>>)
    requires Inv(s)
    ensures Inv(Steps(s, actions))
  {
    if actions != [] {
      var t, a := Steps(s, actions[..|actions| - 1]), actions[|actions| - 1];
      InvSteps(s, actions[..|actions| - 1]);
      if Enabled(t, a) {
        InvStep(t, a);
      }
    }
  }

  /** In every interleaving, with stale loads and wrapping indices: what was pushed is what was popped followed by
      the buffered slots in order, at most `capacity` items are buffered, and the slot the producer is about to
      write is never the slot the consumer is about to read. */
  lemma FifoInEveryInterleaving<T>(buffer: seq<T>, actions: seq<Action<T>>)
    requires IsCapacity(|buffer|) && |buffer| > 0
    ensures var s := Steps(Initial(buffer), actions); var n := |s.pushed| - |s.popped|;
      && 0 <= n <= |buffer| == |s.buffer|
      && s.pushed == s.popped + seq(n, i requires 0 <= i => s.buffer[(|s.popped| + i) % |s.buffer|])
      && (s.producer.Write? && s.consumer.Read? ==> Slot(s.head, |buffer|) != Slot(s.tail, |buffer|))
  {
    var s := Steps(Initial(buffer), actions);
    InitialInv(buffer);
    InvSteps(Initial(buffer), actions);
    assert s.pushed == s.pushed[..|s.popped|] + s.pushed[|s.popped|..];
    if s.producer.Write? && s.consumer.Read? {
      MaskOfWrapped(|s.pushed|, |buffer|);
      MaskOfWrapped(|s.popped|, |buffer|);
      DistinctSlots(|s.popped|, |s.pushed|, |buffer|);
    }
  }

  lemma InitialInv<T>(buffer: seq<T>)
    requires IsCapacity(|buffer|) && |buffer| > 0
    ensures Inv(Initial(buffer))
  {
  }

  /** A push is refused exactly when the queue was full as of the value it loaded; a fresh load makes that now. */
  lemma RefusedPush<T>(s: Ring<T>, seen: nat)
    requires Inv(s) && Enabled(s, PushReload(seen))
    ensures Step(s, PushReload(seen)).producer.Idle? <==> |s.pushed| == seen + |s.buffer|
    ensures seen == |s.popped| ==>
      (Step(s, PushReload(seen)).producer.Idle? <==> |s.pushed| - |s.popped| == |s.buffer|)
  {
    FullMeans(|s.pushed|, seen, |s.buffer|);
  }

  /** A pop is refused exactly when the queue was empty as of the value it loaded. */
  lemma RefusedPop<T>(s: Ring<T>, seen: nat)
    requires Inv(s) && Enabled(s, PopRefresh(seen))
    ensures Step(s, PopRefresh(seen)).consumer.Rest? <==> |s.popped| == seen
    ensures seen == |s.pushed| ==> (Step(s, PopRefresh(seen)).consumer.Rest? <==> |s.pushed| == |s.popped|)
  {
    EmptyMeans(|s.popped|, seen, |s.buffer|);
  }

  // ----- The class -----

  class SPSCRingBuffer<T(0)> {
    var head: Word
    var cachedTail: Word
    var tail: Word
    var cachedHead: Word
    const buffer: array<T>

    ghost var producer: Producer<T>
    ghost var consumer: Consumer<T>
    ghost var pushed: seq<T>
    ghost var popped: seq<T>
    ghost var seenPopped: nat
    ghost var seenPushed: nat

    ghost function State(): Ring<T>
      reads this, buffer
    {
      Ring(head, cachedTail, tail, cachedHead, buffer[..], producer, consumer, pushed, popped, seenPopped, seenPushed)
    }

    ghost predicate Valid()
      reads this, buffer
    {
      Inv(State())
    }

    /** The items in the queue, oldest first. */
    ghost function Queue(): seq<T>
      reads this, buffer
      requires Valid()
    {
      pushed[|popped|..]
    }

    constructor (capacity: nat)
      requires IsCapacity(capacity) && capacity >= 2
      ensures Valid() && fresh(buffer) && buffer.Length == capacity
      ensures State() == Initial(buffer[..])
    {
      buffer := new T[capacity];
      head, cachedTail, tail, cachedHead := 0, 0, 0, 0;
      producer, consumer, pushed, popped, seenPopped, seenPushed := Idle, Rest, [], [], 0, 0;
    }

    /** The first check of `tryPush`: does the cached tail leave room? */
    method BeginPush(item: T) returns (room: bool)
      requires Valid() && producer.Idle?
      modifies this
      ensures Valid() && State() == Step(old(State()), PushBegin(item)) && room == producer.Write?
    {
      ghost var before := State();
      room := Wrap(head - cachedTail) < buffer.Length;
      producer := if room then Write(item) else Reload(item);
      assert State() == Step(before, PushBegin(item));
      InvStep(before, PushBegin(item));
    }

    /** The second check, after loading the tail. */
    method ReloadTail(observed: Word, ghost seen: nat) returns (room: bool)
      requires Valid() && Enabled(State(), PushReload(seen)) && observed == Wrap(seen)
      modifies this
      ensures Valid() && State() == Step(old(State()), PushReload(seen)) && room == producer.Write?
    {
      ghost var before := State();
      cachedTail := observed;
      room := Wrap(head - cachedTail) < buffer.Length;
      seenPopped := seen;
      producer := if room then Write(producer.item) else Idle;
      assert State() == Step(before, PushReload(seen));
      InvStep(before, PushReload(seen));
    }

    method WriteSlot(item: T)
      requires Valid() && producer == Write(item)
      modifies this, buffer
      ensures Valid() && State() == Step(old(State()), PushWrite)
    {
      ghost var before := State();
      MaskInRange(head, buffer.Length);
      buffer[And(head, buffer.Length - 1)] := item;
      producer := Publish(item);
      assert State() == Step(before, PushWrite);
      InvStep(before, PushWrite);
    }

    method PublishHead()
      requires Valid() && producer.Publish?
      modifies this
      ensures Valid() && State() == Step(old(State()), PushPublish)
    {
      ghost var before := State();
      head := Wrap(head + 1);
      pushed, producer := pushed + [producer.item], Idle;
      assert State() == Step(before, PushPublish);
      InvStep(before, PushPublish);
    }

    method BeginPop() returns (available: bool)
      requires Valid() && consumer.Rest?
      modifies this
      ensures Valid() && State() == Step(old(State()), PopBegin) && available == consumer.Read?
    {
      ghost var before := State();
      available := tail != cachedHead;
      consumer := if available then Read else Refresh;
      assert State() == Step(before, PopBegin);
      InvStep(before, PopBegin);
    }

    method RefreshHead(observed: Word, ghost seen: nat) returns (available: bool)
      requires Valid() && Enabled(State(), PopRefresh(seen)) && observed == Wrap(seen)
      modifies this
      ensures Valid() && State() == Step(old(State()), PopRefresh(seen)) && available == consumer.Read?
    {
      ghost var before := State();
      cachedHead := observed;
      available := tail != cachedHead;
      seenPushed := seen;
      consumer := if available then Read else Rest;
      assert State() == Step(before, PopRefresh(seen));
      InvStep(before, PopRefresh(seen));
    }

    method ReadSlot() returns (item: T)
      requires Valid() && consumer.Read?
      modifies this
      ensures Valid() && State() == Step(old(State()), PopRead) && consumer == Release(item)
    {
      ghost var before := State();
      MaskInRange(tail, buffer.Length);
      item := buffer[And(tail, buffer.Length - 1)];
      consumer := Release(item);
      assert State() == Step(before, PopRead);
      InvStep(before, PopRead);
    }

    method ReleaseTail()
      requires Valid() && consumer.Release?
      modifies this
      ensures Valid() && State() == Step(old(State()), PopRelease)
    {
      ghost var before := State();
      tail := Wrap(tail + 1);
      popped, consumer := popped + [consumer.item], Rest;
      assert State() == Step(before, PopRelease);
      InvStep(before, PopRelease);
    }

    /** Both checks of `tryPush`, with no interference between them: room exactly when the queue is not full. */
    method ClaimSlot(item: T) returns (room: bool)
      requires Valid() && producer.Idle?
      modifies this
      ensures Valid() && producer == (if room then Write(item) else Idle) && consumer == old(consumer)
      ensures pushed == old(pushed) && popped == old(popped)
      ensures room <==> |old(Queue())| < buffer.Length
    {
      room := BeginPush(item);
      if !room {
        RefusedPush(State(), |popped|);
        room := ReloadTail(tail, |popped|);
      }
    }

    method WriteAndPublish(item: T)
      requires Valid() && producer == Write(item)
      modifies this, buffer
      ensures Valid() && producer.Idle? && consumer == old(consumer)
      ensures pushed == old(pushed) + [item] && popped == old(popped)
    {
      WriteSlot(item);
      PublishHead();
    }

    /** `tryPush` with no interference between its steps: refused exactly when the queue is full. */
    method TryPush(item: T) returns (ok: bool)
      requires Valid() && producer.Idle?
      modifies this, buffer
      ensures Valid() && producer.Idle? && consumer == old(consumer)
      ensures ok <==> |old(Queue())| < buffer.Length
      ensures Queue() == if ok then old(Queue()) + [item] else old(Queue())
    {
      ok := ClaimSlot(item);
      if ok {
        WriteAndPublish(item);
      }
    }

    /** Both checks of `tryPop`, with no interference between them: an item exactly when the queue is not empty. */
    method AwaitItem() returns (available: bool)
      requires Valid() && consumer.Rest?
      modifies this
      ensures Valid() && consumer == (if available then Read else Rest) && producer == old(producer)
      ensures pushed == old(pushed) && popped == old(popped)
      ensures available <==> old(Queue()) != []
    {
      available := BeginPop();
      if !available {
        RefusedPop(State(), |pushed|);
        available := RefreshHead(head, |pushed|);
      }
    }

    method TakeItem() returns (item: T)
      requires Valid() && consumer.Read?
      modifies this, buffer
      ensures Valid() && consumer.Rest? && producer == old(producer)
      ensures pushed == old(pushed) && popped == old(popped) + [item]
    {
      item := ReadSlot();
      ReleaseTail();
    }

    /** `tryPop` with no interference: refused exactly when the queue is empty, else the oldest item. */
    method TryPop(fallback: T) returns (ok: bool, item: T)
      requires Valid() && consumer.Rest?
      modifies this, buffer
      ensures Valid() && consumer.Rest? && producer == old(producer)
      ensures ok <==> old(Queue()) != []
      ensures ok ==> [item] + Queue() == old(Queue())
      ensures !ok ==> item == fallback && Queue() == old(Queue())
    {
      item := fallback;
      ok := AwaitItem();
      if ok {
        item := TakeItem();
        assert popped == pushed[..|popped|];
      }
    }
  }
}
