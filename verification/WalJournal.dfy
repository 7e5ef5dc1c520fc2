/** The write-ahead log (wal_journal.hpp) over the record array of its memory-mapped file. The file outlives the
    journal object: each session reopens it, finds the append offset by scanning, and appends. */
module WalJournals {
  import opened Bits
  import opened Protocol
  import opened OrderBooks
  import Gaps = GapAccounting
  import Wire = WireFormat

  /** sizeof(WireMessage), packed. */
  const RECORD_BYTES: nat := 34

  /** A record is the union of the three structs: as large as the largest of them. */
  lemma RecordIsLargestStruct(kind: char)
    ensures Wire.ExpectedSize(kind) <= RECORD_BYTES == Wire.ExpectedSize('A')
  {
  }

  predicate IsBlank(m: Message) {
    m.MsgType() == '\0'
  }

  predicate IsMarket(m: Message) {
    m.MsgType() == 'A' || m.MsgType() == 'X' || m.MsgType() == 'E'
  }

  /** `n` is the first blank record. */
  ghost predicate FirstBlank(s: seq<Message>, n: nat) {
    n < |s| && IsBlank(s[n]) && forall i :: 0 <= i < n ==> !IsBlank(s[i])
  }

  /** The offset scan of `open`, in records: the first blank, and zero when there is none. */
  ghost function Scan(s: seq<Message>): (n: nat)
    ensures n <= |s|
    ensures FirstBlank(s, n) || (n == 0 && forall i :: 0 <= i < |s| ==> !IsBlank(s[i]))
  {
    if n: nat :| FirstBlank(s, n) then n
    else
      NoFirstBlank(s, 0);
      0
  }

  lemma {:induction false} NoFirstBlank(s: seq<Message>, k: nat)
    requires k <= |s| && forall n: nat :: !FirstBlank(s, n)
    requires forall i :: 0 <= i < k ==> !IsBlank(s[i])
    ensures forall i :: 0 <= i < |s| ==> !IsBlank(s[i])
    decreases |s| - k
  {
    if k < |s| {
      assert !FirstBlank(s, k);
      NoFirstBlank(s, k + 1);
    }
  }

  lemma ScanIs(s: seq<Message>, n: nat)
    requires FirstBlank(s, n)
    ensures Scan(s) == n
  {
    assert FirstBlank(s, Scan(s));
  }

  function Blanks(n: nat): (s: seq<Message>)
    ensures |s| == n && forall i :: 0 <= i < n ==> s[i] == BLANK
  {
    seq(n, _ => BLANK)
  }

  /** An initially zero file of `capacity` records holding a log. */
  function FileOf(log: seq<Message>, capacity: nat): seq<Message>
    requires |log| <= capacity
  {
    log + Blanks(capacity - |log|)
  }

  /** Reopening finds the end of the log if and only if no logged record is blank and a record slot is left free:
      a completely full file scans to offset zero. */
  lemma ReopenFindsEndIff(log: seq<Message>, capacity: nat)
    requires |log| <= capacity
    ensures Scan(FileOf(log, capacity)) == |log| <==>
      (forall m :: m in log ==> !IsBlank(m)) && (|log| < capacity || capacity == 0)
  {
    var f := FileOf(log, capacity);
    if (forall m :: m in log ==> !IsBlank(m)) && |log| < capacity {
      ScanIs(f, |log|);
    } else if exists m :: m in log && IsBlank(m) {
      var i :| 0 <= i < |log| && IsBlank(log[i]);
      assert IsBlank(f[i]);
    }
  }

  // ----- Sessions -----

  /** Appends from an offset until the file is full. */
  function AppendAll(file: seq<Message>, offset: nat, msgs: seq<Message>): (r: seq<Message>)
    ensures |r| == |file|
    decreases |msgs|
  {
    if msgs == [] || offset + 1 > |file| then file
    else AppendAll(file[offset := msgs[0]], offset + 1, msgs[1..])
  }

  /** Open, append, and close or crash after the last complete record. */
  ghost function Session(file: seq<Message>, msgs: seq<Message>): (r: seq<Message>)
    ensures |r| == |file|
  {
    AppendAll(file, Scan(file), msgs)
  }

  ghost function Sessions(file: seq<Message>, sessions: seq<seq<Message>>): (r: seq<Message>)
    ensures |r| == |file|
    decreases |sessions|
  {
    if sessions == [] then file else Sessions(Session(file, sessions[0]), sessions[1..])
  }

  function Concat(sessions: seq<seq<Message>>): seq<Message> {
    if sessions == [] then [] else sessions[0] + Concat(sessions[1..])
  }

  /** As much of a log as fits. */
  function Cut(log: seq<Message>, capacity: nat): (r: seq<Message>)
    ensures |r| <= capacity
  {
    if |log| <= capacity then log else log[..capacity]
  }

  /** Appends fill every slot in order, and once the file is full change nothing. */
  lemma {:induction false} AppendExtendsLog(log: seq<Message>, capacity: nat, msgs: seq<Message>)
    requires |log| <= capacity
    ensures AppendAll(FileOf(log, capacity), |log|, msgs) == FileOf(Cut(log + msgs, capacity), capacity)
    decreases |msgs|
  {
    if msgs == [] {
      assert log + msgs == log;
    } else if |log| == capacity {
      assert (log + msgs)[..capacity] == log;
    } else {
      var f := FileOf(log, capacity);
      assert f[|log| := msgs[0]] == FileOf(log + [msgs[0]], capacity);
      AppendExtendsLog(log + [msgs[0]], capacity, msgs[1..]);
      assert log + [msgs[0]] + msgs[1..] == log + msgs;
    }
  }

  /** A session on a full file starts over: its first record overwrites the oldest. */
  lemma FullFileStartsOver(log: seq<Message>, msg: Message)
    requires log != [] && forall m :: m in log ==> !IsBlank(m)
    ensures Session(FileOf(log, |log|), [msg]) == [msg] + log[1..]
  {
    var f := FileOf(log, |log|);
    assert f == log;
    ReopenFindsEndIff(log, |log|);
    assert AppendAll(f[0 := msg], 1, [msg][1..]) == f[0 := msg];
    assert f[0 := msg] == [msg] + log[1..];
  }

  /** The log is the concatenation of all appends, over any number of sessions. */
  lemma {:induction false} SessionsConcatenate(log: seq<Message>, capacity: nat, sessions: seq<seq<Message>>)
    requires |log| + |Concat(sessions)| < capacity
    requires forall m :: m in log + Concat(sessions) ==> !IsBlank(m)
    ensures Sessions(FileOf(log, capacity), sessions) == FileOf(log + Concat(sessions), capacity)
    ensures Scan(Sessions(FileOf(log, capacity), sessions)) == |log + Concat(sessions)|
    decreases |sessions|
  {
    if sessions == [] {
      assert log + Concat(sessions) == log;
      ReopenFindsEndIff(log, capacity);
    } else {
      ReopenFindsEndIff(log, capacity);
      AppendExtendsLog(log, capacity, sessions[0]);
      assert log + sessions[0] + Concat(sessions[1..]) == log + Concat(sessions);
      SessionsConcatenate(log + sessions[0], capacity, sessions[1..]);
    }
  }

  // ----- Recovery -----

  /** What `recover` does: market records are processed, other record types skipped. */
  ghost function Replay(b: BookState, records: seq<Message>, limits: Limits): BookState
    requires limits.depth > 0
  {
    if records == [] then b
    else
      var n := |records| - 1;
      var before := Replay(b, records[..n], limits);
      if IsMarket(records[n]) then Process(before, records[n], limits) else before
  }

  function Market(records: seq<Message>): (n: nat)
    ensures n <= |records|
  {
    if records == [] then 0
    else Market(records[..|records| - 1]) + (if IsMarket(records[|records| - 1]) then 1 else 0)
  }

  ghost predicate AllMarket(log: seq<Message>) {
    forall i :: 0 <= i < |log| ==> IsMarket(log[i])
  }

  /** The adds, cancels and executes of a log, in order. */
  function MarketOnly(log: seq<Message>): seq<Message> {
    if log == [] then []
    else
      var last := log[|log| - 1];
      MarketOnly(log[..|log| - 1]) + if last.Add? || last.Cancel? || last.Execute? then [last] else []
  }

  lemma MarketTypes(m: Message)
    ensures IsMarket(m) <==> m.Add? || m.Cancel? || m.Execute?
  {
  }

  /** Recovery is live processing of the market messages, wherever other records stand between them, and it counts
      them. */
  lemma {:induction false} ReplayIsMarketRun(b: BookState, log: seq<Message>, limits: Limits)
    requires limits.depth > 0
    ensures Replay(b, log, limits) == Run(b, MarketOnly(log), limits) && Market(log) == |MarketOnly(log)|
  {
    if log != [] {
      var before, last := log[..|log| - 1], log[|log| - 1];
      ReplayIsMarketRun(b, before, limits);
      MarketTypes(last);
      if IsMarket(last) {
        RunStep(b, MarketOnly(before), last, limits);
      } else {
        assert MarketOnly(before) + [] == MarketOnly(before);
      }
    }
  }

  lemma {:induction false} AllMarketOnly(log: seq<Message>)
    requires AllMarket(log)
    ensures MarketOnly(log) == log
  {
    if log != [] {
      AllMarketOnly(log[..|log| - 1]);
      MarketTypes(log[|log| - 1]);
    }
  }

  lemma MarketReplayIsRun(b: BookState, log: seq<Message>, limits: Limits)
    requires limits.depth > 0 && AllMarket(log)
    ensures Replay(b, log, limits) == Run(b, log, limits)
  {
    ReplayIsMarketRun(b, log, limits);
    AllMarketOnly(log);
  }

  lemma {:induction false} ReplayCount(log: seq<Message>, limits: Limits)
    requires limits.depth > 0 && |log| < WORD
    ensures Replay(EMPTY_BOOK, log, limits).totalMessagesProcessed == Market(log)
  {
    if log != [] {
      ReplayCount(log[..|log| - 1], limits);
      Gaps.Small(Market(log[..|log| - 1]) + 1);
    }
  }

  lemma {:induction false} MarketCount(log: seq<Message>)
    ensures Market(log) == |log| <==> AllMarket(log)
  {
    if log != [] {
      MarketCount(log[..|log| - 1]);
    }
  }

  /** Recovering a log into a reset book equals having processed it live, if and only if every record is one of the
      three market messages: live processing counts and sequences an unknown type, recovery skips it. */
  lemma RecoveryEqualsLiveIff(log: seq<Message>, limits: Limits)
    requires limits.depth > 0 && |log| < WORD
    ensures Replay(EMPTY_BOOK, log, limits) == Run(EMPTY_BOOK, log, limits) <==> AllMarket(log)
  {
    ReplayCount(log, limits);
    Gaps.MessagesCounted(log, limits);
    MarketCount(log);
    if AllMarket(log) {
      MarketReplayIsRun(EMPTY_BOOK, log, limits);
    }
  }

  lemma {:induction false} RunContinues(b: BookState, first: seq<Message>, mid: BookState, rest: seq<Message>,
                                        limits: Limits)
    requires limits.depth > 0 && mid == Run(b, first, limits)
    ensures Run(b, first + rest, limits) == Run(mid, rest, limits)
    decreases |rest|
  {
    if rest == [] {
      assert first + rest == first;
    } else {
      var n := |rest| - 1;
      RunContinues(b, first, mid, rest[..n], limits);
      assert (first + rest)[..|first + rest| - 1] == first + rest[..n];
    }
  }

  /** Across any number of sessions on an initially zero file, with market messages and one slot left free: what a
      reopened journal holds is every append in order, recovering it equals live processing, and crashing after any
      record, recovering and going on with the rest of the feed equals the uninterrupted run. */
  lemma CrashRecovery(capacity: nat, sessions: seq<seq<Message>>, rest: seq<Message>, limits: Limits)
    requires limits.depth > 0 && |Concat(sessions)| < capacity && AllMarket(Concat(sessions))
    ensures var file := Sessions(Blanks(capacity), sessions); var feed := Concat(sessions);
      && file[..Scan(file)] == feed
      && Replay(EMPTY_BOOK, file[..Scan(file)], limits) == Run(EMPTY_BOOK, feed, limits)
      && Run(Replay(EMPTY_BOOK, file[..Scan(file)], limits), rest, limits) == Run(EMPTY_BOOK, feed + rest, limits)
  {
    var feed := Concat(sessions);
    assert Blanks(capacity) == FileOf([], capacity);
    assert [] + feed == feed;
    assert forall m :: m in feed ==> !IsBlank(m);
    SessionsConcatenate([], capacity, sessions);
    MarketReplayIsRun(EMPTY_BOOK, feed, limits);
    RunContinues(EMPTY_BOOK, feed, Run(EMPTY_BOOK, feed, limits), rest, limits);
  }

  /** How a feed is cut into sessions cannot be seen in the file. */
  lemma CrashPointsInvisible(capacity: nat, sessions: seq<seq<Message>>, sessions': seq<seq<Message>>)
    requires Concat(sessions) == Concat(sessions') && |Concat(sessions)| < capacity && AllMarket(Concat(sessions))
    ensures Sessions(Blanks(capacity), sessions) == Sessions(Blanks(capacity), sessions')
  {
    assert Blanks(capacity) == FileOf([], capacity);
    assert [] + Concat(sessions) == Concat(sessions);
    assert forall m :: m in Concat(sessions) ==> !IsBlank(m);
    SessionsConcatenate([], capacity, sessions);
    SessionsConcatenate([], capacity, sessions');
  }

  // ----- The class -----

  class WALJournal {
    var maxSizeBytes: nat
    var writeOffsetBytes: nat
    var mapped: array?<Message>

    ghost predicate Valid()
      reads this
    {
      mapped != null ==>
        && mapped.Length == maxSizeBytes / RECORD_BYTES
        && writeOffsetBytes % RECORD_BYTES == 0
        && writeOffsetBytes / RECORD_BYTES <= mapped.Length
    }

    constructor ()
      ensures Valid() && mapped == null
    {
      mapped, maxSizeBytes, writeOffsetBytes := null, 0, 0;
    }

    function RecordCount(): nat
      reads this
    {
      writeOffsetBytes / RECORD_BYTES
    }

    /** Maps the file and looks for the first blank record. */
    method Open(file: array<Message>, maxBytes: nat)
      requires file.Length == maxBytes / RECORD_BYTES
      modifies this
      ensures Valid() && mapped == file && maxSizeBytes == maxBytes
      ensures RecordCount() == Scan(file[..])
    {
      Close();
      mapped, maxSizeBytes, writeOffsetBytes := file, maxBytes, 0;
      for i := 0 to file.Length
        invariant Valid() && mapped == file && maxSizeBytes == maxBytes && writeOffsetBytes == 0
        invariant forall j :: 0 <= j < i ==> !IsBlank(file[j])
      {
        if file[i].MsgType() == '\0' {
          writeOffsetBytes := i * RECORD_BYTES;
          DivModUnique(writeOffsetBytes, RECORD_BYTES, i, 0);
          ScanIs(file[..], i);
          return;
        }
      }
    }

    /** Refused exactly when closed or full; otherwise the record lands at the offset. */
    method Append(msg: Message) returns (ok: bool)
      requires Valid()
      modifies this, mapped
      ensures Valid() && mapped == old(mapped) && maxSizeBytes == old(maxSizeBytes)
      ensures ok <==> mapped != null && old(RecordCount()) < mapped.Length
      ensures ok ==> RecordCount() == old(RecordCount()) + 1
      ensures !ok ==> writeOffsetBytes == old(writeOffsetBytes)
      ensures mapped != null ==> mapped[..] == AppendAll(old(mapped[..]), old(RecordCount()), [msg])
    {
      RoomInRecords(writeOffsetBytes, maxSizeBytes);
      if mapped == null || writeOffsetBytes + RECORD_BYTES > maxSizeBytes {
        return false;
      }
      mapped[writeOffsetBytes / RECORD_BYTES] := msg;
      writeOffsetBytes := writeOffsetBytes + RECORD_BYTES;
      return true;
    }

    /** Replays the records up to the offset into a book. */
    method Recover(book: LimitOrderBook) returns (replayed: nat)
      requires Valid() && book.Valid()
      modifies book, book.orderTable, book.orderTable.table, book.bids, book.asks
      ensures book.Valid()
      ensures mapped == null ==> replayed == 0 && book.State() == old(book.State())
      ensures mapped != null ==> replayed == Market(mapped[..RecordCount()])
      ensures mapped != null ==>
        book.State() == Replay(old(book.State()), mapped[..RecordCount()], book.Bounds())
    {
      replayed := 0;
      if mapped == null {
        return;
      }
      var count := RecordCount();
      for i := 0 to count
        invariant book.Valid() && replayed == Market(mapped[..i])
        invariant book.State() == Replay(old(book.State()), mapped[..i], book.Bounds())
      {
        assert mapped[..i + 1][..i] == mapped[..i];
        if mapped[i].MsgType() == 'A' || mapped[i].MsgType() == 'X' || mapped[i].MsgType() == 'E' {
          book.ProcessMessage(mapped[i]);
          replayed := replayed + 1;
        }
      }
    }

    method Close()
      modifies this`mapped
      ensures mapped == null
    {
      mapped := null;
    }
  }

  /** The byte-level capacity check is the record-level one. */
  lemma RoomInRecords(offset: nat, maxBytes: nat)
    ensures offset % RECORD_BYTES == 0 ==>
      (offset + RECORD_BYTES <= maxBytes <==> offset / RECORD_BYTES + 1 <= maxBytes / RECORD_BYTES)
    ensures (offset + RECORD_BYTES) / RECORD_BYTES == offset / RECORD_BYTES + 1
    ensures (offset + RECORD_BYTES) % RECORD_BYTES == offset % RECORD_BYTES
  {
  }
}
