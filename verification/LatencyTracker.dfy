/** Interpolated percentiles of latency_tracker.hpp, over exact reals: sort once, then interpolate between ranks. */
module LatencyTrackers {

  ghost predicate Sorted(s: seq<int>) {
    forall i, j :: 0 <= i < j < |s| ==> s[i] <= s[j]
  }

  /** Stands for `std::sort`: the ascending arrangement. */
  function Sort(s: seq<int>): seq<int> {
    if s == [] then [] else InsertInto(Sort(s[..|s| - 1]), s[|s| - 1])
  }

  function InsertInto(s: seq<int>, x: int): seq<int> {
    if s == [] || s[|s| - 1] <= x then s + [x] else InsertInto(s[..|s| - 1], x) + [s[|s| - 1]]
  }

  lemma {:induction false} InsertedElements(s: seq<int>, x: int)
    ensures multiset(InsertInto(s, x)) == multiset(s) + multiset{x}
  {
    if s != [] && s[|s| - 1] > x {
      var n := |s| - 1;
      InsertedElements(s[..n], x);
      assert s == s[..n] + [s[n]];
    }
  }

  lemma {:induction false} InsertedBound(s: seq<int>, x: int, top: int)
    requires x <= top && forall i :: 0 <= i < |s| ==> s[i] <= top
    ensures forall i :: 0 <= i < |InsertInto(s, x)| ==> InsertInto(s, x)[i] <= top
  {
    if s != [] && s[|s| - 1] > x {
      InsertedBound(s[..|s| - 1], x, top);
    }
  }

  lemma {:induction false} InsertedSorted(s: seq<int>, x: int)
    requires Sorted(s)
    ensures Sorted(InsertInto(s, x))
  {
    if s != [] && s[|s| - 1] > x {
      var n := |s| - 1;
      InsertedSorted(s[..n], x);
      InsertedBound(s[..n], x, s[n]);
    }
  }

  lemma {:induction false} SortIsSorted(s: seq<int>)
    ensures Sorted(Sort(s)) && multiset(Sort(s)) == multiset(s) && |Sort(s)| == |s|
  {
    if s != [] {
      var n := |s| - 1;
      SortIsSorted(s[..n]);
      InsertedSorted(Sort(s[..n]), s[n]);
      InsertedElements(Sort(s[..n]), s[n]);
      assert s == s[..n] + [s[n]];
    }
    assert |multiset(Sort(s))| == |multiset(s)|;
  }

  lemma {:induction false} SortOfSorted(s: seq<int>)
    requires Sorted(s)
    ensures Sort(s) == s
  {
    if s != [] {
      var n := |s| - 1;
      SortOfSorted(s[..n]);
      assert s == s[..n] + [s[n]];
    }
  }

  lemma SameElements(s: seq<int>, t: seq<int>)
    requires multiset(s) == multiset(t)
    ensures forall x :: x in s <==> x in t
  {
    assert forall x :: x in s <==> x in multiset(s);
    assert forall x :: x in t <==> x in multiset(t);
  }

  lemma SortSnoc(s: seq<int>, x: int)
    ensures Sort(s + [x]) == InsertInto(Sort(s), x)
  {
    assert (s + [x])[..|s|] == s;
  }

  /** Sorting a part first changes nothing. */
  lemma {:induction false} SortPrefix(e: seq<int>, l: seq<int>)
    ensures Sort(Sort(e) + l) == Sort(e + l)
  {
    if l == [] {
      SortIsSorted(e);
      SortOfSorted(Sort(e));
      assert Sort(e) + l == Sort(e) && e + l == e;
    } else {
      var first, x := l[..|l| - 1], l[|l| - 1];
      SortPrefix(e, first);
      SortSnoc(Sort(e) + first, x);
      SortSnoc(e + first, x);
      assert Sort(e) + l == Sort(e) + first + [x];
      assert e + l == e + first + [x];
    }
  }

  // ----- Interpolation -----

  function Floor(x: real): int {
    x.Floor
  }

  function Ceiling(x: real): int {
    -((-x).Floor)
  }

  /** The rank of a percentile strictly between 0 and 100. */
  function Rank(n: nat, p: real): real {
    p / 100.0 * (n - 1) as real
  }

  function Between(a: int, b: int, weight: real): real {
    a as real * (1.0 - weight) + b as real * weight
  }

  lemma RankInRange(n: nat, p: real)
    requires n > 0 && 0.0 < p < 100.0
    ensures 0.0 <= Rank(n, p) <= (n - 1) as real
  {
    var f := p / 100.0;
    var m := (n - 1) as real;
    assert f * m <= 1.0 * m by { ScaleUp(f, 1.0, m); }
    assert 0.0 * m <= f * m by { ScaleUp(0.0, f, m); }
  }

  lemma ScaleUp(a: real, b: real, m: real)
    requires a <= b && m >= 0.0
    ensures a * m <= b * m
  {
  }

  lemma RankMonotone(n: nat, p: real, p': real)
    requires n > 0 && p <= p'
    ensures Rank(n, p) <= Rank(n, p')
  {
    var f, f', m := p / 100.0, p' / 100.0, (n - 1) as real;
    assert f <= f';
    ScaleUp(f, f', m);
  }

  lemma FloorCeiling(x: real)
    ensures Floor(x) as real <= x < Floor(x) as real + 1.0
    ensures Ceiling(x) as real - 1.0 < x <= Ceiling(x) as real
    ensures Ceiling(x) == if Floor(x) as real == x then Floor(x) else Floor(x) + 1
  {
  }

  /** The value at a rank, on sorted samples. */
  function AtRank(s: seq<int>, rank: real): real
    requires s != [] && 0.0 <= rank <= (|s| - 1) as real
  {
    FloorCeiling(rank);
    Between(s[Floor(rank)], s[Ceiling(rank)], rank - Floor(rank) as real)
  }

  /** `percentile` on samples it takes to be sorted. */
  function Percentile(s: seq<int>, p: real): real
    requires s != []
  {
    if p <= 0.0 then s[0] as real
    else if p >= 100.0 then s[|s| - 1] as real
    else
      RankInRange(|s|, p);
      AtRank(s, Rank(|s|, p))
  }

  lemma BetweenIsLinear(a: int, b: int, w: real)
    ensures Between(a, b, w) == a as real + (b - a) as real * w
  {
    var x, y := a as real, b as real;
    assert (b - a) as real == y - x;
    assert x * (1.0 - w) == x - x * w;
    assert (y - x) * w == y * w - x * w;
  }

  lemma BetweenMonotone(a: int, b: int, w: real, w': real)
    requires a <= b && w <= w'
    ensures Between(a, b, w) <= Between(a, b, w')
  {
    BetweenIsLinear(a, b, w);
    BetweenIsLinear(a, b, w');
    ScaleUp(w, w', (b - a) as real);
  }

  lemma BetweenBounds(a: int, b: int, w: real)
    requires a <= b && 0.0 <= w <= 1.0
    ensures a as real <= Between(a, b, w) <= b as real
  {
    BetweenMonotone(a, b, 0.0, w);
    BetweenMonotone(a, b, w, 1.0);
    assert Between(a, b, 0.0) == a as real && Between(a, b, 1.0) == b as real;
  }

  lemma AtRankMonotone(s: seq<int>, r: real, r': real)
    requires s != [] && Sorted(s) && 0.0 <= r <= r' <= (|s| - 1) as real
    ensures AtRank(s, r) <= AtRank(s, r')
  {
    FloorCeiling(r);
    FloorCeiling(r');
    var lo, lo' := Floor(r), Floor(r');
    if lo < lo' {
      BetweenBounds(s[lo], s[Ceiling(r)], r - lo as real);
      BetweenBounds(s[lo'], s[Ceiling(r')], r' - lo' as real);
    } else if Ceiling(r) == Ceiling(r') {
      BetweenMonotone(s[lo], s[Ceiling(r)], r - lo as real, r' - lo as real);
    } else {
      BetweenBounds(s[lo'], s[Ceiling(r')], r' - lo' as real);
    }
  }

  lemma AtRankBounds(s: seq<int>, r: real)
    requires s != [] && Sorted(s) && 0.0 <= r <= (|s| - 1) as real
    ensures s[0] as real <= AtRank(s, r) <= s[|s| - 1] as real
  {
    FloorCeiling(r);
    BetweenBounds(s[Floor(r)], s[Ceiling(r)], r - Floor(r) as real);
  }

  /** Percentiles of sorted samples grow with p and stay between the smallest and the largest sample. */
  lemma PercentileMonotone(s: seq<int>, p: real, p': real)
    requires s != [] && Sorted(s) && p <= p'
    ensures s[0] as real <= Percentile(s, p) <= Percentile(s, p') <= s[|s| - 1] as real
  {
    var r, r' := Rank(|s|, p), Rank(|s|, p');
    if 0.0 < p < 100.0 {
      RankInRange(|s|, p);
      AtRankBounds(s, r);
    }
    if 0.0 < p' < 100.0 {
      RankInRange(|s|, p');
      AtRankBounds(s, r');
    }
    if 0.0 < p && p' < 100.0 {
      RankMonotone(|s|, p, p');
      AtRankMonotone(s, r, r');
    }
  }

  ghost predicate IsMin(s: seq<int>, m: int) {
    m in s && forall x :: x in s ==> m <= x
  }

  ghost predicate IsMax(s: seq<int>, m: int) {
    m in s && forall x :: x in s ==> x <= m
  }

  // ----- When an array gives the right percentiles -----

  lemma RankOfPoint(n: nat, x: real, p: real)
    requires 1 < n && 0.0 < x < (n - 1) as real && p == 100.0 * x / (n - 1) as real
    ensures 0.0 < p < 100.0 && Rank(n, p) == x
  {
    var m := (n - 1) as real;
    assert p * m == 100.0 * x;
    assert p > 0.0 by {
      if p <= 0.0 {
        ScaleUp(p, 0.0, m);
      }
    }
    assert p < 100.0 by {
      if p >= 100.0 {
        ScaleUp(100.0, p, m);
      }
    }
    assert p / 100.0 * m == p * m / 100.0;
  }

  lemma WholeScale(m: real)
    requires m > 0.0
    ensures 100.0 * m / m == 100.0 && 100.0 * 0.0 / m == 0.0
  {
  }

  lemma FloorOf(k: int, w: real)
    requires 0.0 <= w < 1.0
    ensures Floor(k as real + w) == k
  {
  }

  /** Percentiles are the straight lines between neighbouring samples, spaced evenly from 0 to 100. */
  lemma PercentileIsLinear(s: seq<int>, k: nat, w: real)
    requires k + 1 < |s| && 0.0 <= w <= 1.0
    ensures Percentile(s, 100.0 * (k as real + w) / (|s| - 1) as real) == s[k] as real + (s[k + 1] - s[k]) as real * w
  {
    var m, x := (|s| - 1) as real, k as real + w;
    WholeScale(m);
    if x == 0.0 {
    } else if x == m {
      assert w == 1.0 && k + 2 == |s|;
    } else {
      RankOfPoint(|s|, x, 100.0 * x / m);
      FloorCeiling(x);
      if w < 1.0 {
        FloorOf(k, w);
        BetweenIsLinear(s[k], s[Ceiling(x)], w);
      } else {
        FloorOf(k + 1, 0.0);
        BetweenIsLinear(s[k + 1], s[k + 1], 0.0);
      }
    }
  }

  /** Every sample is itself a percentile. */
  lemma SampleAsPercentile(s: seq<int>, k: nat)
    requires 1 < |s| && k < |s|
    ensures Percentile(s, 100.0 * k as real / (|s| - 1) as real) == s[k] as real
  {
    if k + 1 < |s| {
      PercentileIsLinear(s, k, 0.0);
    } else {
      WholeScale(k as real);
    }
  }

  /** Interpolating an array as it stands gives every percentile of its samples if and only if it is sorted. */
  lemma RightIffSorted(s: seq<int>)
    requires s != []
    ensures |Sort(s)| == |s|
    ensures (forall p: real :: Percentile(s, p) == Percentile(Sort(s), p)) <==> Sorted(s)
  {
    var t := Sort(s);
    SortIsSorted(s);
    if Sorted(s) {
      SortOfSorted(s);
    }
    if 1 < |s| && forall p: real :: Percentile(s, p) == Percentile(t, p) {
      forall k | 0 <= k < |s| ensures s[k] == t[k] {
        SampleAsPercentile(s, k);
        SampleAsPercentile(t, k);
        assert Percentile(s, 100.0 * k as real / (|s| - 1) as real) ==
          Percentile(t, 100.0 * k as real / (|s| - 1) as real);
      }
      assert s == t;
    }
  }

  // ----- The tracker over a history of calls -----

  datatype Call = Record(nanoseconds: int) | Query(p: real) | Clear

  /** The two fields. */
  datatype Held = Held(samples: seq<int>, flagged: bool)

  const FRESH := Held([], false)

  /** The array a query interpolates: it sorts only while the flag is clear. */
  function Read(t: Held): seq<int> {
    if t.flagged then t.samples else Sort(t.samples)
  }

  function Answer(t: Held, p: real): real {
    SortIsSorted(t.samples);
    if t.samples == [] then 0.0 else Percentile(Read(t), p)
  }

  /** One call. `reset` clears the samples and, like `recordNs`, leaves the flag. */
  function Step(t: Held, call: Call): Held {
    match call
    case Record(x) => t.(samples := t.samples + [x])
    case Query(_) => if t.samples == [] then t else Held(Read(t), true)
    case Clear => t.(samples := [])
  }

  function After(calls: seq<Call>): Held {
    if calls == [] then FRESH else Step(After(calls[..|calls| - 1]), calls[|calls| - 1])
  }

  /** What the queries of a history answer, in order. */
  function Answers(calls: seq<Call>): seq<real> {
    if calls == [] then []
    else
      var before, last := calls[..|calls| - 1], calls[|calls| - 1];
      Answers(before) + if last.Query? then [Answer(After(before), last.p)] else []
  }

  /** The samples recorded since the last reset, in order: what a percentile is meant to be about. */
  function Recorded(calls: seq<Call>): seq<int> {
    if calls == [] then []
    else
      var before := Recorded(calls[..|calls| - 1]);
      match calls[|calls| - 1]
      case Record(x) => before + [x]
      case Query(_) => before
      case Clear => []
  }

  /** Some query has found samples: from then on the tracker believes it is sorted, across resets too. */
  predicate Asked(calls: seq<Call>) {
    calls != [] &&
    var before := calls[..|calls| - 1];
    Asked(before) || (calls[|calls| - 1].Query? && Recorded(before) != [])
  }

  /** The samples since the last reset that were recorded before that query. */
  function Early(calls: seq<Call>): seq<int> {
    if calls == [] then []
    else
      var before := calls[..|calls| - 1];
      match calls[|calls| - 1]
      case Record(x) => if Asked(before) then Early(before) else Early(before) + [x]
      case Query(_) => Early(before)
      case Clear => []
  }

  /** The samples since the last reset that were recorded after it. */
  function Late(calls: seq<Call>): seq<int> {
    if calls == [] then []
    else
      var before := calls[..|calls| - 1];
      match calls[|calls| - 1]
      case Record(x) => if Asked(before) then Late(before) + [x] else Late(before)
      case Query(_) => Late(before)
      case Clear => []
  }

  lemma {:induction false} EarlyThenLate(calls: seq<Call>)
    ensures Recorded(calls) == Early(calls) + Late(calls)
    ensures !Asked(calls) ==> Late(calls) == []
  {
    if calls != [] {
      EarlyThenLate(calls[..|calls| - 1]);
    }
  }

  /** The fields after a history: the early samples sorted, the late ones as they came. */
  lemma {:induction false} HeldAfter(calls: seq<Call>)
    ensures After(calls) ==
      if Asked(calls) then Held(Sort(Early(calls)) + Late(calls), true) else Held(Early(calls), false)
  {
    if calls != [] {
      var before := calls[..|calls| - 1];
      HeldAfter(before);
      EarlyThenLate(before);
      SortIsSorted(Early(before));
    }
  }

  ghost predicate AllBelow(s: seq<int>, t: seq<int>) {
    forall x, y :: x in s && y in t ==> x <= y
  }

  /** The samples recorded after the first query came in ascending order, none below an earlier one. */
  ghost predicate LateInOrder(calls: seq<Call>) {
    Sorted(Late(calls)) && AllBelow(Early(calls), Late(calls))
  }

  lemma SortedJoin(s: seq<int>, t: seq<int>)
    requires Sorted(s)
    ensures Sorted(s + t) <==> Sorted(t) && AllBelow(s, t)
  {
    var u := s + t;
    if Sorted(u) {
      forall x, y | x in s && y in t ensures x <= y {
        var i :| 0 <= i < |s| && s[i] == x;
        var j :| 0 <= j < |t| && t[j] == y;
        assert u[i] <= u[|s| + j];
      }
      assert forall i :: 0 <= i < |t| ==> t[i] == u[|s| + i];
    }
    if Sorted(t) && AllBelow(s, t) {
      forall i, j | 0 <= i < j < |u| ensures u[i] <= u[j] {
        if i < |s| {
          assert s[i] in s;
          assert j < |s| || t[j - |s|] in t;
        }
      }
    }
  }

  /** The percentiles of a history's samples. */
  function TruePercentile(calls: seq<Call>, p: real): real {
    SortIsSorted(Recorded(calls));
    if Recorded(calls) == [] then 0.0 else Percentile(Sort(Recorded(calls)), p)
  }

  /** After any history of records, queries and resets, every percentile is answered truly if and only if the samples
      recorded since the last reset and after the first query that found any are in ascending order and not below
      the ones before it. */
  lemma AnswersTrueIff(calls: seq<Call>)
    ensures (forall p: real :: Answer(After(calls), p) == TruePercentile(calls, p)) <==> LateInOrder(calls)
  {
    HeldAfter(calls);
    EarlyThenLate(calls);
    var e, l := Early(calls), Late(calls);
    SortIsSorted(e);
    SameElements(e, Sort(e));
    if e + l != [] && Asked(calls) {
      SortPrefix(e, l);
      RightIffSorted(Sort(e) + l);
      SortedJoin(Sort(e), l);
      assert forall p: real :: Answer(After(calls), p) == Percentile(Sort(e) + l, p);
      assert forall p: real :: TruePercentile(calls, p) == Percentile(Sort(Sort(e) + l), p);
    } else {
      assert l == [] && e + l == e;
    }
  }

  class LatencyTracker {
    var samplesNs: seq<int>
    var sorted: bool

    ghost function State(): Held
      reads this
    {
      Held(samplesNs, sorted)
    }

    constructor ()
      ensures State() == FRESH
    {
      samplesNs, sorted := [], false;
    }

    /** Clears the samples but, like `RecordNs`, not the flag. */
    method Reset()
      modifies this
      ensures State() == Step(old(State()), Clear)
      ensures samplesNs == [] && sorted == old(sorted)
    {
      samplesNs := [];
    }

    method RecordNs(nanoseconds: int)
      modifies this
      ensures State() == Step(old(State()), Record(nanoseconds))
      ensures samplesNs == old(samplesNs) + [nanoseconds] && sorted == old(sorted)
    {
      samplesNs := samplesNs + [nanoseconds];
    }

    /** Sorts on the first call only. The samples end up sorted if and only if the flag was still clear or they
        happened to be in order already. */
    method PercentileNs(p: real) returns (r: real)
      modifies this
      ensures State() == Step(old(State()), Query(p)) && r == Answer(old(State()), p)
      ensures samplesNs == [] ==> r == 0.0
      ensures multiset(samplesNs) == multiset(old(samplesNs))
      ensures Sorted(samplesNs) <==> !old(sorted) || Sorted(old(samplesNs))
    {
      SortIsSorted(samplesNs);
      if |samplesNs| == 0 {
        return 0.0;
      }
      if !sorted {
        samplesNs := SortSamples(samplesNs);
        sorted := true;
      }
      r := Interpolate(samplesNs, p);
    }

    /** A whole history of calls on a new tracker. */
    method Perform(calls: seq<Call>) returns (answers: seq<real>)
      requires State() == FRESH
      modifies this
      ensures State() == After(calls) && answers == Answers(calls)
    {
      answers := [];
      for i := 0 to |calls|
        invariant State() == After(calls[..i]) && answers == Answers(calls[..i])
      {
        assert calls[..i + 1][..i] == calls[..i];
        match calls[i]
        case Record(x) => RecordNs(x);
        case Query(p) =>
          var r := PercentileNs(p);
          answers := answers + [r];
        case Clear => Reset();
      }
      assert calls[..|calls|] == calls;
    }

    method MinNs() returns (m: int)
      ensures if samplesNs == [] then m == 0 else IsMin(samplesNs, m)
    {
      m := if |samplesNs| == 0 then 0 else samplesNs[0];
      for i := 0 to |samplesNs|
        invariant if samplesNs == [] then m == 0 else m in samplesNs
        invariant forall x :: x in samplesNs[..i] ==> m <= x
      {
        assert samplesNs[..i + 1] == samplesNs[..i] + [samplesNs[i]];
        m := if samplesNs[i] < m then samplesNs[i] else m;
      }
      assert samplesNs[..|samplesNs|] == samplesNs;
    }

    method MaxNs() returns (m: int)
      ensures if samplesNs == [] then m == 0 else IsMax(samplesNs, m)
    {
      m := if |samplesNs| == 0 then 0 else samplesNs[0];
      for i := 0 to |samplesNs|
        invariant if samplesNs == [] then m == 0 else m in samplesNs
        invariant forall x :: x in samplesNs[..i] ==> x <= m
      {
        assert samplesNs[..i + 1] == samplesNs[..i] + [samplesNs[i]];
        m := if samplesNs[i] > m then samplesNs[i] else m;
      }
      assert samplesNs[..|samplesNs|] == samplesNs;
    }
  }

  /** The interpolation at the end of `percentile`. */
  method Interpolate(s: seq<int>, p: real) returns (r: real)
    requires s != []
    ensures r == Percentile(s, p)
  {
    if p <= 0.0 {
      return s[0] as real;
    }
    if p >= 100.0 {
      return s[|s| - 1] as real;
    }
    var rank := Rank(|s|, p);
    RankInRange(|s|, p);
    FloorCeiling(rank);
    var lower, upper := rank.Floor, Ceiling(rank);
    var weight := rank - lower as real;
    return Between(s[lower], s[upper], weight);
  }

  /** The library sort, as an insertion sort. */
  method SortSamples(s: seq<int>) returns (t: seq<int>)
    ensures t == Sort(s)
  {
    t := [];
    for i := 0 to |s|
      invariant t == Sort(s[..i])
    {
      assert s[..i + 1][..i] == s[..i];
      t := InsertInto(t, s[i]);
    }
    assert s[..|s|] == s;
  }

  /** While the late samples are in order, percentiles grow with p from the true minimum to the true maximum of
      everything recorded since the last reset. */
  lemma PercentileEnds(calls: seq<Call>, p: real, p': real, low: int, high: int)
    requires LateInOrder(calls) && IsMin(Recorded(calls), low) && IsMax(Recorded(calls), high) && p <= p'
    ensures low as real <= Answer(After(calls), p) <= Answer(After(calls), p') <= high as real
    ensures p <= 0.0 ==> Answer(After(calls), p) == low as real
    ensures p >= 100.0 ==> Answer(After(calls), p) == high as real
  {
    var t := Sort(Recorded(calls));
    AnswersTrueIff(calls);
    SortIsSorted(Recorded(calls));
    SameElements(Recorded(calls), t);
    assert Answer(After(calls), p) == TruePercentile(calls, p);
    assert Answer(After(calls), p') == TruePercentile(calls, p');
    assert t[0] in t && t[|t| - 1] in t;
    var i :| 0 <= i < |t| && t[i] == low;
    var j :| 0 <= j < |t| && t[j] == high;
    PercentileMonotone(t, p, p');
  }

  /** Recording after the first query breaks this: after 2, a query, and then 1, the top percentile is 1. */
  lemma StaleFlag()
    ensures var calls := [Record(2), Query(50.0), Record(1)];
      && Answer(After(calls), 100.0) == 1.0 && IsMax(Recorded(calls), 2)
      && !LateInOrder(calls)
  {
    var calls := [Record(2), Query(50.0), Record(1)];
    StaleRun(calls);
    assert 2 in [2, 1] && 1 in [2, 1];
    if LateInOrder(calls) {
      PercentileEnds(calls, 100.0, 100.0, 1, 2);
    }
  }

  lemma StaleRun(calls: seq<Call>)
    requires calls == [Record(2), Query(50.0), Record(1)]
    ensures After(calls) == Held([2, 1], true) && Recorded(calls) == [2, 1]
  {
    AfterThree(Record(2), Query(50.0), Record(1));
    SortOfSorted([2]);
    assert Step(FRESH, Record(2)) == Held([2], false);
    assert Step(Held([2], false), Query(50.0)) == Held([2], true);
  }

  lemma AfterThree(a: Call, b: Call, c: Call)
    ensures After([a, b, c]) == Step(Step(Step(FRESH, a), b), c)
    ensures a.Record? && b.Query? && c.Record? ==> Recorded([a, b, c]) == [a.nanoseconds, c.nanoseconds]
  {
    assert [a, b, c][..2] == [a, b] && [a, b][..1] == [a] && [a][..0] == [];
    assert After([a]) == Step(FRESH, a);
    assert After([a, b]) == Step(After([a]), b);
    assert a.Record? ==> Recorded([a]) == [a.nanoseconds];
    assert b.Query? ==> Recorded([a, b]) == Recorded([a]);
  }
}
