/** The per-client rate limiter of bridge.py, over exact reals. The clock is a parameter of each call. */
module TokenBuckets {

  datatype Bucket = Bucket(rate: real, capacity: real, tokens: real, lastUpdate: real)

  datatype Request = Request(at: real, cost: real)

  function Min(a: real, b: real): real {
    if a <= b then a else b
  }

  /** Tokens that drip in between two moments. */
  function Drip(rate: real, from: real, until: real): real {
    (until - from) * rate
  }

  function Refilled(b: Bucket, now: real): real {
    Min(b.capacity, b.tokens + Drip(b.rate, b.lastUpdate, now))
  }

  function Allow(b: Bucket, r: Request): (Bucket, bool) {
    var tokens := Refilled(b, r.at);
    if tokens >= r.cost then (b.(tokens := tokens - r.cost, lastUpdate := r.at), true)
    else (b.(tokens := tokens, lastUpdate := r.at), false)
  }

  /** A new bucket is full. */
  function Full(rate: real, capacity: real, now: real): Bucket {
    Bucket(rate, capacity, capacity, now)
  }

  /** The bucket and the answers after a stream of requests. */
  function Serve(b: Bucket, reqs: seq<Request>): (r: (Bucket, seq<bool>))
    ensures |r.1| == |reqs|
    ensures r.0.rate == b.rate && r.0.capacity == b.capacity
    ensures r.0.lastUpdate == if reqs == [] then b.lastUpdate else reqs[|reqs| - 1].at
  {
    if reqs == [] then (b, [])
    else
      var n := |reqs| - 1;
      var (c, answers) := Serve(b, reqs[..n]);
      var (d, ok) := Allow(c, reqs[n]);
      (d, answers + [ok])
  }

  /** A clock that does not run backwards, costs that are not negative, a bucket that can hold tokens. */
  ghost predicate Sane(b: Bucket, reqs: seq<Request>) {
    && b.rate >= 0.0 && b.capacity >= 0.0 && b.tokens == b.capacity
    && (forall i :: 0 <= i < |reqs| ==> reqs[i].cost >= 0.0 && reqs[i].at >= b.lastUpdate)
    && (forall i, j :: 0 <= i < j < |reqs| ==> reqs[i].at <= reqs[j].at)
  }

  lemma SanePrefix(b: Bucket, reqs: seq<Request>)
    requires reqs != [] && Sane(b, reqs)
    ensures Sane(b, reqs[..|reqs| - 1])
    ensures reqs[|reqs| - 1].at >= Serve(b, reqs[..|reqs| - 1]).0.lastUpdate
  {
  }

  lemma DripNotNegative(rate: real, from: real, until: real)
    requires rate >= 0.0 && from <= until
    ensures Drip(rate, from, until) >= 0.0
  {
  }

  lemma DripSplits(rate: real, from: real, middle: real, until: real)
    ensures Drip(rate, from, until) == Drip(rate, from, middle) + Drip(rate, middle, until)
    ensures Drip(rate, from, from) == 0.0
  {
  }

  lemma {:induction false} TokensInRange(b: Bucket, reqs: seq<Request>)
    requires Sane(b, reqs)
    ensures 0.0 <= Serve(b, reqs).0.tokens <= b.capacity
  {
    if reqs != [] {
      var n := |reqs| - 1;
      var c := Serve(b, reqs[..n]).0;
      SanePrefix(b, reqs);
      TokensInRange(b, reqs[..n]);
      DripNotNegative(b.rate, c.lastUpdate, reqs[n].at);
    }
  }

  /** Total cost of the requests from `i` on. */
  function Demand(reqs: seq<Request>, i: nat): real {
    if |reqs| <= i then 0.0 else Demand(reqs[..|reqs| - 1], i) + reqs[|reqs| - 1].cost
  }

  /** Total cost granted from request `i` on. */
  function Granted(reqs: seq<Request>, answers: seq<bool>, i: nat): real
    requires |answers| == |reqs|
  {
    if |reqs| <= i then 0.0
    else
      var n := |reqs| - 1;
      Granted(reqs[..n], answers[..n], i) + if answers[n] then reqs[n].cost else 0.0
  }

  /** Allowance of a window: a full bucket, and what drips in between its first and its last request. */
  function Allowance(b: Bucket, first: Request, last: Request): real {
    b.capacity + Drip(b.rate, first.at, last.at)
  }

  lemma {:induction false} Spent(b: Bucket, reqs: seq<Request>, i: nat)
    requires Sane(b, reqs) && i < |reqs|
    ensures Serve(b, reqs).0.tokens + Granted(reqs, Serve(b, reqs).1, i) <=
      Allowance(b, reqs[i], reqs[|reqs| - 1])
    decreases |reqs|
  {
    var n := |reqs| - 1;
    var (c, answers) := Serve(b, reqs[..n]);
    assert Serve(b, reqs).1[..n] == answers;
    if i < n {
      SanePrefix(b, reqs);
      Spent(b, reqs[..n], i);
      DripSplits(b.rate, reqs[i].at, reqs[n - 1].at, reqs[n].at);
    } else {
      assert Granted(reqs[..n], answers, i) == 0.0;
      DripSplits(b.rate, reqs[n].at, reqs[n].at, reqs[n].at);
    }
  }

  /** The cost granted in any window is at most capacity + rate * window length. The window runs from request `i` to
      the end of `reqs`, for every `i` and every stream, so it is any window of any run. */
  lemma GrantsBounded(b: Bucket, reqs: seq<Request>, i: nat)
    requires Sane(b, reqs) && i < |reqs|
    ensures Granted(reqs, Serve(b, reqs).1, i) <= Allowance(b, reqs[i], reqs[|reqs| - 1])
  {
    Spent(b, reqs, i);
    TokensInRange(b, reqs);
  }

  /** Before a request is answered, what is there stays within every window's allowance. */
  lemma RefillBounded(b: Bucket, reqs: seq<Request>, i: nat)
    requires reqs != [] && Sane(b, reqs) && i < |reqs|
    ensures var n := |reqs| - 1; var (c, answers) := Serve(b, reqs[..n]);
      Refilled(c, reqs[n].at) + Granted(reqs[..n], answers, i) <= Allowance(b, reqs[i], reqs[n])
  {
    var n := |reqs| - 1;
    SanePrefix(b, reqs);
    if i < n {
      Spent(b, reqs[..n], i);
      DripSplits(b.rate, reqs[i].at, reqs[n - 1].at, reqs[n].at);
    } else {
      DripSplits(b.rate, reqs[n].at, reqs[n].at, reqs[n].at);
    }
  }

  /** And it is as much as the tightest window allows: the one that starts when the bucket was last full. */
  lemma {:induction false} RefillTight(b: Bucket, reqs: seq<Request>) returns (i: nat)
    requires reqs != [] && Sane(b, reqs)
    ensures i < |reqs|
    ensures var n := |reqs| - 1; var (c, answers) := Serve(b, reqs[..n]);
      Refilled(c, reqs[n].at) + Granted(reqs[..n], answers, i) == Allowance(b, reqs[i], reqs[n])
    decreases |reqs|
  {
    var n := |reqs| - 1;
    var before := reqs[..n];
    var (c, answers) := Serve(b, before);
    SanePrefix(b, reqs);
    if Refilled(c, reqs[n].at) == b.capacity {
      i := n;
      DripSplits(b.rate, reqs[n].at, reqs[n].at, reqs[n].at);
    } else if n == 0 {
      DripNotNegative(b.rate, c.lastUpdate, reqs[n].at);
      assert false;
    } else {
      i := RefillTight(b, before);
      assert answers[..n - 1] == Serve(b, before[..n - 1]).1;
      DripSplits(b.rate, reqs[i].at, reqs[n - 1].at, reqs[n].at);
    }
  }

  /** In every window that ends with request `k`, its cost and what was granted before it fit the allowance. */
  ghost predicate FitsEveryWindow(b: Bucket, reqs: seq<Request>, answers: seq<bool>, k: nat)
    requires k < |reqs| == |answers|
  {
    forall i :: 0 <= i <= k ==> Granted(reqs[..k], answers[..k], i) + reqs[k].cost <= Allowance(b, reqs[i], reqs[k])
  }

  lemma {:induction false} ServePrefix(b: Bucket, reqs: seq<Request>, k: nat)
    requires k <= |reqs|
    ensures Serve(b, reqs[..k]).1 == Serve(b, reqs).1[..k]
    decreases |reqs|
  {
    if k < |reqs| {
      assert reqs[..|reqs| - 1][..k] == reqs[..k];
      ServePrefix(b, reqs[..|reqs| - 1], k);
    } else {
      assert reqs[..k] == reqs;
    }
  }

  lemma LastAnswerIff(b: Bucket, reqs: seq<Request>)
    requires reqs != [] && Sane(b, reqs)
    ensures Serve(b, reqs).1[|reqs| - 1] <==> FitsEveryWindow(b, reqs, Serve(b, reqs).1, |reqs| - 1)
  {
    var n := |reqs| - 1;
    var (c, answers) := Serve(b, reqs[..n]);
    assert Serve(b, reqs).1[..n] == answers;
    var i := RefillTight(b, reqs);
    forall j | 0 <= j <= n
      ensures Refilled(c, reqs[n].at) + Granted(reqs[..n], answers, j) <= Allowance(b, reqs[j], reqs[n])
    {
      RefillBounded(b, reqs, j);
    }
  }

  lemma {:induction false} SaneUpTo(b: Bucket, reqs: seq<Request>, k: nat)
    requires Sane(b, reqs) && k <= |reqs|
    ensures Sane(b, reqs[..k])
  {
  }

  /** Every answer of every stream, refusals or not: a request is granted if and only if in every window that ends with
      it, its cost and what the window has granted so far fit a full bucket and what drips in meanwhile. A refused
      request takes nothing. */
  lemma GrantedIff(b: Bucket, reqs: seq<Request>, k: nat)
    requires Sane(b, reqs) && k < |reqs|
    ensures Serve(b, reqs).1[k] <==> FitsEveryWindow(b, reqs, Serve(b, reqs).1, k)
  {
    var upTo := reqs[..k + 1];
    SaneUpTo(b, reqs, k + 1);
    ServePrefix(b, reqs, k + 1);
    LastAnswerIff(b, upTo);
    assert upTo[..k] == reqs[..k];
    assert Serve(b, reqs).1[..k + 1][..k] == Serve(b, reqs).1[..k];
  }

  /** A new bucket is full, whatever sane requests follow. */
  lemma NewIsSane(rate: real, capacity: real, now: real, reqs: seq<Request>)
    requires rate >= 0.0 && capacity >= 0.0
    requires forall i :: 0 <= i < |reqs| ==> reqs[i].cost >= 0.0 && reqs[i].at >= now
    requires forall i, j :: 0 <= i < j < |reqs| ==> reqs[i].at <= reqs[j].at
    ensures Sane(Full(rate, capacity, now), reqs)
  {
  }

  /** Demand within the allowance in every window. */
  ghost predicate WithinAllowance(b: Bucket, reqs: seq<Request>) {
    reqs == [] ||
    var n := |reqs| - 1;
    && WithinAllowance(b, reqs[..n])
    && forall i :: 0 <= i <= n ==> Demand(reqs, i) <= Allowance(b, reqs[i], reqs[n])
  }

  ghost predicate AllGranted(answers: seq<bool>) {
    forall k :: 0 <= k < |answers| ==> answers[k]
  }

  lemma {:induction false} NeverRefused(b: Bucket, reqs: seq<Request>)
    requires Sane(b, reqs) && WithinAllowance(b, reqs)
    ensures AllGranted(Serve(b, reqs).1)
  {
    if reqs != [] {
      var n := |reqs| - 1;
      var answers := Serve(b, reqs[..n]).1;
      SanePrefix(b, reqs);
      NeverRefused(b, reqs[..n]);
      assert Serve(b, reqs).1[..n] == answers;
      forall i | 0 <= i <= n
        ensures Granted(reqs[..n], answers, i) + reqs[n].cost <= Allowance(b, reqs[i], reqs[n])
      {
        GrantedIsDemand(reqs[..n], answers, i);
        assert Demand(reqs, i) == Demand(reqs[..n], i) + reqs[n].cost;
      }
      LastAnswerIff(b, reqs);
    }
  }

  lemma {:induction false} GrantedIsDemand(reqs: seq<Request>, answers: seq<bool>, i: nat)
    requires |answers| == |reqs| && AllGranted(answers)
    ensures Granted(reqs, answers, i) == Demand(reqs, i)
  {
    if |reqs| > i {
      GrantedIsDemand(reqs[..|reqs| - 1], answers[..|reqs| - 1], i);
    }
  }

  lemma {:induction false} GrantedMeansWithin(b: Bucket, reqs: seq<Request>)
    requires Sane(b, reqs) && AllGranted(Serve(b, reqs).1)
    ensures WithinAllowance(b, reqs)
  {
    if reqs != [] {
      var n := |reqs| - 1;
      SanePrefix(b, reqs);
      assert Serve(b, reqs[..n]).1 == Serve(b, reqs).1[..n];
      GrantedMeansWithin(b, reqs[..n]);
      forall i | 0 <= i <= n ensures Demand(reqs, i) <= Allowance(b, reqs[i], reqs[n]) {
        GrantsBounded(b, reqs, i);
        GrantedIsDemand(reqs, Serve(b, reqs).1, i);
      }
    }
  }

  /** A request stream is never refused if and only if its demand meets the bound in every window. */
  lemma NeverRefusedIff(b: Bucket, reqs: seq<Request>)
    requires Sane(b, reqs)
    ensures AllGranted(Serve(b, reqs).1) <==> WithinAllowance(b, reqs)
  {
    if WithinAllowance(b, reqs) {
      NeverRefused(b, reqs);
    }
    if AllGranted(Serve(b, reqs).1) {
      GrantedMeansWithin(b, reqs);
    }
  }

  class TokenBucketRateLimiter {
    const rate: real
    const capacity: real
    var tokens: real
    var lastUpdate: real

    ghost function State(): Bucket
      reads this
    {
      Bucket(rate, capacity, tokens, lastUpdate)
    }

    constructor (rate: real, capacity: real, now: real)
      ensures State() == Full(rate, capacity, now)
    {
      this.rate, this.capacity, this.tokens, this.lastUpdate := rate, capacity, capacity, now;
    }

    method AllowRequest(now: real, cost: real) returns (ok: bool)
      modifies this
      ensures State() == Allow(old(State()), Request(now, cost)).0
      ensures ok == Allow(old(State()), Request(now, cost)).1
    {
      var elapsed := now - lastUpdate;
      assert elapsed * rate == Drip(rate, lastUpdate, now);
      lastUpdate := now;
      tokens := Min(capacity, tokens + elapsed * rate);
      if tokens >= cost {
        tokens := tokens - cost;
        return true;
      }
      return false;
    }

    /** A stream of requests. */
    method AllowAll(reqs: seq<Request>) returns (answers: seq<bool>)
      modifies this
      ensures State() == Serve(old(State()), reqs).0 && answers == Serve(old(State()), reqs).1
      ensures Sane(old(State()), reqs) ==>
        forall k :: 0 <= k < |reqs| ==> (answers[k] <==> FitsEveryWindow(old(State()), reqs, answers, k))
    {
      answers := [];
      for k := 0 to |reqs|
        invariant State() == Serve(old(State()), reqs[..k]).0 && answers == Serve(old(State()), reqs[..k]).1
      {
        assert reqs[..k + 1][..k] == reqs[..k];
        var ok := AllowRequest(reqs[k].at, reqs[k].cost);
        answers := answers + [ok];
      }
      assert reqs[..|reqs|] == reqs;
      if Sane(old(State()), reqs) {
        forall k | 0 <= k < |reqs| ensures answers[k] <==> FitsEveryWindow(old(State()), reqs, answers, k) {
          GrantedIff(old(State()), reqs, k);
        }
      }
    }
  }
}
