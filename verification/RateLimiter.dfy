/** The fixed-window rate limiter with a swept bucket map (middleware/auth.go). */
module RateLimiting {
  import opened Prelude

  datatype Bucket = Bucket(start: Time, count: nat)

  const EMPTY := Bucket(ZERO_TIME, 0)

  datatype Request = Request(key: string, now: Time)

  datatype Limiter = Limiter(buckets: map<string, Bucket>, sweepAt: Time)

  const NEW_LIMITER := Limiter(map[], ZERO_TIME)

  /** Reading a missing key of a Go map gives the zero bucket. */
  function Lookup(buckets: map<string, Bucket>, key: string): Bucket {
    if key in buckets then buckets[key] else EMPTY
  }

  predicate Expired(bucket: Bucket, now: Time) {
    TimeSub(now, bucket.start) >= MINUTE
  }

  /** A bucket after one more request: counted in the running window, or in a window opened now. */
  function Counted(bucket: Bucket, now: Time): Bucket {
    if bucket.start == ZERO_TIME || Expired(bucket, now) then Bucket(now, 1) else Bucket(bucket.start, bucket.count + 1)
  }

  function Swept(buckets: map<string, Bucket>, now: Time): map<string, Bucket> {
    map k | k in buckets && !Expired(buckets[k], now) :: buckets[k]
  }

  function AfterSweep(l: Limiter, now: Time): Limiter {
    if TimeSub(now, l.sweepAt) >= MINUTE then Limiter(Swept(l.buckets, now), now) else l
  }

  function AfterRequest(l: Limiter, r: Request): Limiter {
    var swept := AfterSweep(l, r.now);
    swept.(buckets := swept.buckets[r.key := Counted(Lookup(swept.buckets, r.key), r.now)])
  }

  /** Whether this request is refused. */
  predicate Exceeds(limit: nat, l: Limiter, r: Request) {
    AfterRequest(l, r).buckets[r.key].count > limit
  }

  class RateLimiter {
    const limit: nat
    var buckets: map<string, Bucket>
    var sweepAt: Time

    constructor (limit: int)
      ensures this.limit == if limit < 1 then 1 else limit
      ensures State() == NEW_LIMITER
    {
      this.limit := if limit < 1 then 1 else limit;
      buckets := map[];
      sweepAt := ZERO_TIME;
    }

    function State(): Limiter
      reads this
    {
      Limiter(buckets, sweepAt)
    }

    /** The part of Middleware's handler that runs under the lock. */
    method Admit(key: string, now: Time) returns (exceeded: bool)
      modifies this
      ensures State() == AfterRequest(old(State()), Request(key, now))
      ensures exceeded == Exceeds(limit, old(State()), Request(key, now))
    {
      if TimeSub(now, sweepAt) >= MINUTE {
        Sweep(now);
        sweepAt := now;
      }
      var bucket := if key in buckets then buckets[key] else Bucket(ZERO_TIME, 0);
      if bucket.start == ZERO_TIME || TimeSub(now, bucket.start) >= MINUTE {
        bucket := Bucket(now, 0);
      }
      bucket := bucket.(count := bucket.count + 1);
      buckets := buckets[key := bucket];
      exceeded := bucket.count > limit;
    }

    /** The deleting range loop; the map may be ranged over in any order. */
    method Sweep(now: Time)
      modifies this`buckets
      ensures buckets == Swept(old(buckets), now)
    {
      var pending := buckets.Keys;
      while pending != {}
        invariant pending <= buckets.Keys <= old(buckets).Keys
        invariant forall k :: k in buckets ==> buckets[k] == old(buckets)[k]
        invariant forall k :: k in old(buckets) && k !in pending ==> (k in buckets <==> !Expired(old(buckets)[k], now))
        decreases pending
      {
        var k :| k in pending;
        pending := pending - {k};
        if TimeSub(now, buckets[k].start) >= MINUTE {
          buckets := map j | j in buckets && j != k :: buckets[j];
        }
      }
    }
  }

  // ---- Runs ----

  function Run(requests: seq<Request>): Limiter {
    if requests == [] then NEW_LIMITER else AfterRequest(Run(requests[..|requests| - 1]), requests[|requests| - 1])
  }

  predicate Rejected(limit: nat, requests: seq<Request>, i: nat)
    requires i < |requests|
  {
    Exceeds(limit, Run(requests[..i]), requests[i])
  }

  /** Clock readings do not decrease in lock order. */
  predicate Ordered(times: seq<Time>) {
    forall i, j :: 0 <= i < j < |times| ==> times[i] <= times[j]
  }

  predicate OrderedRequests(requests: seq<Request>) {
    forall i, j :: 0 <= i < j < |requests| ==> requests[i].now <= requests[j].now
  }

  /** The reference: one key, one bucket, nothing ever swept. */
  function Solo(times: seq<Time>): Bucket {
    if times == [] then EMPTY else Counted(Solo(times[..|times| - 1]), times[|times| - 1])
  }

  predicate SoloRejected(limit: nat, times: seq<Time>, i: nat)
    requires i < |times|
  {
    Solo(times[..i + 1]).count > limit
  }

  /** The times of one key's requests. */
  function TimesOfKey(requests: seq<Request>, key: string): seq<Time> {
    if requests == [] then []
    else
      var front, last := TimesOfKey(requests[..|requests| - 1], key), requests[|requests| - 1];
      if last.key == key then front + [last.now] else front
  }

  /** The map forgets a bucket only once it can no longer matter. */
  predicate Agrees(l: Limiter, key: string, solo: Bucket, now: Time) {
    Lookup(l.buckets, key) == solo || (key !in l.buckets && Expired(solo, now))
  }

  lemma {:induction false} SweptAgreesWithSolo(requests: seq<Request>, key: string, now: Time)
    requires OrderedRequests(requests) && forall i :: 0 <= i < |requests| ==> requests[i].now <= now
    ensures Agrees(Run(requests), key, Solo(TimesOfKey(requests, key)), now)
  {
    if requests != [] {
      var front, last := requests[..|requests| - 1], requests[|requests| - 1];
      SweptAgreesWithSolo(front, key, last.now);
      var times := TimesOfKey(front, key);
      assert (times + [last.now])[..|times|] == times;
    }
  }

  lemma SameDecision(limit: nat, l: Limiter, solo: Bucket, r: Request)
    requires Agrees(l, r.key, solo, r.now)
    ensures Exceeds(limit, l, r) <==> Counted(solo, r.now).count > limit
  {
  }

  lemma SoloNext(times: seq<Time>, now: Time)
    ensures Solo(times + [now]) == Counted(Solo(times), now)
  {
    assert (times + [now])[..|times|] == times;
  }

  /**
   * Refinement and isolation: under any mix of clients and any number of sweeps, a request is refused
   * exactly when an unswept limiter that only ever saw this key's requests would refuse it.
   */
  lemma DecisionsAreIsolated(limit: nat, requests: seq<Request>, i: nat)
    requires OrderedRequests(requests) && i < |requests|
    ensures var times := TimesOfKey(requests[..i + 1], requests[i].key);
      && times != [] && times[|times| - 1] == requests[i].now
      && (Rejected(limit, requests, i) <==> SoloRejected(limit, times, |times| - 1))
  {
    var front, r := requests[..i], requests[i];
    assert requests[..i + 1][..i] == front;
    SweptAgreesWithSolo(front, r.key, r.now);
    var times := TimesOfKey(front, r.key);
    SameDecision(limit, Run(front), Solo(times), r);
    SoloNext(times, r.now);
    assert (times + [r.now])[..|times| + 1] == times + [r.now];
  }

  // ---- Bounds, for one key ----

  /** Requests admitted at or after `from` and before `to`. */
  function Admitted(limit: nat, times: seq<Time>, from: Time, to: Time): nat {
    if times == [] then 0
    else
      var front, last := times[..|times| - 1], times[|times| - 1];
      Admitted(limit, front, from, to) + if from <= last < to && Solo(times).count <= limit then 1 else 0
  }

  predicate Real(times: seq<Time>) {
    Ordered(times) && forall i :: 0 <= i < |times| ==> times[i] != ZERO_TIME
  }

  function Least(a: int, b: int): int {
    if a < b then a else b
  }

  /** What the running window tells about recent admissions. */
  lemma {:induction false} WindowFacts(limit: nat, times: seq<Time>, from: Time, to: Time)
    requires limit >= 1 && Real(times) && times != [] && times[|times| - 1] < to
    ensures var b := Solo(times);
      && b.count >= 1 && b.start != ZERO_TIME && 0 <= times[|times| - 1] - b.start < MINUTE
      && (from > b.start ==> Admitted(limit, times, from, to) <= Least(b.count, limit) - 1)
      && (b.start - MINUTE < from ==> Admitted(limit, times, from, to) <= limit - 1 + Least(b.count, limit))
      && (from <= b.start ==> Admitted(limit, times, from, to) >= Least(b.count, limit))
  {
    var front, last := times[..|times| - 1], times[|times| - 1];
    if front != [] {
      assert front[|front| - 1] == times[|front| - 1] <= last;
      WindowFacts(limit, front, from, to);
    }
    if last < from {
      NothingYet(limit, times, from, to);
    }
  }

  /** With one key, no half-open minute admits more than 2 * limit - 1 requests. */
  lemma {:induction false} MinuteBound(limit: nat, times: seq<Time>, from: Time)
    requires limit >= 1 && Real(times)
    ensures Admitted(limit, times, from, from + MINUTE) <= 2 * limit - 1
  {
    if times != [] {
      var front, last := times[..|times| - 1], times[|times| - 1];
      if last < from + MINUTE {
        WindowFacts(limit, times, from, from + MINUTE);
        if from <= last {
          assert Admitted(limit, times, from, from + MINUTE) <= 2 * limit - 1;
        } else {
          NothingYet(limit, times, from, from + MINUTE);
        }
      } else {
        MinuteBound(limit, front, from);
      }
    }
  }

  lemma {:induction false} NothingYet(limit: nat, times: seq<Time>, from: Time, to: Time)
    requires Ordered(times) && times != [] && times[|times| - 1] < from
    ensures Admitted(limit, times, from, to) == 0
  {
    var front := times[..|times| - 1];
    if front != [] {
      assert front[|front| - 1] == times[|front| - 1] <= times[|times| - 1];
      NothingYet(limit, front, from, to);
    }
  }

  /** A refusal is earned: the key was already admitted `limit` times less than a minute before. */
  lemma RefusalEarned(limit: nat, times: seq<Time>, i: nat)
    requires limit >= 1 && Real(times) && i < |times| && SoloRejected(limit, times, i)
    ensures Admitted(limit, times[..i], times[i] - MINUTE + 1, times[i] + 1) >= limit
  {
    var now, front := times[i], times[..i];
    assert times[..i + 1][..i] == front && times[..i + 1][i] == now;
    assert Solo(times[..i + 1]) == Counted(Solo(front), now);
    assert front[i - 1] == times[i - 1] <= now;
    var b := Solo(front);
    WindowFacts(limit, front, b.start, now + 1);
    AdmittedMonotone(limit, front, b.start, now - MINUTE + 1, now + 1);
  }

  lemma {:induction false} AdmittedMonotone(limit: nat, times: seq<Time>, later: Time, from: Time, to: Time)
    requires from <= later
    ensures Admitted(limit, times, later, to) <= Admitted(limit, times, from, to)
  {
    if times != [] {
      AdmittedMonotone(limit, times[..|times| - 1], later, from, to);
    }
  }

  // ---- The bounds, for the limiter itself ----

  /** Requests of `key` that the limiter admitted at or after `from` and before `to`, in a run with any clients. */
  function AdmittedInRun(limit: nat, requests: seq<Request>, key: string, from: Time, to: Time): nat {
    if requests == [] then 0
    else
      var n := |requests| - 1;
      var r := requests[n];
      AdmittedInRun(limit, requests[..n], key, from, to)
      + if r.key == key && from <= r.now < to && !Rejected(limit, requests, n) then 1 else 0
  }

  lemma LastDecision(limit: nat, requests: seq<Request>)
    requires OrderedRequests(requests) && requests != []
    ensures var last := |requests| - 1;
      Rejected(limit, requests, last) <==> Solo(TimesOfKey(requests, requests[last].key)).count > limit
  {
    var front, last := requests[..|requests| - 1], requests[|requests| - 1];
    SweptAgreesWithSolo(front, last.key, last.now);
    SameDecision(limit, Run(front), Solo(TimesOfKey(front, last.key)), last);
    SoloNext(TimesOfKey(front, last.key), last.now);
  }

  lemma {:induction false} AdmittedIsIsolated(limit: nat, requests: seq<Request>, key: string, from: Time, to: Time)
    requires OrderedRequests(requests)
    ensures AdmittedInRun(limit, requests, key, from, to) == Admitted(limit, TimesOfKey(requests, key), from, to)
  {
    if requests != [] {
      var n := |requests| - 1;
      AdmittedIsIsolated(limit, requests[..n], key, from, to);
      if requests[n].key == key {
        LastDecision(limit, requests);
        var front, times := TimesOfKey(requests[..n], key), TimesOfKey(requests, key);
        assert times == front + [requests[n].now];
        assert times[..|times| - 1] == front;
        assert Admitted(limit, times, from, to) == Admitted(limit, front, from, to)
          + if from <= requests[n].now < to && Solo(times).count <= limit then 1 else 0;
      }
    }
  }

  lemma {:induction false} KeyTimesReal(requests: seq<Request>, key: string)
    requires OrderedRequests(requests) && forall i :: 0 <= i < |requests| ==> requests[i].now != ZERO_TIME
    ensures Real(TimesOfKey(requests, key))
    ensures forall t :: t in TimesOfKey(requests, key) ==> requests != [] && t <= requests[|requests| - 1].now
  {
    if requests != [] {
      var front := requests[..|requests| - 1];
      KeyTimesReal(front, key);
      var times, last := TimesOfKey(front, key), requests[|requests| - 1];
      forall i | 0 <= i < |times| ensures times[i] <= last.now {
        assert times[i] in times;
      }
    }
  }

  /** In every run of the limiter, each key is admitted at most 2 * limit - 1 times in any half-open minute. */
  lemma LimiterMinuteBound(limit: nat, requests: seq<Request>, key: string, from: Time)
    requires limit >= 1 && OrderedRequests(requests) && forall i :: 0 <= i < |requests| ==> requests[i].now != ZERO_TIME
    ensures AdmittedInRun(limit, requests, key, from, from + 60_000_000_000) <= 2 * limit - 1
  {
    AdmittedIsIsolated(limit, requests, key, from, from + MINUTE);
    KeyTimesReal(requests, key);
    MinuteBound(limit, TimesOfKey(requests, key), from);
  }

  /** In every run a refused request finds its key admitted at least `limit` times in the minute before. */
  lemma LimiterRefusalEarned(limit: nat, requests: seq<Request>, i: nat)
    requires limit >= 1 && OrderedRequests(requests) && forall j :: 0 <= j < |requests| ==> requests[j].now != ZERO_TIME
    requires i < |requests| && Rejected(limit, requests, i)
    ensures var now := requests[i].now;
      AdmittedInRun(limit, requests[..i], requests[i].key, now - 60_000_000_000 + 1, now + 1) >= limit
  {
    var key, now := requests[i].key, requests[i].now;
    var times := TimesOfKey(requests[..i + 1], key);
    DecisionsAreIsolated(limit, requests, i);
    KeyTimesReal(requests[..i + 1], key);
    RefusalEarned(limit, times, |times| - 1);
    assert requests[..i + 1][..i] == requests[..i];
    assert times[..|times| - 1] == TimesOfKey(requests[..i], key);
    AdmittedIsIsolated(limit, requests[..i], key, now - MINUTE + 1, now + 1);
  }

  // ---- Every decision, exactly ----

  predicate FirstOutside(times: seq<Time>, p: nat, o: nat)
    requires p < o < |times|
  {
    times[o] - times[p] >= 60_000_000_000 && forall q :: p < q < o ==> times[q] - times[p] < 60_000_000_000
  }

  /** A client's first request opens a window, and so does the first one a minute or more after the last that did. */
  ghost predicate Opens(times: seq<Time>, o: nat)
    decreases o
  {
    o < |times| && (o == 0 || exists p: nat :: p < o && Opens(times, p) && FirstOutside(times, p, o))
  }

  lemma {:induction false} OpenersApart(times: seq<Time>, o: nat, later: nat)
    requires Ordered(times) && o < later && Opens(times, o) && Opens(times, later)
    ensures times[later] - times[o] >= 60_000_000_000
    decreases later
  {
    var p: nat :| p < later && Opens(times, p) && FirstOutside(times, p, later);
    if o < p {
      OpenersApart(times, o, p);
    } else if p < o {
      OpenersApart(times, p, o);
      assert false;
    }
  }

  /** The window a request falls in; the bucket counts the requests since it was opened. */
  lemma {:induction false} WindowOf(times: seq<Time>, i: nat) returns (o: nat)
    requires Real(times) && i < |times|
    ensures o <= i && Opens(times, o)
    ensures forall q :: o <= q <= i ==> times[q] - times[o] < 60_000_000_000
    ensures Solo(times[..i + 1]) == Bucket(times[o], i - o + 1)
  {
    if i == 0 {
      o := 0;
      SoloNext(times[..0], times[0]);
      assert times[..0] + [times[0]] == times[..1];
    } else {
      o := WindowOf(times, i - 1);
      SoloNext(times[..i], times[i]);
      assert times[..i] + [times[i]] == times[..i + 1];
      if times[i] - times[o] >= 60_000_000_000 {
        assert FirstOutside(times, o, i);
        o := i;
      }
    }
  }

  /** The request at `i` comes `limit` or more places after the one that opened its window. */
  ghost predicate OverLimit(limit: nat, times: seq<Time>, i: nat)
    requires i < |times|
  {
    exists o: nat :: o <= i && Opens(times, o) && times[i] - times[o] < 60_000_000_000 && i - o >= limit
  }

  lemma SoloRejectedIff(limit: nat, times: seq<Time>, i: nat)
    requires Real(times) && i < |times|
    ensures SoloRejected(limit, times, i) <==> OverLimit(limit, times, i)
  {
    var o := WindowOf(times, i);
    forall other: nat | other <= i && Opens(times, other) && times[i] - times[other] < 60_000_000_000
      ensures other == o
    {
      if other < o {
        OpenersApart(times, other, o);
      } else if o < other {
        OpenersApart(times, o, other);
      }
    }
  }

  /**
   * In every run, whatever the other clients do: a request is refused exactly when its client made at least `limit`
   * requests, admitted or not, earlier in the window it falls in.
   */
  lemma RefusedIff(limit: nat, requests: seq<Request>, i: nat)
    requires OrderedRequests(requests) && forall j :: 0 <= j < |requests| ==> requests[j].now != ZERO_TIME
    requires i < |requests|
    ensures var times := TimesOfKey(requests[..i + 1], requests[i].key);
      times != [] && (Rejected(limit, requests, i) <==> OverLimit(limit, times, |times| - 1))
  {
    var times := TimesOfKey(requests[..i + 1], requests[i].key);
    DecisionsAreIsolated(limit, requests, i);
    KeyTimesReal(requests[..i + 1], requests[i].key);
    SoloRejectedIff(limit, times, |times| - 1);
  }

  // ---- The bound is tight ----

  function Repeat(t: Time, n: nat): seq<Time> {
    if n == 0 then [] else Repeat(t, n - 1) + [t]
  }

  lemma AdmittedNext(limit: nat, times: seq<Time>, now: Time, from: Time, to: Time)
    ensures Admitted(limit, times + [now], from, to)
      == Admitted(limit, times, from, to) + if from <= now < to && Solo(times + [now]).count <= limit then 1 else 0
  {
    assert (times + [now])[..|times|] == times;
  }

  /** A burst of `n` requests at one instant in a window that has room for them is admitted whole. */
  lemma {:induction false} BurstAdmitted(limit: nat, times: seq<Time>, t: Time, n: nat, from: Time, to: Time)
    requires Solo(times).start != ZERO_TIME && 0 <= t - Solo(times).start < MINUTE
    requires Solo(times).count + n <= limit && from <= t < to
    ensures Solo(times + Repeat(t, n)) == Bucket(Solo(times).start, Solo(times).count + n)
    ensures Admitted(limit, times + Repeat(t, n), from, to) == Admitted(limit, times, from, to) + n
  {
    if n == 0 {
      assert times + Repeat(t, 0) == times;
    } else {
      BurstAdmitted(limit, times, t, n - 1, from, to);
      var before := times + Repeat(t, n - 1);
      assert times + Repeat(t, n) == before + [t];
      assert Counted(Solo(before), t) == Bucket(Solo(times).start, Solo(times).count + n);
      SoloNext(before, t);
      AdmittedNext(limit, before, t, from, to);
    }
  }

  /** One early request, then a burst at the end of its window, then a burst in the next. */
  function Tight(limit: nat, t: Time): seq<Time>
    requires limit >= 1
  {
    [t] + Repeat(t + MINUTE - 1, limit - 1) + [t + MINUTE] + Repeat(t + MINUTE, limit - 1)
  }

  lemma TightAdmits(limit: nat, t: Time)
    requires limit >= 1 && t > ZERO_TIME
    ensures Admitted(limit, Tight(limit, t), t + MINUTE - 1, t + 2 * MINUTE - 1) == 2 * limit - 1
  {
    var from, to := t + MINUTE - 1, t + 2 * MINUTE - 1;
    assert [t][..0] == [];
    assert Solo([t]) == Bucket(t, 1);
    assert Admitted(limit, [t], from, to) == 0;
    BurstAdmitted(limit, [t], t + MINUTE - 1, limit - 1, from, to);
    var first := [t] + Repeat(t + MINUTE - 1, limit - 1);
    var next := first + [t + MINUTE];
    assert next[..|first|] == first;
    BurstAdmitted(limit, next, t + MINUTE, limit - 1, from, to);
    assert Tight(limit, t) == next + Repeat(t + MINUTE, limit - 1);
  }

  lemma {:induction false} RepeatIsConstant(t: Time, n: nat)
    ensures |Repeat(t, n)| == n && forall i :: 0 <= i < n ==> Repeat(t, n)[i] == t
  {
    if n > 0 {
      RepeatIsConstant(t, n - 1);
    }
  }

  lemma TightIsReal(limit: nat, t: Time)
    requires limit >= 1 && t > ZERO_TIME
    ensures Real(Tight(limit, t))
  {
    RepeatIsConstant(t + MINUTE - 1, limit - 1);
    RepeatIsConstant(t + MINUTE, limit - 1);
  }

  /** A run in which one client is alone. */
  function RequestsOf(key: string, times: seq<Time>): (requests: seq<Request>)
    ensures |requests| == |times|
    ensures forall i :: 0 <= i < |times| ==> requests[i] == Request(key, times[i])
  {
    if times == [] then []
    else RequestsOf(key, times[..|times| - 1]) + [Request(key, times[|times| - 1])]
  }

  lemma {:induction false} TimesOfRequests(key: string, times: seq<Time>)
    ensures TimesOfKey(RequestsOf(key, times), key) == times
  {
    if times != [] {
      var front := RequestsOf(key, times[..|times| - 1]);
      TimesOfRequests(key, times[..|times| - 1]);
      assert RequestsOf(key, times)[..|times| - 1] == front;
    }
  }

  lemma AloneInRun(limit: nat, key: string, times: seq<Time>, from: Time, to: Time)
    requires Real(times)
    ensures OrderedRequests(RequestsOf(key, times))
    ensures forall i :: 0 <= i < |times| ==> RequestsOf(key, times)[i].now != ZERO_TIME
    ensures AdmittedInRun(limit, RequestsOf(key, times), key, from, to) == Admitted(limit, times, from, to)
  {
    TimesOfRequests(key, times);
    AdmittedIsIsolated(limit, RequestsOf(key, times), key, from, to);
  }

  /** The bound is tight: for every limit, some run of the limiter reaches it. */
  lemma BoundIsTight(limit: nat, key: string, t: Time)
    requires limit >= 1 && t > ZERO_TIME
    ensures var run := RequestsOf(key, Tight(limit, t));
      && OrderedRequests(run) && (forall i :: 0 <= i < |run| ==> run[i].now != ZERO_TIME)
      && AdmittedInRun(limit, run, key, t + 59_999_999_999, t + 119_999_999_999) == 2 * limit - 1
  {
    TightIsReal(limit, t);
    AloneInRun(limit, key, Tight(limit, t), t + MINUTE - 1, t + 2 * MINUTE - 1);
    TightAdmits(limit, t);
  }
}
