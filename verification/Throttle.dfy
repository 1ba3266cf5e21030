/** The download throttle: a token bucket gating every block written
    (core/download/runner.py, `_throttle_gate`), over exact reals. */
module Throttle {
  import opened Base

  function Capacity(rate: int): int {
    Max(rate, 64 * 1024)
  }

  /** Tokens, and when they were last counted. */
  datatype Bucket = Bucket(tokens: real, ts: real)

  /** Tokens earned in some time. */
  function Earned(rate: int, time: real): real {
    rate as real * time
  }

  function Refilled(rate: int, b: Bucket, now: real): real {
    var tokens := b.tokens + Earned(rate, now - b.ts);
    if tokens <= Capacity(rate) as real then tokens else Capacity(rate) as real
  }

  /** The bucket after one call of the gate, stamped before the sleep. */
  function Gated(rate: int, b: Bucket, nbytes: nat, now: real): Bucket {
    if rate <= 0 then b
    else
      var tokens := Refilled(rate, b, now);
      Bucket(if tokens < nbytes as real then 0.0 else tokens - nbytes as real, now)
  }

  /** How long the call sleeps. */
  function Sleep(rate: int, b: Bucket, nbytes: nat, now: real): real {
    if rate <= 0 then 0.0
    else
      var tokens := Refilled(rate, b, now);
      if tokens < nbytes as real then (nbytes as real - tokens) / rate as real else 0.0
  }

  class Gate {
    const rate: int
    var tokens: real
    var ts: real

    constructor (rate: int)
      ensures this.rate == rate && Contents() == Bucket(Capacity(rate) as real, 0.0)
    {
      this.rate := rate;
      tokens, ts := Capacity(rate) as real, 0.0;
    }

    function Contents(): Bucket
      reads this
    {
      Bucket(tokens, ts)
    }

    /** One call at time `now`; the caller sleeps for `sleep` holding the lock. */
    method Pass(nbytes: nat, now: real) returns (sleep: real)
      modifies this
      ensures Contents() == Gated(rate, old(Contents()), nbytes, now)
      ensures sleep == Sleep(rate, old(Contents()), nbytes, now)
    {
      if rate <= 0 {
        return 0.0;
      }
      var elapsed := now - ts;
      ts := now;
      var capacity := Capacity(rate) as real;
      tokens := tokens + rate as real * elapsed;
      if tokens > capacity {
        tokens := capacity;
      }
      if tokens < nbytes as real {
        var deficit := nbytes as real - tokens;
        tokens := 0.0;
        sleep := deficit / rate as real;
      } else {
        tokens := tokens - nbytes as real;
        sleep := 0.0;
      }
    }
  }

  // ----- runs -----

  /** A call that takes the lock at `now` and returns at `end`. */
  datatype Call = Call(nbytes: nat, now: real, end: real)

  /** The call lasts long enough to make up for what the bucket lacks. */
  predicate Waited(rate: int, b: Bucket, c: Call) {
    c.now <= c.end && c.nbytes as real - Refilled(rate, b, c.now) <= Earned(rate, c.end - c.now)
  }

  /** That is, at least the sleep of the gate. */
  lemma {:induction false} WaitedIsSlept(rate: int, b: Bucket, c: Call)
    requires rate > 0
    ensures Waited(rate, b, c) <==> c.end >= c.now + Sleep(rate, b, c.nbytes, c.now)
  {
    var lacking, time := c.nbytes as real - Refilled(rate, b, c.now), c.end - c.now;
    if lacking > 0.0 {
      DivideBy(lacking, rate, time);
    } else if time >= 0.0 {
      EarnsSome(rate, time);
    }
  }

  lemma {:induction false} DivideBy(x: real, rate: int, t: real)
    requires x > 0.0 && rate > 0
    ensures x / rate as real > 0.0
    ensures t >= x / rate as real <==> x <= Earned(rate, t)
  {
    var r := rate as real;
    assert x / r * r == x;
    assert (t - x / r) * r == r * t - x;
  }

  /** Calls one after the other, as the lock makes them: none starts before the
      one before it returned, and none returns before it has slept. */
  predicate IsRun(rate: int, b: Bucket, clock: real, calls: seq<Call>)
    decreases |calls|
  {
    calls == [] ||
    (var c := calls[0];
     && c.now >= clock
     && Waited(rate, b, c)
     && IsRun(rate, Gated(rate, b, c.nbytes, c.now), c.end, calls[1..]))
  }

  function Admitted(calls: seq<Call>): nat {
    if calls == [] then 0 else calls[0].nbytes + Admitted(calls[1..])
  }

  function Finish(clock: real, calls: seq<Call>): real
    decreases |calls|
  {
    if calls == [] then clock else Finish(calls[0].end, calls[1..])
  }

  lemma {:induction false} EarnsSome(rate: int, t: real)
    requires rate > 0 && t >= 0.0
    ensures Earned(rate, t) >= 0.0
  {
  }

  lemma {:induction false} EarnsSum(rate: int, t: real, u: real, sum: real)
    requires sum == t + u
    ensures Earned(rate, sum) == Earned(rate, t) + Earned(rate, u)
  {
  }

  lemma {:induction false} EarnsMore(rate: int, t: real, u: real)
    requires rate > 0 && t <= u
    ensures Earned(rate, t) <= Earned(rate, u)
  {
    EarnsSome(rate, u - t);
    EarnsSum(rate, t, u - t, u);
  }

  lemma {:induction false} RefilledBounds(rate: int, b: Bucket, now: real)
    requires rate > 0 && b.tokens >= 0.0 && b.ts <= now
    ensures 0.0 <= Refilled(rate, b, now) <= b.tokens + Earned(rate, now - b.ts)
    ensures Refilled(rate, b, now) <= Capacity(rate) as real
  {
    EarnsSome(rate, now - b.ts);
  }

  /** The bytes one call admits are the tokens it spends and those of its wait. */
  lemma {:induction false} OneCall(rate: int, b: Bucket, c: Call, next: Bucket)
    requires rate > 0 && b.tokens >= 0.0 && b.ts <= c.now && Waited(rate, b, c)
    requires next == Gated(rate, b, c.nbytes, c.now)
    ensures next.tokens >= 0.0 && next.ts == c.now
    ensures c.nbytes as real + next.tokens <= b.tokens + Earned(rate, c.now - b.ts) + Earned(rate, c.end - c.now)
  {
    RefilledBounds(rate, b, c.now);
    EarnsSome(rate, c.end - c.now);
  }

  /** Time is credited as refill until the last stamp and as waiting. */
  lemma {:induction false} Credit(rate: int, ts: real, clock: real, now: real, end: real, finish: real)
    requires rate > 0 && ts <= clock <= now <= end
    ensures Earned(rate, now - ts) + Earned(rate, end - now) + (Earned(rate, finish - now) + Earned(rate, finish - end))
            <= Earned(rate, finish - ts) + Earned(rate, finish - clock)
  {
    EarnsSum(rate, now - ts, finish - now, finish - ts);
    EarnsSum(rate, end - now, finish - end, finish - now);
    EarnsMore(rate, finish - now, finish - clock);
  }

  /** What a run from `clock` to `finish` may admit: its tokens, what time refills
      from the stamp on, and what is credited for waiting. */
  function Allowance(rate: int, b: Bucket, clock: real, finish: real): real {
    b.tokens + Earned(rate, finish - b.ts) + Earned(rate, finish - clock)
  }

  lemma {:induction false} CallWithin(rate: int, b: Bucket, clock: real, c: Call, next: Bucket, finish: real)
    requires rate > 0 && b.tokens >= 0.0 && b.ts <= clock <= c.now && Waited(rate, b, c)
    requires next == Gated(rate, b, c.nbytes, c.now)
    ensures next.tokens >= 0.0 && next.ts == c.now
    ensures c.nbytes as real + Allowance(rate, next, c.end, finish) <= Allowance(rate, b, clock, finish)
  {
    OneCall(rate, b, c, next);
    Credit(rate, b.ts, clock, c.now, c.end, finish);
  }

  lemma {:induction false} RunBound(rate: int, b: Bucket, clock: real, calls: seq<Call>, finish: real, allowed: real)
    requires rate > 0 && b.tokens >= 0.0 && b.ts <= clock && IsRun(rate, b, clock, calls)
    requires finish == Finish(clock, calls) && allowed == Allowance(rate, b, clock, finish)
    ensures Admitted(calls) as real <= allowed
    decreases |calls|
  {
    if calls == [] {
      EarnsSome(rate, finish - b.ts);
      EarnsSome(rate, finish - clock);
    } else {
      var c := calls[0];
      var next := Gated(rate, b, c.nbytes, c.now);
      CallWithin(rate, b, clock, c, next, finish);
      RunBound(rate, next, c.end, calls[1..], finish, Allowance(rate, next, c.end, finish));
    }
  }

  /** The bucket counted at the first call runs the same. */
  lemma {:induction false} FirstRefill(rate: int, b: Bucket, calls: seq<Call>, now: real, start: Bucket)
    requires rate > 0 && calls != [] && now == calls[0].now && IsRun(rate, b, now, calls)
    requires start == Bucket(Refilled(rate, b, now), now) && start.tokens <= Capacity(rate) as real
    ensures IsRun(rate, start, now, calls)
  {
    assert Earned(rate, 0.0) == 0.0;
    assert Refilled(rate, start, now) == start.tokens;
  }

  /** A run starts with its first call. */
  lemma {:induction false} FromFirst(rate: int, b: Bucket, clock: real, calls: seq<Call>)
    requires calls != [] && IsRun(rate, b, clock, calls)
    ensures clock <= calls[0].now && IsRun(rate, b, calls[0].now, calls)
    ensures Finish(calls[0].now, calls) == Finish(clock, calls)
  {
  }

  lemma {:induction false} RunWithin(rate: int, b: Bucket, calls: seq<Call>, now: real, finish: real, earned: real)
    requires rate > 0 && 0.0 <= b.tokens && b.ts <= now
    requires calls != [] && now == calls[0].now && IsRun(rate, b, now, calls) && finish == Finish(now, calls)
    requires earned == rate as real * (finish - now)
    ensures Admitted(calls) as real <= (if rate < 65_536 then 65_536 else rate) as real + (earned + earned)
  {
    var start := Bucket(Refilled(rate, b, now), now);
    RefilledBounds(rate, b, now);
    FirstRefill(rate, b, calls, now, start);
    assert Earned(rate, finish - now) == earned;
    RunBound(rate, start, now, calls, finish, start.tokens + earned + earned);
  }

  /** Over any run of gate calls, from any bucket, no more than the capacity and
      twice the rate times the time is admitted: slept time counts once as sleep
      and once more as refill of the next call. */
  lemma {:induction false} ThrottleBound(rate: int, b: Bucket, clock: real, calls: seq<Call>)
    requires rate > 0 && 0.0 <= b.tokens && b.ts <= clock
    requires calls != [] && IsRun(rate, b, clock, calls)
    ensures var earned := rate as real * (Finish(clock, calls) - calls[0].now);
            Admitted(calls) as real <= (if rate < 65_536 then 65_536 else rate) as real + (earned + earned)
  {
    FromFirst(rate, b, clock, calls);
    var now, finish := calls[0].now, Finish(clock, calls);
    RunWithin(rate, b, calls, now, finish, rate as real * (finish - now));
  }

  /** Without a positive rate nothing ever waits and no tokens are kept. */
  lemma {:induction false} NoLimit(rate: int, b: Bucket, calls: seq<Call>)
    requires rate <= 0
    ensures After(rate, b, calls) == b && SleptBefore(rate, b, calls) == 0.0
    ensures forall nbytes, now :: Sleep(rate, b, nbytes, now) == 0.0
    decreases |calls|
  {
    if calls != [] {
      NoLimit(rate, b, calls[1..]);
    }
  }

  // ----- what a run admits, exactly -----

  /** The bucket after a run. */
  function After(rate: int, b: Bucket, calls: seq<Call>): Bucket
    decreases |calls|
  {
    if calls == [] then b else After(rate, Gated(rate, b, calls[0].nbytes, calls[0].now), calls[1..])
  }

  /** Time slept by all calls but the last. */
  function SleptBefore(rate: int, b: Bucket, calls: seq<Call>): real
    decreases |calls|
  {
    if |calls| <= 1 then 0.0
    else
      var c := calls[0];
      Sleep(rate, b, c.nbytes, c.now) + SleptBefore(rate, Gated(rate, b, c.nbytes, c.now), calls[1..])
  }

  /** Tokens the capacity cuts off. */
  function Lost(rate: int, b: Bucket, calls: seq<Call>): real
    decreases |calls|
  {
    if calls == [] then 0.0
    else
      var c := calls[0];
      b.tokens + Earned(rate, c.now - b.ts) - Refilled(rate, b, c.now)
      + Lost(rate, Gated(rate, b, c.nbytes, c.now), calls[1..])
  }

  /** How long after its sleep the last call returns. */
  function Late(rate: int, b: Bucket, calls: seq<Call>): real
    requires calls != []
    decreases |calls|
  {
    var c := calls[0];
    if |calls| == 1 then c.end - c.now - Sleep(rate, b, c.nbytes, c.now)
    else Late(rate, Gated(rate, b, c.nbytes, c.now), calls[1..])
  }

  /** A call admits the tokens it takes and those of its sleep. */
  lemma {:induction false} CallExactly(rate: int, b: Bucket, c: Call, next: Bucket, sleep: real)
    requires rate > 0 && next == Gated(rate, b, c.nbytes, c.now) && sleep == Sleep(rate, b, c.nbytes, c.now)
    ensures next.ts == c.now
    ensures c.nbytes as real + next.tokens == Refilled(rate, b, c.now) + Earned(rate, sleep)
  {
    var lacking := c.nbytes as real - Refilled(rate, b, c.now);
    if lacking > 0.0 {
      Paid(lacking, rate);
    } else {
      assert Earned(rate, 0.0) == 0.0;
    }
  }

  lemma {:induction false} Paid(lacking: real, rate: int)
    requires rate > 0
    ensures Earned(rate, lacking / rate as real) == lacking
  {
  }

  /** The account of a run: what it admits, leaves, loses and is late with is what it
      had, the refill of the time it took, and its sleep counted once more, except
      that of the last call. */
  lemma {:induction false} Account(rate: int, b: Bucket, clock: real, calls: seq<Call>, finish: real)
    requires rate > 0 && calls != [] && finish == Finish(clock, calls)
    ensures Admitted(calls) as real + After(rate, b, calls).tokens + Lost(rate, b, calls) + Earned(rate, Late(rate, b, calls))
            == b.tokens + Earned(rate, finish - b.ts) + Earned(rate, SleptBefore(rate, b, calls))
    decreases |calls|
  {
    var c, rest := calls[0], calls[1..];
    var next, sleep := Gated(rate, b, c.nbytes, c.now), Sleep(rate, b, c.nbytes, c.now);
    CallExactly(rate, b, c, next, sleep);
    if rest == [] {
      EarnsSum(rate, c.now - b.ts, sleep, c.now - b.ts + sleep);
      EarnsSum(rate, c.now - b.ts + sleep, c.end - c.now - sleep, finish - b.ts);
      assert Earned(rate, 0.0) == 0.0;
    } else {
      Account(rate, next, c.end, rest, finish);
      EarnsSum(rate, c.now - b.ts, finish - c.now, finish - b.ts);
      EarnsSum(rate, sleep, SleptBefore(rate, next, rest), SleptBefore(rate, b, calls));
    }
  }

  lemma {:induction false} NothingOwed(rate: int, b: Bucket, clock: real, calls: seq<Call>)
    requires rate > 0 && b.tokens >= 0.0 && b.ts <= clock && calls != [] && IsRun(rate, b, clock, calls)
    ensures After(rate, b, calls).tokens >= 0.0 && Lost(rate, b, calls) >= 0.0 && Late(rate, b, calls) >= 0.0
    ensures SleptBefore(rate, b, calls) >= 0.0
    decreases |calls|
  {
    var c, rest := calls[0], calls[1..];
    var next := Gated(rate, b, c.nbytes, c.now);
    RefilledBounds(rate, b, c.now);
    OneCall(rate, b, c, next);
    WaitedIsSlept(rate, b, c);
    SleepIsTime(rate, b, c);
    if rest != [] {
      NothingOwed(rate, next, c.end, rest);
    }
  }

  lemma {:induction false} SleepIsTime(rate: int, b: Bucket, c: Call)
    requires rate > 0
    ensures Sleep(rate, b, c.nbytes, c.now) >= 0.0
  {
    var lacking := c.nbytes as real - Refilled(rate, b, c.now);
    if lacking > 0.0 {
      DivideBy(lacking, rate, 0.0);
    }
  }

  /** Exactly when a run admits more than its tokens and the refill of its time: the
      sleep of the calls before the last earns more than is left, lost and late. */
  lemma {:induction false} SingleRateIff(rate: int, b: Bucket, clock: real, calls: seq<Call>)
    requires rate > 0 && calls != []
    ensures Admitted(calls) as real > b.tokens + Earned(rate, Finish(clock, calls) - b.ts)
            <==> Earned(rate, SleptBefore(rate, b, calls))
                 > After(rate, b, calls).tokens + Lost(rate, b, calls) + Earned(rate, Late(rate, b, calls))
  {
    Account(rate, b, clock, calls, Finish(clock, calls));
  }

  /** No call before the last one finds too few tokens. */
  predicate AwakeBefore(rate: int, b: Bucket, calls: seq<Call>)
    decreases |calls|
  {
    |calls| <= 1 ||
    (var c := calls[0];
     && Refilled(rate, b, c.now) >= c.nbytes as real
     && AwakeBefore(rate, Gated(rate, b, c.nbytes, c.now), calls[1..]))
  }

  lemma {:induction false} AwakeSleepsNot(rate: int, b: Bucket, calls: seq<Call>)
    requires AwakeBefore(rate, b, calls)
    ensures SleptBefore(rate, b, calls) == 0.0
    decreases |calls|
  {
    if |calls| > 1 {
      AwakeSleepsNot(rate, Gated(rate, b, calls[0].nbytes, calls[0].now), calls[1..]);
    }
  }

  /** The single rate holds whenever no call before the last sleeps. In general the
      sleep before the last call is admitted once more, and no more than that. */
  lemma {:induction false} SingleRateBound(rate: int, b: Bucket, clock: real, calls: seq<Call>)
    requires rate > 0 && b.tokens >= 0.0 && b.ts <= clock && calls != [] && IsRun(rate, b, clock, calls)
    ensures Admitted(calls) as real
            <= b.tokens + Earned(rate, Finish(clock, calls) - b.ts) + Earned(rate, SleptBefore(rate, b, calls))
    ensures AwakeBefore(rate, b, calls) ==>
              Admitted(calls) as real <= b.tokens + Earned(rate, Finish(clock, calls) - b.ts)
  {
    Account(rate, b, clock, calls, Finish(clock, calls));
    NothingOwed(rate, b, clock, calls);
    EarnsSome(rate, Late(rate, b, calls));
    if AwakeBefore(rate, b, calls) {
      AwakeSleepsNot(rate, b, calls);
      assert Earned(rate, 0.0) == 0.0;
    }
  }

  // ----- the bound is reached -----

  /** From an empty bucket, k times: a call that waits, and one paid by that wait. */
  function Pairs(n: nat, wait: real, clock: real, k: nat): seq<Call>
    decreases k
  {
    if k == 0 then []
    else [Call(n, clock, clock + wait)] + ([Call(n, clock + wait, clock + wait)] + Pairs(n, wait, clock + wait, k - 1))
  }

  lemma {:induction false} PairStep(rate: int, n: nat, wait: real, clock: real, rest: seq<Call>)
    requires 0 < rate && n <= Capacity(rate) && wait >= 0.0 && Earned(rate, wait) == n as real
    requires IsRun(rate, Bucket(0.0, clock + wait), clock + wait, rest)
    ensures IsRun(rate, Bucket(0.0, clock), clock,
                  [Call(n, clock, clock + wait)] + ([Call(n, clock + wait, clock + wait)] + rest))
  {
    var woken := clock + wait;
    var first, second := Call(n, clock, woken), Call(n, woken, woken);
    assert woken - clock == wait;
    assert Refilled(rate, Bucket(0.0, clock), clock) == 0.0;
    assert Refilled(rate, Bucket(0.0, clock), woken) == n as real;
    assert IsRun(rate, Bucket(0.0, clock), woken, [second] + rest) by {
      assert ([second] + rest)[1..] == rest;
    }
    assert ([first] + ([second] + rest))[1..] == [second] + rest;
  }

  lemma {:induction false} PairsRun(rate: int, n: nat, wait: real, clock: real, k: nat)
    requires 0 < rate && 0 < n <= Capacity(rate) && wait >= 0.0 && Earned(rate, wait) == n as real
    ensures IsRun(rate, Bucket(0.0, clock), clock, Pairs(n, wait, clock, k))
    decreases k
  {
    if k > 0 {
      PairsRun(rate, n, wait, clock + wait, k - 1);
      PairStep(rate, n, wait, clock, Pairs(n, wait, clock + wait, k - 1));
    }
  }

  /** k pairs admit 2 k n bytes in k waits. */
  lemma {:induction false} PairsTotal(n: nat, wait: real, clock: real, k: nat)
    ensures Admitted(Pairs(n, wait, clock, k)) == 2 * (k * n)
    ensures Finish(clock, Pairs(n, wait, clock, k)) == clock + k as real * wait
    decreases k
  {
    if k > 0 {
      var rest := Pairs(n, wait, clock + wait, k - 1);
      PairsTotal(n, wait, clock + wait, k - 1);
      var tail := [Call(n, clock + wait, clock + wait)] + rest;
      assert Pairs(n, wait, clock, k)[1..] == tail && tail[1..] == rest;
      assert k * n == (k - 1) * n + n;
      assert k as real * wait == (k - 1) as real * wait + wait;
    }
  }

  /** A full bucket emptied at once, then pairs. */
  function Burst(rate: int, n: nat, wait: real, clock: real, k: nat): seq<Call> {
    [Call(Capacity(rate), clock, clock)] + Pairs(n, wait, clock, k)
  }

  lemma {:induction false} BurstRuns(rate: int, n: nat, wait: real, clock: real, k: nat)
    requires 0 < rate && 0 < n <= Capacity(rate) && wait >= 0.0 && Earned(rate, wait) == n as real
    ensures IsRun(rate, Bucket(Capacity(rate) as real, clock), clock, Burst(rate, n, wait, clock, k))
  {
    var b := Bucket(Capacity(rate) as real, clock);
    PairsRun(rate, n, wait, clock, k);
    assert Burst(rate, n, wait, clock, k)[1..] == Pairs(n, wait, clock, k);
    assert Refilled(rate, b, clock) == b.tokens;
  }

  lemma {:induction false} EarnsTimes(rate: int, wait: real, k: nat, n: nat)
    requires Earned(rate, wait) == n as real
    ensures Earned(rate, k as real * wait) == (k * n) as real
  {
    assert rate as real * (k as real * wait) == k as real * (rate as real * wait);
  }

  /** For every rate and every k > 0 there is a run that starts with a full bucket
      and admits exactly the bound: more than the capacity and the rate times the
      time it takes. */
  lemma {:induction false} ThrottleBoundReached(rate: int, n: nat, wait: real, clock: real, k: nat)
    requires 0 < rate && 0 < n <= Capacity(rate) && wait >= 0.0 && Earned(rate, wait) == n as real && k > 0
    ensures var calls := Burst(rate, n, wait, clock, k);
            var earned := rate as real * (Finish(clock, calls) - calls[0].now);
            && IsRun(rate, Bucket(Capacity(rate) as real, clock), clock, calls)
            && Admitted(calls) as real == (if rate < 65_536 then 65_536 else rate) as real + (earned + earned)
            && Admitted(calls) as real > (if rate < 65_536 then 65_536 else rate) as real + earned
  {
    var calls := Burst(rate, n, wait, clock, k);
    BurstRuns(rate, n, wait, clock, k);
    PairsTotal(n, wait, clock, k);
    EarnsTimes(rate, wait, k, n);
    assert calls[1..] == Pairs(n, wait, clock, k);
    assert Finish(clock, calls) - calls[0].now == k as real * wait;
    assert k * n >= 1;
  }
}
