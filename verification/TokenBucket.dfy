/**
 The two rate governors: a token bucket that refills at a pace, is capped, and is spent one token a
 grant. Waiters check it in any order, each check at its own clock reading, which may jump either way.
 */
module TokenBucket {
  import opened Common

  /** Tokens gained per millisecond, and how many the bucket holds at most. */
  datatype Pace = Pace(capacity: real, perMs: real)
  {
    predicate Positive() {
      capacity >= 0.0 && perMs > 0.0
    }
  }

  datatype Bucket = Bucket(tokens: real, last: real)

  /** The price bucket is given an interval per token, the Blockfrost one a rate per second. */
  function Interval(capacity: real, refillIntervalMs: real): Pace
    requires refillIntervalMs > 0.0
  {
    Pace(capacity, 1.0 / refillIntervalMs)
  }

  function PerSecond(requestsPerSecond: real, burst: real): Pace {
    Pace(burst, requestsPerSecond / 1000.0)
  }

  /** So one token comes per interval, or as many per second as were asked for. */
  lemma PacesAreAsConfigured(capacity: real, intervalMs: real, perSecond: real)
    requires intervalMs > 0.0
    ensures Interval(capacity, intervalMs).capacity == capacity && Gain(Interval(capacity, intervalMs), intervalMs) == 1.0
    ensures PerSecond(perSecond, capacity).capacity == capacity && Gain(PerSecond(perSecond, capacity), 1000.0) == perSecond
  {
  }

  function Least(a: real, b: real): real {
    if a <= b then a else b
  }

  function Gain(pace: Pace, elapsed: real): real {
    elapsed * pace.perMs
  }

  function Refilled(pace: Pace, b: Bucket, now: real): Bucket {
    if now - b.last <= 0.0 then b
    else Bucket(Least(pace.capacity, b.tokens + Gain(pace, now - b.last)), now)
  }

  predicate Grants(pace: Pace, b: Bucket, now: real) {
    Refilled(pace, b, now).tokens >= 1.0
  }

  /** One check: refill, then spend a token if there is one. */
  function Checked(pace: Pace, b: Bucket, now: real): Bucket {
    var refilled := Refilled(pace, b, now);
    if refilled.tokens >= 1.0 then refilled.(tokens := refilled.tokens - 1.0) else refilled
  }

  function Ceiling(x: real): int {
    -((-x).Floor)
  }

  /** How long a refused caller waits before checking again. */
  function WaitMs(pace: Pace, b: Bucket): int
    requires pace.Positive()
  {
    var wait := Ceiling((1.0 - b.tokens) / pace.perMs);
    if wait < 1 then 1 else wait
  }

  // ----- runs: the checks of all waiters in the order they happen -----

  function At(pace: Pace, start: real, readings: seq<real>, n: nat): Bucket
    requires n <= |readings|
  {
    if n == 0 then Bucket(pace.capacity, start)
    else Checked(pace, At(pace, start, readings, n - 1), readings[n - 1])
  }

  predicate GrantedAt(pace: Pace, start: real, readings: seq<real>, k: nat)
    requires k < |readings|
  {
    Grants(pace, At(pace, start, readings, k), readings[k])
  }

  /** How many of the checks from `i` up to `j` are granted. */
  function Granted(pace: Pace, start: real, readings: seq<real>, i: nat, j: nat): nat
    requires i <= j <= |readings|
  {
    if i == j then 0
    else Granted(pace, start, readings, i, j - 1) + if GrantedAt(pace, start, readings, j - 1) then 1 else 0
  }

  /** The highest of the clock's readings so far. */
  function HighWater(start: real, readings: seq<real>, n: nat): real
    requires n <= |readings|
  {
    if n == 0 then start
    else
      var before := HighWater(start, readings, n - 1);
      if readings[n - 1] > before then readings[n - 1] else before
  }

  lemma GainAdds(pace: Pace, a: real, b: real, c: real)
    ensures Gain(pace, c - b) + Gain(pace, b - a) == Gain(pace, c - a)
  {
  }

  lemma GainGrows(pace: Pace, a: real, b: real)
    requires pace.Positive() && a <= b
    ensures Gain(pace, a) <= Gain(pace, b)
  {
  }

  /** At every reachable state the bucket is neither overdrawn nor over full, and runs on the high-water clock. */
  lemma {:induction false} StaysWithin(pace: Pace, start: real, readings: seq<real>, n: nat)
    requires pace.Positive() && n <= |readings|
    ensures var b := At(pace, start, readings, n);
            0.0 <= b.tokens <= pace.capacity && b.last == HighWater(start, readings, n)
  {
    if n > 0 {
      StaysWithin(pace, start, readings, n - 1);
      var b := At(pace, start, readings, n - 1);
      if readings[n - 1] > b.last {
        GainGrows(pace, 0.0, readings[n - 1] - b.last);
      }
    }
  }

  /** A refill gains at most what the pace allows for the time the high-water clock moved. */
  lemma RefillGains(pace: Pace, b: Bucket, now: real)
    requires pace.Positive() && b.tokens <= pace.capacity
    ensures var r := Refilled(pace, b, now);
            && b.last <= r.last && r.tokens <= b.tokens + Gain(pace, r.last - b.last)
            && (r.tokens == b.tokens + Gain(pace, r.last - b.last) || r.tokens == pace.capacity)
  {
    assert Gain(pace, b.last - b.last) == 0.0;
  }

  /** Tokens held and spent never exceed what was there once check `i` had refilled, and the gain since. */
  lemma {:induction false} SpendingIsCovered(pace: Pace, start: real, readings: seq<real>, i: nat, j: nat)
    requires pace.Positive() && i < j <= |readings|
    ensures At(pace, start, readings, j).tokens + Granted(pace, start, readings, i, j) as real
         <= pace.capacity + Gain(pace, At(pace, start, readings, j).last - At(pace, start, readings, i + 1).last)
  {
    var before := At(pace, start, readings, j - 1);
    StaysWithin(pace, start, readings, j - 1);
    RefillGains(pace, before, readings[j - 1]);
    var after := Refilled(pace, before, readings[j - 1]);
    assert At(pace, start, readings, j).last == after.last;
    if i + 1 == j {
      assert Granted(pace, start, readings, i, i) == 0;
      assert Gain(pace, after.last - after.last) == 0.0;
    } else {
      SpendingIsCovered(pace, start, readings, i, j - 1);
      GainAdds(pace, At(pace, start, readings, i + 1).last, before.last, after.last);
    }
  }

  /**
   However many waiters there are and however the clock jumps, the grants in a window of the
   high-water clock are at most one full bucket and the refill of that window.
   */
  lemma GrantsInWindow(pace: Pace, start: real, readings: seq<real>, i: nat, j: nat, window: real)
    requires pace.Positive() && i < j <= |readings|
    requires HighWater(start, readings, j) - HighWater(start, readings, i + 1) <= window
    ensures Granted(pace, start, readings, i, j) as real <= pace.capacity + Gain(pace, window)
  {
    SpendingIsCovered(pace, start, readings, i, j);
    StaysWithin(pace, start, readings, j);
    StaysWithin(pace, start, readings, i + 1);
    GainGrows(pace, HighWater(start, readings, j) - HighWater(start, readings, i + 1), window);
  }

  /** The price upstream is called at most 28 times in any minute of that clock. */
  lemma PricesPerMinute(start: real, readings: seq<real>, i: nat, j: nat)
    requires i < j <= |readings| && HighWater(start, readings, j) - HighWater(start, readings, i + 1) <= 60_000.0
    ensures Granted(Interval(4.0, 2_500.0), start, readings, i, j) <= 28
  {
    GrantsInWindow(Interval(4.0, 2_500.0), start, readings, i, j, 60_000.0);
  }

  /** At its default pace the chain upstream is called at most 1,100 times in any minute of that clock. */
  lemma RequestsPerMinute(start: real, readings: seq<real>, i: nat, j: nat)
    requires i < j <= |readings| && HighWater(start, readings, j) - HighWater(start, readings, i + 1) <= 60_000.0
    ensures Granted(PerSecond(10.0, 500.0), start, readings, i, j) <= 1_100
  {
    GrantsInWindow(PerSecond(10.0, 500.0), start, readings, i, j, 60_000.0);
  }

  /**
   A refusal is always earned: since some moment when the bucket was full, the grants have used up
   all but a fraction of a token of that bucket and of the refill since.
   */
  lemma {:induction false} BooksBalance(pace: Pace, start: real, readings: seq<real>, n: nat) returns (i: nat, full: real)
    requires pace.Positive() && n <= |readings|
    ensures i <= n && full <= At(pace, start, readings, n).last
    ensures full == HighWater(start, readings, i) || (i < n && full == HighWater(start, readings, i + 1))
    ensures At(pace, start, readings, n).tokens
         == pace.capacity + Gain(pace, At(pace, start, readings, n).last - full) - Granted(pace, start, readings, i, n) as real
  {
    if n == 0 {
      i, full := 0, start;
      assert Gain(pace, start - start) == 0.0;
    } else {
      var before := At(pace, start, readings, n - 1);
      StaysWithin(pace, start, readings, n - 1);
      StaysWithin(pace, start, readings, n);
      RefillGains(pace, before, readings[n - 1]);
      var after := Refilled(pace, before, readings[n - 1]);
      if after.tokens == before.tokens + Gain(pace, after.last - before.last) {
        i, full := BooksBalance(pace, start, readings, n - 1);
        GainAdds(pace, full, before.last, after.last);
      } else {
        i, full := n - 1, after.last;
        assert Granted(pace, start, readings, n - 1, n - 1) == 0;
        assert Gain(pace, after.last - after.last) == 0.0;
      }
    }
  }

  // ----- waiting -----

  lemma CeilingIsEnough(x: real)
    ensures x <= Ceiling(x) as real < x + 1.0
  {
  }

  lemma Quotient(pace: Pace, need: real, t: real)
    requires pace.Positive()
    ensures Gain(pace, t) >= need <==> t >= need / pace.perMs
  {
    assert Gain(pace, need / pace.perMs) == need;
    if t >= need / pace.perMs {
      GainGrows(pace, need / pace.perMs, t);
    } else {
      assert (need / pace.perMs - t) * pace.perMs > 0.0;
      GainAdds(pace, 0.0, t, need / pace.perMs);
    }
  }

  /** When the next check is the same waiter's, it is granted exactly from the moment the shortfall is made up. */
  lemma NextCheck(pace: Pace, b: Bucket, now: real)
    requires pace.Positive() && 0.0 <= b.tokens < 1.0 && b.tokens <= pace.capacity
    ensures Grants(pace, b, now) <==> pace.capacity >= 1.0 && now - b.last >= (1.0 - b.tokens) / pace.perMs
  {
    Quotient(pace, 1.0 - b.tokens, now - b.last);
    if now - b.last <= 0.0 {
      GainGrows(pace, now - b.last, 0.0);
    }
  }

  /** On a clock that never runs back, a lone waiter that sleeps the computed time is granted. */
  lemma LoneWaiterIsServed(pace: Pace, b: Bucket, now: real)
    requires pace.Positive() && pace.capacity >= 1.0 && 0.0 <= b.tokens <= pace.capacity && b.last <= now
    ensures !Grants(pace, b, now) ==>
              var refused := Checked(pace, b, now);
              forall later :: later >= now + WaitMs(pace, refused) as real ==> Grants(pace, refused, later)
  {
    if !Grants(pace, b, now) {
      var refused := Checked(pace, b, now);
      if b.last < now {
        GainGrows(pace, 0.0, now - b.last);
      }
      CeilingIsEnough((1.0 - refused.tokens) / pace.perMs);
      forall later | later >= now + WaitMs(pace, refused) as real ensures Grants(pace, refused, later) {
        NextCheck(pace, refused, later);
      }
    }
  }

  // ----- the limiter over a run -----

  class Limiter {
    const pace: Pace
    var tokens: real
    var last: real

    function State(): Bucket
      reads this
    {
      Bucket(tokens, last)
    }

    /** Neither overdrawn nor over full. */
    ghost predicate Valid()
      reads this
    {
      pace.Positive() && 0.0 <= tokens <= pace.capacity
    }

    constructor (pace: Pace, now: real)
      requires pace.Positive()
      ensures Valid() && this.pace == pace && State() == Bucket(pace.capacity, now)
    {
      this.pace, tokens, last := pace, pace.capacity, now;
    }

    method Refill(now: real)
      requires Valid()
      modifies this
      ensures Valid() && tokens >= old(tokens) && last >= old(last)
      ensures State() == Refilled(pace, old(State()), now)
    {
      var elapsed := now - last;
      if elapsed <= 0.0 {
        return;
      }
      GainGrows(pace, 0.0, elapsed);
      tokens := Least(pace.capacity, tokens + Gain(pace, elapsed));
      last := now;
    }

    /**
     One turn of the acquire loop: a grant, or how long to wait before the next turn. On a clock that
     has not run back, a caller that is alone is granted after that wait.
     */
    method TryAcquire(now: real) returns (wait: Option<int>)
      requires Valid()
      modifies this
      ensures Valid() && State() == Checked(pace, old(State()), now)
      ensures wait == if Grants(pace, old(State()), now) then None else Some(WaitMs(pace, State()))
      ensures wait.Some? && old(last) <= now && pace.capacity >= 1.0 ==>
                forall later :: later >= now + wait.value as real ==> Grants(pace, State(), later)
    {
      if last <= now && pace.capacity >= 1.0 {
        LoneWaiterIsServed(pace, State(), now);
      }
      Refill(now);
      if tokens >= 1.0 {
        tokens := tokens - 1.0;
        return None;
      }
      wait := Some(WaitMs(pace, State()));
    }
  }

  /** A limiter checked at any readings, by whichever waiters: it grants what the runs above say. */
  method CheckAll(pace: Pace, start: real, readings: seq<real>) returns (granted: seq<bool>)
    requires pace.Positive()
    ensures |granted| == |readings| && forall k :: 0 <= k < |readings| ==> granted[k] == GrantedAt(pace, start, readings, k)
  {
    var limiter := new Limiter(pace, start);
    granted := [];
    for k := 0 to |readings|
      invariant limiter.Valid() && limiter.pace == pace && limiter.State() == At(pace, start, readings, k)
      invariant |granted| == k && forall j :: 0 <= j < k ==> granted[j] == GrantedAt(pace, start, readings, j)
    {
      var wait := limiter.TryAcquire(readings[k]);
      granted := granted + [wait.None?];
    }
  }

  // ----- where waiting does not help -----

  /** And no shorter wait in whole milliseconds would do, whether or not the clock has run back. */
  lemma EarlierCheckIsRefused(pace: Pace, b: Bucket, now: real, early: nat)
    requires pace.Positive() && 0.0 <= b.tokens <= pace.capacity && !Grants(pace, b, now)
    requires early < WaitMs(pace, Checked(pace, b, now))
    ensures !Grants(pace, Checked(pace, b, now), now + early as real)
  {
    var refused := Checked(pace, b, now);
    if b.last < now {
      GainGrows(pace, 0.0, now - b.last);
    }
    CeilingIsEnough((1.0 - refused.tokens) / pace.perMs);
    NextCheck(pace, refused, now + early as real);
  }

  /** A bucket that cannot hold a whole token never grants anything. */
  lemma SmallBucketStarves(pace: Pace, start: real, readings: seq<real>, k: nat)
    requires pace.Positive() && pace.capacity < 1.0 && k < |readings|
    ensures !GrantedAt(pace, start, readings, k)
  {
    StaysWithin(pace, start, readings, k);
    RefillGains(pace, At(pace, start, readings, k), readings[k]);
  }

  /** After the clock has run back, the computed wait may be too short: it counts from the lower reading. */
  lemma ClockRunningBackShortensTheWait()
    ensures exists pace: Pace, b: Bucket, now: real ::
              && pace.Positive() && pace.capacity >= 1.0 && !Grants(pace, b, now)
              && !Grants(pace, Checked(pace, b, now), now + WaitMs(pace, Checked(pace, b, now)) as real)
  {
    var pace, b, now := Pace(4.0, 1.0), Bucket(0.0, 10.0), 0.0;
    assert Checked(pace, b, now) == b;
    assert WaitMs(pace, b) == 1;
    assert !Grants(pace, b, now) && !Grants(pace, b, now + WaitMs(pace, b) as real);
  }
}
