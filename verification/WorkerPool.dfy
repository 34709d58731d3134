/**
 A bounded pool: some runners pull items from one shared iterator and write each result at its own
 index. Every schedule is a run of three steps, each run to completion between two awaits.

 The Blockfrost pool stops claiming once a worker call has failed; the Koios credential pool, which
 has no such flag, goes on.
 */
module WorkerPool {
  import opened Common

  datatype Runner = Idle | Busy(index: nat) | Finished

  datatype Outcome<R, E> = Resolved(value: R) | Rejected(error: E)

  /** `calls` lists the worker calls made, in the order they were made. */
  datatype Pool<R, E> = Pool(
    next: nat, runners: seq<Runner>, results: seq<Option<R>>, aborted: bool, failure: Option<E>, calls: seq<nat>)

  datatype Step = Claim(r: nat) | Settle(r: nat)

  function RunnerCount(limit: int, items: nat): nat {
    var wanted := if limit < items then limit else items;
    if wanted < 1 then 1 else wanted
  }

  function Start<R, E>(items: nat, runners: nat): Pool<R, E> {
    Pool(0, seq(runners, _ => Idle), seq(items, _ => None), false, None, [])
  }

  predicate Enabled<R, E>(p: Pool<R, E>, step: Step) {
    match step
    case Claim(r) => r < |p.runners| && p.runners[r].Idle?
    case Settle(r) => r < |p.runners| && p.runners[r].Busy?
  }

  /** A runner takes the next item and calls the worker, unless the pool has been told to stop. */
  function Claimed<R, E>(p: Pool<R, E>, r: nat, stops: bool): Pool<R, E>
    requires Enabled(p, Claim(r))
  {
    if p.next >= |p.results| then p.(runners := p.runners[r := Finished])
    else if stops && p.aborted then p.(next := p.next + 1, runners := p.runners[r := Finished])
    else p.(next := p.next + 1, runners := p.runners[r := Busy(p.next)], calls := p.calls + [p.next])
  }

  /** A worker call settles: its result is written at its index, or the pool remembers the first error. */
  function Settled<R, E>(p: Pool<R, E>, r: nat, outcome: Outcome<R, E>): Pool<R, E>
    requires Enabled(p, Settle(r))
  {
    var index := p.runners[r].index;
    match outcome
    case Resolved(value) =>
      p.(runners := p.runners[r := Idle], results := if index < |p.results| then p.results[index := Some(value)] else p.results)
    case Rejected(error) =>
      p.(runners := p.runners[r := Finished], aborted := true, failure := if p.failure.None? then Some(error) else p.failure)
  }

  function Stepped<R, E>(p: Pool<R, E>, step: Step, stops: bool, worker: nat -> Outcome<R, E>): Pool<R, E>
    requires Enabled(p, step)
  {
    match step
    case Claim(r) => Claimed(p, r, stops)
    case Settle(r) => Settled(p, r, worker(p.runners[r].index))
  }

  /** The pool's shared variables, as the runners update them. */
  class SharedPool<R, E> {
    const stops: bool
    var next: nat
    var runners: seq<Runner>
    var results: seq<Option<R>>
    var aborted: bool
    var failure: Option<E>
    ghost var calls: seq<nat>

    ghost function State(): Pool<R, E>
      reads this
    {
      Pool(next, runners, results, aborted, failure, calls)
    }

    constructor (items: nat, limit: int, stops: bool)
      ensures this.stops == stops && State() == Start(items, RunnerCount(limit, items))
    {
      this.stops := stops;
      next, aborted, failure, calls := 0, false, None, [];
      runners, results := seq(RunnerCount(limit, items), _ => Idle), seq(items, _ => None);
    }

    /** The index to call the worker with, if there is one. */
    method ClaimNext(r: nat) returns (index: Option<nat>)
      requires Enabled(State(), Claim(r))
      modifies this
      ensures State() == Claimed(old(State()), r, stops)
      ensures index == if runners[r].Busy? then Some(runners[r].index) else None
    {
      index := None;
      if next >= |results| {
        runners := runners[r := Finished];
        return;
      }
      var claimed := next;
      next := next + 1;
      if stops && aborted {
        runners := runners[r := Finished];
        return;
      }
      runners, calls, index := runners[r := Busy(claimed)], calls + [claimed], Some(claimed);
    }

    method SettleCall(r: nat, outcome: Outcome<R, E>)
      requires Enabled(State(), Settle(r))
      modifies this
      ensures State() == Settled(old(State()), r, outcome)
    {
      var index := runners[r].index;
      match outcome
      case Resolved(value) =>
        if index < |results| {
          results := results[index := Some(value)];
        }
        runners := runners[r := Idle];
      case Rejected(error) =>
        aborted, failure := true, if failure.None? then Some(error) else failure;
        runners := runners[r := Finished];
    }
  }

  // ----- what every schedule keeps -----

  ghost predicate Counts(calls: seq<nat>, n: nat) {
    |calls| <= n && forall k :: 0 <= k < |calls| ==> calls[k] == k
  }

  /** An item that was called for is in flight, or has settled and left its result or an error. */
  ghost predicate Accounted<R, E>(p: Pool<R, E>, worker: nat -> Outcome<R, E>, i: nat)
    requires i < |p.results|
  {
    || (exists r :: 0 <= r < |p.runners| && p.runners[r] == Busy(i))
    || (worker(i).Resolved? && p.results[i] == Some(worker(i).value))
    || (worker(i).Rejected? && p.failure.Some?)
  }

  ghost predicate Inv<R, E>(p: Pool<R, E>, stops: bool, worker: nat -> Outcome<R, E>) {
    && Counts(p.calls, p.next) && p.next <= |p.results|
    && (p.aborted <==> p.failure.Some?)
    && (!(stops && p.aborted) ==> |p.calls| == p.next)
    && (forall r :: 0 <= r < |p.runners| && p.runners[r].Busy? ==> p.runners[r].index < |p.calls|)
    && (forall r, q :: 0 <= r < q < |p.runners| && p.runners[r].Busy? ==> p.runners[r] != p.runners[q])
    && (forall i :: 0 <= i < |p.calls| ==> Accounted(p, worker, i))
    && (forall i :: 0 <= i < |p.results| && p.results[i].Some? ==> worker(i) == Resolved(p.results[i].value))
    && (p.failure.Some? ==> exists i :: 0 <= i < |p.calls| && worker(i) == Rejected(p.failure.value))
    && (forall r :: 0 <= r < |p.runners| && p.runners[r].Finished? ==> p.next == |p.results| || p.failure.Some?)
  }

  lemma OthersStay<R, E>(p: Pool<R, E>, q: Pool<R, E>, worker: nat -> Outcome<R, E>, r: nat, i: nat)
    requires r < |p.runners| == |q.runners| && i < |p.results| == |q.results|
    requires forall s :: 0 <= s < |p.runners| && s != r ==> q.runners[s] == p.runners[s]
    requires p.runners[r] != Busy(i) && Accounted(p, worker, i)
    requires q.results[i] == p.results[i] && (p.failure.Some? ==> q.failure.Some?)
    ensures Accounted(q, worker, i)
  {
    if s :| 0 <= s < |p.runners| && p.runners[s] == Busy(i) {
      assert q.runners[s] == Busy(i);
    }
  }

  lemma ClaimKeeps<R, E>(p: Pool<R, E>, r: nat, stops: bool, worker: nat -> Outcome<R, E>)
    requires Inv(p, stops, worker) && Enabled(p, Claim(r))
    ensures Inv(Claimed(p, r, stops), stops, worker)
  {
    var q := Claimed(p, r, stops);
    forall i | 0 <= i < |q.calls| ensures Accounted(q, worker, i) {
      if i < |p.calls| {
        OthersStay(p, q, worker, r, i);
      } else {
        assert q.runners[r] == Busy(i);
      }
    }
    if p.failure.Some? {
      var i :| 0 <= i < |p.calls| && worker(i) == Rejected(p.failure.value);
      assert i < |q.calls|;
    }
  }

  lemma SettleKeeps<R, E>(p: Pool<R, E>, r: nat, stops: bool, worker: nat -> Outcome<R, E>)
    requires Inv(p, stops, worker) && Enabled(p, Settle(r))
    ensures Inv(Settled(p, r, worker(p.runners[r].index)), stops, worker)
  {
    var index := p.runners[r].index;
    var q := Settled(p, r, worker(index));
    forall i | 0 <= i < |q.calls| ensures Accounted(q, worker, i) {
      if i != index {
        OthersStay(p, q, worker, r, i);
      }
    }
    if q.failure.Some? {
      if p.failure.Some? {
        var i :| 0 <= i < |p.calls| && worker(i) == Rejected(p.failure.value);
        assert i < |q.calls|;
      } else {
        assert worker(index) == Rejected(q.failure.value);
      }
    }
  }

  lemma StepKeeps<R, E>(p: Pool<R, E>, step: Step, stops: bool, worker: nat -> Outcome<R, E>)
    requires Inv(p, stops, worker) && Enabled(p, step)
    ensures var q := Stepped(p, step, stops, worker);
            Inv(q, stops, worker) && |q.results| == |p.results| && |q.runners| == |p.runners|
  {
    match step
    case Claim(r) => ClaimKeeps(p, r, stops, worker);
    case Settle(r) => SettleKeeps(p, r, stops, worker);
  }

  // ----- runs -----

  ghost predicate IsRun<R(!new), E(!new)>(states: seq<Pool<R, E>>, steps: seq<Step>, items: nat, runners: nat, stops: bool,
                                          worker: nat -> Outcome<R, E>)
  {
    && |states| == |steps| + 1 && states[0] == Start(items, runners)
    && forall k :: 0 <= k < |steps| ==>
         Enabled(states[k], steps[k]) && states[k + 1] == Stepped(states[k], steps[k], stops, worker)
  }

  lemma {:induction false} RunKeeps<R(!new), E(!new)>(states: seq<Pool<R, E>>, steps: seq<Step>, items: nat, runners: nat, stops: bool,
                                                      worker: nat -> Outcome<R, E>, k: nat)
    requires IsRun(states, steps, items, runners, stops, worker) && k < |states|
    ensures Inv(states[k], stops, worker) && |states[k].results| == items && |states[k].runners| == runners
  {
    if k > 0 {
      RunKeeps(states, steps, items, runners, stops, worker, k - 1);
      StepKeeps(states[k - 1], steps[k - 1], stops, worker);
    }
  }

  function InFlight(runners: seq<Runner>, n: nat): set<nat>
    requires n <= |runners|
  {
    set r | 0 <= r < n && runners[r].Busy? :: runners[r].index
  }

  lemma {:induction false} InFlightBound(runners: seq<Runner>, n: nat)
    requires n <= |runners|
    ensures |InFlight(runners, n)| <= n
  {
    if n > 0 {
      InFlightBound(runners, n - 1);
      var last := runners[n - 1];
      assert InFlight(runners, n) == InFlight(runners, n - 1) + if last.Busy? then {last.index} else {};
    }
  }

  /**
   Under every schedule: no more calls in flight than the limit (or than there are items, or one), no
   two of them for one item, and every item handed out once, in order.
   */
  lemma BoundedAndOnce<R(!new), E(!new)>(states: seq<Pool<R, E>>, steps: seq<Step>, items: nat, limit: int, stops: bool,
                                         worker: nat -> Outcome<R, E>, k: nat)
    requires IsRun(states, steps, items, RunnerCount(limit, items), stops, worker) && k < |states|
    ensures |states[k].runners| == if limit <= 0 || items == 0 then 1 else if limit < items then limit else items
    ensures |InFlight(states[k].runners, |states[k].runners|)| <= |states[k].runners|
    ensures forall r, q :: 0 <= r < q < |states[k].runners| && states[k].runners[r].Busy? ==> states[k].runners[r] != states[k].runners[q]
    ensures Distinct(states[k].calls) && forall c :: 0 <= c < |states[k].calls| ==> states[k].calls[c] == c < items
  {
    RunKeeps(states, steps, items, RunnerCount(limit, items), stops, worker, k);
    InFlightBound(states[k].runners, |states[k].runners|);
  }

  ghost predicate AllFinished<R, E>(p: Pool<R, E>) {
    forall r :: 0 <= r < |p.runners| ==> p.runners[r].Finished?
  }

  /**
   When every runner has finished, either all results are there, each the worker's own for that item,
   or the pool fails with an error some worker call gave; with no failing item it cannot fail.
   */
  lemma FinishedIsComplete<R(!new), E(!new)>(states: seq<Pool<R, E>>, steps: seq<Step>, items: nat, limit: int, stops: bool,
                                             worker: nat -> Outcome<R, E>, k: nat)
    requires IsRun(states, steps, items, RunnerCount(limit, items), stops, worker) && k < |states| && AllFinished(states[k])
    ensures states[k].failure.None? ==>
              |states[k].results| == items == |states[k].calls|
              && forall i: nat :: i < items ==> worker(i).Resolved? && states[k].results[i] == Some(worker(i).value)
    ensures states[k].failure.Some? ==> exists i: nat :: i < items && worker(i) == Rejected(states[k].failure.value)
    ensures (forall i: nat :: i < items ==> worker(i).Resolved?) ==> states[k].failure.None?
  {
    RunKeeps(states, steps, items, RunnerCount(limit, items), stops, worker, k);
    DoneIsComplete(states[k], stops, worker);
  }

  lemma DoneIsComplete<R, E>(p: Pool<R, E>, stops: bool, worker: nat -> Outcome<R, E>)
    requires Inv(p, stops, worker) && |p.runners| > 0 && AllFinished(p)
    ensures p.failure.None? ==>
              |p.calls| == |p.results|
              && forall i: nat :: i < |p.results| ==> worker(i).Resolved? && p.results[i] == Some(worker(i).value)
    ensures p.failure.Some? ==> exists i: nat :: i < |p.results| && worker(i) == Rejected(p.failure.value)
  {
    if p.failure.None? {
      assert p.runners[0].Finished?;
      forall i: nat | i < |p.results| ensures worker(i).Resolved? && p.results[i] == Some(worker(i).value) {
        assert Accounted(p, worker, i);
      }
    }
  }

  /** Once a failure is recorded, a pool that stops makes no further worker call. */
  lemma {:induction false} NoCallAfterFailure<R(!new), E(!new)>(states: seq<Pool<R, E>>, steps: seq<Step>, items: nat, limit: int,
                                                                worker: nat -> Outcome<R, E>, i: nat, j: nat)
    requires IsRun(states, steps, items, RunnerCount(limit, items), true, worker)
    requires i <= j < |states| && states[i].failure.Some?
    ensures states[j].calls == states[i].calls && states[j].failure == states[i].failure
  {
    if i < j {
      NoCallAfterFailure(states, steps, items, limit, worker, i, j - 1);
      RunKeeps(states, steps, items, RunnerCount(limit, items), true, worker, j - 1);
    }
  }

  // ----- progress -----

  function Weight(runners: seq<Runner>, n: nat): nat
    requires n <= |runners|
  {
    if n == 0 then 0
    else Weight(runners, n - 1) + match runners[n - 1] case Idle => 1 case Busy(_) => 2 case Finished => 0
  }

  function StepsLeft<R, E>(p: Pool<R, E>): int {
    2 * (|p.results| - p.next) + Weight(p.runners, |p.runners|)
  }

  lemma {:induction false} WeightChanges(runners: seq<Runner>, n: nat, r: nat, runner: Runner)
    requires n <= |runners| && r < |runners|
    ensures Weight(runners[r := runner], n) == Weight(runners, n) +
              if r < n then Weight([runner], 1) - Weight([runners[r]], 1) else 0
  {
    if n > 0 {
      WeightChanges(runners, n - 1, r, runner);
    }
  }

  /** Every step uses up some of a finite budget, and while some runner is not finished there is a step to take. */
  lemma Progress<R, E>(p: Pool<R, E>, step: Step, stops: bool, worker: nat -> Outcome<R, E>)
    requires p.next <= |p.results| && Enabled(p, step)
    ensures 0 <= StepsLeft(Stepped(p, step, stops, worker)) < StepsLeft(p)
    ensures Stepped(p, step, stops, worker).next <= |p.results|
  {
    var r := step.r;
    WeightChanges(p.runners, |p.runners|, r, Stepped(p, step, stops, worker).runners[r]);
  }

  lemma SomeStepIsEnabled<R, E>(p: Pool<R, E>) returns (step: Step)
    requires !AllFinished(p)
    ensures Enabled(p, step)
  {
    var r :| 0 <= r < |p.runners| && !p.runners[r].Finished?;
    step := if p.runners[r].Idle? then Claim(r) else Settle(r);
  }

  // ----- the pool at work -----

  /** What holds of the pool between two steps. */
  ghost predicate Working<R, E>(pool: SharedPool<R, E>, items: nat, stops: bool, worker: nat -> Outcome<R, E>)
    reads pool
  {
    pool.stops == stops && Inv(pool.State(), stops, worker) && |pool.results| == items && |pool.runners| > 0
  }

  /** Whichever runner is scheduled goes on to its next wait. */
  method RunOn<R, E>(pool: SharedPool<R, E>, r: nat, items: nat, stops: bool, worker: nat -> Outcome<R, E>)
    requires Working(pool, items, stops, worker) && r < |pool.runners| && !pool.runners[r].Finished?
    modifies pool
    ensures Working(pool, items, stops, worker)
    ensures 0 <= StepsLeft(pool.State()) < old(StepsLeft(pool.State()))
  {
    ghost var step := if pool.runners[r].Idle? then Claim(r) else Settle(r);
    StepKeeps(pool.State(), step, stops, worker);
    Progress(pool.State(), step, stops, worker);
    if pool.runners[r].Idle? {
      var _ := pool.ClaimNext(r);
    } else {
      pool.SettleCall(r, worker(pool.runners[r].index));
    }
  }

  /**
   The whole call, its runners scheduled in any order: every item's own result in the items' order if no
   worker call fails, and otherwise an error that one of them gave.
   */
  method MapWithConcurrency<R, E>(items: nat, limit: int, stops: bool, worker: nat -> Outcome<R, E>)
    returns (result: Outcome<seq<R>, E>)
    ensures result.Resolved? ==>
              |result.value| == items && forall i: nat :: i < items ==> worker(i) == Resolved(result.value[i])
    ensures result.Rejected? ==> exists i: nat :: i < items && worker(i) == Rejected(result.error)
  {
    var pool := new SharedPool<R, E>(items, limit, stops);
    while exists r :: 0 <= r < |pool.runners| && !pool.runners[r].Finished?
      invariant fresh(pool) && Working(pool, items, stops, worker)
      decreases StepsLeft(pool.State())
    {
      var r :| 0 <= r < |pool.runners| && !pool.runners[r].Finished?;
      RunOn(pool, r, items, stops, worker);
    }
    DoneIsComplete(pool.State(), stops, worker);
    if pool.failure.Some? {
      return Rejected(pool.failure.value);
    }
    var results := pool.results;
    result := Resolved(seq(items, i requires 0 <= i < items => Taken(results, i)));
  }

  function Taken<R>(results: seq<Option<R>>, i: nat): R
    requires i < |results| && results[i].Some?
  {
    results[i].value
  }
}
