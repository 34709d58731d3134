/** The Koios client's bounded retry, and the body packing that learns a smaller limit from a 413. */
module KoiosClient {
  import opened Common
  import opened PackBySize

  const MAX_SAFE_INTEGER: nat := 9_007_199_254_740_991
  const MAX_READ_ATTEMPTS: nat := 100

  /** A provider error has the upstream's status, if it got one, and the body limit its text names. */
  datatype Error = Timeout | Malformed | Provider(status: Option<nat>, named: Option<nat>) | Other

  datatype Outcome<T> = Value(value: T) | Error(error: Error)

  predicate IsTransient(error: Error) {
    match error
    case Timeout => true
    case Malformed => true
    case Provider(status, _) => status.None? || status.value >= 500
    case Other => false
  }

  function LimitFrom413(error: Error): Option<nat> {
    if error.Provider? && error.status == Some(413) && error.named.Some? && 0 < error.named.value <= MAX_SAFE_INTEGER
    then error.named else None
  }

  // ----- retry -----

  predicate WorthRetrying<T>(outcome: Outcome<T>) {
    outcome.Error? && IsTransient(outcome.error)
  }

  /**
   The result is the first attempt's that is not worth retrying, or the last allowed attempt's: a timeout,
   a malformed answer or a server error is tried again, every 4xx ends the read. The waits grow linearly.
   */
  method Read<T>(load: nat -> Outcome<T>, attempts: nat, backoff: nat) returns (result: Outcome<T>, used: nat, waited: nat)
    requires 1 <= attempts <= MAX_READ_ATTEMPTS
    ensures 1 <= used <= attempts && result == load(used)
    ensures forall k :: 1 <= k < used ==>
              && load(k).Error? && !load(k).error.Other?
              && (load(k).error.Provider? ==> load(k).error.status.None? || load(k).error.status.value >= 500)
    ensures used < attempts && result.Error? ==>
              result.error.Other? || (result.error.Provider? && result.error.status.Some? && result.error.status.value < 500)
    ensures 2 * waited == backoff * (used * (used - 1))
  {
    used, waited := 1, 0;
    while true
      invariant 1 <= used <= attempts
      invariant forall k :: 1 <= k < used ==> WorthRetrying(load(k))
      invariant 2 * waited == backoff * (used * (used - 1))
      decreases attempts - used
    {
      result := load(used);
      if result.Value? || used >= attempts || !IsTransient(result.error) {
        return;
      }
      NextWait(backoff, used, waited);
      waited, used := waited + backoff * used, used + 1;
    }
  }

  lemma NextWait(backoff: nat, used: nat, waited: nat)
    requires 1 <= used && 2 * waited == backoff * (used * (used - 1))
    ensures 2 * (waited + backoff * used) == backoff * ((used + 1) * used)
  {
    assert (used + 1) * used == used * (used - 1) + 2 * used;
    assert backoff * (used * (used - 1) + 2 * used) == backoff * (used * (used - 1)) + 2 * (backoff * used);
  }

  // ----- packed batches -----

  /** What the upstream answers to a chunk, on each of the runs a batch may make. */
  type Upstream<!Item, !Row> = (nat, seq<Item>) -> Outcome<seq<Row>>

  /** The first `n` chunks were answered with these lists of rows, one each. */
  ghost predicate Answered<Item(!new), Row(!new)>(lists: seq<seq<Row>>, chunks: seq<seq<Item>>, n: nat, run: nat, send: Upstream<Item, Row>)
    requires n <= |chunks|
  {
    |lists| == n && forall k :: 0 <= k < n ==> send(run, chunks[k]) == Value(lists[k])
  }

  /** One run: all chunks answered and their rows concatenated, or the error of one that failed. */
  ghost predicate RunEnds<Item(!new), Row(!new)>(outcome: Outcome<seq<Row>>, packed: Option<seq<seq<Item>>>, run: nat, send: Upstream<Item, Row>) {
    if packed.None? then outcome == Error(Provider(None, None))
    else if outcome.Value? then
      exists lists :: Answered(lists, packed.value, |packed.value|, run, send) && outcome.value == Flat(lists, |lists|)
    else exists k :: 0 <= k < |packed.value| && send(run, packed.value[k]) == Error(outcome.error)
  }

  ghost predicate RunAt<Item(!new), Row(!new)>(outcome: Outcome<seq<Row>>, items: seq<Item>, size: Item -> nat, envelope: nat,
                                   limit: nat, run: nat, send: Upstream<Item, Row>)
  {
    exists packed :: Packs(packed, items, size, envelope, limit) && RunEnds(outcome, packed, run, send)
  }

  class BatchClient {
    var bodyLimit: nat

    constructor (limit: nat)
      requires 1 <= limit <= MAX_SAFE_INTEGER
      ensures bodyLimit == limit
    {
      bodyLimit := limit;
    }

    /** Which failure is seen first among several is up to the upstream. */
    static method SendAll<Item(!new), Row(!new)>(chunks: seq<seq<Item>>, run: nat, send: Upstream<Item, Row>)
      returns (outcome: Outcome<seq<Row>>)
      ensures RunEnds(outcome, Some(chunks), run, send)
    {
      var rows: seq<Row>, failed: seq<nat> := [], [];
      ghost var lists: seq<seq<Row>> := [];
      for k := 0 to |chunks|
        invariant failed == [] ==> Answered(lists, chunks, k, run, send) && rows == Flat(lists, k)
        invariant forall i :: 0 <= i < |failed| ==> failed[i] < k && send(run, chunks[failed[i]]).Error?
      {
        var sent := send(run, chunks[k]);
        if sent.Value? {
          FlatOfLonger(lists, sent.value, |lists|);
          rows, lists := rows + sent.value, lists + [sent.value];
        } else {
          failed := failed + [k];
        }
      }
      if |failed| > 0 {
        var first :| 0 <= first < |failed|;
        outcome := Error(send(run, chunks[failed[first]]).error);
        assert send(run, chunks[failed[first]]) == Error(outcome.error);
      } else {
        outcome := Value(rows);
        assert Answered(lists, chunks, |chunks|, run, send);
      }
    }

    method Run<Item(!new), Row(!new)>(items: seq<Item>, size: Item -> nat, envelope: nat, run: nat, send: Upstream<Item, Row>)
      returns (outcome: Outcome<seq<Row>>)
      ensures RunAt(outcome, items, size, envelope, bodyLimit, run, send)
    {
      var packed := Pack(items, size, envelope, bodyLimit);
      if packed.None? {
        outcome := Error(Provider(None, None));
        assert RunEnds(outcome, packed, run, send);
      } else {
        outcome := SendAll(packed.value, run, send);
      }
    }

    /**
     At most two runs. The limit changes only to one that a 413 of the first run named, and only
     downwards; then the items are packed again to that limit and the second run's result stands.
     */
    method PackAdaptively<Item(!new), Row(!new)>(items: seq<Item>, size: Item -> nat, envelope: nat, send: Upstream<Item, Row>)
      returns (outcome: Outcome<seq<Row>>, runs: nat)
      modifies this
      ensures runs == if bodyLimit == old(bodyLimit) then 1 else 2
      ensures RunAt(outcome, items, size, envelope, bodyLimit, runs, send)
      ensures runs == 1 && outcome.Error? ==>
                forall named: nat :: outcome.error == Provider(Some(413), Some(named)) ==>
                  named == 0 || named > 9_007_199_254_740_991 || named >= bodyLimit
      ensures runs == 2 ==>
                && 0 < bodyLimit < old(bodyLimit)
                && RunAt(Error(Provider(Some(413), Some(bodyLimit))), items, size, envelope, old(bodyLimit), 1, send)
    {
      runs := 1;
      outcome := Run(items, size, envelope, runs, send);
      if outcome.Error? {
        var said := LimitFrom413(outcome.error);
        if said.Some? && said.value < bodyLimit {
          bodyLimit := said.value;
          runs := 2;
          outcome := Run(items, size, envelope, runs, send);
        }
      }
    }
  }
}
