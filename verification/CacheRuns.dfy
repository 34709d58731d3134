/**
 Every interleaving of reads, load completions and failures, late cleanups, guarded and unguarded
 writes and prefix clears, as runs of a step machine over the cache state. Each event reads its
 own clock, which need not move forward.
 */
module CacheRuns {
  import opened Common
  import opened CacheState

  datatype Outcome<+V> = Value(value: V) | Error

  /** An attempt settles in one callback and takes itself out of flight in a later one. */
  datatype Phase<+V> = Loading | Settled(outcome: Outcome<V>) | Gone(outcome: Outcome<V>)

  /** `began` is the number of clears when the attempt started. */
  datatype Attempt<+V> = Attempt(key: Key, token: nat, began: nat, policy: Policy, phase: Phase<V>)

  /** A generation token, with the number of clears when it was taken. */
  datatype Token = Token(value: nat, began: nat)

  /** Where the value last stored under a key came from: when its load began, when it was stored. */
  datatype Origin<+V> = Origin(value: V, began: nat, at: int, policy: Policy)

  datatype System<V> = System(
    cache: Cache<V>, attempts: seq<Attempt<V>>, tokens: seq<Token>, origin: map<Key, Origin<V>>)

  datatype Event<V> =
    | Read(key: Key, policy: Policy, now: int)
    | LoadOk(id: nat, value: V, now: int)
    | LoadFail(id: nat, now: int)
    | Cleanup(id: nat)
    | Peek(key: Key, now: int)
    | Set(key: Key, value: V, ttl: int, now: int)
    | Take(under: Key)
    | SetIf(key: Key, value: V, ttl: int, token: nat, now: int)
    | Clear(prefix: Key)

  datatype Answer<+V> = Hit(value: V) | Joined(id: nat) | Started(id: nat) | Finished(outcome: Outcome<V>) | Nothing

  predicate Enabled<V>(s: System<V>, e: Event<V>) {
    match e
    case LoadOk(id, _, _) => id < |s.attempts| && s.attempts[id].phase.Loading?
    case LoadFail(id, _) => id < |s.attempts| && s.attempts[id].phase.Loading?
    case Cleanup(id) => id < |s.attempts| && s.attempts[id].phase.Settled?
    case SetIf(_, _, _, token, _) => token < |s.tokens|
    case _ => true
  }

  /** A load that runs may answer or fail, one that settled may be cleaned up, and the rest may always happen. */
  lemma EventsAreEnabled<V>(s: System<V>, id: nat, value: V, key: Key, policy: Policy, now: int)
    ensures id < |s.attempts| && s.attempts[id].phase.Loading? ==> Enabled(s, LoadOk(id, value, now)) && Enabled(s, LoadFail(id, now))
    ensures id < |s.attempts| && s.attempts[id].phase.Settled? ==> Enabled(s, Cleanup(id))
    ensures id < |s.tokens| ==> Enabled(s, SetIf(key, value, policy.ttl, id, now))
    ensures Enabled(s, Read(key, policy, now)) && Enabled(s, Peek(key, now)) && Enabled(s, Set(key, value, policy.ttl, now))
    ensures Enabled(s, Take(key)) && Enabled(s, Clear(key))
  {
  }

  function Write<V>(s: System<V>, key: Key, value: V, policy: Policy, began: nat, now: int, max: nat): System<V> {
    s.(cache := Store(s.cache, key, value, policy, now, max),
       origin := s.origin[key := Origin(value, began, now, policy)])
  }

  function WithPhase<V>(s: System<V>, id: nat, phase: Phase<V>): System<V>
    requires id < |s.attempts|
  {
    s.(attempts := s.attempts[id := s.attempts[id].(phase := phase)])
  }

  /** Whether a token with this value may write under `key` now. */
  predicate Passes<V>(s: System<V>, token: nat, key: Key) {
    token == Generation(s.cache.log, key)
  }

  function AnswerTo<V>(s: System<V>, e: Event<V>): Answer<V>
    requires Enabled(s, e)
  {
    match e
    case Read(key, policy, now) =>
      if Live(s.cache, key, now) then Hit(s.cache.entries[key].value)
      else if key in s.cache.inFlight then Joined(s.cache.inFlight[key])
      else Started(|s.attempts|)
    case LoadOk(id, value, now) => Finished(Value(value))
    case LoadFail(id, now) =>
      var attempt := s.attempts[id];
      Finished(if MayFallBack(s.cache, attempt.key, attempt.token, now) then Value(s.cache.entries[attempt.key].value)
               else Error)
    case Peek(key, now) => if Live(s.cache, key, now) then Hit(s.cache.entries[key].value) else Nothing
    case _ => Nothing
  }

  function Step<V>(s: System<V>, e: Event<V>, max: nat): System<V>
    requires Enabled(s, e)
  {
    match e
    case Read(key, policy, now) =>
      if AnswerTo(s, e).Started? then
        s.(cache := s.cache.(inFlight := s.cache.inFlight[key := |s.attempts|]),
           attempts := s.attempts + [Attempt(key, Generation(s.cache.log, key), |s.cache.log|, policy, Loading)])
      else s
    case LoadOk(id, value, now) =>
      var attempt := s.attempts[id];
      var settled := WithPhase(s, id, Settled(Value(value)));
      if Passes(s, attempt.token, attempt.key)
      then Write(settled, attempt.key, value, attempt.policy, attempt.began, now, max) else settled
    case LoadFail(id, now) => WithPhase(s, id, Settled(AnswerTo(s, e).outcome))
    case Cleanup(id) =>
      var attempt := s.attempts[id];
      var inFlight := s.cache.inFlight;
      WithPhase(s, id, Gone(attempt.phase.outcome)).(
        cache := s.cache.(inFlight := if attempt.key in inFlight && inFlight[attempt.key] == id
                                      then inFlight - {attempt.key} else inFlight))
    case Peek(key, now) => s
    case Set(key, value, ttl, now) => Write(s, key, value, Policy(ttl, 0), |s.cache.log|, now, max)
    case Take(under) => s.(tokens := s.tokens + [Token(Generation(s.cache.log, under), |s.cache.log|)])
    case SetIf(key, value, ttl, token, now) =>
      if Passes(s, s.tokens[token].value, key)
      then Write(s, key, value, Policy(ttl, 0), s.tokens[token].began, now, max) else s
    case Clear(prefix) => s.(cache := Cleared(s.cache, prefix))
  }

  function Init<V>(): System<V> {
    System(Cache([], map[], map[], []), [], [], map[])
  }

  // ----- what every interleaving keeps -----

  /** No clear since number `began` matched the key. */
  ghost predicate Unclear(log: seq<Key>, began: nat, key: Key) {
    forall j :: began <= j < |log| ==> !(log[j] <= key)
  }

  ghost predicate ClearedSince(log: seq<Key>, began: nat, key: Key) {
    exists j :: began <= j < |log| && log[j] <= key
  }

  /** A stored entry is its origin's, and no clear has matched its key since that origin began. */
  ghost predicate EntriesTraced<V>(s: System<V>) {
    forall k :: k in s.cache.entries ==>
      && k in s.origin
      && s.cache.entries[k] == EntryFor(s.origin[k].value, s.origin[k].policy, s.origin[k].at)
      && s.origin[k].began <= |s.cache.log|
      && Unclear(s.cache.log, s.origin[k].began, k)
  }

  ghost predicate TokensDated<V>(s: System<V>) {
    && (forall id :: 0 <= id < |s.attempts| ==>
          && s.attempts[id].began <= |s.cache.log|
          && s.attempts[id].token == Latest(s.cache.log, s.attempts[id].began, s.attempts[id].key))
    && (forall t :: 0 <= t < |s.tokens| ==> s.tokens[t].value <= s.tokens[t].began <= |s.cache.log|)
  }

  /** One registered attempt per key; an unregistered one that is not gone has been cleared away. */
  ghost predicate FlightsAccounted<V>(s: System<V>) {
    && (forall k :: k in s.cache.inFlight ==>
          var id := s.cache.inFlight[k];
          id < |s.attempts| && s.attempts[id].key == k && !s.attempts[id].phase.Gone?)
    && (forall id :: 0 <= id < |s.attempts| && !s.attempts[id].phase.Gone? ==>
          || (s.attempts[id].key in s.cache.inFlight && s.cache.inFlight[s.attempts[id].key] == id)
          || ClearedSince(s.cache.log, s.attempts[id].began, s.attempts[id].key))
  }

  ghost predicate Inv<V>(s: System<V>, max: nat) {
    && s.cache.Valid() && |s.cache.order| <= max
    && EntriesTraced(s) && TokensDated(s) && FlightsAccounted(s)
  }

  lemma {:induction false} LatestOfLonger(log: seq<Key>, prefix: Key, n: nat, key: Key)
    requires n <= |log|
    ensures Latest(log + [prefix], n, key) == Latest(log, n, key)
  {
    if n > 0 {
      LatestOfLonger(log, prefix, n - 1, key);
    }
  }

  /** A write whose token still passes is traced to a start no matching clear came after. */
  lemma WriteKeepsTraced<V>(s: System<V>, key: Key, value: V, policy: Policy, began: nat, now: int, max: nat)
    requires Inv(s, max) && began <= |s.cache.log| && Unclear(s.cache.log, began, key)
    ensures Inv(Write(s, key, value, policy, began, now, max), max)
  {
    StoreFacts(s.cache, key, value, policy, now, max);
  }

  lemma PassingIsUnclear(log: seq<Key>, token: nat, began: nat, key: Key)
    requires token <= began <= |log| && token == Generation(log, key)
    ensures Unclear(log, began, key)
  {
  }

  lemma WithPhaseKeeps<V>(s: System<V>, id: nat, phase: Phase<V>, max: nat)
    requires Inv(s, max) && id < |s.attempts| && s.attempts[id].phase.Loading? && !phase.Gone?
    ensures Inv(WithPhase(s, id, phase), max)
  {
    var after := WithPhase(s, id, phase);
    assert forall i :: 0 <= i < |s.attempts| ==>
        after.attempts[i].key == s.attempts[i].key && after.attempts[i].began == s.attempts[i].began
        && after.attempts[i].phase.Gone? == s.attempts[i].phase.Gone?;
  }

  lemma CleanupKeepsFlights<V>(s: System<V>, id: nat, max: nat)
    requires FlightsAccounted(s) && Enabled(s, Cleanup(id))
    ensures FlightsAccounted(Step(s, Cleanup(id), max))
  {
    var after := Step(s, Cleanup(id), max);
    assert forall i :: 0 <= i < |s.attempts| ==>
        after.attempts[i].key == s.attempts[i].key && after.attempts[i].began == s.attempts[i].began
        && (i != id ==> after.attempts[i] == s.attempts[i]);
  }

  lemma CleanupKeeps<V>(s: System<V>, id: nat, max: nat)
    requires Inv(s, max) && Enabled(s, Cleanup(id))
    ensures Inv(Step(s, Cleanup(id), max), max)
  {
    CleanupKeepsFlights(s, id, max);
  }

  lemma ClearKeeps<V>(s: System<V>, prefix: Key, max: nat)
    requires Inv(s, max)
    ensures Inv(Step(s, Clear(prefix), max), max)
  {
    var after := Step(s, Clear(prefix), max);
    ClearedFacts(s.cache, prefix);
    forall id | 0 <= id < |s.attempts| {
      LatestOfLonger(s.cache.log, prefix, s.attempts[id].began, s.attempts[id].key);
    }
    forall id | 0 <= id < |s.attempts| && !s.attempts[id].phase.Gone?
      ensures || (s.attempts[id].key in after.cache.inFlight && after.cache.inFlight[s.attempts[id].key] == id)
              || ClearedSince(after.cache.log, s.attempts[id].began, s.attempts[id].key)
    {
      if prefix <= s.attempts[id].key {
        assert after.cache.log[|s.cache.log|] <= s.attempts[id].key;
      } else if ClearedSince(s.cache.log, s.attempts[id].began, s.attempts[id].key) {
        var j :| s.attempts[id].began <= j < |s.cache.log| && s.cache.log[j] <= s.attempts[id].key;
        assert after.cache.log[j] <= s.attempts[id].key;
      }
    }
  }

  lemma ReadKeeps<V>(s: System<V>, key: Key, policy: Policy, now: int, max: nat)
    requires Inv(s, max)
    ensures Inv(Step(s, Read(key, policy, now), max), max)
  {
  }

  lemma StepKeeps<V>(s: System<V>, e: Event<V>, max: nat)
    requires Inv(s, max) && Enabled(s, e)
    ensures Inv(Step(s, e, max), max)
  {
    match e
    case Read(key, policy, now) => ReadKeeps(s, key, policy, now, max);
    case LoadOk(id, value, now) =>
      var attempt := s.attempts[id];
      WithPhaseKeeps(s, id, Settled(Value(value)), max);
      if Passes(s, attempt.token, attempt.key) {
        PassingIsUnclear(s.cache.log, attempt.token, attempt.began, attempt.key);
        WriteKeepsTraced(WithPhase(s, id, Settled(Value(value))), attempt.key, value, attempt.policy, attempt.began, now, max);
      }
    case LoadFail(id, now) => WithPhaseKeeps(s, id, Settled(AnswerTo(s, e).outcome), max);
    case Cleanup(id) => CleanupKeeps(s, id, max);
    case Set(key, value, ttl, now) => WriteKeepsTraced(s, key, value, Policy(ttl, 0), |s.cache.log|, now, max);
    case Peek(key, now) =>
    case Take(under) =>
    case SetIf(key, value, ttl, token, now) =>
      if Passes(s, s.tokens[token].value, key) {
        PassingIsUnclear(s.cache.log, s.tokens[token].value, s.tokens[token].began, key);
        WriteKeepsTraced(s, key, value, Policy(ttl, 0), s.tokens[token].began, now, max);
      }
    case Clear(prefix) => ClearKeeps(s, prefix, max);
  }

  // ----- runs -----

  /** A run: one more state than events, each state the step of the one before. */
  ghost predicate IsRun<V(!new)>(states: seq<System<V>>, events: seq<Event<V>>, max: nat) {
    && |states| == |events| + 1 && states[0] == Init()
    && forall i :: 0 <= i < |events| ==> Enabled(states[i], events[i]) && states[i + 1] == Step(states[i], events[i], max)
  }

  lemma {:induction false} RunKeeps<V(!new)>(states: seq<System<V>>, events: seq<Event<V>>, max: nat, i: nat)
    requires IsRun(states, events, max) && i < |states|
    ensures Inv(states[i], max)
  {
    if i > 0 {
      RunKeeps(states, events, max, i - 1);
      StepKeeps(states[i - 1], events[i - 1], max);
    }
  }

  /** The size is within the bound at every reachable state. */
  lemma SizeIsBounded<V(!new)>(states: seq<System<V>>, events: seq<Event<V>>, max: nat, i: nat)
    requires IsRun(states, events, max) && i < |states|
    ensures |states[i].cache.entries| <= max
  {
    RunKeeps(states, events, max, i);
    OrderSize(states[i].cache.order, states[i].cache.entries.Keys);
  }

  lemma {:induction false} OrderSize(order: seq<Key>, keys: set<Key>)
    requires Distinct(order) && forall k :: k in order <==> k in keys
    ensures |keys| == |order|
  {
    if order == [] {
      assert keys == {};
    } else {
      var last := order[|order| - 1];
      assert order == order[..|order| - 1] + [last];
      OrderSize(order[..|order| - 1], keys - {last});
    }
  }

  lemma StepGrows<V>(s: System<V>, e: Event<V>, max: nat)
    requires s.cache.Valid() && Enabled(s, e)
    ensures var after := Step(s, e, max);
            s.cache.log <= after.cache.log && |s.attempts| <= |after.attempts| && |s.tokens| <= |after.tokens|
  {
  }

  lemma {:induction false} LogGrows<V(!new)>(states: seq<System<V>>, events: seq<Event<V>>, max: nat, i: nat, j: nat)
    requires IsRun(states, events, max) && i <= j < |states|
    ensures states[i].cache.log <= states[j].cache.log
    ensures |states[i].attempts| <= |states[j].attempts| && |states[i].tokens| <= |states[j].tokens|
  {
    if i < j {
      LogGrows(states, events, max, i, j - 1);
      RunKeeps(states, events, max, j - 1);
      StepGrows(states[j - 1], events[j - 1], max);
    }
  }

  /**
   The fence. After a clear at step `i`, nothing stored under a key it matched comes from an
   attempt or token that began before it.
   */
  lemma ClearFencesEntries<V(!new)>(states: seq<System<V>>, events: seq<Event<V>>, max: nat, i: nat, j: nat, key: Key)
    requires IsRun(states, events, max) && i < j < |states|
    requires events[i].Clear? && events[i].prefix <= key && key in states[j].cache.entries
    ensures key in states[j].origin && states[j].origin[key].began > |states[i].cache.log|
  {
    RunKeeps(states, events, max, j);
    LogGrows(states, events, max, i + 1, j);
    assert states[i + 1].cache.log[|states[i].cache.log|] == events[i].prefix;
  }

  /** A load that began before the clear stores nothing, and its failure serves no fallback. */
  lemma ClearFencesAttempts<V(!new)>(states: seq<System<V>>, events: seq<Event<V>>, max: nat, i: nat, j: nat)
    requires IsRun(states, events, max) && i < j < |events|
    requires events[i].Clear? && (events[j].LoadOk? || events[j].LoadFail?)
    requires var attempt := states[j].attempts[events[j].id];
             events[i].prefix <= attempt.key && attempt.began <= |states[i].cache.log|
    ensures states[j + 1].cache == states[j].cache
    ensures events[j].LoadFail? ==> AnswerTo(states[j], events[j]) == Finished(Error)
  {
    RunKeeps(states, events, max, j);
    LogGrows(states, events, max, i + 1, j);
    var attempt := states[j].attempts[events[j].id];
    assert states[j].cache.log[|states[i].cache.log|] == events[i].prefix;
    assert Overlaps(states[j].cache.log[|states[i].cache.log|], attempt.key);
  }

  /** A token taken before the clear, under whatever key, writes nothing under a key it matched. */
  lemma ClearFencesTokens<V(!new)>(states: seq<System<V>>, events: seq<Event<V>>, max: nat, i: nat, j: nat)
    requires IsRun(states, events, max) && i < j < |events|
    requires events[i].Clear? && events[j].SetIf? && events[i].prefix <= events[j].key
    requires states[j].tokens[events[j].token].began <= |states[i].cache.log|
    ensures states[j + 1] == states[j]
  {
    RunKeeps(states, events, max, j);
    LogGrows(states, events, max, i + 1, j);
    assert states[j].cache.log[|states[i].cache.log|] == events[i].prefix;
    assert Overlaps(states[j].cache.log[|states[i].cache.log|], events[j].key);
  }

  /**
   Two loads of one key overlap only if a clear matching that key fell between their starts: when
   a read starts a load, every earlier load of that key still around has been cleared since.
   */
  lemma OverlapNeedsClear<V(!new)>(states: seq<System<V>>, events: seq<Event<V>>, max: nat, i: nat, id: nat)
    requires IsRun(states, events, max) && i < |events|
    requires events[i].Read? && AnswerTo(states[i], events[i]).Started?
    requires id < |states[i].attempts| && states[i].attempts[id].key == events[i].key
    requires !states[i].attempts[id].phase.Gone?
    ensures var started := AnswerTo(states[i], events[i]).id;
            && started < |states[i + 1].attempts| && states[i + 1].attempts[started].key == events[i].key
            && exists j :: states[i].attempts[id].began <= j < states[i + 1].attempts[started].began
                           && states[i].cache.log[j] <= events[i].key
  {
    RunKeeps(states, events, max, i);
    var j :| states[i].attempts[id].began <= j < |states[i].cache.log| && states[i].cache.log[j] <= events[i].key;
    assert j < states[i + 1].attempts[|states[i].attempts|].began;
  }

  /** Concurrent misses share one attempt on their own key, and a late cleanup spares a newer one. */
  lemma MissesShareTheAttempt<V(!new)>(states: seq<System<V>>, events: seq<Event<V>>, max: nat, i: nat)
    requires IsRun(states, events, max) && i < |events|
    ensures events[i].Read? && AnswerTo(states[i], events[i]).Joined? ==>
              var id := AnswerTo(states[i], events[i]).id;
              && id < |states[i].attempts| && states[i].attempts[id].key == events[i].key
              && !states[i].attempts[id].phase.Gone? && states[i + 1] == states[i]
    ensures events[i].Cleanup? ==>
              forall k :: k in states[i].cache.inFlight && states[i].cache.inFlight[k] != events[i].id ==>
                k in states[i + 1].cache.inFlight && states[i + 1].cache.inFlight[k] == states[i].cache.inFlight[k]
  {
    RunKeeps(states, events, max, i);
  }

  /** The event that stored a value, with everything the entry's deadlines are computed from. */
  ghost predicate Stores<V>(s: System<V>, e: Event<V>, key: Key, origin: Origin<V>) {
    match e
    case LoadOk(id, value, now) =>
      && id < |s.attempts| && s.attempts[id].key == key && Passes(s, s.attempts[id].token, key)
      && origin == Origin(value, s.attempts[id].began, now, s.attempts[id].policy)
    case Set(k, value, ttl, now) => k == key && origin == Origin(value, |s.cache.log|, now, Policy(ttl, 0))
    case SetIf(k, value, ttl, token, now) =>
      && k == key && token < |s.tokens| && Passes(s, s.tokens[token].value, key)
      && origin == Origin(value, s.tokens[token].began, now, Policy(ttl, 0))
    case _ => false
  }

  /** Nothing is in the cache that some earlier event of the run did not store there. */
  lemma {:induction false} StoredEarlier<V(!new)>(states: seq<System<V>>, events: seq<Event<V>>, max: nat, i: nat, key: Key)
    returns (m: nat)
    requires IsRun(states, events, max) && i < |states| && key in states[i].origin
    ensures m < i && Stores(states[m], events[m], key, states[i].origin[key])
  {
    if key in states[i - 1].origin && states[i - 1].origin[key] == states[i].origin[key] {
      m := StoredEarlier(states, events, max, i - 1, key);
    } else {
      m := i - 1;
    }
  }

  /**
   Whatever a read, a peek or a fallback serves was stored by an earlier event, and is served before
   that event's own expiry or, after a failed refresh, before a deadline that event fixed. No matching
   clear came after the stored value's load began, and serving it leaves the cache as it was.
   */
  lemma ServedWithinDeadlines<V(!new)>(states: seq<System<V>>, events: seq<Event<V>>, max: nat, i: nat)
    returns (m: nat)
    requires IsRun(states, events, max) && i < |events|
    requires AnswerTo(states[i], events[i]).Hit?
             || (events[i].LoadFail? && AnswerTo(states[i], events[i]) != Finished(Error))
    ensures var fallback := events[i].LoadFail?;
            var key := if fallback then states[i].attempts[events[i].id].key else events[i].key;
            && key in states[i].origin
            && var origin := states[i].origin[key];
            && m < i && Stores(states[m], events[m], key, origin)
            && AnswerTo(states[i], events[i]) == (if fallback then Finished(Value(origin.value)) else Hit(origin.value))
            && events[i].now < origin.at + origin.policy.ttl + (if fallback then origin.policy.staleIfError else 0)
            && Unclear(states[i].cache.log, origin.began, key)
            && states[i + 1].cache == states[i].cache
  {
    RunKeeps(states, events, max, i);
    m := StoredEarlier(states, events, max, i, if events[i].LoadFail? then states[i].attempts[events[i].id].key else events[i].key);
  }
}
