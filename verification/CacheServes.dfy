/**
 What the cache is for: a value that was stored is served, until the deadlines its store fixed, by every
 read in between, as long as nothing clears it, replaces it or crowds it out.
 */
module CacheServes {
  import opened Common
  import opened CacheState
  import opened CacheRuns

  // ----- what an eviction keeps -----

  lemma {:induction false} UsablePrefix<V>(order: seq<Key>, m: nat, n: nat, entries: map<Key, Entry<V>>, now: int)
    requires m <= n <= |order|
    ensures Usable(order, m, entries, now) <= Usable(order, n, entries, now)
    ensures |Usable(order, n, entries, now)| - |Usable(order, m, entries, now)| <= n - m
  {
    if m < n {
      UsablePrefix(order, m, n - 1, entries, now);
    }
  }

  /** How many usable keys come after place `i`. */
  function UsableAfter<V>(c: Cache<V>, i: nat, now: int): int
    requires i < |c.order|
  {
    |Usable(c.order, |c.order|, c.entries, now)| - |Usable(c.order, i + 1, c.entries, now)|
  }

  predicate StillUsable<V>(c: Cache<V>, key: Key, now: int) {
    key in c.entries && c.entries[key].usableUntil > now
  }

  /** A usable key's place among the usable ones: all those after it in the order are after it there. */
  lemma UsablePlace<V>(c: Cache<V>, i: nat, now: int)
    requires c.Valid() && i < |c.order| && StillUsable(c, c.order[i], now)
    ensures var usable := Usable(c.order, |c.order|, c.entries, now);
            0 <= UsableAfter(c, i, now) < |usable| && usable[|usable| - 1 - UsableAfter(c, i, now)] == c.order[i]
  {
    UsablePrefix(c.order, i + 1, |c.order|, c.entries, now);
  }

  lemma CrowdedExactly<V>(c: Cache<V>, i: nat, now: int, max: nat)
    requires c.Valid() && i < |c.order|
    ensures c.order[i] in Newest(Usable(c.order, |c.order|, c.entries, now), max) <==>
            StillUsable(c, c.order[i], now) && UsableAfter(c, i, now) < max
  {
    var usable := Usable(c.order, |c.order|, c.entries, now);
    UsableFacts(c.order, |c.order|, c.entries, now);
    NewestFacts(usable, max);
    if StillUsable(c, c.order[i], now) {
      UsablePlace(c, i, now);
      InNewest(usable, |usable| - 1 - UsableAfter(c, i, now), max);
    }
  }

  lemma KeptKeys<V>(c: Cache<V>, now: int, max: nat)
    requires c.Valid() && |c.order| > max
    ensures var newest := Newest(Usable(c.order, |c.order|, c.entries, now), max);
            && Evicted(c, now, max) == Keep(c, newest)
            && (forall k :: k in Keep(c, newest).entries <==> k in newest)
            && (forall k :: k in newest ==> Keep(c, newest).entries[k] == c.entries[k])
  {
    var usable := Usable(c.order, |c.order|, c.entries, now);
    UsableFacts(c.order, |c.order|, c.entries, now);
    assert c.order[..|c.order|] == c.order;
    NewestFacts(usable, max);
    KeepKeepsValid(c, Newest(usable, max));
  }

  /**
   An entry survives an eviction exactly when there are not too many, or when it is usable and fewer usable
   ones than the bound are newer.
   */
  lemma EvictedExactly<V>(c: Cache<V>, i: nat, now: int, max: nat)
    requires c.Valid() && i < |c.order|
    ensures c.order[i] in Evicted(c, now, max).entries <==>
            || |c.order| <= max
            || (StillUsable(c, c.order[i], now) && UsableAfter(c, i, now) < max)
    ensures c.order[i] in Evicted(c, now, max).entries ==>
              Evicted(c, now, max).entries[c.order[i]] == c.entries[c.order[i]]
  {
    if |c.order| > max {
      CrowdedExactly(c, i, now, max);
      KeptKeys(c, now, max);
    }
  }

  lemma InNewest(keys: seq<Key>, p: nat, max: nat)
    requires Distinct(keys) && p < |keys|
    ensures keys[p] in Newest(keys, max) <==> |keys| - 1 - p < max
  {
    var newest := Newest(keys, max);
    if |keys| - 1 - p < max && |keys| > max {
      assert newest[p - (|keys| - max)] == keys[p];
    }
  }

  // ----- how many entries are newer -----

  /** The key is in the order with at most `n` keys after it. */
  ghost predicate NearNewest<V>(c: Cache<V>, key: Key, n: nat) {
    exists i :: 0 <= i < |c.order| && c.order[i] == key && |c.order| - 1 - i <= n
  }

  /** What a stored value is, and until when. */
  ghost predicate Holds<V>(c: Cache<V>, key: Key, value: V, expiry: int, deadline: int, n: nat) {
    && NearNewest(c, key, n) && key in c.entries
    && c.entries[key].value == value && c.entries[key].expiresAt == expiry && c.entries[key].usableUntil == deadline
  }

  /** Where a usable key stands among those an eviction keeps. */
  lemma CrowdedPlace<V>(c: Cache<V>, i: nat, now: int, max: nat) returns (q: nat)
    requires c.Valid() && i < |c.order| && StillUsable(c, c.order[i], now) && |c.order| - 1 - i < max
    ensures var newest := Newest(Usable(c.order, |c.order|, c.entries, now), max);
            q < |newest| && newest[q] == c.order[i] && |newest| - 1 - q <= |c.order| - 1 - i
  {
    UsablePrefix(c.order, i + 1, |c.order|, c.entries, now);
    UsablePlace(c, i, now);
    q := NewestPlace(Usable(c.order, |c.order|, c.entries, now), UsableAfter(c, i, now), max);
  }

  lemma NewestPlace(keys: seq<Key>, later: nat, max: nat) returns (q: nat)
    requires later < |keys| && later < max
    ensures var newest := Newest(keys, max); q < |newest| && newest[q] == keys[|keys| - 1 - later] && |newest| - 1 - q == later
  {
    q := |Newest(keys, max)| - 1 - later;
  }

  lemma EvictionKeepsHeld<V>(c: Cache<V>, now: int, max: nat, key: Key, value: V, expiry: int, deadline: int, n: nat)
    requires c.Valid() && Holds(c, key, value, expiry, deadline, n) && n < max && now < deadline
    ensures Holds(Evicted(c, now, max), key, value, expiry, deadline, n)
  {
    if |c.order| > max {
      var i :| 0 <= i < |c.order| && c.order[i] == key && |c.order| - 1 - i <= n;
      var q := CrowdedPlace(c, i, now, max);
      KeptKeys(c, now, max);
      assert Evicted(c, now, max).order[q] == key;
    }
  }

  /** A store puts its own entry in, with the time it is told and the policy's two spans. */
  lemma StoreHolds<V>(c: Cache<V>, key: Key, value: V, policy: Policy, now: int, max: nat, n: nat)
    requires c.Valid() && (key in c.entries ==> NearNewest(c, key, n)) && n < max && 0 < policy.ttl + policy.staleIfError
    ensures Holds(Store(c, key, value, policy, now, max), key, value, now + policy.ttl,
                  now + policy.ttl + policy.staleIfError, n)
  {
    var put := Put(c, key, EntryFor(value, policy, now));
    PutKeepsValid(c, key, EntryFor(value, policy, now));
    if key !in c.entries {
      assert put.order[|c.order|] == key;
    } else {
      var i :| 0 <= i < |c.order| && c.order[i] == key && |c.order| - 1 - i <= n;
      assert put.order[i] == key;
    }
    EvictionKeepsHeld(put, now, max, key, value, now + policy.ttl, now + policy.ttl + policy.staleIfError, n);
  }

  /** A store of another key makes at most one entry more the newer one. */
  lemma OtherStoreHolds<V>(c: Cache<V>, key: Key, value: V, expiry: int, deadline: int, n: nat,
                           other: Key, stored: V, policy: Policy, now: int, max: nat)
    requires c.Valid() && Holds(c, key, value, expiry, deadline, n) && other != key && n + 1 < max && now < deadline
    ensures Holds(Store(c, other, stored, policy, now, max), key, value, expiry, deadline, n + 1)
  {
    var put := Put(c, other, EntryFor(stored, policy, now));
    PutKeepsValid(c, other, EntryFor(stored, policy, now));
    var i :| 0 <= i < |c.order| && c.order[i] == key && |c.order| - 1 - i <= n;
    assert put.order[i] == key;
    EvictionKeepsHeld(put, now, max, key, value, expiry, deadline, n + 1);
  }

  lemma {:induction false} OutsidePlace(order: seq<Key>, n: nat, prefix: Key, i: nat) returns (p: nat)
    requires i < n <= |order| && !(prefix <= order[i])
    ensures var rest := Outside(order, n, prefix); p < |rest| && rest[p] == order[i] && |rest| - 1 - p <= n - 1 - i
  {
    if i == n - 1 {
      p := |Outside(order, n - 1, prefix)|;
    } else {
      p := OutsidePlace(order, n - 1, prefix, i);
    }
  }

  /** A clear that does not match the key leaves its entry and no more newer ones. */
  lemma OtherClearHolds<V>(c: Cache<V>, key: Key, value: V, expiry: int, deadline: int, n: nat, prefix: Key)
    requires c.Valid() && Holds(c, key, value, expiry, deadline, n) && !(prefix <= key)
    ensures Holds(Cleared(c, prefix), key, value, expiry, deadline, n)
  {
    ClearedFacts(c, prefix);
    var i :| 0 <= i < |c.order| && c.order[i] == key && |c.order| - 1 - i <= n;
    var p := OutsidePlace(c.order, |c.order|, prefix, i);
    assert Cleared(c, prefix).order == Outside(c.order, |c.order|, prefix);
  }

  // ----- over runs -----

  /** No clear since number `began` named a prefix of the key or anything under it. */
  ghost predicate Undisturbed(log: seq<Key>, began: nat, key: Key) {
    forall j :: began <= j < |log| ==> !(log[j] <= key) && !(key <= log[j])
  }

  lemma OwnTokenPasses<V>(s: System<V>, id: nat, max: nat)
    requires Inv(s, max) && id < |s.attempts| && Undisturbed(s.cache.log, s.attempts[id].began, s.attempts[id].key)
    ensures s.attempts[id].token == Generation(s.cache.log, s.attempts[id].key)
  {
    FenceIsExact(s.cache.log, s.attempts[id].began, s.attempts[id].key);
  }

  /** A token taken under a key passes for that key as long as no clear disturbs it. */
  lemma TakenTokenPasses<V(!new)>(states: seq<System<V>>, events: seq<Event<V>>, max: nat, t: nat, i: nat, key: Key)
    requires IsRun(states, events, max) && t < i < |states| && events[t] == Take(key)
    requires Undisturbed(states[i].cache.log, |states[t].cache.log|, key)
    ensures |states[t].tokens| < |states[i].tokens|
    ensures states[i].tokens[|states[t].tokens|].value == Generation(states[i].cache.log, key)
  {
    TokenStays(states, events, max, t + 1, i, |states[t].tokens|);
    LogGrows(states, events, max, t, i);
    LatestOfPrefix(states[t].cache.log, states[i].cache.log, |states[t].cache.log|, key);
    FenceIsExact(states[i].cache.log, |states[t].cache.log|, key);
  }

  lemma {:induction false} TokenStays<V(!new)>(states: seq<System<V>>, events: seq<Event<V>>, max: nat, from: nat, to: nat, token: nat)
    requires IsRun(states, events, max) && from <= to < |states| && token < |states[from].tokens|
    ensures token < |states[to].tokens| && states[to].tokens[token] == states[from].tokens[token]
  {
    if from < to {
      TokenStays(states, events, max, from, to - 1, token);
    }
  }

  lemma {:induction false} LatestOfPrefix(log: seq<Key>, longer: seq<Key>, n: nat, key: Key)
    requires log <= longer && n <= |log|
    ensures Latest(longer, n, key) == Latest(log, n, key)
  {
    if n > 0 {
      LatestOfPrefix(log, longer, n - 1, key);
    }
  }

  /** A load that no clear disturbed, an unguarded write, or a guarded one whose token passes. */
  ghost predicate Saves<V>(s: System<V>, e: Event<V>, key: Key, value: V, policy: Policy, at: int) {
    match e
    case LoadOk(id, v, now) =>
      && id < |s.attempts| && s.attempts[id].key == key && s.attempts[id].policy == policy
      && v == value && now == at && Undisturbed(s.cache.log, s.attempts[id].began, key)
    case Set(k, v, ttl, now) => k == key && v == value && now == at && policy == Policy(ttl, 0)
    case SetIf(k, v, ttl, token, now) =>
      && k == key && v == value && now == at && policy == Policy(ttl, 0)
      && token < |s.tokens| && s.tokens[token].value == Generation(s.cache.log, key)
    case _ => false
  }

  /** The event may write, under this key. */
  predicate MayWrite<V>(s: System<V>, e: Event<V>, key: Key) {
    match e
    case LoadOk(id, _, _) => id < |s.attempts| && s.attempts[id].key == key
    case Set(k, _, _, _) => k == key
    case SetIf(k, _, _, _, _) => k == key
    case _ => false
  }

  predicate IsWrite<V>(e: Event<V>) {
    e.LoadOk? || e.Set? || e.SetIf?
  }

  function Writes<V>(events: seq<Event<V>>, from: nat, to: nat): nat
    requires from <= to <= |events|
  {
    if from == to then 0 else Writes(events, from, to - 1) + if IsWrite(events[to - 1]) then 1 else 0
  }

  /** Nothing between the two steps clears the key or writes under it, and other writes find it usable. */
  ghost predicate LeftAlone<V(!new)>(states: seq<System<V>>, events: seq<Event<V>>, from: nat, to: nat, key: Key, deadline: int)
    requires to <= |events| <= |states|
  {
    forall m :: from <= m < to ==>
      && (events[m].Clear? ==> !(events[m].prefix <= key))
      && !MayWrite(states[m], events[m], key)
      && (IsWrite(events[m]) ==> events[m].now < deadline)
  }

  lemma SaveHolds<V>(s: System<V>, e: Event<V>, max: nat, key: Key, value: V, policy: Policy, at: int, n: nat)
    requires Inv(s, max) && Enabled(s, e) && Saves(s, e, key, value, policy, at)
    requires (key in s.cache.entries ==> NearNewest(s.cache, key, n)) && n < max && 0 < policy.ttl + policy.staleIfError
    ensures Holds(Step(s, e, max).cache, key, value, at + policy.ttl, at + policy.ttl + policy.staleIfError, n)
  {
    StoreHolds(s.cache, key, value, policy, at, max, n);
    if e.LoadOk? {
      OwnTokenPasses(s, e.id, max);
    }
  }

  lemma StepHolds<V>(s: System<V>, e: Event<V>, max: nat, key: Key, value: V, expiry: int, deadline: int, n: nat)
    requires Inv(s, max) && Enabled(s, e) && Holds(s.cache, key, value, expiry, deadline, n)
    requires (e.Clear? ==> !(e.prefix <= key)) && !MayWrite(s, e, key)
    requires IsWrite(e) ==> e.now < deadline && n + 1 < max
    ensures Holds(Step(s, e, max).cache, key, value, expiry, deadline, n + if IsWrite(e) then 1 else 0)
  {
    match e
    case LoadOk(id, v, now) =>
      OtherStoreHolds(s.cache, key, value, expiry, deadline, n, s.attempts[id].key, v, s.attempts[id].policy, now, max);
    case Set(k, v, ttl, now) => OtherStoreHolds(s.cache, key, value, expiry, deadline, n, k, v, Policy(ttl, 0), now, max);
    case SetIf(k, v, ttl, _, now) => OtherStoreHolds(s.cache, key, value, expiry, deadline, n, k, v, Policy(ttl, 0), now, max);
    case Clear(prefix) => OtherClearHolds(s.cache, key, value, expiry, deadline, n, prefix);
    case _ =>
  }

  lemma StepInRun<V(!new)>(states: seq<System<V>>, events: seq<Event<V>>, max: nat, m: nat,
                           key: Key, value: V, expiry: int, deadline: int, n: nat)
    requires IsRun(states, events, max) && m < |events| && LeftAlone(states, events, m, m + 1, key, deadline)
    requires Holds(states[m].cache, key, value, expiry, deadline, n) && (IsWrite(events[m]) ==> n + 1 < max)
    ensures Holds(states[m + 1].cache, key, value, expiry, deadline, n + if IsWrite(events[m]) then 1 else 0)
  {
    RunKeeps(states, events, max, m);
    StepHolds(states[m], events[m], max, key, value, expiry, deadline, n);
  }

  /** Where `n` entries are newer and some writes follow, the value stays while both together are within the bound. */
  lemma {:induction false} StaysHeld<V(!new)>(states: seq<System<V>>, events: seq<Event<V>>, max: nat, from: nat, to: nat,
                                              key: Key, value: V, expiry: int, deadline: int, n: nat)
    requires IsRun(states, events, max) && from <= to <= |events| && LeftAlone(states, events, from, to, key, deadline)
    requires Holds(states[from].cache, key, value, expiry, deadline, n) && n + Writes(events, from, to) < max
    ensures Holds(states[to].cache, key, value, expiry, deadline, n + Writes(events, from, to))
  {
    if from < to {
      var m: nat := to - 1;
      StaysHeld(states, events, max, from, m, key, value, expiry, deadline, n);
      StepInRun(states, events, max, m, key, value, expiry, deadline, n + Writes(events, from, m));
    }
  }

  lemma SavedInRun<V(!new)>(states: seq<System<V>>, events: seq<Event<V>>, max: nat, i: nat,
                            key: Key, value: V, policy: Policy, at: int, n: nat)
    requires IsRun(states, events, max) && i < |events|
    requires Saves(states[i], events[i], key, value, policy, at) && 0 < policy.ttl + policy.staleIfError
    requires (key in states[i].cache.entries ==> NearNewest(states[i].cache, key, n)) && n < max
    ensures Holds(states[i + 1].cache, key, value, at + policy.ttl, at + policy.ttl + policy.staleIfError, n)
  {
    RunKeeps(states, events, max, i);
    SaveHolds(states[i], events[i], max, key, value, policy, at, n);
  }

  /** What an event is answered about a key that is held. */
  ghost predicate Serves<V>(s: System<V>, e: Event<V>, key: Key, value: V, expiry: int, deadline: int)
    requires Enabled(s, e)
  {
    && ((e.Read? || e.Peek?) && e.key == key ==>
          if e.now < expiry then AnswerTo(s, e) == Hit(value) else !AnswerTo(s, e).Hit?)
    && (e.LoadFail? && s.attempts[e.id].key == key && Undisturbed(s.cache.log, s.attempts[e.id].began, key) ==>
          AnswerTo(s, e) == Finished(if e.now < deadline then Value(value) else Error))
  }

  lemma HeldIsServed<V>(s: System<V>, e: Event<V>, max: nat, key: Key, value: V, expiry: int, deadline: int, n: nat)
    requires Inv(s, max) && Enabled(s, e) && Holds(s.cache, key, value, expiry, deadline, n)
    ensures Serves(s, e, key, value, expiry, deadline)
  {
    if e.LoadFail? && s.attempts[e.id].key == key && Undisturbed(s.cache.log, s.attempts[e.id].began, key) {
      OwnTokenPasses(s, e.id, max);
    }
  }

  /**
   So a value saved at `at` is what every later read or peek gives before `at + ttl`, and none from then on;
   and what an undisturbed failed load of its key falls back to before `at + ttl + staleIfError`.
   */
  lemma SavedIsServed<V(!new)>(states: seq<System<V>>, events: seq<Event<V>>, max: nat, i: nat, j: nat,
                               key: Key, value: V, policy: Policy, at: int, n: nat)
    requires IsRun(states, events, max) && i < j < |events|
    requires Saves(states[i], events[i], key, value, policy, at) && 0 < policy.ttl + policy.staleIfError
    requires key in states[i].cache.entries ==> NearNewest(states[i].cache, key, n)
    requires LeftAlone(states, events, i + 1, j, key, at + policy.ttl + policy.staleIfError)
    requires n + Writes(events, i + 1, j) < max
    ensures Serves(states[j], events[j], key, value, at + policy.ttl, at + policy.ttl + policy.staleIfError)
  {
    var expiry, deadline := at + policy.ttl, at + policy.ttl + policy.staleIfError;
    SavedInRun(states, events, max, i, key, value, policy, at, n);
    StaysHeld(states, events, max, i + 1, j, key, value, expiry, deadline, n);
    RunKeeps(states, events, max, j);
    HeldIsServed(states[j], events[j], max, key, value, expiry, deadline, n + Writes(events, i + 1, j));
  }

  /** Storing again does not make an entry newer: it keeps its place, and may be the first to go. */
  lemma StoredAgainKeepsItsPlace<V>(value: V, now: int)
    ensures var policy := Policy(10_000, 0);
            var two := Store(Store(Cache([], map[], map[], []), "a", value, policy, now, 2), "b", value, policy, now, 2);
            var again := Store(two, "a", value, policy, now, 2);
            "a" in again.entries && "a" !in Store(again, "c", value, policy, now, 2).entries
  {
    var policy := Policy(10_000, 0);
    var one := Store(Cache([], map[], map[], []), "a", value, policy, now, 2);
    assert one.order == ["a"];
    var two := Store(one, "b", value, policy, now, 2);
    assert two.order == ["a", "b"];
    var again := Store(two, "a", value, policy, now, 2);
    assert again.order == ["a", "b"];
    var put := Put(again, "c", EntryFor(value, policy, now));
    assert put.order == ["a", "b", "c"];
    assert Usable(put.order, 1, put.entries, now) == ["a"];
    assert Usable(put.order, 2, put.entries, now) == ["a", "b"];
    EvictedExactly(put, 0, now, 2);
  }
}
