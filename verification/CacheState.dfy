/**
 The process cache as values: entries in insertion order, loads in flight, and the clears so far.

 The source keeps, for every prefix ever cleared, the number of its last clear. Here the clears
 are a log of prefixes; the class in ProcessCache.dfy keeps the numbers and is proved equal to it.
 */
module CacheState {
  import opened Common

  type Key = string

  /** A policy given as a plain number is `Policy(ttl, 0)`. */
  datatype Policy = Policy(ttl: int, staleIfError: int)

  datatype Entry<V> = Entry(value: V, expiresAt: int, usableUntil: int)

  // ----- generations -----

  predicate Overlaps(prefix: Key, key: Key) {
    prefix <= key || key <= prefix
  }

  /** The number of the last of the first `n` clears that overlaps `key`, or 0 when none does. */
  function Latest(log: seq<Key>, n: nat, key: Key): (g: nat)
    requires n <= |log|
    ensures g <= n
    ensures g > 0 ==> Overlaps(log[g - 1], key)
    ensures forall j :: g <= j < n ==> !Overlaps(log[j], key)
  {
    if n == 0 then 0 else if Overlaps(log[n - 1], key) then n else Latest(log, n - 1, key)
  }

  function Generation(log: seq<Key>, key: Key): nat {
    Latest(log, |log|, key)
  }

  // ----- the state and its operations -----

  datatype Cache<V> = Cache(order: seq<Key>, entries: map<Key, Entry<V>>, inFlight: map<Key, nat>, log: seq<Key>)
  {
    /** The insertion order lists every entry once. */
    ghost predicate Valid() {
      Distinct(order) && forall k :: k in order <==> k in entries
    }
  }

  function Put<V>(c: Cache<V>, key: Key, entry: Entry<V>): Cache<V> {
    c.(entries := c.entries[key := entry], order := if key in c.entries then c.order else c.order + [key])
  }

  /** The first `n` keys that are still good enough for a fallback, oldest first. */
  function Usable<V>(order: seq<Key>, n: nat, entries: map<Key, Entry<V>>, now: int): seq<Key>
    requires n <= |order|
  {
    if n == 0 then []
    else
      var key, rest := order[n - 1], Usable(order, n - 1, entries, now);
      if key in entries && entries[key].usableUntil > now then rest + [key] else rest
  }

  /** The newest `max` of some keys, or all of them when there are not that many. */
  function Newest(keys: seq<Key>, max: nat): seq<Key> {
    if |keys| <= max then keys else keys[|keys| - max..]
  }

  function Keep<V>(c: Cache<V>, keys: seq<Key>): Cache<V> {
    c.(order := keys, entries := map k | k in keys && k in c.entries :: c.entries[k])
  }

  function Evicted<V>(c: Cache<V>, now: int, max: nat): Cache<V> {
    if |c.order| <= max then c
    else Keep(c, Newest(Usable(c.order, |c.order|, c.entries, now), max))
  }

  function Store<V>(c: Cache<V>, key: Key, value: V, policy: Policy, now: int, max: nat): Cache<V> {
    Evicted(Put(c, key, EntryFor(value, policy, now)), now, max)
  }

  /** The first `n` keys outside the prefix. */
  function Outside(order: seq<Key>, n: nat, prefix: Key): seq<Key>
    requires n <= |order|
  {
    if n == 0 then []
    else
      var key, rest := order[n - 1], Outside(order, n - 1, prefix);
      if prefix <= key then rest else rest + [key]
  }

  /** Clearing everything is clearing the empty prefix, which every key starts with. */
  function Cleared<V>(c: Cache<V>, prefix: Key): Cache<V> {
    Keep(c, Outside(c.order, |c.order|, prefix)).(
      inFlight := map k | k in c.inFlight && !(prefix <= k) :: c.inFlight[k],
      log := c.log + [prefix])
  }

  predicate Live<V>(c: Cache<V>, key: Key, now: int) {
    key in c.entries && c.entries[key].expiresAt > now
  }

  /** Whether a failed load whose token is still current may serve what is stored. */
  predicate MayFallBack<V>(c: Cache<V>, key: Key, token: nat, now: int) {
    token == Generation(c.log, key) && key in c.entries && c.entries[key].usableUntil > now
  }

  // ----- what the operations keep -----

  lemma {:induction false} UsableFacts<V>(order: seq<Key>, n: nat, entries: map<Key, Entry<V>>, now: int)
    requires n <= |order| && Distinct(order)
    ensures Distinct(Usable(order, n, entries, now)) && |Usable(order, n, entries, now)| <= n
    ensures forall k :: k in Usable(order, n, entries, now) <==>
              k in order[..n] && k in entries && entries[k].usableUntil > now
  {
    if n > 0 {
      UsableFacts(order, n - 1, entries, now);
      assert order[..n] == order[..n - 1] + [order[n - 1]];
      assert order[n - 1] !in order[..n - 1];
    }
  }

  lemma {:induction false} OutsideFacts(order: seq<Key>, n: nat, prefix: Key)
    requires n <= |order| && Distinct(order)
    ensures Distinct(Outside(order, n, prefix)) && |Outside(order, n, prefix)| <= n
    ensures forall k :: k in Outside(order, n, prefix) <==> k in order[..n] && !(prefix <= k)
  {
    if n > 0 {
      OutsideFacts(order, n - 1, prefix);
      assert order[..n] == order[..n - 1] + [order[n - 1]];
      assert order[n - 1] !in order[..n - 1];
    }
  }

  lemma PutKeepsValid<V>(c: Cache<V>, key: Key, entry: Entry<V>)
    requires c.Valid()
    ensures Put(c, key, entry).Valid()
  {
  }

  /** A kept selection of the insertion order is a valid cache holding the same values. */
  lemma KeepKeepsValid<V>(c: Cache<V>, keys: seq<Key>)
    requires c.Valid() && Distinct(keys) && forall k :: k in keys ==> k in c.order
    ensures Keep(c, keys).Valid()
    ensures forall k :: k in Keep(c, keys).entries <==> k in keys
    ensures forall k :: k in keys ==> Keep(c, keys).entries[k] == c.entries[k]
  {
  }

  /** Every entry of `after` is an entry of `before`, with the same value and deadlines. */
  ghost predicate Within<V>(after: map<Key, Entry<V>>, before: map<Key, Entry<V>>) {
    forall k :: k in after ==> k in before && after[k] == before[k]
  }

  lemma NewestFacts(keys: seq<Key>, max: nat)
    requires Distinct(keys)
    ensures var newest := Newest(keys, max);
            && Distinct(newest) && |newest| <= max && |newest| <= |keys|
            && newest == keys[|keys| - |newest|..]
            && (forall k :: k in newest ==> k in keys)
            && (|keys| <= max ==> newest == keys)
            && (|keys| > max ==> |newest| == max)
  {
  }

  /**
   Eviction brings the size within the bound, keeps the newest usable entries in insertion order,
   and gives up a usable entry only when the usable ones alone exceed the bound.
   */
  lemma EvictionKeepsTheNewestUsable<V>(c: Cache<V>, now: int, max: nat)
    requires c.Valid()
    ensures var after, usable := Evicted(c, now, max), Usable(c.order, |c.order|, c.entries, now);
            && after.Valid() && |after.order| <= max && Within(after.entries, c.entries)
            && (after == c || (|after.order| <= |usable| && after.order == usable[|usable| - |after.order|..]))
            && (forall k :: k in usable && k !in after.entries ==> |usable| > max == |after.order|)
  {
    var usable := Usable(c.order, |c.order|, c.entries, now);
    UsableFacts(c.order, |c.order|, c.entries, now);
    assert c.order[..|c.order|] == c.order;
    if |c.order| > max {
      NewestFacts(usable, max);
      KeepKeepsValid(c, Newest(usable, max));
    }
  }

  function EntryFor<V>(value: V, policy: Policy, now: int): Entry<V> {
    Entry(value, now + policy.ttl, now + policy.ttl + policy.staleIfError)
  }

  /** A store writes its own entry with its own deadlines, and touches no other entry's. */
  lemma StoreFacts<V>(c: Cache<V>, key: Key, value: V, policy: Policy, now: int, max: nat)
    requires c.Valid()
    ensures var after := Store(c, key, value, policy, now, max);
            && after.Valid() && |after.order| <= max
            && after.log == c.log && after.inFlight == c.inFlight
            && Within(after.entries, c.entries[key := EntryFor(value, policy, now)])
  {
    var put := Put(c, key, EntryFor(value, policy, now));
    PutKeepsValid(c, key, EntryFor(value, policy, now));
    EvictionKeepsTheNewestUsable(put, now, max);
  }

  lemma ClearedFacts<V>(c: Cache<V>, prefix: Key)
    requires c.Valid()
    ensures var after := Cleared(c, prefix);
            && after.Valid() && |after.order| <= |c.order|
            && after.log == c.log + [prefix]
            && (forall k :: k in after.entries <==> k in c.entries && !(prefix <= k))
            && (forall k :: k in after.entries ==> after.entries[k] == c.entries[k])
            && (forall k :: k in after.inFlight <==> k in c.inFlight && !(prefix <= k))
            && (forall k :: k in after.inFlight ==> after.inFlight[k] == c.inFlight[k])
  {
    var rest := Outside(c.order, |c.order|, prefix);
    OutsideFacts(c.order, |c.order|, prefix);
    assert c.order[..|c.order|] == c.order;
    KeepKeepsValid(c, rest);
  }

  // ----- the generation fence -----

  /**
   A token taken under any key at all, when only `taken` clears had happened, passes for `key` only
   if no later clear overlapped `key`.
   */
  lemma FenceHolds(log: seq<Key>, taken: nat, under: Key, key: Key)
    requires taken <= |log|
    requires Latest(log, taken, under) == Generation(log, key)
    ensures forall j :: taken <= j < |log| ==> !Overlaps(log[j], key)
  {
  }

  lemma {:induction false} LatestSettles(log: seq<Key>, m: nat, n: nat, key: Key)
    requires m <= n <= |log|
    requires forall j :: m <= j < n ==> !Overlaps(log[j], key)
    ensures Latest(log, m, key) == Latest(log, n, key)
  {
    if m < n {
      LatestSettles(log, m, n - 1, key);
    }
  }

  /**
   A token taken under any key passes for `key` exactly when that key's own token would have had the
   same value, and no later clear overlapped `key`.
   */
  lemma TokenIsExact(log: seq<Key>, taken: nat, under: Key, key: Key)
    requires taken <= |log|
    ensures Latest(log, taken, under) == Generation(log, key) <==>
            && Latest(log, taken, under) == Latest(log, taken, key)
            && forall j :: taken <= j < |log| ==> !Overlaps(log[j], key)
  {
    if forall j :: taken <= j < |log| ==> !Overlaps(log[j], key) {
      LatestSettles(log, taken, |log|, key);
    }
  }

  /** A token taken under the same key passes exactly when no later clear overlapped that key. */
  lemma FenceIsExact(log: seq<Key>, taken: nat, key: Key)
    requires taken <= |log|
    ensures Latest(log, taken, key) == Generation(log, key) <==>
            forall j :: taken <= j < |log| ==> !Overlaps(log[j], key)
  {
    TokenIsExact(log, taken, key, key);
  }

  lemma OverlapsShorter(prefix: Key, under: Key, key: Key)
    requires under <= key && Overlaps(prefix, key)
    ensures Overlaps(prefix, under)
  {
    if prefix <= key && |prefix| <= |under| {
      assert prefix == key[..|prefix|] == under[..|prefix|];
    }
  }

  /**
   A token taken under a prefix of `key` passes exactly when the last clear it saw overlapped `key`
   too, and none after it did.
   */
  lemma PrefixTokenIsExact(log: seq<Key>, taken: nat, under: Key, key: Key)
    requires taken <= |log| && under <= key
    ensures var g := Latest(log, taken, under);
            g == Generation(log, key) <==>
              && (g > 0 ==> Overlaps(log[g - 1], key))
              && forall j :: taken <= j < |log| ==> !Overlaps(log[j], key)
  {
    TokenIsExact(log, taken, under, key);
    if Latest(log, taken, key) > 0 {
      OverlapsShorter(log[Latest(log, taken, key) - 1], under, key);
    }
  }

  /** Clearing one epoch's parameters makes a token taken for all epochs useless for the other epochs. */
  lemma PrefixTokenIsConservative()
    ensures var log, under, key := ["chain:protocol-params:5"], "chain:protocol-params:", "chain:protocol-params:6";
            && !Overlaps(log[0], key)
            && Latest(log, 1, key) == Generation(log, key)
            && Latest(log, 1, under) != Generation(log, key)
  {
    var log, key := ["chain:protocol-params:5"], "chain:protocol-params:6";
    assert log[0][22] == '5' && key[22] == '6';
    PrefixTokenIsExact(log, 1, "chain:protocol-params:", key);
  }

  /**
   A scoped view takes its token under the empty key, which every clear overlaps. Such a token
   passes for `key` exactly when the last clear before it overlapped `key` and none after it did.
   */
  lemma ScopedTokenIsExact(log: seq<Key>, taken: nat, key: Key)
    requires taken <= |log|
    ensures Latest(log, taken, "") == taken
    ensures Latest(log, taken, "") == Generation(log, key) <==>
            && (taken > 0 ==> Overlaps(log[taken - 1], key))
            && forall j :: taken <= j < |log| ==> !Overlaps(log[j], key)
  {
    PrefixTokenIsExact(log, taken, "", key);
  }

  /** So one unrelated clear makes every later write through a scoped view be refused. */
  lemma ScopedTokenIsConservative()
    ensures exists log: seq<Key>, key: Key ::
              && |log| > 0 && !Overlaps(log[|log| - 1], key)
              && Latest(log, |log|, key) == Generation(log, key)
              && Latest(log, |log|, "") != Generation(log, key)
  {
    var log, key := ["price:"], "provider:";
    assert log[0][1] == 'r' && key[1] == 'r' && log[0][2] == 'i' && key[2] == 'o';
    assert !Overlaps(log[|log| - 1], key);
    assert Generation(log, key) == 0 && Latest(log, |log|, "") == 1;
  }
}
