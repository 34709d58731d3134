/**
 The in-process cache as the source keeps it: one insertion-ordered map of entries, one map of
 loads in flight, and the number of the last clear of every prefix. An asynchronous `read` is
 split at its awaits into `Read`, `Loaded` or `Failed`, and `Cleanup`; each part runs without
 interruption, reading the clock once.
 */
module ProcessCache {
  import opened Common
  import opened CacheState

  datatype ReadResult<V> = Hit(value: V) | Joined(attempt: nat) | Started(token: nat)

  /** Every cleared prefix is numbered by its last clear. */
  ghost predicate Numbered(generations: map<Key, nat>, log: seq<Key>) {
    && (forall p :: p in generations <==> p in log)
    && (forall p :: p in generations ==>
          && 1 <= generations[p] <= |log| && log[generations[p] - 1] == p
          && forall j :: generations[p] <= j < |log| ==> log[j] != p)
  }

  lemma LatestUnique(log: seq<Key>, key: Key, g: nat)
    requires g <= |log| && (g > 0 ==> Overlaps(log[g - 1], key))
    requires forall j :: g <= j < |log| ==> !Overlaps(log[j], key)
    ensures g == Generation(log, key)
  {
  }

  class MemoryCache<V> {
    const maxEntries: nat
    var order: seq<Key>
    var entries: map<Key, Entry<V>>
    var inFlight: map<Key, nat>
    var clearGeneration: nat
    var clearGenerations: map<Key, nat>
    ghost var log: seq<Key>

    ghost function State(): Cache<V>
      reads this
    {
      Cache(order, entries, inFlight, log)
    }

    ghost predicate Valid()
      reads this
    {
      State().Valid() && clearGeneration == |log| && Numbered(clearGenerations, log)
    }

    constructor (maxEntries: nat)
      ensures Valid() && this.maxEntries == maxEntries
      ensures State() == Cache([], map[], map[], [])
    {
      this.maxEntries := maxEntries;
      order, entries, inFlight := [], map[], map[];
      clearGeneration, clearGenerations, log := 0, map[], [];
    }

    method GenerationFor(key: Key) returns (latest: nat)
      requires Valid()
      ensures latest == Generation(log, key)
    {
      latest := if "" in clearGenerations then clearGenerations[""] else 0;
      var prefixes := clearGenerations.Keys;
      while prefixes != {}
        invariant prefixes <= clearGenerations.Keys
        invariant latest <= |log| && (latest > 0 ==> Overlaps(log[latest - 1], key))
        invariant "" in clearGenerations ==> clearGenerations[""] <= latest
        invariant forall p :: p in clearGenerations && p !in prefixes && Overlaps(p, key) ==> clearGenerations[p] <= latest
        decreases prefixes
      {
        var prefix :| prefix in prefixes;
        prefixes := prefixes - {prefix};
        var clearedAt := clearGenerations[prefix];
        if prefix != "" && (prefix <= key || key <= prefix) && clearedAt > latest {
          latest := clearedAt;
        }
      }
      forall j | latest <= j < |log| ensures !Overlaps(log[j], key) {
        assert log[j] in clearGenerations;
      }
      LatestUnique(log, key, latest);
    }

    method Evict(now: int)
      requires Valid()
      modifies `order, `entries
      ensures Valid() && State() == Evicted(old(State()), now, maxEntries)
    {
      if |order| <= maxEntries {
        return;
      }
      DropUnusable(now);
      DropOldest();
      KeepTwice(old(State()), Usable(old(order), |old(order)|, old(entries), now), order);
    }

    /** Delete the `i`-th oldest entry. */
    method Delete(i: nat)
      requires State().Valid() && i < |order|
      modifies `order, `entries
      ensures State().Valid()
      ensures order == old(order)[..i] + old(order)[i + 1..] && entries == old(entries) - {old(order)[i]}
    {
      var key := order[i];
      WithoutOne(order, i);
      entries := entries - {key};
      order := order[..i] + order[i + 1..];
    }

    /** Pass over the first of the entries still to be visited, deleting it or leaving it in place. */
    method Visit(delete: bool, i: nat, ghost before: seq<Key>, ghost rest: seq<Key>)
      requires State().Valid() && rest != [] && order == before + rest && i == |before|
      modifies `order, `entries
      ensures State().Valid() && Within(entries, old(entries))
      ensures order == (if delete then before else before + [rest[0]]) + rest[1..]
    {
      if delete {
        Delete(i);
        assert order == before + rest[1..];
      } else {
        assert order == before + [rest[0]] + rest[1..];
      }
    }

    /** Pass over the next key of the insertion order as it was when the pass began. */
    method VisitKey(keys: seq<Key>, k: nat, ghost held: map<Key, Entry<V>>, now: int)
      requires State().Valid() && Within(entries, held) && k < |keys|
      requires order == Usable(keys, k, held, now) + keys[k..]
      modifies `order, `entries
      ensures State().Valid() && Within(entries, held)
      ensures order == Usable(keys, k + 1, held, now) + keys[k + 1..]
    {
      var i := |order| - (|keys| - k);
      ghost var before := Usable(keys, k, held, now);
      var key := order[i];
      assert key == keys[k] && key in entries && entries[key] == held[key];
      var delete := entries[key].usableUntil <= now;
      assert Usable(keys, k + 1, held, now) == if delete then before else before + [key];
      Visit(delete, i, before, keys[k..]);
    }

    /** Entries nobody could use even as a fallback go first. */
    method DropUnusable(now: int)
      requires State().Valid()
      modifies `order, `entries
      ensures State().Valid()
      ensures State() == Keep(old(State()), Usable(old(order), |old(order)|, old(entries), now))
    {
      var keys := order;
      ghost var held := entries;
      for k := 0 to |keys|
        invariant order == Usable(keys, k, held, now) + keys[k..]
        invariant State().Valid() && Within(entries, held)
      {
        VisitKey(keys, k, held, now);
      }
      KeptEntries(old(State()), order, entries);
    }

    /** While still over the bound, the oldest inserted goes. */
    method DropOldest()
      requires State().Valid()
      modifies `order, `entries
      ensures State().Valid()
      ensures State() == Keep(old(State()), Newest(old(order), maxEntries))
    {
      ghost var from := 0;
      while |order| > maxEntries
        invariant from <= |old(order)| && order == old(order)[from..]
        invariant from > 0 ==> |order| >= maxEntries
        invariant State().Valid() && Within(entries, old(entries))
      {
        Delete(0);
        from := from + 1;
      }
      KeptEntries(old(State()), order, entries);
    }

    /** Insert or replace an entry, then bring the size within the bound. */
    method Enter(key: Key, value: V, policy: Policy, now: int)
      requires Valid()
      modifies `order, `entries
      ensures Valid() && State() == Store(old(State()), key, value, policy, now, maxEntries)
    {
      if key !in entries {
        order := order + [key];
      }
      entries := entries[key := Entry(value, now + policy.ttl, now + policy.ttl + policy.staleIfError)];
      assert State() == Put(old(State()), key, EntryFor(value, policy, now));
      PutKeepsValid(old(State()), key, EntryFor(value, policy, now));
      Evict(now);
    }

    // ----- read, part by part -----

    /** The synchronous part of a read; `attempt` is the identity of the promise it may install. */
    method Read(key: Key, now: int, attempt: nat) returns (result: ReadResult<V>)
      requires Valid()
      modifies `inFlight
      ensures Valid()
      ensures if Live(old(State()), key, now) then result == Hit(entries[key].value) && State() == old(State())
              else if key in old(inFlight) then result == Joined(old(inFlight)[key]) && State() == old(State())
              else result == Started(Generation(log, key))
                   && State() == old(State()).(inFlight := old(inFlight)[key := attempt])
    {
      if key in entries && entries[key].expiresAt > now {
        return Hit(entries[key].value);
      }
      if key in inFlight {
        return Joined(inFlight[key]);
      }
      var token := GenerationFor(key);
      inFlight := inFlight[key := attempt];
      result := Started(token);
    }

    /** The loader answered: store the value unless a clear came in between. */
    method Loaded(key: Key, token: nat, value: V, policy: Policy, now: int)
      requires Valid()
      modifies `order, `entries
      ensures Valid()
      ensures State() == if token == Generation(log, key) then Store(old(State()), key, value, policy, now, maxEntries)
                         else old(State())
    {
      var current := GenerationFor(key);
      if token == current {
        Enter(key, value, policy, now);
      }
    }

    /** The loader failed: serve what is stored, if it is still good enough and not from before a clear. */
    method Failed(key: Key, token: nat, now: int) returns (fallback: Option<V>)
      requires Valid()
      ensures if MayFallBack(State(), key, token, now) then fallback == Some(entries[key].value) else fallback.None?
    {
      var current := GenerationFor(key);
      if token == current && key in entries && entries[key].usableUntil > now {
        return Some(entries[key].value);
      }
      return None;
    }

    /** An attempt takes itself out of flight, and nothing else. */
    method Cleanup(key: Key, attempt: nat)
      requires Valid()
      modifies `inFlight
      ensures Valid()
      ensures State() == old(State()).(
                           inFlight := if key in old(inFlight) && old(inFlight)[key] == attempt then old(inFlight) - {key}
                                       else old(inFlight))
    {
      if key in inFlight && inFlight[key] == attempt {
        inFlight := inFlight - {key};
      }
    }

    // ----- the other operations -----

    method Peek(key: Key, now: int) returns (hit: Option<V>)
      ensures hit == if Live(State(), key, now) then Some(entries[key].value) else None
    {
      hit := if key in entries && entries[key].expiresAt > now then Some(entries[key].value) else None;
    }

    method Set(key: Key, value: V, ttl: int, now: int)
      requires Valid()
      modifies `order, `entries
      ensures Valid() && State() == Store(old(State()), key, value, Policy(ttl, 0), now, maxEntries)
    {
      Enter(key, value, Policy(ttl, 0), now);
    }

    method SetIfGeneration(key: Key, value: V, ttl: int, generation: nat, now: int)
      requires Valid()
      modifies `order, `entries
      ensures Valid()
      ensures State() == if generation == Generation(log, key)
                         then Store(old(State()), key, value, Policy(ttl, 0), now, maxEntries) else old(State())
    {
      var current := GenerationFor(key);
      if generation == current {
        Enter(key, value, Policy(ttl, 0), now);
      }
    }

    method SizeForPrefix(prefix: Key) returns (count: nat)
      requires Valid()
      ensures count == |set k | k in entries && prefix <= k|
    {
      count := 0;
      for k := 0 to |order|
        invariant count == |Under(order, k, prefix)|
      {
        OneMoreUnder(order, k, prefix);
        if prefix <= order[k] {
          count := count + 1;
        }
      }
      assert order[..|order|] == order;
      assert Under(order, |order|, prefix) == set k | k in entries && prefix <= k;
    }

    method Clear(prefix: Key)
      requires Valid()
      modifies this
      ensures Valid() && State() == Cleared(old(State()), prefix)
    {
      clearGeneration := clearGeneration + 1;
      DropEntries(prefix);
      DropInFlight(prefix);
      clearGenerations := clearGenerations[prefix := clearGeneration];
      log := log + [prefix];
      ClearedFacts(old(State()), prefix);
    }

    method DropEntries(prefix: Key)
      requires State().Valid()
      modifies `order, `entries
      ensures State() == Keep(old(State()), Outside(old(order), |old(order)|, prefix))
    {
      var keys := order;
      for k := 0 to |keys|
        invariant order == Outside(keys, k, prefix) + keys[k..]
        invariant State().Valid() && Within(entries, old(entries))
      {
        Visit(prefix <= keys[k], |order| - (|keys| - k), Outside(keys, k, prefix), keys[k..]);
      }
      KeptEntries(old(State()), order, entries);
    }

    method DropInFlight(prefix: Key)
      modifies `inFlight
      ensures inFlight == map k | k in old(inFlight) && !(prefix <= k) :: old(inFlight)[k]
    {
      var keys := inFlight.Keys;
      while keys != {}
        invariant keys <= inFlight.Keys <= old(inFlight).Keys
        invariant forall k :: k in old(inFlight) && (k in keys || !(prefix <= k)) ==> k in inFlight
        invariant forall k :: k in inFlight ==> inFlight[k] == old(inFlight)[k] && (k in keys || !(prefix <= k))
        decreases keys
      {
        var key :| key in keys;
        keys := keys - {key};
        if prefix <= key {
          inFlight := inFlight - {key};
        }
      }
    }
  }

  /** Those of the first `n` keys under the prefix. */
  ghost function Under(order: seq<Key>, n: nat, prefix: Key): set<Key>
    requires n <= |order|
  {
    set k | k in order[..n] && prefix <= k
  }

  lemma OneMoreUnder(order: seq<Key>, n: nat, prefix: Key)
    requires Distinct(order) && n < |order|
    ensures |Under(order, n + 1, prefix)| == |Under(order, n, prefix)| + if prefix <= order[n] then 1 else 0
  {
    assert order[n] !in order[..n];
    assert order[..n + 1] == order[..n] + [order[n]];
    assert Under(order, n + 1, prefix) == Under(order, n, prefix) + if prefix <= order[n] then {order[n]} else {};
  }

  /** Taking one key out of a duplicate-free list leaves exactly the others. */
  lemma WithoutOne(keys: seq<Key>, i: nat)
    requires Distinct(keys) && i < |keys|
    ensures Distinct(keys[..i] + keys[i + 1..])
    ensures forall k :: k in keys[..i] + keys[i + 1..] <==> k in keys && k != keys[i]
  {
    var rest := keys[..i] + keys[i + 1..];
    forall k | k in keys && k != keys[i] ensures k in rest {
      var j :| 0 <= j < |keys| && keys[j] == k;
      assert rest[if j < i then j else j - 1] == k;
    }
  }

  lemma KeptEntries<V>(before: Cache<V>, order: seq<Key>, entries: map<Key, Entry<V>>)
    requires Within(entries, before.entries) && forall k :: k in order <==> k in entries
    ensures Keep(before, order) == before.(order := order, entries := entries)
  {
  }

  lemma KeepTwice<V>(c: Cache<V>, keys: seq<Key>, fewer: seq<Key>)
    requires forall k :: k in fewer ==> k in keys
    ensures Keep(Keep(c, keys), fewer) == Keep(c, fewer)
  {
  }
}
