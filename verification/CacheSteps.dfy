/**
 The cache of ProcessCache.dfy made to perform the events of CacheRuns.dfy: every run of the step
 machine is what the maps and counters do, answer by answer.
 */
module CacheSteps {
  import opened Common
  import opened CacheState
  import opened CacheRuns
  import ProcessCache

  /** The cache holds what the machine's state says, and the caller the attempts and tokens given out. */
  ghost predicate Matches<V>(cache: ProcessCache.MemoryCache<V>, s: System<V>, attempts: seq<Attempt<V>>, tokens: seq<Token>)
    reads cache
  {
    cache.Valid() && cache.State() == s.cache && attempts == s.attempts && tokens == s.tokens
  }

  /** A read, up to where its caller has a value or an attempt to wait for. */
  method PerformRead<V>(cache: ProcessCache.MemoryCache<V>, ghost s: System<V>, attempts: seq<Attempt<V>>, tokens: seq<Token>,
                        key: Key, policy: Policy, now: int)
    returns (answer: Answer<V>, attempts': seq<Attempt<V>>)
    requires Matches(cache, s, attempts, tokens)
    modifies cache
    ensures answer == AnswerTo(s, Read(key, policy, now))
    ensures Matches(cache, Step(s, Read(key, policy, now), cache.maxEntries), attempts', tokens)
  {
    attempts' := attempts;
    var began := cache.clearGeneration;
    var result := cache.Read(key, now, |attempts|);
    match result
    case Hit(value) => answer := Hit(value);
    case Joined(id) => answer := Joined(id);
    case Started(token) =>
      answer := Started(|attempts|);
      attempts' := attempts + [Attempt(key, token, began, policy, Loading)];
  }

  /** What follows when a load answers or fails, and when its attempt takes itself out of flight. */
  method PerformSettling<V>(cache: ProcessCache.MemoryCache<V>, ghost s: System<V>, attempts: seq<Attempt<V>>, tokens: seq<Token>,
                            e: Event<V>)
    returns (answer: Answer<V>, attempts': seq<Attempt<V>>)
    requires Matches(cache, s, attempts, tokens) && (e.LoadOk? || e.LoadFail? || e.Cleanup?) && Enabled(s, e)
    modifies cache
    ensures answer == AnswerTo(s, e)
    ensures Matches(cache, Step(s, e, cache.maxEntries), attempts', tokens)
  {
    var attempt := attempts[e.id];
    if e.LoadOk? {
      cache.Loaded(attempt.key, attempt.token, e.value, attempt.policy, e.now);
      answer := Finished(Value(e.value));
      attempts' := attempts[e.id := attempt.(phase := Settled(Value(e.value)))];
    } else if e.LoadFail? {
      var fallback := cache.Failed(attempt.key, attempt.token, e.now);
      var outcome := if fallback.Some? then Value(fallback.value) else Error;
      answer := Finished(outcome);
      attempts' := attempts[e.id := attempt.(phase := Settled(outcome))];
    } else {
      cache.Cleanup(attempt.key, e.id);
      answer := Nothing;
      attempts' := attempts[e.id := attempt.(phase := Gone(attempt.phase.outcome))];
    }
  }

  /** The operations that do not wait. */
  method PerformCall<V>(cache: ProcessCache.MemoryCache<V>, ghost s: System<V>, attempts: seq<Attempt<V>>, tokens: seq<Token>,
                        e: Event<V>)
    returns (answer: Answer<V>, tokens': seq<Token>)
    requires Matches(cache, s, attempts, tokens) && Enabled(s, e)
    requires e.Peek? || e.Set? || e.Take? || e.SetIf? || e.Clear?
    modifies cache
    ensures answer == AnswerTo(s, e)
    ensures Matches(cache, Step(s, e, cache.maxEntries), attempts, tokens')
  {
    answer, tokens' := Nothing, tokens;
    match e
    case Peek(key, now) =>
      var hit := cache.Peek(key, now);
      answer := if hit.Some? then Hit(hit.value) else Nothing;
    case Set(key, value, ttl, now) => cache.Set(key, value, ttl, now);
    case Take(under) =>
      var generation := cache.GenerationFor(under);
      tokens' := tokens + [Token(generation, cache.clearGeneration)];
    case SetIf(key, value, ttl, token, now) => cache.SetIfGeneration(key, value, ttl, tokens[token].value, now);
    case Clear(prefix) => cache.Clear(prefix);
  }

  /** One event: the class does what the machine's step says. */
  method Perform<V>(cache: ProcessCache.MemoryCache<V>, ghost s: System<V>, attempts: seq<Attempt<V>>, tokens: seq<Token>, e: Event<V>)
    returns (answer: Answer<V>, attempts': seq<Attempt<V>>, tokens': seq<Token>)
    requires Matches(cache, s, attempts, tokens) && Enabled(s, e)
    modifies cache
    ensures answer == AnswerTo(s, e)
    ensures Matches(cache, Step(s, e, cache.maxEntries), attempts', tokens')
  {
    attempts', tokens' := attempts, tokens;
    if e.Read? {
      answer, attempts' := PerformRead(cache, s, attempts, tokens, e.key, e.policy, e.now);
    } else if e.LoadOk? || e.LoadFail? || e.Cleanup? {
      answer, attempts' := PerformSettling(cache, s, attempts, tokens, e);
    } else {
      answer, tokens' := PerformCall(cache, s, attempts, tokens, e);
    }
  }

  /** A whole run, from an empty cache: every answer and the last state are the machine's. */
  method PerformAll<V(!new)>(events: seq<Event<V>>, max: nat, ghost states: seq<System<V>>)
    returns (cache: ProcessCache.MemoryCache<V>, answers: seq<Answer<V>>)
    requires IsRun(states, events, max)
    ensures |answers| == |events| && forall k :: 0 <= k < |events| ==> answers[k] == AnswerTo(states[k], events[k])
    ensures fresh(cache) && cache.Valid() && cache.State() == states[|events|].cache
  {
    cache := new ProcessCache.MemoryCache(max);
    var attempts: seq<Attempt<V>>, tokens: seq<Token> := [], [];
    answers := [];
    for k := 0 to |events|
      invariant fresh(cache) && cache.maxEntries == max && Matches(cache, states[k], attempts, tokens)
      invariant |answers| == k && forall j :: 0 <= j < k ==> answers[j] == AnswerTo(states[j], events[j])
    {
      var answer;
      answer, attempts, tokens := Perform(cache, states[k], attempts, tokens, events[k]);
      answers := answers + [answer];
    }
  }
}
