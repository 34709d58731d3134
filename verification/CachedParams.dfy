/**
 The caching provider's protocol parameters: keyed on the epoch of a cached tip, with one shared
 recovery for the readers whose tip and parameters disagree. A step machine on top of CacheRuns.dfy,
 one step for every point where the source waits.
 */
module CachedParams {
  import opened Common
  import opened CacheState
  import opened CacheRuns

  const TIP_TTL: int := 10_000
  const PROTOCOL_PARAMS_TTL: int := 6 * 24 * 60 * 60 * 1000

  /** What the two upstream reads answer: an epoch, and the rest of the answer as a serial number. */
  datatype Chain = Tip(epoch: nat, serial: nat) | Params(epoch: nat, serial: nat)

  /** The decorator sees the process cache itself, or the view scoped to a provider and network. */
  datatype View = Direct | Scoped(prefix: string)

  // ----- keys -----

  function Digit(d: nat): char
    requires d < 10
  {
    '0' + d as char
  }

  function Digits(n: nat): (digits: string)
    ensures digits != []
  {
    if n < 10 then [Digit(n)] else Digits(n / 10) + [Digit(n % 10)]
  }

  function Reading(digits: string): int {
    if digits == [] then 0
    else 10 * Reading(digits[..|digits| - 1]) + digits[|digits| - 1] as int - '0' as int
  }

  lemma {:induction false} DigitsReadBack(n: nat)
    ensures Reading(Digits(n)) == n
  {
    if n < 10 {
      assert Digits(n)[..0] == [];
    } else {
      DigitsReadBack(n / 10);
      var digits := Digits(n);
      assert digits[..|digits| - 1] == Digits(n / 10);
    }
  }

  function Under(view: View, key: Key): Key {
    if view.Direct? then key else view.prefix + key
  }

  /** A scoped view drops the key it is asked a generation for. */
  function TokenKey(view: View, key: Key): Key {
    if view.Direct? then key else ""
  }

  function TipKey(view: View): Key {
    Under(view, "chain:tip")
  }

  function ParamsPrefix(view: View): Key {
    Under(view, "chain:protocol-params:")
  }

  function ParamsKey(view: View, epoch: nat): Key {
    ParamsPrefix(view) + Digits(epoch)
  }

  /** How the keys are spelled, in the process cache and in a view scoped to a provider and network. */
  lemma KeysAreSpelled(prefix: string)
    ensures TipKey(Direct) == "chain:tip" && TokenKey(Direct, "chain:tip") == "chain:tip"
    ensures TipKey(Scoped(prefix)) == prefix + "chain:tip" && TokenKey(Scoped(prefix), "chain:tip") == ""
    ensures ParamsKey(Direct, 507) == "chain:protocol-params:507"
    ensures ParamsKey(Scoped(prefix), 507) == prefix + "chain:protocol-params:507"
  {
    assert Digits(5) == "5" && Digits(50) == "50" && Digits(507) == "507";
    assert prefix + "chain:protocol-params:" + "507" == prefix + "chain:protocol-params:507";
  }

  /** No two epochs share a key, and none has the tip's. */
  lemma KeysAreApart(view: View, epoch: nat, other: nat)
    ensures ParamsKey(view, epoch) == ParamsKey(view, other) ==> epoch == other
    ensures !(ParamsPrefix(view) <= TipKey(view))
  {
    var n := |ParamsPrefix(view)|;
    assert ParamsKey(view, epoch)[n..] == Digits(epoch) && ParamsKey(view, other)[n..] == Digits(other);
    DigitsReadBack(epoch);
    DigitsReadBack(other);
    assert |TipKey(view)| < n;
  }

  predicate Own(view: View, key: Key) {
    key == TipKey(view) || ParamsPrefix(view) <= key
  }

  /** What may be stored under a key: the tip's key holds a tip, an epoch's key that epoch's parameters. */
  ghost predicate Good(view: View, key: Key, value: Chain) {
    && (key == TipKey(view) ==> value.Tip?)
    && forall epoch: nat :: key == ParamsKey(view, epoch) ==> value.Params? && value.epoch == epoch
  }

  lemma GoodParams(view: View, epoch: nat, params: Chain)
    requires params.Params? && params.epoch == epoch
    ensures Good(view, ParamsKey(view, epoch), params)
  {
    forall other: nat | ParamsKey(view, epoch) == ParamsKey(view, other) ensures params.epoch == other {
      KeysAreApart(view, epoch, other);
    }
    KeysAreApart(view, epoch, epoch);
    assert ParamsPrefix(view) <= ParamsKey(view, epoch);
  }

  lemma GoodTip(view: View, tip: Chain)
    requires tip.Tip?
    ensures Good(view, TipKey(view), tip)
  {
    KeysAreApart(view, 0, 0);
    assert forall epoch: nat :: ParamsPrefix(view) <= ParamsKey(view, epoch);
  }

  lemma GoodElsewhere(view: View, key: Key, value: Chain)
    requires !Own(view, key)
    ensures Good(view, key, value)
  {
    assert forall epoch: nat :: ParamsPrefix(view) <= ParamsKey(view, epoch);
  }

  // ----- the decorator's state -----

  /** One call of `getProtocolParams`, with the tip it obtained. */
  datatype Caller =
    | AwaitTip(id: nat)
    | HasTip(tip: Chain)
    | AwaitParams(tip: Chain, id: nat)
    | AwaitRecovery(tip: Chain, r: nat)
    | Returned(tip: Chain, params: Chain, via: Option<nat>)
    | Threw

  datatype Progress = FetchTip | FetchParams(tip: Chain) | Recovered(tip: Chain, params: Chain) | Lost

  /** A shared recovery with the two tokens it captured before fetching anything. */
  datatype Recovery = Recovery(tipToken: nat, paramsToken: nat, progress: Progress)
  {
    predicate Running() {
      progress.FetchTip? || progress.FetchParams?
    }
  }

  /** `mismatched` are the loads that failed because the parameters were another epoch's. */
  datatype State = State(sys: System<Chain>, mismatched: set<nat>, callers: seq<Caller>,
                         recoveries: seq<Recovery>, current: Option<nat>)

  /** An upstream answer of `None` is a failure. */
  datatype Happening =
    | Call(now: int)
    | TipArrives(c: nat)
    | AskParams(c: nat, now: int)
    | ParamsArrive(c: nat)
    | RecoveryArrives(c: nat)
    | TipLoaded(id: nat, answer: Option<Chain>, now: int)
    | ParamsLoaded(id: nat, epoch: nat, answer: Option<Chain>, now: int)
    | RecoveryTip(r: nat, answer: Option<Chain>)
    | RecoveryParams(r: nat, answer: Option<Chain>, now: int)
    | RecoveryCleared(r: nat)
    | Elsewhere(e: Event<Chain>)

  predicate Done(s: System<Chain>, id: nat) {
    id < |s.attempts| && !s.attempts[id].phase.Loading?
  }

  predicate Pending(s: System<Chain>, id: nat) {
    id < |s.attempts| && s.attempts[id].phase.Loading?
  }

  /** Other code shares the cache and the tip's entry, but writes none of these keys itself. */
  predicate Foreign(view: View, s: System<Chain>, e: Event<Chain>) {
    match e
    case Read(key, _, _) => !(ParamsPrefix(view) <= key)
    case LoadOk(id, _, _) => id < |s.attempts| && !Own(view, s.attempts[id].key)
    case LoadFail(id, _) => id < |s.attempts| && !Own(view, s.attempts[id].key)
    case Set(key, _, _, _) => !Own(view, key)
    case SetIf(key, _, _, _, _) => !Own(view, key)
    case _ => true
  }

  predicate Possible(view: View, d: State, h: Happening) {
    match h
    case Call(_) => true
    case TipArrives(c) => c < |d.callers| && d.callers[c].AwaitTip? && Done(d.sys, d.callers[c].id)
    case AskParams(c, _) => c < |d.callers| && d.callers[c].HasTip?
    case ParamsArrive(c) => c < |d.callers| && d.callers[c].AwaitParams? && Done(d.sys, d.callers[c].id)
    case RecoveryArrives(c) =>
      && c < |d.callers| && d.callers[c].AwaitRecovery?
      && d.callers[c].r < |d.recoveries| && !d.recoveries[d.callers[c].r].Running()
    case TipLoaded(id, answer, _) =>
      && Pending(d.sys, id) && d.sys.attempts[id].key == TipKey(view)
      && (answer.Some? ==> answer.value.Tip?)
    case ParamsLoaded(id, epoch, answer, _) =>
      && Pending(d.sys, id) && d.sys.attempts[id].key == ParamsKey(view, epoch)
      && (answer.Some? ==> answer.value.Params?)
    case RecoveryTip(r, answer) =>
      r < |d.recoveries| && d.recoveries[r].progress.FetchTip? && (answer.Some? ==> answer.value.Tip?)
    case RecoveryParams(r, answer, _) =>
      && r < |d.recoveries| && d.recoveries[r].progress.FetchParams?
      && d.recoveries[r].tipToken < |d.sys.tokens| && d.recoveries[r].paramsToken < |d.sys.tokens|
      && (answer.Some? ==> answer.value.Params?)
    case RecoveryCleared(r) => r < |d.recoveries| && !d.recoveries[r].Running()
    case Elsewhere(e) => Enabled(d.sys, e) && Foreign(view, d.sys, e)
  }

  function WithCaller(d: State, c: nat, caller: Caller): State
    requires c < |d.callers|
  {
    d.(callers := d.callers[c := caller])
  }

  function WithProgress(d: State, r: nat, progress: Progress): State
    requires r < |d.recoveries|
  {
    d.(recoveries := d.recoveries[r := d.recoveries[r].(progress := progress)])
  }

  /** Join the recovery under way, or capture both tokens and start one. */
  function Recover(view: View, d: State, c: nat, tip: Chain, max: nat): State
    requires c < |d.callers|
  {
    match d.current
    case Some(r) => WithCaller(d, c, AwaitRecovery(tip, r))
    case None =>
      var n, r := |d.sys.tokens|, |d.recoveries|;
      var first := Step(d.sys, Take(TokenKey(view, "chain:tip")), max);
      var second := Step(first, Take(TokenKey(view, "chain:protocol-params:")), max);
      WithCaller(d, c, AwaitRecovery(tip, r)).(
        sys := second, recoveries := d.recoveries + [Recovery(n, n + 1, FetchTip)], current := Some(r))
  }

  /** Publish the verified pair, each half only if its token is still current. */
  function Publish(view: View, s: System<Chain>, recovery: Recovery, tip: Chain, params: Chain, now: int, max: nat): System<Chain>
    requires recovery.tipToken < |s.tokens| && recovery.paramsToken < |s.tokens|
  {
    Step(Step(s, TipWrite(view, recovery, tip, now), max), ParamsWrite(view, recovery, tip, params, now), max)
  }

  function TipWrite(view: View, recovery: Recovery, tip: Chain, now: int): Event<Chain> {
    SetIf(TipKey(view), tip, TIP_TTL, recovery.tipToken, now)
  }

  function ParamsWrite(view: View, recovery: Recovery, tip: Chain, params: Chain, now: int): Event<Chain> {
    SetIf(ParamsKey(view, tip.epoch), params, PROTOCOL_PARAMS_TTL, recovery.paramsToken, now)
  }

  function Next(view: View, d: State, h: Happening, max: nat): State
    requires Possible(view, d, h)
  {
    match h
    case Call(now) =>
      var read := Read(TipKey(view), Policy(TIP_TTL, 0), now);
      var caller := match AnswerTo(d.sys, read)
        case Hit(tip) => HasTip(tip)
        case Joined(id) => AwaitTip(id)
        case Started(id) => AwaitTip(id)
        case _ => Threw;
      d.(sys := Step(d.sys, read, max), callers := d.callers + [caller])
    case TipArrives(c) =>
      var outcome := d.sys.attempts[d.callers[c].id].phase.outcome;
      WithCaller(d, c, if outcome.Value? then HasTip(outcome.value) else Threw)
    case AskParams(c, now) =>
      var tip := d.callers[c].tip;
      var read := Read(ParamsKey(view, tip.epoch), Policy(PROTOCOL_PARAMS_TTL, 0), now);
      var caller := match AnswerTo(d.sys, read)
        case Hit(params) => Returned(tip, params, None)
        case Joined(id) => AwaitParams(tip, id)
        case Started(id) => AwaitParams(tip, id)
        case _ => Threw;
      WithCaller(d.(sys := Step(d.sys, read, max)), c, caller)
    case ParamsArrive(c) =>
      var tip, id := d.callers[c].tip, d.callers[c].id;
      var outcome := d.sys.attempts[id].phase.outcome;
      if outcome.Value? then WithCaller(d, c, Returned(tip, outcome.value, None))
      else if id in d.mismatched then Recover(view, d, c, tip, max)
      else WithCaller(d, c, Threw)
    case RecoveryArrives(c) =>
      var r := d.callers[c].r;
      var progress := d.recoveries[r].progress;
      WithCaller(d, c, if progress.Recovered? then Returned(d.callers[c].tip, progress.params, Some(r)) else Threw)
    case TipLoaded(id, answer, now) =>
      d.(sys := Step(d.sys, if answer.Some? then LoadOk(id, answer.value, now) else LoadFail(id, now), max))
    case ParamsLoaded(id, epoch, answer, now) =>
      if answer.Some? && answer.value.epoch == epoch then d.(sys := Step(d.sys, LoadOk(id, answer.value, now), max))
      else d.(sys := Step(d.sys, LoadFail(id, now), max),
              mismatched := if answer.Some? then d.mismatched + {id} else d.mismatched)
    case RecoveryTip(r, answer) =>
      WithProgress(d, r, if answer.Some? then FetchParams(answer.value) else Lost)
    case RecoveryParams(r, answer, now) =>
      var tip := d.recoveries[r].progress.tip;
      if answer.None? || answer.value.epoch != tip.epoch then WithProgress(d, r, Lost)
      else WithProgress(d.(sys := Publish(view, d.sys, d.recoveries[r], tip, answer.value, now, max)),
                        r, Recovered(tip, answer.value))
    case RecoveryCleared(r) => if d.current == Some(r) then d.(current := None) else d
    case Elsewhere(e) => d.(sys := Step(d.sys, e, max))
  }

  // ----- what every interleaving keeps -----

  ghost predicate EntriesGood(view: View, s: System<Chain>) {
    && (forall k :: k in s.cache.entries ==> Good(view, k, s.cache.entries[k].value))
    && forall id :: 0 <= id < |s.attempts| && !s.attempts[id].phase.Loading? && s.attempts[id].phase.outcome.Value? ==>
         Good(view, s.attempts[id].key, s.attempts[id].phase.outcome.value)
  }

  ghost predicate CallerOk(view: View, d: State, caller: Caller) {
    match caller
    case AwaitTip(id) => id < |d.sys.attempts| && d.sys.attempts[id].key == TipKey(view)
    case HasTip(tip) => tip.Tip?
    case AwaitParams(tip, id) =>
      tip.Tip? && id < |d.sys.attempts| && d.sys.attempts[id].key == ParamsKey(view, tip.epoch)
    case AwaitRecovery(tip, r) => tip.Tip? && r < |d.recoveries|
    case Returned(tip, params, via) =>
      && tip.Tip? && params.Params?
      && (via.None? ==> params.epoch == tip.epoch)
      && (via.Some? ==>
            && via.value < |d.recoveries| && d.recoveries[via.value].progress.Recovered?
            && d.recoveries[via.value].progress.params == params
            && d.recoveries[via.value].progress.tip.epoch == params.epoch)
    case Threw => true
  }

  ghost predicate RecoveryOk(d: State, r: nat)
    requires r < |d.recoveries|
  {
    var recovery := d.recoveries[r];
    && recovery.tipToken < |d.sys.tokens| && recovery.paramsToken < |d.sys.tokens|
    && (recovery.Running() ==> d.current == Some(r))
    && match recovery.progress
       case FetchParams(tip) => tip.Tip?
       case Recovered(tip, params) => tip.Tip? && params.Params? && params.epoch == tip.epoch
       case _ => true
  }

  ghost predicate Sound(view: View, d: State, max: nat) {
    && Inv(d.sys, max) && EntriesGood(view, d.sys)
    && (forall c :: 0 <= c < |d.callers| ==> CallerOk(view, d, d.callers[c]))
    && (forall r :: 0 <= r < |d.recoveries| ==> RecoveryOk(d, r))
    && (d.current.Some? ==> d.current.value < |d.recoveries|)
  }

  /** A cache event that stores only good values. */
  ghost predicate StoresGood(view: View, s: System<Chain>, e: Event<Chain>) {
    match e
    case LoadOk(id, value, _) => id < |s.attempts| && Good(view, s.attempts[id].key, value)
    case Set(key, value, _, _) => Good(view, key, value)
    case SetIf(key, value, _, _, _) => Good(view, key, value)
    case _ => true
  }

  ghost predicate Grown(s: System<Chain>, t: System<Chain>) {
    && |s.attempts| <= |t.attempts| && |s.tokens| <= |t.tokens|
    && forall id :: 0 <= id < |s.attempts| ==> t.attempts[id].key == s.attempts[id].key
  }

  lemma WriteKeepsGood(view: View, s: System<Chain>, key: Key, value: Chain, policy: Policy, began: nat, now: int, max: nat)
    requires s.cache.Valid() && EntriesGood(view, s) && Good(view, key, value)
    ensures EntriesGood(view, Write(s, key, value, policy, began, now, max))
  {
    StoreFacts(s.cache, key, value, policy, now, max);
  }

  lemma SettlingKeepsGood(view: View, s: System<Chain>, id: nat, outcome: Outcome<Chain>)
    requires EntriesGood(view, s) && id < |s.attempts|
    requires outcome.Value? ==> Good(view, s.attempts[id].key, outcome.value)
    ensures EntriesGood(view, WithPhase(s, id, Settled(outcome)))
  {
  }

  /** The cache hands on only what it was given: good writes keep every entry and outcome good. */
  lemma CacheStepKeepsGood(view: View, s: System<Chain>, e: Event<Chain>, max: nat)
    requires s.cache.Valid() && EntriesGood(view, s) && Enabled(s, e) && StoresGood(view, s, e)
    ensures EntriesGood(view, Step(s, e, max)) && Grown(s, Step(s, e, max))
  {
    match e
    case LoadOk(id, value, now) =>
      var attempt := s.attempts[id];
      SettlingKeepsGood(view, s, id, Value(value));
      WriteKeepsGood(view, WithPhase(s, id, Settled(Value(value))), attempt.key, value, attempt.policy, attempt.began, now, max);
    case LoadFail(id, now) => SettlingKeepsGood(view, s, id, AnswerTo(s, e).outcome);
    case Set(key, value, ttl, now) => WriteKeepsGood(view, s, key, value, Policy(ttl, 0), |s.cache.log|, now, max);
    case SetIf(key, value, ttl, token, now) =>
      WriteKeepsGood(view, s, key, value, Policy(ttl, 0), s.tokens[token].began, now, max);
    case Clear(prefix) => ClearedFacts(s.cache, prefix);
    case _ =>
  }

  lemma CallersStaySound(view: View, d: State, after: State)
    requires Grown(d.sys, after.sys) && after.callers == d.callers && after.recoveries == d.recoveries
    requires forall c :: 0 <= c < |d.callers| ==> CallerOk(view, d, d.callers[c])
    ensures forall c :: 0 <= c < |d.callers| ==> CallerOk(view, after, d.callers[c])
  {
    forall c | 0 <= c < |d.callers| ensures CallerOk(view, after, d.callers[c]) {
      assert CallerOk(view, d, d.callers[c]);
    }
  }

  lemma RecoveriesStaySound(d: State, after: State)
    requires Grown(d.sys, after.sys) && after.recoveries == d.recoveries && after.current == d.current
    requires forall r :: 0 <= r < |d.recoveries| ==> RecoveryOk(d, r)
    ensures forall r :: 0 <= r < |d.recoveries| ==> RecoveryOk(after, r)
  {
    forall r | 0 <= r < |d.recoveries| ensures RecoveryOk(after, r) {
      assert RecoveryOk(d, r);
    }
  }

  /** A step of the cache alone leaves the callers and recoveries sound. */
  lemma CacheStepKeepsSound(view: View, d: State, e: Event<Chain>, mismatched: set<nat>, max: nat)
    requires Sound(view, d, max) && Enabled(d.sys, e) && StoresGood(view, d.sys, e)
    ensures Sound(view, d.(sys := Step(d.sys, e, max), mismatched := mismatched), max)
  {
    StepKeeps(d.sys, e, max);
    CacheStepKeepsGood(view, d.sys, e, max);
    var after := d.(sys := Step(d.sys, e, max), mismatched := mismatched);
    CallersStaySound(view, d, after);
    RecoveriesStaySound(d, after);
  }

  lemma CallerStepKeepsSound(view: View, d: State, c: nat, caller: Caller, max: nat)
    requires Sound(view, d, max) && c < |d.callers| && CallerOk(view, d, caller)
    ensures Sound(view, WithCaller(d, c, caller), max)
  {
    var after := WithCaller(d, c, caller);
    assert forall c' :: 0 <= c' < |d.callers| ==> CallerOk(view, d, after.callers[c']);
    assert forall c' :: 0 <= c' < |d.callers| ==> CallerOk(view, d, after.callers[c']) ==> CallerOk(view, after, after.callers[c']);
    assert forall r :: 0 <= r < |d.recoveries| ==> RecoveryOk(d, r) ==> RecoveryOk(after, r);
  }

  /** What a read answers is good for its key, or an attempt on that key. */
  lemma ReadAnswersGood(view: View, s: System<Chain>, key: Key, policy: Policy, now: int, max: nat)
    requires Inv(s, max) && EntriesGood(view, s)
    ensures var after := Step(s, Read(key, policy, now), max);
            match AnswerTo(s, Read(key, policy, now))
            case Hit(value) => Good(view, key, value)
            case Joined(id) => id < |after.attempts| && after.attempts[id].key == key
            case Started(id) => id < |after.attempts| && after.attempts[id].key == key
            case _ => false
  {
  }

  lemma NewCallerKeepsSound(view: View, d: State, caller: Caller, max: nat)
    requires Sound(view, d, max) && CallerOk(view, d, caller)
    ensures Sound(view, d.(callers := d.callers + [caller]), max)
  {
    var after := d.(callers := d.callers + [caller]);
    assert forall c :: 0 <= c < |after.callers| ==> CallerOk(view, d, after.callers[c]);
    assert forall c :: 0 <= c < |after.callers| ==> CallerOk(view, d, after.callers[c]) ==> CallerOk(view, after, after.callers[c]);
    assert forall r :: 0 <= r < |d.recoveries| ==> RecoveryOk(d, r) ==> RecoveryOk(after, r);
  }

  lemma CallKeepsSound(view: View, d: State, now: int, max: nat)
    requires Sound(view, d, max)
    ensures Sound(view, Next(view, d, Call(now), max), max)
  {
    var read := Read(TipKey(view), Policy(TIP_TTL, 0), now);
    ReadAnswersGood(view, d.sys, TipKey(view), Policy(TIP_TTL, 0), now, max);
    CacheStepKeepsSound(view, d, read, d.mismatched, max);
    var mid, after := d.(sys := Step(d.sys, read, max)), Next(view, d, Call(now), max);
    NewCallerKeepsSound(view, mid, after.callers[|d.callers|], max);
  }

  lemma AskKeepsSound(view: View, d: State, c: nat, now: int, max: nat)
    requires Sound(view, d, max) && c < |d.callers| && d.callers[c].HasTip?
    ensures Sound(view, Next(view, d, AskParams(c, now), max), max)
  {
    var tip := d.callers[c].tip;
    assert CallerOk(view, d, d.callers[c]);
    var read := Read(ParamsKey(view, tip.epoch), Policy(PROTOCOL_PARAMS_TTL, 0), now);
    ReadAnswersGood(view, d.sys, ParamsKey(view, tip.epoch), Policy(PROTOCOL_PARAMS_TTL, 0), now, max);
    CacheStepKeepsSound(view, d, read, d.mismatched, max);
    var mid, after := d.(sys := Step(d.sys, read, max)), Next(view, d, AskParams(c, now), max);
    CallerStepKeepsSound(view, mid, c, after.callers[c], max);
  }

  lemma TakesKeepSound(view: View, d: State, first: Key, second: Key, max: nat)
    requires Sound(view, d, max)
    ensures var after := Step(Step(d.sys, Take(first), max), Take(second), max);
            && Sound(view, d.(sys := after), max) && |after.tokens| == |d.sys.tokens| + 2
  {
    CacheStepKeepsSound(view, d, Take(first), d.mismatched, max);
    CacheStepKeepsSound(view, d.(sys := Step(d.sys, Take(first), max)), Take(second), d.mismatched, max);
  }

  lemma BegunIsSound(view: View, d: State, recovery: Recovery, max: nat)
    requires Sound(view, d, max) && d.current.None? && recovery.progress.FetchTip?
    requires recovery.tipToken < |d.sys.tokens| && recovery.paramsToken < |d.sys.tokens|
    ensures Sound(view, d.(recoveries := d.recoveries + [recovery], current := Some(|d.recoveries|)), max)
  {
    var after := d.(recoveries := d.recoveries + [recovery], current := Some(|d.recoveries|));
    forall c | 0 <= c < |d.callers| ensures CallerOk(view, after, d.callers[c]) {
      assert CallerOk(view, d, d.callers[c]);
    }
    forall r | 0 <= r < |after.recoveries| ensures RecoveryOk(after, r) {
      assert r < |d.recoveries| ==> RecoveryOk(d, r);
    }
  }

  /** Starting a recovery: two tokens, one more recovery, nothing else. */
  lemma RecoverKeepsSound(view: View, d: State, c: nat, tip: Chain, max: nat)
    requires Sound(view, d, max) && c < |d.callers| && tip.Tip?
    ensures Sound(view, Recover(view, d, c, tip, max), max)
  {
    if d.current.Some? {
      CallerStepKeepsSound(view, d, c, AwaitRecovery(tip, d.current.value), max);
    } else {
      var n, r := |d.sys.tokens|, |d.recoveries|;
      var first, second := TokenKey(view, "chain:tip"), TokenKey(view, "chain:protocol-params:");
      TakesKeepSound(view, d, first, second, max);
      var taken := d.(sys := Step(Step(d.sys, Take(first), max), Take(second), max));
      BegunIsSound(view, taken, Recovery(n, n + 1, FetchTip), max);
      var begun := taken.(recoveries := d.recoveries + [Recovery(n, n + 1, FetchTip)], current := Some(r));
      CallerStepKeepsSound(view, begun, c, AwaitRecovery(tip, r), max);
    }
  }

  lemma ProgressKeepsSound(view: View, d: State, r: nat, progress: Progress, max: nat)
    requires Sound(view, d, max) && r < |d.recoveries| && d.recoveries[r].Running()
    requires progress.FetchParams? ==> progress.tip.Tip?
    requires progress.Recovered? ==>
               progress.tip.Tip? && progress.params.Params? && progress.params.epoch == progress.tip.epoch
    ensures Sound(view, WithProgress(d, r, progress), max)
  {
    var after := WithProgress(d, r, progress);
    assert RecoveryOk(d, r);
    assert forall i :: 0 <= i < |d.callers| ==> CallerOk(view, d, d.callers[i]) ==> CallerOk(view, after, d.callers[i]);
    assert forall i :: 0 <= i < |d.recoveries| && i != r ==> RecoveryOk(d, i) ==> RecoveryOk(after, i);
  }

  lemma PublishKeepsSound(view: View, d: State, r: nat, tip: Chain, params: Chain, now: int, max: nat)
    requires Sound(view, d, max) && r < |d.recoveries|
    requires d.recoveries[r].tipToken < |d.sys.tokens| && d.recoveries[r].paramsToken < |d.sys.tokens|
    requires tip.Tip? && params.Params? && params.epoch == tip.epoch
    ensures Sound(view, d.(sys := Publish(view, d.sys, d.recoveries[r], tip, params, now, max)), max)
  {
    GoodTip(view, tip);
    GoodParams(view, tip.epoch, params);
    var setTip, setParams := TipWrite(view, d.recoveries[r], tip, now), ParamsWrite(view, d.recoveries[r], tip, params, now);
    CacheStepKeepsSound(view, d, setTip, d.mismatched, max);
    CacheStepKeepsSound(view, d.(sys := Step(d.sys, setTip, max)), setParams, d.mismatched, max);
  }

  lemma RecoveredKeepsSound(view: View, d: State, r: nat, answer: Option<Chain>, now: int, max: nat)
    requires Sound(view, d, max) && Possible(view, d, RecoveryParams(r, answer, now))
    ensures Sound(view, Next(view, d, RecoveryParams(r, answer, now), max), max)
  {
    var tip := d.recoveries[r].progress.tip;
    assert RecoveryOk(d, r);
    if answer.Some? && answer.value.epoch == tip.epoch {
      PublishKeepsSound(view, d, r, tip, answer.value, now, max);
      ProgressKeepsSound(view, d.(sys := Publish(view, d.sys, d.recoveries[r], tip, answer.value, now, max)), r,
                         Recovered(tip, answer.value), max);
    } else {
      ProgressKeepsSound(view, d, r, Lost, max);
    }
  }

  lemma ParamsArriveKeepsSound(view: View, d: State, c: nat, max: nat)
    requires Sound(view, d, max) && Possible(view, d, ParamsArrive(c))
    ensures Sound(view, Next(view, d, ParamsArrive(c), max), max)
  {
    assert CallerOk(view, d, d.callers[c]);
    var tip, id := d.callers[c].tip, d.callers[c].id;
    if d.sys.attempts[id].phase.outcome.Error? && id in d.mismatched {
      RecoverKeepsSound(view, d, c, tip, max);
    } else {
      CallerStepKeepsSound(view, d, c, Next(view, d, ParamsArrive(c), max).callers[c], max);
    }
  }

  lemma TipLoadedKeepsSound(view: View, d: State, id: nat, answer: Option<Chain>, now: int, max: nat)
    requires Sound(view, d, max) && Possible(view, d, TipLoaded(id, answer, now))
    ensures Sound(view, Next(view, d, TipLoaded(id, answer, now), max), max)
  {
    if answer.Some? {
      GoodTip(view, answer.value);
    }
    CacheStepKeepsSound(view, d, if answer.Some? then LoadOk(id, answer.value, now) else LoadFail(id, now), d.mismatched, max);
  }

  lemma ParamsLoadedKeepsSound(view: View, d: State, id: nat, epoch: nat, answer: Option<Chain>, now: int, max: nat)
    requires Sound(view, d, max) && Possible(view, d, ParamsLoaded(id, epoch, answer, now))
    ensures Sound(view, Next(view, d, ParamsLoaded(id, epoch, answer, now), max), max)
  {
    if answer.Some? && answer.value.epoch == epoch {
      GoodParams(view, epoch, answer.value);
      CacheStepKeepsSound(view, d, LoadOk(id, answer.value, now), d.mismatched, max);
    } else {
      CacheStepKeepsSound(view, d, LoadFail(id, now), Next(view, d, ParamsLoaded(id, epoch, answer, now), max).mismatched, max);
    }
  }

  /** A settled recovery may be forgotten: nothing running depends on it. */
  lemma ClearedKeepsSound(view: View, d: State, r: nat, max: nat)
    requires Sound(view, d, max) && Possible(view, d, RecoveryCleared(r))
    ensures Sound(view, Next(view, d, RecoveryCleared(r), max), max)
  {
    var after := Next(view, d, RecoveryCleared(r), max);
    CallersStaySound(view, d, after);
    forall i | 0 <= i < |d.recoveries| ensures RecoveryOk(after, i) {
      assert RecoveryOk(d, i) && RecoveryOk(d, r);
    }
  }

  lemma NextKeepsSound(view: View, d: State, h: Happening, max: nat)
    requires Sound(view, d, max) && Possible(view, d, h)
    ensures Sound(view, Next(view, d, h, max), max)
  {
    match h
    case Call(now) => CallKeepsSound(view, d, now, max);
    case TipArrives(c) =>
      assert CallerOk(view, d, d.callers[c]);
      CallerStepKeepsSound(view, d, c, Next(view, d, h, max).callers[c], max);
    case AskParams(c, now) => AskKeepsSound(view, d, c, now, max);
    case ParamsArrive(c) => ParamsArriveKeepsSound(view, d, c, max);
    case RecoveryArrives(c) =>
      assert CallerOk(view, d, d.callers[c]) && RecoveryOk(d, d.callers[c].r);
      CallerStepKeepsSound(view, d, c, Next(view, d, h, max).callers[c], max);
    case TipLoaded(id, answer, now) => TipLoadedKeepsSound(view, d, id, answer, now, max);
    case ParamsLoaded(id, epoch, answer, now) => ParamsLoadedKeepsSound(view, d, id, epoch, answer, now, max);
    case RecoveryTip(r, answer) => ProgressKeepsSound(view, d, r, Next(view, d, h, max).recoveries[r].progress, max);
    case RecoveryParams(r, answer, now) => RecoveredKeepsSound(view, d, r, answer, now, max);
    case RecoveryCleared(r) => ClearedKeepsSound(view, d, r, max);
    case Elsewhere(e) =>
      ForeignStoresGood(view, d.sys, e);
      CacheStepKeepsSound(view, d, e, d.mismatched, max);
  }

  lemma ForeignStoresGood(view: View, s: System<Chain>, e: Event<Chain>)
    requires Enabled(s, e) && Foreign(view, s, e)
    ensures StoresGood(view, s, e)
  {
    match e
    case LoadOk(id, value, _) => GoodElsewhere(view, s.attempts[id].key, value);
    case Set(key, value, _, _) => GoodElsewhere(view, key, value);
    case SetIf(key, value, _, _, _) => GoodElsewhere(view, key, value);
    case _ =>
  }

  // ----- over whole runs -----

  ghost predicate IsHistory(view: View, states: seq<State>, happenings: seq<Happening>, max: nat) {
    && |states| == |happenings| + 1 && states[0] == State(Init(), {}, [], [], None)
    && forall i :: 0 <= i < |happenings| ==>
         Possible(view, states[i], happenings[i]) && states[i + 1] == Next(view, states[i], happenings[i], max)
  }

  lemma {:induction false} HistoryIsSound(view: View, states: seq<State>, happenings: seq<Happening>, max: nat, i: nat)
    requires IsHistory(view, states, happenings, max) && i < |states|
    ensures Sound(view, states[i], max)
  {
    if i > 0 {
      HistoryIsSound(view, states, happenings, max, i - 1);
      NextKeepsSound(view, states[i - 1], happenings[i - 1], max);
    }
  }

  /** In every interleaving the entry keyed on an epoch holds that epoch's parameters. */
  lemma EntryHoldsItsEpoch(view: View, states: seq<State>, happenings: seq<Happening>, max: nat, i: nat, epoch: nat)
    requires IsHistory(view, states, happenings, max) && i < |states|
    requires ParamsKey(view, epoch) in states[i].sys.cache.entries
    ensures var value := states[i].sys.cache.entries[ParamsKey(view, epoch)].value;
            value.Params? && value.epoch == epoch
  {
    HistoryIsSound(view, states, happenings, max, i);
  }

  /**
   Whatever a call returns carries the epoch of the tip that call obtained, or of the tip that the
   recovery it joined obtained together with these very parameters.
   */
  lemma ReturnedMatchesATip(view: View, states: seq<State>, happenings: seq<Happening>, max: nat, i: nat, c: nat)
    requires IsHistory(view, states, happenings, max) && i < |states|
    requires c < |states[i].callers| && states[i].callers[c].Returned?
    ensures var caller := states[i].callers[c];
            && caller.params.Params?
            && match caller.via
               case None => caller.params.epoch == caller.tip.epoch
               case Some(r) =>
                 && r < |states[i].recoveries|
                 && exists tip :: states[i].recoveries[r].progress == Recovered(tip, caller.params)
                                  && tip.Tip? && tip.epoch == caller.params.epoch
  {
    HistoryIsSound(view, states, happenings, max, i);
    var d, caller := states[i], states[i].callers[c];
    assert CallerOk(view, d, caller);
    if caller.via.Some? {
      assert RecoveryOk(d, caller.via.value);
      assert d.recoveries[caller.via.value].progress == Recovered(d.recoveries[caller.via.value].progress.tip, caller.params);
    }
  }

  /** However many callers find a mismatch, only one recovery is ever fetching. */
  lemma OneRecoveryAtATime(view: View, states: seq<State>, happenings: seq<Happening>, max: nat, i: nat, r: nat, q: nat)
    requires IsHistory(view, states, happenings, max) && i < |states|
    requires r < |states[i].recoveries| && q < |states[i].recoveries|
    requires states[i].recoveries[r].Running() && states[i].recoveries[q].Running()
    ensures r == q
  {
    HistoryIsSound(view, states, happenings, max, i);
    assert RecoveryOk(states[i], r) && RecoveryOk(states[i], q);
  }

  // ----- the two fences of a recovery -----

  /** A recovery's parameters arrive, and are of its tip's epoch. */
  ghost predicate Completes(view: View, d: State, h: Happening) {
    && h.RecoveryParams? && Possible(view, d, h)
    && h.answer.Some? && h.answer.value.epoch == d.recoveries[h.r].progress.tip.epoch
  }

  /** A clear has matched the key since the token was taken. */
  ghost predicate Fenced(s: System<Chain>, token: nat, key: Key) {
    token < |s.tokens| && ClearedSince(s.cache.log, s.tokens[token].began, key)
  }

  lemma FencedWriteIsRefused(s: System<Chain>, e: Event<Chain>, max: nat)
    requires Inv(s, max) && e.SetIf? && Fenced(s, e.token, e.key)
    ensures Step(s, e, max) == s
  {
    var j :| s.tokens[e.token].began <= j < |s.cache.log| && s.cache.log[j] <= e.key;
    assert Overlaps(s.cache.log[j], e.key);
  }

  lemma WriteKeepsFence(s: System<Chain>, e: Event<Chain>, token: nat, key: Key, max: nat)
    requires Inv(s, max) && e.SetIf? && Enabled(s, e) && Fenced(s, token, key)
    ensures Inv(Step(s, e, max), max) && Fenced(Step(s, e, max), token, key)
  {
    StepKeeps(s, e, max);
    var policy := Policy(e.ttl, 0);
    StoreFacts(s.cache, e.key, e.value, policy, e.now, max);
  }

  /** A clear of the tip's key since the recovery captured its tokens keeps its tip out, and only that. */
  lemma ClearedTipIsNotStored(view: View, states: seq<State>, happenings: seq<Happening>, max: nat, i: nat)
    requires IsHistory(view, states, happenings, max) && i < |happenings| && Completes(view, states[i], happenings[i])
    requires Fenced(states[i].sys, states[i].recoveries[happenings[i].r].tipToken, TipKey(view))
    ensures var d, h := states[i], happenings[i];
            states[i + 1].sys ==
              Step(d.sys, ParamsWrite(view, d.recoveries[h.r], d.recoveries[h.r].progress.tip, h.answer.value, h.now), max)
  {
    HistoryIsSound(view, states, happenings, max, i);
    var d, h := states[i], happenings[i];
    FencedWriteIsRefused(d.sys, TipWrite(view, d.recoveries[h.r], d.recoveries[h.r].progress.tip, h.now), max);
  }

  /** A clear of the parameters' key keeps the parameters out, and only those. */
  lemma ClearedParamsAreNotStored(view: View, states: seq<State>, happenings: seq<Happening>, max: nat, i: nat)
    requires IsHistory(view, states, happenings, max) && i < |happenings| && Completes(view, states[i], happenings[i])
    requires Fenced(states[i].sys, states[i].recoveries[happenings[i].r].paramsToken,
                    ParamsKey(view, states[i].recoveries[happenings[i].r].progress.tip.epoch))
    ensures var d, h := states[i], happenings[i];
            states[i + 1].sys == Step(d.sys, TipWrite(view, d.recoveries[h.r], d.recoveries[h.r].progress.tip, h.now), max)
  {
    HistoryIsSound(view, states, happenings, max, i);
    var d, h := states[i], happenings[i];
    var recovery, tip := d.recoveries[h.r], d.recoveries[h.r].progress.tip;
    var first := TipWrite(view, recovery, tip, h.now);
    WriteKeepsFence(d.sys, first, recovery.paramsToken, ParamsKey(view, tip.epoch), max);
    FencedWriteIsRefused(Step(d.sys, first, max), ParamsWrite(view, recovery, tip, h.answer.value, h.now), max);
  }

  /** With both cleared nothing is stored, through the plain cache and a scoped view alike; callers still get the pair. */
  lemma ClearedRecoveryStoresNothing(view: View, states: seq<State>, happenings: seq<Happening>, max: nat, i: nat)
    requires IsHistory(view, states, happenings, max) && i < |happenings| && happenings[i].RecoveryParams?
    requires Fenced(states[i].sys, states[i].recoveries[happenings[i].r].tipToken, TipKey(view))
    requires Fenced(states[i].sys, states[i].recoveries[happenings[i].r].paramsToken,
                    ParamsKey(view, states[i].recoveries[happenings[i].r].progress.tip.epoch))
    ensures states[i + 1].sys == states[i].sys
    ensures var h, was := happenings[i], states[i].recoveries[happenings[i].r].progress;
            Completes(view, states[i], h) ==> states[i + 1].recoveries[h.r].progress == Recovered(was.tip, h.answer.value)
  {
    HistoryIsSound(view, states, happenings, max, i);
    var d, h := states[i], happenings[i];
    if Completes(view, d, h) {
      ClearedParamsAreNotStored(view, states, happenings, max, i);
      FencedWriteIsRefused(d.sys, TipWrite(view, d.recoveries[h.r], d.recoveries[h.r].progress.tip, h.now), max);
    }
  }
}
