/**
 What the callers of the cached protocol parameters get: a mismatch is recovered from, a recovery's pair is
 returned and stored, only a failing upstream makes a call throw, and no caller waits in vain.
 */
module ParamsRecovery {
  import opened Common
  import opened CacheState
  import opened CacheRuns
  import opened CachedParams

  // ----- what each arrival gives a caller -----

  /** Parameters of another epoch than the tip's are noted as a mismatch, and only they are. */
  lemma MismatchIsNoted(view: View, d: State, h: Happening, max: nat)
    requires Possible(view, d, h)
    ensures Next(view, d, h, max).mismatched
         == d.mismatched + if h.ParamsLoaded? && h.answer.Some? && h.answer.value.epoch != h.epoch then {h.id} else {}
  {
  }

  /**
   A caller whose parameters did not match its tip waits for the recovery under way, or for a new one, which
   first takes a token for each of its two writes and then fetches. Nothing else changes.
   */
  lemma MismatchIsRecovered(view: View, d: State, c: nat, max: nat)
    requires Possible(view, d, ParamsArrive(c))
    requires d.sys.attempts[d.callers[c].id].phase.outcome.Error? && d.callers[c].id in d.mismatched
    ensures var after, tip := Next(view, d, ParamsArrive(c), max), d.callers[c].tip;
            match d.current
            case Some(r) => after == d.(callers := d.callers[c := AwaitRecovery(tip, r)])
            case None =>
              var n, r := |d.sys.tokens|, |d.recoveries|;
              var log := d.sys.cache.log;
              && after.callers == d.callers[c := AwaitRecovery(tip, r)]
              && after.recoveries == d.recoveries + [Recovery(n, n + 1, FetchTip)] && after.current == Some(r)
              && after.sys.cache == d.sys.cache && after.sys.attempts == d.sys.attempts
              && after.sys.tokens == d.sys.tokens + [Token(Generation(log, TokenKey(view, "chain:tip")), |log|),
                                                     Token(Generation(log, TokenKey(view, "chain:protocol-params:")), |log|)]
  {
  }

  /** A settled load or recovery gives every caller that waits for it exactly what came of it. */
  lemma ArrivalGives(view: View, d: State, c: nat, max: nat)
    requires c < |d.callers|
    ensures Possible(view, d, TipArrives(c)) ==>
              var outcome := d.sys.attempts[d.callers[c].id].phase.outcome;
              Next(view, d, TipArrives(c), max).callers[c] == match outcome case Value(tip) => HasTip(tip) case Error => Threw
    ensures Possible(view, d, ParamsArrive(c)) ==>
              var outcome := d.sys.attempts[d.callers[c].id].phase.outcome;
              && (outcome.Value? ==>
                    Next(view, d, ParamsArrive(c), max).callers[c] == Returned(d.callers[c].tip, outcome.value, None))
              && (outcome.Error? && d.callers[c].id !in d.mismatched ==>
                    Next(view, d, ParamsArrive(c), max).callers[c] == Threw)
    ensures Possible(view, d, RecoveryArrives(c)) ==>
              var progress := d.recoveries[d.callers[c].r].progress;
              Next(view, d, RecoveryArrives(c), max).callers[c]
              == match progress
                 case Recovered(_, params) => Returned(d.callers[c].tip, params, Some(d.callers[c].r))
                 case _ => Threw
  {
  }

  /** A recovery fetches the tip and then the parameters, and is joined no more once it is forgotten. */
  lemma RecoveryAdvances(view: View, d: State, h: Happening, max: nat)
    requires Possible(view, d, h)
    ensures h.RecoveryTip? ==>
              Next(view, d, h, max).recoveries[h.r].progress == match h.answer case Some(tip) => FetchParams(tip) case None => Lost
    ensures h.RecoveryParams? ==>
              var tip := d.recoveries[h.r].progress.tip;
              Next(view, d, h, max).recoveries[h.r].progress
              == if h.answer.Some? && h.answer.value.epoch == tip.epoch then Recovered(tip, h.answer.value) else Lost
    ensures h.RecoveryCleared? ==> Next(view, d, h, max).current == if d.current == Some(h.r) then None else d.current
  {
  }

  // ----- what settles a load -----

  /** A load is settled by its own answer and then stays as it is. */
  lemma StepSettles(s: System<Chain>, e: Event<Chain>, max: nat, id: nat)
    requires Enabled(s, e) && id < |Step(s, e, max).attempts| && !Step(s, e, max).attempts[id].phase.Loading?
    ensures id < |s.attempts| && Step(s, e, max).attempts[id].key == s.attempts[id].key
    ensures var phase := Step(s, e, max).attempts[id].phase;
            if s.attempts[id].phase.Loading?
            then (e.LoadOk? || e.LoadFail?) && e.id == id && (e.LoadOk? ==> phase == Settled(Value(e.value)))
            else phase.outcome == s.attempts[id].phase.outcome
  {
  }

  /** The answer that settled a load of one of the two keys. */
  ghost predicate Settles(view: View, h: Happening, id: nat, key: Key, outcome: Outcome<Chain>) {
    match h
    case TipLoaded(i, answer, _) => i == id && key == TipKey(view) && (answer.Some? ==> outcome == Value(answer.value))
    case ParamsLoaded(i, epoch, answer, _) =>
      && i == id && key == ParamsKey(view, epoch)
      && (answer.Some? && answer.value.epoch == epoch ==> outcome == Value(answer.value))
    case Elsewhere(_) => !Own(view, key)
    case _ => false
  }

  lemma OthersSettleNothing(view: View, d: State, h: Happening, max: nat)
    requires Possible(view, d, h)
    requires h.TipArrives? || h.ParamsArrive? || h.RecoveryArrives? || h.RecoveryTip? || h.RecoveryParams? || h.RecoveryCleared?
    ensures Next(view, d, h, max).sys.attempts == d.sys.attempts
  {
  }

  lemma NextSettles(view: View, d: State, h: Happening, max: nat, id: nat)
    requires Possible(view, d, h) && id < |Next(view, d, h, max).sys.attempts|
    requires !Next(view, d, h, max).sys.attempts[id].phase.Loading?
    ensures id < |d.sys.attempts| && Next(view, d, h, max).sys.attempts[id].key == d.sys.attempts[id].key
    ensures var outcome := Next(view, d, h, max).sys.attempts[id].phase.outcome;
            if d.sys.attempts[id].phase.Loading? then Settles(view, h, id, d.sys.attempts[id].key, outcome)
            else outcome == d.sys.attempts[id].phase.outcome
  {
    match h
    case Call(now) => StepSettles(d.sys, Read(TipKey(view), Policy(TIP_TTL, 0), now), max, id);
    case AskParams(c, now) =>
      StepSettles(d.sys, Read(ParamsKey(view, d.callers[c].tip.epoch), Policy(PROTOCOL_PARAMS_TTL, 0), now), max, id);
    case TipLoaded(i, answer, now) =>
      StepSettles(d.sys, if answer.Some? then LoadOk(i, answer.value, now) else LoadFail(i, now), max, id);
    case ParamsLoaded(i, epoch, answer, now) =>
      StepSettles(d.sys, if answer.Some? && answer.value.epoch == epoch then LoadOk(i, answer.value, now)
                         else LoadFail(i, now), max, id);
    case Elsewhere(e) => StepSettles(d.sys, e, max, id);
    case _ => OthersSettleNothing(view, d, h, max);
  }

  // ----- why a call throws -----

  /** The load was answered with a failure. */
  predicate LoadFailed(h: Happening, id: nat) {
    match h
    case TipLoaded(i, answer, _) => i == id && answer.None?
    case ParamsLoaded(i, _, answer, _) => i == id && answer.None?
    case _ => false
  }

  /** The recovery's fetch failed, or its two answers were of different epochs. */
  predicate RecoveryFailed(d: State, h: Happening, r: nat) {
    match h
    case RecoveryTip(q, answer) => q == r && answer.None?
    case RecoveryParams(q, answer, _) =>
      && q == r && r < |d.recoveries| && d.recoveries[r].progress.FetchParams?
      && (answer.None? || answer.value.epoch != d.recoveries[r].progress.tip.epoch)
    case _ => false
  }

  /** Of the loads of the tip and of an epoch, those settled with an error that is no mismatch were answered so. */
  lemma {:induction false} ErrorWasAnswered(view: View, states: seq<State>, happenings: seq<Happening>, max: nat, i: nat, id: nat)
    returns (k: nat)
    requires IsHistory(view, states, happenings, max) && i < |states|
    requires id < |states[i].sys.attempts| && Own(view, states[i].sys.attempts[id].key)
    requires !states[i].sys.attempts[id].phase.Loading? && states[i].sys.attempts[id].phase.outcome.Error?
    requires id !in states[i].mismatched
    ensures k < i && LoadFailed(happenings[k], id)
  {
    var j: nat := i - 1;
    NextSettles(view, states[j], happenings[j], max, id);
    MismatchIsNoted(view, states[j], happenings[j], max);
    if states[j].sys.attempts[id].phase.Loading? {
      k := j;
    } else {
      k := ErrorWasAnswered(view, states, happenings, max, j, id);
    }
  }

  /** A noted mismatch was one: parameters of an epoch other than the one asked for. */
  lemma {:induction false} MismatchWasAnswered(view: View, states: seq<State>, happenings: seq<Happening>, max: nat, i: nat, id: nat)
    returns (k: nat)
    requires IsHistory(view, states, happenings, max) && i < |states| && id in states[i].mismatched
    ensures k < i && happenings[k].ParamsLoaded? && happenings[k].id == id
    ensures happenings[k].answer.Some? && happenings[k].answer.value.epoch != happenings[k].epoch
  {
    var j: nat := i - 1;
    MismatchIsNoted(view, states[j], happenings[j], max);
    if id in states[j].mismatched {
      k := MismatchWasAnswered(view, states, happenings, max, j, id);
    } else {
      k := j;
    }
  }

  lemma RecoveryGoesOn(view: View, d: State, h: Happening, max: nat, r: nat)
    requires Possible(view, d, h) && r < |Next(view, d, h, max).recoveries|
    requires Next(view, d, h, max).recoveries[r].progress.Lost?
    ensures r < |d.recoveries| && (d.recoveries[r].progress.Lost? || RecoveryFailed(d, h, r))
  {
  }

  lemma {:induction false} LossWasAnswered(view: View, states: seq<State>, happenings: seq<Happening>, max: nat, i: nat, r: nat)
    returns (k: nat)
    requires IsHistory(view, states, happenings, max) && i < |states|
    requires r < |states[i].recoveries| && states[i].recoveries[r].progress.Lost?
    ensures k < i && RecoveryFailed(states[k], happenings[k], r)
  {
    var j: nat := i - 1;
    RecoveryGoesOn(view, states[j], happenings[j], max, r);
    if states[j].recoveries[r].progress.Lost? {
      k := LossWasAnswered(view, states, happenings, max, j, r);
    } else {
      k := j;
    }
  }

  /** What a caller waited for when it threw. */
  ghost predicate Awaited(d: State, h: Happening, c: nat) {
    && c < |d.callers|
    && match d.callers[c]
       case AwaitTip(id) =>
         h == TipArrives(c) && id < |d.sys.attempts| && !d.sys.attempts[id].phase.Loading? && d.sys.attempts[id].phase.outcome.Error?
       case AwaitParams(_, id) =>
         && h == ParamsArrive(c) && id < |d.sys.attempts| && !d.sys.attempts[id].phase.Loading?
         && d.sys.attempts[id].phase.outcome.Error? && id !in d.mismatched
       case AwaitRecovery(_, r) =>
         h == RecoveryArrives(c) && r < |d.recoveries| && !d.recoveries[r].Running() && !d.recoveries[r].progress.Recovered?
       case _ => false
  }

  lemma ReadNeverThrows(view: View, d: State, h: Happening, max: nat, c: nat)
    requires Possible(view, d, h) && (h.Call? || h.AskParams?) && c < |Next(view, d, h, max).callers|
    requires Next(view, d, h, max).callers[c] == Threw
    ensures c < |d.callers| && d.callers[c] == Threw
  {
  }

  lemma ArrivalThrows(view: View, d: State, h: Happening, max: nat, c: nat)
    requires Possible(view, d, h) && (h.TipArrives? || h.ParamsArrive? || h.RecoveryArrives?)
    requires c < |Next(view, d, h, max).callers| && Next(view, d, h, max).callers[c] == Threw
    ensures (c < |d.callers| && d.callers[c] == Threw) || Awaited(d, h, c)
  {
  }

  lemma OthersLeaveCallers(view: View, d: State, h: Happening, max: nat)
    requires Possible(view, d, h)
    requires h.TipLoaded? || h.ParamsLoaded? || h.RecoveryTip? || h.RecoveryParams? || h.RecoveryCleared? || h.Elsewhere?
    ensures Next(view, d, h, max).callers == d.callers
  {
  }

  lemma CallerThrows(view: View, d: State, h: Happening, max: nat, c: nat)
    requires Possible(view, d, h) && c < |Next(view, d, h, max).callers|
    requires Next(view, d, h, max).callers[c] == Threw
    ensures (c < |d.callers| && d.callers[c] == Threw) || Awaited(d, h, c)
  {
    if h.Call? || h.AskParams? {
      ReadNeverThrows(view, d, h, max, c);
    } else if h.TipArrives? || h.ParamsArrive? || h.RecoveryArrives? {
      ArrivalThrows(view, d, h, max, c);
    } else {
      OthersLeaveCallers(view, d, h, max);
    }
  }

  lemma {:induction false} ThrewWhile(view: View, states: seq<State>, happenings: seq<Happening>, max: nat, i: nat, c: nat)
    returns (m: nat)
    requires IsHistory(view, states, happenings, max) && i < |states|
    requires c < |states[i].callers| && states[i].callers[c] == Threw
    ensures m < i && Awaited(states[m], happenings[m], c)
  {
    var j: nat := i - 1;
    CallerThrows(view, states[j], happenings[j], max, c);
    if Awaited(states[j], happenings[j], c) {
      m := j;
    } else {
      m := ThrewWhile(view, states, happenings, max, j, c);
    }
  }

  /** An upstream failure that explains why the caller threw where it stood. */
  ghost predicate Explains(d: State, h: Happening, caller: Caller) {
    match caller
    case AwaitTip(id) => LoadFailed(h, id)
    case AwaitParams(_, id) => LoadFailed(h, id)
    case AwaitRecovery(_, r) => RecoveryFailed(d, h, r)
    case _ => false
  }

  /**
   A call throws only when the upstream failed the very load or recovery it was waiting for, or gave that
   recovery a pair that does not match. A mismatch between the tip and the parameters alone never throws.
   */
  lemma ThrowsOnlyOnFailure(view: View, states: seq<State>, happenings: seq<Happening>, max: nat, i: nat, c: nat)
    returns (m: nat, k: nat)
    requires IsHistory(view, states, happenings, max) && i < |states|
    requires c < |states[i].callers| && states[i].callers[c] == Threw
    ensures k < m < i && c < |states[m].callers| && Explains(states[k], happenings[k], states[m].callers[c])
  {
    m := ThrewWhile(view, states, happenings, max, i, c);
    HistoryIsSound(view, states, happenings, max, m);
    assert CallerOk(view, states[m], states[m].callers[c]);
    match states[m].callers[c]
    case AwaitTip(id) =>
      TipIsNoMismatch(view, states, happenings, max, m, id);
      k := ErrorWasAnswered(view, states, happenings, max, m, id);
    case AwaitParams(_, id) => k := ErrorWasAnswered(view, states, happenings, max, m, id);
    case AwaitRecovery(_, r) => k := LossWasAnswered(view, states, happenings, max, m, r);
  }

  /** A mismatch is of a load of some epoch's parameters, never of the tip. */
  lemma MismatchIsOfParams(view: View, states: seq<State>, happenings: seq<Happening>, max: nat, i: nat, id: nat) returns (epoch: nat)
    requires IsHistory(view, states, happenings, max) && i < |states| && id in states[i].mismatched
    ensures id < |states[i].sys.attempts| && states[i].sys.attempts[id].key == ParamsKey(view, epoch)
  {
    var k := MismatchWasAnswered(view, states, happenings, max, i, id);
    epoch := happenings[k].epoch;
    KeysStay(view, states, happenings, max, k, i, id);
  }

  lemma TipIsNoParams(view: View, epoch: nat)
    ensures TipKey(view) != ParamsKey(view, epoch)
  {
    KeysAreApart(view, epoch, epoch);
    assert ParamsPrefix(view) <= ParamsKey(view, epoch);
  }

  lemma TipIsNoMismatch(view: View, states: seq<State>, happenings: seq<Happening>, max: nat, i: nat, id: nat)
    requires IsHistory(view, states, happenings, max) && i < |states|
    requires id < |states[i].sys.attempts| && states[i].sys.attempts[id].key == TipKey(view)
    ensures id !in states[i].mismatched
  {
    if id in states[i].mismatched {
      var epoch := MismatchIsOfParams(view, states, happenings, max, i, id);
      TipIsNoParams(view, epoch);
    }
  }

  lemma StepKeepsKey(s: System<Chain>, e: Event<Chain>, max: nat, id: nat)
    requires Enabled(s, e) && id < |s.attempts|
    ensures id < |Step(s, e, max).attempts| && Step(s, e, max).attempts[id].key == s.attempts[id].key
  {
  }

  lemma NextKeepsKey(view: View, d: State, h: Happening, max: nat, id: nat)
    requires Possible(view, d, h) && id < |d.sys.attempts|
    ensures id < |Next(view, d, h, max).sys.attempts| && Next(view, d, h, max).sys.attempts[id].key == d.sys.attempts[id].key
  {
    match h
    case Call(now) => StepKeepsKey(d.sys, Read(TipKey(view), Policy(TIP_TTL, 0), now), max, id);
    case AskParams(c, now) =>
      StepKeepsKey(d.sys, Read(ParamsKey(view, d.callers[c].tip.epoch), Policy(PROTOCOL_PARAMS_TTL, 0), now), max, id);
    case TipLoaded(i, answer, now) =>
      StepKeepsKey(d.sys, if answer.Some? then LoadOk(i, answer.value, now) else LoadFail(i, now), max, id);
    case ParamsLoaded(i, epoch, answer, now) =>
      StepKeepsKey(d.sys, if answer.Some? && answer.value.epoch == epoch then LoadOk(i, answer.value, now)
                          else LoadFail(i, now), max, id);
    case Elsewhere(e) => StepKeepsKey(d.sys, e, max, id);
    case _ => OthersSettleNothing(view, d, h, max);
  }

  lemma {:induction false} KeysStay(view: View, states: seq<State>, happenings: seq<Happening>, max: nat, from: nat, to: nat, id: nat)
    requires IsHistory(view, states, happenings, max) && from <= to < |states| && id < |states[from].sys.attempts|
    ensures id < |states[to].sys.attempts| && states[to].sys.attempts[id].key == states[from].sys.attempts[id].key
  {
    if from < to {
      var j: nat := to - 1;
      KeysStay(view, states, happenings, max, from, j, id);
      NextKeepsKey(view, states[j], happenings[j], max, id);
    }
  }

  // ----- nobody waits in vain -----

  /** Whatever a caller waits for, it can go on, or an upstream answer that is still to come lets it. */
  lemma NoCallerIsStuck(view: View, states: seq<State>, happenings: seq<Happening>, max: nat, i: nat, c: nat)
    returns (h: Happening)
    requires IsHistory(view, states, happenings, max) && i < |states|
    requires c < |states[i].callers| && !states[i].callers[c].Returned? && states[i].callers[c] != Threw
    ensures Possible(view, states[i], h)
    ensures match states[i].callers[c]
            case AwaitTip(id) => h == TipArrives(c) || (h.TipLoaded? && h.id == id)
            case HasTip(_) => h.AskParams? && h.c == c
            case AwaitParams(_, id) => h == ParamsArrive(c) || (h.ParamsLoaded? && h.id == id)
            case AwaitRecovery(_, r) => h == RecoveryArrives(c) || ((h.RecoveryTip? || h.RecoveryParams?) && h.r == r)
            case _ => false
  {
    HistoryIsSound(view, states, happenings, max, i);
    var d := states[i];
    assert CallerOk(view, d, d.callers[c]);
    match d.callers[c]
    case AwaitTip(id) => h := if Done(d.sys, id) then TipArrives(c) else TipLoaded(id, None, 0);
    case HasTip(_) => h := AskParams(c, 0);
    case AwaitParams(tip, id) => h := if Done(d.sys, id) then ParamsArrive(c) else ParamsLoaded(id, tip.epoch, None, 0);
    case AwaitRecovery(_, r) =>
      assert RecoveryOk(d, r);
      h := match d.recoveries[r].progress
           case FetchTip => RecoveryTip(r, None)
           case FetchParams(_) => RecoveryParams(r, None, 0)
           case _ => RecoveryArrives(c);
  }

  // ----- how long what is read and recovered is kept -----

  /** The tip is read to be kept for ten seconds, an epoch's parameters for six days, neither any longer on errors. */
  lemma ReadsAreKept(view: View, d: State, h: Happening, max: nat)
    requires Possible(view, d, h) && (h.Call? || h.AskParams?)
    requires |Next(view, d, h, max).sys.attempts| > |d.sys.attempts|
    ensures var attempt := Next(view, d, h, max).sys.attempts[|d.sys.attempts|];
            && attempt.phase.Loading?
            && (h.Call? ==> attempt.key == TipKey(view) && attempt.policy == Policy(10_000, 0))
            && (h.AskParams? ==>
                  attempt.key == ParamsKey(view, d.callers[h.c].tip.epoch) && attempt.policy == Policy(518_400_000, 0))
  {
  }

  /** A guarded write whose token passes, while there is room. */
  lemma WriteWithRoom(s: System<Chain>, e: Event<Chain>, max: nat)
    requires Enabled(s, e) && e.SetIf? && s.tokens[e.token].value == Generation(s.cache.log, e.key) && |s.cache.order| < max
    ensures var after := Step(s, e, max);
            && after.tokens == s.tokens && after.cache.log == s.cache.log && |after.cache.order| <= |s.cache.order| + 1
            && after.cache.entries == s.cache.entries[e.key := Entry(e.value, e.now + e.ttl, e.now + e.ttl)]
  {
  }

  /** A recovered pair whose tokens still pass is stored, for as long. */
  lemma PublishStoresPair(view: View, s: System<Chain>, recovery: Recovery, tip: Chain, params: Chain, now: int, max: nat)
    requires recovery.tipToken < |s.tokens| && recovery.paramsToken < |s.tokens| && |s.cache.order| + 2 <= max
    requires s.tokens[recovery.tipToken].value == Generation(s.cache.log, TipKey(view))
    requires s.tokens[recovery.paramsToken].value == Generation(s.cache.log, ParamsKey(view, tip.epoch))
    ensures Publish(view, s, recovery, tip, params, now, max).cache.entries
         == s.cache.entries[TipKey(view) := Entry(tip, now + 10_000, now + 10_000)]
              [ParamsKey(view, tip.epoch) := Entry(params, now + 518_400_000, now + 518_400_000)]
  {
    var first := TipWrite(view, recovery, tip, now);
    WriteWithRoom(s, first, max);
    WriteWithRoom(Step(s, first, max), ParamsWrite(view, recovery, tip, params, now), max);
  }

  lemma CompletionPublishes(view: View, d: State, h: Happening, max: nat)
    requires Completes(view, d, h)
    ensures Next(view, d, h, max).sys
         == Publish(view, d.sys, d.recoveries[h.r], d.recoveries[h.r].progress.tip, h.answer.value, h.now, max)
  {
  }
}
