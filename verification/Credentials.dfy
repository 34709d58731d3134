/**
 Which payment credentials have been used, when a probe only says whether some member of a group has.
 Groups that matched are split until the matching members are known.
 */
module Credentials {
  import opened Common
  import opened WorkerPool

  const CREDENTIAL_PROBE_SIZE: nat := 5
  const CREDENTIAL_PROBE_CONCURRENCY: nat := 4

  /** The upstream's answer about a group, or nothing when the probe failed. */
  type Probe = seq<string> -> Option<bool>

  /** Every probe that succeeds is right about its group. */
  ghost predicate Truthful(probe: Probe, used: string -> bool) {
    forall group :: probe(group).Some? ==> probe(group).value == AnyUsed(group, used)
  }

  ghost predicate AnyUsed(group: seq<string>, used: string -> bool) {
    exists k :: 0 <= k < |group| && used(group[k])
  }

  /** The members that pass a test, in their order. */
  function Filtered(items: seq<string>, keep: string -> bool): seq<string> {
    if items == [] then []
    else if keep(items[0]) then [items[0]] + Filtered(items[1..], keep)
    else Filtered(items[1..], keep)
  }

  lemma {:induction false} FilteredMembers(items: seq<string>, keep: string -> bool, x: string)
    ensures x in Filtered(items, keep) <==> x in items && keep(x)
  {
    if items != [] {
      assert items == [items[0]] + items[1..];
      FilteredMembers(items[1..], keep, x);
    }
  }

  lemma {:induction false} FilteredJoins(a: seq<string>, b: seq<string>, keep: string -> bool)
    ensures Filtered(a + b, keep) == Filtered(a, keep) + Filtered(b, keep)
  {
    if a == [] {
      assert a + b == b;
    } else {
      FilteredJoins(a[1..], b, keep);
      assert (a + b)[1..] == a[1..] + b;
    }
  }

  lemma {:induction false} FilteredNone(items: seq<string>, keep: string -> bool)
    requires forall k :: 0 <= k < |items| ==> !keep(items[k])
    ensures Filtered(items, keep) == []
  {
    if items != [] {
      FilteredNone(items[1..], keep);
    }
  }

  function Half(n: nat): nat {
    (n + 1) / 2
  }

  /** The least number of halvings, rounding up, that reach one: the logarithm to base 2, rounded up. */
  function Log2(n: nat): nat {
    if n <= 1 then 0 else 1 + Log2(Half(n))
  }

  /** Indeed: `n` fits in that many doublings and in no fewer. */
  lemma {:induction false} Log2IsCeiling(n: nat)
    requires n >= 1
    ensures n <= Pow2(Log2(n)) && (n > 1 ==> Pow2(Log2(n) - 1) < n)
  {
    if n > 1 {
      Log2IsCeiling(Half(n));
    }
  }

  lemma {:induction false} Log2Grows(a: nat, b: nat)
    requires a <= b
    ensures Log2(a) <= Log2(b)
  {
    if a > 1 {
      Log2Grows(Half(a), Half(b));
    }
  }

  /** The most probes that splitting takes, with `k` used members and so many levels of halving. */
  function Cost(k: nat, levels: nat): nat {
    1 + 2 * k * levels
  }

  function MostProbes(k: nat, n: nat): nat {
    Cost(k, Log2(n))
  }

  /** Two halves of a matched group cost no more than the bound for the whole. */
  lemma SplitCost(n: nat, inLeft: nat, inRight: nat)
    requires n > 1 && inLeft + inRight >= 1
    ensures 1 + MostProbes(inLeft, Half(n)) + MostProbes(inRight, n / 2) <= MostProbes(inLeft + inRight, n)
  {
    Log2Grows(n / 2, Half(n));
    LevelCost(Log2(Half(n)), Log2(n / 2), inLeft, inRight);
  }

  lemma LevelCost(l: nat, m: nat, a: nat, b: nat)
    requires m <= l && a + b >= 1
    ensures 1 + Cost(a, l) + Cost(b, m) <= Cost(a + b, 1 + l)
  {
    ProductGrows(b, m, l);
    assert (a + b) * (1 + l) == (a + b) + (a * l + b * l);
  }

  lemma ProductGrows(b: nat, m: nat, l: nat)
    requires m <= l
    ensures b * m <= b * l
  {
  }

  /**
   Exactly the used credentials, in their order, unless a probe fails. With `k` used among `n`, no
   more than 1 + 2k * ceil(log2 n) probes.
   */
  method UsedPaymentCredentials(credentials: seq<string>, probe: Probe, ghost used: string -> bool)
    returns (result: Option<seq<string>>, probes: nat)
    ensures (forall group :: probe(group).Some?) ==> result.Some?
    ensures Truthful(probe, used) && result.Some? ==> result.value == Filtered(credentials, used)
    ensures Truthful(probe, used) && result.Some? && credentials != [] ==> probes <= MostProbes(|Filtered(credentials, used)|, |credentials|)
    decreases |credentials|
  {
    if |credentials| == 0 {
      return Some([]), 0;
    }
    var matched := probe(credentials);
    if matched.None? {
      return None, 1;
    }
    if !matched.value {
      if Truthful(probe, used) {
        NoneUsed(credentials, used);
      }
      return Some([]), 1;
    }
    if |credentials| == 1 {
      assert credentials[1..] == [];
      return Some(credentials), 1;
    }
    var middle := (|credentials| + 1) / 2;
    var left, inLeftProbes := UsedPaymentCredentials(credentials[..middle], probe, used);
    if left.None? {
      return None, 1 + inLeftProbes;
    }
    var right, inRightProbes := UsedPaymentCredentials(credentials[middle..], probe, used);
    probes := 1 + inLeftProbes + inRightProbes;
    if right.None? {
      return None, probes;
    }
    result := Some(left.value + right.value);
    if Truthful(probe, used) {
      SplitIsExact(credentials, middle, used, inLeftProbes, inRightProbes);
    }
  }

  lemma NoneUsed(credentials: seq<string>, used: string -> bool)
    requires !AnyUsed(credentials, used)
    ensures Filtered(credentials, used) == []
  {
    FilteredNone(credentials, used);
  }

  lemma SplitFiltered(credentials: seq<string>, middle: nat, used: string -> bool)
    requires middle <= |credentials| && AnyUsed(credentials, used)
    ensures Filtered(credentials, used) == Filtered(credentials[..middle], used) + Filtered(credentials[middle..], used)
    ensures |Filtered(credentials, used)| >= 1
  {
    assert credentials == credentials[..middle] + credentials[middle..];
    FilteredJoins(credentials[..middle], credentials[middle..], used);
    var k :| 0 <= k < |credentials| && used(credentials[k]);
    FilteredMembers(credentials, used, credentials[k]);
  }

  /** The halves' answers and probes make the whole's. */
  lemma SplitIsExact(credentials: seq<string>, middle: nat, used: string -> bool, left: nat, right: nat)
    requires |credentials| > 1 && middle == Half(|credentials|) && AnyUsed(credentials, used)
    requires left <= MostProbes(|Filtered(credentials[..middle], used)|, middle)
    requires right <= MostProbes(|Filtered(credentials[middle..], used)|, |credentials| - middle)
    ensures Filtered(credentials, used) == Filtered(credentials[..middle], used) + Filtered(credentials[middle..], used)
    ensures 1 + left + right <= MostProbes(|Filtered(credentials, used)|, |credentials|)
  {
    SplitFiltered(credentials, middle, used);
    SplitCost(|credentials|, |Filtered(credentials[..middle], used)|, |Filtered(credentials[middle..], used)|);
  }

  // ----- the outer read -----

  /** Where a credential first is, or the number of them all. */
  function FirstIndex(credentials: seq<string>, x: string): (k: nat)
    ensures k <= |credentials| && (k < |credentials| ==> credentials[k] == x)
    ensures forall j :: 0 <= j < k ==> credentials[j] != x
  {
    if credentials == [] || credentials[0] == x then 0 else 1 + FirstIndex(credentials[1..], x)
  }

  /** The credentials without repeats, each where it first was. */
  method Unique(credentials: seq<string>) returns (unique: seq<string>)
    ensures forall x :: x in unique <==> x in credentials
    ensures forall i, j :: 0 <= i < j < |unique| ==> FirstIndex(credentials, unique[i]) < FirstIndex(credentials, unique[j])
  {
    unique := [];
    for i := 0 to |credentials|
      invariant forall x :: x in unique <==> x in credentials[..i]
      invariant forall k :: 0 <= k < |unique| ==> FirstIndex(credentials, unique[k]) < i
      invariant forall k, j :: 0 <= k < j < |unique| ==> FirstIndex(credentials, unique[k]) < FirstIndex(credentials, unique[j])
    {
      assert credentials[..i + 1] == credentials[..i] + [credentials[i]];
      if credentials[i] !in unique {
        FirstHere(credentials, i);
        unique := unique + [credentials[i]];
      }
    }
    assert credentials[..|credentials|] == credentials;
  }

  lemma FirstHere(credentials: seq<string>, i: nat)
    requires i < |credentials| && credentials[i] !in credentials[..i]
    ensures FirstIndex(credentials, credentials[i]) == i
  {
    forall j | 0 <= j < i ensures credentials[j] != credentials[i] {
      assert credentials[j] in credentials[..i];
    }
  }

  /** Groups of the probe size, the last one what is left. */
  method Grouped(unique: seq<string>) returns (groups: seq<seq<string>>)
    ensures Flat(groups, |groups|) == unique
    ensures forall g :: 0 <= g < |groups| ==> 1 <= |groups[g]| <= 5
    ensures forall g :: 0 <= g && g + 1 < |groups| ==> |groups[g]| == 5
  {
    groups := [];
    var start := 0;
    while start < |unique|
      invariant 0 <= start <= |unique| && Flat(groups, |groups|) == unique[..start]
      invariant forall g :: 0 <= g < |groups| ==> 1 <= |groups[g]| <= CREDENTIAL_PROBE_SIZE
      invariant forall g :: 0 <= g < |groups| && (start < |unique| || g + 1 < |groups|) ==> |groups[g]| == CREDENTIAL_PROBE_SIZE
    {
      var end := Min(start + CREDENTIAL_PROBE_SIZE, |unique|);
      FlatOfLonger(groups, unique[start..end], |groups|);
      assert unique[..end] == unique[..start] + unique[start..end];
      groups := groups + [unique[start..end]];
      start := end;
    }
    assert unique[..|unique|] == unique;
  }

  /** Keep the credentials that some group's result names. */
  function Merged(unique: seq<string>, results: seq<seq<string>>): seq<string> {
    Filtered(unique, x => x in Flat(results, |results|))
  }

  /** Merging the groups' results gives exactly the used credentials in their first order. */
  lemma MergedIsUsed(unique: seq<string>, groups: seq<seq<string>>, results: seq<seq<string>>, used: string -> bool)
    requires Flat(groups, |groups|) == unique && |results| == |groups|
    requires forall g :: 0 <= g < |groups| ==> results[g] == Filtered(groups[g], used)
    ensures Merged(unique, results) == Filtered(unique, used)
  {
    FlatResults(groups, results, used, |groups|);
    forall x | x in unique ensures x in Flat(results, |results|) <==> used(x) {
      FilteredMembers(unique, used, x);
    }
    FilteredAlike(unique, x => x in Flat(results, |results|), used);
  }

  lemma {:induction false} FlatResults(groups: seq<seq<string>>, results: seq<seq<string>>, used: string -> bool, n: nat)
    requires n <= |results| == |groups|
    requires forall g :: 0 <= g < |groups| ==> results[g] == Filtered(groups[g], used)
    ensures Flat(results, n) == Filtered(Flat(groups, n), used)
  {
    if n > 0 {
      FlatResults(groups, results, used, n - 1);
      FilteredJoins(Flat(groups, n - 1), groups[n - 1], used);
    }
  }

  lemma {:induction false} FilteredAlike(items: seq<string>, keep: string -> bool, used: string -> bool)
    requires forall x :: x in items ==> (keep(x) <==> used(x))
    ensures Filtered(items, keep) == Filtered(items, used)
  {
    if items != [] {
      assert items[0] in items && forall x :: x in items[1..] ==> x in items;
      FilteredAlike(items[1..], keep, used);
    }
  }

  function Found(p: Pool<seq<string>, string>): (results: seq<seq<string>>)
    requires forall i :: 0 <= i < |p.results| ==> p.results[i].Some?
    ensures |results| == |p.results| && forall i :: 0 <= i < |results| ==> results[i] == p.results[i].value
  {
    seq(|p.results|, i requires 0 <= i < |p.results| => p.results[i].value)
  }

  /**
   In any schedule of the pool that probes the groups, once all runners have finished without a failed
   probe, what is merged is exactly the used credentials in the order of the request.
   */
  lemma AnyScheduleFindsTheUsed(unique: seq<string>, groups: seq<seq<string>>, used: string -> bool,
                                worker: nat -> Outcome<seq<string>, string>, states: seq<Pool<seq<string>, string>>,
                                steps: seq<Step>, k: nat)
    requires Flat(groups, |groups|) == unique
    requires IsRun(states, steps, |groups|, RunnerCount(CREDENTIAL_PROBE_CONCURRENCY, |groups|), false, worker)
    requires forall g: nat :: g < |groups| && worker(g).Resolved? ==> worker(g).value == Filtered(groups[g], used)
    requires k < |states| && AllFinished(states[k]) && states[k].failure.None?
    ensures forall i :: 0 <= i < |states[k].results| ==> states[k].results[i].Some?
    ensures Merged(unique, Found(states[k])) == Filtered(unique, used)
  {
    FinishedIsComplete(states, steps, |groups|, CREDENTIAL_PROBE_CONCURRENCY, false, worker, k);
    forall i | 0 <= i < |states[k].results|
      ensures states[k].results[i].Some? && states[k].results[i].value == Filtered(groups[i], used)
    {
      var g: nat := i;
      assert worker(g).Resolved?;
    }
    MergedIsUsed(unique, groups, Found(states[k]), used);
  }
}
