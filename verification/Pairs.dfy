/// Whole-pair noise rejection and retry in the benchmark comparison
/// (`tools/benchmarks/src/{comparison,sample}.rs`).

module Pairs {
  import opened Results

  datatype Side = Baseline | Candidate

  datatype PairOrder = BaselineFirst | CandidateFirst {
    function Reversed(): PairOrder {
      if this == BaselineFirst then CandidateFirst else BaselineFirst
    }
  }

  datatype TukeyClass = LowerExtreme | LowerMild | Inlier | UpperMild | UpperExtreme

  /** `scenario` is the rank of a scenario and lifecycle in canonical order. */
  datatype RawSample = RawSample(
    pair: nat,
    attempt: nat,
    side: Side,
    pairOrder: PairOrder,
    order: nat,
    scenario: nat,
    cost: real,
    tukey: TukeyClass,
    valid: bool,
    reason: Option<string>
  )

  datatype Described = Described(noisy: bool, classes: seq<TukeyClass>)

  datatype Verdict = Improvement | Neutral | Warning | HardRegression | Noisy | Inconclusive | InvalidComparison

  datatype Estimate = Estimate(median: real, lower: real, upper: real)

  /** The statistics, which are not modelled, and the frozen limits. */
  datatype Config = Config(
    describe: seq<real> -> Result<Described>,
    median: seq<real> -> Result<real>,
    bootstrap: (seq<real>, seq<real>) -> Result<Estimate>,
    classify: Estimate -> Verdict,
    minimumPairs: nat,
    maxRetries: nat
  )

  /** Descriptions class every observation. */
  ghost predicate SoundConfig(config: Config) {
    forall costs :: config.describe(costs).Success? ==> |config.describe(costs).value.classes| == |costs|
  }

  // ----- latest attempts -----

  predicate HasPair(samples: seq<RawSample>, pair: nat) {
    exists i | 0 <= i < |samples| :: samples[i].pair == pair
  }

  ghost predicate LatestOf(samples: seq<RawSample>, pair: nat, attempt: nat) {
    && (exists i | 0 <= i < |samples| :: samples[i].pair == pair && samples[i].attempt == attempt)
    && (forall i | 0 <= i < |samples| && samples[i].pair == pair :: samples[i].attempt <= attempt)
  }

  ghost predicate IsLatest(samples: seq<RawSample>, latest: map<nat, nat>) {
    && (forall pair | pair in latest :: LatestOf(samples, pair, latest[pair]))
    && (forall i | 0 <= i < |samples| :: samples[i].pair in latest)
  }

  method LatestAttempts(samples: seq<RawSample>) returns (latest: map<nat, nat>)
    ensures IsLatest(samples, latest)
  {
    latest := map[];
    for n := 0 to |samples|
      invariant forall pair | pair in latest ::
                  && (exists i | 0 <= i < n :: samples[i].pair == pair && samples[i].attempt == latest[pair])
                  && (forall i | 0 <= i < n && samples[i].pair == pair :: samples[i].attempt <= latest[pair])
      invariant forall i | 0 <= i < n :: samples[i].pair in latest
    {
      var sample := samples[n];
      if sample.pair !in latest || latest[sample.pair] < sample.attempt {
        latest := latest[sample.pair := sample.attempt];
      }
    }
  }

  // ----- groups -----

  datatype GroupKey = GroupKey(pair: nat, scenario: nat)

  datatype Group = Group(baseline: seq<nat>, candidate: seq<nat>, orders: set<PairOrder>)

  /** A sample of its pair's latest attempt. */
  predicate SelectedSample(sample: RawSample, latest: map<nat, nat>) {
    sample.pair in latest && latest[sample.pair] == sample.attempt
  }

  predicate InGroup(sample: RawSample, latest: map<nat, nat>, key: GroupKey) {
    SelectedSample(sample, latest) && sample.pair == key.pair && sample.scenario == key.scenario
  }

  /** Positions of a group's samples on one side, in order. */
  function Positions(samples: seq<RawSample>, latest: map<nat, nat>, key: GroupKey, side: Side, n: nat): (r: seq<nat>)
    requires n <= |samples|
    ensures forall k | 0 <= k < |r| :: r[k] < n && InGroup(samples[r[k]], latest, key) && samples[r[k]].side == side
    ensures forall i | 0 <= i < n && InGroup(samples[i], latest, key) && samples[i].side == side :: i in r
    ensures forall j, k | 0 <= j < k < |r| :: r[j] < r[k]
  {
    if n == 0 then []
    else
      var before := Positions(samples, latest, key, side, n - 1);
      if InGroup(samples[n - 1], latest, key) && samples[n - 1].side == side then before + [n - 1] else before
  }

  function Orders(samples: seq<RawSample>, latest: map<nat, nat>, key: GroupKey, n: nat): set<PairOrder>
    requires n <= |samples|
  {
    set i | 0 <= i < n && InGroup(samples[i], latest, key) :: samples[i].pairOrder
  }

  function GroupOf(samples: seq<RawSample>, latest: map<nat, nat>, key: GroupKey, n: nat): Group
    requires n <= |samples|
  {
    Group(Positions(samples, latest, key, Baseline, n), Positions(samples, latest, key, Candidate, n),
          Orders(samples, latest, key, n))
  }

  predicate HasGroup(samples: seq<RawSample>, latest: map<nat, nat>, key: GroupKey, n: nat)
    requires n <= |samples|
  {
    exists i | 0 <= i < n :: InGroup(samples[i], latest, key)
  }

  ghost predicate Grouped(samples: seq<RawSample>, latest: map<nat, nat>, groups: map<GroupKey, Group>, n: nat)
    requires n <= |samples|
  {
    && (forall key :: key in groups <==> HasGroup(samples, latest, key, n))
    && (forall key | key in groups :: groups[key] == GroupOf(samples, latest, key, n))
  }

  lemma GroupUnchanged(samples: seq<RawSample>, latest: map<nat, nat>, key: GroupKey, n: nat)
    requires n < |samples| && !InGroup(samples[n], latest, key)
    ensures GroupOf(samples, latest, key, n + 1) == GroupOf(samples, latest, key, n)
    ensures HasGroup(samples, latest, key, n + 1) == HasGroup(samples, latest, key, n)
  {
    assert Orders(samples, latest, key, n + 1) == Orders(samples, latest, key, n);
  }

  lemma GroupGrows(samples: seq<RawSample>, latest: map<nat, nat>, key: GroupKey, n: nat)
    requires n < |samples| && InGroup(samples[n], latest, key)
    ensures HasGroup(samples, latest, key, n + 1)
    ensures var group, sample := GroupOf(samples, latest, key, n), samples[n];
            GroupOf(samples, latest, key, n + 1) ==
            Group(if sample.side == Baseline then group.baseline + [n] else group.baseline,
                  if sample.side == Candidate then group.candidate + [n] else group.candidate,
                  group.orders + {sample.pairOrder})
    ensures !HasGroup(samples, latest, key, n) ==> GroupOf(samples, latest, key, n) == Group([], [], {})
  {
    assert Orders(samples, latest, key, n + 1) == Orders(samples, latest, key, n) + {samples[n].pairOrder};
    if !HasGroup(samples, latest, key, n) {
      var group := GroupOf(samples, latest, key, n);
      NoPositions(samples, latest, key, n);
      assert group.orders == {};
    }
  }

  lemma {:induction false} NoPositions(samples: seq<RawSample>, latest: map<nat, nat>, key: GroupKey, n: nat)
    requires n <= |samples| && !HasGroup(samples, latest, key, n)
    ensures Positions(samples, latest, key, Baseline, n) == [] && Positions(samples, latest, key, Candidate, n) == []
  {
    hide InGroup;
    if n > 0 {
      assert !HasGroup(samples, latest, key, n - 1);
      NoPositions(samples, latest, key, n - 1);
    }
  }

  method GroupSelected(samples: seq<RawSample>, latest: map<nat, nat>) returns (groups: map<GroupKey, Group>)
    ensures Grouped(samples, latest, groups, |samples|)
  {
    hide GroupOf, HasGroup, InGroup;
    groups := map[];
    NoGroups(samples, latest);
    for n := 0 to |samples|
      invariant Grouped(samples, latest, groups, n)
    {
      var sample := samples[n];
      forall key | !InGroup(sample, latest, key)
        ensures GroupOf(samples, latest, key, n + 1) == GroupOf(samples, latest, key, n)
        ensures HasGroup(samples, latest, key, n + 1) == HasGroup(samples, latest, key, n)
      {
        GroupUnchanged(samples, latest, key, n);
      }
      InOneGroup(sample, latest);
      if sample.pair !in latest || latest[sample.pair] != sample.attempt {
        continue;
      }
      var key := GroupKey(sample.pair, sample.scenario);
      GroupGrows(samples, latest, key, n);
      var group := if key in groups then groups[key] else Group([], [], {});
      match sample.side {
        case Baseline => group := group.(baseline := group.baseline + [n]);
        case Candidate => group := group.(candidate := group.candidate + [n]);
      }
      groups := groups[key := group.(orders := group.orders + {sample.pairOrder})];
    }
  }

  lemma NoGroups(samples: seq<RawSample>, latest: map<nat, nat>)
    ensures Grouped(samples, latest, map[], 0)
  {
  }

  lemma InOneGroup(sample: RawSample, latest: map<nat, nat>)
    ensures forall key :: InGroup(sample, latest, key) <==>
                          SelectedSample(sample, latest) && key == GroupKey(sample.pair, sample.scenario)
  {
  }

  // ----- what the groups say about their pairs -----

  predicate Complete(group: Group) {
    group.baseline != [] && group.candidate != [] && |group.baseline| == |group.candidate| && |group.orders| == 1
  }

  function CostsAt(samples: seq<RawSample>, positions: seq<nat>): (r: seq<real>)
    requires forall k | 0 <= k < |positions| :: positions[k] < |samples|
    ensures |r| == |positions|
  {
    seq(|positions|, k requires 0 <= k < |positions| => samples[positions[k]].cost)
  }

  predicate InRange(group: Group, n: nat) {
    && (forall k | 0 <= k < |group.baseline| :: group.baseline[k] < n)
    && (forall k | 0 <= k < |group.candidate| :: group.candidate[k] < n)
  }

  /** A complete group with a noisy side. */
  predicate NoisyGroup(config: Config, samples: seq<RawSample>, group: Group)
    requires InRange(group, |samples|)
  {
    && Complete(group)
    && var b := config.describe(CostsAt(samples, group.baseline));
       var c := config.describe(CostsAt(samples, group.candidate));
       b.Success? && c.Success? && (b.value.noisy || c.value.noisy)
  }

  /** Statistics exist for both sides. */
  predicate Describable(config: Config, samples: seq<RawSample>, group: Group)
    requires InRange(group, |samples|)
  {
    && config.describe(CostsAt(samples, group.baseline)).Success?
    && config.describe(CostsAt(samples, group.candidate)).Success?
  }

  ghost predicate InvalidPair(groups: map<GroupKey, Group>, pair: nat) {
    exists key :: key in groups && key.pair == pair && !Complete(groups[key])
  }

  ghost predicate NoisyAt(config: Config, samples: seq<RawSample>, groups: map<GroupKey, Group>, pair: nat,
      scenario: nat)
    requires forall key | key in groups :: InRange(groups[key], |samples|)
  {
    GroupKey(pair, scenario) in groups && NoisyGroup(config, samples, groups[GroupKey(pair, scenario)])
  }

  ghost predicate NoisyPair(config: Config, samples: seq<RawSample>, groups: map<GroupKey, Group>, pair: nat)
    requires forall key | key in groups :: InRange(groups[key], |samples|)
  {
    exists scenario :: NoisyAt(config, samples, groups, pair, scenario)
  }

  datatype NoiseTrigger = NoiseTrigger(scenario: nat, pairOrder: PairOrder)

  /** The first noisy scenario of a pair, with the one order its group ran in. */
  ghost predicate TriggerOf(config: Config, samples: seq<RawSample>, groups: map<GroupKey, Group>, pair: nat,
      trigger: NoiseTrigger)
    requires forall key | key in groups :: InRange(groups[key], |samples|)
  {
    && NoisyAt(config, samples, groups, pair, trigger.scenario)
    && groups[GroupKey(pair, trigger.scenario)].orders == {trigger.pairOrder}
    && forall scenario | NoisyAt(config, samples, groups, pair, scenario) :: trigger.scenario <= scenario
  }

  /** Everything but the class, the validity and the reason: what analysis never changes. */
  predicate SameObservation(a: RawSample, b: RawSample) {
    a == b.(tukey := a.tukey, valid := a.valid, reason := a.reason)
  }

  predicate SameObservations(a: seq<RawSample>, b: seq<RawSample>) {
    |a| == |b| && forall i | 0 <= i < |a| :: SameObservation(a[i], b[i])
  }

  predicate OnlyClasses(a: seq<RawSample>, b: seq<RawSample>) {
    |a| == |b| && forall i | 0 <= i < |a| :: a[i] == b[i].(tukey := a[i].tukey)
  }

  lemma CostsUnchanged(a: seq<RawSample>, b: seq<RawSample>, positions: seq<nat>)
    requires OnlyClasses(a, b) && forall k | 0 <= k < |positions| :: positions[k] < |a|
    ensures CostsAt(a, positions) == CostsAt(b, positions)
  {
  }

  /** The samples of one side carry the classes their description gives them, position by position. */
  predicate SideClassed(config: Config, before: seq<RawSample>, after: seq<RawSample>, positions: seq<nat>)
    requires |after| == |before| && forall k | 0 <= k < |positions| :: positions[k] < |before|
  {
    var described := config.describe(CostsAt(before, positions));
    && described.Success? && |described.value.classes| == |positions|
    && forall k | 0 <= k < |positions| :: after[positions[k]].tukey == described.value.classes[k]
  }

  predicate GroupClassed(config: Config, before: seq<RawSample>, after: seq<RawSample>, group: Group)
    requires |after| == |before| && InRange(group, |before|)
  {
    SideClassed(config, before, after, group.baseline) && SideClassed(config, before, after, group.candidate)
  }

  predicate InSide(group: Group, i: nat) {
    i in group.baseline || i in group.candidate
  }

  /** Every complete group among `keys` is classed, and no other sample changes its class. */
  ghost predicate Classed(config: Config, before: seq<RawSample>, after: seq<RawSample>, groups: map<GroupKey, Group>,
      keys: set<GroupKey>)
    requires keys <= groups.Keys && forall key | key in groups :: InRange(groups[key], |before|)
  {
    && |after| == |before|
    && (forall key | key in keys && Complete(groups[key]) :: GroupClassed(config, before, after, groups[key]))
    && (forall i | 0 <= i < |before|
        && (forall key | key in keys && Complete(groups[key]) :: !InSide(groups[key], i)) ::
          after[i].tukey == before[i].tukey)
  }

  /** No sample is in two groups, or twice in one. */
  ghost predicate Separate(groups: map<GroupKey, Group>) {
    && (forall key, other, i | key in groups && other in groups && key != other ::
          !(InSide(groups[key], i) && InSide(groups[other], i)))
    && (forall key | key in groups :: SeparateSides(groups[key]))
  }

  predicate SeparateSides(group: Group) {
    && Ascending(group.baseline) && Ascending(group.candidate)
    && forall i | i in group.baseline :: i !in group.candidate
  }

  lemma GroupsSeparate(samples: seq<RawSample>, latest: map<nat, nat>, groups: map<GroupKey, Group>)
    requires Grouped(samples, latest, groups, |samples|)
    ensures Separate(groups)
  {
    hide Positions, Orders, HasGroup;
    forall key, i: nat | key in groups && InSide(groups[key], i)
      ensures i < |samples| && key == GroupKey(samples[i].pair, samples[i].scenario)
      ensures i in groups[key].baseline ==> samples[i].side == Baseline
      ensures i in groups[key].candidate ==> samples[i].side == Candidate
    {
      assert groups[key] == GroupOf(samples, latest, key, |samples|);
    }
    forall key | key in groups ensures SeparateSides(groups[key]) {
      assert groups[key] == GroupOf(samples, latest, key, |samples|);
    }
  }

  lemma NothingClassed(config: Config, samples: seq<RawSample>, groups: map<GroupKey, Group>)
    requires forall key | key in groups :: InRange(groups[key], |samples|)
    ensures Classed(config, samples, samples, groups, {})
  {
  }

  lemma SkippedClassed(config: Config, before: seq<RawSample>, after: seq<RawSample>, groups: map<GroupKey, Group>,
      keys: set<GroupKey>, key: GroupKey)
    requires keys <= groups.Keys && key in groups && !Complete(groups[key])
    requires forall key | key in groups :: InRange(groups[key], |before|)
    requires Classed(config, before, after, groups, keys)
    ensures Classed(config, before, after, groups, keys + {key})
  {
    hide GroupClassed;
  }

  /** Only the classes of these positions changed. */
  predicate ChangedAt(now: seq<RawSample>, was: seq<RawSample>, positions: seq<nat>) {
    |now| == |was| && forall i | 0 <= i < |now| && i !in positions :: now[i] == was[i]
  }

  /** The samples of another group keep their classes. */
  lemma OthersKeepClass(config: Config, before: seq<RawSample>, now: seq<RawSample>, after: seq<RawSample>,
      positions: seq<nat>, changed: seq<nat>)
    requires |after| == |now| == |before| && ChangedAt(after, now, changed)
    requires forall k | 0 <= k < |positions| :: positions[k] < |before| && positions[k] !in changed
    requires SideClassed(config, before, now, positions)
    ensures SideClassed(config, before, after, positions)
  {
    hide CostsAt;
  }

  lemma GroupKeepsClass(config: Config, before: seq<RawSample>, now: seq<RawSample>, after: seq<RawSample>,
      group: Group, changed: seq<nat>)
    requires |after| == |now| == |before| && ChangedAt(after, now, changed)
    requires InRange(group, |before|) && GroupClassed(config, before, now, group)
    requires forall i | i in changed :: !InSide(group, i)
    ensures GroupClassed(config, before, after, group)
  {
    hide SideClassed;
    forall k | 0 <= k < |group.baseline| ensures group.baseline[k] !in changed {
      assert group.baseline[k] in group.baseline;
    }
    forall k | 0 <= k < |group.candidate| ensures group.candidate[k] !in changed {
      assert group.candidate[k] in group.candidate;
    }
    OthersKeepClass(config, before, now, after, group.baseline, changed);
    OthersKeepClass(config, before, now, after, group.candidate, changed);
  }

  /** Classing one more group leaves the groups before it classed. */
  lemma ClassedStep(config: Config, before: seq<RawSample>, now: seq<RawSample>, after: seq<RawSample>,
      groups: map<GroupKey, Group>, keys: set<GroupKey>, key: GroupKey)
    requires keys <= groups.Keys && key in groups && key !in keys && Separate(groups)
    requires forall key | key in groups :: InRange(groups[key], |before|)
    requires Classed(config, before, now, groups, keys)
    requires |after| == |before| && ChangedAt(after, now, groups[key].baseline + groups[key].candidate)
    requires Complete(groups[key]) && GroupClassed(config, before, after, groups[key])
    ensures Classed(config, before, after, groups, keys + {key})
  {
    hide GroupClassed, SeparateSides;
    var changed := groups[key].baseline + groups[key].candidate;
    forall other | other in keys && Complete(groups[other]) ensures GroupClassed(config, before, after, groups[other]) {
      forall i | i in changed ensures !InSide(groups[other], i) { assert InSide(groups[key], i); }
      GroupKeepsClass(config, before, now, after, groups[other], changed);
    }
    forall i: nat | i < |before|
      && (forall other | other in keys + {key} && Complete(groups[other]) :: !InSide(groups[other], i))
      ensures after[i].tukey == before[i].tukey
    {
      assert !InSide(groups[key], i);
      assert i !in changed;
      assert now[i].tukey == before[i].tukey;
    }
  }

  predicate Ascending(pairs: seq<nat>) {
    forall i, j | 0 <= i < j < |pairs| :: pairs[i] < pairs[j]
  }

  predicate KeyBefore(a: GroupKey, b: GroupKey) {
    a.pair < b.pair || (a.pair == b.pair && a.scenario < b.scenario)
  }

  /** The first key in map order. */
  method FirstKey(keys: set<GroupKey>) returns (first: GroupKey)
    requires keys != {}
    ensures first in keys && forall key | key in keys && key != first :: KeyBefore(first, key)
  {
    first :| first in keys;
    var left := keys - {first};
    while left != {}
      invariant first in keys && left <= keys
      invariant forall key | key in keys && key !in left && key != first :: KeyBefore(first, key)
      decreases |left|
    {
      var key :| key in left;
      left := left - {key};
      if KeyBefore(key, first) {
        first := key;
      }
    }
  }

  method FirstNumber(numbers: set<nat>) returns (first: nat)
    requires numbers != {}
    ensures first in numbers && forall n | n in numbers :: first <= n
  {
    first :| first in numbers;
    var left := numbers - {first};
    while left != {}
      invariant first in numbers && left <= numbers
      invariant forall n | n in numbers && n !in left :: first <= n
      decreases |left|
    {
      var n :| n in left;
      left := left - {n};
      if n < first {
        first := n;
      }
    }
  }

  datatype RetryRequest = RetryRequest(pair: nat, rejectedAttempt: nat, retryAttempt: nat, pairOrder: PairOrder,
                                       scenario: nat)

  datatype Findings = Findings(noise: map<nat, NoiseTrigger>, invalid: set<nat>)

  ghost predicate FindingsSound(config: Config, samples: seq<RawSample>, groups: map<GroupKey, Group>,
      findings: Findings)
    requires forall key | key in groups :: InRange(groups[key], |samples|)
  {
    && (forall pair :: pair in findings.invalid <==> InvalidPair(groups, pair))
    && (forall pair :: pair in findings.noise <==> NoisyPair(config, samples, groups, pair))
    && (forall pair | pair in findings.noise :: TriggerOf(config, samples, groups, pair, findings.noise[pair]))
  }

  /** The findings over the groups that are not left, which come before those that are. */
  ghost predicate InspectedSoFar(config: Config, samples: seq<RawSample>, groups: map<GroupKey, Group>,
      left: set<GroupKey>, noise: map<nat, NoiseTrigger>, invalid: set<nat>)
    requires forall key | key in groups :: InRange(groups[key], |samples|)
  {
    && (forall seen, key | seen in groups && seen !in left && key in left :: KeyBefore(seen, key))
    && (forall pair :: pair in invalid <==>
          exists key :: key in groups && key !in left && key.pair == pair && !Complete(groups[key]))
    && (forall pair :: pair in noise <==>
          exists scenario :: GroupKey(pair, scenario) !in left && NoisyAt(config, samples, groups, pair, scenario))
    && (forall pair | pair in noise ::
          && GroupKey(pair, noise[pair].scenario) !in left
          && TriggerOf(config, samples, groups, pair, noise[pair]))
  }

  lemma InspectedNone(config: Config, samples: seq<RawSample>, groups: map<GroupKey, Group>)
    requires forall key | key in groups :: InRange(groups[key], |samples|)
    ensures InspectedSoFar(config, samples, groups, groups.Keys, map[], {})
  {
    hide NoisyGroup, Complete, TriggerOf;
  }

  lemma InspectedAll(config: Config, samples: seq<RawSample>, groups: map<GroupKey, Group>,
      noise: map<nat, NoiseTrigger>, invalid: set<nat>)
    requires forall key | key in groups :: InRange(groups[key], |samples|)
    requires InspectedSoFar(config, samples, groups, {}, noise, invalid)
    ensures FindingsSound(config, samples, groups, Findings(noise, invalid))
  {
    hide NoisyGroup, Complete, TriggerOf;
  }

  /** The first key that is left. */
  predicate IsNext(left: set<GroupKey>, key: GroupKey) {
    key in left && forall k | k in left && k != key :: KeyBefore(key, k)
  }

  lemma InspectedInvalid(config: Config, samples: seq<RawSample>, groups: map<GroupKey, Group>, left: set<GroupKey>,
      noise: map<nat, NoiseTrigger>, invalid: set<nat>, key: GroupKey)
    requires forall key | key in groups :: InRange(groups[key], |samples|)
    requires InspectedSoFar(config, samples, groups, left, noise, invalid)
    requires left <= groups.Keys && IsNext(left, key) && !Complete(groups[key])
    ensures InspectedSoFar(config, samples, groups, left - {key}, noise, invalid + {key.pair})
  {
    hide TriggerOf, Complete;
    assert !NoisyGroup(config, samples, groups[key]);
    hide NoisyGroup;
  }

  /** A complete group that is quiet, or whose pair is already known to be noisy, adds nothing. */
  lemma InspectedKnown(config: Config, samples: seq<RawSample>, groups: map<GroupKey, Group>, left: set<GroupKey>,
      noise: map<nat, NoiseTrigger>, invalid: set<nat>, key: GroupKey)
    requires forall key | key in groups :: InRange(groups[key], |samples|)
    requires InspectedSoFar(config, samples, groups, left, noise, invalid)
    requires left <= groups.Keys && IsNext(left, key) && Complete(groups[key])
    requires NoisyGroup(config, samples, groups[key]) ==> key.pair in noise
    ensures InspectedSoFar(config, samples, groups, left - {key}, noise, invalid)
  {
    hide TriggerOf, Complete, NoisyGroup;
  }

  lemma InspectedNoisy(config: Config, samples: seq<RawSample>, groups: map<GroupKey, Group>, left: set<GroupKey>,
      noise: map<nat, NoiseTrigger>, invalid: set<nat>, key: GroupKey, order: PairOrder)
    requires forall key | key in groups :: InRange(groups[key], |samples|)
    requires InspectedSoFar(config, samples, groups, left, noise, invalid)
    requires left <= groups.Keys && IsNext(left, key) && Complete(groups[key]) && order in groups[key].orders
    requires NoisyGroup(config, samples, groups[key]) && key.pair !in noise
    ensures InspectedSoFar(config, samples, groups, left - {key}, noise[key.pair := NoiseTrigger(key.scenario, order)],
                           invalid)
  {
    OnlyMember(groups[key].orders, order);
    hide Complete, NoisyGroup;
    assert key == GroupKey(key.pair, key.scenario);
    FirstIsTrigger(config, samples, groups, left, key, order);
    hide TriggerOf;
    assert NoisyAt(config, samples, groups, key.pair, key.scenario);
  }

  // ----- the collection -----

  class OrderedRawSamples {
    var samples: seq<RawSample>

    constructor (samples: seq<RawSample>)
      ensures this.samples == samples
    {
      this.samples := samples;
    }

    /** Each position gets its class, and nothing else changes. */
    method AssignTukey(positions: seq<nat>, classes: seq<TukeyClass>)
      requires |positions| == |classes| && forall k | 0 <= k < |positions| :: positions[k] < |samples|
      requires Ascending(positions)
      modifies this
      ensures OnlyClasses(samples, old(samples)) && ChangedAt(samples, old(samples), positions)
      ensures forall k | 0 <= k < |positions| :: samples[positions[k]].tukey == classes[k]
    {
      for k := 0 to |positions|
        invariant OnlyClasses(samples, old(samples))
        invariant ChangedAt(samples, old(samples), positions)
        invariant forall j | 0 <= j < k :: samples[positions[j]].tukey == classes[j]
      {
        samples := samples[positions[k] := samples[positions[k]].(tukey := classes[k])];
      }
    }

    /** Rejects every sample of one attempt of one pair, and no other. */
    method RejectPairAttempt(pair: nat, attempt: nat, reason: string)
      modifies this
      ensures |samples| == |old(samples)|
      ensures forall i | 0 <= i < |samples| ::
                samples[i] == if old(samples)[i].pair == pair && old(samples)[i].attempt == attempt
                              then old(samples)[i].(valid := false, reason := Some(reason)) else old(samples)[i]
    {
      for i := 0 to |samples|
        invariant |samples| == |old(samples)|
        invariant forall k | i <= k < |samples| :: samples[k] == old(samples)[k]
        invariant forall k | 0 <= k < i ::
                    samples[k] == if old(samples)[k].pair == pair && old(samples)[k].attempt == attempt
                                  then old(samples)[k].(valid := false, reason := Some(reason)) else old(samples)[k]
      {
        if samples[i].pair == pair && samples[i].attempt == attempt {
          samples := samples[i := samples[i].(valid := false, reason := Some(reason))];
        }
      }
    }

    /** Rejects the selected attempt of every pair of a set. */
    method RejectPairs(pairs: set<nat>, latest: map<nat, nat>, reason: string)
      requires forall pair | pair in pairs :: pair in latest
      modifies this
      ensures |samples| == |old(samples)|
      ensures forall i | 0 <= i < |samples| ::
                samples[i] == if old(samples)[i].pair in pairs && SelectedSample(old(samples)[i], latest)
                              then old(samples)[i].(valid := false, reason := Some(reason)) else old(samples)[i]
    {
      var left := pairs;
      while left != {}
        invariant left <= pairs && |samples| == |old(samples)|
        invariant forall i | 0 <= i < |samples| ::
                    samples[i] == if old(samples)[i].pair in pairs - left && SelectedSample(old(samples)[i], latest)
                                  then old(samples)[i].(valid := false, reason := Some(reason)) else old(samples)[i]
        decreases |left|
      {
        var pair := FirstNumber(left);
        RejectPairAttempt(pair, latest[pair], reason);
        left := left - {pair};
      }
    }

    /** Describes both sides of a complete group and classes its samples; says whether a side is noisy. */
    method ClassGroup(config: Config, group: Group, ghost before: seq<RawSample>) returns (noisy: Result<bool>)
      requires SoundConfig(config) && OnlyClasses(samples, before)
      requires InRange(group, |samples|) && Complete(group) && SeparateSides(group)
      modifies this
      ensures OnlyClasses(samples, before) && |samples| == |before|
      ensures noisy.Success? <==> Describable(config, before, group)
      ensures noisy.Success? ==> (noisy.value <==> NoisyGroup(config, before, group))
      ensures noisy.Success? ==> GroupClassed(config, before, samples, group)
      ensures noisy.Success? ==> ChangedAt(samples, old(samples), group.baseline + group.candidate)
    {
      CostsUnchanged(samples, before, group.baseline);
      CostsUnchanged(samples, before, group.candidate);
      SameLength(samples, before);
      hide OnlyClasses, CostsAt, GroupClassed, ChangedAt;
      var baseline := config.describe(CostsAt(samples, group.baseline));
      if baseline.Failure? {
        return Failure(baseline.code);
      }
      var candidate := config.describe(CostsAt(samples, group.candidate));
      if candidate.Failure? {
        return Failure(candidate.code);
      }
      ghost var now := samples;
      AssignTukey(group.baseline, baseline.value.classes);
      ghost var half := samples;
      SameLength(samples, now);
      AssignTukey(group.candidate, candidate.value.classes);
      SameLength(samples, half);
      ClassesCompose(samples, half, now, before);
      BothClassed(config, before, now, half, samples, group, baseline.value.classes, candidate.value.classes);
      return Success(baseline.value.noisy || candidate.value.noisy);
    }

    /** One pass over the groups in key order: classes are assigned, incomplete and noisy pairs are found. */
    method InspectGroups(config: Config, groups: map<GroupKey, Group>) returns (r: Result<Findings>)
      requires SoundConfig(config) && forall key | key in groups :: InRange(groups[key], |samples|)
      requires Separate(groups)
      modifies this
      ensures OnlyClasses(samples, old(samples))
      ensures r.Success? <==>
                forall key | key in groups && Complete(groups[key]) :: Describable(config, old(samples), groups[key])
      ensures r.Success? ==> FindingsSound(config, old(samples), groups, r.value)
      ensures r.Success? ==> Classed(config, old(samples), samples, groups, groups.Keys)
    {
      ghost var before := samples;
      var noise: map<nat, NoiseTrigger> := map[];
      var invalid: set<nat> := {};
      var left := groups.Keys;
      NothingClassed(config, before, groups);
      InspectedNone(config, before, groups);
      while left != {}
        invariant left <= groups.Keys && OnlyClasses(samples, before)
        invariant Classed(config, before, samples, groups, groups.Keys - left)
        invariant InspectedSoFar(config, before, groups, left, noise, invalid)
        invariant forall key | key in groups && key !in left && Complete(groups[key]) ::
                    Describable(config, before, groups[key])
        decreases |left|
      {
        hide OnlyClasses, Classed, Separate, Describable, GroupClassed, ChangedAt, NoisyGroup, InspectedSoFar;
        var key := FirstKey(left);
        var group := groups[key];
        assert groups.Keys - (left - {key}) == (groups.Keys - left) + {key};
        if group.baseline == [] || group.candidate == [] || |group.baseline| != |group.candidate|
           || |group.orders| != 1 {
          SkippedClassed(config, before, samples, groups, groups.Keys - left, key);
          InspectedInvalid(config, before, groups, left, noise, invalid, key);
          invalid := invalid + {key.pair};
          left := left - {key};
          continue;
        }
        ghost var now := samples;
        SidesSeparate(groups, key);
        var noisy := ClassGroup(config, group, before);
        if noisy.Failure? {
          return Failure(noisy.code);
        }
        SameLength(samples, before);
        ClassedStep(config, before, now, samples, groups, groups.Keys - left, key);
        if noisy.value && key.pair !in noise {
          var order :| order in group.orders;
          InspectedNoisy(config, before, groups, left, noise, invalid, key, order);
          noise := noise[key.pair := NoiseTrigger(key.scenario, order)];
        } else {
          InspectedKnown(config, before, groups, left, noise, invalid, key);
        }
        left := left - {key};
      }
      InspectedAll(config, before, groups, noise, invalid);
      return Success(Findings(noise, invalid));
    }
  }

  lemma SameLength(a: seq<RawSample>, b: seq<RawSample>)
    requires OnlyClasses(a, b)
    ensures |a| == |b|
  {
  }

  lemma ClassesCompose(a: seq<RawSample>, b: seq<RawSample>, c: seq<RawSample>, d: seq<RawSample>)
    requires OnlyClasses(a, b) && OnlyClasses(b, c) && OnlyClasses(c, d)
    ensures OnlyClasses(a, d)
  {
  }

  lemma SidesSeparate(groups: map<GroupKey, Group>, key: GroupKey)
    requires Separate(groups) && key in groups
    ensures SeparateSides(groups[key])
  {
  }

  /** Classing one side and then the other classes the group. */
  lemma BothClassed(config: Config, before: seq<RawSample>, now: seq<RawSample>, half: seq<RawSample>,
      after: seq<RawSample>, group: Group, baseline: seq<TukeyClass>, candidate: seq<TukeyClass>)
    requires |before| == |now| == |half| == |after| && InRange(group, |before|) && SeparateSides(group)
    requires ChangedAt(half, now, group.baseline) && ChangedAt(after, half, group.candidate)
    requires var b := config.describe(CostsAt(before, group.baseline)); b.Success? && b.value.classes == baseline
    requires var c := config.describe(CostsAt(before, group.candidate)); c.Success? && c.value.classes == candidate
    requires |baseline| == |group.baseline| && |candidate| == |group.candidate|
    requires forall k | 0 <= k < |baseline| :: half[group.baseline[k]].tukey == baseline[k]
    requires forall k | 0 <= k < |candidate| :: after[group.candidate[k]].tukey == candidate[k]
    ensures GroupClassed(config, before, after, group)
    ensures ChangedAt(after, now, group.baseline + group.candidate)
  {
    hide CostsAt;
    forall k | 0 <= k < |baseline| ensures after[group.baseline[k]].tukey == baseline[k] {
      assert group.baseline[k] in group.baseline;
    }
  }

  lemma OnlyMember(orders: set<PairOrder>, order: PairOrder)
    requires |orders| == 1 && order in orders
    ensures orders == {order}
  {
    assert |orders - {order}| == 0;
    assert orders == (orders - {order}) + {order};
  }

  /** Keys come in order, so the first noisy scenario met is the least. */
  lemma FirstIsTrigger(config: Config, samples: seq<RawSample>, groups: map<GroupKey, Group>, left: set<GroupKey>,
      key: GroupKey, order: PairOrder)
    requires forall k | k in groups :: InRange(groups[k], |samples|)
    requires key in left && NoisyAt(config, samples, groups, key.pair, key.scenario) && groups[key].orders == {order}
    requires forall k | k in left && k != key :: KeyBefore(key, k)
    requires !exists scenario ::
               GroupKey(key.pair, scenario) !in left && NoisyAt(config, samples, groups, key.pair, scenario)
    ensures TriggerOf(config, samples, groups, key.pair, NoiseTrigger(key.scenario, order))
  {
    hide NoisyGroup;
    forall scenario | NoisyAt(config, samples, groups, key.pair, scenario) ensures key.scenario <= scenario {
      assert GroupKey(key.pair, scenario) in left;
    }
  }

  // ----- retries -----

  predicate Requested(retries: seq<RetryRequest>, pair: nat) {
    exists i | 0 <= i < |retries| :: retries[i].pair == pair
  }

  lemma RequestedMore(retries: seq<RetryRequest>, request: RetryRequest)
    ensures Requested(retries + [request], request.pair)
    ensures forall pair | Requested(retries, pair) :: Requested(retries + [request], pair)
  {
    var more := retries + [request];
    assert more[|retries|] == request;
    forall pair | Requested(retries, pair) ensures Requested(more, pair) {
      var i :| 0 <= i < |retries| && retries[i].pair == pair;
      assert more[i].pair == pair;
    }
  }

  /** One reversed-order retry for every noisy pair that has a retry left, in pair order; the others are exhausted. */
  ghost predicate RetriesFor(config: Config, latest: map<nat, nat>, noise: map<nat, NoiseTrigger>,
      retries: seq<RetryRequest>, exhausted: set<nat>)
    requires forall pair | pair in noise :: pair in latest
  {
    && (forall pair :: pair in exhausted <==> pair in noise && latest[pair] >= config.maxRetries)
    && (forall i, j | 0 <= i < j < |retries| :: retries[i].pair < retries[j].pair)
    && (forall i | 0 <= i < |retries| ::
          var pair := retries[i].pair;
          && pair in noise && latest[pair] < config.maxRetries
          && retries[i].rejectedAttempt == latest[pair] && retries[i].retryAttempt == latest[pair] + 1
          && retries[i].pairOrder != noise[pair].pairOrder && retries[i].scenario == noise[pair].scenario)
    && (forall pair | pair in noise && latest[pair] < config.maxRetries :: Requested(retries, pair))
  }

  method PlanRetries(config: Config, latest: map<nat, nat>, noise: map<nat, NoiseTrigger>)
    returns (retries: seq<RetryRequest>, exhausted: set<nat>)
    requires forall pair | pair in noise :: pair in latest
    ensures RetriesFor(config, latest, noise, retries, exhausted)
  {
    hide Requested;
    retries, exhausted := [], {};
    var left := noise.Keys;
    while left != {}
      invariant left <= noise.Keys
      invariant forall seen, pair | seen in noise && seen !in left && pair in left :: seen < pair
      invariant forall pair :: pair in exhausted <==>
                  pair in noise && pair !in left && latest[pair] >= config.maxRetries
      invariant forall i, j | 0 <= i < j < |retries| :: retries[i].pair < retries[j].pair
      invariant forall i | 0 <= i < |retries| ::
                  var pair := retries[i].pair;
                  && pair in noise && pair !in left && latest[pair] < config.maxRetries
                  && retries[i] == RetryRequest(pair, latest[pair], latest[pair] + 1, noise[pair].pairOrder.Reversed(),
                                                noise[pair].scenario)
      invariant forall pair | pair in noise && pair !in left && latest[pair] < config.maxRetries ::
                  Requested(retries, pair)
      decreases |left|
    {
      var pair := FirstNumber(left);
      var attempt := latest[pair];
      if attempt < config.maxRetries {
        var request := RetryRequest(pair, attempt, attempt + 1, noise[pair].pairOrder.Reversed(), noise[pair].scenario);
        RequestedMore(retries, request);
        retries := retries + [request];
      } else {
        exhausted := exhausted + {pair};
      }
      left := left - {pair};
    }
  }

  /** Every noisy pair is retried or exhausted. */
  lemma NoisySettled(config: Config, latest: map<nat, nat>, noise: map<nat, NoiseTrigger>, retries: seq<RetryRequest>,
      exhausted: set<nat>)
    requires forall pair | pair in noise :: pair in latest
    requires RetriesFor(config, latest, noise, retries, exhausted)
    ensures retries != [] || exhausted != {} <==> noise != map[]
  {
    assert retries == [] || retries[0].pair in noise;
    if noise != map[] {
      var pair :| pair in noise;
      assert pair in exhausted || Requested(retries, pair);
    }
  }

  // ----- comparisons -----

  datatype PairCosts = PairCosts(baseline: seq<real>, candidate: seq<real>, attempts: set<nat>)

  datatype RetryStatus = NotNeeded | Retried | Required | Exhausted

  datatype PairedComparison = PairedComparison(
    scenario: nat,
    pairCount: nat,
    estimate: Option<Estimate>,
    classification: Verdict,
    retryStatus: RetryStatus
  )

  predicate Counts(sample: RawSample, key: GroupKey) {
    sample.valid && sample.pair == key.pair && sample.scenario == key.scenario
  }

  /** Costs of the valid samples of a pair on one side, in order. */
  function ValidCosts(samples: seq<RawSample>, key: GroupKey, side: Side, n: nat): seq<real>
    requires n <= |samples|
  {
    if n == 0 then []
    else
      var before := ValidCosts(samples, key, side, n - 1);
      if Counts(samples[n - 1], key) && samples[n - 1].side == side then before + [samples[n - 1].cost] else before
  }

  function Attempts(samples: seq<RawSample>, key: GroupKey, n: nat): set<nat>
    requires n <= |samples|
  {
    set i | 0 <= i < n && Counts(samples[i], key) :: samples[i].attempt
  }

  function CostsOf(samples: seq<RawSample>, key: GroupKey, n: nat): PairCosts
    requires n <= |samples|
  {
    PairCosts(ValidCosts(samples, key, Baseline, n), ValidCosts(samples, key, Candidate, n), Attempts(samples, key, n))
  }

  ghost predicate CostsGrouped(samples: seq<RawSample>, grouped: map<GroupKey, PairCosts>, n: nat)
    requires n <= |samples|
  {
    && (forall key :: key in grouped <==> exists i | 0 <= i < n :: Counts(samples[i], key))
    && (forall key | key in grouped :: grouped[key] == CostsOf(samples, key, n))
  }

  lemma CostsStep(samples: seq<RawSample>, key: GroupKey, n: nat)
    requires n < |samples|
    ensures var before, sample := CostsOf(samples, key, n), samples[n];
            CostsOf(samples, key, n + 1) ==
            if !Counts(sample, key) then before
            else PairCosts(if sample.side == Baseline then before.baseline + [sample.cost] else before.baseline,
                           if sample.side == Candidate then before.candidate + [sample.cost] else before.candidate,
                           before.attempts + {sample.attempt})
    ensures (forall i | 0 <= i < n :: !Counts(samples[i], key)) ==> CostsOf(samples, key, n) == PairCosts([], [], {})
  {
    assert Attempts(samples, key, n + 1)
      == Attempts(samples, key, n) + (if Counts(samples[n], key) then {samples[n].attempt} else {});
    if forall i | 0 <= i < n :: !Counts(samples[i], key) {
      NoCosts(samples, key, n);
      assert Attempts(samples, key, n) == {};
    }
  }

  lemma {:induction false} NoCosts(samples: seq<RawSample>, key: GroupKey, n: nat)
    requires n <= |samples| && forall i | 0 <= i < n :: !Counts(samples[i], key)
    ensures ValidCosts(samples, key, Baseline, n) == [] && ValidCosts(samples, key, Candidate, n) == []
  {
    if n > 0 {
      NoCosts(samples, key, n - 1);
    }
  }

  method GroupCosts(samples: seq<RawSample>) returns (grouped: map<GroupKey, PairCosts>, scenarios: set<nat>)
    ensures CostsGrouped(samples, grouped, |samples|)
    ensures forall scenario :: scenario in scenarios <==>
              exists i | 0 <= i < |samples| :: samples[i].scenario == scenario
  {
    hide CostsOf;
    grouped, scenarios := map[], {};
    for n := 0 to |samples|
      invariant CostsGrouped(samples, grouped, n)
      invariant forall scenario :: scenario in scenarios <==> exists i | 0 <= i < n :: samples[i].scenario == scenario
    {
      var sample := samples[n];
      scenarios := scenarios + {sample.scenario};
      forall key ensures CostsOf(samples, key, n + 1) == CostsOf(samples, key, n) || Counts(sample, key) {
        CostsStep(samples, key, n);
      }
      if !sample.valid {
        continue;
      }
      var key := GroupKey(sample.pair, sample.scenario);
      CostsStep(samples, key, n);
      var costs := if key in grouped then grouped[key] else PairCosts([], [], {});
      match sample.side {
        case Baseline => costs := costs.(baseline := costs.baseline + [sample.cost]);
        case Candidate => costs := costs.(candidate := costs.candidate + [sample.cost]);
      }
      grouped := grouped[key := costs.(attempts := costs.attempts + {sample.attempt})];
    }
  }

  /** Both sides present, all from one attempt. */
  predicate WellPaired(costs: PairCosts) {
    costs.baseline != [] && costs.candidate != [] && |costs.attempts| == 1
  }

  /** The well-paired pairs of a scenario in order, with the medians of both sides. */
  ghost predicate Paired(config: Config, grouped: map<GroupKey, PairCosts>, scenario: nat, pairs: seq<nat>,
      baseline: seq<real>, candidate: seq<real>)
  {
    && |pairs| == |baseline| == |candidate| && Ascending(pairs)
    && (forall pair :: pair in pairs <==>
        GroupKey(pair, scenario) in grouped && WellPaired(grouped[GroupKey(pair, scenario)]))
    && forall k | 0 <= k < |pairs| ::
         && GroupKey(pairs[k], scenario) in grouped
         && var costs := grouped[GroupKey(pairs[k], scenario)];
            config.median(costs.baseline) == Success(baseline[k])
              && config.median(costs.candidate) == Success(candidate[k])
  }

  ghost predicate AllWellPaired(grouped: map<GroupKey, PairCosts>, scenario: nat) {
    forall key | key in grouped && key.scenario == scenario :: WellPaired(grouped[key])
  }

  /** Both sides of every complete pair of a scenario have a median. */
  ghost predicate MediansGiven(config: Config, grouped: map<GroupKey, PairCosts>, scenario: nat) {
    forall key | key in grouped && key.scenario == scenario && WellPaired(grouped[key]) ::
      HaveMedians(config, grouped[key])
  }

  predicate HaveMedians(config: Config, costs: PairCosts) {
    config.median(costs.baseline).Success? && config.median(costs.candidate).Success?
  }

  /** The estimate of a scenario is due, and the statistics give none. */
  ghost predicate Unestimated(config: Config, grouped: map<GroupKey, PairCosts>, scenario: nat) {
    exists pairs, baseline, candidate ::
      && Paired(config, grouped, scenario, pairs, baseline, candidate)
      && |pairs| >= config.minimumPairs && config.bootstrap(baseline, candidate).Failure?
  }

  /**
   * An estimate is given exactly when nothing is pending, exhausted or invalid, every pair is
   * complete within one attempt, and there are enough pairs; it is then over the medians of all pairs.
   */
  ghost predicate ComparisonSound(config: Config, grouped: map<GroupKey, PairCosts>, pending: bool, exhausted: bool,
      invalid: bool, c: PairedComparison)
  {
    exists pairs, baseline, candidate ::
      && Paired(config, grouped, c.scenario, pairs, baseline, candidate)
      && c.pairCount == |pairs|
      && (c.estimate.Some? <==>
          !pending && !exhausted && !invalid && AllWellPaired(grouped, c.scenario) && |pairs| >= config.minimumPairs)
      && (c.estimate.Some? ==> config.bootstrap(baseline, candidate) == Success(c.estimate.value)
                               && c.classification == config.classify(c.estimate.value))
      && (pending || exhausted ==> c.classification == Noisy)
      && (!pending && !exhausted && (invalid || !AllWellPaired(grouped, c.scenario))
          ==> c.classification == InvalidComparison)
      && (!pending && !exhausted && !invalid && AllWellPaired(grouped, c.scenario) && |pairs| < config.minimumPairs
          ==> c.classification == Inconclusive)
      && (c.retryStatus == Required <==> pending)
      && (c.retryStatus == Exhausted <==> !pending && exhausted)
      && (c.retryStatus == Retried <==> !pending && !exhausted && AnyRetried(grouped, c.scenario))
  }

  /** Some pair the comparison rests on is a replacement. */
  ghost predicate AnyRetried(grouped: map<GroupKey, PairCosts>, scenario: nat) {
    exists pair :: RetriedPair(grouped, scenario, pair)
  }

  predicate RetriedPair(grouped: map<GroupKey, PairCosts>, scenario: nat, pair: nat) {
    var key := GroupKey(pair, scenario);
    key in grouped && WellPaired(grouped[key]) && exists attempt :: attempt in grouped[key].attempts && attempt > 0
  }

  lemma PairRetried(grouped: map<GroupKey, PairCosts>, scenario: nat, pair: nat)
    ensures var key := GroupKey(pair, scenario);
            RetriedPair(grouped, scenario, pair) <==>
            && key in grouped && WellPaired(grouped[key])
            && exists attempt :: attempt in grouped[key].attempts && attempt > 0
  {
  }

  /** As `Paired`, without the pairs that are left, which come after those that are not. */
  ghost predicate PairedSoFar(config: Config, grouped: map<GroupKey, PairCosts>, scenario: nat, left: set<nat>,
      pairs: seq<nat>, baseline: seq<real>, candidate: seq<real>)
  {
    && |pairs| == |baseline| == |candidate| && Ascending(pairs)
    && (forall pair, other | pair in pairs && other in left :: pair < other)
    && (forall pair :: pair in pairs <==>
        pair !in left && GroupKey(pair, scenario) in grouped && WellPaired(grouped[GroupKey(pair, scenario)]))
    && forall k | 0 <= k < |pairs| ::
         && GroupKey(pairs[k], scenario) in grouped
         && var costs := grouped[GroupKey(pairs[k], scenario)];
            config.median(costs.baseline) == Success(baseline[k])
              && config.median(costs.candidate) == Success(candidate[k])
  }

  lemma PairedNone(config: Config, grouped: map<GroupKey, PairCosts>, scenario: nat, relevant: set<nat>)
    requires forall pair | GroupKey(pair, scenario) in grouped :: pair in relevant
    ensures PairedSoFar(config, grouped, scenario, relevant, [], [], [])
  {
  }

  lemma PairedAll(config: Config, grouped: map<GroupKey, PairCosts>, scenario: nat, pairs: seq<nat>,
      baseline: seq<real>, candidate: seq<real>)
    requires PairedSoFar(config, grouped, scenario, {}, pairs, baseline, candidate)
    ensures Paired(config, grouped, scenario, pairs, baseline, candidate)
  {
  }

  lemma PairedSkips(config: Config, grouped: map<GroupKey, PairCosts>, scenario: nat, left: set<nat>,
      pairs: seq<nat>, baseline: seq<real>, candidate: seq<real>, pair: nat)
    requires PairedSoFar(config, grouped, scenario, left, pairs, baseline, candidate)
    requires GroupKey(pair, scenario) in grouped && !WellPaired(grouped[GroupKey(pair, scenario)])
    ensures PairedSoFar(config, grouped, scenario, left - {pair}, pairs, baseline, candidate)
  {
    hide WellPaired;
  }

  lemma PairedGrows(config: Config, grouped: map<GroupKey, PairCosts>, scenario: nat, left: set<nat>,
      pairs: seq<nat>, baseline: seq<real>, candidate: seq<real>, pair: nat, b: real, c: real)
    requires PairedSoFar(config, grouped, scenario, left, pairs, baseline, candidate)
    requires pair in left && (forall other | other in left :: pair <= other)
    requires GroupKey(pair, scenario) in grouped && WellPaired(grouped[GroupKey(pair, scenario)])
    requires var costs := grouped[GroupKey(pair, scenario)];
             config.median(costs.baseline) == Success(b) && config.median(costs.candidate) == Success(c)
    ensures PairedSoFar(config, grouped, scenario, left - {pair}, pairs + [pair], baseline + [b], candidate + [c])
  {
    hide WellPaired;
    assert forall k | 0 <= k < |pairs| :: pairs[k] in pairs && pairs[k] < pair;
    var more := pairs + [pair];
    assert more[|pairs|] == pair;
    forall p ensures p in more <==> p in pairs || p == pair {
      if p in pairs {
        var k :| 0 <= k < |pairs| && pairs[k] == p;
        assert more[k] == p;
      }
    }
  }

  lemma PairingIs(config: Config, costs: PairCosts)
    ensures WellPaired(costs) <==> !(costs.baseline == [] || costs.candidate == [] || |costs.attempts| != 1)
    ensures HaveMedians(config, costs) <==>
              config.median(costs.baseline).Success? && config.median(costs.candidate).Success?
  {
  }

  /** Collects the medians of a scenario's complete pairs in pair order, and whether any pair is not complete. */
  method PairMedians(config: Config, grouped: map<GroupKey, PairCosts>, scenario: nat)
    returns (r: Result<(seq<real>, seq<real>)>, ghost pairs: seq<nat>, retried: bool, structuralFailure: bool)
    ensures r.Success? ==> Paired(config, grouped, scenario, pairs, r.value.0, r.value.1)
    ensures r.Success? ==> (structuralFailure <==> !AllWellPaired(grouped, scenario))
    ensures r.Success? ==> (retried <==> AnyRetried(grouped, scenario))
    ensures r.Success? <==> MediansGiven(config, grouped, scenario)
  {
    hide WellPaired, HaveMedians, RetriedPair, PairedSoFar, Paired;
    var relevant := set key | key in grouped && key.scenario == scenario :: key.pair;
    var left := relevant;
    pairs, retried, structuralFailure := [], false, false;
    var baseline: seq<real>, candidate: seq<real> := [], [];
    PairedNone(config, grouped, scenario, relevant);
    while left != {}
      invariant left <= relevant
      invariant forall seen, pair | seen in relevant && seen !in left && pair in left :: seen < pair
      invariant PairedSoFar(config, grouped, scenario, left, pairs, baseline, candidate)
      invariant retried <==> exists pair :: pair in relevant && pair !in left && RetriedPair(grouped, scenario, pair)
      invariant structuralFailure <==> exists pair ::
                  pair in relevant && pair !in left && !WellPaired(grouped[GroupKey(pair, scenario)])
      invariant forall pair | pair in relevant && pair !in left && WellPaired(grouped[GroupKey(pair, scenario)]) ::
                  HaveMedians(config, grouped[GroupKey(pair, scenario)])
      decreases |left|
    {
      var pair := FirstNumber(left);
      var costs := grouped[GroupKey(pair, scenario)];
      assert left == (left - {pair}) + {pair};
      left := left - {pair};
      PairingIs(config, costs);
      if costs.baseline == [] || costs.candidate == [] || |costs.attempts| != 1 {
        PairedSkips(config, grouped, scenario, left + {pair}, pairs, baseline, candidate, pair);
        PairRetried(grouped, scenario, pair);
        structuralFailure := true;
        continue;
      }
      var b := config.median(costs.baseline);
      if b.Failure? {
        return Failure(b.code), pairs, retried, structuralFailure;
      }
      var c := config.median(costs.candidate);
      if c.Failure? {
        return Failure(c.code), pairs, retried, structuralFailure;
      }
      PairedGrows(config, grouped, scenario, left + {pair}, pairs, baseline, candidate, pair, b.value, c.value);
      pairs := pairs + [pair];
      baseline := baseline + [b.value];
      candidate := candidate + [c.value];
      var replaced := exists attempt :: attempt in costs.attempts && attempt > 0;
      assert replaced <==> RetriedPair(grouped, scenario, pair) by { PairRetried(grouped, scenario, pair); }
      retried := retried || replaced;
    }
    forall key | key in grouped && key.scenario == scenario
      ensures key.pair in relevant && key == GroupKey(key.pair, scenario)
    {}
    forall pair | RetriedPair(grouped, scenario, pair) ensures pair in relevant {
      PairRetried(grouped, scenario, pair);
    }
    PairedAll(config, grouped, scenario, pairs, baseline, candidate);
    return Success((baseline, candidate)), pairs, retried, structuralFailure;
  }

  method CompareScenario(config: Config, grouped: map<GroupKey, PairCosts>, scenario: nat, pending: bool,
      exhausted: bool, invalid: bool)
    returns (r: Result<PairedComparison>)
    ensures r.Success? ==>
              r.value.scenario == scenario && ComparisonSound(config, grouped, pending, exhausted, invalid, r.value)
    ensures r.Failure? ==>
              || !MediansGiven(config, grouped, scenario)
              || (!pending && !exhausted && !invalid && AllWellPaired(grouped, scenario)
                  && Unestimated(config, grouped, scenario))
    ensures r.Success? ==> MediansGiven(config, grouped, scenario)
  {
    hide Paired, AllWellPaired, AnyRetried, MediansGiven;
    ghost var pairs;
    var medians, retried, structuralFailure;
    medians, pairs, retried, structuralFailure := PairMedians(config, grouped, scenario);
    if medians.Failure? {
      return Failure(medians.code);
    }
    var (baseline, candidate) := medians.value;
    SameCount(config, grouped, scenario, pairs, baseline, candidate);
    var status := if pending then Required else if exhausted then Exhausted else if retried then Retried
                  else NotNeeded;
    var blocked := PairedComparison(scenario, |baseline|, None, Noisy, status);
    if pending || exhausted {
      return Success(blocked);
    }
    if structuralFailure || invalid {
      return Success(blocked.(classification := InvalidComparison));
    }
    if |baseline| < config.minimumPairs {
      return Success(blocked.(classification := Inconclusive));
    }
    var estimate := config.bootstrap(baseline, candidate);
    if estimate.Failure? {
      return Failure(estimate.code);
    }
    return Success(PairedComparison(scenario, |baseline|, Some(estimate.value), config.classify(estimate.value),
                                    status));
  }

  lemma SameCount(config: Config, grouped: map<GroupKey, PairCosts>, scenario: nat, pairs: seq<nat>,
      baseline: seq<real>, candidate: seq<real>)
    requires Paired(config, grouped, scenario, pairs, baseline, candidate)
    ensures |pairs| == |baseline| == |candidate|
  {
  }

  predicate Compared(output: seq<PairedComparison>, scenario: nat) {
    exists k | 0 <= k < |output| :: output[k].scenario == scenario
  }

  lemma ComparedMore(output: seq<PairedComparison>, comparison: PairedComparison)
    ensures Compared(output + [comparison], comparison.scenario)
    ensures forall scenario | Compared(output, scenario) :: Compared(output + [comparison], scenario)
  {
    var more := output + [comparison];
    assert more[|output|] == comparison;
    forall scenario | Compared(output, scenario) ensures Compared(more, scenario) {
      var k :| 0 <= k < |output| && output[k].scenario == scenario;
      assert more[k].scenario == scenario;
    }
  }

  /** Every scenario among the samples has one comparison, and the comparisons are in scenario order. */
  ghost predicate OnePerScenario(samples: seq<RawSample>, output: seq<PairedComparison>) {
    && (forall i | 0 <= i < |samples| :: Compared(output, samples[i].scenario))
    && (forall k | 0 <= k < |output| :: exists i | 0 <= i < |samples| :: samples[i].scenario == output[k].scenario)
    && (forall j, k | 0 <= j < k < |output| :: output[j].scenario < output[k].scenario)
  }

  /** A median is missing, or, where nothing stands in the way of an estimate, the estimate is. */
  ghost predicate Incomparable(config: Config, grouped: map<GroupKey, PairCosts>, blocked: bool, scenario: nat) {
    || !MediansGiven(config, grouped, scenario)
    || (!blocked && AllWellPaired(grouped, scenario) && Unestimated(config, grouped, scenario))
  }

  /** One comparison per scenario, in order. */
  method BuildComparisons(config: Config, samples: seq<RawSample>, retries: seq<RetryRequest>, exhausted: set<nat>,
      invalid: set<nat>)
    returns (r: Result<seq<PairedComparison>>, grouped: map<GroupKey, PairCosts>)
    ensures CostsGrouped(samples, grouped, |samples|)
    ensures r.Success? ==>
              && OnePerScenario(samples, r.value)
              && forall k | 0 <= k < |r.value| ::
                   ComparisonSound(config, grouped, retries != [], exhausted != {}, invalid != {}, r.value[k])
    ensures r.Failure? ==> exists i | 0 <= i < |samples| ::
              Incomparable(config, grouped, retries != [] || exhausted != {} || invalid != {}, samples[i].scenario)
  {
    var scenarios;
    grouped, scenarios := GroupCosts(samples);
    hide ComparisonSound, CostsGrouped, Compared, MediansGiven, AllWellPaired, Unestimated;
    var left := scenarios;
    var output: seq<PairedComparison> := [];
    while left != {}
      invariant left <= scenarios
      invariant forall seen, scenario | seen in scenarios && seen !in left && scenario in left :: seen < scenario
      invariant forall k | 0 <= k < |output| :: output[k].scenario in scenarios && output[k].scenario !in left
      invariant forall j, k | 0 <= j < k < |output| :: output[j].scenario < output[k].scenario
      invariant forall k | 0 <= k < |output| ::
                  ComparisonSound(config, grouped, retries != [], exhausted != {}, invalid != {}, output[k])
      invariant forall scenario | scenario in scenarios && scenario !in left :: Compared(output, scenario)
      decreases |left|
    {
      var scenario := FirstNumber(left);
      var comparison := CompareScenario(config, grouped, scenario, retries != [], exhausted != {}, invalid != {});
      if comparison.Failure? {
        return Failure(comparison.code), grouped;
      }
      ComparedMore(output, comparison.value);
      output := output + [comparison.value];
      left := left - {scenario};
    }
    return Success(output), grouped;
  }

  // ----- the whole analysis -----

  datatype Analysis = Analysis(comparisons: seq<PairedComparison>, retries: seq<RetryRequest>)

  /** What every sample becomes: unselected attempts and sound pairs keep their validity, the others lose it whole. */
  ghost predicate Rejected(before: seq<RawSample>, after: seq<RawSample>, latest: map<nat, nat>, findings: Findings) {
    && SameObservations(after, before)
    && forall i | 0 <= i < |before| ::
         var sample := before[i];
         if SelectedSample(sample, latest) && sample.pair in findings.noise
           then !after[i].valid && after[i].reason == Some("noise-threshold")
         else if SelectedSample(sample, latest) && sample.pair in findings.invalid
           then !after[i].valid && after[i].reason == Some("incomplete-pair")
         else after[i].valid == sample.valid && after[i].reason == sample.reason
  }

  /** Statistics are missing for a side of some complete group. */
  ghost predicate Undescribed(config: Config, samples: seq<RawSample>, latest: map<nat, nat>) {
    exists groups, key ::
      && Grouped(samples, latest, groups, |samples|) && key in groups && Complete(groups[key])
      && InRange(groups[key], |samples|) && !Describable(config, samples, groups[key])
  }

  /**
   * Never drops or reorders a sample; rejects all or none of a pair's selected attempt; asks for one
   * reversed retry per noisy pair that has one left; classes exactly the complete groups; compares every
   * scenario once, in order; and estimates only complete, settled pairs.
   */
  method AnalyzeCompletePairs(data: OrderedRawSamples, config: Config)
    returns (r: Result<Analysis>, latest: map<nat, nat>, findings: Findings, exhausted: set<nat>,
             grouped: map<GroupKey, PairCosts>)
    requires SoundConfig(config)
    modifies data
    ensures SameObservations(data.samples, old(data.samples))
    ensures r.Success? ==> config.maxRetries == 1 && IsLatest(old(data.samples), latest)
    ensures r.Success? ==>
              exists groups ::
                && Grouped(old(data.samples), latest, groups, |old(data.samples)|)
                && (forall key | key in groups :: InRange(groups[key], |old(data.samples)|))
                && FindingsSound(config, old(data.samples), groups, findings)
                && Classed(config, old(data.samples), data.samples, groups, groups.Keys)
    ensures r.Success? ==> Rejected(old(data.samples), data.samples, latest, findings)
    ensures r.Success? ==> (forall pair | pair in findings.noise :: pair in latest)
                           && RetriesFor(config, latest, findings.noise, r.value.retries, exhausted)
    ensures r.Success? ==> CostsGrouped(data.samples, grouped, |data.samples|)
    ensures r.Success? ==> OnePerScenario(data.samples, r.value.comparisons)
    ensures r.Success? ==> forall k | 0 <= k < |r.value.comparisons| ::
              ComparisonSound(config, grouped, r.value.retries != [], exhausted != {}, findings.invalid != {},
                              r.value.comparisons[k])
    ensures r.Failure? ==>
              || config.minimumPairs == 0 || config.maxRetries != 1
              || Undescribed(config, old(data.samples), latest)
              || exists i | 0 <= i < |data.samples| ::
                   Incomparable(config, grouped, findings.noise != map[] || findings.invalid != {},
                                data.samples[i].scenario)
  {
    hide Incomparable, Describable, IsLatest, Grouped, FindingsSound, RetriesFor, CostsGrouped, ComparisonSound,
      InRange, GroupOf, Classed, OnePerScenario;
    exhausted, grouped, latest, findings := {}, map[], map[], Findings(map[], {});
    ghost var before := data.samples;
    if config.minimumPairs == 0 || config.maxRetries != 1 {
      return Failure("invalid comparison configuration"), latest, findings, exhausted, grouped;
    }
    latest := LatestAttempts(data.samples);
    var groups := GroupSelected(data.samples, latest);
    GroupsInRange(data.samples, latest, groups);
    GroupsSeparate(data.samples, latest, groups);
    var inspected := data.InspectGroups(config, groups);
    if inspected.Failure? {
      return Failure(inspected.code), latest, findings, exhausted, grouped;
    }
    findings := inspected.value;
    ghost var classed := data.samples;
    FoundPairs(config, before, latest, groups, findings);
    data.RejectPairs(findings.invalid, latest, "incomplete-pair");
    data.RejectPairs(findings.noise.Keys, latest, "noise-threshold");
    SameClasses(config, before, classed, data.samples, groups);
    var retries;
    retries, exhausted := PlanRetries(config, latest, findings.noise);
    var comparisons;
    NoisySettled(config, latest, findings.noise, retries, exhausted);
    comparisons, grouped := BuildComparisons(config, data.samples, retries, exhausted, findings.invalid);
    if comparisons.Failure? {
      return Failure(comparisons.code), latest, findings, exhausted, grouped;
    }
    return Success(Analysis(comparisons.value, retries)), latest, findings, exhausted, grouped;
  }

  /** Rejection changes no class. */
  lemma SameClasses(config: Config, before: seq<RawSample>, classed: seq<RawSample>, after: seq<RawSample>,
      groups: map<GroupKey, Group>)
    requires forall key | key in groups :: InRange(groups[key], |before|)
    requires Classed(config, before, classed, groups, groups.Keys)
    requires |after| == |classed| && forall i | 0 <= i < |after| :: after[i].tukey == classed[i].tukey
    ensures Classed(config, before, after, groups, groups.Keys)
  {
    hide CostsAt;
  }

  lemma GroupsInRange(samples: seq<RawSample>, latest: map<nat, nat>, groups: map<GroupKey, Group>)
    requires Grouped(samples, latest, groups, |samples|)
    ensures forall key | key in groups :: InRange(groups[key], |samples|)
  {
  }

  /** Only pairs that have samples are found. */
  lemma FoundPairs(config: Config, samples: seq<RawSample>, latest: map<nat, nat>, groups: map<GroupKey, Group>,
      findings: Findings)
    requires Grouped(samples, latest, groups, |samples|)
               && (forall key | key in groups :: InRange(groups[key], |samples|))
    requires FindingsSound(config, samples, groups, findings)
    ensures forall pair | pair in findings.noise || pair in findings.invalid :: pair in latest
  {
    hide NoisyGroup, GroupOf;
    forall key | key in groups ensures key.pair in latest {
      var i :| 0 <= i < |samples| && InGroup(samples[i], latest, key);
    }
    forall pair | pair in findings.noise ensures pair in latest {
      var scenario :| NoisyAt(config, samples, groups, pair, scenario);
    }
  }
}
