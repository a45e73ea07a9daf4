/** The breathing-interval engine of `AppState`: a threshold filter over
    classification results, a history of detection instants and the interval
    records derived from consecutive detections.

    Instants are whole milliseconds since 1970-01-01 00:00:00 UTC; the clock
    reading `Date()` that the source takes when a detection arrives is a
    parameter of `OnResult`.
 */
module ClassifySound {
  import opened TimeFormat

  /** An instant, in milliseconds since the epoch. */
  type Time = int

  /** One classification result: the confidence of each label it mentions. */
  type Classification = map<string, real>

  /** `AppConfiguration`: window size in seconds, window overlap, monitored label. */
  datatype AppConfiguration = AppConfiguration(inferenceWindowSize: real, overlapFactor: real, monitoredSounds: string)

  const DefaultConfiguration := AppConfiguration(1.2, 0.1, "breathing")

  const DetectionThreshold: real := 0.7

  const InhaleExhale := "inhale -> exhale"
  const ExhaleInhale := "exhale -> inhale"

  /** One interval record: its phase label, the gap to the previous detection,
      the identity of the detection that closed it and the time since the
      first detection. */
  datatype BreathingInfo = BreathingInfo(description: string, interval: Millis, id: real, time: Millis)

  /** `Date.id`: the instant as seconds since the epoch. */
  function EpochId(t: Time): real
  {
    t as real / 1000.0
  }

  /** Distinct instants have distinct identities, in the same order. */
  lemma EpochIdOrdered(t: Time, u: Time)
    ensures t < u <==> EpochId(t) < EpochId(u)
    ensures t == u <==> EpochId(t) == EpochId(u)
  {
  }

  /** `isDetected`: a missing label counts as confidence zero. */
  function IsDetected(config: AppConfiguration, value: Classification): (r: bool)
    ensures r <==> config.monitoredSounds in value && value[config.monitoredSounds] >= DetectionThreshold
  {
    (if config.monitoredSounds in value then value[config.monitoredSounds] else 0.0) >= DetectionThreshold
  }

  /** Only the monitored label's confidence decides a detection, and a
      higher confidence never turns a detection into a miss. */
  lemma DetectionDependsOnMonitoredLabelOnly(config: AppConfiguration, v: Classification, w: Classification)
    requires config.monitoredSounds in v ==> config.monitoredSounds in w && v[config.monitoredSounds] <= w[config.monitoredSounds]
    ensures IsDetected(config, v) ==> IsDetected(config, w)
  {
  }

  /** The phase label of the record made when the history reaches `count` detections. */
  function Description(count: nat): string
  {
    if count % 2 == 0 then InhaleExhale else ExhaleInhale
  }

  /** The relation between the detection history and the interval records:
      one record per detection after the first, record `k` closed by
      detection `k + 1`. */
  ghost predicate Derived(dt: seq<Time>, recs: seq<BreathingInfo>)
  {
    && |recs| == (if dt == [] then 0 else |dt| - 1)
    && forall k :: 0 <= k < |recs| ==>
         && recs[k].description == Description(k + 2)
         && recs[k].interval == dt[k + 1] - dt[k]
         && recs[k].id == EpochId(dt[k + 1])
         && recs[k].time == dt[k + 1] - dt[0]
  }

  /** Phase labels strictly alternate, starting with "inhale -> exhale". */
  lemma PhasesAlternate(dt: seq<Time>, recs: seq<BreathingInfo>, k: nat)
    requires Derived(dt, recs) && k < |recs|
    ensures recs[k].description == if k % 2 == 0 then InhaleExhale else ExhaleInhale
    ensures k + 1 < |recs| ==> recs[k].description != recs[k + 1].description
  {
    assert InhaleExhale[0] != ExhaleInhale[0];
  }

  /** The sum of the gaps of a run of records. */
  function IntervalSum(recs: seq<BreathingInfo>): int
  {
    if recs == [] then 0 else IntervalSum(recs[..|recs| - 1]) + recs[|recs| - 1].interval
  }

  /** The elapsed time of record `k` is the sum of the gaps of records `0..k`. */
  lemma {:induction false} ElapsedIsSumOfIntervals(dt: seq<Time>, recs: seq<BreathingInfo>, k: nat)
    requires Derived(dt, recs) && k < |recs|
    ensures recs[k].time == IntervalSum(recs[..k + 1])
  {
    var run := recs[..k + 1];
    assert run[..k] == recs[..k] && run[k] == recs[k];
    assert IntervalSum(run) == IntervalSum(recs[..k]) + recs[k].interval;
    if k == 0 {
      assert recs[..0] == [];
    } else {
      ElapsedIsSumOfIntervals(dt, recs, k - 1);
      assert recs[k - 1].time == IntervalSum(recs[..k]);
      assert recs[k - 1].time == dt[k] - dt[0];
      assert recs[k].interval == dt[k + 1] - dt[k];
      assert recs[k].time == dt[k + 1] - dt[0];
    }
  }

  predicate NonDecreasing(dt: seq<Time>)
  {
    forall i :: 0 < i < |dt| ==> dt[i - 1] <= dt[i]
  }

  predicate Increasing(dt: seq<Time>)
  {
    forall i :: 0 < i < |dt| ==> dt[i - 1] < dt[i]
  }

  lemma {:induction false} NonDecreasingFrom(dt: seq<Time>, i: nat, j: nat)
    requires NonDecreasing(dt) && i <= j < |dt|
    ensures dt[i] <= dt[j]
    decreases j - i
  {
    if i < j {
      NonDecreasingFrom(dt, i + 1, j);
    }
  }

  lemma {:induction false} IncreasingFrom(dt: seq<Time>, i: nat, j: nat)
    requires Increasing(dt) && i < j < |dt|
    ensures dt[i] < dt[j]
    decreases j - i
  {
    if i + 1 < j {
      IncreasingFrom(dt, i + 1, j);
    }
  }

  /** With a clock that never goes back, no gap and no elapsed time is
      negative and elapsed times never decrease. */
  lemma MonotoneClock(dt: seq<Time>, recs: seq<BreathingInfo>)
    requires Derived(dt, recs) && NonDecreasing(dt)
    ensures forall k :: 0 <= k < |recs| ==> recs[k].interval >= 0 && recs[k].time >= 0
    ensures forall k :: 0 < k < |recs| ==> recs[k - 1].time <= recs[k].time
  {
    forall k | 0 <= k < |recs|
      ensures recs[k].interval >= 0 && recs[k].time >= 0
    {
      assert dt[k] <= dt[k + 1];
      NonDecreasingFrom(dt, 0, k + 1);
    }
    forall k | 0 < k < |recs|
      ensures recs[k - 1].time <= recs[k].time
    {
      assert dt[k] <= dt[k + 1];
    }
  }

  /** With a clock that always moves forward, the records' identities are
      pairwise distinct, as `Identifiable` requires of list rows. */
  lemma DistinctIds(dt: seq<Time>, recs: seq<BreathingInfo>)
    requires Derived(dt, recs) && Increasing(dt)
    ensures forall i, j :: 0 <= i < j < |recs| ==> recs[i].id < recs[j].id
  {
    forall i, j | 0 <= i < j < |recs|
      ensures recs[i].id < recs[j].id
    {
      IncreasingFrom(dt, i + 1, j + 1);
      EpochIdOrdered(dt[i + 1], dt[j + 1]);
    }
  }

  /** Three detections give exactly two records. */
  lemma ThreeDetections(t1: Time, t2: Time, t3: Time, recs: seq<BreathingInfo>)
    requires Derived([t1, t2, t3], recs)
    ensures recs == [BreathingInfo(InhaleExhale, t2 - t1, EpochId(t2), t2 - t1),
                     BreathingInfo(ExhaleInhale, t3 - t2, EpochId(t3), t3 - t1)]
  {
    var dt := [t1, t2, t3];
    assert dt[0] == t1 && dt[1] == t2 && dt[2] == t3;
    assert |recs| == 2;
    var r0, r1 := recs[0], recs[1];
    assert Description(2) == InhaleExhale && Description(3) == ExhaleInhale;
    assert r0.description == InhaleExhale && r1.description == ExhaleInhale;
    assert r0.interval == t2 - t1 && r0.id == EpochId(t2) && r0.time == t2 - t1;
    assert r1.interval == t3 - t2 && r1.id == EpochId(t3) && r1.time == t3 - t1;
    assert r0 == BreathingInfo(r0.description, r0.interval, r0.id, r0.time);
    assert r1 == BreathingInfo(r1.description, r1.interval, r1.id, r1.time);
    assert recs == [r0, r1];
  }

  /** The record closed by a detection at `now` that follows the history `prev`. */
  function Closing(prev: seq<Time>, now: Time): BreathingInfo
    requires prev != []
  {
    BreathingInfo(Description(|prev| + 1), now - prev[|prev| - 1], EpochId(now), now - prev[0])
  }

  /** A new detection keeps the relation, with one more record when it is
      not the first. */
  lemma DerivedExtend(dt: seq<Time>, recs: seq<BreathingInfo>, now: Time)
    requires Derived(dt, recs)
    ensures dt == [] ==> Derived(dt + [now], recs)
    ensures dt != [] ==>
      Derived(dt + [now], recs + [Closing(dt, now)])
  {
    var dt' := dt + [now];
    if dt != [] {
      var recs' := recs + [Closing(dt, now)];
      forall k | 0 <= k < |recs'|
        ensures recs'[k].description == Description(k + 2)
        ensures recs'[k].interval == dt'[k + 1] - dt'[k]
        ensures recs'[k].id == EpochId(dt'[k + 1])
        ensures recs'[k].time == dt'[k + 1] - dt'[0]
      {
        if k < |recs| {
          assert recs'[k] == recs[k];
        }
      }
    }
  }

  /** The runtime state after setup: the detection history, the interval
      records and the running flag. */
  class AppState {
    var appConfig: AppConfiguration
    var detectionTime: seq<Time>
    var intervals: seq<BreathingInfo>
    var soundDetectionIsRunning: bool

    ghost predicate Valid()
      reads this
    {
      Derived(detectionTime, intervals)
    }

    constructor ()
      ensures Valid()
      ensures appConfig == DefaultConfiguration && !soundDetectionIsRunning
      ensures detectionTime == [] && intervals == []
    {
      appConfig := DefaultConfiguration;
      detectionTime := [];
      intervals := [];
      soundDetectionIsRunning := false;
    }

    /** `stopDetection`: stopping the external classifier leaves this state alone. */
    method StopDetection()
      ensures unchanged(this)
    {
    }

    /** `restartDetection`: a fresh, empty history under the new configuration. */
    method RestartDetection(config: AppConfiguration)
      modifies this
      ensures Valid()
      ensures detectionTime == [] && intervals == []
      ensures soundDetectionIsRunning && appConfig == config
    {
      StopDetection();
      detectionTime := [];
      intervals := [];
      soundDetectionIsRunning := true;
      appConfig := config;
    }

    /** The value handler of the subscription: a detection at `now` is
        appended, and from the second detection on it closes one record. */
    method OnResult(value: Classification, now: Time)
      requires Valid()
      modifies this
      ensures Valid()
      ensures appConfig == old(appConfig) && soundDetectionIsRunning == old(soundDetectionIsRunning)
      ensures !IsDetected(appConfig, value) ==> detectionTime == old(detectionTime) && intervals == old(intervals)
      ensures IsDetected(appConfig, value) ==> detectionTime == old(detectionTime) + [now]
      ensures IsDetected(appConfig, value) && old(detectionTime) == [] ==> intervals == []
      ensures IsDetected(appConfig, value) && old(detectionTime) != [] ==>
        intervals == old(intervals) + [Closing(old(detectionTime), now)]
    {
      if IsDetected(appConfig, value) {
        ghost var prev := detectionTime;
        DerivedExtend(prev, intervals, now);
        detectionTime := detectionTime + [now];
        var count := |detectionTime|;
        if count > 1 {
          var description := if count % 2 == 0 then InhaleExhale else ExhaleInhale;
          var detected := detectionTime[count - 1];
          var info := BreathingInfo(description, detected - detectionTime[count - 2], EpochId(detected), detected - detectionTime[0]);
          assert info == Closing(prev, now) by {
            assert description == Description(|prev| + 1) && detected == now;
            assert detectionTime[count - 2] == prev[|prev| - 1] && detectionTime[0] == prev[0];
          }
          intervals := intervals + [info];
        }
      }
    }

    /** The completion handler: the session is over, its history stays. */
    method OnCompletion()
      requires Valid()
      modifies this
      ensures Valid() && !soundDetectionIsRunning
      ensures detectionTime == old(detectionTime) && intervals == old(intervals) && appConfig == old(appConfig)
    {
      soundDetectionIsRunning := false;
    }
  }

  /** The record closed by a hit at 2 s after a first hit at 0 s. */
  lemma FirstClosing()
    ensures Closing([0], 2000) == BreathingInfo(InhaleExhale, 2000, 2.0, 2000)
  {
    assert Description(2) == InhaleExhale;
    assert EpochId(2000) == 2.0;
  }

  /** Results with confidences 0.9, 0.5 and 0.8 for the monitored label at
      0 s, 1 s and 2 s: the middle one is filtered out and one record spans
      the two detections. */
  method FilterScenario() returns (detections: seq<Time>, records: seq<BreathingInfo>)
    ensures detections == [0, 2000]
    ensures records == [BreathingInfo(InhaleExhale, 2000, 2.0, 2000)]
  {
    var state := new AppState();
    state.RestartDetection(DefaultConfiguration);
    var sound := DefaultConfiguration.monitoredSounds;
    var first, miss, second := map[sound := 0.9], map[sound := 0.5], map[sound := 0.8];
    assert IsDetected(state.appConfig, first) && !IsDetected(state.appConfig, miss) && IsDetected(state.appConfig, second);
    state.OnResult(first, 0);
    state.OnResult(miss, 1000);
    state.OnResult(second, 2000);
    FirstClosing();
    detections, records := state.detectionTime, state.intervals;
  }
}
