/** The tick-selection rules of the schedule daemon: when the daemon next wakes, from which
    timestamp a schedule resumes, which tick times are evaluated and how many are caught up,
    how a failed tick's failure count moves, when the iteration checkpoint is written, which
    existing run a request is matched to, and how tick retention is grouped for purging.
    Timestamps are whole seconds. */
module Scheduler {
  import opened Wrappers

  const SECONDS_IN_MINUTE: int := 60
  /** How often the last-iteration checkpoint is written. */
  const LAST_RECORDED_ITERATION_INTERVAL_SECONDS: int := 3600
  const SECONDS_IN_DAY: int := 86400

  // ---------------------------------------------------------------- next iteration

  /** `_get_next_scheduler_iteration_time`: the start of the next minute. */
  function NextIterationTime(t: int): (r: int)
    ensures r % SECONDS_IN_MINUTE == 0
    ensures t < r <= t + SECONDS_IN_MINUTE
  {
    t - t % SECONDS_IN_MINUTE + SECONDS_IN_MINUTE
  }

  /** It is the first whole minute after `t`: no later minute boundary comes before it. */
  lemma NextIterationTimeIsLeast(t: int, m: int)
    requires m % SECONDS_IN_MINUTE == 0 && m > t
    ensures NextIterationTime(t) <= m
  {
    var r := NextIterationTime(t);
    var q := t / SECONDS_IN_MINUTE;
    assert t == q * SECONDS_IN_MINUTE + t % SECONDS_IN_MINUTE;
    assert r == (q + 1) * SECONDS_IN_MINUTE;
    var p := m / SECONDS_IN_MINUTE;
    assert m == p * SECONDS_IN_MINUTE;
  }

  // ---------------------------------------------------------------- ticks and state

  datatype TickStatus = Started | Skipped | Success | Failure

  /** The part of a schedule tick the rules read and write. */
  datatype Tick = Tick(
    status: TickStatus,
    timestamp: int,
    failureCount: nat,
    error: Option<string>,
    skipReason: Option<string>)

  /** `ScheduleInstigatorData`. */
  datatype InstigatorData = InstigatorData(
    cronSchedule: string,
    startTimestamp: Option<int>,
    lastIterationTimestamp: Option<int>)

  /** Python's `x or 0` on an optional timestamp. */
  function OrZero(o: Option<int>): int {
    if o.Some? then o.value else 0
  }

  /** Python's truthiness of an optional timestamp: present and non-zero. */
  predicate Recorded(o: Option<int>) {
    o.Some? && o.value != 0
  }

  function Max(a: int, b: int): int {
    if a >= b then a else b
  }

  // ---------------------------------------------------------------- start timestamp

  /** The latest tick was interrupted, or failed and still has retries left. */
  predicate ShouldRedo(tick: Tick, maxTickRetries: int) {
    tick.status == Started || (tick.status == TickStatus.Failure && tick.failureCount <= maxTickRetries)
  }

  /** The timestamp from which the schedule's execution times are enumerated. */
  function StartTimestamp(data: InstigatorData, latest: Option<Tick>, maxTickRetries: int): (r: int)
    ensures r >= OrZero(data.startTimestamp) && r >= OrZero(data.lastIterationTimestamp)
    ensures latest.Some? && ShouldRedo(latest.value, maxTickRetries) ==> r >= latest.value.timestamp
    ensures latest.Some? && !ShouldRedo(latest.value, maxTickRetries) ==> r > latest.value.timestamp
    ensures r == OrZero(data.startTimestamp) || r == OrZero(data.lastIterationTimestamp)
      || (latest.Some? && r == latest.value.timestamp + (if ShouldRedo(latest.value, maxTickRetries) then 0 else 1))
  {
    var start := OrZero(data.startTimestamp);
    var last := OrZero(data.lastIterationTimestamp);
    match latest
    case None => Max(start, last)
    case Some(tick) =>
      if ShouldRedo(tick, maxTickRetries) then Max(Max(start, tick.timestamp), last)
      else Max(Max(start, tick.timestamp + 1), last)
  }

  /** When neither the schedule's start nor its checkpoint lies beyond the latest tick, the
      enumeration starts at or before that tick (so it is evaluated again) exactly when the
      tick is to be redone. */
  lemma LatestTickRedoneIff(data: InstigatorData, tick: Tick, maxTickRetries: int)
    requires OrZero(data.startTimestamp) <= tick.timestamp && OrZero(data.lastIterationTimestamp) <= tick.timestamp
    ensures StartTimestamp(data, Some(tick), maxTickRetries) <= tick.timestamp <==> ShouldRedo(tick, maxTickRetries)
    ensures ShouldRedo(tick, maxTickRetries) ==> StartTimestamp(data, Some(tick), maxTickRetries) == tick.timestamp
  {
  }

  // ---------------------------------------------------------------- tick times

  /** The execution times up to `end`: the loop that stops at the first time past the end.
      The schedule's execution-time iterator is given as the ascending sequence it yields. */
  method CollectTickTimes(times: seq<int>, end: int) returns (tickTimes: seq<int>)
    ensures |tickTimes| <= |times| && tickTimes == times[..|tickTimes|]
    ensures forall i | 0 <= i < |tickTimes| :: tickTimes[i] <= end
    ensures |tickTimes| == |times| || times[|tickTimes|] > end
  {
    tickTimes := [];
    var i := 0;
    while i < |times|
      invariant 0 <= i <= |times|
      invariant tickTimes == times[..i]
      invariant forall j | 0 <= j < i :: times[j] <= end
    {
      if times[i] > end {
        break;
      }
      tickTimes := tickTimes + [times[i]];
      i := i + 1;
    }
  }

  /** On ascending times the collected prefix is exactly the times that are not past the end. */
  lemma CollectedAreAllWithinEnd(times: seq<int>, end: int, n: nat)
    requires forall i, j | 0 <= i < j < |times| :: times[i] < times[j]
    requires n <= |times| && forall i | 0 <= i < n :: times[i] <= end
    requires n == |times| || times[n] > end
    ensures forall i | 0 <= i < |times| :: (times[i] <= end <==> i < n)
  {
  }

  // ---------------------------------------------------------------- catch-up

  /** Python's `s[start:]` for an integer start: a negative start counts from the end, and
      both are clamped to the sequence. */
  function PySliceFrom<T>(s: seq<T>, start: int): (r: seq<T>)
    ensures |r| <= |s| && r == s[|s| - |r|..]
    ensures start < 0 ==> |r| == (if -start < |s| then -start else |s|)
    ensures start >= 0 ==> |r| == (if start < |s| then |s| - start else 0)
  {
    var i := if start < 0 then (if |s| + start < 0 then 0 else |s| + start)
             else (if start > |s| then |s| else start);
    s[i..]
  }

  /** The catch-up truncation as written: `tick_times[-1:]` when the schedule has no
      partition set, `tick_times[-max_catchup_runs:]` when there are more ticks than that. */
  function CatchUpAsWritten(tickTimes: seq<int>, hasPartitionSet: bool, maxCatchupRuns: int): (r: seq<int>)
    ensures |r| <= |tickTimes| && r == tickTimes[|tickTimes| - |r|..]
  {
    if !hasPartitionSet && |tickTimes| > 1 then PySliceFrom(tickTimes, -1)
    else if |tickTimes| > maxCatchupRuns then PySliceFrom(tickTimes, -maxCatchupRuns)
    else tickTimes
  }

  /** With `max_catchup_runs` set to 0 the slice `[-0:]` keeps every tick, although the
      schedule has fallen behind a limit of none. */
  lemma CatchUpZeroKeepsAll(tickTimes: seq<int>)
    requires |tickTimes| > 0
    ensures CatchUpAsWritten(tickTimes, true, 0) == tickTimes
    ensures |CatchUpAsWritten(tickTimes, true, 0)| > 0
  {
  }

  /** The catch-up truncation keeping at most `max_catchup_runs` ticks (none when that is 0
      or less). */
  function CatchUp(tickTimes: seq<int>, hasPartitionSet: bool, maxCatchupRuns: int): (r: seq<int>)
    ensures |r| <= |tickTimes| && r == tickTimes[|tickTimes| - |r|..]
  {
    if !hasPartitionSet && |tickTimes| > 1 then tickTimes[|tickTimes| - 1..]
    else if |tickTimes| > maxCatchupRuns then
      (if maxCatchupRuns <= 0 then [] else tickTimes[|tickTimes| - maxCatchupRuns..])
    else tickTimes
  }

  /** Catch-up keeps a suffix of the ticks: only the last one for a schedule without a
      partition set, otherwise at most the last `max_catchup_runs`, and every tick when
      there are no more than that. */
  lemma CatchUpBounds(tickTimes: seq<int>, hasPartitionSet: bool, maxCatchupRuns: int)
    ensures var r := CatchUp(tickTimes, hasPartitionSet, maxCatchupRuns);
      && (!hasPartitionSet && |tickTimes| > 1 ==> r == [tickTimes[|tickTimes| - 1]])
      && (hasPartitionSet || |tickTimes| <= 1 ==>
            |r| == (if |tickTimes| <= maxCatchupRuns then |tickTimes| else Max(maxCatchupRuns, 0)))
  {
  }

  /** The two agree on every limit but 0 and below. */
  lemma CatchUpAgreesForPositiveLimits(tickTimes: seq<int>, hasPartitionSet: bool, maxCatchupRuns: int)
    requires maxCatchupRuns > 0
    ensures CatchUp(tickTimes, hasPartitionSet, maxCatchupRuns) == CatchUpAsWritten(tickTimes, hasPartitionSet, maxCatchupRuns)
  {
  }

  /** The tick times one iteration evaluates: the catch-up truncation as written of the
      `n` times up to the end. A positive limit is kept to; a limit of 0 launches every
      tick up to the end. */
  method TicksToEvaluate(times: seq<int>, end: int, hasPartitionSet: bool, maxCatchupRuns: int) returns (r: seq<int>, ghost n: nat)
    ensures n <= |times| && (forall i | 0 <= i < n :: times[i] <= end) && (n == |times| || times[n] > end)
    ensures r == CatchUpAsWritten(times[..n], hasPartitionSet, maxCatchupRuns)
    ensures forall i | 0 <= i < |r| :: r[i] <= end && r[i] in times
    ensures !hasPartitionSet ==> |r| <= 1
    ensures maxCatchupRuns > 0 ==> |r| <= maxCatchupRuns || (!hasPartitionSet && |r| == 1)
    ensures hasPartitionSet && maxCatchupRuns == 0 ==>
      |r| <= |times| && r == times[..|r|] && (|r| == |times| || times[|r|] > end)
  {
    var collected := CollectTickTimes(times, end);
    n := |collected|;
    assert collected == times[..n];
    r := CatchUpAsWritten(collected, hasPartitionSet, maxCatchupRuns);
    if maxCatchupRuns > 0 {
      CatchUpAgreesForPositiveLimits(collected, hasPartitionSet, maxCatchupRuns);
      CatchUpBounds(collected, hasPartitionSet, maxCatchupRuns);
    } else if hasPartitionSet && maxCatchupRuns == 0 && collected != [] {
      CatchUpZeroKeepsAll(collected);
    }
    forall i | 0 <= i < |r| ensures r[i] <= end && r[i] in times {
      var k := |collected| - |r| + i;
      assert r[i] == collected[k] == times[k];
    }
  }

  // ---------------------------------------------------------------- failures

  /** The errors evaluation of a tick can raise: the code server unreachable, the code
      location failing to load, or anything else. */
  datatype EvaluationError = UserCodeUnreachable | CodeLocationLoad | OtherError

  /** The tick after evaluation raised `e`: failed, with the failure count raised by one
      for an ordinary error. When the user code could not be reached or the code location
      failed to load, the count stays as it was, so such a tick is retried until it
      evaluates. */
  function FailedTick(tick: Tick, e: EvaluationError, error: string): (t: Tick)
    ensures t.status == TickStatus.Failure && t.error == Some(error)
    ensures t.timestamp == tick.timestamp && t.skipReason == tick.skipReason
    ensures e == OtherError <==> t.failureCount == tick.failureCount + 1
    ensures e != OtherError <==> t.failureCount == tick.failureCount
  {
    var count := if e == OtherError then tick.failureCount + 1 else tick.failureCount;
    tick.(status := TickStatus.Failure, error := Some(error), failureCount := count)
  }

  /** A tick keeps being redone through unreachable-server failures, and stops being redone
      after `max_tick_retries` + 1 other failures. */
  lemma {:induction false} RetriesExhaust(tick: Tick, n: nat, maxTickRetries: int)
    requires tick.failureCount == 0
    ensures ShouldRedo(FailedTick(tick, UserCodeUnreachable, ""), maxTickRetries) <==> maxTickRetries >= 0
    ensures FailedRepeatedly(tick, n).failureCount == n
    ensures n > 0 ==> (ShouldRedo(FailedRepeatedly(tick, n), maxTickRetries) <==> n <= maxTickRetries)
  {
    FailedRepeatedlyCount(tick, n);
  }

  /** The tick after `n` consecutive ordinary failures. */
  function FailedRepeatedly(tick: Tick, n: nat): (t: Tick)
    ensures n > 0 ==> t.status == TickStatus.Failure
  {
    if n == 0 then tick else FailedTick(FailedRepeatedly(tick, n - 1), OtherError, "")
  }

  lemma {:induction false} FailedRepeatedlyCount(tick: Tick, n: nat)
    ensures FailedRepeatedly(tick, n).failureCount == tick.failureCount + n
  {
    if n > 0 {
      FailedRepeatedlyCount(tick, n - 1);
    }
  }

  // ---------------------------------------------------------------- launch context

  /** The cut-off of a purge: `days` days before `now`. */
  function PurgeBefore(now: int, days: int): (r: int)
    ensures days > 0 ==> r < now
  {
    now - days * SECONDS_IN_DAY
  }

  /** A purge the context requests on exit: ticks with these statuses older than `before`. */
  datatype PurgeCall = PurgeCall(before: int, statuses: set<TickStatus>)

  /** The retention settings grouped by day offset. */
  ghost function PurgeGroups(retention: map<TickStatus, int>): map<int, set<TickStatus>> {
    map d | d in retention.Values :: set s | s in retention && retention[s] == d
  }

  /** Grouping puts each status under its own offset and nowhere else. */
  lemma PurgeGroupsPartition(retention: map<TickStatus, int>, s: TickStatus, d: int)
    ensures (d in PurgeGroups(retention) && s in PurgeGroups(retention)[d]) <==> (s in retention && retention[s] == d)
    ensures forall e | e in PurgeGroups(retention) :: PurgeGroups(retention)[e] != {}
  {
    forall e | e in PurgeGroups(retention) ensures PurgeGroups(retention)[e] != {} {
      var s' :| s' in retention && retention[s'] == e;
      assert s' in PurgeGroups(retention)[e];
    }
  }

  /** `_ScheduleLaunchContext`: the tick being evaluated and the purge settings. */
  class LaunchContext {
    var tick: Tick
    var purgeSettings: map<int, set<TickStatus>>

    /** The constructor's loop over the retention settings. */
    constructor (t: Tick, retention: map<TickStatus, int>)
      ensures tick == t && purgeSettings == PurgeGroups(retention)
    {
      tick := t;
      var groups: map<int, set<TickStatus>> := map[];
      var todo := retention.Keys;
      while todo != {}
        invariant todo <= retention.Keys
        invariant groups == PurgeGroups(retention - todo)
        decreases |todo|
      {
        var s :| s in todo;
        var d := retention[s];
        ghost var done := retention - todo;
        todo := todo - {s};
        assert retention - todo == done[s := d];
        PurgeGroupsAdd(done, s, d);
        if d in groups {
          groups := groups[d := groups[d] + {s}];
        } else {
          groups := groups[d := {s}];
        }
      }
      assert retention - todo == retention;
      purgeSettings := groups;
    }

    function FailureCount(): nat
      reads this
    {
      tick.failureCount
    }

    /** `update_state`: a new status and error, the failure count when one is given, and the
        skip reason when a non-empty one is given. */
    method UpdateState(status: TickStatus, error: Option<string>, failureCount: Option<nat>, skipReason: Option<string>)
      modifies this
      ensures tick.status == status && tick.error == error && tick.timestamp == old(tick.timestamp)
      ensures tick.failureCount == (if failureCount.Some? then failureCount.value else old(tick.failureCount))
      ensures tick.skipReason == (if skipReason.Some? && skipReason.value != "" then skipReason else old(tick.skipReason))
      ensures purgeSettings == old(purgeSettings)
    {
      var count := if failureCount.Some? then failureCount.value else tick.failureCount;
      tick := tick.(status := status, error := error, failureCount := count);
      if skipReason.Some? && skipReason.value != "" {
        tick := tick.(skipReason := skipReason);
      }
    }

    /** The daemon's handler for an error raised while evaluating the tick. */
    method RecordError(e: EvaluationError, error: string)
      modifies this
      ensures tick == FailedTick(old(tick), e, error)
      ensures purgeSettings == old(purgeSettings)
    {
      if e == UserCodeUnreachable || e == CodeLocationLoad {
        UpdateState(TickStatus.Failure, Some(error), Some(FailureCount()), None);
      } else {
        UpdateState(TickStatus.Failure, Some(error), Some(FailureCount() + 1), None);
      }
    }

    /** `__exit__`: the tick to write, and one purge per positive day offset, of the ticks
        older than that many days before `now`. */
    method Exit(now: int) returns (written: Tick, purges: map<int, PurgeCall>)
      ensures written == tick
      ensures purges.Keys == set d | d in purgeSettings && d > 0
      ensures forall d | d in purges :: purges[d] == PurgeCall(PurgeBefore(now, d), purgeSettings[d])
    {
      written := tick;
      purges := map[];
      var todo := purgeSettings.Keys;
      while todo != {}
        invariant todo <= purgeSettings.Keys
        invariant purges.Keys == set d | d in purgeSettings && d !in todo && d > 0
        invariant forall d | d in purges :: purges[d] == PurgeCall(PurgeBefore(now, d), purgeSettings[d])
        decreases |todo|
      {
        EmptyOrHasMember(todo);
        var offset :| offset in todo;
        todo := todo - {offset};
        if offset <= 0 {
          continue;
        }
        purges := purges[offset := PurgeCall(PurgeBefore(now, offset), purgeSettings[offset])];
      }
    }
  }

  lemma EmptyOrHasMember(s: set<int>)
    ensures s == {} || exists x :: x in s
  {
    if forall x :: x !in s {
      assert s == {};
    }
  }

  lemma PurgeGroupsAdd(done: map<TickStatus, int>, s: TickStatus, d: int)
    requires s !in done
    ensures PurgeGroups(done[s := d]) ==
      PurgeGroups(done)[d := (if d in PurgeGroups(done) then PurgeGroups(done)[d] else {}) + {s}]
  {
    var a := PurgeGroups(done[s := d]);
    var b := PurgeGroups(done)[d := (if d in PurgeGroups(done) then PurgeGroups(done)[d] else {}) + {s}];
    assert a.Keys == b.Keys by {
      assert done[s := d].Values == done.Values + {d} by {
        forall v | v in done.Values ensures v in done[s := d].Values {
          var k :| k in done && done[k] == v;
          assert done[s := d][k] == v;
        }
        forall v | v in done[s := d].Values ensures v in done.Values + {d} {
          var k :| k in done[s := d] && done[s := d][k] == v;
          if k != s {
            assert done[k] == v;
          }
        }
        assert done[s := d][s] == d;
      }
    }
    forall e | e in a ensures a[e] == b[e] {
      if e != d {
        var x := set t | t in done && done[t] == e;
        assert a[e] == x;
      }
    }
  }

  /** A status's ticks are purged on exit exactly when its retention offset is positive. */
  lemma PurgedIff(retention: map<TickStatus, int>, s: TickStatus, purges: map<int, PurgeCall>, now: int)
    requires purges.Keys == set d | d in PurgeGroups(retention) && d > 0
    requires forall d | d in purges :: purges[d] == PurgeCall(PurgeBefore(now, d), PurgeGroups(retention)[d])
    ensures (exists d | d in purges :: s in purges[d].statuses) <==> (s in retention && retention[s] > 0)
    ensures forall d | d in purges :: purges[d].before < now
  {
    if s in retention && retention[s] > 0 {
      PurgeGroupsPartition(retention, s, retention[s]);
      assert s in purges[retention[s]].statuses;
    }
    forall d | d in purges && s in purges[d].statuses ensures s in retention && retention[s] > 0 {
      PurgeGroupsPartition(retention, s, d);
    }
  }

  // ---------------------------------------------------------------- iteration checkpoint

  /** `_log_iteration_timestamp`'s guard: no checkpoint is recorded (or it is 0), or it is
      more than an hour old. */
  predicate ShouldLogIteration(data: InstigatorData, now: int) {
    !Recorded(data.lastIterationTimestamp)
      || data.lastIterationTimestamp.value + LAST_RECORDED_ITERATION_INTERVAL_SECONDS < now
  }

  /** The instigator data written, if any: the cron schedule and start kept, the checkpoint
      moved to `now`. */
  function LogIteration(data: InstigatorData, now: int): (r: Option<InstigatorData>)
    ensures r.Some? <==> ShouldLogIteration(data, now)
    ensures r.Some? ==> r.value.cronSchedule == data.cronSchedule && r.value.startTimestamp == data.startTimestamp
    ensures r.Some? ==> r.value.lastIterationTimestamp == Some(now)
  {
    if ShouldLogIteration(data, now) then
      Some(InstigatorData(data.cronSchedule, data.startTimestamp, Some(now)))
    else None
  }

  /** Once a checkpoint is written at a non-zero time, no other is written for the next hour,
      and the first iteration after that hour writes one. */
  lemma LogIterationThrottles(data: InstigatorData, t: int, later: int)
    requires t != 0 && LogIteration(data, t).Some?
    ensures var d := LogIteration(data, t).value;
      && (later <= t + LAST_RECORDED_ITERATION_INTERVAL_SECONDS ==> LogIteration(d, later).None?)
      && (later > t + LAST_RECORDED_ITERATION_INTERVAL_SECONDS ==> LogIteration(d, later) == Some(d.(lastIterationTimestamp := Some(later))))
  {
  }

  // ---------------------------------------------------------------- existing runs

  /** A run found by the tag query, with the repository selector id of its origin, if any. */
  datatype Run = Run(runId: string, originSelectorId: Option<string>)

  /** A run belongs to the schedule's repository, or has no origin to tell. */
  predicate MatchesRepository(run: Run, selectorId: string) {
    run.originSelectorId.None? || run.originSelectorId.value == selectorId
  }

  /** `_get_existing_run_for_request` after the tag query: the matching runs in order, and
      the first of them. */
  method ExistingRunForRequest(existing: seq<Run>, selectorId: string) returns (r: Option<Run>)
    ensures r.None? <==> forall i | 0 <= i < |existing| :: !MatchesRepository(existing[i], selectorId)
    ensures r.Some? ==> exists i | 0 <= i < |existing| ::
      && existing[i] == r.value && MatchesRepository(existing[i], selectorId)
      && forall j | 0 <= j < i :: !MatchesRepository(existing[j], selectorId)
  {
    var matching: seq<Run> := [];
    ghost var firstAt: nat := 0;
    var i := 0;
    while i < |existing|
      invariant 0 <= i <= |existing|
      invariant forall k | 0 <= k < |matching| :: MatchesRepository(matching[k], selectorId)
      invariant matching == [] <==> forall j | 0 <= j < i :: !MatchesRepository(existing[j], selectorId)
      invariant matching != [] ==>
        && firstAt < i && existing[firstAt] == matching[0]
        && forall j | 0 <= j < firstAt :: !MatchesRepository(existing[j], selectorId)
    {
      var run := existing[i];
      if run.originSelectorId.None? {
        if matching == [] { firstAt := i; }
        matching := matching + [run];
      } else if selectorId == run.originSelectorId.value {
        if matching == [] { firstAt := i; }
        matching := matching + [run];
      }
      i := i + 1;
    }
    if |matching| == 0 {
      return None;
    }
    return Some(matching[0]);
  }
}
