/** The monitor's periodic loop (services/src/cadns/monitor/service.py): fixed rate, no drift, no catch-up bursts. */
module Scheduler {
  import opened Common

  /** One run of a job: when it was due, started and finished, on the monotonic clock in seconds. */
  datatype RunRecord = RunRecord(due: real, start: real, finish: real)

  function Later(a: real, b: real): real {
    if a < b then b else a
  }

  /** Each run starts once due, and the next due time is one interval on, or the finish if that is later. */
  ghost predicate Chained(log: seq<RunRecord>, interval: real, nextRun: real) {
    && interval > 0.0
    && (forall k :: 0 <= k < |log| ==> log[k].due <= log[k].start <= log[k].finish)
    && (forall k :: 0 < k < |log| ==> Follows(log[k - 1], interval, log[k].due))
    && (log != [] ==> Follows(log[|log| - 1], interval, nextRun))
  }

  ghost predicate Follows(r: RunRecord, interval: real, due: real) {
    due == if r.finish <= r.due + interval then r.due + interval else r.finish
  }

  /** The contents of a schedule, with the runs it has made. */
  datatype Timetable = Timetable(interval: real, nextRun: real, log: seq<RunRecord>)

  class Schedule {
    const interval: real
    var nextRun: real
    ghost var log: seq<RunRecord>

    ghost function View(): Timetable
      reads this
    {
      Timetable(interval, nextRun, log)
    }

    ghost predicate Valid()
      reads this
    {
      Chained(log, interval, nextRun)
    }

    constructor (interval: real, nextRun: real)
      requires interval > 0.0
      ensures Valid() && View() == Timetable(interval, nextRun, [])
    {
      this.interval := interval;
      this.nextRun := nextRun;
      log := [];
    }
  }

  ghost predicate Nondecreasing(clock: nat -> real) {
    forall i: nat, j: nat :: i <= j ==> clock(i) <= clock(j)
  }

  /** What any number of passes does to a schedule: runs are only added, each in its turn. */
  ghost predicate Progress(a: Timetable, b: Timetable) {
    && a.interval == b.interval
    && Chained(b.log, b.interval, b.nextRun)
    && a.log <= b.log
    && (a.log == b.log ==> a.nextRun == b.nextRun)
    && (a.log != b.log ==> b.log[|a.log|].due == a.nextRun)
  }

  /** A due job: it runs from `start` to `finish` and is due again one interval on. */
  method RunJob(s: Schedule, start: real, finish: real)
    requires s.Valid() && s.nextRun <= start <= finish
    modifies s
    ensures s.Valid()
    ensures s.View() == AfterRun(old(s.View()), start, finish)
  {
    ghost var record := RunRecord(s.nextRun, start, finish);
    ChainExtends(s.log, s.interval, s.nextRun, record);
    s.log := s.log + [record];
    s.nextRun := Later(s.nextRun + s.interval, finish);
  }

  ghost function AfterRun(a: Timetable, start: real, finish: real): Timetable {
    Timetable(a.interval, Later(a.nextRun + a.interval, finish), a.log + [RunRecord(a.nextRun, start, finish)])
  }

  /** What one pass does to a schedule: runs are added from its due time on, and have started by `latest`. */
  ghost predicate Passed(a: Timetable, b: Timetable, latest: real) {
    && Progress(a, b)
    && a.nextRun <= b.nextRun
    && forall k :: |a.log| <= k < |b.log| ==> a.nextRun <= b.log[k].due && b.log[k].start <= latest
  }

  /** A pass with the reading `now` dealt with a schedule: nothing is overdue, and if it was due it ran. */
  ghost predicate Attended(a: Timetable, b: Timetable, now: real) {
    now <= b.nextRun && (a.nextRun <= now ==> a.log != b.log)
  }

  lemma PassedTwice(a: Timetable, b: Timetable, c: Timetable, latest: real, latest': real, now: real)
    requires Passed(a, b, latest) && Passed(b, c, latest') && latest <= latest'
    ensures Passed(a, c, latest')
    ensures Attended(a, b, now) || Attended(b, c, now) ==> Attended(a, c, now)
  {
  }

  /** The loop body for one schedule, in a pass with the reading `now`. */
  method Visit(s: Schedule, now: real, clock: nat -> real, stopped: bool, ticks: nat) returns (ticks': nat)
    requires s.Valid() && Nondecreasing(clock) && now <= clock(ticks)
    modifies s
    ensures ticks <= ticks'
    ensures Passed(old(s.View()), s.View(), clock(ticks'))
    ensures !stopped ==> Attended(old(s.View()), s.View(), now)
  {
    ticks' := ticks;
    if !stopped && s.nextRun <= now {
      assert clock(ticks) <= clock(ticks + 1) <= clock(ticks + 2);
      RunJob(s, clock(ticks), clock(ticks + 1));
      ticks' := ticks + 2;
    }
  }

  /**
   * One pass over the schedules: `ticks` clock readings and `looks` at the stop event were made before.
   * Unless stopped, the pass runs every job that is due and leaves none overdue.
   */
  method Pass(schedules: seq<Schedule>, clock: nat -> real, stop: nat -> bool, ticks: nat, looks: nat)
    returns (ticks': nat, looks': nat)
    requires Nondecreasing(clock)
    requires forall s :: s in schedules ==> s.Valid()
    modifies schedules
    ensures ticks' > ticks
    ensures forall s :: s in schedules ==> Passed(old(s.View()), s.View(), clock(ticks'))
    ensures (forall i :: !stop(i)) ==> forall s :: s in schedules ==> Attended(old(s.View()), s.View(), clock(ticks))
  {
    var now := clock(ticks);
    ticks', looks' := ticks + 1, looks;
    for j := 0 to |schedules|
      invariant ticks' > ticks
      invariant forall s :: s in schedules ==> Passed(old(s.View()), s.View(), clock(ticks'))
      invariant (forall i :: !stop(i)) ==>
                  forall s :: s in schedules[..j] ==> Attended(old(s.View()), s.View(), now)
    {
      var s, before := schedules[j], ticks';
      assert s in schedules && Passed(old(s.View()), s.View(), clock(before));
      assert schedules[..j + 1] == schedules[..j] + [s];
      assert now <= clock(before);
      label visit:
      ticks' := Visit(s, now, clock, stop(looks'), before);
      looks' := looks' + 1;
      assert clock(before) <= clock(ticks');
      forall u | u in schedules
        ensures Passed(old(u.View()), u.View(), clock(ticks'))
        ensures (forall i :: !stop(i)) && u in schedules[..j + 1] ==> Attended(old(u.View()), u.View(), now)
      {
        assert Passed(old(u.View()), old@visit(u.View()), clock(before));
        assert u != s ==> u.View() == old@visit(u.View());
        PassedTwice(old(u.View()), old@visit(u.View()), u.View(), clock(before), clock(ticks'), now);
      }
    }
    assert schedules[..|schedules|] == schedules;
  }

  ghost predicate StartedBy(log: seq<RunRecord>, from: nat, latest: real) {
    forall k :: from <= k < |log| ==> log[k].start <= latest
  }

  /** Every run numbered `from` and up that was due before a pass started by the next one, and no run is overdue. */
  ghost predicate NeverLate(a: Timetable, from: nat, readings: seq<real>) {
    && (forall k, m :: from <= k < |a.log| && 0 <= m < |readings| - 1 && a.log[k].due < readings[m] ==>
                         a.log[k].start <= readings[m + 1])
    && (readings != [] ==> readings[|readings| - 1] <= a.nextRun)
  }

  /** One more pass keeps it: its own runs were not due before the previous reading. */
  lemma NeverLateExtends(a: Timetable, b: Timetable, from: nat, readings: seq<real>, now: real)
    requires NeverLate(a, from, readings) && from <= |a.log| && StartedBy(a.log, from, now)
    requires a.log <= b.log && now <= b.nextRun
    requires forall k :: |a.log| <= k < |b.log| ==> a.nextRun <= b.log[k].due
    requires forall i, j :: 0 <= i <= j < |readings| ==> readings[i] <= readings[j]
    ensures NeverLate(b, from, readings + [now])
  {
    var all := readings + [now];
    forall k, m | from <= k < |b.log| && 0 <= m < |all| - 1 && b.log[k].due < all[m]
      ensures b.log[k].start <= all[m + 1]
    {
      assert all[m] == readings[m] <= readings[|readings| - 1];
      if k < |a.log| {
        assert b.log[k] == a.log[k];
        assert m < |readings| - 1 ==> all[m + 1] == readings[m + 1];
      }
    }
  }

  /**
   * Monitor.run for at most `passes` passes: clock(i) is the i-th reading of the monotonic clock,
   * stop(i) the i-th look at the stop event. Job durations and sleeps are whatever the clock says;
   * `readings` are the clock readings with which the passes began. Unless stopped, no job is ever
   * passed over: one due before a pass has started when the next pass begins, and after the last
   * pass none is overdue.
   */
  method Run(schedules: seq<Schedule>, clock: nat -> real, stop: nat -> bool, passes: nat)
    returns (ghost readings: seq<real>)
    requires Nondecreasing(clock)
    requires forall s :: s in schedules ==> s.Valid()
    modifies schedules
    ensures forall s :: s in schedules ==> Progress(old(s.View()), s.View())
    ensures (forall i :: !stop(i)) ==>
              |readings| == passes && forall s :: s in schedules ==> NeverLate(s.View(), |old(s.log)|, readings)
  {
    readings := [];
    var ticks, looks := 0, 0;
    for pass := 0 to passes
      invariant forall i, j :: 0 <= i <= j < |readings| ==> readings[i] <= readings[j] <= clock(ticks)
      invariant forall s :: s in schedules ==> Progress(old(s.View()), s.View())
      invariant forall s :: s in schedules ==> StartedBy(s.log, |old(s.log)|, clock(ticks))
      invariant (forall i :: !stop(i)) ==>
                  |readings| == pass && forall s :: s in schedules ==> NeverLate(s.View(), |old(s.log)|, readings)
    {
      var stopped := stop(looks);
      looks := looks + 1;
      if stopped {
        return;
      }
      label before:
      ghost var now := clock(ticks);
      ticks, looks := Pass(schedules, clock, stop, ticks, looks);
      assert now <= clock(ticks);
      forall s | s in schedules
        ensures Progress(old(s.View()), s.View()) && StartedBy(s.log, |old(s.log)|, clock(ticks))
        ensures (forall i :: !stop(i)) ==> NeverLate(s.View(), |old(s.log)|, readings + [now])
      {
        assert Passed(old@before(s.View()), s.View(), clock(ticks));
        if forall i :: !stop(i) {
          NeverLateExtends(old@before(s.View()), s.View(), |old(s.log)|, readings, now);
        }
      }
      readings := readings + [now];
    }
  }

  lemma ChainExtends(log: seq<RunRecord>, interval: real, nextRun: real, r: RunRecord)
    requires Chained(log, interval, nextRun)
    requires r.due == nextRun && r.due <= r.start <= r.finish
    ensures Chained(log + [r], interval, Later(nextRun + interval, r.finish))
  {
    var all := log + [r];
    forall k | 0 < k < |all|
      ensures Follows(all[k - 1], interval, all[k].due)
    {
    }
  }

  // ----- what a chained log promises -----

  /** The due time a chained log gives after j runs, counted from run i. */
  lemma {:induction false} DueAtLeast(log: seq<RunRecord>, interval: real, nextRun: real, i: nat, j: nat)
    requires Chained(log, interval, nextRun) && i <= j < |log|
    ensures log[j].due >= log[i].due + (j - i) as real * interval
    decreases j
  {
    if i < j {
      DueAtLeast(log, interval, nextRun, i, j - 1);
      assert Follows(log[j - 1], interval, log[j].due);
      assert (j - i) as real * interval == (j - 1 - i) as real * interval + interval;
    }
  }

  ghost predicate OnTime(log: seq<RunRecord>, interval: real, k: nat)
    requires k <= |log|
  {
    forall j :: 0 <= j < k ==> log[j].finish <= log[j].due + interval
  }

  /**
   * No drift: the k-th due time is the first plus k intervals exactly when every earlier run was
   * done by its next due time.
   */
  lemma {:induction false} NoDriftIffOnTime(log: seq<RunRecord>, interval: real, nextRun: real, k: nat)
    requires Chained(log, interval, nextRun) && k < |log|
    ensures log[k].due >= log[0].due + k as real * interval
    ensures log[k].due == log[0].due + k as real * interval <==> OnTime(log, interval, k)
  {
    if k > 0 {
      NoDriftIffOnTime(log, interval, nextRun, k - 1);
      assert Follows(log[k - 1], interval, log[k].due);
      assert k as real * interval == (k - 1) as real * interval + interval;
      assert OnTime(log, interval, k) <==>
          OnTime(log, interval, k - 1) && log[k - 1].finish <= log[k - 1].due + interval;
    }
  }

  lemma QuotientBound(n: int, interval: real, length: real)
    requires interval > 0.0 && n as real * interval <= length
    ensures n <= (length / interval).Floor
  {
    assert n as real <= length / interval;
  }

  /** Runs i and j lie within `length` of each other: only so many can fit between them. */
  lemma RunsApart(log: seq<RunRecord>, interval: real, nextRun: real, i: nat, j: nat, length: real)
    requires Chained(log, interval, nextRun) && i <= j < |log| && length >= 0.0
    requires log[j].start - log[i].start <= length
    ensures j - i + 1 <= (length / interval).Floor + 2
  {
    if i < j {
      DueAtLeast(log, interval, nextRun, i + 1, j);
      assert Follows(log[i], interval, log[i + 1].due);
      assert log[i].start <= log[i].finish <= log[i + 1].due && log[j].due <= log[j].start;
      var n: int := j - (i + 1);
      assert n as real * interval <= log[j].due - log[i + 1].due;
      QuotientBound(n, interval, length);
    } else {
      assert 0.0 <= length / interval;
    }
  }

  lemma {:induction false} RangeSize(s: set<int>, lo: int, hi: int)
    requires lo <= hi + 1 && forall x :: x in s ==> lo <= x <= hi
    ensures |s| <= hi - lo + 1
    decreases hi - lo + 1
  {
    if lo <= hi {
      RangeSize(s - {hi}, lo, hi - 1);
      assert |s| <= |s - {hi}| + 1;
    } else if s != {} {
      var x := Pick(s);
      assert false;
    }
  }

  ghost function StartsWithin(log: seq<RunRecord>, from: real, length: real): set<int> {
    set k | 0 <= k < |log| && from <= log[k].start <= from + length
  }

  /** Rate bound: a window of any length contains at most floor(length / interval) + 2 starts, however late jobs run. */
  lemma RateBound(log: seq<RunRecord>, interval: real, nextRun: real, from: real, length: real)
    requires Chained(log, interval, nextRun) && length >= 0.0
    ensures |StartsWithin(log, from, length)| <= (length / interval).Floor + 2
  {
    var ks := StartsWithin(log, from, length);
    if ks == {} {
      assert 0.0 <= length / interval;
    } else {
      var i, j := MinOf(ks), MaxOf(ks);
      RunsApart(log, interval, nextRun, i, j, length);
      RangeSize(ks, i, j);
    }
  }
}
