/**
 The disk-usage alert monitor (`DiskUsageChecker`).

 Each check takes one measurement of a filesystem, computes the percentage
 of it in use, and, when that is 90% or more, sends one warning message per
 episode of high usage: the monitor remembers in `alertSent` that it has
 already warned, and stays silent until a check finds usage below the
 threshold again, which re-arms it.

 The measurement and the notification transport are outside the model: the
 measurement is a parameter of each check, and a sent message is part of
 the check's result.
 */
module DiskUsageChecker {
  import opened Wrappers
  import opened Units
  import opened Rounding
  import opened Numerals

  /** One measurement: bytes still available and bytes in all. */
  datatype DiskUsage = DiskUsage(available: real, total: real)

  /** The monitor's only state: whether it has warned during the current episode. */
  datatype Monitor = Monitor(alertSent: bool)

  /** A new monitor has not warned yet. */
  const Initial: Monitor := Monitor(false)

  /** Usage, in percent, at or above which the monitor warns. */
  const Threshold: real := 90.0

  /** The figures of a warning, each already rounded by `formatNumber`. */
  datatype Alert = Alert(percent: real, availableGb: real, totalGb: real)

  /** The outcome of one check: the next state and the message sent, if any. */
  datatype Step = Step(monitor: Monitor, sent: Option<Alert>)

  /** The state after a sequence of checks and, per check, the message it sent. */
  datatype Trace = Trace(monitor: Monitor, outputs: seq<Option<Alert>>)

  /** A measurement the monitor can judge: the filesystem has some capacity. */
  predicate Measured(u: DiskUsage)
  {
    u.total > 0.0
  }

  predicate AllMeasured(us: seq<DiskUsage>)
  {
    forall i | 0 <= i < |us| :: Measured(us[i])
  }

  /** Percentage of the filesystem in use, as the monitor computes it. */
  function PercentUsed(u: DiskUsage): (p: real)
    requires Measured(u)
    ensures p * u.total == 100.0 * (u.total - u.available)
    ensures 0.0 <= u.available <= u.total ==> 0.0 <= p <= 100.0
  {
    100.0 - u.available / u.total * 100.0
  }

  /** The monitor's own test for high usage. */
  predicate IsHigh(u: DiskUsage)
    requires Measured(u)
  {
    PercentUsed(u) >= Threshold
  }

  /** High usage stated without percentages: at most a tenth of the capacity is available. */
  predicate HighUsage(u: DiskUsage)
  {
    u.available * 10.0 <= u.total
  }

  /** The percentage test agrees with the tenth-available one; the threshold is inclusive. */
  lemma HighIff(u: DiskUsage)
    requires Measured(u)
    ensures IsHigh(u) <==> HighUsage(u)
  {
    var p := PercentUsed(u);
    var t := u.total;
    if p >= Threshold {
      NonNegativeProduct(p - Threshold, t);
    } else {
      PositiveProduct(Threshold - p, t);
    }
    ScaledComparison(p * t, p, t, u.available);
  }

  /** The percentage comparison, once multiplied out by the capacity. */
  lemma ScaledComparison(pt: real, p: real, t: real, a: real)
    requires pt == 100.0 * (t - a)
    requires p >= 90.0 ==> pt - 90.0 * t >= 0.0
    requires p < 90.0 ==> 90.0 * t - pt > 0.0
    ensures p >= 90.0 <==> a * 10.0 <= t
  {
  }

  lemma NonNegativeProduct(a: real, b: real)
    requires a >= 0.0 && b > 0.0
    ensures a * b >= 0.0
  {
  }

  lemma PositiveProduct(a: real, b: real)
    requires a > 0.0 && b > 0.0
    ensures a * b > 0.0
  {
  }

  predicate WellFormed(a: Alert)
  {
    IsCents(a.percent) && IsCents(a.availableGb) && IsCents(a.totalGb)
  }

  /** The figures reported for a measurement. */
  function AlertFor(u: DiskUsage): (a: Alert)
    requires Measured(u)
    ensures WellFormed(a)
    ensures Abs(a.percent - PercentUsed(u)) <= 0.005
    ensures Abs(a.availableGb * Gigabyte - u.available) <= 0.005 * Gigabyte
    ensures Abs(a.totalGb * Gigabyte - u.total) <= 0.005 * Gigabyte
  {
    var a := Alert(FormatNumber(PercentUsed(u)), FormatNumber(ConvertToGb(u.available)),
                   FormatNumber(ConvertToGb(u.total)));
    assert a.availableGb * Gigabyte - u.available == (a.availableGb - ConvertToGb(u.available)) * Gigabyte;
    assert a.totalGb * Gigabyte - u.total == (a.totalGb - ConvertToGb(u.total)) * Gigabyte;
    a
  }

  const MessageOpening: string := ":rotating_light: Disk usage is **"
  const AfterPercent: string := "%**: **"
  const AfterAvailable: string := " GB** of **"
  const AfterTotal: string := " GB** available :rotating_light:"

  /**
   The text of the warning message: the fixed opening, then the percentage,
   and the fixed closing after the total size.
   */
  function Message(a: Alert): (r: string)
    requires WellFormed(a)
    ensures |r| > |MessageOpening| + |ShowNumber(a.percent)| + |AfterTotal|
    ensures r[..|MessageOpening|] == MessageOpening
    ensures r[|MessageOpening|..|MessageOpening| + |ShowNumber(a.percent)|] == ShowNumber(a.percent)
    ensures r[|r| - |AfterTotal|..] == AfterTotal
  {
    MessageOpening + (ShowNumber(a.percent) + (AfterPercent + (ShowNumber(a.availableGb)
    + (AfterAvailable + (ShowNumber(a.totalGb) + AfterTotal)))))
  }

  /** `checkUsage` on one measurement. */
  function CheckUsage(m: Monitor, u: DiskUsage): (r: Step)
    requires Measured(u)
    ensures r.sent.Some? <==> !m.alertSent && u.available * 10.0 <= u.total
    ensures r.monitor.alertSent <==> u.available * 10.0 <= u.total
    ensures r.sent.Some? ==> r.sent.value == AlertFor(u)
  {
    HighIff(u);
    if IsHigh(u) then
      if m.alertSent then Step(m, None) else Step(Monitor(true), Some(AlertFor(u)))
    else
      Step(Monitor(false), None)
  }

  /** A sequence of checks, one after the other, starting from `m`. */
  function Run(m: Monitor, us: seq<DiskUsage>): (t: Trace)
    requires AllMeasured(us)
    ensures |t.outputs| == |us|
    decreases |us|
  {
    if |us| == 0 then Trace(m, [])
    else
      var before := Run(m, us[..|us| - 1]);
      var step := CheckUsage(before.monitor, us[|us| - 1]);
      Trace(step.monitor, before.outputs + [step.sent])
  }

  /** The number of messages sent. */
  function CountSent(outputs: seq<Option<Alert>>): (n: nat)
    ensures n <= |outputs|
    ensures n == 0 <==> forall i | 0 <= i < |outputs| :: outputs[i].None?
    decreases |outputs|
  {
    if |outputs| == 0 then 0
    else CountSent(outputs[..|outputs| - 1]) + (if outputs[|outputs| - 1].Some? then 1 else 0)
  }

  /** After a sequence of checks, the monitor has warned exactly when the last one was high. */
  lemma {:induction false} RunFinalState(m: Monitor, us: seq<DiskUsage>)
    requires AllMeasured(us)
    ensures Run(m, us).monitor.alertSent == if |us| == 0 then m.alertSent else HighUsage(us[|us| - 1])
  {
  }

  /**
   A check sends a message exactly when it starts an episode: its usage is
   high and the check before it (or, for the first, the initial state) was
   not; and the message reports that check's measurement.
   */
  lemma {:induction false} RunOutputs(m: Monitor, us: seq<DiskUsage>, i: int)
    requires AllMeasured(us)
    requires 0 <= i < |us|
    ensures Run(m, us).outputs[i].Some?
        <==> HighUsage(us[i]) && !(if i == 0 then m.alertSent else HighUsage(us[i - 1]))
    ensures Run(m, us).outputs[i].Some? ==> Run(m, us).outputs[i].value == AlertFor(us[i])
    decreases |us|
  {
    var n := |us|;
    var prefix := us[..n - 1];
    assert AllMeasured(prefix);
    if i < n - 1 {
      RunOutputs(m, prefix, i);
      assert prefix[i] == us[i];
      if i > 0 {
        assert prefix[i - 1] == us[i - 1];
      }
    } else {
      RunFinalState(m, prefix);
      if i > 0 {
        assert prefix[i - 1] == us[i - 1];
      }
    }
  }

  /** Two checks in a row never both send. */
  lemma NoConsecutiveAlerts(m: Monitor, us: seq<DiskUsage>, i: int)
    requires AllMeasured(us)
    requires 0 <= i && i + 1 < |us|
    ensures !(Run(m, us).outputs[i].Some? && Run(m, us).outputs[i + 1].Some?)
  {
    RunOutputs(m, us, i);
    RunOutputs(m, us, i + 1);
  }

  /** Within a stretch of high-usage checks, only the first can send. */
  lemma OneAlertPerEpisode(m: Monitor, us: seq<DiskUsage>, lo: int, hi: int)
    requires AllMeasured(us)
    requires 0 <= lo <= hi <= |us|
    requires forall j | lo <= j < hi :: HighUsage(us[j])
    ensures forall j | lo < j < hi :: Run(m, us).outputs[j].None?
  {
    forall j | lo < j < hi
      ensures Run(m, us).outputs[j].None?
    {
      RunOutputs(m, us, j);
    }
  }

  /**
   Repeated high-usage checks send one message if the monitor had not warned
   yet and none if it had, and leave it in the warned state.
   */
  lemma {:induction false} RepeatedHighSendsOnce(m: Monitor, us: seq<DiskUsage>)
    requires AllMeasured(us)
    requires |us| > 0
    requires forall j | 0 <= j < |us| :: HighUsage(us[j])
    ensures CountSent(Run(m, us).outputs) == if m.alertSent then 0 else 1
    ensures Run(m, us).monitor.alertSent
    decreases |us|
  {
    var n := |us|;
    var prefix := us[..n - 1];
    var t := Run(m, us);
    assert t.outputs[..n - 1] == Run(m, prefix).outputs;
    RunOutputs(m, us, n - 1);
    if n > 1 {
      assert AllMeasured(prefix);
      RepeatedHighSendsOnce(m, prefix);
    }
  }

  /** Checks that all find usage below the threshold send nothing and leave the monitor armed. */
  lemma {:induction false} LowUsageSendsNothing(m: Monitor, us: seq<DiskUsage>)
    requires AllMeasured(us)
    requires forall j | 0 <= j < |us| :: !HighUsage(us[j])
    ensures CountSent(Run(m, us).outputs) == 0
    ensures |us| > 0 ==> !Run(m, us).monitor.alertSent
    decreases |us|
  {
    if |us| > 0 {
      var n := |us|;
      var prefix := us[..n - 1];
      assert Run(m, us).outputs[..n - 1] == Run(m, prefix).outputs;
      assert AllMeasured(prefix);
      LowUsageSendsNothing(m, prefix);
    }
  }

  /** Splits `x + y` at the first occurrence of `c`, which begins `y` and is absent from `x`. */
  lemma SplitAtMarker(x: string, y: string, x': string, y': string, c: char)
    requires x + y == x' + y'
    requires |y| > 0 && y[0] == c && |y'| > 0 && y'[0] == c
    requires forall i | 0 <= i < |x| :: x[i] != c
    requires forall i | 0 <= i < |x'| :: x'[i] != c
    ensures x == x' && y == y'
  {
    assert x == (x + y)[..|x|];
    assert x' == (x' + y')[..|x'|];
    assert y == (x + y)[|x|..];
    assert y' == (x' + y')[|x'|..];
  }

  /** A character that cannot occur in a written number. */
  lemma MarkerNotInNumber(r: real, c: char)
    requires IsCents(r)
    requires !IsNumeralChar(c)
    ensures forall i | 0 <= i < |ShowNumber(r)| :: ShowNumber(r)[i] != c
  {
  }

  /** Strips a common prefix, then a written number ended by a marker that cannot occur in it. */
  lemma SplitNumber(prefix: string, r: real, rest: string, r': real, rest': string)
    requires IsCents(r) && IsCents(r')
    requires prefix + (ShowNumber(r) + rest) == prefix + (ShowNumber(r') + rest')
    requires |rest| > 0 && |rest'| > 0 && rest[0] == rest'[0] && !IsNumeralChar(rest[0])
    ensures r == r' && rest == rest'
  {
    var s, s' := ShowNumber(r) + rest, ShowNumber(r') + rest';
    assert s == (prefix + s)[|prefix|..];
    assert s' == (prefix + s')[|prefix|..];
    MarkerNotInNumber(r, rest[0]);
    MarkerNotInNumber(r', rest[0]);
    SplitAtMarker(ShowNumber(r), rest, ShowNumber(r'), rest', rest[0]);
    ShowNumberInjective(r, r');
  }

  /** The message text determines the figures it reports. */
  lemma MessageDeterminesAlert(a: Alert, b: Alert)
    requires WellFormed(a) && WellFormed(b)
    requires Message(a) == Message(b)
    ensures a == b
  {
    var tailA := AfterAvailable + (ShowNumber(a.totalGb) + AfterTotal);
    var tailB := AfterAvailable + (ShowNumber(b.totalGb) + AfterTotal);
    var restA := AfterPercent + (ShowNumber(a.availableGb) + tailA);
    var restB := AfterPercent + (ShowNumber(b.availableGb) + tailB);
    SplitNumber(MessageOpening, a.percent, restA, b.percent, restB);
    SplitNumber(AfterPercent, a.availableGb, tailA, b.availableGb, tailB);
    SplitNumber(AfterAvailable, a.totalGb, AfterTotal, b.totalGb, AfterTotal);
  }
}
