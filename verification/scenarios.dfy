/**
 The monitor's test scenarios, replayed on the model: fixtures are built as
 multiples of the display-unit divisor, and each check's message text and
 resulting state are the ones the test expects.
 */
module DiskUsageScenarios {
  import opened Wrappers
  import opened Units
  import opened Rounding
  import opened Numerals
  import opened DiskUsageChecker

  /** A tenth of the capacity left: exactly 90% used. */
  const NinetyPercent: DiskUsage := DiskUsage(Gigabyte, 10.0 * Gigabyte)
  /** Nothing left of 20 units. */
  const Full: DiskUsage := DiskUsage(0.0, 20.0 * Gigabyte)
  /** Half of 10 units left. */
  const HalfFull: DiskUsage := DiskUsage(5.0 * Gigabyte, 10.0 * Gigabyte)

  /** A fixture of `available` and `total` whole display units reports those whole numbers. */
  lemma {:induction false} WholeUnitFixture(available: nat, total: nat)
    requires available <= total && total > 0
    ensures AlertFor(DiskUsage(available as real * Gigabyte, total as real * Gigabyte)).availableGb
         == available as real
    ensures AlertFor(DiskUsage(available as real * Gigabyte, total as real * Gigabyte)).totalGb
         == total as real
  {
    ConvertMultiple(available as real);
    ConvertMultiple(total as real);
    FormatNumberWhole(available);
    FormatNumberWhole(total);
  }

  /** The percentage used by a fixture of whole display units. */
  lemma PercentOfWholeUnits(available: nat, total: nat)
    requires available <= total && total > 0
    ensures PercentUsed(DiskUsage(available as real * Gigabyte, total as real * Gigabyte))
         == 100.0 - available as real / total as real * 100.0
  {
    var a, t := available as real, total as real;
    assert (a * Gigabyte) / (t * Gigabyte) == a / t;
  }

  /** At exactly 90% used the monitor warns: the threshold is inclusive. */
  lemma {:induction false} NinetyPercentAlerts()
    ensures CheckUsage(Initial, NinetyPercent) == Step(Monitor(true), Some(Alert(90.0, 1.0, 10.0)))
  {
    PercentOfWholeUnits(1, 10);
    FormatNumberWhole(90);
    WholeUnitFixture(1, 10);
  }

  /** The text of the 90% warning. */
  lemma NinetyPercentMessage()
    ensures WellFormed(Alert(90.0, 1.0, 10.0))
    ensures Message(Alert(90.0, 1.0, 10.0))
         == ":rotating_light: Disk usage is **" + "90" + "%**: **" + "1" + " GB** of **" + "10"
            + " GB** available :rotating_light:"
  {
    ShowWholeNumber(90);
    ShowWholeNumber(1);
    ShowWholeNumber(10);
    assert ShowNat(90) == "90";
    assert ShowNat(10) == "10";
    assert Message(Alert(90.0, 1.0, 10.0))
        == MessageOpening + ("90" + (AfterPercent + ("1" + (AfterAvailable + ("10" + AfterTotal)))));
  }

  /** With nothing available the monitor reports 100%, 0 GB of 20 GB. */
  lemma {:induction false} FullDiskAlerts()
    ensures CheckUsage(Initial, Full) == Step(Monitor(true), Some(Alert(100.0, 0.0, 20.0)))
  {
    PercentOfWholeUnits(0, 20);
    FormatNumberWhole(100);
    WholeUnitFixture(0, 20);
  }

  /** The text of the full-disk warning. */
  lemma FullDiskMessage()
    ensures WellFormed(Alert(100.0, 0.0, 20.0))
    ensures Message(Alert(100.0, 0.0, 20.0))
         == ":rotating_light: Disk usage is **" + "100" + "%**: **" + "0" + " GB** of **" + "20"
            + " GB** available :rotating_light:"
  {
    ShowWholeNumber(100);
    ShowWholeNumber(0);
    ShowWholeNumber(20);
    assert ShowNat(100) == "100";
    assert ShowNat(20) == "20";
    assert Message(Alert(100.0, 0.0, 20.0))
        == MessageOpening + ("100" + (AfterPercent + ("0" + (AfterAvailable + ("20" + AfterTotal)))));
  }

  /** At 50% used nothing is sent and the monitor stays armed. */
  lemma HalfFullIsQuiet()
    ensures CheckUsage(Initial, HalfFull) == Step(Monitor(false), None)
  {
  }

  /** Two checks of a full disk send one message, from the first check. */
  lemma {:induction false} FullDiskTwiceAlertsOnce()
    ensures Run(Initial, [Full, Full]).outputs == [Some(Alert(100.0, 0.0, 20.0)), None]
    ensures Run(Initial, [Full, Full]).monitor.alertSent
    ensures CountSent(Run(Initial, [Full, Full]).outputs) == 1
  {
    FullDiskAlerts();
    assert [Full, Full][..1] == [Full];
    assert [Full][..0] == [];
    assert Run(Initial, []) == Trace(Initial, []);
    var first := Run(Initial, [Full]);
    assert first.monitor == Monitor(true);
    assert first.outputs == [] + [Some(Alert(100.0, 0.0, 20.0))];
    assert CheckUsage(first.monitor, Full) == Step(Monitor(true), None);
  }
}
