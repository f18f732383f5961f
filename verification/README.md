# Disk-usage alert monitor

A Dafny model of the disk-usage monitor (`DiskUsageChecker`) of a swap
backend. On each check the monitor takes one measurement of a filesystem
(`available` and `total` bytes), computes the percentage in use as
`100 - available / total * 100`, and, when that is 90% or more, sends the
operators one warning of the form

    :rotating_light: Disk usage is **{percent}%**: **{available} GB** of **{total} GB** available :rotating_light:

It remembers in its one piece of state, `alertSent`, that it has warned, and
sends nothing more while usage stays high. Byte counts are shown in the
monitor's display unit, a divisor it calls `gigabyte` whose value is 2^20
(1,048,576), and every figure is rounded to at most two decimal places by
`formatNumber`.

The model follows the assertions of the unit test
`test/unit/notifications/DiskUsageChecker.spec.ts`; where the test is silent,
any below-threshold check clears `alertSent` whatever its previous value,
re-arming the monitor for the next episode of high usage.

A measurement only needs a positive capacity. One that is inconsistent (more
available than the capacity, or a negative amount available) is judged by
the same formula: more available than the capacity is below the threshold
and re-arms the monitor, a negative amount is above it.

Layout:

- `wrappers.dfy` — `Option`.
- `units.dfy` — `Units`: the `Gigabyte` divisor and `convertToGb`.
- `rounding.dfy` — `Rounding`: `formatNumber`, rounding to hundredths.
- `numerals.dfy` — `Numerals`: how a rounded number is written in the
  message (as a JavaScript number prints: no trailing zeros, no fraction for
  a whole number), and reading it back.
- `disk_usage_checker.dfy` — `DiskUsageChecker`: the measurement, the
  monitor state, the alert and its text, one check (`CheckUsage`) and a
  sequence of checks (`Run`).
- `scenarios.dfy` — `DiskUsageScenarios`: the test's fixtures and expected
  outcomes.

The monitor is a pure step function `CheckUsage(monitor, usage) -> Step(monitor', sent)`;
the message sent, if any, is returned rather than handed to a transport.

## Model

| member | source | states |
|---|---|---|
| `Units.ConvertToGb` | test/unit/notifications/DiskUsageChecker.spec.ts:57-63 | converting bytes to display units is exact division by the divisor: the result times the divisor is the byte count, and a non-negative count gives a non-negative figure |
| `Units.ConvertExamples` | test/unit/notifications/DiskUsageChecker.spec.ts:57-63 | 536870912, 1073741824 and 2147483648 bytes convert to 512, 1024 and 2048, which fixes the divisor at 2^20 |
| `Units.ConvertMultiple` | test/unit/notifications/DiskUsageChecker.spec.ts:19-34 | a byte count built as k times the divisor converts to exactly k |
| `Rounding.RoundCents` | test/unit/notifications/DiskUsageChecker.spec.ts:50-55 | the chosen number of hundredths is within half a hundredth of the input, and a tie goes away from zero |
| `Rounding.FormatNumber` | test/unit/notifications/DiskUsageChecker.spec.ts:50-55 | the result has at most two decimal places, differs from the input by at most 0.005, and is non-negative for a non-negative input |
| `Rounding.RoundCentsUnique` | test/unit/notifications/DiskUsageChecker.spec.ts:50-55 | the rounding rule (nearest hundredth, ties away from zero) has exactly one answer, the one `FormatNumber` gives |
| `Rounding.RoundCentsNearest` | test/unit/notifications/DiskUsageChecker.spec.ts:50-55 | no whole number of hundredths is closer to the input than the rounded one |
| `Rounding.FormatNumberIdempotent` | test/unit/notifications/DiskUsageChecker.spec.ts:50-55 | rounding a rounded value changes nothing |
| `Rounding.FormatNumberFixesCents` | test/unit/notifications/DiskUsageChecker.spec.ts:50-55 | a value that already has at most two decimal places is returned unchanged |
| `Rounding.FormatNumberWhole` | test/unit/notifications/DiskUsageChecker.spec.ts:54 | a value that is a whole number is returned as that whole number |
| `Rounding.FormatNumberExamples` | test/unit/notifications/DiskUsageChecker.spec.ts:50-55 | 100.123 rounds to 100.12 and 100.0000123 rounds to 100 |
| `Numerals.ShowNat` | test/unit/notifications/DiskUsageChecker.spec.ts:84-86 | a whole number is written as a non-empty string of decimal digits without a leading zero |
| `Numerals.ParseShowNat` | test/unit/notifications/DiskUsageChecker.spec.ts:84-86 | reading the digits written for a whole number gives that number back |
| `Numerals.ReadShowCents` | test/unit/notifications/DiskUsageChecker.spec.ts:84-86 | reading a written two-decimal number gives back its number of hundredths, for negative values too |
| `Numerals.ShowNumberInjective` | test/unit/notifications/DiskUsageChecker.spec.ts:84-86 | two different rounded figures are never written the same way |
| `Numerals.ShowNumber` | test/unit/notifications/DiskUsageChecker.spec.ts:85 | a rounded figure is written as a non-empty string of digits, decimal point and minus sign only, so it never contains the `%` or space that follow it in the message; reading it back gives the figure (`ReadShowCents`) |
| `Numerals.ShowWholeNumber` | test/unit/notifications/DiskUsageChecker.spec.ts:85 | a whole figure appears in the message without a fractional part ("90", "1", "10") |
| `DiskUsageChecker.PercentUsed` | test/unit/notifications/DiskUsageChecker.spec.ts:78-108 | the percentage used times the capacity is 100 times the used bytes, and lies between 0 and 100 for a consistent measurement |
| `DiskUsageChecker.HighIff` | test/unit/notifications/DiskUsageChecker.spec.ts:78-86 | usage is at or above the 90% threshold exactly when at most a tenth of the capacity is available; the threshold is inclusive |
| `DiskUsageChecker.AlertFor` | test/unit/notifications/DiskUsageChecker.spec.ts:84-86 | the reported percentage and sizes have at most two decimals and lie within half a hundredth of the exact percentage and of the exact sizes in display units |
| `DiskUsageChecker.Message` | test/unit/notifications/DiskUsageChecker.spec.ts:85 | the message opens with ":rotating_light: Disk usage is **", followed directly by the written percentage, and closes with " GB** available :rotating_light:" |
| `DiskUsageChecker.CheckUsage` | test/unit/notifications/DiskUsageChecker.spec.ts:78-119 | a check sends a message exactly when the monitor had not warned and at most a tenth of the capacity is available; the monitor is in the warned state afterwards exactly when usage is high; a sent message reports the measurement |
| `DiskUsageChecker.Run` | test/unit/notifications/DiskUsageChecker.spec.ts:111-119 | a sequence of checks yields exactly one output per check, a message or none, so no check sends more than one message |
| `DiskUsageChecker.CountSent` | test/unit/notifications/DiskUsageChecker.spec.ts:111-119 | the number of messages sent over a sequence of checks is at most the number of checks, and is zero exactly when no check sent one |
| `DiskUsageChecker.RunFinalState` | test/unit/notifications/DiskUsageChecker.spec.ts:78-119 | after a sequence of checks the monitor is in the warned state exactly when the last check found high usage |
| `DiskUsageChecker.RunOutputs` | test/unit/notifications/DiskUsageChecker.spec.ts:78-119 | in a sequence of checks, check i sends exactly when its usage is high and the previous check's was not (for the first, when the monitor had not warned), and the message reports check i's measurement |
| `DiskUsageChecker.NoConsecutiveAlerts` | test/unit/notifications/DiskUsageChecker.spec.ts:111-119 | two consecutive checks never both send |
| `DiskUsageChecker.OneAlertPerEpisode` | test/unit/notifications/DiskUsageChecker.spec.ts:111-119 | within a stretch of high-usage checks only the first can send |
| `DiskUsageChecker.RepeatedHighSendsOnce` | test/unit/notifications/DiskUsageChecker.spec.ts:111-119 | any non-empty sequence of high-usage checks sends one message from the not-warned state and none from the warned state, and ends in the warned state |
| `DiskUsageChecker.LowUsageSendsNothing` | test/unit/notifications/DiskUsageChecker.spec.ts:101-108 | checks that all find usage below the threshold send nothing and leave the monitor not warned |
| `DiskUsageChecker.MessageDeterminesAlert` | test/unit/notifications/DiskUsageChecker.spec.ts:84-98 | the message text determines the percentage and sizes it reports: different alerts give different texts |
| `DiskUsageScenarios.WholeUnitFixture` | test/unit/notifications/DiskUsageChecker.spec.ts:19-34 | a measurement built from whole multiples of the divisor reports those whole numbers as its sizes |
| `DiskUsageScenarios.PercentOfWholeUnits` | test/unit/notifications/DiskUsageChecker.spec.ts:21-34 | the percentage used of such a measurement does not depend on the divisor |
| `DiskUsageScenarios.NinetyPercentAlerts` | test/unit/notifications/DiskUsageChecker.spec.ts:78-83 | 1 of 10 units available, from the not-warned state, sends an alert of 90%, 1 and 10 and leaves the monitor warned |
| `DiskUsageScenarios.NinetyPercentMessage` | test/unit/notifications/DiskUsageChecker.spec.ts:84-86 | that alert's text is ":rotating_light: Disk usage is **90%**: **1 GB** of **10 GB** available :rotating_light:" |
| `DiskUsageScenarios.FullDiskAlerts` | test/unit/notifications/DiskUsageChecker.spec.ts:88-95 | 0 of 20 units available, from the not-warned state, sends an alert of 100%, 0 and 20 and leaves the monitor warned |
| `DiskUsageScenarios.FullDiskMessage` | test/unit/notifications/DiskUsageChecker.spec.ts:96-98 | that alert's text is ":rotating_light: Disk usage is **100%**: **0 GB** of **20 GB** available :rotating_light:" |
| `DiskUsageScenarios.HalfFullIsQuiet` | test/unit/notifications/DiskUsageChecker.spec.ts:101-108 | 5 of 10 units available, from the not-warned state, sends nothing and leaves the monitor not warned |
| `DiskUsageScenarios.FullDiskTwiceAlertsOnce` | test/unit/notifications/DiskUsageChecker.spec.ts:111-119 | two checks of a full disk from the not-warned state send one message, on the first check, and leave the monitor warned |

## Left out

- Reading the measurement (`getUsage`, which runs the `df` command): operating-system I/O; the measurement is a parameter of each check.
- The notification transport (`NotificationClient.sendMessage`) and the logger: external I/O; a sent message is returned as part of the check's result.
- Asynchronous execution of `checkUsage`: each check is one atomic step; overlapping checks are not modelled.
- Failures: a failing measurement and a failing send are not modelled; the unit test does not exercise these failures.
- DiskUsageChecker.CheckUsage: requires a positive capacity, which the measurement is promised to have; the code's behaviour for a zero capacity (a JavaScript division by zero) is not modelled.
- Floating point: percentages, conversions and rounding are exact over `real`, so rounding errors of JavaScript numbers (and their ties that are not exactly representable) are not reproduced.
- Rounding.FormatNumber: rounds ties away from zero; JavaScript's rounding of negative ties may differ (no negative figure arises for a consistent measurement).
- Numerals.ShowNumber: writes numbers in plain decimal; JavaScript's exponent notation for numbers of 10^21 and more is not modelled.
- The chain client integration test (`test/integration/chain/ElementsClient.spec.ts`): network calls to a live node, with no state logic to model.
