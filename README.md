# NetSpeedMon sampler and formatters in Dafny

NetSpeedMon is an Android service that reads the device's total received
and transmitted byte counters once a second. It shows the rate and the
session totals in a status-bar notification. This project models the
service's core, `NetSpeedMonService.kt`, in three modules.

- `NumberText` (`number_text.dfy`) models the JVM conversions the formatters
  rely on:
  - `Long.toString`, as `IntToString` and `NatToString`;
  - the text of a quotient by 1024, 1024² or 1024³, which the source gets
    from `Double.toString`, as `QuotientToString`;
  - `String.indexOf` and the `take(indexOf(".") + n)` cut, as `IndexOf` and
    `TakeThroughPoint`.

  It also has a reader, `ParseDecimal`, that turns the text back into an
  exact decimal. With it, what is displayed can be compared with the number
  it stands for. The divisors are powers of two, so every quotient is a
  dyadic rational with a finite decimal expansion. `QuotientToString` writes
  that exact expansion by integer long division: the whole part, a point,
  then the fractional digits. It stops as soon as the remainder is zero, and
  writes a single `0` when the quotient is whole.

  For the divisor 1024, with a quotient that is zero or from 10^-3 to below
  1024, this is exactly the text `Double.toString` writes. For 1024² and
  1024³, `Double.toString` stops at 17 significant digits where the exact
  expansion can run to 20 or 30 fractional digits. 1048577 / 1048576 gives
  `1.0000009536743164`, for example. For quotients from 10^-3 up, and within
  the upper limits listed under "Left out", the two texts agree in the whole
  part and the first two fractional digits. Those are all that the
  formatters keep. Every quotient the formatters form is at least
  1000 / 1024, because each divides only counts of at least 1000.
- `SpeedFormat` (`speed_format.dfy`) holds the three formatters:
  - `formatSpeedForIcon`, which gives a magnitude and a unit for the icon;
  - `formatSpeed`, the rate text in the notification title;
  - `formatSessionUsage`, the session-total text.

  These are total functions, with the same bands and the same branches as
  the source.
- `Sampler` (`sampler.dfy`) is the sampler state machine. The class
  `NetSpeedMon` holds:
  - the four counters `previousRxBytes`, `previousTxBytes`,
    `sessionStartRxBytes` and `sessionStartTxBytes`;
  - the running flag, which stands for the service-state flow.

  Its methods are `Start`, `StartMon`, `StopMon`, the once-a-second `Tick`,
  `OnStartCommand` and `OnDestroy`.
  - The counter readings are arguments (`Snapshot`).
  - `Tick` returns what it would post to the notification: its `Sample` of
    four numbers, and their rendering `Render` as a `Notice`. `Advance` does
    the counter work. `RenderShows` states what each of the five texts
    shows.
  - Ghost fields record the speed baseline and the sums of the rates
    reported since the last `StartMon`. `Valid()` ties those to the previous
    readings.

  `Session` is the specification of a whole run of ticks. `RunSession`
  drives a real `NetSpeedMon` through one run and is proved equal to it.

Four details of the source shape the model. In each, the model does what
the source does.

- The verbose formatters do not pad. `Double.toString` writes only the digits
  the value needs, so 1024 bytes per second shows as `1.0 Kb/s` and 1 GiB as
  `1.0 GB`, not `1.00`. `SpeedFractionExamples` and `UsageFractionExamples`
  prove these values.
- `stopMon` zeroes only the session baselines (lines 94-100). The previous
  readings keep their values.
- `startMon` reads each counter twice (lines 86-89). The speed baseline comes
  from the first reading and the session baseline from the second. So the
  session total a tick reports is the sum of the speeds reported since
  `startMon`, plus the difference between those two readings. That
  difference is zero when the readings agree.
- The tick is not guarded by the running flag. `Tick` is therefore total.
  The handler only runs it while monitoring is on, because `stopMon` removes
  the pending callback.

## Model

| member | source | states |
|---|---|---|
| NumberText.NatToString | app/src/main/java/jp/ikigai/netspeedmon/services/NetSpeedMonService.kt:151 | the decimal digits of a non-negative count: at least one, all digits, reading back as the count, and no leading zero except for 0 itself |
| NumberText.IntToString | app/src/main/java/jp/ikigai/netspeedmon/services/NetSpeedMonService.kt:151 | `"$speed"` is never empty and starts with a minus sign exactly when the number is negative; IntToStringReads proves it reads back as the number |
| NumberText.IntToStringReads | app/src/main/java/jp/ikigai/netspeedmon/services/NetSpeedMonService.kt:151 | `"$speed"` (Long.toString) reads back as exactly the number, negatives included, and has no superfluous leading zero |
| NumberText.IndexOf | app/src/main/java/jp/ikigai/netspeedmon/services/NetSpeedMonService.kt:154 | indexOf gives -1 exactly when the character is absent; otherwise the position holds it and no earlier position does |
| NumberText.QuotientToStringExact | app/src/main/java/jp/ikigai/netspeedmon/services/NetSpeedMonService.kt:153 | `(speed / 1024.0).toString()` reads back as exactly speed / 2^k, with no leading zero in the whole part, at least one fractional digit and no digit beyond the first that the value does not need |
| NumberText.QuotientToString | app/src/main/java/jp/ikigai/netspeedmon/services/NetSpeedMonService.kt:153 | the text of speed / 2^k has a whole part, a point, and at least one and at most k fractional digits (one when k is 0); QuotientToStringExact proves it reads back as exactly the quotient |
| NumberText.TakeThroughPoint | app/src/main/java/jp/ikigai/netspeedmon/services/NetSpeedMonService.kt:154-155 | `take((indexOf(".") + extra).coerceAtMost(length))` keeps a prefix in which the point stays where it was, with at most extra - 1 characters after it, and is shorter only when it keeps the whole text; CutText and TruncatedQuotient state what those characters are |
| NumberText.CutText | app/src/main/java/jp/ikigai/netspeedmon/services/NetSpeedMonService.kt:154-155 | taking up to indexOf(".") + p + 1 characters leaves the whole part, the point and the first min(p, available) fractional digits |
| NumberText.ShownDigits | app/src/main/java/jp/ikigai/netspeedmon/services/NetSpeedMonService.kt:178-180 | cutting the text p digits after the point is the same as running long division for only p steps |
| NumberText.TruncatedQuotient | app/src/main/java/jp/ikigai/netspeedmon/services/NetSpeedMonService.kt:153-155 | the cut text reads as speed / 2^k truncated to at most p digits: never above the exact quotient and less than 10^-L below it with L digits shown; fewer than p digits only when they are exact; no padding zero |
| SpeedFormat.FormatSpeedForIcon | app/src/main/java/jp/ikigai/netspeedmon/services/NetSpeedMonService.kt:149-171 | unit "B/s" exactly when speed < 1000, "K/s" exactly when 1000 <= speed <= 999*1024, "M/s" exactly above that |
| SpeedFormat.FormatSpeed | app/src/main/java/jp/ikigai/netspeedmon/services/NetSpeedMonService.kt:174-188 | the unit shows the band: " B/s" exactly below 1024, " Kb/s" exactly from 1024 to below 1048576, " Mb/s" exactly from 1048576; SpeedText states the number before the unit |
| SpeedFormat.FormatSessionUsage | app/src/main/java/jp/ikigai/netspeedmon/services/NetSpeedMonService.kt:191-211 | the unit shows the band: " B" exactly below 1024, " KB", " MB" and " GB" exactly in the bands split at 1024², 1024³; UsageText states the number before the unit |
| SpeedFormat.IconMagnitude | app/src/main/java/jp/ikigai/netspeedmon/services/NetSpeedMonService.kt:150-170 | the magnitude is the count itself below 1000 (negatives included); whole KiB in 1024..999*1024; whole MiB from 10 MiB; and in 1000..1023 and 999*1024+1 ..< 10 MiB the quotient truncated to exactly one digit |
| SpeedFormat.SpeedText | app/src/main/java/jp/ikigai/netspeedmon/services/NetSpeedMonService.kt:174-188 | " B/s" after the count below 1024; " Kb/s" after speed/1024 truncated to at most two digits below 1 MiB; " Mb/s" after speed/1048576 truncated to at most two digits from 1 MiB |
| SpeedFormat.UsageText | app/src/main/java/jp/ikigai/netspeedmon/services/NetSpeedMonService.kt:191-211 | " B" after the total below 1024 (negatives included); " KB", " MB" or " GB" after the quotient by 1024, 1024² or 1024³ truncated to at most two digits, bands split at 1024, 1024² and 1024³ |
| SpeedFormat.IconWholeExamples | app/src/main/java/jp/ikigai/netspeedmon/services/NetSpeedMonService.kt:158-169 | -5 and 999 show as themselves in B/s, 1024 as 1 K/s, 999*1024 as 999 K/s, 10485760 as 10 M/s |
| SpeedFormat.IconFractionExamples | app/src/main/java/jp/ikigai/netspeedmon/services/NetSpeedMonService.kt:152-165 | 1000 and 1023 show as 0.9 K/s and 999*1024+1 as 0.9 M/s: truncated, never rounded up |
| SpeedFormat.SpeedWholeExamples | app/src/main/java/jp/ikigai/netspeedmon/services/NetSpeedMonService.kt:176 | -5 and 1023 give "-5 B/s" and "1023 B/s" |
| SpeedFormat.SpeedFractionExamples | app/src/main/java/jp/ikigai/netspeedmon/services/NetSpeedMonService.kt:177-187 | 1024 gives "1.0 Kb/s", 1536 "1.5 Kb/s", 2047 "1.99 Kb/s" (not 2.0), 1048576 "1.0 Mb/s" |
| SpeedFormat.UsageWholeExamples | app/src/main/java/jp/ikigai/netspeedmon/services/NetSpeedMonService.kt:193 | -5 and 1023 give "-5 B" and "1023 B" |
| SpeedFormat.UsageFractionExamples | app/src/main/java/jp/ikigai/netspeedmon/services/NetSpeedMonService.kt:194-210 | 1024 gives "1.0 KB", 1048576 "1.0 MB", 1073741824 "1.0 GB" |
| Sampler.Measure | app/src/main/java/jp/ikigai/netspeedmon/services/NetSpeedMonService.kt:107-111 | each direction's session total is its speed plus how far the previous reading was past the session start; SessionTelescopes and SessionTotal sum this over a session |
| Sampler.RenderShows | app/src/main/java/jp/ikigai/netspeedmon/services/NetSpeedMonService.kt:113-119 | what the notification shows for a sample: the icon's unit picks the band of download + upload and its magnitude reads as that combined rate (whole, or truncated to one digit); each rate text carries its own direction's unit and truncated speed, each usage text its own direction's unit and truncated session total |
| Sampler.Notify | app/src/main/java/jp/ikigai/netspeedmon/services/NetSpeedMonService.kt:113-119 | the hand-off to updateNotification posts the sample's rendering `Render`, which RenderShows characterises; the method only keeps that rendering out of Tick's proof |
| Sampler.NetSpeedMon.constructor | app/src/main/java/jp/ikigai/netspeedmon/services/NetSpeedMonService.kt:36-44 | a new service has all four counters zero and monitoring off |
| Sampler.NetSpeedMon.StartMon | app/src/main/java/jp/ikigai/netspeedmon/services/NetSpeedMonService.kt:85-92 | the previous readings become the first reading of the counters, the session baselines the second, and the sums of reported rates restart at zero |
| Sampler.NetSpeedMon.Start | app/src/main/java/jp/ikigai/netspeedmon/services/NetSpeedMonService.kt:76-83 | while running nothing changes; otherwise monitoring turns on and startMon's baselines are taken |
| Sampler.NetSpeedMon.StopMon | app/src/main/java/jp/ikigai/netspeedmon/services/NetSpeedMonService.kt:94-100 | monitoring off and the session baselines zero; the previous readings, and nothing else, are left as they were |
| Sampler.NetSpeedMon.Tick | app/src/main/java/jp/ikigai/netspeedmon/services/NetSpeedMonService.kt:102-126 | rates are current - previous, session totals current - session start; the notice is their rendering, with the icon getting download + upload; previous becomes current and nothing else changes; each session total is the sum of the rates reported since startMon plus startMon's reading difference |
| Sampler.NetSpeedMon.Advance | app/src/main/java/jp/ikigai/netspeedmon/services/NetSpeedMonService.kt:104-122 | the tick's counter work: rates are current - previous, session totals current - session start, previous becomes current, and each session total is the sum of the rates reported since startMon plus startMon's reading difference |
| Sampler.NetSpeedMon.OnStartCommand | app/src/main/java/jp/ikigai/netspeedmon/services/NetSpeedMonService.kt:55-69 | the ACTION_STOP action stops monitoring (session baselines zero, previous readings kept); any other action, or none, starts it, as a no-op when already running |
| Sampler.NetSpeedMon.OnDestroy | app/src/main/java/jp/ikigai/netspeedmon/services/NetSpeedMonService.kt:71-74 | destroying the service stops monitoring as stopMon does |
| Sampler.SessionAt | app/src/main/java/jp/ikigai/netspeedmon/services/NetSpeedMonService.kt:104-111 | the i-th tick of a session measures its rates from the reading before it (startMon's first reading for the first tick) and its totals from startMon's second reading |
| Sampler.SessionTelescopes | app/src/main/java/jp/ikigai/netspeedmon/services/NetSpeedMonService.kt:107-122 | the rates of a session add up to how far the counters moved from startMon's first reading to the last tick's reading |
| Sampler.SessionTotal | app/src/main/java/jp/ikigai/netspeedmon/services/NetSpeedMonService.kt:110-111 | every session total reported equals the sum of the rates reported up to and including that tick, plus the difference between startMon's two readings |
| Sampler.RunSession | app/src/main/java/jp/ikigai/netspeedmon/services/NetSpeedMonService.kt:102-126 | starting the service and ticking once per reading yields exactly the session's samples |
| Sampler.Restart | app/src/main/java/jp/ikigai/netspeedmon/services/NetSpeedMonService.kt:76-100 | a second start while running keeps the first baselines; after a stop and a start, the next tick is measured against the new start's readings only |

## Left out

- Android notification plumbing is not modelled. This covers
  `updateNotification`, `createNotification`, channels, `startForeground`,
  `stopForeground` and `stopSelf`. It is platform I/O. The tick returns the
  `Notice` it would post instead.
- `createSpeedIcon`, the bitmap drawing of the icon, is not modelled: it is
  float Canvas geometry.
- Handler scheduling is not modelled: `postDelayed`, `removeCallbacks` and
  the 1000 ms interval. A tick is a method call. `RunSession` stands for the
  self-rescheduling loop.
- The state flow and the binder are omitted. The running flag is a plain
  boolean, and observers of its transitions are not modelled.
- `TrafficStats.getTotalRxBytes` and `getTotalTxBytes` are not modelled.
  Their readings are `Snapshot` arguments, including the two reads in
  `startMon`.
- Sampler.NetSpeedMon.Tick: counters and differences are unbounded integers. `Long` wrap-around on subtraction is not modelled; it cannot happen for byte counters below 2^62.
- SpeedFormat.FormatSpeedForIcon: does not model `Long` wrap-around of `download + upload`, for the same reason.
- SpeedFormat.FormatSpeedForIcon: in the M/s band from 999 KiB + 1 to below 10 MiB, the model cuts the exact expansion of speed / 2^20, which can have up to 20 fractional digits, where `Double.toString` writes at most 17 significant digits. The one fractional digit that is kept is the same in both: the quotient is below 10 and exact in a double, so its half unit in the last place is far below 1 / (10 · 2^20), and a quotient that is not on a 0.1 boundary is at least that far from it.
- SpeedFormat.FormatSpeed: shows the exact dyadic quotient, not the text of a `Double`. From a quotient of 10^7, `Double.toString` switches to scientific notation. That is a rate of at least ten million MiB per second.
- SpeedFormat.FormatSessionUsage: the same scientific-notation limit applies. Also, from 2^19 = 524288 GiB, half a unit in the last place of the double can exceed the distance to the nearest 0.01 boundary, which is at least 1 / (25 · 2^30). From there, the shortest round-tripping decimal that `Double.toString` writes can differ from the exact quotient in the second fractional digit. Below that bound, and in every other band, the two agree in the digits shown.
- NumberText.QuotientToString: below 10^-3, other than zero, `Double.toString` writes scientific notation (1 / 1024.0 gives `9.765625E-4`), and the model writes the plain expansion (`0.0009765625`). No formatter reaches this case: every quotient they form is at least 1000 / 1024.
- Rounding of counts above 2^53 when they are converted to `Double` is not modelled.
- `MainScreen.kt`, `ContextExtensions.kt`, `MainActivity.kt` and
  `BootReceiverService.kt` are not part of this model. They are UI,
  platform-settings and boot-intent glue.
