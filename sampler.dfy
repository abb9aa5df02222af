/** The sampler of NetSpeedMonService: four byte counters and the running flag,
    updated by start, startMon, stopMon and the once-a-second tick. The device's
    counters are read by the caller and passed in as snapshots, and the tick
    returns the notification it would post. */
module Sampler {
  import opened NumberText
  import opened SpeedFormat

  /** One reading of the device's total received and transmitted byte counts. */
  datatype Snapshot = Snapshot(rx: int, tx: int)

  /** The four numbers one tick computes: the bytes since the previous tick and
      the bytes since the session started, per direction. */
  datatype Sample = Sample(downloadSpeed: int, uploadSpeed: int, sessionDownload: int, sessionUpload: int)

  /** The texts one tick hands to the notification: the icon's combined rate and
      the title's and body's four strings. */
  datatype Notice = Notice(totalSpeed: Icon, downloadSpeed: string, uploadSpeed: string,
                           sessionDownload: string, sessionUpload: string)

  /** How a tick formats its sample for the notification. */
  function Render(s: Sample): Notice {
    Notice(FormatSpeedForIcon(s.downloadSpeed + s.uploadSpeed),
           FormatSpeed(s.downloadSpeed), FormatSpeed(s.uploadSpeed),
           FormatSessionUsage(s.sessionDownload), FormatSessionUsage(s.sessionUpload))
  }

  /** What the notification shows for a sample: the icon the combined rate of
      both directions in its band, each rate text its own direction's speed,
      and each usage text its own direction's session total, each read back
      as the number it stands for. */
  lemma RenderShows(s: Sample)
    ensures ShowsIcon(Render(s).totalSpeed, s.downloadSpeed + s.uploadSpeed)
    ensures ShowsRate(Render(s).downloadSpeed, s.downloadSpeed)
    ensures ShowsRate(Render(s).uploadSpeed, s.uploadSpeed)
    ensures ShowsUsage(Render(s).sessionDownload, s.sessionDownload)
    ensures ShowsUsage(Render(s).sessionUpload, s.sessionUpload)
  {
    IconShown(s.downloadSpeed + s.uploadSpeed);
    RateShown(s.downloadSpeed);
    RateShown(s.uploadSpeed);
    UsageShown(s.sessionDownload);
    UsageShown(s.sessionUpload);
  }

  lemma IconShown(total: int)
    ensures ShowsIcon(FormatSpeedForIcon(total), total)
  {
    IconMagnitude(total);
  }

  lemma RateShown(speed: int)
    ensures ShowsRate(FormatSpeed(speed), speed)
  {
    SpeedText(speed);
  }

  lemma UsageShown(total: int)
    ensures ShowsUsage(FormatSessionUsage(total), total)
  {
    UsageText(total);
  }

  /** The icon shows the rate: the unit picks the band, and the magnitude is
      the count, the whole KiB or MiB, or the quotient truncated to one
      digit. */
  predicate ShowsIcon(icon: Icon, total: int) {
    && (icon.unit == "B/s" <==> total < 1000)
    && (icon.unit == "K/s" <==> 1000 <= total <= 999 * KiB)
    && (icon.unit == "M/s" <==> 999 * KiB < total)
    && (total < 1000 ==> ShowsWhole(icon.magnitude, total, 0))
    && (1000 <= total <= 1023 ==> ShowsTruncated(icon.magnitude, total, 10, 1))
    && (1024 <= total <= 999 * KiB ==> ShowsWhole(icon.magnitude, total, 10))
    && (999 * KiB < total < 10 * MiB ==> ShowsTruncated(icon.magnitude, total, 20, 1))
    && (10 * MiB <= total ==> ShowsWhole(icon.magnitude, total, 20))
  }

  /** A rate text shows the rate: the count in B/s below 1 KiB, otherwise the
      quotient in Kb/s or Mb/s truncated to at most two digits. */
  predicate ShowsRate(text: string, speed: int) {
    && (speed < KiB ==> EndsWith(text, " B/s") && ShowsWhole(Before(text, " B/s"), speed, 0))
    && (KiB <= speed < MiB ==> EndsWith(text, " Kb/s") && ShowsTruncated(Before(text, " Kb/s"), speed, 10, 2))
    && (MiB <= speed ==> EndsWith(text, " Mb/s") && ShowsTruncated(Before(text, " Mb/s"), speed, 20, 2))
  }

  /** A usage text shows the total: the count in B below 1 KiB, otherwise the
      quotient in KB, MB or GB truncated to at most two digits. */
  predicate ShowsUsage(text: string, total: int) {
    && (total < KiB ==> EndsWith(text, " B") && ShowsWhole(Before(text, " B"), total, 0))
    && (KiB <= total < MiB ==> EndsWith(text, " KB") && ShowsTruncated(Before(text, " KB"), total, 10, 2))
    && (MiB <= total < GiB ==> EndsWith(text, " MB") && ShowsTruncated(Before(text, " MB"), total, 20, 2))
    && (GiB <= total ==> EndsWith(text, " GB") && ShowsTruncated(Before(text, " GB"), total, 30, 2))
  }

  /** The bytes received over a run of ticks: the sum of their download speeds. */
  function TotalDownload(h: seq<Sample>): int {
    if h == [] then 0 else TotalDownload(h[..|h| - 1]) + h[|h| - 1].downloadSpeed
  }

  /** The bytes transmitted over a run of ticks: the sum of their upload speeds. */
  function TotalUpload(h: seq<Sample>): int {
    if h == [] then 0 else TotalUpload(h[..|h| - 1]) + h[|h| - 1].uploadSpeed
  }

  /** The arithmetic of one tick: speeds against the previous reading, session
      totals against the session start. */
  function Measure(previous: Snapshot, sessionStart: Snapshot, current: Snapshot): (s: Sample)
    ensures s.sessionDownload == (previous.rx - sessionStart.rx) + s.downloadSpeed
    ensures s.sessionUpload == (previous.tx - sessionStart.tx) + s.uploadSpeed
  {
    Sample(current.rx - previous.rx, current.tx - previous.tx,
           current.rx - sessionStart.rx, current.tx - sessionStart.tx)
  }

  /** The counter reading the i-th tick of a session measures its speed from:
      the first startMon reading for the first tick, the previous tick's after. */
  function Prior(first: Snapshot, readings: seq<Snapshot>, i: nat): Snapshot
    requires i <= |readings|
  {
    if i == 0 then first else readings[i - 1]
  }

  /** The samples of a session whose startMon read first and then second, and
      whose ticks read the given counters in order. */
  function Session(first: Snapshot, second: Snapshot, readings: seq<Snapshot>): (h: seq<Sample>)
    ensures |h| == |readings|
  {
    if readings == [] then []
    else
      var n := |readings| - 1;
      Session(first, second, readings[..n]) + [Measure(Prior(first, readings, n), second, readings[n])]
  }

  /** One more reading adds one sample to a session. */
  lemma SessionStep(first: Snapshot, second: Snapshot, readings: seq<Snapshot>, i: nat)
    requires i < |readings|
    ensures Session(first, second, readings[..i + 1])
         == Session(first, second, readings[..i]) + [Measure(Prior(first, readings, i), second, readings[i])]
  {
    var cut := readings[..i + 1];
    assert cut[..i] == readings[..i];
    assert Prior(first, cut, i) == Prior(first, readings, i);
  }

  /** Every tick of a session: its speed is measured from the reading before
      it, its session total from startMon's second reading. */
  lemma {:induction false} SessionAt(first: Snapshot, second: Snapshot, readings: seq<Snapshot>, i: nat)
    requires i < |readings|
    ensures Session(first, second, readings)[i] == Measure(Prior(first, readings, i), second, readings[i])
  {
    var n := |readings| - 1;
    if i < n {
      var shorter := readings[..n];
      SessionAt(first, second, shorter, i);
      assert Prior(first, shorter, i) == Prior(first, readings, i);
    }
  }

  /** A session cut after k ticks is the session of the first k readings. */
  lemma {:induction false} SessionPrefix(first: Snapshot, second: Snapshot, readings: seq<Snapshot>, k: nat)
    requires k <= |readings|
    ensures Session(first, second, readings)[..k] == Session(first, second, readings[..k])
    decreases |readings|
  {
    if k < |readings| {
      var n := |readings| - 1;
      SessionPrefix(first, second, readings[..n], k);
      assert readings[..n][..k] == readings[..k];
    } else {
      assert readings[..k] == readings;
    }
  }

  /** The speeds of a session add up to how far the counters moved from
      startMon's first reading to the last tick's. */
  lemma {:induction false} SessionTelescopes(first: Snapshot, second: Snapshot, readings: seq<Snapshot>)
    ensures TotalDownload(Session(first, second, readings)) == Prior(first, readings, |readings|).rx - first.rx
    ensures TotalUpload(Session(first, second, readings)) == Prior(first, readings, |readings|).tx - first.tx
  {
    if readings != [] {
      var n := |readings| - 1;
      var shorter := readings[..n];
      var h := Session(first, second, readings);
      SessionTelescopes(first, second, shorter);
      assert Prior(first, shorter, n) == Prior(first, readings, n);
      assert h[..n] == Session(first, second, shorter);
    }
  }

  /** Each session total a tick reports is the sum of the speeds reported so
      far, plus the difference between startMon's two readings. */
  lemma SessionTotal(first: Snapshot, second: Snapshot, readings: seq<Snapshot>, i: nat)
    requires i < |readings|
    ensures var h := Session(first, second, readings);
      && h[i].sessionDownload == TotalDownload(h[..i + 1]) + (first.rx - second.rx)
      && h[i].sessionUpload == TotalUpload(h[..i + 1]) + (first.tx - second.tx)
  {
    var h := Session(first, second, readings);
    var cut := readings[..i + 1];
    SessionAt(first, second, readings, i);
    SessionPrefix(first, second, readings, i + 1);
    SessionTelescopes(first, second, cut);
    assert Prior(first, cut, i + 1) == readings[i];
    assert TotalDownload(h[..i + 1]) == readings[i].rx - first.rx;
    assert TotalUpload(h[..i + 1]) == readings[i].tx - first.tx;
  }

  /** The hand-off to updateNotification. It only keeps Render's body out of
      Tick's proof; RenderShows states what the five texts show. */
  method Notify(s: Sample) returns (n: Notice)
    ensures n == Render(s)
    ensures n.totalSpeed == FormatSpeedForIcon(s.downloadSpeed + s.uploadSpeed)
  {
    n := Render(s);
  }

  class NetSpeedMon {
    var previousRxBytes: int
    var previousTxBytes: int
    var sessionStartRxBytes: int
    var sessionStartTxBytes: int
    /** The service state flow: whether monitoring is on. */
    var running: bool

    /** The counter values the current run of ticks started from. */
    ghost var startRx: int
    ghost var startTx: int
    /** The bytes reported as download and upload speed since the last startMon. */
    ghost var reportedRx: int
    ghost var reportedTx: int

    /** Each tick moves the previous readings on by exactly the bytes it
        reports, so they are the start plus everything reported since. */
    ghost predicate Valid()
      reads this
    {
      && previousRxBytes == startRx + reportedRx
      && previousTxBytes == startTx + reportedTx
    }

    /** A new service: every counter zero and monitoring off. */
    constructor ()
      ensures Valid() && !running
      ensures previousRxBytes == 0 && previousTxBytes == 0
      ensures sessionStartRxBytes == 0 && sessionStartTxBytes == 0
    {
      previousRxBytes, previousTxBytes := 0, 0;
      sessionStartRxBytes, sessionStartTxBytes := 0, 0;
      running := false;
      startRx, startTx, reportedRx, reportedTx := 0, 0, 0, 0;
    }

    /** startMon: the counters are read twice, first for the speed baseline and
        then for the session baseline, and the tick is scheduled. */
    method StartMon(first: Snapshot, second: Snapshot)
      modifies this
      ensures Valid() && running == old(running)
      ensures previousRxBytes == first.rx && previousTxBytes == first.tx
      ensures sessionStartRxBytes == second.rx && sessionStartTxBytes == second.tx
      ensures reportedRx == 0 && reportedTx == 0
    {
      previousRxBytes := first.rx;
      previousTxBytes := first.tx;
      sessionStartRxBytes := second.rx;
      sessionStartTxBytes := second.tx;
      startRx, startTx, reportedRx, reportedTx := first.rx, first.tx, 0, 0;
    }

    /** start: when monitoring is off, turn it on and take new baselines; when it
        is already on, change nothing. */
    method Start(first: Snapshot, second: Snapshot)
      requires Valid()
      modifies this
      ensures Valid() && running
      ensures old(running) ==> unchanged(this)
      ensures !old(running) ==>
        && previousRxBytes == first.rx && previousTxBytes == first.tx
        && sessionStartRxBytes == second.rx && sessionStartTxBytes == second.tx
        && reportedRx == 0 && reportedTx == 0
    {
      if !running {
        running := true;
        StartMon(first, second);
      }
    }

    /** stopMon: monitoring off, the session baselines zeroed and the tick
        unscheduled; the previous readings are left as they are. */
    method StopMon()
      requires Valid()
      modifies this`running, this`sessionStartRxBytes, this`sessionStartTxBytes
      ensures Valid() && !running
      ensures sessionStartRxBytes == 0 && sessionStartTxBytes == 0
    {
      running := false;
      sessionStartRxBytes := 0;
      sessionStartTxBytes := 0;
    }

    /** The tick: measure both directions against the previous and the session
        readings, format the notification, and make the reading the new previous
        one. The session total it reports is everything reported since startMon,
        plus the difference between startMon's two readings. */
    method Tick(current: Snapshot) returns (sample: Sample, notice: Notice)
      requires Valid()
      modifies this`previousRxBytes, this`previousTxBytes, this`reportedRx, this`reportedTx
      ensures Valid()
      ensures sample == Measure(Snapshot(old(previousRxBytes), old(previousTxBytes)),
                                Snapshot(sessionStartRxBytes, sessionStartTxBytes), current)
      ensures notice == Render(sample)
      ensures previousRxBytes == current.rx && previousTxBytes == current.tx
      ensures reportedRx == old(reportedRx) + sample.downloadSpeed
      ensures reportedTx == old(reportedTx) + sample.uploadSpeed
      ensures sample.sessionDownload == reportedRx + (startRx - sessionStartRxBytes)
      ensures sample.sessionUpload == reportedTx + (startTx - sessionStartTxBytes)
    {
      sample := Advance(current);
      notice := Notify(sample);
    }

    /** The tick's counter work, without the notification: measure, then move
        the previous readings on to the current one. */
    method Advance(current: Snapshot) returns (sample: Sample)
      requires Valid()
      modifies this`previousRxBytes, this`previousTxBytes, this`reportedRx, this`reportedTx
      ensures Valid()
      ensures sample == Measure(Snapshot(old(previousRxBytes), old(previousTxBytes)),
                                Snapshot(sessionStartRxBytes, sessionStartTxBytes), current)
      ensures previousRxBytes == current.rx && previousTxBytes == current.tx
      ensures reportedRx == old(reportedRx) + sample.downloadSpeed
      ensures reportedTx == old(reportedTx) + sample.uploadSpeed
      ensures sample.sessionDownload == reportedRx + (startRx - sessionStartRxBytes)
      ensures sample.sessionUpload == reportedTx + (startTx - sessionStartTxBytes)
    {
      sample := Measure(Snapshot(previousRxBytes, previousTxBytes),
                        Snapshot(sessionStartRxBytes, sessionStartTxBytes), current);
      previousRxBytes, previousTxBytes := current.rx, current.tx;
      reportedRx, reportedTx := reportedRx + sample.downloadSpeed, reportedTx + sample.uploadSpeed;
    }

    /** onStartCommand: the stop action turns monitoring off; any other action,
        or none, starts it. */
    method OnStartCommand(action: Option<string>, first: Snapshot, second: Snapshot)
      requires Valid()
      modifies this
      ensures Valid()
      ensures running <==> action != Some("ACTION_STOP")
      ensures action == Some("ACTION_STOP") ==>
        && sessionStartRxBytes == 0 && sessionStartTxBytes == 0
        && previousRxBytes == old(previousRxBytes) && previousTxBytes == old(previousTxBytes)
      ensures action != Some("ACTION_STOP") && old(running) ==> unchanged(this)
      ensures action != Some("ACTION_STOP") && !old(running) ==>
        && previousRxBytes == first.rx && previousTxBytes == first.tx
        && sessionStartRxBytes == second.rx && sessionStartTxBytes == second.tx
        && reportedRx == 0 && reportedTx == 0
    {
      if action == Some("ACTION_STOP") {
        running := false;
        StopMon();
      } else {
        Start(first, second);
      }
    }

    /** onDestroy: monitoring stops. */
    method OnDestroy()
      requires Valid()
      modifies this`running, this`sessionStartRxBytes, this`sessionStartTxBytes
      ensures Valid() && !running
      ensures sessionStartRxBytes == 0 && sessionStartTxBytes == 0
    {
      StopMon();
    }
  }

  /** A service started with no action, then ticked once per reading, takes
      exactly the session's samples. */
  method RunSession(first: Snapshot, second: Snapshot, readings: seq<Snapshot>)
    returns (samples: seq<Sample>)
    ensures samples == Session(first, second, readings)
  {
    var mon := new NetSpeedMon();
    mon.OnStartCommand(None, first, second);
    samples := [];
    var i := 0;
    while i < |readings|
      invariant 0 <= i <= |readings|
      invariant mon.Valid()
      invariant Snapshot(mon.sessionStartRxBytes, mon.sessionStartTxBytes) == second
      invariant Snapshot(mon.previousRxBytes, mon.previousTxBytes) == Prior(first, readings, i)
      invariant samples == Session(first, second, readings[..i])
    {
      var s, _ := mon.Tick(readings[i]);
      SessionStep(first, second, readings, i);
      samples := samples + [s];
      i := i + 1;
    }
    assert readings[..i] == readings;
  }

  /** A start while monitoring is on changes nothing, and a stop followed by a
      start takes fresh baselines: the first tick after the restart is measured
      against the restart's readings only. */
  method Restart(a1: Snapshot, a2: Snapshot, b1: Snapshot, b2: Snapshot, r: Snapshot)
    returns (before: Sample, after: Sample)
    ensures before == Measure(a1, a2, r) && after == Measure(b1, b2, r)
  {
    var mon := new NetSpeedMon();
    mon.OnStartCommand(None, a1, a2);
    mon.OnStartCommand(Some("START"), b1, b2);
    var n;
    before, n := mon.Tick(r);
    mon.OnStartCommand(Some("ACTION_STOP"), b1, b2);
    mon.OnStartCommand(None, b1, b2);
    after, n := mon.Tick(r);
  }
}
