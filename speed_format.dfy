/** The three formatters of NetSpeedMonService: a byte count per interval or per
    session becomes a magnitude and a unit. Each picks a band by comparing the
    count against powers of 1024, then shows either a whole quotient or the
    quotient's decimal text cut one or two digits after the point. */
module SpeedFormat {
  import opened NumberText

  /** The compact form drawn in the status-bar icon: magnitude above, unit below. */
  datatype Icon = Icon(magnitude: string, unit: string)

  const KiB: int := 1024
  const MiB: int := 1024 * 1024
  const GiB: int := 1024 * 1024 * 1024

  predicate EndsWith(s: string, suffix: string) {
    |suffix| <= |s| && s[|s| - |suffix|..] == suffix
  }

  /** A text that ends with u does not end with a v that differs from u in its
      i-th character from the end. */
  lemma DiffersAt(r: string, u: string, v: string, i: nat)
    requires EndsWith(r, u) && 1 <= i <= |u| && i <= |v| && u[|u| - i] != v[|v| - i]
    ensures !EndsWith(r, v)
  {
    assert r[|r| - |u|..][|u| - i] == r[|r| - i];
  }

  /** A text followed by a unit ends with that unit. */
  lemma EndsWithUnit(x: string, u: string)
    ensures EndsWith(x + u, u)
  {
    assert (x + u)[|x + u| - |u|..] == u;
  }

  /** A text followed by one of formatSpeed's units ends with that unit and
      with no other. */
  lemma SpeedUnits(x: string)
    ensures EndsWith(x + " B/s", " B/s") && !EndsWith(x + " B/s", " Kb/s") && !EndsWith(x + " B/s", " Mb/s")
    ensures !EndsWith(x + " Kb/s", " B/s") && EndsWith(x + " Kb/s", " Kb/s") && !EndsWith(x + " Kb/s", " Mb/s")
    ensures !EndsWith(x + " Mb/s", " B/s") && !EndsWith(x + " Mb/s", " Kb/s") && EndsWith(x + " Mb/s", " Mb/s")
  {
    EndsWithUnit(x, " B/s");
    DiffersAt(x + " B/s", " B/s", " Kb/s", 4);
    DiffersAt(x + " B/s", " B/s", " Mb/s", 4);
    EndsWithUnit(x, " Kb/s");
    DiffersAt(x + " Kb/s", " Kb/s", " B/s", 4);
    DiffersAt(x + " Kb/s", " Kb/s", " Mb/s", 4);
    EndsWithUnit(x, " Mb/s");
    DiffersAt(x + " Mb/s", " Mb/s", " B/s", 4);
    DiffersAt(x + " Mb/s", " Mb/s", " Kb/s", 4);
  }

  /** A text followed by one of formatSessionUsage's units ends with that unit
      and with no other. */
  lemma UsageUnits(x: string)
    ensures EndsWith(x + " B", " B") && !EndsWith(x + " B", " KB") && !EndsWith(x + " B", " MB") && !EndsWith(x + " B", " GB")
    ensures !EndsWith(x + " KB", " B") && EndsWith(x + " KB", " KB") && !EndsWith(x + " KB", " MB") && !EndsWith(x + " KB", " GB")
    ensures !EndsWith(x + " MB", " B") && !EndsWith(x + " MB", " KB") && EndsWith(x + " MB", " MB") && !EndsWith(x + " MB", " GB")
    ensures !EndsWith(x + " GB", " B") && !EndsWith(x + " GB", " KB") && !EndsWith(x + " GB", " MB") && EndsWith(x + " GB", " GB")
  {
    EndsWithUnit(x, " B");
    DiffersAt(x + " B", " B", " KB", 2);
    DiffersAt(x + " B", " B", " MB", 2);
    DiffersAt(x + " B", " B", " GB", 2);
    EndsWithUnit(x, " KB");
    DiffersAt(x + " KB", " KB", " B", 2);
    DiffersAt(x + " KB", " KB", " MB", 2);
    DiffersAt(x + " KB", " KB", " GB", 2);
    EndsWithUnit(x, " MB");
    DiffersAt(x + " MB", " MB", " B", 2);
    DiffersAt(x + " MB", " MB", " KB", 2);
    DiffersAt(x + " MB", " MB", " GB", 2);
    EndsWithUnit(x, " GB");
    DiffersAt(x + " GB", " GB", " B", 2);
    DiffersAt(x + " GB", " GB", " KB", 2);
    DiffersAt(x + " GB", " GB", " MB", 2);
  }

  /** The text before a suffix the string ends with. */
  function Before(s: string, suffix: string): string
    requires EndsWith(s, suffix)
  {
    s[..|s| - |suffix|]
  }

  /** formatSpeedForIcon: the combined rate for the icon, in B/s, K/s or M/s. */
  function FormatSpeedForIcon(speed: int): (r: Icon)
    ensures r.unit == "B/s" <==> speed < 1000
    ensures r.unit == "K/s" <==> 1000 <= speed <= 999 * KiB
    ensures r.unit == "M/s" <==> 999 * KiB < speed
  {
    if speed < 1000 then
      Icon(IntToString(speed), "B/s")
    else if 1000 <= speed <= 1023 then
      Icon(TakeThroughPoint(QuotientToString(speed, 10), 2), "K/s")
    else if 1024 <= speed <= 999 * KiB then
      Icon(IntToString(speed / KiB), "K/s")
    else if 999 * KiB + 1 <= speed < 10 * MiB then
      Icon(TakeThroughPoint(QuotientToString(speed, 20), 2), "M/s")
    else
      Icon(IntToString(speed / MiB), "M/s")
  }

  /** formatSpeed: one direction's rate for the notification title. */
  function FormatSpeed(speed: int): (r: string)
    ensures EndsWith(r, " B/s") <==> speed < KiB
    ensures EndsWith(r, " Kb/s") <==> KiB <= speed < MiB
    ensures EndsWith(r, " Mb/s") <==> MiB <= speed
  {
    if speed < KiB then
      var x := IntToString(speed);
      SpeedUnits(x); x + " B/s"
    else if KiB <= speed < MiB then
      var x := TakeThroughPoint(QuotientToString(speed, 10), 3);
      SpeedUnits(x); x + " Kb/s"
    else
      var x := TakeThroughPoint(QuotientToString(speed, 20), 3);
      SpeedUnits(x); x + " Mb/s"
  }

  /** formatSessionUsage: one direction's session total for the notification text. */
  function FormatSessionUsage(totalBytes: int): (r: string)
    ensures EndsWith(r, " B") <==> totalBytes < KiB
    ensures EndsWith(r, " KB") <==> KiB <= totalBytes < MiB
    ensures EndsWith(r, " MB") <==> MiB <= totalBytes < GiB
    ensures EndsWith(r, " GB") <==> GiB <= totalBytes
  {
    if totalBytes < KiB then
      var x := IntToString(totalBytes);
      UsageUnits(x); x + " B"
    else if KiB <= totalBytes < MiB then
      var x := TakeThroughPoint(QuotientToString(totalBytes, 10), 3);
      UsageUnits(x); x + " KB"
    else if MiB <= totalBytes < GiB then
      var x := TakeThroughPoint(QuotientToString(totalBytes, 20), 3);
      UsageUnits(x); x + " MB"
    else
      var x := TakeThroughPoint(QuotientToString(totalBytes, 30), 3);
      UsageUnits(x); x + " GB"
  }

  lemma PowersOfTwo()
    ensures Pow2(10) == KiB && Pow2(20) == MiB && Pow2(30) == GiB
  {
    assert Pow2(10) == 1024;
    assert Pow2(20) == 1024 * Pow2(10) by {
      assert Pow2(20) == 4 * Pow2(18) == 16 * Pow2(16) == 64 * Pow2(14) == 256 * Pow2(12) == 1024 * Pow2(10);
    }
    assert Pow2(30) == 1024 * Pow2(20) by {
      assert Pow2(30) == 4 * Pow2(28) == 16 * Pow2(26) == 64 * Pow2(24) == 256 * Pow2(22) == 1024 * Pow2(20);
    }
  }

  /** The icon magnitude in each band: the count itself below 1000 (negative
      counts included); the whole number of KiB or MiB in the integer bands; and
      in the two fractional bands the quotient truncated to exactly one digit. */
  lemma IconMagnitude(speed: int)
    ensures var m := FormatSpeedForIcon(speed).magnitude;
      && (speed < 1000 ==> ShowsWhole(m, speed, 0))
      && (1000 <= speed <= 1023 ==> ShowsTruncated(m, speed, 10, 1))
      && (1024 <= speed <= 999 * KiB ==> ShowsWhole(m, speed, 10))
      && (999 * KiB < speed < 10 * MiB ==> ShowsTruncated(m, speed, 20, 1))
      && (10 * MiB <= speed ==> ShowsWhole(m, speed, 20))
  {
    PowersOfTwo();
    if speed < 1000 {
      IntToStringReads(speed);
    } else if speed <= 1023 {
      TruncatedQuotient(speed, 10, 1);
    } else if speed <= 999 * KiB {
      WholeQuotient(speed, 10);
    } else if speed < 10 * MiB {
      TruncatedQuotient(speed, 20, 1);
    } else {
      WholeQuotient(speed, 20);
    }
  }

  /** The verbose rate: " B/s" after the count itself below 1 KiB, otherwise
      " Kb/s" or " Mb/s" after the quotient by 1 KiB or 1 MiB truncated to at
      most two digits. */
  lemma SpeedText(speed: int)
    ensures var s := FormatSpeed(speed);
      && (speed < KiB ==> EndsWith(s, " B/s") && ShowsWhole(Before(s, " B/s"), speed, 0))
      && (KiB <= speed < MiB ==> EndsWith(s, " Kb/s") && ShowsTruncated(Before(s, " Kb/s"), speed, 10, 2))
      && (MiB <= speed ==> EndsWith(s, " Mb/s") && ShowsTruncated(Before(s, " Mb/s"), speed, 20, 2))
  {
    var s := FormatSpeed(speed);
    if speed < KiB {
      IntToStringReads(speed);
      assert Before(s, " B/s") == IntToString(speed);
    } else if speed < MiB {
      TruncatedQuotient(speed, 10, 2);
      assert Before(s, " Kb/s") == TakeThroughPoint(QuotientToString(speed, 10), 3);
    } else {
      TruncatedQuotient(speed, 20, 2);
      assert Before(s, " Mb/s") == TakeThroughPoint(QuotientToString(speed, 20), 3);
    }
  }

  /** The session total: " B" after the count itself below 1 KiB (negative
      totals included), otherwise " KB", " MB" or " GB" after the quotient by
      1 KiB, 1 MiB or 1 GiB truncated to at most two digits. */
  lemma UsageText(totalBytes: int)
    ensures var s := FormatSessionUsage(totalBytes);
      && (totalBytes < KiB ==> EndsWith(s, " B") && ShowsWhole(Before(s, " B"), totalBytes, 0))
      && (KiB <= totalBytes < MiB ==> EndsWith(s, " KB") && ShowsTruncated(Before(s, " KB"), totalBytes, 10, 2))
      && (MiB <= totalBytes < GiB ==> EndsWith(s, " MB") && ShowsTruncated(Before(s, " MB"), totalBytes, 20, 2))
      && (GiB <= totalBytes ==> EndsWith(s, " GB") && ShowsTruncated(Before(s, " GB"), totalBytes, 30, 2))
  {
    var s := FormatSessionUsage(totalBytes);
    if totalBytes < KiB {
      IntToStringReads(totalBytes);
      assert Before(s, " B") == IntToString(totalBytes);
    } else if totalBytes < MiB {
      TruncatedQuotient(totalBytes, 10, 2);
      assert Before(s, " KB") == TakeThroughPoint(QuotientToString(totalBytes, 10), 3);
    } else if totalBytes < GiB {
      TruncatedQuotient(totalBytes, 20, 2);
      assert Before(s, " MB") == TakeThroughPoint(QuotientToString(totalBytes, 20), 3);
    } else {
      TruncatedQuotient(totalBytes, 30, 2);
      assert Before(s, " GB") == TakeThroughPoint(QuotientToString(totalBytes, 30), 3);
    }
  }

  /** The first fractional digit of 1000, 1023 and 1022977 (999 KiB + 1) over
      their band's divisor. */
  lemma FirstDigits()
    ensures FractionText(1000, 1024, 1) == "9"
    ensures FractionText(1023, 1024, 1) == "9"
    ensures FractionText(1022977, 1048576, 1) == "9"
  {
    assert 10 * 1000 / 1024 == 9 && 10 * 1000 % 1024 == 784;
    assert FractionDigits(1000, 1024, 1) == [DigitChar(9)] + FractionDigits(784, 1024, 0);
    assert 10 * 1023 / 1024 == 9 && 10 * 1023 % 1024 == 1014;
    assert FractionDigits(1023, 1024, 1) == [DigitChar(9)] + FractionDigits(1014, 1024, 0);
    assert 10 * 1022977 / 1048576 == 9 && 10 * 1022977 % 1048576 == 792586;
    assert FractionDigits(1022977, 1048576, 1) == [DigitChar(9)] + FractionDigits(792586, 1048576, 0);
  }

  /** A quotient below one, cut one digit after the point. */
  lemma BelowOne(n: nat, k: nat, f: string)
    requires 1 <= k && n < Pow2(k) && FractionText(n, Pow2(k), 1) == f
    ensures TakeThroughPoint(QuotientToString(n, k), 2) == "0." + f
  {
    var d := Pow2(k);
    ShownDigits(n, k, 1);
    ModUnique(n, 0, n, d);
    DivMod(n, d);
    MulZero(n / d, d);
    assert NatToString(0) == "0";
  }

  /** The one digit the icon shows in its two fractional bands. */
  lemma IconDigit()
    ensures TakeThroughPoint(QuotientToString(1000, 10), 2) == "0.9"
    ensures TakeThroughPoint(QuotientToString(1023, 10), 2) == "0.9"
    ensures TakeThroughPoint(QuotientToString(999 * KiB + 1, 20), 2) == "0.9"
  {
    assert "0." + "9" == "0.9";
    assert TakeThroughPoint(QuotientToString(1000, 10), 2) == "0.9" by {
      PowersOfTwo();
      FirstDigits();
      BelowOne(1000, 10, "9");
    }
    assert TakeThroughPoint(QuotientToString(1023, 10), 2) == "0.9" by {
      PowersOfTwo();
      FirstDigits();
      BelowOne(1023, 10, "9");
    }
    assert TakeThroughPoint(QuotientToString(999 * KiB + 1, 20), 2) == "0.9" by {
      PowersOfTwo();
      FirstDigits();
      BelowOne(999 * KiB + 1, 20, "9");
    }
  }

  /** Literal arithmetic and digits for IconWholeExamples, kept apart so that
      proof stays cheap. */
  lemma WholeUnits()
    ensures 999 * KiB / KiB == 999 && 10 * MiB / MiB == 10
    ensures NatToString(10) == "10"
  {
    assert NatToString(10) == NatToString(1) + [DigitChar(0)];
  }

  /** Worked values in the icon's whole-number bands. */
  lemma IconWholeExamples()
    ensures FormatSpeedForIcon(-5) == Icon("-5", "B/s")
    ensures FormatSpeedForIcon(999) == Icon("999", "B/s")
    ensures FormatSpeedForIcon(1024) == Icon("1", "K/s")
    ensures FormatSpeedForIcon(999 * KiB) == Icon("999", "K/s")
    ensures FormatSpeedForIcon(10 * MiB) == Icon("10", "M/s")
  {
    WholeUnits();
  }

  /** Worked values in the icon's two fractional bands: 1000 to 1023 bytes per
      second show 0.9 K/s, and so does the first rate above 999 KiB in M/s. */
  lemma IconFractionExamples()
    ensures FormatSpeedForIcon(1000) == Icon("0.9", "K/s")
    ensures FormatSpeedForIcon(1023) == Icon("0.9", "K/s")
    ensures FormatSpeedForIcon(999 * KiB + 1) == Icon("0.9", "M/s")
  {
    assert FormatSpeedForIcon(1000) == Icon("0.9", "K/s") by { IconDigit(); }
    assert FormatSpeedForIcon(1023) == Icon("0.9", "K/s") by { IconDigit(); }
    assert FormatSpeedForIcon(999 * KiB + 1) == Icon("0.9", "M/s") by { IconDigit(); }
  }

  /** Two steps of long division for the verbose examples, and the
      quotient and remainder they start from; literal arithmetic kept apart so
      that the example proofs stay cheap. */
  lemma TwoDigits()
    ensures 1024 / KiB == 1 && 1024 % KiB == 0 && MiB / MiB == 1 && MiB % MiB == 0
    ensures GiB / GiB == 1 && GiB % GiB == 0
    ensures 1536 / KiB == 1 && 1536 % KiB == 512 && 2047 / KiB == 1 && 2047 % KiB == 1023
    ensures FractionText(0, KiB, 2) == "0" && FractionText(0, MiB, 2) == "0" && FractionText(0, GiB, 2) == "0"
    ensures FractionText(512, KiB, 2) == "5" && FractionText(1023, KiB, 2) == "99"
    ensures NatToString(1) == "1"
  {
    assert FractionDigits(512, 1024, 2) == [DigitChar(5)] + FractionDigits(0, 1024, 1);
    assert 10 * 1023 / 1024 == 9 && 10 * 1023 % 1024 == 1014;
    assert 10 * 1014 / 1024 == 9 && 10 * 1014 % 1024 == 924;
    assert FractionDigits(1014, 1024, 1) == [DigitChar(9)] + FractionDigits(924, 1024, 0);
    assert FractionDigits(1023, 1024, 2) == [DigitChar(9)] + FractionDigits(1014, 1024, 1);
  }

  /** The concatenations the verbose examples are assembled from; literal
      string facts kept apart so that the example proofs stay cheap. */
  lemma ExampleTexts()
    ensures "1" + "." + "0" == "1.0" && "1" + "." + "5" == "1.5" && "1" + "." + "99" == "1.99"
    ensures "-5" + " B/s" == "-5 B/s" && "1023" + " B/s" == "1023 B/s"
    ensures "1.0" + " Kb/s" == "1.0 Kb/s" && "1.5" + " Kb/s" == "1.5 Kb/s"
    ensures "1.99" + " Kb/s" == "1.99 Kb/s" && "1.0" + " Mb/s" == "1.0 Mb/s"
    ensures "-5" + " B" == "-5 B" && "1023" + " B" == "1023 B"
    ensures "1.0" + " KB" == "1.0 KB" && "1.0" + " MB" == "1.0 MB" && "1.0" + " GB" == "1.0 GB"
  {
  }

  /** The decimal text of the two whole examples below 1 KiB. */
  lemma WholeTexts()
    ensures IntToString(-5) == "-5" && IntToString(1023) == "1023"
  {
    assert NatToString(5) == "5";
    assert NatToString(1023) == NatToString(102) + [DigitChar(3)];
    assert NatToString(102) == NatToString(10) + [DigitChar(2)];
    assert NatToString(10) == NatToString(1) + [DigitChar(0)];
  }

  /** The texts cut two digits after the point in KiB. */
  lemma KiBCuts()
    ensures TakeThroughPoint(QuotientToString(1024, 10), 3) == "1.0"
    ensures TakeThroughPoint(QuotientToString(1536, 10), 3) == "1.5"
    ensures TakeThroughPoint(QuotientToString(2047, 10), 3) == "1.99"
  {
    PowersOfTwo();
    TwoDigits();
    ExampleTexts();
    ShownDigits(1024, 10, 2);
    ShownDigits(1536, 10, 2);
    ShownDigits(2047, 10, 2);
  }

  /** The texts cut two digits after the point for exactly 1 MiB and 1 GiB. */
  lemma OneUnitCuts()
    ensures TakeThroughPoint(QuotientToString(MiB, 20), 3) == "1.0"
    ensures TakeThroughPoint(QuotientToString(GiB, 30), 3) == "1.0"
  {
    PowersOfTwo();
    TwoDigits();
    ExampleTexts();
    ShownDigits(MiB, 20, 2);
    ShownDigits(GiB, 30, 2);
  }

  /** Worked values of the verbose rate below 1 KiB. */
  lemma SpeedWholeExamples()
    ensures FormatSpeed(-5) == "-5 B/s"
    ensures FormatSpeed(1023) == "1023 B/s"
  {
    WholeTexts();
    ExampleTexts();
  }

  /** Worked values of the verbose rate from 1 KiB; truncation shows 1.99,
      never 2.0, for 2047 bytes per second. */
  lemma SpeedFractionExamples()
    ensures FormatSpeed(1024) == "1.0 Kb/s"
    ensures FormatSpeed(1536) == "1.5 Kb/s"
    ensures FormatSpeed(2047) == "1.99 Kb/s"
    ensures FormatSpeed(MiB) == "1.0 Mb/s"
  {
    assert FormatSpeed(1024) == "1.0 Kb/s" by { KiBCuts(); ExampleTexts(); }
    assert FormatSpeed(1536) == "1.5 Kb/s" by { KiBCuts(); ExampleTexts(); }
    assert FormatSpeed(2047) == "1.99 Kb/s" by { KiBCuts(); ExampleTexts(); }
    assert FormatSpeed(MiB) == "1.0 Mb/s" by { OneUnitCuts(); ExampleTexts(); }
  }

  /** Worked values of the session total below 1 KiB. */
  lemma UsageWholeExamples()
    ensures FormatSessionUsage(-5) == "-5 B"
    ensures FormatSessionUsage(1023) == "1023 B"
  {
    WholeTexts();
    ExampleTexts();
  }

  /** Worked values of the session total at the first value of each larger
      unit. */
  lemma UsageFractionExamples()
    ensures FormatSessionUsage(1024) == "1.0 KB"
    ensures FormatSessionUsage(MiB) == "1.0 MB"
    ensures FormatSessionUsage(GiB) == "1.0 GB"
  {
    KiBCuts();
    OneUnitCuts();
    ExampleTexts();
  }
}
