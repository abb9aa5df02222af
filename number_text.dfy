/** Decimal text for the numbers the service shows: the Kotlin/JVM conversions
    the formatters rely on (Long.toString; the exact decimal expansion of a
    quotient by a power of two, standing for Double.toString; String.indexOf
    and take), and a reader that turns such text
    back into an exact decimal number so that what is displayed can be compared
    with the value it stands for. */
module NumberText {

  datatype Option<T> = None | Some(value: T)

  /** The number scaled / 10^places, as written with `places` fractional digits. */
  datatype Decimal = Decimal(scaled: int, places: nat)

  function Pow2(k: nat): (r: nat)
    ensures r >= 1
  {
    if k == 0 then 1 else 2 * Pow2(k - 1)
  }

  function Pow5(k: nat): (r: nat)
    ensures r >= 1
  {
    if k == 0 then 1 else 5 * Pow5(k - 1)
  }

  function Pow10(k: nat): (r: nat)
    ensures r >= 1
  {
    if k == 0 then 1 else 10 * Pow10(k - 1)
  }

  predicate IsDigit(c: char) {
    '0' <= c <= '9'
  }

  predicate AllDigits(s: string) {
    forall i :: 0 <= i < |s| ==> IsDigit(s[i])
  }

  function DigitValue(c: char): nat
    requires IsDigit(c)
  {
    c as int - '0' as int
  }

  function DigitChar(d: nat): (c: char)
    requires d < 10
    ensures IsDigit(c) && DigitValue(c) == d
  {
    ('0' as int + d) as char
  }

  /** The value of a string of decimal digits, most significant digit first. */
  function DigitsValue(s: string): (v: nat)
    requires AllDigits(s)
    ensures v < Pow10(|s|)
  {
    if s == [] then 0 else DigitsValue(s[..|s| - 1]) * 10 + DigitValue(s[|s| - 1])
  }

  /** Decimal digits of a non-negative number, as Long.toString writes them. */
  function NatToString(n: nat): (s: string)
    ensures |s| >= 1 && AllDigits(s)
    ensures DigitsValue(s) == n
    ensures s[0] == '0' ==> s == "0"
  {
    if n < 10 then [DigitChar(n)] else NatToString(n / 10) + [DigitChar(n % 10)]
  }

  /** Long.toString: a minus sign before the digits of a negative number. */
  function IntToString(n: int): (s: string)
    ensures |s| >= 1 && (s[0] == '-' <==> n < 0)
  {
    if n < 0 then "-" + NatToString(-n) else NatToString(n)
  }

  /** String.indexOf(c): the first position of c, or -1 when c does not occur. */
  function IndexOf(s: string, c: char): (i: int)
    ensures -1 <= i < |s|
    ensures i == -1 <==> c !in s
    ensures 0 <= i ==> s[i] == c && c !in s[..i]
  {
    if s == [] then -1
    else if s[0] == c then 0
    else
      var j := IndexOf(s[1..], c);
      assert s[1..][..j + 1] == s[1..j + 2] by { if j >= 0 { assert j + 2 <= |s|; } }
      if j == -1 then -1 else j + 1
  }

  /** `s.take((s.indexOf(".") + extra).coerceAtMost(s.length))`: the text up to
      and including extra - 1 characters after the first point. */
  function TakeThroughPoint(s: string, extra: nat): (t: string)
    requires extra >= 1
    ensures t <= s
    ensures IndexOf(s, '.') >= 0 ==> IndexOf(t, '.') == IndexOf(s, '.')
    ensures |t| <= IndexOf(s, '.') + extra
    ensures |t| < IndexOf(s, '.') + extra ==> t == s
  {
    var i := IndexOf(s, '.');
    var e := i + extra;
    var t := s[..if e < |s| then e else |s|];
    if i >= 0 then PrefixKeepsIndex(s, t, '.', i); t else t
  }

  /** A prefix that reaches past the first occurrence of c finds it at the same
      place. */
  lemma PrefixKeepsIndex(s: string, t: string, c: char, i: int)
    requires t <= s && 0 <= i < |t| && IndexOf(s, c) == i
    ensures IndexOf(t, c) == i
  {
    assert t[..i] == s[..i];
    assert c in t[..i + 1];
  }

  /** The fractional digits of r / d (r < d) produced by long division: one digit
      per step, stopping once the remainder is zero or c digits have been written. */
  function FractionDigits(r: nat, d: nat, c: nat): (e: string)
    requires r < d
    ensures |e| <= c && AllDigits(e)
    decreases c
  {
    if c == 0 || r == 0 then []
    else
      DigitBound(10 * r, d);
      [DigitChar(10 * r / d)] + FractionDigits(10 * r % d, d, c - 1)
  }

  /** The remainder long division is left with after FractionDigits(r, d, c). */
  ghost function Leftover(r: nat, d: nat, c: nat): (left: nat)
    requires r < d
    ensures left < d
    decreases c
  {
    if c == 0 || r == 0 then r else Leftover(10 * r % d, d, c - 1)
  }

  /** The text standing for Double.toString of n / 2^k, n >= 0: the whole part,
      a point, and the exact fractional expansion (finite, at most k digits, no
      trailing zero), or a single 0 when the quotient is whole. For k = 10 and
      a quotient that is zero or from 10^-3 to below 1024 this is the text
      Double.toString writes. Below 10^-3 Double.toString switches to
      scientific notation, which no formatter reaches: their quotients are
      at least 1000 / 1024. For larger k the model may write more than the
      17 significant digits Double.toString stops at, and the two then agree
      in the whole part and the first fractional digits, which is all the
      formatters keep. */
  function QuotientToString(n: nat, k: nat): (s: string)
    ensures 1 <= IndexOf(s, '.') && 1 <= |s| - IndexOf(s, '.') - 1 <= (if k == 0 then 1 else k)
  {
    var d := Pow2(k);
    DivNat(n, d);
    var w, f := NatToString(n / d), FractionText(n % d, d, k);
    IndexOfAfterDigits(w, f);
    w + "." + f
  }

  /** The fractional digits after the point: the expansion, or one 0 when there
      is none. */
  function FractionText(r: nat, d: nat, c: nat): (f: string)
    requires r < d
    ensures |f| >= 1 && AllDigits(f)
    ensures |f| <= if c == 0 then 1 else c
  {
    var e := FractionDigits(r, d, c);
    if e == [] then "0" else e
  }

  /** Reads digits, optionally followed by a point and at least one digit; the
      scaled value is the digits read without the point. */
  function ParseUnsigned(s: string): Option<Decimal> {
    var i := IndexOf(s, '.');
    if i == -1 then
      if s != [] && AllDigits(s) then Some(Decimal(DigitsValue(s), 0)) else None
    else
      var w, f := s[..i], s[i + 1..];
      if w != [] && AllDigits(w) && f != [] && AllDigits(f)
      then Some(Decimal(DigitsValue(w + f), |f|))
      else None
  }

  /** Reads a decimal number, with an optional leading minus sign. */
  function ParseDecimal(s: string): Option<Decimal> {
    if s != [] && s[0] == '-' then
      match ParseUnsigned(s[1..])
      case Some(v) => Some(Decimal(-v.scaled, v.places))
      case None => None
    else ParseUnsigned(s)
  }

  /** No superfluous leading zero (and no "-0"): the form the conversions write. */
  predicate NoLeadingZero(s: string) {
    && (|s| >= 1 && s[0] == '-' ==> |s| >= 2 && s[1] != '0')
    && (|s| >= 2 && s[0] == '0' ==> s[1] == '.')
  }

  /** Text s reads as the whole number of 2^k units in n, rounded down. */
  predicate ShowsWhole(s: string, n: int, k: nat) {
    && ParseDecimal(s).Some?
    && ParseDecimal(s).value.places == 0
    && ParseDecimal(s).value.scaled * Pow2(k) <= n < (ParseDecimal(s).value.scaled + 1) * Pow2(k)
    && NoLeadingZero(s)
  }

  /** A decimal with L fractional digits is n / 2^k truncated to at most p digits:
      never above the exact quotient and less than 10^-L below it; fewer than p
      digits only when they are exact; and no digit beyond the first unless the
      value needs it. */
  predicate Truncates(dec: Decimal, n: int, k: nat, p: nat) {
    && 1 <= dec.places <= p
    && dec.scaled * Pow2(k) <= n * Pow10(dec.places) < (dec.scaled + 1) * Pow2(k)
    && (dec.places < p ==> dec.scaled * Pow2(k) == n * Pow10(dec.places))
    && (dec.places > 1 ==> (n * Pow10(dec.places - 1)) % Pow2(k) != 0)
  }

  /** Text s reads as n / 2^k truncated to at most p fractional digits. */
  predicate ShowsTruncated(s: string, n: int, k: nat, p: nat) {
    && ParseDecimal(s).Some?
    && Truncates(ParseDecimal(s).value, n, k, p)
    && NoLeadingZero(s)
  }

  // ---------------------------------------------------------------------------
  // Arithmetic helpers, stated over plain integers

  lemma DivNat(n: nat, d: nat)
    requires d >= 1
    ensures n / d >= 0
  {
  }

  lemma DivMod(x: int, d: int)
    requires d > 0
    ensures x == (x / d) * d + x % d && 0 <= x % d < d
  {
  }

  lemma FloorBounds(n: int, d: int, q: int)
    requires d > 0 && q == n / d
    ensures q * d <= n < (q + 1) * d
  {
    DivMod(n, d);
    assert (q + 1) * d == q * d + d;
  }

  lemma DigitBound(x: nat, d: nat)
    requires 0 < d && x < 10 * d
    ensures x / d < 10
  {
  }

  lemma MulNonneg(a: int, b: int)
    requires a >= 0 && b >= 0
    ensures a * b >= 0
  {
  }

  lemma MulZero(t: int, d: int)
    requires d > 0 && -d < t * d < d
    ensures t == 0
  {
    if t > 0 {
      MulNonneg(t - 1, d);
    } else if t < 0 {
      MulNonneg(-t - 1, d);
    }
  }

  /** A remainder is determined by any quotient-remainder decomposition. */
  lemma ModUnique(x: int, m: int, lo: int, d: int)
    requires 0 < d && 0 <= lo < d && x == m * d + lo
    ensures x % d == lo
  {
    var q, rr := x / d, x % d;
    assert (q - m) * d == lo - rr;
    MulZero(q - m, d);
  }

  lemma ShiftDigit(a: int, p: int, b: int, x: int)
    ensures (a * p + b) * 10 + x == a * (10 * p) + (b * 10 + x)
  {
  }

  /** One step of long division in front of the rest: the digit written from
      rem, then the rest's digits (value restValue over restPow = 10^|rest|)
      written from nextRem, leaving left. */
  lemma ShiftRemainder(rem: int, restPow: int, digit: int, d: int, nextRem: int, restValue: int,
                       left: int, pow10Len: int, valueLen: int)
    requires 10 * rem == digit * d + nextRem && nextRem * restPow == restValue * d + left
    requires pow10Len == 10 * restPow && valueLen == digit * restPow + restValue
    ensures rem * pow10Len == valueLen * d + left
  {
    calc {
      rem * pow10Len;
      (10 * rem) * restPow;
      (digit * d + nextRem) * restPow;
      (digit * restPow) * d + nextRem * restPow;
    }
  }

  /** The whole part and the fractional digits together: n over d, scaled by
      pow10Len, is the number `scaled` written without its point. */
  lemma ScaleQuotient(n: int, whole: int, d: int, rem: int, pow10Len: int, fracValue: int,
                      left: int, scaled: int)
    requires n == whole * d + rem && rem * pow10Len == fracValue * d + left
    requires scaled == whole * pow10Len + fracValue
    ensures n * pow10Len == scaled * d + left
  {
    calc {
      n * pow10Len;
      (whole * d + rem) * pow10Len;
      (whole * pow10Len) * d + rem * pow10Len;
    }
  }

  lemma Regroup(r: int, p: int, d: int, m: int)
    requires p == d * m
    ensures r * p == (r * m) * d + 0
  {
  }

  lemma SplitFactor(a: int, b: int)
    ensures 10 * (a * b) == (2 * a) * (5 * b)
  {
  }

  lemma {:induction false} Pow10Split(k: nat)
    ensures Pow10(k) == Pow2(k) * Pow5(k)
  {
    if k > 0 {
      Pow10Split(k - 1);
      SplitFactor(Pow2(k - 1), Pow5(k - 1));
    }
  }

  // ---------------------------------------------------------------------------
  // Digit strings

  lemma {:induction false} DigitsConcat(a: string, b: string)
    requires AllDigits(a) && AllDigits(b)
    ensures AllDigits(a + b)
    ensures DigitsValue(a + b) == DigitsValue(a) * Pow10(|b|) + DigitsValue(b)
  {
    if b != [] {
      var b' := b[..|b| - 1];
      assert (a + b)[..|a + b| - 1] == a + b';
      DigitsConcat(a, b');
      ShiftDigit(DigitsValue(a), Pow10(|b'|), DigitsValue(b'), DigitValue(b[|b| - 1]));
    } else {
      assert a + b == a;
    }
  }

  lemma {:induction false} IndexOfAfterDigits(w: string, rest: string)
    requires AllDigits(w)
    ensures IndexOf(w + "." + rest, '.') == |w|
  {
    if w != [] {
      assert (w + "." + rest)[1..] == w[1..] + "." + rest;
      IndexOfAfterDigits(w[1..], rest);
    }
  }

  // ---------------------------------------------------------------------------
  // Long division

  /** Long division keeps r * 10^|e| == value(e) * d + leftover, and stops early
      only when the remainder is zero. */
  lemma {:induction false} LongDivision(r: nat, d: nat, c: nat)
    requires r < d
    ensures var e := FractionDigits(r, d, c);
      && r * Pow10(|e|) == DigitsValue(e) * d + Leftover(r, d, c)
      && (|e| < c ==> Leftover(r, d, c) == 0)
    decreases c
  {
    if c != 0 && r != 0 {
      DigitBound(10 * r, d);
      var g, r' := 10 * r / d, 10 * r % d;
      DivMod(10 * r, d);
      var e, e' := FractionDigits(r, d, c), FractionDigits(r', d, c - 1);
      LongDivision(r', d, c - 1);
      DigitsConcat([DigitChar(g)], e');
      assert e == [DigitChar(g)] + e';
      assert DigitsValue([DigitChar(g)]) == g by {
        assert [DigitChar(g)][..0] == [];
      }
      var p, v, lo := Pow10(|e'|), DigitsValue(e'), Leftover(r', d, c - 1);
      assert Pow10(|e|) == 10 * p;
      assert DigitsValue(e) == g * p + v;
      assert Leftover(r, d, c) == lo;
      ShiftRemainder(r, p, g, d, r', v, lo, Pow10(|e|), DigitsValue(e));
    }
  }

  /** Stopping long division after j digits gives a prefix of the expansion; a
      prefix shorter than the expansion leaves a non-zero remainder. */
  lemma {:induction false} FractionPrefix(r: nat, d: nat, c: nat, j: nat)
    requires r < d && j <= |FractionDigits(r, d, c)|
    ensures FractionDigits(r, d, c)[..j] == FractionDigits(r, d, j)
    ensures j < |FractionDigits(r, d, c)| ==> Leftover(r, d, j) > 0
    decreases j
  {
    if j > 0 {
      DigitBound(10 * r, d);
      var r' := 10 * r % d;
      FractionPrefix(r', d, c - 1, j - 1);
      assert FractionDigits(r, d, c)[..j]
          == [DigitChar(10 * r / d)] + FractionDigits(r', d, c - 1)[..j - 1];
    }
  }

  /** Where the expansion of n / 2^k holds a digit beyond the first j, the value is
      not a whole number of units of 10^-j. */
  lemma NotExactBefore(n: nat, k: nat, j: nat)
    requires j < |FractionDigits(n % Pow2(k), Pow2(k), k)|
    ensures (n * Pow10(j)) % Pow2(k) != 0
  {
    var d := Pow2(k);
    DivNat(n, d);
    var q, r := n / d, n % d;
    DivMod(n, d);
    FractionPrefix(r, d, k, j);
    var ej := FractionDigits(r, d, j);
    assert |ej| == j;
    LongDivision(r, d, j);
    var p, v, lo := Pow10(j), DigitsValue(ej), Leftover(r, d, j);
    assert r * p == v * d + lo && 0 < lo < d;
    ScaleQuotient(n, q, d, r, p, v, lo, q * p + v);
    ModUnique(n * p, q * p + v, lo, d);
  }

  /** The whole part q, a point and then the digits f read as q + f / 10^|f|. */
  lemma ReadPointed(w: string, f: string, whole: int, pow10Len: int, fracValue: int, scaled: int)
    requires |w| >= 1 && AllDigits(w) && (w[0] == '0' ==> w == "0")
    requires |f| >= 1 && AllDigits(f)
    requires DigitsValue(w) == whole && Pow10(|f|) == pow10Len && DigitsValue(f) == fracValue
    requires scaled == whole * pow10Len + fracValue
    ensures ParseDecimal(w + "." + f) == Some(Decimal(scaled, |f|))
    ensures NoLeadingZero(w + "." + f)
  {
    var s := w + "." + f;
    assert s[0] == w[0] && IsDigit(s[0]);
    assert ParseDecimal(s) == ParseUnsigned(s);
    IndexOfAfterDigits(w, f);
    UnsignedPointed(s, w, f);
    DigitsConcat(w, f);
    PointedNoLeadingZero(w, f);
  }

  lemma UnsignedPointed(s: string, w: string, f: string)
    requires s == w + "." + f && IndexOf(s, '.') == |w|
    requires |w| >= 1 && AllDigits(w) && |f| >= 1 && AllDigits(f)
    ensures ParseUnsigned(s) == Some(Decimal(DigitsValue(w + f), |f|))
  {
    assert s[..|w|] == w;
    assert s[|w| + 1..] == f;
  }

  lemma PointedNoLeadingZero(w: string, f: string)
    requires |w| >= 1 && AllDigits(w) && (w[0] == '0' ==> w == "0")
    ensures NoLeadingZero(w + "." + f)
  {
    var s := w + "." + f;
    assert s[0] == w[0] && IsDigit(s[0]);
    if s[0] == '0' {
      assert w == "0";
      assert s[1] == '.';
    }
  }

  // ---------------------------------------------------------------------------
  // Properties of the conversions

  /** Long.toString reads back as the number it was given. */
  lemma IntToStringReads(n: int)
    ensures ParseDecimal(IntToString(n)) == Some(Decimal(n, 0))
    ensures NoLeadingZero(IntToString(n))
    ensures ShowsWhole(IntToString(n), n, 0)
  {
    var m := if n < 0 then -n else n;
    var w := NatToString(m);
    assert '.' !in w;
    if n < 0 {
      assert IntToString(n)[1..] == w;
    }
  }

  /** The decimal text of n / 2^k, for n >= 0, shows the whole number of 2^k
      units in n. */
  lemma WholeQuotient(n: int, k: nat)
    requires n >= 0
    ensures ShowsWhole(IntToString(n / Pow2(k)), n, k)
  {
    var d := Pow2(k);
    var q := n / d;
    IntToStringReads(q);
    FloorBounds(n, d, q);
  }

  /** The last step of both lemmas below, where only integers are in scope. */
  lemma ConcludeTruncates(n: int, k: nat, p: nat, scaled: int, L: nat, lo: int)
    requires n * Pow10(L) == scaled * Pow2(k) + lo && 0 <= lo < Pow2(k) && 1 <= L <= p
    requires L < p ==> lo == 0
    requires L > 1 ==> (n * Pow10(L - 1)) % Pow2(k) != 0
    ensures Truncates(Decimal(scaled, L), n, k, p)
  {
    var d := Pow2(k);
    assert (scaled + 1) * d == scaled * d + d;
  }

  /** Long division of r by 2^k is complete after k digits, since 10^k is a
      multiple of 2^k. */
  lemma ExpansionEnds(r: nat, k: nat)
    requires r < Pow2(k)
    ensures Leftover(r, Pow2(k), k) == 0
  {
    var d := Pow2(k);
    var e := FractionDigits(r, d, k);
    var lo := Leftover(r, d, k);
    LongDivision(r, d, k);
    if |e| == k {
      Pow10Split(k);
      Regroup(r, Pow10(k), d, Pow5(k));
      ModUnique(r * Pow10(k), r * Pow5(k), 0, d);
      ModUnique(r * Pow10(k), DigitsValue(e), lo, d);
    }
  }

  /** The first L fractional digits shown, with what the division leaves over;
      all of them leave nothing. */
  lemma FractionCut(r: nat, k: nat, L: nat) returns (lo: int)
    requires r < Pow2(k) && 1 <= L <= |FractionText(r, Pow2(k), k)|
    ensures var g := FractionText(r, Pow2(k), k)[..L];
      && r * Pow10(L) == DigitsValue(g) * Pow2(k) + lo
      && 0 <= lo < Pow2(k)
      && (L == |FractionText(r, Pow2(k), k)| ==> lo == 0)
  {
    var d := Pow2(k);
    var e := FractionDigits(r, d, k);
    var g := FractionText(r, d, k)[..L];
    if e == [] {
      LongDivision(r, d, k);
      ExpansionEnds(r, k);
      assert r == 0;
      assert DigitsValue(g) == 0 by { assert g == "0"; assert g[..0] == []; }
      lo := 0;
    } else {
      FractionPrefix(r, d, k, L);
      LongDivision(r, d, L);
      lo := Leftover(r, d, L);
      if L == |e| {
        assert FractionDigits(r, d, L) == e;
        ExpansionEnds(r, k);
        LongDivision(r, d, k);
        assert lo == 0;
      }
    }
  }

  /** The text cut after p fractional digits: the whole part, the point and the
      first min(p, |f|) fractional digits. */
  lemma CutText(n: nat, k: nat, p: nat)
    ensures var d := Pow2(k);
      var f := FractionText(n % d, d, k);
      var L := if p < |f| then p else |f|;
      TakeThroughPoint(QuotientToString(n, k), p + 1) == NatToString(n / d) + "." + f[..L]
  {
    var d := Pow2(k);
    DivNat(n, d);
    IndexOfAfterDigits(NatToString(n / d), FractionText(n % d, d, k));
  }

  /** Long division that stopped before its limit because nothing was left
      writes the same digits under any larger limit. */
  lemma {:induction false} StopsEarly(r: nat, d: nat, c: nat, c': nat)
    requires r < d && |FractionDigits(r, d, c)| < c && |FractionDigits(r, d, c)| <= c'
    ensures FractionDigits(r, d, c') == FractionDigits(r, d, c)
    decreases c
  {
    if r != 0 {
      DigitBound(10 * r, d);
      StopsEarly(10 * r % d, d, c - 1, c' - 1);
    }
  }

  /** Cutting the quotient's text p digits after the point is the same as
      running long division for only p steps. */
  lemma ShownDigits(n: nat, k: nat, p: nat)
    requires 1 <= p <= k
    ensures TakeThroughPoint(QuotientToString(n, k), p + 1)
         == NatToString(n / Pow2(k)) + "." + FractionText(n % Pow2(k), Pow2(k), p)
  {
    var d := Pow2(k);
    DivNat(n, d);
    var r := n % d;
    var e := FractionDigits(r, d, k);
    CutText(n, k, p);
    if e != [] {
      var L := if p < |e| then p else |e|;
      FractionPrefix(r, d, k, L);
      if L < p {
        LongDivision(r, d, k);
        StopsEarly(r, d, k, p);
        assert e[..L] == e;
      }
    }
  }

  /** The quotient's text is exact and shortest: it reads back as exactly
      n / 2^k, its whole part has no leading zero, and it carries no
      fractional digit the value does not need (one 0 when the quotient is
      whole). */
  lemma QuotientToStringExact(n: nat, k: nat)
    ensures var s := QuotientToString(n, k);
      && ParseDecimal(s).Some?
      && var dec := ParseDecimal(s).value;
      && dec.places >= 1
      && dec.scaled * Pow2(k) == n * Pow10(dec.places)
      && (dec.places > 1 ==> (n * Pow10(dec.places - 1)) % Pow2(k) != 0)
      && NoLeadingZero(s)
  {
    var d := Pow2(k);
    DivNat(n, d);
    var q, r := n / d, n % d;
    DivMod(n, d);
    var f := FractionText(r, d, k);
    var L := |f|;
    var lo := FractionCut(r, k, L);
    assert f[..L] == f;
    var p, v := Pow10(L), DigitsValue(f);
    assert lo == 0 && r * p == v * d;
    var scaled := q * p + v;
    ScaleQuotient(n, q, d, r, p, v, 0, scaled);
    assert scaled * d == n * p;
    if L > 1 {
      NotExactBefore(n, k, L - 1);
    }
    var w := NatToString(q);
    assert QuotientToString(n, k) == w + "." + f;
    ReadPointed(w, f, q, p, v, scaled);
    assert ParseDecimal(QuotientToString(n, k)) == Some(Decimal(scaled, L));
  }

  /** What the formatters display: the text of n / 2^k cut p digits after the
      point reads as n / 2^k truncated (never rounded) to at most p
      fractional digits, written without a superfluous leading zero. */
  lemma TruncatedQuotient(n: nat, k: nat, p: nat)
    requires 1 <= p <= k
    ensures ShowsTruncated(TakeThroughPoint(QuotientToString(n, k), p + 1), n, k, p)
  {
    var d := Pow2(k);
    DivNat(n, d);
    var q, r := n / d, n % d;
    DivMod(n, d);
    var f := FractionText(r, d, k);
    var L := if p < |f| then p else |f|;
    var g := f[..L];
    CutText(n, k, p);
    var lo := FractionCut(r, k, L);
    var pw, v := Pow10(L), DigitsValue(g);
    var scaled := q * pw + v;
    ScaleQuotient(n, q, d, r, pw, v, lo, scaled);
    if L > 1 {
      NotExactBefore(n, k, L - 1);
    }
    ConcludeTruncates(n, k, p, scaled, L, lo);
    ReadPointed(NatToString(q), g, q, pw, v, scaled);
  }
}
