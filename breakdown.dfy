/** `convertDaysAppliedToDaysMonthsAndYears`: the caption that turns the
    days-applied slider value into years, months and days. */
module Breakdown {
  import opened Decimal

  datatype Duration = Duration(years: nat, months: nat, days: nat)

  /** The decomposition as the code computes it: whole 365-day years, whole
      30-day months of what is left after the years, and the day count modulo
      30 (of the whole count, not of what is left after the years). */
  function Decompose(days: nat): Duration {
    Duration(days / 365, (days % 365) / 30, days % 30)
  }

  /** The caption template: all three parts, always with the plural words. */
  function Render(d: Duration): string {
    Digits(d.years) + (" years, " + (Digits(d.months) + (" months, and " + (Digits(d.days) + " days"))))
  }

  function BreakdownText(days: nat): string {
    Render(Decompose(days))
  }

  /** The decomposition that counts every day exactly once: the remaining days
      are taken from what is left after the years and the months. */
  function DecomposeExact(days: nat): Duration {
    Duration(days / 365, (days % 365) / 30, (days % 365) % 30)
  }

  /** The caption built from the exact decomposition. */
  function ExactBreakdownText(days: nat): string {
    Render(DecomposeExact(days))
  }

  function Total(d: Duration): nat {
    d.years * 365 + d.months * 30 + d.days
  }

  /** Bounds on each part of the decomposition the code computes. */
  lemma DecomposeBounds(days: nat)
    ensures var d := Decompose(days);
      && d.years * 365 <= days < (d.years + 1) * 365
      && d.months <= 12
      && d.months * 30 <= days % 365 < (d.months + 1) * 30
      && d.days < 30
      && (days - d.days) % 30 == 0
  {
  }

  /** Within the first year (all of the slider range but its last value) the
      code's decomposition is exact: no years, and months and days add up. */
  lemma DecomposeWithinYear(days: nat)
    requires days < 365
    ensures Decompose(days).years == 0
    ensures Decompose(days).months * 30 + Decompose(days).days == days
    ensures Decompose(days) == DecomposeExact(days)
  {
  }

  lemma ShiftMod30(a: nat, k: nat)
    requires 0 < k < 30
    ensures (a + k) % 30 != a % 30
  {
    var q, r := a / 30, a % 30;
    assert a == 30 * q + r;
    if r + k < 30 {
      assert a + k == 30 * q + (r + k);
    } else {
      assert a + k == 30 * (q + 1) + (r + k - 30);
    }
  }

  lemma DropMonths(k: nat, x: nat)
    ensures (30 * k + x) % 30 == x % 30
  {
    var u := x / 30;
    assert 30 * k + x == 30 * (k + u) + x % 30;
  }

  /** The code's decomposition agrees with the exact one exactly when the
      number of whole years is a multiple of six (365 * 6 days is a whole
      number of 30-day months). */
  lemma DecomposeAgreesWithExact(days: nat)
    ensures Decompose(days) == DecomposeExact(days) <==> (days / 365) % 6 == 0
  {
    var y, a := days / 365, days % 365;
    var q, r := y / 6, y % 6;
    assert days == 365 * y + a;
    assert y == 6 * q + r;
    assert days == 30 * (73 * q + 12 * r) + (a + 5 * r);
    DropMonths(73 * q + 12 * r, a + 5 * r);
    if r != 0 {
      ShiftMod30(a, 5 * r);
    }
  }

  /** Counterexample: 365 days, exactly one year, is shown as one year and
      five days. The caption is "1 years, 0 months, and 5 days", written as
      the concatenation of its pieces. */
  lemma DecomposeOneYear()
    ensures Decompose(365) == Duration(1, 0, 5)
    ensures Total(Decompose(365)) == 370 != 365
    ensures BreakdownText(365) == "1" + (" years, " + ("0" + (" months, and " + ("5" + " days"))))
  {
    assert Decompose(365) == Duration(1, 0, 5);
    assert Digits(0) == "0" && Digits(1) == "1" && Digits(5) == "5";
  }

  /** The exact decomposition adds up to the day count, and it is the only
      one whose months and days stay below a year and whose days stay below
      a month. */
  lemma DecomposeExactSound(days: nat)
    ensures Total(DecomposeExact(days)) == days
    ensures DecomposeExact(days).months <= 12 && DecomposeExact(days).days < 30
  {
  }

  /** The corrected caption at the slider maximum reads
      "1 years, 0 months, and 0 days". */
  lemma ExactBreakdownOneYear()
    ensures ExactBreakdownText(365) == "1" + (" years, " + ("0" + (" months, and " + ("0" + " days"))))
  {
    assert DecomposeExact(365) == Duration(1, 0, 0);
    assert Digits(0) == "0" && Digits(1) == "1";
  }

  lemma DecomposeExactUnique(days: nat, d: Duration)
    requires Total(d) == days
    requires d.days < 30 && d.months * 30 + d.days < 365
    ensures d == DecomposeExact(days)
  {
    assert days == d.years * 365 + (d.months * 30 + d.days);
    assert days / 365 == d.years && days % 365 == d.months * 30 + d.days;
  }

  /** Two strings that each begin with a numeral followed by a non-digit
      can only be equal if the numerals and the rests are. */
  lemma NumeralPrefix(a: string, x: string, b: string, y: string)
    requires AllDigits(a) && AllDigits(b)
    requires |x| > 0 && |y| > 0 && !IsDigit(x[0]) && !IsDigit(y[0])
    requires a + x == b + y
    ensures a == b && x == y
  {
    assert a == (a + x)[..|a|] && b == (b + y)[..|b|];
    assert x == (a + x)[|a|..] && y == (b + y)[|b|..];
  }

  /** The same words followed by two strings: the strings are equal. */
  lemma SameWords(w: string, s: string, t: string)
    requires w + s == w + t
    ensures s == t
  {
    assert s == (w + s)[|w|..] && t == (w + t)[|w|..];
  }

  /** Distinct durations give distinct captions: the caption determines the
      years, months and days it was made from. */
  lemma RenderInjective(d: Duration, e: Duration)
    requires Render(d) == Render(e)
    ensures d == e
  {
    var tailD := " months, and " + (Digits(d.days) + " days");
    var tailE := " months, and " + (Digits(e.days) + " days");
    var restD := " years, " + (Digits(d.months) + tailD);
    var restE := " years, " + (Digits(e.months) + tailE);
    NumeralPrefix(Digits(d.years), restD, Digits(e.years), restE);
    DigitsInjective(d.years, e.years);
    SameWords(" years, ", Digits(d.months) + tailD, Digits(e.months) + tailE);
    NumeralPrefix(Digits(d.months), tailD, Digits(e.months), tailE);
    DigitsInjective(d.months, e.months);
    SameWords(" months, and ", Digits(d.days) + " days", Digits(e.days) + " days");
    NumeralPrefix(Digits(d.days), " days", Digits(e.days), " days");
    DigitsInjective(d.days, e.days);
  }

  /** Different day counts give different captions, on the slider range and
      beyond it: equal parts mean equal years, days in the same 30-day month
      of the year, and the same remainder modulo 30. */
  lemma BreakdownTextInjective(m: nat, n: nat)
    requires BreakdownText(m) == BreakdownText(n)
    ensures m == n
  {
    RenderInjective(Decompose(m), Decompose(n));
    var y, a, b := m / 365, m % 365, n % 365;
    assert n / 365 == y && a / 30 == b / 30;
    var q := a / 30;
    assert m == 30 * (12 * y + q) + (5 * y + a % 30);
    assert n == 30 * (12 * y + q) + (5 * y + b % 30);
    DropMonths(12 * y + q, 5 * y + a % 30);
    DropMonths(12 * y + q, 5 * y + b % 30);
    if a % 30 < b % 30 {
      ShiftMod30(5 * y + a % 30, b % 30 - a % 30);
    } else if b % 30 < a % 30 {
      ShiftMod30(5 * y + b % 30, a % 30 - b % 30);
    }
  }

  /** The corrected caption also tells every day count apart. */
  lemma ExactBreakdownTextInjective(m: nat, n: nat)
    requires ExactBreakdownText(m) == ExactBreakdownText(n)
    ensures m == n
  {
    RenderInjective(DecomposeExact(m), DecomposeExact(n));
    DecomposeExactSound(m);
    DecomposeExactSound(n);
  }

  /** The caption prints zero parts and uses the plural words even for 1:
      it reads "0 years, 0 months, and 1 days". */
  lemma BreakdownOneDay()
    ensures BreakdownText(1) == "0" + (" years, " + ("0" + (" months, and " + ("1" + " days"))))
  {
    assert Decompose(1) == Duration(0, 0, 1);
    assert Digits(0) == "0" && Digits(1) == "1";
  }
}
