/** The simulator's arithmetic: the daily response of an exposure exercise
    and its cumulative effect when each day's response grows by the learning
    multiplier, computed from the five slider values. Real numbers here are
    exact rationals; the browser's floating-point arithmetic is not modelled. */
module Recovery {
  import opened Decimal
  import opened Separator
  import opened Breakdown

  /** The five slider values the page keeps as state. */
  datatype Sliders = Sliders(
    struggle: int,
    duration: int,
    frequency: int,
    daysApplied: int,
    learningMultiplier: int)
  {
    /** The ranges the sliders let a user pick from. */
    predicate InRange() {
      && 1 <= struggle <= 10
      && 1 <= duration <= 10
      && 1 <= frequency <= 10
      && 1 <= daysApplied <= 365
      && 1 <= learningMultiplier <= 10
    }
  }

  /** `calculateResponse`: struggle times duration times frequency. */
  function CalculateResponse(s: Sliders): int {
    s.struggle * s.duration * s.frequency
  }

  /** `dailyMultiplier`: one plus the learning multiplier read as a percentage. */
  function GrowthRatio(learningMultiplier: int): (r: real)
    ensures r > 1.0 <==> learningMultiplier > 0
    ensures r == 1.0 <==> learningMultiplier == 0
  {
    1.0 + learningMultiplier as real / 100.0
  }

  function Pow(x: real, n: nat): real {
    if n == 0 then 1.0 else x * Pow(x, n - 1)
  }

  /** Reference definition: the effect accumulated day by day, where day k
      (counting from 0) contributes the daily response grown k times. */
  function DayByDay(response: real, r: real, days: nat): real {
    if days == 0 then 0.0 else DayByDay(response, r, days - 1) + response * Pow(r, days - 1)
  }

  /** `calculateCumulativeEffect`: the closed form of the geometric series. */
  function CalculateCumulativeEffect(s: Sliders): (e: real)
    requires s.learningMultiplier != 0 && s.daysApplied >= 0
    ensures e == DayByDay(CalculateResponse(s) as real, GrowthRatio(s.learningMultiplier), s.daysApplied)
  {
    var response := CalculateResponse(s) as real;
    var r := GrowthRatio(s.learningMultiplier);
    ClosedForm(response, r, s.daysApplied);
    response * ((Pow(r, s.daysApplied) - 1.0) / (r - 1.0))
  }

  /** JavaScript's `Math.round`: the nearest integer, halves rounded up. */
  function RoundHalfUp(x: real): (n: int)
    ensures n as real - 0.5 <= x < n as real + 0.5
  {
    (x + 0.5).Floor
  }

  /** The "Daily Response" figure on the page. */
  function DailyResponseText(s: Sliders): string
    requires s.InRange()
  {
    ResponseBounds(s);
    AddNumberSeparator(CalculateResponse(s))
  }

  /** The "Cumulative Effect" figure on the page. */
  function CumulativeEffectText(s: Sliders): string
    requires s.InRange()
  {
    CumulativeAtLeastLinear(s);
    ResponseBounds(s);
    AddNumberSeparator(RoundHalfUp(CalculateCumulativeEffect(s)))
  }

  /** The caption "<years> years, <months> months, and <days> days" shown
      with the cumulative effect. */
  function CumulativeEffectCaption(s: Sliders): string
    requires s.InRange()
  {
    BreakdownText(s.daysApplied)
  }

  lemma MulIncreasing(x: int, y: int, z: int)
    requires 0 < x <= y && 0 < z
    ensures x * z <= y * z
    ensures x < y ==> x * z < y * z
  {
    assert y * z - x * z == (y - x) * z;
  }

  /** A product of three positive factors grows with each factor. */
  lemma ProductIncreasing(a: int, b: int, c: int, a': int, b': int, c': int)
    requires 0 < a <= a' && 0 < b <= b' && 0 < c <= c'
    ensures a * b * c <= a' * b' * c'
    ensures a < a' || b < b' || c < c' ==> a * b * c < a' * b' * c'
  {
    MulIncreasing(a, a', b);
    MulIncreasing(b, b', a');
    var x, y := a * b, a' * b';
    assert x <= y;
    assert a < a' || b < b' ==> x < y;
    MulIncreasing(x, y, c);
    MulIncreasing(c, c', y);
  }

  /** Within the slider ranges the daily response lies between 1 and 1000,
      and is 1000 only when all three sliders are at 10. */
  lemma ResponseBounds(s: Sliders)
    requires s.InRange()
    ensures 1 <= CalculateResponse(s) <= 1000
    ensures CalculateResponse(s) == 1000 <==> s.struggle == s.duration == s.frequency == 10
  {
    ProductIncreasing(1, 1, 1, s.struggle, s.duration, s.frequency);
    ProductIncreasing(s.struggle, s.duration, s.frequency, 10, 10, 10);
  }

  /** Raising any one of the three factors raises the daily response. */
  lemma ResponseIncreasing(s: Sliders, t: Sliders)
    requires s.InRange() && t.InRange()
    requires s.struggle <= t.struggle && s.duration <= t.duration && s.frequency <= t.frequency
    ensures CalculateResponse(s) <= CalculateResponse(t)
    ensures s.struggle < t.struggle || s.duration < t.duration || s.frequency < t.frequency
      ==> CalculateResponse(s) < CalculateResponse(t)
  {
    ProductIncreasing(s.struggle, s.duration, s.frequency, t.struggle, t.duration, t.frequency);
  }

  lemma {:induction false} PowPositive(x: real, n: nat)
    requires x > 0.0
    ensures Pow(x, n) > 0.0
  {
    if n > 0 {
      PowPositive(x, n - 1);
    }
  }

  lemma {:induction false} PowAtLeastOne(x: real, n: nat)
    requires x >= 1.0
    ensures Pow(x, n) >= 1.0
  {
    if n > 0 {
      PowAtLeastOne(x, n - 1);
      assert x * Pow(x, n - 1) >= 1.0 * Pow(x, n - 1);
    }
  }

  lemma {:induction false} PowMonotone(x: real, y: real, n: nat)
    requires 0.0 < x <= y
    ensures Pow(x, n) <= Pow(y, n)
  {
    if n > 0 {
      PowMonotone(x, y, n - 1);
      PowPositive(x, n - 1);
      assert x * Pow(x, n - 1) <= y * Pow(x, n - 1);
      assert y * Pow(x, n - 1) <= y * Pow(y, n - 1);
    }
  }

  lemma NoZeroDivisors(x: real, y: real)
    requires x != 0.0 && x * y == 0.0
    ensures y == 0.0
  {
  }

  /** Dividing both sides of (r - 1) * g == response * q by r - 1. */
  lemma SolveForSum(response: real, r: real, g: real, q: real)
    requires r != 1.0 && (r - 1.0) * g == response * q
    ensures g == response * (q / (r - 1.0))
  {
    var d := q / (r - 1.0);
    assert d * (r - 1.0) == q;
    assert (r - 1.0) * (response * d) == response * q;
    assert (r - 1.0) * (response * d - g) == 0.0;
    NoZeroDivisors(r - 1.0, response * d - g);
  }

  /** The geometric series identity: (r - 1) times the day-by-day sum is the
      daily response times (r^days - 1). */
  lemma {:induction false} GeometricIdentity(response: real, r: real, days: nat)
    ensures (r - 1.0) * DayByDay(response, r, days) == response * (Pow(r, days) - 1.0)
  {
    if days > 0 {
      GeometricIdentity(response, r, days - 1);
      var a, p := DayByDay(response, r, days - 1), Pow(r, days - 1);
      assert DayByDay(response, r, days) == a + response * p;
      assert Pow(r, days) == r * p;
      assert (r - 1.0) * a == response * (p - 1.0);
      assert (r - 1.0) * (a + response * p) == response * (p - 1.0) + (r - 1.0) * (response * p);
    }
  }

  /** Hence the closed form is the day-by-day sum whenever the ratio is not 1. */
  lemma ClosedForm(response: real, r: real, days: nat)
    requires r != 1.0
    ensures DayByDay(response, r, days) == response * ((Pow(r, days) - 1.0) / (r - 1.0))
  {
    GeometricIdentity(response, r, days);
    SolveForSum(response, r, DayByDay(response, r, days), Pow(r, days) - 1.0);
  }

  /** After one day the cumulative effect is the daily response itself. */
  lemma CumulativeOneDay(s: Sliders)
    requires s.learningMultiplier != 0 && s.daysApplied == 1
    ensures CalculateCumulativeEffect(s) == CalculateResponse(s) as real
  {
  }

  /** With a positive response and growth ratio, the day-by-day sum grows
      strictly with every day added. */
  lemma {:induction false} DayByDayIncreasing(response: real, r: real, m: nat, n: nat)
    requires response > 0.0 && r > 0.0 && m < n
    ensures DayByDay(response, r, m) < DayByDay(response, r, n)
    decreases n
  {
    PowPositive(r, n - 1);
    if m < n - 1 {
      DayByDayIncreasing(response, r, m, n - 1);
    }
  }

  /** The cumulative effect strictly increases with the days applied. */
  lemma CumulativeIncreasingInDays(s: Sliders, days: int)
    requires s.InRange() && s.daysApplied < days
    ensures CalculateCumulativeEffect(s) < CalculateCumulativeEffect(s.(daysApplied := days))
  {
    ResponseBounds(s);
    DayByDayIncreasing(CalculateResponse(s) as real, GrowthRatio(s.learningMultiplier), s.daysApplied, days);
  }

  lemma DayTermMonotone(a: real, b: real, p: real, q: real)
    requires 0.0 <= a <= b && 0.0 < p <= q
    ensures a * p <= b * q
  {
    assert b * q - a * p == (b - a) * p + b * (q - p);
  }

  /** The day-by-day sum never decreases when the response or the ratio do not. */
  lemma {:induction false} DayByDayMonotone(a: real, b: real, x: real, y: real, n: nat)
    requires 0.0 <= a <= b && 0.0 < x <= y
    ensures DayByDay(a, x, n) <= DayByDay(b, y, n)
  {
    if n > 0 {
      DayByDayMonotone(a, b, x, y, n - 1);
      PowPositive(x, n - 1);
      PowMonotone(x, y, n - 1);
      DayTermMonotone(a, b, Pow(x, n - 1), Pow(y, n - 1));
    }
  }

  /** Raising any of the five sliders, others held fixed or raised too, never
      lowers the cumulative effect. */
  lemma CumulativeMonotone(s: Sliders, t: Sliders)
    requires s.InRange() && t.InRange()
    requires s.struggle <= t.struggle && s.duration <= t.duration && s.frequency <= t.frequency
    requires s.daysApplied <= t.daysApplied && s.learningMultiplier <= t.learningMultiplier
    ensures CalculateCumulativeEffect(s) <= CalculateCumulativeEffect(t)
  {
    ResponseIncreasing(s, t);
    ResponseBounds(s);
    var a, b := CalculateResponse(s) as real, CalculateResponse(t) as real;
    var x, y := GrowthRatio(s.learningMultiplier), GrowthRatio(t.learningMultiplier);
    DayByDayMonotone(a, b, x, y, s.daysApplied);
    if s.daysApplied < t.daysApplied {
      DayByDayIncreasing(b, y, s.daysApplied, t.daysApplied);
    }
  }

  /** Every day contributes at least the daily response, so the cumulative
      effect is at least response times days (the value it would have with
      no learning at all). */
  lemma {:induction false} DayByDayAtLeastLinear(response: real, r: real, days: nat)
    requires response >= 0.0 && r >= 1.0
    ensures DayByDay(response, r, days) >= response * days as real
  {
    if days > 0 {
      DayByDayAtLeastLinear(response, r, days - 1);
      PowAtLeastOne(r, days - 1);
      assert response * Pow(r, days - 1) >= response * 1.0;
    }
  }

  lemma CumulativeAtLeastLinear(s: Sliders)
    requires s.InRange()
    ensures CalculateCumulativeEffect(s) >= CalculateResponse(s) as real * s.daysApplied as real
    ensures CalculateCumulativeEffect(s) >= 1.0
  {
    var response, r, days := CalculateResponse(s) as real, GrowthRatio(s.learningMultiplier), s.daysApplied;
    ResponseBounds(s);
    DayByDayAtLeastLinear(response, r, days);
    DayTermMonotone(1.0, response, 1.0, days as real);
    var e := CalculateCumulativeEffect(s);
    assert e == DayByDay(response, r, days);
  }

  /** The figure shown for the cumulative effect reads back as the whole
      number nearest to it. */
  lemma CumulativeEffectTextValue(s: Sliders)
    requires s.InRange()
    ensures var shown := StripCommas(CumulativeEffectText(s));
      Canonical(shown) && Value(shown) as real - 0.5 <= CalculateCumulativeEffect(s) < Value(shown) as real + 0.5
  {
    CumulativeAtLeastLinear(s);
    SeparatorRoundTrip(RoundHalfUp(CalculateCumulativeEffect(s)));
  }

  /** The caption under the cumulative effect tells the days applied apart:
      two slider settings with the same caption apply the same number of
      days. At the maximum of 365 days it reads "1 years, 0 months, and
      5 days". */
  lemma CaptionDeterminesDays(s: Sliders, t: Sliders)
    requires s.InRange() && t.InRange()
    requires CumulativeEffectCaption(s) == CumulativeEffectCaption(t)
    ensures s.daysApplied == t.daysApplied
    ensures s.daysApplied == 365 ==>
      CumulativeEffectCaption(s) == "1" + (" years, " + ("0" + (" months, and " + ("5" + " days"))))
  {
    BreakdownTextInjective(s.daysApplied, t.daysApplied);
    if s.daysApplied == 365 {
      DecomposeOneYear();
    }
  }

  /** The figure shown for the daily response reads back as the response, and
      has a separator only at the maximum, where it reads "1,000". */
  lemma DailyResponseTextValue(s: Sliders)
    requires s.InRange()
    ensures StripCommas(DailyResponseText(s)) == Digits(CalculateResponse(s))
    ensures CalculateResponse(s) < 1000 ==> DailyResponseText(s) == Digits(CalculateResponse(s))
    ensures CalculateResponse(s) == 1000 ==> DailyResponseText(s) == "1,000"
  {
    ResponseBounds(s);
    SeparatorRoundTrip(CalculateResponse(s));
    SeparatorUnchangedBelowThousand(CalculateResponse(s));
    if CalculateResponse(s) == 1000 {
      SeparatorThousand();
    }
  }
}
