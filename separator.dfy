/** The thousands separator of `addNumberSeparator`: the numeral of a number
    with the pattern `\B(?=(\d{3})+(?!\d))` replaced by "," everywhere.
    In a run of digits, `\B` holds strictly between two digits, and the
    look-ahead holds where a positive multiple of three digits follows up to
    the end of the run; so the matches are exactly the inner positions with a
    multiple of three digits to their right. */
module Separator {
  import opened Decimal

  /** Whether the pattern matches before index `i` of a numeral of length `len`. */
  predicate IsCommaPosition(len: nat, i: nat) {
    0 < i < len && (len - i) % 3 == 0
  }

  /** The global replacement scanning from index `i`: a comma goes in front of
      `s[i]` exactly when the pattern matches there. */
  function SeparatedFrom(s: string, i: nat): string
    requires i <= |s|
    decreases |s| - i
  {
    if i == |s| then []
    else (if IsCommaPosition(|s|, i) then "," else "") + [s[i]] + SeparatedFrom(s, i + 1)
  }

  function Separated(s: string): string {
    SeparatedFrom(s, 0)
  }

  /** Reference definition: split off groups of three digits from the right. */
  function Grouped(s: string): string {
    if |s| <= 3 then s else Grouped(s[..|s| - 3]) + "," + s[|s| - 3..]
  }

  /** The string with every comma deleted. */
  function StripCommas(t: string): string {
    if t == [] then [] else (if t[0] == ',' then "" else [t[0]]) + StripCommas(t[1..])
  }

  /** `addNumberSeparator(n)` for the non-negative whole numbers it is given. */
  function AddNumberSeparator(n: nat): string {
    Separated(Digits(n))
  }

  /** Where no match position is left, the scan copies the rest unchanged. */
  lemma {:induction false} SeparatedFromNoMatch(s: string, i: nat)
    requires i <= |s|
    requires forall j :: i <= j < |s| ==> !IsCommaPosition(|s|, j)
    ensures SeparatedFrom(s, i) == s[i..]
    decreases |s| - i
  {
    if i < |s| {
      SeparatedFromNoMatch(s, i + 1);
    }
  }

  lemma ShiftMod3(x: nat, k: nat)
    requires k % 3 == 0
    ensures (x + k) % 3 == x % 3
  {
    var c := k / 3;
    assert x + k == x + 3 * c;
  }

  /** Appending a multiple of three digits leaves the match positions inside
      the prefix where they were. */
  lemma {:induction false} SeparatedFromAppend(p: string, q: string, i: nat)
    requires i <= |p|
    requires |q| % 3 == 0
    ensures SeparatedFrom(p + q, i) == SeparatedFrom(p, i) + SeparatedFrom(p + q, |p|)
    decreases |p| - i
  {
    if i < |p| {
      ShiftMod3(|p| - i, |q|);
      assert IsCommaPosition(|p + q|, i) == IsCommaPosition(|p|, i);
      assert (p + q)[i] == p[i];
      SeparatedFromAppend(p, q, i + 1);
    }
  }

  /** The last three digits after a non-empty prefix are one group. */
  lemma LastGroup(p: string, q: string)
    requires |p| > 0 && |q| == 3
    ensures SeparatedFrom(p + q, |p|) == "," + q
  {
    var s := p + q;
    assert IsCommaPosition(|s|, |p|);
    assert !IsCommaPosition(|s|, |p| + 1) && !IsCommaPosition(|s|, |p| + 2);
    assert SeparatedFrom(s, |p| + 2) == [q[2]];
    assert SeparatedFrom(s, |p| + 1) == [q[1], q[2]];
  }

  /** The regular-expression replacement agrees with the right-to-left
      grouping into threes. */
  lemma {:induction false} SeparatedIsGrouped(s: string)
    ensures Separated(s) == Grouped(s)
    decreases |s|
  {
    if |s| <= 3 {
      SeparatedFromNoMatch(s, 0);
    } else {
      var p, q := s[..|s| - 3], s[|s| - 3..];
      assert s == p + q;
      SeparatedFromAppend(p, q, 0);
      LastGroup(p, q);
      SeparatedIsGrouped(p);
    }
  }

  lemma {:induction false} StripCommasAppend(a: string, b: string)
    ensures StripCommas(a + b) == StripCommas(a) + StripCommas(b)
    decreases |a|
  {
    if a != [] {
      var c := if a[0] == ',' then "" else [a[0]];
      assert (a + b)[0] == a[0] && (a + b)[1..] == a[1..] + b;
      StripCommasAppend(a[1..], b);
      assert StripCommas(a + b) == c + (StripCommas(a[1..]) + StripCommas(b));
      assert StripCommas(a) == c + StripCommas(a[1..]);
    } else {
      assert a + b == b;
    }
  }

  lemma {:induction false} StripCommasOfDigits(s: string)
    requires AllDigits(s)
    ensures StripCommas(s) == s
    decreases |s|
  {
    if s != [] {
      StripCommasOfDigits(s[1..]);
    }
  }

  /** Deleting the commas of the grouped numeral gives back the digits. */
  lemma {:induction false} StripGrouped(s: string)
    requires AllDigits(s)
    ensures StripCommas(Grouped(s)) == s
    decreases |s|
  {
    if |s| <= 3 {
      StripCommasOfDigits(s);
    } else {
      var p, q := s[..|s| - 3], s[|s| - 3..];
      var g := Grouped(p);
      assert Grouped(s) == g + "," + q;
      StripGrouped(p);
      StripCommasAppend(g + ",", q);
      StripCommasAppend(g, ",");
      assert StripCommas(",") == [];
      StripCommasOfDigits(q);
      assert StripCommas(Grouped(s)) == p + q;
      assert s == p + q;
    }
  }

  /** Every character is a digit or a comma, and the commas stand exactly at
      the non-zero indices whose distance from the end is a multiple of four
      (three digits and their comma). */
  predicate CommaShaped(t: string) {
    && |t| % 4 != 0
    && (forall j :: 0 <= j < |t| ==> (t[j] == ',' <==> 0 < j && (|t| - j) % 4 == 0))
    && (forall j :: 0 <= j < |t| ==> t[j] == ',' || IsDigit(t[j]))
  }

  /** A comma and three more digits keep the shape. */
  lemma CommaShapedAppend(g: string, q: string)
    requires CommaShaped(g) && AllDigits(q) && |q| == 3
    ensures CommaShaped(g + "," + q)
  {
    var t := g + "," + q;
    forall j | 0 <= j < |t|
      ensures t[j] == ',' <==> 0 < j && (|t| - j) % 4 == 0
      ensures t[j] == ',' || IsDigit(t[j])
    {
      if j < |g| {
        assert t[j] == g[j];
        assert |t| - j == (|g| - j) + 4;
      } else if j > |g| {
        assert t[j] == q[j - |g| - 1];
      }
    }
  }

  lemma {:induction false} GroupedShape(s: string)
    requires AllDigits(s) && |s| > 0
    ensures CommaShaped(Grouped(s))
    decreases |s|
  {
    if |s| > 3 {
      var p, q := s[..|s| - 3], s[|s| - 3..];
      GroupedShape(p);
      CommaShapedAppend(Grouped(p), q);
    }
  }

  /** Deleting every comma from the output gives back exactly the numeral,
      and so the number itself. */
  lemma SeparatorRoundTrip(n: nat)
    ensures StripCommas(AddNumberSeparator(n)) == Digits(n)
    ensures Value(StripCommas(AddNumberSeparator(n))) == n
  {
    SeparatedIsGrouped(Digits(n));
    StripGrouped(Digits(n));
    ValueOfDigits(n);
  }

  /** Distinct numbers are displayed differently. */
  lemma SeparatorInjective(m: nat, n: nat)
    requires AddNumberSeparator(m) == AddNumberSeparator(n)
    ensures m == n
  {
    SeparatorRoundTrip(m);
    SeparatorRoundTrip(n);
  }

  /** Where the commas are: at the non-zero indices a multiple of four from
      the end, and everything else is a digit. */
  lemma SeparatorCommaPositions(n: nat)
    ensures CommaShaped(AddNumberSeparator(n))
  {
    SeparatedIsGrouped(Digits(n));
    GroupedShape(Digits(n));
  }

  /** A positive multiple of four, and its neighbours below it. */
  lemma MultipleOfFour(m: int)
    requires m > 0 && m % 4 == 0
    ensures m >= 4 && (m - 1) % 4 != 0 && (m - 2) % 4 != 0 && (m - 3) % 4 != 0 && (m - 4) % 4 == 0
  {
    var w := m / 4;
    assert m == 4 * w && w >= 1;
    assert m - 1 == 4 * (w - 1) + 3 && m - 2 == 4 * (w - 1) + 2 && m - 3 == 4 * (w - 1) + 1;
  }

  /** In a comma-shaped string a comma is followed by three
      digits and then a comma or the end. */
  lemma GroupAfterComma(t: string, j: nat)
    requires CommaShaped(t)
    requires j < |t| && t[j] == ','
    ensures j + 4 <= |t| && AllDigits(t[j + 1..j + 4]) && (j + 4 == |t| || t[j + 4] == ',')
  {
    MultipleOfFour(|t| - j);
    assert |t| - (j + 1) == |t| - j - 1 && |t| - (j + 2) == |t| - j - 2 && |t| - (j + 3) == |t| - j - 3;
    assert t[j + 1] != ',' && t[j + 2] != ',' && t[j + 3] != ',';
    if j + 4 < |t| {
      assert |t| - (j + 4) == |t| - j - 4;
    }
  }

  /** The facts about groups that follow from the comma positions alone. */
  lemma GroupsOfShape(t: string)
    requires CommaShaped(t)
    ensures forall j :: 0 <= j < |t| - 1 ==> !(t[j] == ',' && t[j + 1] == ',')
    ensures |t| > 3 ==> t[1] == ',' || t[2] == ',' || t[3] == ','
    ensures forall j :: 0 <= j < |t| && t[j] == ',' ==>
      j + 4 <= |t| && AllDigits(t[j + 1..j + 4]) && (j + 4 == |t| || t[j + 4] == ',')
  {
    if |t| > 3 {
      var k := |t| % 4;
      assert |t| - k == 4 * (|t| / 4);
      assert t[k] == ',';
    }
    forall j | 0 <= j < |t| && t[j] == ','
      ensures j + 4 <= |t| && AllDigits(t[j + 1..j + 4]) && (j + 4 == |t| || t[j + 4] == ',')
    {
      GroupAfterComma(t, j);
    }
  }

  /** The output never starts or ends with a comma, never has two commas in a
      row, has 1 to 3 digits before its first comma, and exactly 3 digits
      after each comma up to the next comma or the end. */
  lemma SeparatorGroups(n: nat)
    ensures var t := AddNumberSeparator(n);
      && |t| > 0 && t[0] != ',' && t[|t| - 1] != ','
      && (forall j :: 0 <= j < |t| - 1 ==> !(t[j] == ',' && t[j + 1] == ','))
      && (|t| > 3 ==> t[1] == ',' || t[2] == ',' || t[3] == ',')
      && (forall j :: 0 <= j < |t| && t[j] == ',' ==>
            j + 4 <= |t| && AllDigits(t[j + 1..j + 4]) && (j + 4 == |t| || t[j + 4] == ','))
  {
    var t := AddNumberSeparator(n);
    SeparatorRoundTrip(n);
    SeparatorCommaPositions(n);
    assert t[|t| - 1] != ',' by {
      assert (|t| - (|t| - 1)) % 4 == 1;
    }
    GroupsOfShape(t);
  }

  /** The output is the plain numeral exactly when the number is below 1000. */
  lemma SeparatorUnchangedBelowThousand(n: nat)
    ensures AddNumberSeparator(n) == Digits(n) <==> n < 1000
  {
    var s := Digits(n);
    SeparatedIsGrouped(s);
    DigitsLength(n, 3);
    if |s| > 3 {
      var g := Grouped(s[..|s| - 3]);
      assert Grouped(s)[|g|] == ',';
      assert !IsDigit(',');
    }
  }

  /** The one separated figure the daily response can show. */
  lemma SeparatorThousand()
    ensures AddNumberSeparator(1000) == "1,000"
  {
    assert Digits(1000) == "1000";
    SeparatedIsGrouped("1000");
  }
}
