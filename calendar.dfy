/**
 * The proleptic Gregorian calendar, as used for `DATE '1970-01-01' + days`
 * and `EXTRACT(YEAR FROM …)`: day numbers count from 1970-01-01.
 */
module Calendar {
  predicate IsLeap(y: int)
  {
    y % 4 == 0 && (y % 100 != 0 || y % 400 == 0)
  }

  function DaysInYear(y: int): int
  {
    if IsLeap(y) then 366 else 365
  }

  /** The day number of January 1 of year `y`. */
  function Jan1(y: int): int
    decreases if y >= 1970 then y - 1970 else 1970 - y
  {
    if y == 1970 then 0
    else if y > 1970 then Jan1(y - 1) + DaysInYear(y - 1)
    else Jan1(y + 1) - DaysInYear(y)
  }

  /** Year `y` spans the day numbers `Jan1(y) .. Jan1(y + 1) - 1`. */
  lemma Jan1Next(y: int)
    ensures Jan1(y + 1) == Jan1(y) + DaysInYear(y)
  {
  }

  /** Later years start later. */
  lemma {:induction false} Jan1Monotone(a: int, b: int)
    requires a < b
    ensures Jan1(a) < Jan1(b)
    decreases b - a
  {
    Jan1Next(a);
    if a + 1 < b {
      Jan1Monotone(a + 1, b);
    }
  }

  function YearUp(y: int, days: int): (r: int)
    requires Jan1(y) <= days
    ensures Jan1(r) <= days < Jan1(r + 1)
    decreases days - Jan1(y)
  {
    Jan1Next(y);
    if days < Jan1(y + 1) then y else YearUp(y + 1, days)
  }

  function YearDown(y: int, days: int): (r: int)
    requires days < Jan1(y + 1)
    ensures Jan1(r) <= days < Jan1(r + 1)
    decreases Jan1(y + 1) - days
  {
    Jan1Next(y);
    Jan1Next(y - 1);
    if Jan1(y) <= days then y else YearDown(y - 1, days)
  }

  /** The calendar year of day number `days`. */
  function YearOf(days: int): (y: int)
    ensures Jan1(y) <= days < Jan1(y + 1)
  {
    if days >= 0 then YearUp(1970, days) else YearDown(1969, days)
  }

  /** The year is the only one whose span holds the day. */
  lemma YearOfUnique(days: int, y: int)
    requires Jan1(y) <= days < Jan1(y + 1)
    ensures YearOf(days) == y
  {
    var r := YearOf(days);
    if r < y {
      Jan1Monotone(r, y);
      if r + 1 < y {
        Jan1Monotone(r + 1, y);
      }
    } else if y < r {
      Jan1Monotone(y, r);
      if y + 1 < r {
        Jan1Monotone(y + 1, r);
      }
    }
  }

  /** Leap years in 1 .. `x` (for `x >= 0`), or minus those in `x + 1 .. 0`. */
  function LeapsThrough(x: int): int
  {
    x / 4 - x / 100 + x / 400
  }

  lemma {:induction false} MulAtLeast(k: int, d: int)
    requires k > 0 && d >= 1
    ensures k * d >= k
    decreases d
  {
    if d > 1 {
      MulAtLeast(k, d - 1);
      assert k * d == k * (d - 1) + k;
    }
  }

  lemma DivUnique(x: int, k: int, q: int, r: int)
    requires k > 0 && 0 <= r < k && x == k * q + r
    ensures x / k == q
  {
    var q', r' := x / k, x % k;
    assert x == k * q' + r';
    assert k * q - k * q' == r' - r;
    if q > q' {
      assert k * (q - q') == k * q - k * q';
      MulAtLeast(k, q - q');
    } else if q < q' {
      assert k * (q' - q) == k * q' - k * q;
      MulAtLeast(k, q' - q);
    }
  }

  /** `y / k` grows by one exactly at the multiples of `k`. */
  lemma DivStep(y: int, k: int)
    requires k > 0
    ensures y / k - (y - 1) / k == if y % k == 0 then 1 else 0
  {
    var q, r := y / k, y % k;
    if r > 0 {
      DivUnique(y - 1, k, q, r - 1);
    } else {
      assert y - 1 == k * (q - 1) + (k - 1);
      DivUnique(y - 1, k, q - 1, k - 1);
    }
  }

  /** A multiple of `k * m` is a multiple of `k`. */
  lemma MultipleOfFactor(y: int, k: int, m: int)
    requires k > 0 && m > 0 && y % (k * m) == 0
    ensures y % k == 0
  {
    var q := y / (k * m);
    assert y == (k * m) * q;
    assert y == k * (m * q);
    DivUnique(y, k, m * q, 0);
  }

  lemma LeapStep(y: int)
    ensures LeapsThrough(y) - LeapsThrough(y - 1) == if IsLeap(y) then 1 else 0
  {
    DivStep(y, 4);
    DivStep(y, 100);
    DivStep(y, 400);
    if y % 400 == 0 {
      MultipleOfFactor(y, 100, 4);
    }
    if y % 100 == 0 {
      MultipleOfFactor(y, 4, 25);
    }
  }

  /** Closed form: 365 days a year plus one per leap year since 1970. */
  lemma {:induction false} Jan1Closed(y: int)
    ensures Jan1(y) == 365 * (y - 1970) + LeapsThrough(y - 1) - LeapsThrough(1969)
    decreases if y >= 1970 then y - 1970 else 1970 - y
  {
    if y > 1970 {
      Jan1Closed(y - 1);
      LeapStep(y - 1);
    } else if y < 1970 {
      Jan1Closed(y + 1);
      LeapStep(y);
    }
  }

  /** Day 0 is 1970-01-01 and day -1 is 1969-12-31. */
  lemma YearOfEpoch()
    ensures YearOf(0) == 1970 && YearOf(-1) == 1969
  {
    YearOfUnique(0, 1970);
    YearOfUnique(-1, 1969);
  }

  lemma Jan1Around2014()
    ensures Jan1(2013) == 15706 && Jan1(2014) == 16071 && Jan1(2015) == 16436
  {
    Jan1Of(2013, 477, 488);
    Jan1Of(2014, 477, 488);
    Jan1Of(2015, 477, 488);
  }

  /** `Jan1(y)` from the two leap counts of the closed form. */
  lemma Jan1Of(y: int, before1970: int, beforeY: int)
    requires LeapsThrough(1969) == before1970 && LeapsThrough(y - 1) == beforeY
    ensures Jan1(y) == 365 * (y - 1970) + beforeY - before1970
  {
    Jan1Closed(y);
  }

  /** Day 16071 is 2014-01-01, so it is in 2014 and the day before is in 2013. */
  lemma YearOf2014()
    ensures YearOf(16071) == 2014 && YearOf(16070) == 2013
  {
    Jan1Around2014();
    YearOfUnique(16071, 2014);
    YearOfUnique(16070, 2013);
  }
}
