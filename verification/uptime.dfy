/** The uptime counter of the home page: the milliseconds since the site's
    launch split into whole days, hours and minutes, and the text shown. */
module Uptime {
  const MsPerMinute: int := 60000
  const MsPerHour: int := 3600000
  const MsPerDay: int := 86400000

  /** `Math.floor(a / b)` for a positive divisor: Dafny's division rounds
      down when the divisor is positive. */
  function FloorDiv(a: int, b: int): (q: int)
    requires b > 0
    ensures q * b <= a < q * b + b
  {
    a / b
  }

  /** JavaScript's `a % b`: the remainder takes the sign of the dividend. */
  function JsRem(a: int, b: int): (r: int)
    requires b > 0
    ensures -b < r < b
    ensures a >= 0 ==> r >= 0
    ensures a <= 0 ==> r <= 0
  {
    if a >= 0 then a % b else -((-a) % b)
  }

  /** The quotient JavaScript's remainder belongs to, rounded toward zero. */
  function TruncDiv(a: int, b: int): int
    requires b > 0
  {
    if a >= 0 then a / b else -((-a) / b)
  }

  /** The remainder is what is left of `a` after whole multiples of `b`
      taken toward zero. */
  lemma JsDivision(a: int, b: int)
    requires b > 0
    ensures a == TruncDiv(a, b) * b + JsRem(a, b)
  {
    if a < 0 {
      var q := (-a) / b;
      assert -a == q * b + (-a) % b;
    }
  }

  datatype Parts = Parts(days: int, hours: int, mins: int)

  /** The three counters computed from `diff`, the milliseconds since the
      launch. */
  function Decompose(diff: int): (r: Parts)
  {
    Parts(FloorDiv(diff, MsPerDay), FloorDiv(JsRem(diff, MsPerDay), MsPerHour), FloorDiv(JsRem(diff, MsPerHour), MsPerMinute))
  }

  /** After the launch the counters are a clock reading: hours below 24,
      minutes below 60, and together they cover `diff` to the minute. */
  lemma DecomposeBounds(diff: int)
    requires diff >= 0
    ensures var p := Decompose(diff);
      && p.days >= 0 && 0 <= p.hours < 24 && 0 <= p.mins < 60
      && p.days * MsPerDay + p.hours * MsPerHour + p.mins * MsPerMinute <= diff
      < p.days * MsPerDay + p.hours * MsPerHour + p.mins * MsPerMinute + MsPerMinute
  {
    var p := Decompose(diff);
    var rd := diff % MsPerDay;
    var rh := diff % MsPerHour;
    assert diff == p.days * MsPerDay + rd;
    assert rd == p.hours * MsPerHour + rd % MsPerHour;
    HourRem(diff);
    assert rh == p.mins * MsPerMinute + rh % MsPerMinute;
  }

  /** The hour remainder of `diff` is that of its day remainder, as a day
      is a whole number of hours. */
  lemma HourRem(diff: int)
    requires diff >= 0
    ensures (diff % MsPerDay) % MsPerHour == diff % MsPerHour
  {
    var q := diff / MsPerDay;
    assert diff == q * MsPerDay + diff % MsPerDay;
    assert q * MsPerDay == (q * 24) * MsPerHour;
    ModShift(diff % MsPerDay, q * 24, MsPerHour);
  }

  lemma ModShift(r: int, k: int, b: int)
    requires b > 0 && r >= 0 && k >= 0
    ensures (r + k * b) % b == r % b
  {
    var q := r / b;
    assert r == q * b + r % b;
    assert r + k * b == (q + k) * b + r % b;
    ModUnique(r + k * b, q + k, r % b, b);
  }

  /** Division with a remainder in range has one answer. */
  lemma ModUnique(x: int, q: int, m: int, b: int)
    requires b > 0 && 0 <= m < b && x == q * b + m
    ensures x % b == m && x / b == q
  {
    var q2 := x / b;
    var m2 := x % b;
    assert x == q2 * b + m2;
    var t := q - q2;
    assert t * b == m2 - m by {
      assert q * b - q2 * b == (q - q2) * b;
    }
    if t >= 1 {
      MulAtLeast(t, b);
    } else if t <= -1 {
      MulAtMost(t, b);
    }
  }

  lemma MulAtMost(t: int, b: int)
    requires t <= -1 && b > 0
    ensures t * b <= -b
  {
    assert t * b == (t + 1) * b - b;
  }

  lemma MulAtLeast(t: int, b: int)
    requires t >= 1 && b > 0
    ensures t * b >= b
  {
    assert t * b == (t - 1) * b + b;
  }

  /** A clock reading decomposes back into itself: counters and
      milliseconds are the same information to the minute. */
  lemma DecomposeCompose(days: nat, hours: nat, mins: nat, ms: nat)
    requires hours < 24 && mins < 60 && ms < MsPerMinute
    ensures Decompose(days * MsPerDay + hours * MsPerHour + mins * MsPerMinute + ms) == Parts(days, hours, mins)
  {
    var diff := days * MsPerDay + hours * MsPerHour + mins * MsPerMinute + ms;
    DecomposeBounds(diff);
    var p := Decompose(diff);
    UniqueReading(days, hours, mins, p.days, p.hours, p.mins, ms, diff);
  }

  /** Two clock readings within the same minute are equal. */
  lemma UniqueReading(d1: int, h1: int, m1: int, d2: int, h2: int, m2: int, ms: int, diff: int)
    requires 0 <= h1 < 24 && 0 <= m1 < 60 && 0 <= h2 < 24 && 0 <= m2 < 60 && 0 <= ms < MsPerMinute
    requires diff == d1 * MsPerDay + h1 * MsPerHour + m1 * MsPerMinute + ms
    requires d2 * MsPerDay + h2 * MsPerHour + m2 * MsPerMinute <= diff < d2 * MsPerDay + h2 * MsPerHour + m2 * MsPerMinute + MsPerMinute
    ensures d1 == d2 && h1 == h2 && m1 == m2
  {
    var t1 := (d1 * 24 + h1) * 60 + m1;
    var t2 := (d2 * 24 + h2) * 60 + m2;
    assert diff == t1 * MsPerMinute + ms;
    assert t2 * MsPerMinute <= diff < t2 * MsPerMinute + MsPerMinute;
    assert t1 == t2;
    assert d1 * 24 + h1 == d2 * 24 + h2;
  }

  /** Before the launch (a clock set early) every counter is negative or
      zero; as the hours and minutes round down a second time, they can
      reach -24 and -60. */
  lemma BeforeLaunch(diff: int)
    requires diff < 0
    ensures var p := Decompose(diff);
      p.days < 0 && -24 <= p.hours <= 0 && -60 <= p.mins <= 0
  {
  }

  /** A millisecond early shows minus one of each. */
  lemma OneMsEarly()
    ensures Decompose(-1) == Parts(-1, -1, -1)
  {
  }

  /** A millisecond short of a day early shows -1 days, -24 hours and -60
      minutes. */
  lemma AlmostDayEarly()
    ensures Decompose(1 - MsPerDay) == Parts(-1, -24, -60)
  {
  }

  // ---------------------------------------------------------------------
  // The text

  function DigitChar(d: int): char
    requires 0 <= d < 10
  {
    "0123456789"[d]
  }

  /** Decimal digits of a natural number, as `String(n)`. */
  function NatText(n: nat): (s: string)
    ensures |s| > 0
    ensures forall i :: 0 <= i < |s| ==> '0' <= s[i] <= '9'
    decreases n
  {
    if n < 10 then [DigitChar(n)] else NatText(n / 10) + [DigitChar(n % 10)]
  }

  /** `String(i)` for an integer. */
  function IntText(i: int): string {
    if i < 0 then "-" + NatText(-i) else NatText(i)
  }

  /** The number a string of decimal digits denotes. */
  function DigitsValue(s: string): nat
    requires forall i :: 0 <= i < |s| ==> '0' <= s[i] <= '9'
    decreases |s|
  {
    if |s| == 0 then 0 else DigitsValue(s[..|s| - 1]) * 10 + (s[|s| - 1] - '0') as nat
  }

  /** Reading back the digits gives the number; there is no leading zero. */
  lemma {:induction false} NatTextValue(n: nat)
    ensures DigitsValue(NatText(n)) == n
    ensures |NatText(n)| > 1 ==> NatText(n)[0] != '0'
    decreases n
  {
    if n >= 10 {
      NatTextValue(n / 10);
      var s := NatText(n);
      assert s[..|s| - 1] == NatText(n / 10);
    }
  }

  /** `days + ' days, ' + hours + unit + mins + unit` with the unit words
      of either page. */
  function UptimeText(diff: int, hoursUnit: string, minsUnit: string): string {
    var p := Decompose(diff);
    IntText(p.days) + " days, " + IntText(p.hours) + hoursUnit + IntText(p.mins) + minsUnit
  }

  /** The home page script's words. */
  const HomeUnits: (string, string) := (" hrs, ", " min")
  /** The standalone uptime script's words. */
  const PageUnits: (string, string) := (" hours, ", " minutes")

  /** The text starts with the days, read back as the day counter. */
  lemma UptimeStartsWithDays(diff: int, hoursUnit: string, minsUnit: string)
    requires diff >= 0
    ensures var t := UptimeText(diff, hoursUnit, minsUnit);
      var days := NatText(Decompose(diff).days);
      days <= t && DigitsValue(days) == diff / MsPerDay
  {
    NatTextValue(Decompose(diff).days);
  }

  /** After the launch the text is the three counters in decimal, without
      signs, each followed by its words, and each reads back as the number
      of whole days, of whole hours within the day, and of whole minutes
      within the hour. */
  lemma UptimeReadsBack(diff: int, hoursUnit: string, minsUnit: string)
    requires diff >= 0
    ensures var p := Decompose(diff);
      && p.days >= 0 && p.hours >= 0 && p.mins >= 0
      && UptimeText(diff, hoursUnit, minsUnit)
         == NatText(p.days) + " days, " + NatText(p.hours) + hoursUnit + NatText(p.mins) + minsUnit
      && DigitsValue(NatText(p.days)) == diff / MsPerDay
      && DigitsValue(NatText(p.hours)) == (diff % MsPerDay) / MsPerHour
      && DigitsValue(NatText(p.mins)) == (diff % MsPerHour) / MsPerMinute
  {
    var p := Decompose(diff);
    DecomposeBounds(diff);
    NatTextValue(p.days);
    NatTextValue(p.hours);
    NatTextValue(p.mins);
  }
}
