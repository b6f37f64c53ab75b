/** Clock strings ("HH:MM"), minutes of the day and Monday-based weeks. */
module TimeUtils {
  import opened Wrappers

  /** A local calendar day, counted in days since 1970-01-01 (a Thursday). */
  type DayKey = int

  predicate IsDigit(c: char) {
    '0' <= c <= '9'
  }

  /** The characters JavaScript's `\s` and `String.prototype.trim` treat as white space. */
  predicate IsSpace(c: char) {
    c == ' ' || c == '\t' || c == '\n' || c == '\U{B}' || c == '\U{C}' || c == '\r'
    || c == '\U{A0}' || c == '\U{1680}' || ('\U{2000}' <= c <= '\U{200A}')
    || c == '\U{2028}' || c == '\U{2029}' || c == '\U{202F}' || c == '\U{205F}'
    || c == '\U{3000}' || c == '\U{FEFF}'
  }

  predicate AllDigits(s: string) {
    forall i :: 0 <= i < |s| ==> IsDigit(s[i])
  }

  function DigitValue(c: char): nat
    requires IsDigit(c)
  {
    (c as int) - ('0' as int)
  }

  function DigitChar(d: nat): (c: char)
    requires d < 10
    ensures IsDigit(c) && DigitValue(c) == d
  {
    ('0' as int + d) as char
  }

  /** The decimal value of a string of digits, read from the left. */
  function DecimalValue(s: string): nat
    requires AllDigits(s)
  {
    if s == [] then 0 else DecimalValue(s[..|s| - 1]) * 10 + DigitValue(s[|s| - 1])
  }

  /**
    * JavaScript's `Number(text)` on the texts a clock field holds: the empty text
    * is 0, a run of digits is its decimal value, anything else is NaN (`None`).
    */
  function ToNumber(s: string): Option<int> {
    if AllDigits(s) then Some(DecimalValue(s)) else None
  }

  /** The text before the first ':' (all of it when there is no ':'). */
  function UpToColon(s: string): string {
    if s == [] || s[0] == ':' then [] else [s[0]] + UpToColon(s[1..])
  }

  /** The text after the first ':', or `None` when there is no ':'. */
  function AfterColon(s: string): (r: Option<string>)
  {
    if s == [] then None
    else if s[0] == ':' then Some(s[1..])
    else AfterColon(s[1..])
  }

  /**
    * timeToMinutes: `None` for an empty value; otherwise the first two
    * ':'-separated fields as hours and minutes, `None` when either is not a number.
    */
  function TimeToMinutes(t: string): (r: Option<int>)
    ensures t == [] ==> r.None?
    ensures r.Some? ==> r.value >= 0
  {
    if t == [] then None
    else
      var hours := ToNumber(UpToColon(t));
      var minutes := match AfterColon(t)
        case None => None
        case Some(rest) => ToNumber(UpToColon(rest));
      if hours.None? || minutes.None? then None
      else Some(hours.value * 60 + minutes.value)
  }

  /** `String(n)` for a natural number: its decimal digits without leading zeros. */
  function NatToDecimal(n: nat): (s: string)
    ensures AllDigits(s) && |s| >= 1
    ensures n < 100 ==> |s| <= 2
  {
    if n < 10 then [DigitChar(n)] else NatToDecimal(n / 10) + [DigitChar(n % 10)]
  }

  /** `s.padStart(2, '0')`. */
  function PadStart2(s: string): (r: string)
    ensures |r| >= 2
    ensures |s| <= 2 ==> |r| == 2
    decreases 2 - |s|
  {
    if |s| >= 2 then s else PadStart2(['0'] + s)
  }

  /**
    * minutesToTime: negative minutes clamp to 0, then hours and minutes padded
    * to two digits. The result is at least two hour characters, ':' and
    * exactly two minute characters (all digits, by MinutesToTimeRoundTrip).
    */
  function MinutesToTime(m: int): (t: string)
    ensures |t| >= 5 && t[|t| - 3] == ':'
  {
    var safe := if m < 0 then 0 else m;
    PadStart2(NatToDecimal(safe / 60)) + [':'] + PadStart2(NatToDecimal(safe % 60))
  }

  lemma {:induction false} NatToDecimalValue(n: nat)
    ensures DecimalValue(NatToDecimal(n)) == n
  {
    if n >= 10 {
      NatToDecimalValue(n / 10);
      var s := NatToDecimal(n);
      assert s[..|s| - 1] == NatToDecimal(n / 10);
    }
  }

  lemma {:induction false} LeadingZeroValue(s: string)
    requires AllDigits(s)
    ensures AllDigits(['0'] + s) && DecimalValue(['0'] + s) == DecimalValue(s)
  {
    var z := ['0'] + s;
    if s != [] {
      LeadingZeroValue(s[..|s| - 1]);
      assert z[..|z| - 1] == ['0'] + s[..|s| - 1];
    }
  }

  lemma {:induction false} PadStart2Value(s: string)
    requires AllDigits(s)
    ensures AllDigits(PadStart2(s)) && DecimalValue(PadStart2(s)) == DecimalValue(s)
    decreases 2 - |s|
  {
    if |s| < 2 {
      LeadingZeroValue(s);
      PadStart2Value(['0'] + s);
    }
  }

  lemma {:induction false} UpToColonOf(a: string, b: string)
    requires ':' !in a
    ensures UpToColon(a + [':'] + b) == a
    ensures AfterColon(a + [':'] + b) == Some(b)
  {
    if a != [] {
      assert (a + [':'] + b)[1..] == a[1..] + [':'] + b;
      UpToColonOf(a[1..], b);
    } else {
      assert (a + [':'] + b)[1..] == b;
    }
  }

  lemma {:induction false} UpToColonOfDigits(a: string)
    requires AllDigits(a)
    ensures UpToColon(a) == a
  {
    if a != [] {
      UpToColonOfDigits(a[1..]);
    }
  }

  /** A clock made of two numeric fields parses as hours and minutes. */
  lemma ParseClock(h: string, mm: string, hours: int, minutes: int)
    requires h != [] && ':' !in h && AllDigits(mm)
    requires ToNumber(h) == Some(hours) && ToNumber(mm) == Some(minutes)
    ensures TimeToMinutes(h + [':'] + mm) == Some(hours * 60 + minutes)
  {
    UpToColonOf(h, mm);
    UpToColonOfDigits(mm);
  }

  /** A field minutesToTime prints is a non-empty run of digits that reads back as `n`. */
  lemma PrintedField(n: nat)
    ensures var f := PadStart2(NatToDecimal(n));
      f != [] && AllDigits(f) && ':' !in f && ToNumber(f) == Some(n)
  {
    var f := PadStart2(NatToDecimal(n));
    NatToDecimalValue(n);
    PadStart2Value(NatToDecimal(n));
    assert ':' !in f by {
      forall p | 0 <= p < |f| ensures f[p] != ':' {
        assert IsDigit(f[p]);
      }
    }
  }

  /** The clock a minute count is printed as parses back to that count (clamped at 0). */
  lemma MinutesToTimeRoundTrip(m: int)
    ensures MinutesToTime(m) != []
    ensures TimeToMinutes(MinutesToTime(m)) == Some(if m < 0 then 0 else m)
  {
    var safe := if m < 0 then 0 else m;
    var hours, minutes := safe / 60, safe % 60;
    var h, mm := PadStart2(NatToDecimal(hours)), PadStart2(NatToDecimal(minutes));
    PrintedField(hours);
    PrintedField(minutes);
    ParseClock(h, mm, hours, minutes);
    assert MinutesToTime(m) == h + [':'] + mm;
    assert hours * 60 + minutes == safe;
  }

  lemma {:induction false} AfterColonNone(s: string)
    requires ':' !in s
    ensures AfterColon(s).None?
  {
    if s != [] {
      assert s[0] in s;
      assert forall c :: c in s[1..] ==> c in s;
      AfterColonNone(s[1..]);
    }
  }

  /** A value without ':' has no minutes field, so it reads as no time at all. */
  lemma ClockNeedsColon(t: string)
    requires ':' !in t
    ensures TimeToMinutes(t).None?
  {
    AfterColonNone(t);
  }

  /** Distinct (non-negative) minute counts print as distinct clocks. */
  lemma MinutesToTimeInjective(m1: int, m2: int)
    requires 0 <= m1 && 0 <= m2 && MinutesToTime(m1) == MinutesToTime(m2)
    ensures m1 == m2
  {
    MinutesToTimeRoundTrip(m1);
    MinutesToTimeRoundTrip(m2);
  }

  /** Days since Monday: `(date.getDay() + 6) % 7`, where getDay() counts from Sunday. */
  function DaysSinceMonday(d: DayKey): (w: int)
    ensures 0 <= w < 7
  {
    ((d + 4) % 7 + 6) % 7
  }

  /** startOfWeek: the Monday on or before `d`. */
  function StartOfWeek(d: DayKey): (s: DayKey)
    ensures s <= d < s + 7
    ensures DaysSinceMonday(s) == 0
  {
    d - DaysSinceMonday(d)
  }

  /** endOfWeek: the Sunday on or after `d`. */
  function EndOfWeek(d: DayKey): (e: DayKey)
    ensures StartOfWeek(d) <= d <= e && e - StartOfWeek(d) == 6
    ensures DaysSinceMonday(e) == 6
  {
    StartOfWeek(d) + 6
  }

  lemma {:induction false} MulAtLeast(d: int, k: int)
    requires d >= 1 && k >= 0
    ensures d * k >= k
  {
    if d > 1 {
      MulAtLeast(d - 1, k);
      assert d * k == (d - 1) * k + k;
    }
  }

  /** Division by a positive `k` has one quotient and remainder. */
  lemma ModUnique(x: int, k: int, q: int, r: int)
    requires k > 0 && 0 <= r < k && x == q * k + r
    ensures x % k == r && x / k == q
  {
    var q0, r0 := x / k, x % k;
    assert x == q0 * k + r0;
    assert q * k - q0 * k == (q - q0) * k;
    if q > q0 {
      MulAtLeast(q - q0, k);
    } else if q < q0 {
      MulAtLeast(q0 - q, k);
    }
  }

  /** The day `r` days after a Monday is `r` days since Monday, for `r` within the week. */
  lemma DaysSinceMondayFrom(s: DayKey, r: int)
    requires DaysSinceMonday(s) == 0 && 0 <= r < 7
    ensures DaysSinceMonday(s + r) == r
  {
    var q := (s + 4) / 7;
    assert (s + 4) % 7 == 1;
    assert s + 4 == q * 7 + 1;
    if r == 6 {
      ModUnique(s + r + 4, 7, q + 1, 0);
    } else {
      ModUnique(s + r + 4, 7, q, r + 1);
      ModUnique(r + 1 + 6, 7, 1, r);
    }
  }

  /** Every day of the week of `d` has the same Monday as `d`. */
  lemma SameWeek(d: DayKey, x: DayKey)
    requires StartOfWeek(d) <= x <= EndOfWeek(d)
    ensures StartOfWeek(x) == StartOfWeek(d) && EndOfWeek(x) == EndOfWeek(d)
  {
    var s := StartOfWeek(d);
    DaysSinceMondayFrom(s, x - s);
    assert s + (x - s) == x;
  }
}
