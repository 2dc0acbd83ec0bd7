/** `datetime.now(timezone.utc).isoformat()` strings, compared as text by SQLite
    (utils/incident_index.py) and as times by the correlation window (ingestion/correlation.py).

    Microseconds are omitted from the text when they are zero, so two strings may differ in length. */
module IsoTime {
  import opened Strings

  datatype Stamp = Stamp(year: nat, month: nat, day: nat, hour: nat, minute: nat, second: nat, micro: nat)

  predicate Leap(y: nat) {
    y % 4 == 0 && (y % 100 != 0 || y % 400 == 0)
  }

  function DaysInMonth(y: nat, m: nat): nat {
    if m == 2 then (if Leap(y) then 29 else 28)
    else if m == 4 || m == 6 || m == 9 || m == 11 then 30
    else 31
  }

  predicate Valid(t: Stamp) {
    && 1 <= t.year <= 9999 && 1 <= t.month <= 12 && 1 <= t.day <= DaysInMonth(t.year, t.month)
    && t.hour < 24 && t.minute < 60 && t.second < 60 && t.micro < 1_000_000
  }

  // ----- the instant

  function DaysBeforeYear(y: nat): int
    requires y >= 1
  {
    (y - 1) * 365 + (y - 1) / 4 - (y - 1) / 100 + (y - 1) / 400
  }

  function DaysBeforeMonth(y: nat, m: nat): nat
    requires m >= 1
  {
    if m == 1 then 0 else DaysBeforeMonth(y, m - 1) + DaysInMonth(y, m - 1)
  }

  function Days(t: Stamp): int
    requires Valid(t)
  {
    DaysBeforeYear(t.year) + DaysBeforeMonth(t.year, t.month) + t.day
  }

  function Clock(t: Stamp): nat {
    ((t.hour * 60 + t.minute) * 60 + t.second) * 1_000_000 + t.micro
  }

  /** Microseconds on the proleptic Gregorian time line. */
  function Micros(t: Stamp): int
    requires Valid(t)
  {
    Days(t) * 86_400_000_000 + Clock(t)
  }

  // ----- the text

  function Pow10(n: nat): nat {
    if n == 0 then 1 else 10 * Pow10(n - 1)
  }

  /** `n` digits with leading zeros. */
  function Pad(n: nat, v: nat): (s: string)
    ensures |s| == n
  {
    if n == 0 then "" else Pad(n - 1, v / 10) + [Digit(v % 10)]
  }

  function Fraction(micro: nat): string {
    if micro == 0 then "" else "." + Pad(6, micro)
  }

  function Iso(t: Stamp): string {
    Pad(4, t.year) + ("-" + (Pad(2, t.month) + ("-" + (Pad(2, t.day) + ("T" + (Pad(2, t.hour) + (":" + (Pad(2, t.minute)
    + (":" + (Pad(2, t.second) + (Fraction(t.micro) + "+00:00")))))))))))
  }

  // ----- field by field

  predicate DateBefore(a: Stamp, b: Stamp) {
    a.year < b.year || (a.year == b.year && (a.month < b.month || (a.month == b.month && a.day < b.day)))
  }

  predicate ClockBefore(a: Stamp, b: Stamp) {
    || a.hour < b.hour
    || (a.hour == b.hour &&
        (|| a.minute < b.minute
         || (a.minute == b.minute && (a.second < b.second || (a.second == b.second && a.micro < b.micro)))))
  }

  predicate SameDate(a: Stamp, b: Stamp) {
    a.year == b.year && a.month == b.month && a.day == b.day
  }

  predicate Earlier(a: Stamp, b: Stamp) {
    DateBefore(a, b) || (SameDate(a, b) && ClockBefore(a, b))
  }

  // ----- the field order is the order of instants

  lemma NextYear(y: nat)
    requires y >= 1
    ensures DaysBeforeYear(y + 1) == DaysBeforeYear(y) + if Leap(y) then 366 else 365
  {
    DivStep4(y);
    DivStep100(y);
    DivStep400(y);
    LeapSum(y / 4 - (y - 1) / 4, y / 100 - (y - 1) / 100, y / 400 - (y - 1) / 400, y % 4 == 0, y % 100 == 0, y % 400 == 0);
  }

  lemma LeapSum(q4: int, q100: int, q400: int, by4: bool, by100: bool, by400: bool)
    requires q4 == (if by4 then 1 else 0) && q100 == (if by100 then 1 else 0) && q400 == (if by400 then 1 else 0)
    requires (by400 ==> by100) && (by100 ==> by4)
    ensures q4 - q100 + q400 == if by4 && (!by100 || by400) then 1 else 0
  {
  }

  lemma ProductGap(p: nat, q: nat, d: nat)
    requires p < q
    ensures p * d + d <= q * d
  {
    assert (q - p) * d == q * d - p * d;
    assert (q - p - 1) * d >= 0;
  }

  lemma Quotient(y: nat, d: nat, q: nat, rest: nat)
    requires d >= 1 && y == q * d + rest && rest < d
    ensures y / d == q && y % d == rest
  {
    var p := y / d;
    assert y == p * d + y % d;
    if p < q {
      ProductGap(p, q, d);
    } else if p > q {
      ProductGap(q, p, d);
    }
  }

  lemma DivStep(y: nat, d: nat)
    requires y >= 1 && d >= 2
    ensures y / d - (y - 1) / d == if y % d == 0 then 1 else 0
  {
    var q, rest := (y - 1) / d, (y - 1) % d;
    assert y - 1 == q * d + rest;
    if rest == d - 1 {
      assert y == (q + 1) * d + 0;
      Quotient(y, d, q + 1, 0);
    } else {
      Quotient(y, d, q, rest + 1);
    }
  }

  lemma DivStep4(y: nat)
    requires y >= 1
    ensures y / 4 - (y - 1) / 4 == if y % 4 == 0 then 1 else 0
  {
    DivStep(y, 4);
  }

  lemma DivStep100(y: nat)
    requires y >= 1
    ensures y / 100 - (y - 1) / 100 == if y % 100 == 0 then 1 else 0
    ensures y % 100 == 0 ==> y % 4 == 0
  {
    DivStep(y, 100);
    if y % 100 == 0 {
      Quotient(y, 4, 25 * (y / 100), 0);
    }
  }

  lemma DivStep400(y: nat)
    requires y >= 1
    ensures y / 400 - (y - 1) / 400 == if y % 400 == 0 then 1 else 0
    ensures y % 400 == 0 ==> y % 100 == 0
  {
    DivStep(y, 400);
    if y % 400 == 0 {
      Quotient(y, 100, 4 * (y / 400), 0);
    }
  }

  lemma {:induction false} YearsGrow(y: nat, z: nat)
    requires 1 <= y < z
    ensures DaysBeforeYear(y) + (if Leap(y) then 366 else 365) <= DaysBeforeYear(z)
    decreases z
  {
    NextYear(z - 1);
    if y < z - 1 {
      YearsGrow(y, z - 1);
    }
  }

  lemma MonthsInYear(y: nat)
    ensures DaysBeforeMonth(y, 13) == if Leap(y) then 366 else 365
  {
    var feb := DaysInMonth(y, 2);
    assert DaysBeforeMonth(y, 2) == 31 && DaysBeforeMonth(y, 3) == 31 + feb;
    assert DaysBeforeMonth(y, 4) == 62 + feb && DaysBeforeMonth(y, 5) == 92 + feb;
    assert DaysBeforeMonth(y, 6) == 123 + feb && DaysBeforeMonth(y, 7) == 153 + feb;
    assert DaysBeforeMonth(y, 8) == 184 + feb && DaysBeforeMonth(y, 9) == 215 + feb;
    assert DaysBeforeMonth(y, 10) == 245 + feb && DaysBeforeMonth(y, 11) == 276 + feb;
    assert DaysBeforeMonth(y, 12) == 306 + feb;
  }

  lemma {:induction false} MonthsGrow(y: nat, m: nat, n: nat)
    requires 1 <= m < n
    ensures DaysBeforeMonth(y, m) + DaysInMonth(y, m) <= DaysBeforeMonth(y, n)
    decreases n
  {
    if m < n - 1 {
      MonthsGrow(y, m, n - 1);
    }
  }

  lemma DateOrder(a: Stamp, b: Stamp)
    requires Valid(a) && Valid(b) && DateBefore(a, b)
    ensures Days(a) < Days(b)
  {
    if a.year < b.year {
      YearsGrow(a.year, b.year);
      MonthsInYear(a.year);
      MonthsGrow(a.year, a.month, 13);
    } else if a.month < b.month {
      MonthsGrow(a.year, a.month, b.month);
    }
  }

  lemma ClockOrder(a: Stamp, b: Stamp)
    requires Valid(a) && Valid(b)
    ensures Clock(a) < 86_400_000_000
    ensures ClockBefore(a, b) <==> Clock(a) < Clock(b)
  {
  }

  lemma EarlierIsLess(a: Stamp, b: Stamp)
    requires Valid(a) && Valid(b)
    ensures Earlier(a, b) <==> Micros(a) < Micros(b)
  {
    ClockOrder(a, b);
    ClockOrder(b, a);
    if DateBefore(a, b) {
      DateOrder(a, b);
    } else if DateBefore(b, a) {
      DateOrder(b, a);
    } else {
      assert SameDate(a, b);
    }
  }

  // ----- the calendar, instant by instant

  const FIRST := Stamp(1, 1, 1, 0, 0, 0, 0)
  const LAST := Stamp(9999, 12, 31, 23, 59, 59, 999_999)

  /** One microsecond later, by the clock and the calendar. */
  function NextStamp(t: Stamp): Stamp {
    if t.micro < 999_999 then t.(micro := t.micro + 1)
    else if t.second < 59 then t.(second := t.second + 1, micro := 0)
    else if t.minute < 59 then t.(minute := t.minute + 1, second := 0, micro := 0)
    else if t.hour < 23 then t.(hour := t.hour + 1, minute := 0, second := 0, micro := 0)
    else NextDay(t).(hour := 0, minute := 0, second := 0, micro := 0)
  }

  function NextDay(t: Stamp): Stamp {
    if t.day < MonthLength(t.year, t.month) then t.(day := t.day + 1)
    else if t.month < 12 then t.(month := t.month + 1, day := 1)
    else t.(year := t.year + 1, month := 1, day := 1)
  }

  /** Thirty days hath September, April, June and November; February one more in leap years. */
  function MonthLength(y: nat, m: nat): nat {
    if m in {4, 6, 9, 11} then 30
    else if m == 2 then (if y % 400 == 0 || (y % 4 == 0 && y % 100 != 0) then 29 else 28)
    else 31
  }

  lemma MonthLengths(y: nat, m: nat)
    ensures MonthLength(y, m) == DaysInMonth(y, m)
  {
    if y % 400 == 0 {
      Quotient(y, 4, 100 * (y / 400), 0);
    }
  }

  lemma DayAfter(t: Stamp)
    requires Valid(t) && !(t.year == 9999 && t.month == 12 && t.day == 31)
    ensures Valid(NextDay(t)) && Days(NextDay(t)) == Days(t) + 1
  {
    MonthLengths(t.year, t.month);
    if t.day == DaysInMonth(t.year, t.month) && t.month == 12 {
      NextYear(t.year);
      MonthsInYear(t.year);
    }
  }

  /** The stamps are those of the calendar from year 1 to 9999, and each is one microsecond after the one before it. */
  lemma InstantByInstant(t: Stamp)
    ensures Valid(FIRST) && Valid(LAST)
    ensures Valid(t) && t != LAST ==> Valid(NextStamp(t)) && Micros(NextStamp(t)) == Micros(t) + 1
  {
    if Valid(t) && t != LAST && t.hour == 23 && t.minute == 59 && t.second == 59 && t.micro == 999_999 {
      DayAfter(t);
    }
  }

  // ----- the field order is the order of texts

  /** Comparing texts with equally long first parts. */
  lemma {:induction false} LexConcat(p: string, x: string, q: string, y: string)
    requires |p| == |q|
    ensures LexLess(p + x, q + y) <==> LexLess(p, q) || (p == q && LexLess(x, y))
  {
    if p == [] {
      assert p + x == x && q + y == y;
    } else {
      assert (p + x)[1..] == p[1..] + x && (q + y)[1..] == q[1..] + y;
      LexConcat(p[1..], x, q[1..], y);
      assert p == q <==> p[0] == q[0] && p[1..] == q[1..];
    }
  }

  lemma LexOneChar(c: char, d: char)
    ensures LexLess([c], [d]) <==> c < d
  {
  }

  lemma {:induction false} PadOrder(n: nat, a: nat, b: nat)
    requires a < Pow10(n) && b < Pow10(n)
    ensures LexLess(Pad(n, a), Pad(n, b)) <==> a < b
    ensures Pad(n, a) == Pad(n, b) <==> a == b
  {
    if n > 0 {
      PadOrder(n - 1, a / 10, b / 10);
      LexConcat(Pad(n - 1, a / 10), [Digit(a % 10)], Pad(n - 1, b / 10), [Digit(b % 10)]);
      LexOneChar(Digit(a % 10), Digit(b % 10));
      assert Pad(n, a)[..n - 1] == Pad(n - 1, a / 10) && Pad(n, b)[..n - 1] == Pad(n - 1, b / 10);
      assert Pad(n, a)[n - 1] == Digit(a % 10) && Pad(n, b)[n - 1] == Digit(b % 10);
    }
  }

  lemma FieldOrder(n: nat, a: nat, b: nat, x: string, y: string)
    requires a < Pow10(n) && b < Pow10(n)
    ensures LexLess(Pad(n, a) + x, Pad(n, b) + y) <==> a < b || (a == b && LexLess(x, y))
  {
    PadOrder(n, a, b);
    LexConcat(Pad(n, a), x, Pad(n, b), y);
  }

  lemma SeparatorOrder(c: char, x: string, y: string)
    ensures LexLess([c] + x, [c] + y) <==> LexLess(x, y)
  {
    LexConcat([c], x, [c], y);
    LexIrreflexive([c]);
  }

  lemma Powers()
    ensures Pow10(2) == 100 && Pow10(4) == 10_000 && Pow10(6) == 1_000_000
  {
    assert Pow10(3) == 1000 && Pow10(5) == 100_000;
  }

  /** An omitted fraction sorts first, because '+' is below '.'. */
  lemma FractionOrder(a: nat, b: nat)
    requires a < 1_000_000 && b < 1_000_000
    ensures LexLess(Fraction(a) + "+00:00", Fraction(b) + "+00:00") <==> a < b
  {
    Powers();
    var zone := "+00:00";
    if a == 0 && b == 0 {
      LexIrreflexive("" + zone);
    } else if a > 0 && b > 0 {
      assert Fraction(a) + zone == ['.'] + (Pad(6, a) + zone) && Fraction(b) + zone == ['.'] + (Pad(6, b) + zone);
      SeparatorOrder('.', Pad(6, a) + zone, Pad(6, b) + zone);
      FieldOrder(6, a, b, zone, zone);
      LexIrreflexive(zone);
    } else {
      assert ("" + zone)[0] == '+' && (Fraction(if a > 0 then a else b) + zone)[0] == '.';
    }
  }

  function ClockText(t: Stamp): string {
    Pad(2, t.hour) + (":" + (Pad(2, t.minute) + (":" + (Pad(2, t.second) + (Fraction(t.micro) + "+00:00")))))
  }

  lemma ClockTextOrder(a: Stamp, b: Stamp)
    requires Valid(a) && Valid(b)
    ensures LexLess(ClockText(a), ClockText(b)) <==> ClockBefore(a, b)
  {
    Powers();
    var fa, fb := Fraction(a.micro) + "+00:00", Fraction(b.micro) + "+00:00";
    FractionOrder(a.micro, b.micro);
    var sa, sb := Pad(2, a.second) + fa, Pad(2, b.second) + fb;
    FieldOrder(2, a.second, b.second, fa, fb);
    SeparatorOrder(':', sa, sb);
    var ma, mb := Pad(2, a.minute) + (":" + sa), Pad(2, b.minute) + (":" + sb);
    FieldOrder(2, a.minute, b.minute, ":" + sa, ":" + sb);
    SeparatorOrder(':', ma, mb);
    FieldOrder(2, a.hour, b.hour, ":" + ma, ":" + mb);
  }

  lemma IsoOrder(a: Stamp, b: Stamp)
    requires Valid(a) && Valid(b)
    ensures LexLess(Iso(a), Iso(b)) <==> Earlier(a, b)
  {
    Powers();
    var ca, cb := ClockText(a), ClockText(b);
    ClockTextOrder(a, b);
    SeparatorOrder('T', ca, cb);
    var da, db := Pad(2, a.day) + ("T" + ca), Pad(2, b.day) + ("T" + cb);
    FieldOrder(2, a.day, b.day, "T" + ca, "T" + cb);
    SeparatorOrder('-', da, db);
    var ma, mb := Pad(2, a.month) + ("-" + da), Pad(2, b.month) + ("-" + db);
    assert DaysInMonth(a.year, a.month) <= 31 && DaysInMonth(b.year, b.month) <= 31;
    FieldOrder(2, a.month, b.month, "-" + da, "-" + db);
    SeparatorOrder('-', ma, mb);
    FieldOrder(4, a.year, b.year, "-" + ma, "-" + mb);
  }

  /** UTC isoformat strings sort as text exactly as their times do. */
  lemma TextOrderIsTimeOrder(a: Stamp, b: Stamp)
    requires Valid(a) && Valid(b)
    ensures LexLess(Iso(a), Iso(b)) <==> Micros(a) < Micros(b)
    ensures Iso(a) == Iso(b) ==> Micros(a) == Micros(b)
  {
    IsoOrder(a, b);
    IsoOrder(b, a);
    EarlierIsLess(a, b);
    EarlierIsLess(b, a);
    LexIrreflexive(Iso(a));
  }
}
