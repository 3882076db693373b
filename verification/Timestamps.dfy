/** RFC 3339 timestamps in UTC with trailing fractional zeros dropped, as the program writes
    lease ends and due times into SQLite TEXT columns, and what comparing them as strings gives. */
module Timestamps {
  import opened TextOrder
  import opened SyncLease

  datatype Civil = Civil(year: nat, month: nat, day: nat, hour: nat, minute: nat, second: nat, nanos: nat)

  // ---------------------------------------------------------------- the calendar

  predicate Leap(y: nat) { (y % 4 == 0 && y % 100 != 0) || y % 400 == 0 }

  function YearDays(y: nat): nat { if Leap(y) then 366 else 365 }

  function MonthDays(y: nat, m: nat): nat {
    if m == 2 then (if Leap(y) then 29 else 28) else if m == 4 || m == 6 || m == 9 || m == 11 then 30 else 31
  }

  function DaysBeforeYear(y: nat): nat {
    if y == 0 then 0 else DaysBeforeYear(y - 1) + YearDays(y - 1)
  }

  function DaysBeforeMonth(y: nat, m: nat): nat {
    if m <= 1 then 0 else DaysBeforeMonth(y, m - 1) + MonthDays(y, m - 1)
  }

  predicate Valid(c: Civil) {
    && c.year <= 9999 && 1 <= c.month <= 12 && 1 <= c.day <= MonthDays(c.year, c.month)
    && c.hour < 24 && c.minute < 60 && c.second < 60 && c.nanos < 1_000_000_000
  }

  /** Seconds since the start of year 0. */
  function Seconds(c: Civil): int {
    (DaysBeforeYear(c.year) + DaysBeforeMonth(c.year, c.month) + c.day) * 86400
    + c.hour * 3600 + c.minute * 60 + c.second
  }

  function Instant(c: Civil): int {
    Seconds(c) * 1_000_000_000 + c.nanos
  }

  /** Order by the six fields down to the second. */
  predicate FieldsBefore(a: Civil, b: Civil) {
    if a.year != b.year then a.year < b.year
    else if a.month != b.month then a.month < b.month
    else if a.day != b.day then a.day < b.day
    else if a.hour != b.hour then a.hour < b.hour
    else if a.minute != b.minute then a.minute < b.minute
    else a.second < b.second
  }

  lemma {:induction false} YearsAhead(y: nat, z: nat)
    requires y < z
    ensures DaysBeforeYear(y) + YearDays(y) <= DaysBeforeYear(z)
  {
    if y + 1 < z {
      YearsAhead(y, z - 1);
    }
  }

  lemma {:induction false} MonthsAhead(y: nat, m: nat, n: nat)
    requires 1 <= m < n <= 13
    ensures DaysBeforeMonth(y, m) + MonthDays(y, m) <= DaysBeforeMonth(y, n)
  {
    if m + 1 < n {
      MonthsAhead(y, m, n - 1);
    }
  }

  lemma MonthsOfYear(y: nat)
    ensures DaysBeforeMonth(y, 13) == YearDays(y)
  {
    var feb := MonthDays(y, 2);
    assert DaysBeforeMonth(y, 3) == DaysBeforeMonth(y, 2) + feb == 31 + feb;
    assert DaysBeforeMonth(y, 5) == DaysBeforeMonth(y, 4) + 30 == DaysBeforeMonth(y, 3) + 31 + 30;
    assert DaysBeforeMonth(y, 7) == DaysBeforeMonth(y, 6) + 30 == DaysBeforeMonth(y, 5) + 31 + 30;
    assert DaysBeforeMonth(y, 9) == DaysBeforeMonth(y, 8) + 31 == DaysBeforeMonth(y, 7) + 31 + 31;
    assert DaysBeforeMonth(y, 11) == DaysBeforeMonth(y, 10) + 31 == DaysBeforeMonth(y, 9) + 30 + 31;
    assert DaysBeforeMonth(y, 13) == DaysBeforeMonth(y, 12) + 31 == DaysBeforeMonth(y, 11) + 30 + 31;
  }

  lemma DaysOrder(a: Civil, b: Civil)
    requires Valid(a) && Valid(b)
    requires a.year < b.year || (a.year == b.year && (a.month < b.month || (a.month == b.month && a.day < b.day)))
    ensures DaysBeforeYear(a.year) + DaysBeforeMonth(a.year, a.month) + a.day
          < DaysBeforeYear(b.year) + DaysBeforeMonth(b.year, b.month) + b.day
  {
    if a.year < b.year {
      YearsAhead(a.year, b.year);
      MonthsAhead(a.year, a.month, 13);
      MonthsOfYear(a.year);
    } else if a.month < b.month {
      MonthsAhead(a.year, a.month, b.month);
    }
  }

  /** The calendar is monotone: field order is time order. */
  lemma FieldsOrderSeconds(a: Civil, b: Civil)
    requires Valid(a) && Valid(b)
    ensures FieldsBefore(a, b) <==> Seconds(a) < Seconds(b)
    ensures Seconds(a) == Seconds(b) <==> a.(nanos := 0) == b.(nanos := 0)
  {
    if (a.year, a.month, a.day) != (b.year, b.month, b.day) {
      if FieldsBefore(a, b) {
        DaysOrder(a, b);
      } else {
        DaysOrder(b, a);
      }
    }
  }

  /** The Gregorian count of leap days. */
  lemma {:induction false} DaysBeforeYearIs(y: nat)
    ensures DaysBeforeYear(y) == 365 * y + (y + 3) / 4 - (y + 99) / 100 + (y + 399) / 400
  {
    if y > 0 {
      DaysBeforeYearIs(y - 1);
      Every4(y - 1);
      Every100(y - 1);
      Every400(y - 1);
      Multiples(y - 1);
    }
  }

  lemma Every4(y: nat)
    ensures (y + 4) / 4 == (y + 3) / 4 + if y % 4 == 0 then 1 else 0
  {}

  lemma Every100(y: nat)
    ensures (y + 100) / 100 == (y + 99) / 100 + if y % 100 == 0 then 1 else 0
  {}

  lemma Every400(y: nat)
    ensures (y + 400) / 400 == (y + 399) / 400 + if y % 400 == 0 then 1 else 0
  {}

  lemma Multiples(y: nat)
    ensures y % 400 == 0 ==> y % 100 == 0
    ensures y % 100 == 0 ==> y % 4 == 0
  {
    MultipleOfPart(y, 4, 100);
    MultipleOfPart(y, 25, 4);
  }

  lemma MultipleOfPart(y: nat, a: nat, b: nat)
    requires (a == 4 && b == 100) || (a == 25 && b == 4)
    ensures y % (a * b) == 0 ==> y % b == 0
  {
    if y % (a * b) == 0 {
      var q := y / (a * b);
      assert y == b * (a * q);
    }
  }

  // ---------------------------------------------------------------- printing

  function Pow10(n: nat): nat { if n == 0 then 1 else 10 * Pow10(n - 1) }

  function Digit(n: nat): char
    requires n < 10
  {
    ('0' as int + n) as char
  }

  /** The last `w` decimal digits, with leading zeros. */
  function Fixed(n: nat, w: nat): (s: string)
    ensures |s| == w && forall c | c in s :: '0' <= c <= '9'
  {
    if w == 0 then "" else Fixed(n / 10, w - 1) + [Digit(n % 10)]
  }

  function TrimZeros(s: string): string {
    if s != "" && s[|s| - 1] == '0' then TrimZeros(s[..|s| - 1]) else s
  }

  function SecondsText(c: Civil): string {
    Fixed(c.year, 4) + ("-" + (Fixed(c.month, 2) + ("-" + (Fixed(c.day, 2) + ("T" +
      (Fixed(c.hour, 2) + (":" + (Fixed(c.minute, 2) + (":" + Fixed(c.second, 2))))))))))
  }

  function FractionText(nanos: nat): string {
    if nanos == 0 then "" else "." + TrimZeros(Fixed(nanos, 9))
  }

  function Format(c: Civil): string {
    SecondsText(c) + (FractionText(c.nanos) + "Z")
  }

  lemma {:induction false} FixedOrder(a: nat, b: nat, w: nat)
    requires a < Pow10(w) && b < Pow10(w)
    ensures Less(Fixed(a, w), Fixed(b, w)) <==> a < b
    ensures Fixed(a, w) == Fixed(b, w) <==> a == b
  {
    if w > 0 {
      FixedOrder(a / 10, b / 10, w - 1);
      var p, q, x, y := Fixed(a / 10, w - 1), Fixed(b / 10, w - 1), [Digit(a % 10)], [Digit(b % 10)];
      assert (p + x)[..w - 1] == p && (q + y)[..w - 1] == q && (p + x)[w - 1] == x[0] && (q + y)[w - 1] == y[0];
      if p == q {
        SharedPrefix(p, x, y);
      } else {
        PrefixDecides(p, q, x, y);
      }
    }
  }

  /** A field followed by text: the field decides unless equal. */
  lemma FieldFirst(a: nat, b: nat, w: nat, s: string, t: string)
    requires a < Pow10(w) && b < Pow10(w)
    ensures Less(Fixed(a, w) + s, Fixed(b, w) + t) <==> a < b || (a == b && Less(s, t))
  {
    FixedOrder(a, b, w);
    if a == b {
      SharedPrefix(Fixed(a, w), s, t);
    } else {
      PrefixDecides(Fixed(a, w), Fixed(b, w), s, t);
    }
  }

  lemma Powers()
    ensures Pow10(2) == 100 && Pow10(4) == 10_000 && Pow10(9) == 1_000_000_000
  {
    assert Pow10(3) == 1000 && Pow10(6) == 1_000_000;
  }

  /** The text down to the second orders as the fields do. */
  lemma SecondsTextOrder(a: Civil, b: Civil)
    requires Valid(a) && Valid(b)
    ensures Less(SecondsText(a), SecondsText(b)) <==> FieldsBefore(a, b)
    ensures |SecondsText(a)| == 19
  {
    Powers();
    var a6, b6 := Fixed(a.second, 2), Fixed(b.second, 2);
    FixedOrder(a.second, b.second, 2);
    SharedPrefix(":", a6, b6);
    var a5, b5 := Fixed(a.minute, 2) + (":" + a6), Fixed(b.minute, 2) + (":" + b6);
    FieldFirst(a.minute, b.minute, 2, ":" + a6, ":" + b6);
    SharedPrefix(":", a5, b5);
    var a4, b4 := Fixed(a.hour, 2) + (":" + a5), Fixed(b.hour, 2) + (":" + b5);
    FieldFirst(a.hour, b.hour, 2, ":" + a5, ":" + b5);
    SharedPrefix("T", a4, b4);
    var a3, b3 := Fixed(a.day, 2) + ("T" + a4), Fixed(b.day, 2) + ("T" + b4);
    FieldFirst(a.day, b.day, 2, "T" + a4, "T" + b4);
    SharedPrefix("-", a3, b3);
    FieldFirst(a.month, b.month, 2, "-" + a3, "-" + b3);
    SharedPrefix("-", Fixed(a.month, 2) + ("-" + a3), Fixed(b.month, 2) + ("-" + b3));
    FieldFirst(a.year, b.year, 4, "-" + (Fixed(a.month, 2) + ("-" + a3)), "-" + (Fixed(b.month, 2) + ("-" + b3)));
  }

  // ---------------------------------------------------------------- comparing across seconds

  /** Whenever the whole seconds differ, string order is time order. */
  lemma OrderAcrossSeconds(a: Civil, b: Civil)
    requires Valid(a) && Valid(b) && Seconds(a) != Seconds(b)
    ensures Less(Format(a), Format(b)) <==> Instant(a) < Instant(b)
  {
    FieldsOrderSeconds(a, b);
    SecondsTextOrder(a, b);
    SecondsTextOrder(b, a);
    if SecondsText(a) == SecondsText(b) {
      Irreflexive(SecondsText(a));
    }
    PrefixDecides(SecondsText(a), SecondsText(b), FractionText(a.nanos) + "Z", FractionText(b.nanos) + "Z");
    hide Seconds, SecondsText, Format, FieldsBefore, FractionText;
  }

  // ---------------------------------------------------------------- comparing within one second

  lemma {:induction false} TrimmedIs(s: string)
    ensures |TrimZeros(s)| <= |s| && TrimZeros(s) == s[..|TrimZeros(s)|]
    ensures forall i | |TrimZeros(s)| <= i < |s| :: s[i] == '0'
  {
    if s != "" && s[|s| - 1] == '0' {
      TrimmedIs(s[..|s| - 1]);
    }
  }

  lemma {:induction false} LessAt(s: string, t: string, i: nat)
    requires i < |s| && i < |t| && s[..i] == t[..i] && s[i] < t[i]
    ensures Less(s, t)
  {
    if i > 0 {
      assert s[0] == s[..i][0] == t[..i][0] == t[0];
      assert s[1..][..i - 1] == s[..i][1..] == t[..i][1..] == t[1..][..i - 1];
      LessAt(s[1..], t[1..], i - 1);
    }
  }

  lemma {:induction false} FirstSmaller(s: string, t: string) returns (i: nat)
    requires |s| == |t| && Less(s, t)
    ensures i < |s| && s[..i] == t[..i] && s[i] < t[i]
  {
    if s[0] < t[0] {
      i := 0;
    } else {
      i := FirstSmaller(s[1..], t[1..]);
      i := i + 1;
      assert s[..i] == [s[0]] + s[1..][..i - 1] && t[..i] == [t[0]] + t[1..][..i - 1];
    }
  }

  /** Within one second, a later time compares greater exactly when the earlier one's fraction is
      not a prefix of the later one's: "05Z" compares after "05.5Z", and "05.1Z" after "05.12Z". */
  lemma OrderWithinSecond(a: Civil, b: Civil)
    requires Valid(a) && Valid(b) && Seconds(a) == Seconds(b) && a.nanos < b.nanos
    ensures Less(Format(a), Format(b)) <==> !(FractionText(a.nanos) <= FractionText(b.nanos))
  {
    FieldsOrderSeconds(a, b);
    assert SecondsText(a) == SecondsText(b);
    SharedPrefix(SecondsText(a), FractionText(a.nanos) + "Z", FractionText(b.nanos) + "Z");
    hide SecondsText, Seconds;
    FractionOrder(a.nanos, b.nanos);
  }

  lemma {:induction false} ZeroTrims(w: nat)
    ensures TrimZeros(Fixed(0, w)) == ""
  {
    if w > 0 {
      ZeroTrims(w - 1);
      assert Fixed(0, w)[..w - 1] == Fixed(0, w - 1);
    }
  }

  lemma FractionOrder(m: nat, n: nat)
    requires m < n < 1_000_000_000
    ensures Less(FractionText(m) + "Z", FractionText(n) + "Z") <==> !(FractionText(m) <= FractionText(n))
    ensures FractionText(m) != FractionText(n)
  {
    hide Fixed, TrimZeros, Less;
    Powers();
    FixedOrder(m, n, 9);
    ZeroTrims(9);
    var s, t := Fixed(m, 9), Fixed(n, 9);
    var i := FirstSmaller(s, t);
    TrimmedIs(s);
    TrimmedIs(t);
    assert s[i] in s && |TrimZeros(t)| > i;
    var u, v := TrimZeros(s), TrimZeros(t);
    assert FractionText(n) == "." + v;
    if |u| <= i {
      assert u == s[..i][..|u|] == t[..i][..|u|] == v[..|u|];
      FractionPrefix(u, v, t, FractionText(m));
    } else {
      Diverge(FractionText(m), FractionText(n), u, v, s, t, i);
    }
  }

  /** A shorter trimmed fraction (or none) that begins the other compares after it. */
  lemma FractionPrefix(u: string, v: string, t: string, f: string)
    requires |u| < |v| && u == v[..|u|] && v <= t && (forall c | c in t :: '0' <= c <= '9')
    requires f == "" || f == "." + u
    ensures f <= "." + v && !Less(f + "Z", "." + v + "Z")
  {
    hide Less;
    var g := "." + v;
    if f != "" {
      assert g[..|f|] == "." + v[..|u|];
      assert g[|f|] == v[|u|] == t[|u|];
      assert t[|u|] in t;
    }
    AfterZ(f, g);
  }

  /** A proper prefix followed by 'Z' compares after any longer text with a smaller next letter. */
  lemma AfterZ(f: string, g: string)
    requires |f| < |g| && f == g[..|f|] && g[|f|] < 'Z'
    ensures !Less(f + "Z", g + "Z")
  {
    hide Less;
    assert (g + "Z")[..|f|] == f == (f + "Z")[..|f|] && (g + "Z")[|f|] == g[|f|];
    LessAt(g + "Z", f + "Z", |f|);
    Asymmetric(g + "Z", f + "Z");
  }

  lemma Diverge(f: string, g: string, u: string, v: string, s: string, t: string, i: nat)
    requires f == "." + u && g == "." + v && u <= s && v <= t && i < |u| && i < |v|
    requires s[..i] == t[..i] && s[i] < t[i]
    ensures Less(f + "Z", g + "Z") && !(f <= g)
  {
    assert (f + "Z")[..i + 1] == "." + s[..i] && (g + "Z")[..i + 1] == "." + t[..i];
    assert (f + "Z")[i + 1] == f[i + 1] == u[i] == s[i] && (g + "Z")[i + 1] == g[i + 1] == v[i] == t[i];
    LessAt(f + "Z", g + "Z", i + 1);
  }

  const WHOLE := Civil(2024, 1, 2, 3, 4, 5, 0)
  const HALF := WHOLE.(nanos := 500_000_000)
  const TENTH := WHOLE.(nanos := 100_000_000)
  const TWELVE := WHOLE.(nanos := 120_000_000)

  lemma {:induction false} TrimOne(s: string)
    ensures TrimZeros(s + "0") == TrimZeros(s)
  {
    assert (s + "0")[..|s|] == s;
  }

  function Shifted(n: nat, k: nat): nat {
    if k == 0 then n else 10 * Shifted(n, k - 1)
  }

  lemma FixedTens(m: nat, w: nat)
    requires w > 0
    ensures Fixed(10 * m, w) == Fixed(m, w - 1) + "0"
  {
    assert (10 * m) / 10 == m && (10 * m) % 10 == 0;
    assert Fixed(10 * m, w) == Fixed((10 * m) / 10, w - 1) + [Digit((10 * m) % 10)];
    assert Digit(0) == '0';
  }

  /** Zeros at the end of a fraction are trimmed one by one. */
  lemma {:induction false} TrimTail(n: nat, w: nat, k: nat)
    requires k <= w
    ensures TrimZeros(Fixed(Shifted(n, k), w)) == TrimZeros(Fixed(n, w - k))
  {
    hide TrimZeros, Fixed;
    if k > 0 {
      var m := Shifted(n, k - 1);
      FixedTens(m, w);
      TrimOne(Fixed(m, w - 1));
      TrimTail(n, w - 1, k - 1);
    }
  }

  lemma ShiftedIs(n: nat)
    ensures Shifted(n, 7) == 10_000_000 * n && Shifted(n, 8) == 100_000_000 * n
  {
    assert Shifted(n, 1) == 10 * n;
    assert Shifted(n, 2) == 10 * Shifted(n, 1);
    assert Shifted(n, 3) == 10 * Shifted(n, 2);
    assert Shifted(n, 4) == 10 * Shifted(n, 3);
    assert Shifted(n, 5) == 10 * Shifted(n, 4);
    assert Shifted(n, 6) == 10 * Shifted(n, 5);
    assert Shifted(n, 7) == 10 * Shifted(n, 6);
  }

  lemma Fractions()
    ensures FractionText(WHOLE.nanos) == "" && FractionText(HALF.nanos) == ".5"
    ensures FractionText(TENTH.nanos) == ".1" && FractionText(TWELVE.nanos) == ".12"
  {
    ShiftedIs(5);
    ShiftedIs(1);
    ShiftedIs(12);
    TrimTail(5, 9, 8);
    TrimTail(1, 9, 8);
    TrimTail(12, 9, 7);
    SmallTrims();
    hide Fixed, TrimZeros, Shifted;
  }

  lemma SmallTrims()
    ensures TrimZeros(Fixed(5, 1)) == "5" && TrimZeros(Fixed(1, 1)) == "1" && TrimZeros(Fixed(12, 2)) == "12"
  {
    SmallFixed();
    hide Fixed;
    assert TrimZeros("5") == "5" && TrimZeros("1") == "1" && TrimZeros("12") == "12";
  }

  lemma SmallFixed()
    ensures Fixed(5, 1) == "5" && Fixed(1, 1) == "1" && Fixed(12, 2) == "12"
  {
    TwoDigits(12);
  }

  lemma {:induction false} TwoDigits(n: nat)
    requires n < 100
    ensures Fixed(n, 2) == [Digit(n / 10), Digit(n % 10)]
  {
    assert Fixed(n / 10, 1) == Fixed(n / 100, 0) + [Digit(n / 10 % 10)];
  }

  /** The stamps in print. */
  lemma StampsAre()
    ensures Format(WHOLE) == "2024-01-02T03:04:05Z" && Format(HALF) == "2024-01-02T03:04:05.5Z"
    ensures Format(TENTH) == "2024-01-02T03:04:05.1Z" && Format(TWELVE) == "2024-01-02T03:04:05.12Z"
  {
    Fractions();
    InPrint();
    hide FractionText, Fixed;
    assert SecondsText(WHOLE) == SecondsText(HALF) == SecondsText(TENTH) == SecondsText(TWELVE);
    hide SecondsText;
  }

  lemma YearInPrint()
    ensures Fixed(2024, 4) == "2024"
  {
    TwoDigits(20);
    assert Fixed(2024, 4) == Fixed(202, 3) + [Digit(4)] && Fixed(202, 3) == Fixed(20, 2) + [Digit(2)];
  }

  lemma InPrint()
    ensures SecondsText(WHOLE) == "2024-01-02T03:04:05"
  {
    hide Fixed;
    YearInPrint();
    TwoDigits(1);
    TwoDigits(2);
    TwoDigits(3);
    TwoDigits(4);
    TwoDigits(5);
  }

  /** The misorder at concrete stamps: 05Z compares after 05.5Z, and 05.1Z after 05.12Z. */
  lemma OrderMisread()
    ensures Valid(WHOLE) && Valid(HALF) && Instant(WHOLE) < Instant(HALF) && Less(Format(HALF), Format(WHOLE))
    ensures Valid(TENTH) && Valid(TWELVE) && Instant(TENTH) < Instant(TWELVE) && Less(Format(TWELVE), Format(TENTH))
  {
    Fractions();
    hide FractionText, SecondsText, Seconds, Format, Less;
    SameSecond(WHOLE, HALF);
    SameSecond(TENTH, TWELVE);
    assert ".12"[..2] == ".1";
    OrderWithinSecond(WHOLE, HALF);
    OrderWithinSecond(TENTH, TWELVE);
    Misordered(WHOLE, HALF);
    Misordered(TENTH, TWELVE);
  }

  lemma SameSecond(a: Civil, b: Civil)
    requires a.(nanos := 0) == b.(nanos := 0) && a.nanos < b.nanos
    ensures Seconds(a) == Seconds(b) && Instant(a) < Instant(b) && SecondsText(a) == SecondsText(b)
  {
    hide DaysBeforeYear, DaysBeforeMonth, Fixed;
  }

  /** Not less, and not equal either, is greater. */
  lemma Misordered(a: Civil, b: Civil)
    requires !Less(Format(a), Format(b)) && SecondsText(a) == SecondsText(b) &&
      FractionText(a.nanos) != FractionText(b.nanos)
    ensures Less(Format(b), Format(a))
  {
    hide FractionText, SecondsText;
    var p, x, y := SecondsText(a), FractionText(a.nanos), FractionText(b.nanos);
    assert (p + (x + "Z"))[|p|..] == x + "Z" && (p + (y + "Z"))[|p|..] == y + "Z";
    assert (x + "Z")[..|x + "Z"| - 1] == x && (y + "Z")[..|y + "Z"| - 1] == y;
    Total(Format(a), Format(b));
  }

  // ---------------------------------------------------------------- consequence for the stores

  /** A text comparison is wrong by less than one second. */
  lemma WrongByLessThanASecond(a: Civil, b: Civil)
    requires Valid(a) && Valid(b) && (AtMost(Format(a), Format(b)) != (Instant(a) <= Instant(b)))
    ensures -1_000_000_000 < Instant(a) - Instant(b) < 1_000_000_000
  {
    if Seconds(a) != Seconds(b) {
      OrderAcrossSeconds(a, b);
      OrderAcrossSeconds(b, a);
      Irreflexive(Format(a));
      Total(Format(a), Format(b));
      if Less(Format(a), Format(b)) {
        Asymmetric(Format(a), Format(b));
      }
      assert false;
    }
    hide Format, Seconds;
  }

  /** So the SQLite guard `lease_until <= now` on text stays within the lease protocol's
      tolerance of one second. */
  lemma TextGuardWithinDoubt(c: Config, until: Civil, now: Civil)
    requires Valid(until) && Valid(now) && c.doubt >= 1_000_000_000
    ensures if AtMost(Format(until), Format(now)) then MayExpire(c, Instant(until), Instant(now))
            else MayRun(c, Instant(until), Instant(now))
  {
    hide Format, Instant;
    if AtMost(Format(until), Format(now)) != (Instant(until) <= Instant(now)) {
      WrongByLessThanASecond(until, now);
    }
  }
}
