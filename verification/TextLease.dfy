/** The stores' own comparisons of a lease end with an instant, as instances of the comparison in
    module LeaseService: text in SQLite, microseconds in Postgres. How far each errs, and what
    that lets a second process do. Instants are nanoseconds since the start of year 0. */
module TextLease {
  import opened Options
  import opened TextOrder
  import opened SyncLease
  import opened LeaseService
  import opened Timestamps

  // ---------------------------------------------------------------- from instants to stamps

  /** The year that day `d` of year `y` falls in when it may lie beyond it, and the day there. */
  function FindYear(y: nat, d: nat): (nat, nat)
    decreases d
  {
    if d < YearDays(y) then (y, d) else FindYear(y + 1, d - YearDays(y))
  }

  function FindMonth(y: nat, m: nat, d: nat): (nat, nat)
    requires 1 <= m <= 12
    decreases 12 - m
  {
    if m == 12 || d < MonthDays(y, m) then (m, d) else FindMonth(y, m + 1, d - MonthDays(y, m))
  }

  lemma {:induction false} YearFound(y: nat, d: nat)
    ensures var (z, e) := FindYear(y, d);
      0 <= e < YearDays(z) && y <= z && DaysBeforeYear(z) + e == DaysBeforeYear(y) + d
    decreases d
  {
    if d >= YearDays(y) {
      YearFound(y + 1, d - YearDays(y));
    }
  }

  lemma {:induction false} MonthFound(y: nat, m: nat, d: nat)
    requires 1 <= m <= 12 && DaysBeforeMonth(y, m) + d < DaysBeforeMonth(y, 13)
    ensures var (n, e) := FindMonth(y, m, d);
      1 <= n <= 12 && 0 <= e < MonthDays(y, n) && DaysBeforeMonth(y, n) + e == DaysBeforeMonth(y, m) + d
    decreases 12 - m
  {
    if m == 12 {
      assert DaysBeforeMonth(y, 13) == DaysBeforeMonth(y, 12) + MonthDays(y, 12);
    } else if d >= MonthDays(y, m) {
      assert DaysBeforeMonth(y, m + 1) == DaysBeforeMonth(y, m) + MonthDays(y, m);
      MonthFound(y, m + 1, d - MonthDays(y, m));
    }
  }

  const DAY: int := 86_400_000_000_000
  const SECOND: int := 1_000_000_000

  /** The first instant of year 0 and the end of year 9999. */
  const FIRST: int := DAY

  function Last(): int { (DaysBeforeYear(10_000) + 1) * DAY }

  predicate Printable(i: int) { FIRST <= i < Last() }

  /** The calendar form of an instant. */
  function CivilOf(i: int): Civil
    requires i >= FIRST
  {
    var day, rest := i / DAY - 1, i % DAY;
    var (y, inYear) := FindYear(0, day);
    var (m, inMonth) := FindMonth(y, 1, inYear);
    Civil(y, m, inMonth + 1, rest / (3600 * SECOND), rest / (60 * SECOND) % 60, rest / SECOND % 60, rest % SECOND)
  }

  /** Every instant of the years 0 to 9999 is that of its calendar form. */
  lemma CivilOfIs(i: int)
    requires Printable(i)
    ensures Valid(CivilOf(i)) && Instant(CivilOf(i)) == i
  {
    hide FindYear, FindMonth, DaysBeforeYear, DaysBeforeMonth, YearDays;
    DateFound(i / DAY - 1);
    ClockOf(i % DAY);
    assert i == i / DAY * DAY + i % DAY;
  }

  lemma DateFound(day: nat)
    requires day < DaysBeforeYear(10_000)
    ensures var (y, inYear) := FindYear(0, day);
      var (m, inMonth) := FindMonth(y, 1, inYear);
      && y <= 9999 && 1 <= m <= 12 && 0 <= inMonth < MonthDays(y, m)
      && DaysBeforeYear(y) + DaysBeforeMonth(y, m) + inMonth == day
  {
    hide FindYear, FindMonth;
    YearFound(0, day);
    var (y, inYear) := FindYear(0, day);
    if y > 9999 {
      YearsUp(10_000, y);
    }
    MonthsOfYear(y);
    assert DaysBeforeMonth(y, 1) == 0;
    hide DaysBeforeYear, DaysBeforeMonth;
    MonthFound(y, 1, inYear);
  }

  lemma {:induction false} YearsUp(y: nat, z: nat)
    requires y <= z
    ensures DaysBeforeYear(y) <= DaysBeforeYear(z)
  {
    if y < z {
      YearsUp(y, z - 1);
    }
  }

  /** The hours, minutes, seconds and nanoseconds of a part of a day. */
  lemma ClockOf(rest: int)
    requires 0 <= rest < DAY
    ensures 0 <= rest / (3600 * SECOND) < 24
    ensures var h, m, s, n := rest / (3600 * SECOND), rest / (60 * SECOND) % 60, rest / SECOND % 60, rest % SECOND;
      ((h * 3600 + m * 60 + s) * SECOND + n) == rest
  {
    var secs := rest / SECOND;
    assert rest == secs * SECOND + rest % SECOND;
    assert rest / (60 * SECOND) == secs / 60 && rest / (3600 * SECOND) == secs / 3600;
    assert secs / 60 / 60 == secs / 3600;
  }

  /** And every valid stamp is the calendar form of its instant. */
  lemma StampReadsBack(c: Civil)
    requires Valid(c)
    ensures Printable(Instant(c)) && CivilOf(Instant(c)) == c
  {
    InYears(c);
    CivilOfIs(Instant(c));
    hide CivilOf;
    var d := CivilOf(Instant(c));
    assert Seconds(d) == Seconds(c) && d.nanos == c.nanos;
    hide Seconds;
    FieldsOrderSeconds(c, d);
  }

  lemma InYears(c: Civil)
    requires Valid(c)
    ensures Printable(Instant(c))
  {
    var days := DaysBeforeYear(c.year) + DaysBeforeMonth(c.year, c.month) + c.day;
    MonthsAhead(c.year, c.month, 13);
    MonthsOfYear(c.year);
    YearsUp(c.year + 1, 10_000);
    assert days <= DaysBeforeYear(c.year) + YearDays(c.year) == DaysBeforeYear(c.year + 1);
    assert 1 <= days <= DaysBeforeYear(10_000);
    hide DaysBeforeYear, DaysBeforeMonth;
  }

  // ---------------------------------------------------------------- SQLite: text

  function Stamped(i: int): string
    requires Printable(i)
  {
    Format(CivilOf(i))
  }

  /** `lease_until <= now` on the stored texts; beyond year 9999 stamps have another form. */
  function TextExpired(until: int, now: int): bool {
    if Printable(until) && Printable(now) then AtMost(Stamped(until), Stamped(now)) else until <= now
  }

  /** The text comparison errs by less than one second. */
  lemma TextWithinDoubt(c: Config)
    requires c.doubt >= SECOND
    ensures WithinDoubt(c, TextExpired)
  {
    hide CivilOf, Format, Instant, AtMost, Valid, Last;
    forall until, now ensures if TextExpired(until, now) then MayExpire(c, until, now) else MayRun(c, until, now) {
      if Printable(until) && Printable(now) {
        CivilOfIs(until);
        CivilOfIs(now);
        TextGuardWithinDoubt(c, CivilOf(until), CivilOf(now));
      }
    }
  }

  /** Two stamps of one second, the earlier one's fraction beginning the later one's. */
  predicate Misread(early: Civil, late: Civil) {
    Seconds(early) == Seconds(late) && FractionText(early.nanos) <= FractionText(late.nanos)
  }

  /** Exactly when the text comparison errs: a lease still running counts as expired, or one that
      has ended as running, if and only if the two stamps are so misread. */
  lemma TextErrs(until: int, now: int)
    requires Printable(until) && Printable(now)
    ensures now < until ==> (TextExpired(until, now) <==> Misread(CivilOf(now), CivilOf(until)))
    ensures until < now ==> (!TextExpired(until, now) <==> Misread(CivilOf(until), CivilOf(now)))
    ensures until == now ==> TextExpired(until, now)
  {
    CivilOfIs(until);
    CivilOfIs(now);
    var u, n := CivilOf(until), CivilOf(now);
    hide CivilOf;
    if now < until {
      TextOrderOf(n, u);
    } else if until < now {
      TextOrderOf(u, n);
    }
  }

  lemma TextOrderOf(early: Civil, late: Civil)
    requires Valid(early) && Valid(late) && Instant(early) < Instant(late)
    ensures AtMost(Format(late), Format(early)) <==> Misread(early, late)
    ensures AtMost(Format(early), Format(late)) <==> !Misread(early, late)
  {
    hide Format, FractionText, Less;
    if Seconds(early) == Seconds(late) {
      assert early.nanos < late.nanos;
      OrderWithinSecond(early, late);
    } else {
      OrderAcrossSeconds(early, late);
    }
    StampsDiffer(early, late);
    Total(Format(early), Format(late));
    if Less(Format(early), Format(late)) {
      Asymmetric(Format(early), Format(late));
    }
    hide Seconds, Instant;
  }

  lemma Extends(p: string, x: string, y: string)
    requires x != y
    ensures p + (x + "Z") != p + (y + "Z")
  {
    assert (p + (x + "Z"))[|p|..] == x + "Z" && (p + (y + "Z"))[|p|..] == y + "Z";
    assert (x + "Z")[..|x + "Z"| - 1] == x && (y + "Z")[..|y + "Z"| - 1] == y;
  }

  lemma StampsDiffer(early: Civil, late: Civil)
    requires Valid(early) && Valid(late) && Instant(early) < Instant(late)
    ensures Format(early) != Format(late)
  {
    hide Less, FractionText, Fixed;
    if Seconds(early) == Seconds(late) {
      FieldsOrderSeconds(early, late);
      FractionOrder(early.nanos, late.nanos);
      assert SecondsText(early) == SecondsText(late);
      Extends(SecondsText(early), FractionText(early.nanos), FractionText(late.nanos));
    } else {
      OrderAcrossSeconds(early, late);
      Irreflexive(Format(early));
    }
  }

  // ---------------------------------------------------------------- Postgres: microseconds

  /** A TIMESTAMP WITH TIME ZONE keeps microseconds, to the nearest. */
  function Micros(i: int): int { (i + 500) / 1000 }

  lemma MicrosNearest(i: int)
    ensures -500 <= 1000 * Micros(i) - i <= 500
  {}

  function MicrosExpired(until: int, now: int): bool { Micros(until) <= Micros(now) }

  /** The comparison on microseconds errs by less than one of them. */
  lemma MicrosWithinDoubt(c: Config)
    requires c.doubt >= 1000
    ensures WithinDoubt(c, MicrosExpired)
  {}

  /** It errs only early, exactly when both instants are stored as the same microsecond. */
  lemma MicrosErr(until: int, now: int)
    ensures now < until ==> (MicrosExpired(until, now) <==> Micros(until) == Micros(now))
    ensures until <= now ==> MicrosExpired(until, now)
  {}

  // ---------------------------------------------------------------- what an early comparison lets happen

  /** Two services on one table: wherever the comparison finds a running lease expired, the second
      begins a sync of the same source, and takes its row, before the first one's lease end. */
  method Takeover(expired: Comparison, until: int, now: int, ttl: nat) returns (held: Lease, taken: Lease)
    requires expired(until, now) && until - ttl <= now < until
    ensures held.until == until && taken.until == now + ttl && taken.owner != held.owner
  {
    var table := new LeaseTable(expired);
    var p := new SourceService("p", ttl, 0, table);
    var q := new SourceService("q", ttl, 0, table);
    var first := p.BeginSync("s", until - ttl, 0);
    held := table.rows["s"];
    var second := q.BeginSync("s", now, 0);
    taken := table.rows["s"];
  }

  /** In SQLite: a ten-second lease until 05.5Z falls to another service at 05Z. */
  method TextTakeover() returns (held: Lease, now: int, taken: Lease)
    ensures now == Instant(WHOLE) < held.until == Instant(HALF)
    ensures taken.until == now + 10 * SECOND && taken.owner != held.owner
  {
    hide CivilOf, Instant, Format;
    OrderMisread();
    StampReadsBack(WHOLE);
    StampReadsBack(HALF);
    HalfLater();
    now := Instant(WHOLE);
    held, taken := Takeover(TextExpired, Instant(HALF), now, 10 * SECOND);
  }

  lemma HalfLater()
    ensures Instant(HALF) == Instant(WHOLE) + 500_000_000
  {
    SameSecond(WHOLE, HALF);
    hide Seconds;
  }

  /** In Postgres: a ten-second lease falls to another service 400 nanoseconds before its end. */
  method MicrosTakeover() returns (held: Lease, now: int, taken: Lease)
    ensures now + 400 == held.until && taken.until == now + 10 * SECOND && taken.owner != held.owner
  {
    now := 1_000_000 * SECOND;
    assert MicrosExpired(now + 400, now);
    held, taken := Takeover(MicrosExpired, now + 400, now, 10 * SECOND);
  }
}
