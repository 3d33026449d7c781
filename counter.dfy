/** The relationship-duration counter of the love letter.

    Once a second the page shows the time since a fixed start date as six
    numbers, each followed by its noun in the Russian plural form the number
    calls for.  The date objects are replaced by their components: the
    current date, the length of the previous month and the milliseconds
    left over after the whole days are given as inputs. */
module Counter {

  const MsPerSecond: int := 1000
  const MsPerMinute: int := 60000
  const MsPerHour: int := 3600000

  /** The three forms of each noun: one, few, many. */
  const YearForms: seq<string> := ["год", "года", "лет"]
  const MonthForms: seq<string> := ["месяц", "месяца", "месяцев"]
  const DayForms: seq<string> := ["день", "дня", "дней"]
  const HourForms: seq<string> := ["час", "часа", "часов"]
  const MinuteForms: seq<string> := ["минута", "минуты", "минут"]
  const SecondForms: seq<string> := ["секунда", "секунды", "секунд"]

  /** A calendar date as the browser reports it: months count from 0. */
  datatype CalendarDate = CalendarDate(year: int, month: int, day: int)

  /** The start of the count, 9 October 2023. */
  const StartDate: CalendarDate := CalendarDate(2023, 9, 9)

  /** The six numbers the counter shows. */
  datatype Duration = Duration(years: int, months: int, days: int, hours: int, minutes: int, seconds: int)

  function Abs(n: int): nat
  {
    if n < 0 then -n else n
  }

  function Max0(n: int): nat
  {
    if n > 0 then n else 0
  }

  // ---------------------------------------------------------------------
  // Plural forms

  /** Which of the three forms belongs after n: the "one" form for numbers
      ending in 1 except those ending in 11, the "few" form for numbers
      ending in 2, 3 or 4 except those ending in 12, 13 or 14, and the
      "many" form for all others. */
  function PluralForm(n: int): (f: nat)
    ensures f < 3
    ensures f == 0 <==> Abs(n) % 10 == 1 && Abs(n) % 100 != 11
    ensures f == 1 <==> Abs(n) % 10 in {2, 3, 4} && Abs(n) % 100 !in {12, 13, 14}
  {
    var abs := Abs(n);
    var last := abs % 10;
    var lastTwo := abs % 100;
    if last == 1 && lastTwo != 11 then 0
    else if last >= 2 && last <= 4 && (lastTwo < 12 || lastTwo > 14) then 1
    else 2
  }

  function Plural(n: int, forms: seq<string>): string
    requires |forms| == 3
  {
    forms[PluralForm(n)]
  }

  /** The form depends only on the last two digits and not on the sign. */
  lemma PluralLastTwoDigits(n: int)
    ensures PluralForm(n) == PluralForm(Abs(n) % 100)
    ensures PluralForm(-n) == PluralForm(n)
  {
  }

  lemma PluralExamples()
    ensures Plural(1, YearForms) == "год"
    ensures Plural(2, YearForms) == "года"
    ensures Plural(5, YearForms) == "лет"
    ensures Plural(11, YearForms) == "лет"
    ensures Plural(21, YearForms) == "год"
    ensures Plural(112, YearForms) == "лет"
  {
  }

  // ---------------------------------------------------------------------
  // Calendar difference

  /** Years, months and days from `start` to `now`, borrowing the length of
      the month before `now` when the day of month has not yet come round,
      and a year when the month has not. */
  method CalendarDifference(now: CalendarDate, start: CalendarDate, prevMonthDays: int)
    returns (years: int, months: int, days: int)
    ensures years * 12 + months
      == (now.year - start.year) * 12 + (now.month - start.month) - (if now.day < start.day then 1 else 0)
    ensures days == now.day - start.day + (if now.day < start.day then prevMonthDays else 0)
    ensures 0 <= now.month < 12 && 0 <= start.month < 12 ==> 0 <= months < 12
    ensures 1 <= now.day && start.day <= prevMonthDays ==> days >= 0
  {
    years := now.year - start.year;
    months := now.month - start.month;
    days := now.day - start.day;
    if days < 0 {
      months := months - 1;
      days := days + prevMonthDays;
    }
    if months < 0 {
      years := years - 1;
      months := months + 12;
    }
  }

  // ---------------------------------------------------------------------
  // Hours, minutes and seconds

  /** h, m and s are the whole hours, minutes and seconds in ms. */
  ghost predicate IsSplit(ms: int, h: int, m: int, s: int)
  {
    && h >= 0 && 0 <= m < 60 && 0 <= s < 60
    && h * MsPerHour + m * MsPerMinute + s * MsPerSecond <= ms
    && ms < h * MsPerHour + m * MsPerMinute + s * MsPerSecond + MsPerSecond
  }

  /** Splits the milliseconds since the anchor (negative counts as 0). */
  method SplitRemaining(sinceAnchor: int) returns (hours: int, minutes: int, seconds: int)
    ensures IsSplit(Max0(sinceAnchor), hours, minutes, seconds)
  {
    var remainingMs := if sinceAnchor > 0 then sinceAnchor else 0;
    hours := remainingMs / MsPerHour;
    remainingMs := remainingMs % MsPerHour;
    minutes := remainingMs / MsPerMinute;
    remainingMs := remainingMs % MsPerMinute;
    seconds := remainingMs / MsPerSecond;
  }

  /** The split is the only one: no other hours, minutes and seconds fit. */
  lemma SplitUnique(ms: int, h: int, m: int, s: int, h': int, m': int, s': int)
    requires IsSplit(ms, h, m, s) && IsSplit(ms, h', m', s')
    ensures h == h' && m == m' && s == s'
  {
    assert m * MsPerMinute + s * MsPerSecond < MsPerHour;
    assert m' * MsPerMinute + s' * MsPerSecond < MsPerHour;
    assert s * MsPerSecond < MsPerMinute && s' * MsPerSecond < MsPerMinute;
  }

  // ---------------------------------------------------------------------
  // The text

  function DigitChar(d: nat): (c: char)
    requires d < 10
    ensures '0' <= c <= '9' && c as int - '0' as int == d
  {
    ('0' as int + d) as char
  }

  /** The decimal digits of n, without leading zeros. */
  function NatDigits(n: nat): (s: string)
    ensures |s| >= 1
    ensures forall i :: 0 <= i < |s| ==> '0' <= s[i] <= '9'
    ensures n > 0 ==> s[0] != '0'
    decreases n
  {
    if n < 10 then [DigitChar(n)] else NatDigits(n / 10) + [DigitChar(n % 10)]
  }

  /** How a number appears when written into the text. */
  function Decimal(n: int): string
  {
    if n < 0 then "-" + NatDigits(-n) else NatDigits(n)
  }

  function ParseNat(s: string): int
  {
    if s == [] then 0 else ParseNat(s[..|s| - 1]) * 10 + (s[|s| - 1] as int - '0' as int)
  }

  function ParseDecimal(s: string): int
  {
    if |s| > 0 && s[0] == '-' then -ParseNat(s[1..]) else ParseNat(s)
  }

  lemma {:induction false} NatDigitsRoundTrip(n: nat)
    ensures ParseNat(NatDigits(n)) == n
    decreases n
  {
    if n >= 10 {
      var s := NatDigits(n);
      assert s[..|s| - 1] == NatDigits(n / 10);
      NatDigitsRoundTrip(n / 10);
    }
  }

  /** Reading a written number back gives the number. */
  lemma DecimalRoundTrip(n: int)
    ensures ParseDecimal(Decimal(n)) == n
  {
    if n < 0 {
      assert ("-" + NatDigits(-n))[1..] == NatDigits(-n);
      NatDigitsRoundTrip(-n);
    } else {
      NatDigitsRoundTrip(n);
    }
  }

  /** One number and its noun. */
  function Part(n: int, forms: seq<string>): string
    requires |forms| == 3
  {
    Decimal(n) + " " + Plural(n, forms)
  }

  /** The six parts joined with ", ". */
  function DurationText(d: Duration): string
  {
    Part(d.years, YearForms) + ", " +
    Part(d.months, MonthForms) + ", " +
    Part(d.days, DayForms) + ", " +
    Part(d.hours, HourForms) + ", " +
    Part(d.minutes, MinuteForms) + ", " +
    Part(d.seconds, SecondForms)
  }

  function CountChar(c: char, s: string): nat
  {
    if s == [] then 0 else CountChar(c, s[..|s| - 1]) + (if s[|s| - 1] == c then 1 else 0)
  }

  lemma {:induction false} CountCharAppend(c: char, a: string, b: string)
    ensures CountChar(c, a + b) == CountChar(c, a) + CountChar(c, b)
    decreases |b|
  {
    if b != [] {
      assert (a + b)[..|a + b| - 1] == a + b[..|b| - 1];
      CountCharAppend(c, a, b[..|b| - 1]);
    } else {
      assert a + b == a;
    }
  }

  /** No character of s is c. */
  predicate Lacks(c: char, s: string)
  {
    forall i :: 0 <= i < |s| ==> s[i] != c
  }

  lemma {:induction false} CountCharAbsent(c: char, s: string)
    requires Lacks(c, s)
    ensures CountChar(c, s) == 0
    decreases |s|
  {
    if s != [] {
      var init := s[..|s| - 1];
      assert Lacks(c, init) by {
        forall i | 0 <= i < |init| ensures init[i] != c {
          assert init[i] == s[i];
        }
      }
      CountCharAbsent(c, init);
    }
  }

  lemma FormsLackComma()
    ensures forall k :: 0 <= k < 3 ==> Lacks(',', YearForms[k]) && Lacks(',', MonthForms[k]) && Lacks(',', DayForms[k])
    ensures forall k :: 0 <= k < 3 ==> Lacks(',', HourForms[k]) && Lacks(',', MinuteForms[k]) && Lacks(',', SecondForms[k])
  {
    forall k, i | 0 <= k < 3 && 0 <= i < |YearForms[k]| ensures YearForms[k][i] != ',' {
      assert YearForms[k][i] in YearForms[k];
    }
    forall k, i | 0 <= k < 3 && 0 <= i < |MonthForms[k]| ensures MonthForms[k][i] != ',' {
      assert MonthForms[k][i] in MonthForms[k];
    }
    forall k, i | 0 <= k < 3 && 0 <= i < |DayForms[k]| ensures DayForms[k][i] != ',' {
      assert DayForms[k][i] in DayForms[k];
    }
    forall k, i | 0 <= k < 3 && 0 <= i < |HourForms[k]| ensures HourForms[k][i] != ',' {
      assert HourForms[k][i] in HourForms[k];
    }
    forall k, i | 0 <= k < 3 && 0 <= i < |MinuteForms[k]| ensures MinuteForms[k][i] != ',' {
      assert MinuteForms[k][i] in MinuteForms[k];
    }
    forall k, i | 0 <= k < 3 && 0 <= i < |SecondForms[k]| ensures SecondForms[k][i] != ',' {
      assert SecondForms[k][i] in SecondForms[k];
    }
  }

  lemma PartHasNoComma(n: int, forms: seq<string>)
    requires |forms| == 3
    requires forall k :: 0 <= k < 3 ==> Lacks(',', forms[k])
    ensures CountChar(',', Part(n, forms)) == 0
  {
    var digits := NatDigits(Abs(n));
    var word := forms[PluralForm(n)];
    var p := Part(n, forms);
    assert p == (if n < 0 then "-" else "") + digits + " " + word;
    assert Lacks(',', p);
    CountCharAbsent(',', p);
  }

  /** Joining with ", " adds exactly one comma. */
  lemma JoinCount(a: string, b: string)
    ensures CountChar(',', a + ", " + b) == CountChar(',', a) + 1 + CountChar(',', b)
  {
    assert CountChar(',', ", ") == 1;
    CountCharAppend(',', a, ", ");
    CountCharAppend(',', a + ", ", b);
  }

  /** The text is six parts: it holds exactly five commas, one for each
      separator, since neither numbers nor nouns contain one. */
  lemma DurationTextHasSixParts(d: Duration)
    ensures CountChar(',', DurationText(d)) == 5
  {
    FormsLackComma();
    var p1, p2, p3 := Part(d.years, YearForms), Part(d.months, MonthForms), Part(d.days, DayForms);
    var p4, p5, p6 := Part(d.hours, HourForms), Part(d.minutes, MinuteForms), Part(d.seconds, SecondForms);
    PartHasNoComma(d.years, YearForms);
    PartHasNoComma(d.months, MonthForms);
    PartHasNoComma(d.days, DayForms);
    PartHasNoComma(d.hours, HourForms);
    PartHasNoComma(d.minutes, MinuteForms);
    PartHasNoComma(d.seconds, SecondForms);
    var q2 := p1 + ", " + p2;
    JoinCount(p1, p2);
    var q3 := q2 + ", " + p3;
    JoinCount(q2, p3);
    var q4 := q3 + ", " + p4;
    JoinCount(q3, p4);
    var q5 := q4 + ", " + p5;
    JoinCount(q4, p5);
    JoinCount(q5, p6);
    assert DurationText(d) == q5 + ", " + p6;
  }

  // ---------------------------------------------------------------------
  // One refresh of the counter

  /** One refresh: the calendar difference from the start date, the split of
      the leftover milliseconds, and the text.  Every month has at least 28
      days, more than the start day 9, so the day count is never negative. */
  method UpdateTimer(now: CalendarDate, prevMonthDays: int, sinceAnchor: int)
    returns (d: Duration, text: string)
    ensures text == DurationText(d)
    ensures d.years * 12 + d.months
      == (now.year - StartDate.year) * 12 + (now.month - StartDate.month) - (if now.day < StartDate.day then 1 else 0)
    ensures 0 <= now.month < 12 ==> 0 <= d.months < 12
    ensures d.days == now.day - StartDate.day + (if now.day < StartDate.day then prevMonthDays else 0)
    ensures 1 <= now.day && 28 <= prevMonthDays ==> d.days >= 0
    ensures IsSplit(Max0(sinceAnchor), d.hours, d.minutes, d.seconds)
  {
    var years, months, days := CalendarDifference(now, StartDate, prevMonthDays);
    var hours, minutes, seconds := SplitRemaining(sinceAnchor);
    d := Duration(years, months, days, hours, minutes, seconds);
    text := DurationText(d);
  }
}
