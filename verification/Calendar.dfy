/** Seconds since 1970 by a closed formula, against the Gregorian calendar stepped day by day. */
module Calendar {

  // ---- the calendar

  datatype Date = Date(year: nat, month: nat, day: nat)

  predicate IsLeap(y: nat) { (y % 4 == 0 && y % 100 != 0) || y % 400 == 0 }

  function DaysInMonth(y: nat, m: nat): nat {
    if m == 2 then (if IsLeap(y) then 29 else 28)
    else if m == 4 || m == 6 || m == 9 || m == 11 then 30
    else 31
  }

  predicate Valid(d: Date) {
    1970 <= d.year && 1 <= d.month <= 12 && 1 <= d.day <= DaysInMonth(d.year, d.month)
  }

  const EPOCH := Date(1970, 1, 1)

  function NextDay(d: Date): (r: Date)
    requires Valid(d)
    ensures Valid(r)
  {
    if d.day < DaysInMonth(d.year, d.month) then d.(day := d.day + 1)
    else if d.month < 12 then Date(d.year, d.month + 1, 1)
    else Date(d.year + 1, 1, 1)
  }

  function PreviousDay(d: Date): (r: Date)
    requires Valid(d) && d != EPOCH
    ensures Valid(r) && NextDay(r) == d
  {
    if d.day > 1 then d.(day := d.day - 1)
    else if d.month > 1 then Date(d.year, d.month - 1, DaysInMonth(d.year, d.month - 1))
    else Date(d.year - 1, 12, 31)
  }

  /** The n-th day after 1 January 1970. */
  function DayAfterEpoch(n: nat): (d: Date)
    ensures Valid(d)
  {
    if n == 0 then EPOCH else NextDay(DayAfterEpoch(n - 1))
  }

  /** Steps back to 1 January 1970. */
  function DaysSinceEpoch(d: Date): nat
    requires Valid(d)
    decreases d.year, d.month, d.day
  {
    if d == EPOCH then 0 else 1 + DaysSinceEpoch(PreviousDay(d))
  }

  lemma {:induction false} StepsAreInverse(d: Date)
    requires Valid(d)
    ensures DayAfterEpoch(DaysSinceEpoch(d)) == d
    decreases d.year, d.month, d.day
  {
    if d != EPOCH {
      StepsAreInverse(PreviousDay(d));
    }
  }

  predicate Earlier(a: Date, b: Date) {
    a.year < b.year || (a.year == b.year && (a.month < b.month || (a.month == b.month && a.day < b.day)))
  }

  lemma {:induction false} DaysGrow(a: Date, b: Date)
    requires Valid(a) && Valid(b) && Earlier(a, b)
    ensures DaysSinceEpoch(a) < DaysSinceEpoch(b)
    decreases b.year, b.month, b.day
  {
    var p := PreviousDay(b);
    if p != a {
      DaysGrow(a, p);
    }
  }

  // ---- the formula

  /** The DAYS macro, for non-negative arguments. */
  function Days(y: nat, m: nat, d: nat): int {
    365 * y + LeapDays(y) + MonthDays(m) + d
  }

  function LeapDays(y: nat): int { y / 4 - y / 100 + y / 400 }

  function MonthDays(m: nat): int { 367 * m / 12 }

  /** The day number mktime computes: February is moved to the end of the previous year. */
  function DayNumber(d: Date): int
    requires Valid(d)
  {
    (if d.month <= 2 then Days(d.year - 1, d.month + 10, d.day) else Days(d.year, d.month - 2, d.day))
    - Days(1969, 11, 1)
  }

  lemma LeapSteps(y: nat)
    requires y > 0
    ensures LeapDays(y) == LeapDays(y - 1) + (if IsLeap(y) then 1 else 0)
  {
    Step(y, 4);
    Step(y, 100);
    Step(y, 400);
    Factor(y, 4, 25);
    Factor(y, 100, 4);
  }

  lemma Step(y: nat, k: nat)
    requires y > 0 && (k == 4 || k == 100 || k == 400)
    ensures y / k == (y - 1) / k + (if y % k == 0 then 1 else 0)
  {
  }

  lemma Factor(y: nat, j: nat, k: nat)
    requires (j == 4 && k == 25) || (j == 100 && k == 4)
    ensures y % (j * k) == 0 ==> y % j == 0
  {
  }

  lemma MonthSteps(m: nat)
    requires 1 <= m <= 12
    ensures MonthDays(1) == 30 && MonthDays(10) == 305 && MonthDays(11) == 336 && MonthDays(12) == 367
    ensures m < 12 ==> MonthDays(m + 1) - MonthDays(m) == DaysInMonth(1, m + 2)
  {
  }

  lemma FormulaSteps(d: Date)
    requires Valid(d)
    ensures DayNumber(NextDay(d)) == DayNumber(d) + 1
  {
    hide LeapDays, IsLeap;
    if d.day == DaysInMonth(d.year, d.month) {
      if d.month == 2 {
        LeapSteps(d.year);
      }
      MonthSteps(if d.month <= 2 then d.month + 10 else d.month - 2);
    }
  }

  lemma {:induction false} FormulaCounts(d: Date)
    requires Valid(d)
    ensures DayNumber(d) == DaysSinceEpoch(d)
    decreases d.year, d.month, d.day
  {
    if d != EPOCH {
      FormulaCounts(PreviousDay(d));
      FormulaSteps(PreviousDay(d));
    }
  }

  // ---- seconds

  datatype Time = Time(date: Date, hour: nat, minute: nat, second: nat)

  predicate ValidTime(t: Time) {
    Valid(t.date) && t.hour < 24 && t.minute < 60 && t.second < 60
  }

  predicate Sooner(a: Time, b: Time) {
    Earlier(a.date, b.date) ||
    (a.date == b.date &&
     (a.hour < b.hour || (a.hour == b.hour && (a.minute < b.minute || (a.minute == b.minute && a.second < b.second)))))
  }

  /** Whole days stepped, then the seconds of the day. */
  function SecondsSinceEpoch(t: Time): nat
    requires ValidTime(t)
  {
    DaysSinceEpoch(t.date) * 86400 + t.hour * 3600 + t.minute * 60 + t.second
  }

  const FIRST := Time(EPOCH, 0, 0, 0)

  /** The clock one second later. */
  function NextSecond(t: Time): (r: Time)
    requires ValidTime(t)
    ensures ValidTime(r)
  {
    if t.second < 59 then t.(second := t.second + 1)
    else if t.minute < 59 then t.(minute := t.minute + 1, second := 0)
    else if t.hour < 23 then t.(hour := t.hour + 1, minute := 0, second := 0)
    else Time(NextDay(t.date), 0, 0, 0)
  }

  lemma NextDayCounts(d: Date)
    requires Valid(d)
    ensures NextDay(d) != EPOCH && PreviousDay(NextDay(d)) == d
    ensures DaysSinceEpoch(NextDay(d)) == DaysSinceEpoch(d) + 1
  {
  }

  /** Seconds since the epoch are the ticks of the clock from midnight on 1 January 1970. */
  lemma TickCounts(t: Time)
    requires ValidTime(t)
    ensures SecondsSinceEpoch(NextSecond(t)) == SecondsSinceEpoch(t) + 1
  {
    if t.second == 59 && t.minute == 59 && t.hour == 23 {
      NextDayCounts(t.date);
      Midnight(DaysSinceEpoch(t.date));
    }
  }

  lemma Midnight(days: nat)
    ensures days * 86400 + 23 * 3600 + 59 * 60 + 59 + 1 == (days + 1) * 86400
  {
  }

  lemma FirstSecond()
    ensures SecondsSinceEpoch(FIRST) == 0
  {
  }

  method Mktime(year0: int, month0: int, day: int, hour: int, minute: int, second: int) returns (epoch: int)
    requires year0 >= 0 && month0 >= 0 && day >= 0 && hour >= 0 && minute >= 0 && second >= 0
    requires ValidTime(Time(Date(year0, month0, day), hour, minute, second))
    ensures epoch == SecondsSinceEpoch(Time(Date(year0, month0, day), hour, minute, second))
  {
    var year, month := year0, month0 - 2;
    if month <= 0 {
      month := month + 12;
      year := year - 1;
    }
    hide LeapDays, MonthDays, DaysSinceEpoch;
    FormulaCounts(Date(year0, month0, day));
    epoch := Days(year, month, day) - Days(1969, 11, 1);
    epoch := epoch * 24 + hour;
    epoch := epoch * 60 + minute;
    epoch := epoch * 60 + second;
  }

  /** Later moments have larger numbers. */
  lemma SecondsGrow(a: Time, b: Time)
    requires ValidTime(a) && ValidTime(b) && Sooner(a, b)
    ensures SecondsSinceEpoch(a) < SecondsSinceEpoch(b)
  {
    if Earlier(a.date, b.date) {
      DaysGrow(a.date, b.date);
    }
  }
}
