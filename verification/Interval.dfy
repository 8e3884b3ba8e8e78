/** internal/proto: the text of interval values. */
module Interval {
  import opened Bytes
  import opened Decimal

  const SECONDS_PER_DAY := 86400
  const NANOS := 1_000_000_000

  datatype MonthForm = Year | Month | YearToMonth

  datatype SecondForm =
    | Day | Hour | Minute | Second
    | DayToHour | DayToMinute | DayToSecond
    | HourToMinute | HourToSecond | MinuteToSecond

  /** Go's division and remainder, which cut toward zero; the divisor is positive. */
  function Quot(a: int, b: int): int
    requires b > 0
  {
    if a < 0 then -(-a / b) else a / b
  }

  function Rem(a: int, b: int): int
    requires b > 0
  {
    if a < 0 then -(-a % b) else a % b
  }

  /** `%0<width>d`: zeros fill up to the width, the sign counts toward it. */
  function Padded(n: int, width: nat): string {
    var sign := SignText(n < 0);
    sign + PadLeft(DigitsOf(Abs(n)), if width > |sign| then width - |sign| else 0)
  }

  function TrimZerosRight(s: string): string {
    if s != [] && s[|s| - 1] == '0' then TrimZerosRight(s[..|s| - 1]) else s
  }

  function TrimZerosLeft(s: string): string {
    if s != [] && s[0] == '0' then TrimZerosLeft(s[1..]) else s
  }

  /** Seconds with the nanoseconds as a fraction, trailing zeros dropped. */
  function SecondPart(secs: int, nanos: int): string {
    if nanos == 0 then Padded(secs, 2) else Padded(secs, 2) + ("." + TrimZerosRight(Padded(nanos, 9)))
  }

  /** The plain SECOND form. */
  function SecondAlone(secPart: string): string {
    var out := TrimZerosLeft(secPart);
    if out == "" then "0" else if out[0] == '.' then "0" + out else out
  }

  function MonthsBody(form: MonthForm, m: int): string {
    match form
    case Year => IntText(Quot(m, 12))
    case Month => IntText(m)
    case YearToMonth => IntText(Quot(m, 12)) + ("-" + Padded(Rem(m, 12), 2))
  }

  /** formatYearMonthInterval. Negating the least int64 leaves it negative. */
  function FormatMonths(form: MonthForm, months: int): string {
    SignText(months < 0) + MonthsBody(form, if months < 0 then Wrap(-months, 8) else months)
  }

  /** The texts a form is put together from: totals of one unit, and what is left within the next. */
  function Assemble(form: SecondForm, days: string, allHours: string, allMinutes: string,
                    hours: string, minutes: string, sec: string): string {
    match form
    case Day => days
    case Hour => allHours
    case Minute => allMinutes
    case Second => SecondAlone(sec)
    case DayToHour => days + (" " + hours)
    case DayToMinute => days + (" " + (hours + (":" + minutes)))
    case DayToSecond => days + (" " + (hours + (":" + (minutes + (":" + sec)))))
    case HourToMinute => allHours + (":" + minutes)
    case HourToSecond => allHours + (":" + (minutes + (":" + sec)))
    case MinuteToSecond => allMinutes + (":" + sec)
  }

  /** The unsigned part of formatDaySecondInterval. */
  function SecondsBody(form: SecondForm, s: int, n: int): string {
    var rem := Rem(s, SECONDS_PER_DAY);
    var hours, minutes, secs := Quot(rem, 3600), Quot(Rem(rem, 3600), 60), Rem(Rem(rem, 3600), 60);
    Assemble(form, IntText(Quot(s, SECONDS_PER_DAY)), IntText(Quot(s, 3600)), IntText(Quot(s, 60)),
             Padded(hours, 2), Padded(minutes, 2), SecondPart(secs, n))
  }

  /** formatDaySecondInterval. */
  function FormatSeconds(form: SecondForm, seconds: int, nanos: int): string {
    var neg := seconds < 0 || nanos < 0;
    var s, n := if neg then Wrap(-seconds, 8) else seconds, if neg then Wrap(-nanos, 4) else nanos;
    SignText(neg) + SecondsBody(form, s, n)
  }
}
