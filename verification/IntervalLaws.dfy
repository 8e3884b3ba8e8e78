/** What an interval's text says, read field by field. */
module IntervalLaws {
  import opened Bytes
  import opened Decimal
  import opened Interval

  // ----- a reader of interval text

  /** The fields of a text between the separators, taken in order. */
  function Split(text: string, seps: seq<char>): (fs: Option<seq<string>>)
    ensures fs.Some? ==> |fs.value| == |seps| + 1
    decreases |seps|
  {
    if seps == [] then Some([text])
    else
      var i := IndexOf(text, seps[0]);
      if i == |text| then None
      else
        match Split(text[i + 1..], seps[1..])
        case None => None
        case Some(rest) => Some([text[..i]] + rest)
  }

  /** The numbers of fields that are all digits. */
  function Numbers(fields: seq<string>): Option<seq<int>> {
    if forall i | 0 <= i < |fields| :: AllDigits(fields[i]) then
      Some(seq(|fields|, i requires 0 <= i < |fields| => NumOf(fields[i])))
    else None
  }

  /** The numbers of the fields of a text without its sign, and the nanoseconds after a point in the last one. */
  function ReadBody(seps: seq<char>, body: string): (r: Option<(seq<int>, int)>)
  {
    match Split(body, seps)
    case None => None
    case Some(fields) =>
      var last := fields[|seps|];
      match (Numbers(fields[..|seps|] + [BeforePoint(last)]), Nanos(last))
      case (Some(ns), Some(nanos)) => Some((ns, nanos))
      case _ => None
  }

  function BeforePoint(field: string): string {
    field[..IndexOf(field, '.')]
  }

  function AfterPoint(field: string): string {
    var dot := IndexOf(field, '.');
    if dot < |field| then field[dot + 1..] else ""
  }

  /** The fraction of a field in units of the ninth decimal place. */
  function Nanos(field: string): Option<int> {
    var digits := FitFraction(AfterPoint(field), 9);
    if AllDigits(digits) then Some(NumOf(digits)) else None
  }

  /** A sign and a body. */
  function ReadSigned(seps: seq<char>, text: string): (bool, Option<(seq<int>, int)>) {
    if text != "" && text[0] == '-' then (true, ReadBody(seps, text[1..])) else (false, ReadBody(seps, text))
  }

  function Separators(form: SecondForm): seq<char> {
    match form
    case DayToHour => [' ']
    case DayToMinute => [' ', ':']
    case DayToSecond => [' ', ':', ':']
    case HourToMinute => [':']
    case HourToSecond => [':', ':']
    case MinuteToSecond => [':']
    case _ => []
  }

  /** The seconds the fields of a form add up to. */
  function Total(form: SecondForm, ns: seq<int>): int
    requires |ns| == |Separators(form)| + 1
  {
    match form
    case Day => ns[0] * 86400
    case Hour => ns[0] * 3600
    case Minute => ns[0] * 60
    case Second => ns[0]
    case DayToHour => ns[0] * 86400 + ns[1] * 3600
    case DayToMinute => ns[0] * 86400 + ns[1] * 3600 + ns[2] * 60
    case DayToSecond => ns[0] * 86400 + ns[1] * 3600 + ns[2] * 60 + ns[3]
    case HourToMinute => ns[0] * 3600 + ns[1] * 60
    case HourToSecond => ns[0] * 3600 + ns[1] * 60 + ns[2]
    case MinuteToSecond => ns[0] * 60 + ns[1]
  }

  /** Seconds and nanoseconds of the text of a DAY/HOUR/MINUTE/SECOND interval. */
  function ReadSeconds(form: SecondForm, text: string): Option<(int, int)> {
    match ReadSigned(Separators(form), text)
    case (neg, Some((ns, nanos))) =>
      if |ns| != |Separators(form)| + 1 then None
      else if neg then Some((-Total(form, ns), -nanos)) else Some((Total(form, ns), nanos))
    case (_, None) => None
  }

  function MonthSeparators(form: MonthForm): seq<char> {
    if form == YearToMonth then ['-'] else []
  }

  /** The months the fields of a form add up to. */
  function MonthTotal(form: MonthForm, ns: seq<int>): int
    requires |ns| == |MonthSeparators(form)| + 1
  {
    match form
    case Year => ns[0] * 12
    case Month => ns[0]
    case YearToMonth => ns[0] * 12 + ns[1]
  }

  /** Months of the text of a YEAR/MONTH interval. */
  function ReadMonths(form: MonthForm, text: string): Option<int> {
    match ReadSigned(MonthSeparators(form), text)
    case (neg, Some((ns, _))) =>
      if |ns| != |MonthSeparators(form)| + 1 then None
      else if neg then Some(-MonthTotal(form, ns)) else Some(MonthTotal(form, ns))
    case (_, None) => None
  }

  // ----- what each form keeps

  /** The unit of the last field. */
  function Unit(form: SecondForm): (u: int)
    ensures u > 0
  {
    match form
    case Day => 86400
    case Hour => 3600
    case DayToHour => 3600
    case Minute => 60
    case DayToMinute => 60
    case HourToMinute => 60
    case _ => 1
  }

  predicate ShowsNanos(form: SecondForm) {
    Unit(form) == 1
  }

  /** Toward zero to whole units; the plain SECOND form keeps the seconds within a minute only. */
  function Shown(form: SecondForm, seconds: int): int {
    if form == Second then Rem(seconds, 60) else Quot(seconds, Unit(form)) * Unit(form)
  }

  // ----- texts of numbers

  lemma NumOfPadLeft(s: string, n: nat)
    requires AllDigits(s)
    ensures AllDigits(PadLeft(s, n)) && NumOf(PadLeft(s, n)) == NumOf(s)
  {
    if |s| < n {
      NumOfConcat(Zeros(n - |s|), s);
      NumOfZeros(n - |s|);
    }
  }

  /** A natural number printed plainly or padded. */
  lemma NaturalText(n: nat, width: nat)
    ensures IntText(n) == DigitsOf(n) && AllDigits(IntText(n)) && NumOf(IntText(n)) == n
    ensures Padded(n, width) == PadLeft(DigitsOf(n), width)
    ensures AllDigits(Padded(n, width)) && NumOf(Padded(n, width)) == n
  {
    hide DigitsOf, PadLeft;
    assert "" + DigitsOf(n) == DigitsOf(n);
    assert "" + PadLeft(DigitsOf(n), width) == PadLeft(DigitsOf(n), width);
    NumOfDigits(n);
    NumOfPadLeft(DigitsOf(n), width);
  }

  lemma {:induction false} DigitsLength(n: nat, k: nat)
    requires k >= 1 && n < Pow10(k)
    ensures |DigitsOf(n)| <= k
    decreases k
  {
    assert Pow10(1) == 10;
    if n >= 10 {
      DigitsLength(n / 10, k - 1);
    }
  }

  /** Dropped trailing zeros come back when the fraction is filled up again. */
  lemma {:induction false} TrimZerosBack(t: string, width: nat)
    requires |t| <= width
    ensures FitFraction(TrimZerosRight(t), width) == FitFraction(t, width)
    ensures |TrimZerosRight(t)| <= |t|
  {
    if t != "" && t[|t| - 1] == '0' {
      var init := t[..|t| - 1];
      TrimZerosBack(init, width);
      assert t == init + "0";
      assert init + Zeros(width - |init|) == t + Zeros(width - |t|);
    }
  }

  lemma {:induction false} TrimZerosLeftVal(d: string, rest: string)
    requires AllDigits(d) && (rest == "" || rest[0] != '0')
    ensures TrimZerosLeft(d + rest) == TrimZerosLeft(d) + rest
    ensures AllDigits(TrimZerosLeft(d)) && NumOf(TrimZerosLeft(d)) == NumOf(d)
  {
    hide NumOf;
    if d == "" {
      assert d + rest == rest;
    } else if d[0] == '0' {
      assert (d + rest)[1..] == d[1..] + rest;
      TrimZerosLeftVal(d[1..], rest);
      assert d == "0" + d[1..];
      NumOfConcat("0", d[1..]);
      NumOfZeros(1);
      assert Zeros(1) == "0";
    } else {
      assert (d + rest)[0] == d[0];
    }
  }

  /** The fraction of a seconds field: empty, or a point and digits that read as the nanoseconds. */
  function Fraction(nanos: int): string {
    if nanos == 0 then "" else "." + TrimZerosRight(Padded(nanos, 9))
  }

  /** A seconds field with digits `d` in front of the fraction. */
  lemma SecondsField(d: string, nanos: int)
    requires AllDigits(d) && 0 <= nanos < NANOS
    ensures BeforePoint(d + Fraction(nanos)) == d && Nanos(d + Fraction(nanos)) == Some(nanos)
  {
    hide NumOf, IndexOf, Padded, TrimZerosRight, FitFraction, Zeros;
    var last := d + Fraction(nanos);
    IndexOfFirst(d, '.', Fraction(nanos));
    FractionDigits(nanos);
    if nanos == 0 {
      assert IndexOf("", '.') == 0;
      assert last[..|d|] == d;
      assert AfterPoint(last) == "";
      NoNanos();
    } else {
      assert Fraction(nanos)[0] == '.';
      assert IndexOf(Fraction(nanos), '.') == 0;
      assert last[..|d|] == d && last[|d| + 1..] == TrimZerosRight(Padded(nanos, 9));
    }
  }

  lemma NoNanos()
    ensures AllDigits(FitFraction("", 9)) && NumOf(FitFraction("", 9)) == 0
  {
    hide NumOf, Zeros;
    assert "" + Zeros(9) == Zeros(9);
    NumOfZeros(9);
  }

  lemma FractionDigits(nanos: int)
    requires 0 <= nanos < NANOS
    ensures var f := FitFraction(TrimZerosRight(Padded(nanos, 9)), 9);
            AllDigits(f) && NumOf(f) == nanos
  {
    hide NumOf, TrimZerosRight, PadLeft, DigitsOf, FitFraction;
    NaturalText(nanos, 9);
    assert Pow10(9) == 1_000_000_000 by { Pow10Nine(); }
    DigitsLength(nanos, 9);
    var p := Padded(nanos, 9);
    assert |p| == 9 by { PadWidth(DigitsOf(nanos), 9); }
    TrimZerosBack(p, 9);
    assert FitFraction(p, 9) == p by { FitWhole(p); }
  }

  lemma PadWidth(s: string, n: nat)
    requires |s| <= n
    ensures |PadLeft(s, n)| == n
  {
  }

  lemma Pow10Nine()
    ensures Pow10(9) == 1_000_000_000
  {
  }

  // ----- fields and separators

  function JoinWith(fields: seq<string>, seps: seq<char>): string
    requires |fields| == |seps| + 1
    decreases |seps|
  {
    if seps == [] then fields[0] else fields[0] + ([seps[0]] + JoinWith(fields[1..], seps[1..]))
  }

  lemma SplitStep(f: string, rest: string, seps: seq<char>)
    requires seps != [] && AllDigits(f) && !IsDigit(seps[0])
    ensures Split(f + ([seps[0]] + rest), seps)
         == match Split(rest, seps[1..]) case None => None case Some(fs) => Some([f] + fs)
  {
    hide IndexOf;
    var text := f + ([seps[0]] + rest);
    assert IndexOf(text, seps[0]) == |f| by { DigitsBefore(f, seps[0], rest); }
    assert text[..|f|] == f && text[|f| + 1..] == rest;
  }

  lemma DigitsBefore(f: string, sep: char, rest: string)
    requires AllDigits(f) && !IsDigit(sep)
    ensures IndexOf(f + ([sep] + rest), sep) == |f|
  {
    assert forall i | 0 <= i < |f| :: f[i] != sep;
    IndexOfFirst(f, sep, [sep] + rest);
    assert ([sep] + rest)[0] == sep;
  }

  lemma {:induction false} SplitJoin(fields: seq<string>, seps: seq<char>)
    requires |fields| == |seps| + 1
    requires forall i | 0 <= i < |seps| :: AllDigits(fields[i]) && !IsDigit(seps[i])
    ensures Split(JoinWith(fields, seps), seps) == Some(fields)
    decreases |seps|
  {
    hide AllDigits, IsDigit, Split;
    if seps == [] {
      SplitNone(fields[0]);
      assert fields == [fields[0]];
    } else {
      SplitStep(fields[0], JoinWith(fields[1..], seps[1..]), seps);
      SplitJoin(fields[1..], seps[1..]);
      assert fields == [fields[0]] + fields[1..];
    }
  }

  lemma SplitNone(text: string)
    ensures Split(text, []) == Some([text])
  {
  }

  /** A text of digits that stands for `n`. */
  predicate Reads(s: string, n: int) {
    s != "" && AllDigits(s) && NumOf(s) == n
  }

  /** Reading fields of digits, the last one followed by a fraction. */
  lemma ReadFields(fields: seq<string>, ns: seq<int>, seps: seq<char>, nanos: int)
    requires |fields| == |ns| == |seps| + 1 && 0 <= nanos < NANOS
    requires forall i | 0 <= i < |fields| :: Reads(fields[i], ns[i])
    requires forall i | 0 <= i < |seps| :: !IsDigit(seps[i])
    ensures var shown := fields[..|seps|] + [fields[|seps|] + Fraction(nanos)];
            ReadBody(seps, JoinWith(shown, seps)) == Some((ns, nanos))
  {
    hide Fraction, BeforePoint, Nanos, Numbers, Split, JoinWith, IsDigit;
    var shown := fields[..|seps|] + [fields[|seps|] + Fraction(nanos)];
    SplitJoin(shown, seps);
    SecondsField(fields[|seps|], nanos);
    assert shown[..|seps|] + [fields[|seps|]] == fields;
    assert Numbers(fields) == Some(ns) by { NumbersAre(fields, ns); }
  }

  lemma NumbersAre(fields: seq<string>, ns: seq<int>)
    requires |fields| == |ns| && forall i | 0 <= i < |fields| :: Reads(fields[i], ns[i])
    ensures Numbers(fields) == Some(ns)
  {
    hide NumOf;
    assert seq(|fields|, i requires 0 <= i < |fields| => NumOf(fields[i])) == ns;
  }

  // ----- a few fields joined

  lemma Joined2(a: string, b: string, s: char)
    ensures JoinWith([a, b], [s]) == a + ([s] + b)
  {
  }

  lemma Joined3(a: string, b: string, c: string, s: char, t: char)
    ensures JoinWith([a, b, c], [s, t]) == a + ([s] + (b + ([t] + c)))
  {
    Joined2(b, c, t);
    assert [a, b, c][1..] == [b, c] && [s, t][1..] == [t];
  }

  lemma Joined4(a: string, b: string, c: string, d: string, s: char, t: char, u: char)
    ensures JoinWith([a, b, c, d], [s, t, u]) == a + ([s] + (b + ([t] + (c + ([u] + d)))))
  {
    Joined3(b, c, d, t, u);
    assert [a, b, c, d][1..] == [b, c, d] && [s, t, u][1..] == [t, u];
  }

  /** The fields of a form in order, without the fraction: totals of one unit, and what is left within the next. */
  function FieldsOf<T>(form: SecondForm, days: T, allHours: T, allMinutes: T, hh: T, mm: T, ss: T, d: T): (fs: seq<T>)
    ensures |fs| == |Separators(form)| + 1
  {
    match form
    case Day => [days]
    case Hour => [allHours]
    case Minute => [allMinutes]
    case Second => [d]
    case DayToHour => [days, hh]
    case DayToMinute => [days, hh, mm]
    case DayToSecond => [days, hh, mm, ss]
    case HourToMinute => [allHours, mm]
    case HourToSecond => [allHours, mm, ss]
    case MinuteToSecond => [allMinutes, ss]
  }

  /** Every form is its fields joined, the last one followed by `f`. */
  lemma AssembleJoins(form: SecondForm, days: string, allHours: string, allMinutes: string, hh: string, mm: string, ss: string, d: string,
                      f: string, sec: string)
    requires sec == ss + f && SecondAlone(sec) == d + f
    requires !ShowsNanos(form) ==> f == ""
    ensures var fs := FieldsOf(form, days, allHours, allMinutes, hh, mm, ss, d);
            var k := |Separators(form)|;
            Assemble(form, days, allHours, allMinutes, hh, mm, sec) == JoinWith(fs[..k] + [fs[k] + f], Separators(form))
  {
    hide SecondAlone, JoinWith;
    match form {
      case Day => OneJoined(days, f);
      case Hour => OneJoined(allHours, f);
      case Minute => OneJoined(allMinutes, f);
      case Second => OneJoined(d, f);
      case DayToHour => TwoJoined(days, hh, ' ', f);
      case HourToMinute => TwoJoined(allHours, mm, ':', f);
      case MinuteToSecond => TwoJoined(allMinutes, ss, ':', f);
      case DayToMinute => ThreeJoined(days, hh, mm, ' ', ':', f);
      case HourToSecond => ThreeJoined(allHours, mm, ss, ':', ':', f);
      case DayToSecond => FourJoined(days, hh, mm, ss, ' ', ':', ':', f);
    }
  }

  lemma OneJoined(a: string, f: string)
    ensures JoinWith([a][..0] + [a + f], []) == a + f
    ensures f == "" ==> a + f == a
  {
  }

  lemma TwoJoined(a: string, b: string, s: char, f: string)
    ensures JoinWith([a, b][..1] + [b + f], [s]) == a + ([s] + (b + f))
    ensures f == "" ==> b + f == b
  {
  }

  lemma ThreeJoined(a: string, b: string, c: string, s: char, t: char, f: string)
    ensures JoinWith([a, b, c][..2] + [c + f], [s, t]) == a + ([s] + (b + ([t] + (c + f))))
    ensures f == "" ==> c + f == c
  {
    assert [a, b, c][..2] + [c + f] == [a, b, c + f];
    Joined3(a, b, c + f, s, t);
  }

  lemma FourJoined(a: string, b: string, c: string, d: string, s: char, t: char, u: char, f: string)
    ensures JoinWith([a, b, c, d][..3] + [d + f], [s, t, u]) == a + ([s] + (b + ([t] + (c + ([u] + (d + f))))))
  {
    assert [a, b, c, d][..3] + [d + f] == [a, b, c, d + f];
    Joined4(a, b, c, d + f, s, t, u);
  }

  // ----- signs and numbers

  lemma NegateFits(n: int, k: nat)
    requires -Pow256(k) < 2 * n < Pow256(k) && n <= 0
    ensures Wrap(-n, k) == -n
  {
    WrapFits(-n, k);
  }

  /** A sign in front of fields that start with a digit. */
  lemma SignedText(neg: bool, fields: seq<string>, seps: seq<char>)
    requires |fields| == |seps| + 1 && fields[0] != "" && IsDigit(fields[0][0])
    ensures ReadSigned(seps, SignText(neg) + JoinWith(fields, seps)) == (neg, ReadBody(seps, JoinWith(fields, seps)))
  {
    hide ReadBody;
    var body := JoinWith(fields, seps);
    assert body != "" && body[0] == fields[0][0];
    var text := SignText(neg) + body;
    if neg {
      assert text[0] == '-' && text[1..] == body;
    } else {
      assert text == body;
    }
  }

  lemma NaturalReads(n: nat)
    ensures Reads(IntText(n), n) && Reads(Padded(n, 2), n)
  {
    hide DigitsOf, NumOf, Padded, IntText;
    NaturalText(n, 2);
    assert |Padded(n, 2)| >= 2 && |IntText(n)| >= 1;
  }

  lemma FirstDigit(s: string, f: string, n: int)
    requires Reads(s, n)
    ensures s + f != "" && IsDigit((s + f)[0])
  {
  }

  /** A sign, fields of digits, and a fraction after the last one. */
  lemma ReadText(neg: bool, fields: seq<string>, ns: seq<int>, seps: seq<char>, nanos: int)
    requires |fields| == |ns| == |seps| + 1 && 0 <= nanos < NANOS
    requires forall i | 0 <= i < |fields| :: Reads(fields[i], ns[i])
    requires forall i | 0 <= i < |seps| :: !IsDigit(seps[i])
    ensures var shown := fields[..|seps|] + [fields[|seps|] + Fraction(nanos)];
            ReadSigned(seps, SignText(neg) + JoinWith(shown, seps)) == (neg, Some((ns, nanos)))
  {
    hide Fraction, JoinWith, Reads, IsDigit, ReadBody, ReadSigned;
    var shown := fields[..|seps|] + [fields[|seps|] + Fraction(nanos)];
    ReadFields(fields, ns, seps, nanos);
    FirstDigit(fields[0], if |seps| == 0 then Fraction(nanos) else "", ns[0]);
    assert fields[0] + "" == fields[0];
    SignedText(neg, shown, seps);
  }

  // ----- months

  /** YEAR TO MONTH and MONTH text recover the count, YEAR text the whole years, toward zero. */
  lemma MonthsBack(form: MonthForm, months: int)
    requires LEAST < months < -LEAST
    ensures ReadMonths(form, FormatMonths(form, months)) == Some(if form == Year then Quot(months, 12) * 12 else months)
  {
    hide ReadSigned, FormatMonths, SignText, MonthTotal, Pow256;
    MonthsFormat(form, months);
    MonthNumbersBack(form, months);
    MonthFields(form, months < 0, Abs(months));
  }

  /** The numbers of the fields of a form. */
  function MonthNumbers(form: MonthForm, m: nat): (ns: seq<int>)
    ensures |ns| == |MonthSeparators(form)| + 1
  {
    match form
    case Year => [m / 12]
    case Month => [m]
    case YearToMonth => [m / 12, m % 12]
  }

  function MonthText(form: MonthForm, m: nat): string {
    match form
    case Year => IntText(m / 12)
    case Month => IntText(m)
    case YearToMonth => IntText(m / 12) + (['-'] + Padded(m % 12, 2))
  }

  lemma MonthFields(form: MonthForm, neg: bool, m: nat)
    ensures ReadSigned(MonthSeparators(form), SignText(neg) + MonthText(form, m)) == (neg, Some((MonthNumbers(form, m), 0)))
  {
    hide ReadSigned, SignText, IntText, Padded;
    match form {
      case Year => OneNumber(neg, m / 12);
      case Month => OneNumber(neg, m);
      case YearToMonth => TwoNumbers(neg, m / 12, m % 12);
    }
  }

  lemma MonthNumbersBack(form: MonthForm, months: int)
    ensures var total := MonthTotal(form, MonthNumbers(form, Abs(months)));
            (if months < 0 then -total else total) == if form == Year then Quot(months, 12) * 12 else months
  {
  }

  lemma OneNumber(neg: bool, n: nat)
    ensures ReadSigned([], SignText(neg) + IntText(n)) == (neg, Some(([n], 0)))
  {
    hide Reads, ReadSigned, IntText, Fraction, JoinWith;
    NaturalReads(n);
    NoFraction();
    ReadText(neg, [IntText(n)], [n], [], 0);
    OneJoined(IntText(n), "");
  }

  lemma TwoNumbers(neg: bool, y: nat, mm: nat)
    ensures ReadSigned(['-'], SignText(neg) + (IntText(y) + (['-'] + Padded(mm, 2)))) == (neg, Some(([y, mm], 0)))
  {
    hide ReadSigned, IntText, Padded, SignText;
    NaturalReads(y);
    NaturalReads(mm);
    TwoFields(neg, IntText(y), Padded(mm, 2), y, mm, '-');
  }

  lemma TwoFields(neg: bool, a: string, b: string, y: int, m: int, sep: char)
    requires Reads(a, y) && Reads(b, m) && !IsDigit(sep)
    ensures ReadSigned([sep], SignText(neg) + (a + ([sep] + b))) == (neg, Some(([y, m], 0)))
  {
    hide Reads, ReadSigned, Fraction, JoinWith, IsDigit, SignText;
    NoFraction();
    ReadText(neg, [a, b], [y, m], [sep], 0);
    TwoJoined(a, b, sep, "");
  }

  lemma NoFraction()
    ensures Fraction(0) == ""
  {
  }

  lemma MonthsFormat(form: MonthForm, months: int)
    requires LEAST < months < -LEAST
    ensures FormatMonths(form, months) == SignText(months < 0) + MonthText(form, Abs(months))
  {
    hide IntText, Padded, Wrap, SignText;
    PowValues();
    if months < 0 {
      NegateFits(months, 8);
    }
    assert ['-'] == "-";
  }

  // ----- seconds

  /** The SECOND form without leading zeros, of at least one digit. */
  lemma SecondAloneText(secs: nat, nanos: int) returns (d: string)
    requires 0 <= nanos < NANOS
    ensures Reads(d, secs)
    ensures SecondAlone(SecondPart(secs, nanos)) == d + Fraction(nanos)
    ensures SecondPart(secs, nanos) == Padded(secs, 2) + Fraction(nanos)
  {
    hide NumOf, DigitsOf, TrimZerosRight;
    NaturalReads(secs);
    var p, f := Padded(secs, 2), Fraction(nanos);
    assert SecondPart(secs, nanos) == p + f by { assert p + "" == p; }
    TrimZerosLeftVal(p, f);
    d := TrimZerosLeft(p);
    if d == "" {
      assert "" + f == f;
      d := "0";
      assert NumOf("0") == 0 by { NumOfZeros(1); assert Zeros(1) == "0"; }
      assert NumOf("") == 0 by { NumOfZeros(0); assert Zeros(0) == ""; }
      assert "0" + "" == "0";
    } else {
      assert (d + f)[0] == d[0];
    }
  }

  /** The numbers of the fields of a form. */
  function FieldNumbers(form: SecondForm, s: nat): (ns: seq<int>)
    ensures |ns| == |Separators(form)| + 1
  {
    FieldsOf(form, s / 86400, s / 3600, s / 60, s % 86400 / 3600, s % 3600 / 60, s % 60, s % 60)
  }

  lemma Units(s: nat)
    ensures s / 86400 * 86400 + s % 86400 / 3600 * 3600 == s / 3600 * 3600
    ensures s / 3600 * 3600 + s % 3600 / 60 * 60 == s / 60 * 60
    ensures s / 60 * 60 + s % 60 == s
  {
    var q, r := s / 86400, s % 86400;
    var h, m := r / 3600, r % 3600;
    DivModUnique(s, 3600, 24 * q + h, m);
    DivModUnique(s, 60, 60 * (24 * q + h) + m / 60, m % 60);
  }

  lemma TotalShown(form: SecondForm, s: nat)
    ensures Total(form, FieldNumbers(form, s)) == Shown(form, s)
  {
    Units(s);
    TotalOf(form, s / 86400, s / 3600, s / 60, s % 86400 / 3600, s % 3600 / 60, s % 60, s);
  }

  lemma TotalOf(form: SecondForm, days: int, allHours: int, allMinutes: int, hh: int, mm: int, ss: int, s: int)
    requires days * 86400 + hh * 3600 == allHours * 3600 && allHours * 3600 + mm * 60 == allMinutes * 60 && allMinutes * 60 + ss == s
    ensures Total(form, FieldsOf(form, days, allHours, allMinutes, hh, mm, ss, ss))
         == if form == Second then ss
            else match Unit(form) case 86400 => days * 86400 case 3600 => allHours * 3600 case 60 => allMinutes * 60 case _ => s
  {
  }

  lemma FieldsRead(form: SecondForm, days: string, allHours: string, allMinutes: string, hh: string, mm: string, ss: string, d: string,
                   nDays: int, nHours: int, nMinutes: int, nhh: int, nmm: int, nss: int)
    requires Reads(days, nDays) && Reads(allHours, nHours) && Reads(allMinutes, nMinutes) && Reads(hh, nhh) && Reads(mm, nmm) && Reads(ss, nss) && Reads(d, nss)
    ensures var fs, ns := FieldsOf(form, days, allHours, allMinutes, hh, mm, ss, d), FieldsOf(form, nDays, nHours, nMinutes, nhh, nmm, nss, nss);
            forall i | 0 <= i < |fs| :: Reads(fs[i], ns[i])
  {
  }

  /** The unsigned body is the join of fields that read as those numbers. */
  lemma BodyFields(form: SecondForm, s: nat, n: nat) returns (fs: seq<string>)
    requires n < NANOS
    ensures |fs| == |Separators(form)| + 1
    ensures forall i | 0 <= i < |fs| :: Reads(fs[i], FieldNumbers(form, s)[i])
    ensures var k := |Separators(form)|;
            SecondsBody(form, s, n) == JoinWith(fs[..k] + [fs[k] + Fraction(if ShowsNanos(form) then n else 0)], Separators(form))
  {
    BodyParts(form, s, n);
    hide IntText, Padded, SecondPart, SecondAlone, Reads, JoinWith, Fraction, SecondsBody, Separators, FieldsOf, Assemble, Unit;
    var hours, minutes, secs := s % 86400 / 3600, s % 3600 / 60, s % 60;
    NaturalReads(s / 86400);
    NaturalReads(s / 3600);
    NaturalReads(s / 60);
    NaturalReads(hours);
    NaturalReads(minutes);
    NaturalReads(secs);
    var days, allHours, allMinutes := IntText(s / 86400), IntText(s / 3600), IntText(s / 60);
    var hh, mm, ss := Padded(hours, 2), Padded(minutes, 2), Padded(secs, 2);
    var shown := if ShowsNanos(form) then n else 0;
    var d := SecondAloneText(secs, shown);
    fs := FieldsOf(form, days, allHours, allMinutes, hh, mm, ss, d);
    FieldsRead(form, days, allHours, allMinutes, hh, mm, ss, d, s / 86400, s / 3600, s / 60, hours, minutes, secs);
    NoFraction();
    AssembleJoins(form, days, allHours, allMinutes, hh, mm, ss, d, Fraction(shown), SecondPart(secs, shown));
    if !ShowsNanos(form) {
      SecondUnused(form, days, allHours, allMinutes, hh, mm, SecondPart(secs, n), SecondPart(secs, 0));
    }
  }

  lemma SecondUnused(form: SecondForm, days: string, allHours: string, allMinutes: string, hh: string, mm: string, a: string, b: string)
    requires !ShowsNanos(form)
    ensures Assemble(form, days, allHours, allMinutes, hh, mm, a) == Assemble(form, days, allHours, allMinutes, hh, mm, b)
  {
  }

  lemma BodyParts(form: SecondForm, s: nat, n: nat)
    ensures SecondsBody(form, s, n)
         == Assemble(form, IntText(s / 86400), IntText(s / 3600), IntText(s / 60),
                     Padded(s % 86400 / 3600, 2), Padded(s % 3600 / 60, 2), SecondPart(s % 60, n))
  {
    hide IntText, Padded, SecondPart, Assemble;
    Remainders(s);
  }

  lemma Remainders(s: nat)
    ensures Rem(s, 86400) == s % 86400 && Rem(Rem(s, 86400), 3600) == s % 3600 && Rem(Rem(Rem(s, 86400), 3600), 60) == s % 60
    ensures Quot(Rem(s, 86400), 3600) == s % 86400 / 3600 && Quot(Rem(Rem(s, 86400), 3600), 60) == s % 3600 / 60
  {
    var q, r := s / 86400, s % 86400;
    var h, m := r / 3600, r % 3600;
    DivModUnique(s, 3600, 24 * q + h, m);
    DivModUnique(s, 60, 60 * (24 * q + h) + m / 60, m % 60);
  }

  /**
   * Seconds and nanoseconds of one sign, read back from the text: exactly both in the forms that
   * end in seconds, except that the plain SECOND form has lost the minutes; otherwise the value
   * cut toward zero at the last field.
   */
  lemma SecondsBack(form: SecondForm, seconds: int, nanos: int)
    requires LEAST < seconds < -LEAST && -NANOS < nanos < NANOS
    requires (seconds >= 0 && nanos >= 0) || (seconds <= 0 && nanos <= 0)
    ensures ReadSeconds(form, FormatSeconds(form, seconds, nanos))
         == Some((Shown(form, seconds), if ShowsNanos(form) then nanos else 0))
  {
    hide FormatSeconds, SecondsBody, ReadSigned, JoinWith, Reads, IsDigit, Fraction, Separators, FieldNumbers, Total, Shown, Unit, SignText;
    var s, n := Abs(seconds), Abs(nanos);
    FormatSign(form, seconds, nanos);
    ShownSign(form, seconds);
    TotalShown(form, s);
    SecondFields(form, seconds < 0 || nanos < 0, s, n);
  }

  lemma SecondFields(form: SecondForm, neg: bool, s: nat, n: nat)
    requires n < NANOS
    ensures ReadSigned(Separators(form), SignText(neg) + SecondsBody(form, s, n))
         == (neg, Some((FieldNumbers(form, s), if ShowsNanos(form) then n else 0)))
  {
    SepsNotDigits(form);
    hide SecondsBody, ReadSigned, JoinWith, Reads, IsDigit, Fraction, Separators, FieldNumbers, Unit, SignText;
    var fs := BodyFields(form, s, n);
    ReadText(neg, fs, FieldNumbers(form, s), Separators(form), if ShowsNanos(form) then n else 0);
  }

  lemma SepsNotDigits(form: SecondForm)
    ensures forall i | 0 <= i < |Separators(form)| :: !IsDigit(Separators(form)[i])
  {
  }

  lemma FormatSign(form: SecondForm, seconds: int, nanos: int)
    requires LEAST < seconds < -LEAST && -NANOS < nanos < NANOS
    requires (seconds >= 0 && nanos >= 0) || (seconds <= 0 && nanos <= 0)
    ensures FormatSeconds(form, seconds, nanos)
         == SignText(seconds < 0 || nanos < 0) + SecondsBody(form, Abs(seconds), Abs(nanos))
  {
    hide SecondsBody, Wrap;
    PowValues();
    if seconds < 0 || nanos < 0 {
      NegateFits(seconds, 8);
      NegateFits(nanos, 4);
    }
  }

  lemma ShownSign(form: SecondForm, seconds: int)
    ensures Shown(form, seconds) == if seconds < 0 then -Shown(form, -seconds) else Shown(form, seconds)
    ensures Shown(form, 0) == 0
  {
  }

  // ----- the least int64

  const LEAST := -0x8000_0000_0000_0000

  predicate Minus(s: string) {
    s != "" && s[0] == '-'
  }

  lemma HasMinus(s: string, i: nat)
    requires i < |s| && s[i] == '-'
    ensures !AllDigits(s)
  {
  }

  lemma BadField(fields: seq<string>, i: nat)
    requires i < |fields| && !AllDigits(fields[i])
    ensures Numbers(fields) == None
  {
  }

  /** A second minus sign makes the first field no number. */
  lemma SignTwice(seps: seq<char>, body: string)
    requires Minus(body) && '-' !in seps
    ensures ReadBody(seps, body) == None
  {
    hide Nanos, Numbers, AllDigits;
    if Split(body, seps).Some? {
      var fields := Split(body, seps).value;
      MinusFirst(seps, body);
      var shown := fields[..|seps|] + [BeforePoint(fields[|seps|])];
      assert Minus(shown[0]);
      HasMinus(shown[0], 0);
      BadField(shown, 0);
    }
  }

  lemma MinusFirst(seps: seq<char>, body: string)
    requires Minus(body) && '-' !in seps && Split(body, seps).Some?
    ensures Minus(Split(body, seps).value[0])
  {
  }

  lemma NegativeText(n: int, width: nat)
    requires n < 0
    ensures Minus(IntText(n)) && AllDigits(IntText(n)[1..]) && Minus(Padded(n, width))
  {
  }

  /** Negating the least int64 does nothing, so its text cannot be read. */
  lemma LeastSeconds(form: SecondForm, nanos: int)
    requires -NANOS < nanos <= 0
    ensures ReadSeconds(form, FormatSeconds(form, LEAST, nanos)) == None
  {
    LeastFormat(form, nanos);
    LeastStarts(form, -nanos);
    NoMinusBetween(form);
    hide ReadBody, Minus, FormatSeconds, SecondsBody, Separators, Total, ReadSigned, Split;
    var body := SecondsBody(form, LEAST, -nanos);
    SignTwice(Separators(form), body);
    AfterSign(Separators(form), body);
  }

  lemma NoMinusBetween(form: SecondForm)
    ensures '-' !in Separators(form)
  {
  }

  lemma AfterSign(seps: seq<char>, body: string)
    ensures ReadSigned(seps, "-" + body) == (true, ReadBody(seps, body))
  {
  }

  lemma LeastFormat(form: SecondForm, nanos: int)
    requires -NANOS < nanos <= 0
    ensures FormatSeconds(form, LEAST, nanos) == "-" + SecondsBody(form, LEAST, -nanos)
  {
    hide SecondsBody, Wrap;
    WrapLeast();
    PowValues();
    NegateFits(nanos, 4);
  }

  lemma WrapLeast()
    ensures Wrap(-LEAST, 8) == LEAST
  {
  }

  /** Every form of the least int64 starts with a minus sign of its own. */
  lemma LeastStarts(form: SecondForm, n: int)
    ensures Minus(SecondsBody(form, LEAST, n))
  {
    LeastParts();
    hide IntText, Padded, SecondPart, Quot, Rem;
    NegativeText(Quot(LEAST, 86400), 0);
    NegativeText(Quot(LEAST, 3600), 0);
    NegativeText(Quot(LEAST, 60), 0);
    LeastSecond(n);
  }

  lemma LeastSecond(n: int)
    ensures Minus(SecondAlone(SecondPart(-8, n)))
  {
  }

  lemma LeastParts()
    ensures Quot(LEAST, 86400) < 0 && Quot(LEAST, 3600) < 0 && Quot(LEAST, 60) < 0 && Quot(LEAST, 12) < 0
    ensures Rem(Rem(Rem(LEAST, 86400), 3600), 60) == -8 && Rem(LEAST, 12) == -8
  {
  }

  lemma LeastMonths(form: MonthForm)
    ensures ReadMonths(form, FormatMonths(form, LEAST)) == None
  {
    LeastMonthsFormat(form);
    LeastMonthsBody(form);
    hide ReadBody, FormatMonths, MonthsBody, MonthTotal, ReadSigned, MonthSeparators;
    AfterSign(MonthSeparators(form), MonthsBody(form, LEAST));
  }

  lemma LeastMonthsFormat(form: MonthForm)
    ensures FormatMonths(form, LEAST) == "-" + MonthsBody(form, LEAST)
  {
    hide MonthsBody, Wrap;
    WrapLeast();
  }

  lemma LeastMonthsBody(form: MonthForm)
    ensures ReadBody(MonthSeparators(form), MonthsBody(form, LEAST)) == None
  {
    LeastParts();
    hide IntText, Padded, ReadBody, Minus, Quot, Rem;
    NegativeText(Quot(LEAST, 12), 0);
    NegativeText(LEAST, 0);
    match form {
      case Year => SignTwice([], IntText(Quot(LEAST, 12)));
      case Month => SignTwice([], IntText(LEAST));
      case YearToMonth => MinusWithin(IntText(Quot(LEAST, 12)), Padded(-8, 2));
    }
  }

  /** Split at its first sign, the text leaves a month field with a minus sign within it. */
  lemma MinusWithin(y: string, m: string)
    requires Minus(y) && AllDigits(y[1..])
    ensures ReadBody(['-'], y + ("-" + m)) == None
  {
    hide Nanos, Numbers;
    var body := y + ("-" + m);
    var rest := body[1..];
    assert IndexOf(body, '-') == 0;
    assert rest[|y| - 1] == '-';
    assert Split(rest, []) == Some([rest]);
    var fields := [body[..0], rest];
    assert Split(body, ['-']) == Some(fields) by {
      assert ['-'][1..] == [] && body[0 + 1..] == rest;
      assert Split(body[0 + 1..], ['-'][1..]) == Some([rest]);
      assert [body[..0]] + [rest] == fields;
    }
    var shown := [body[..0], BeforePoint(rest)];
    assert fields[..1] + [BeforePoint(rest)] == shown;
    assert forall i | 0 <= i < |y| - 1 :: rest[i] == y[1..][i];
    assert |y| <= IndexOf(rest, '.');
    HasMinus(shown[1], |y| - 1);
    BadField(shown, 1);
  }

  // ----- exactly when

  /** For every int64 count of months: the text reads back just when the count is not the least int64. */
  lemma MonthsBackIff(form: MonthForm, months: int)
    requires LEAST <= months < -LEAST
    ensures months != LEAST
       <==> ReadMonths(form, FormatMonths(form, months)) == Some(if form == Year then Quot(months, 12) * 12 else months)
  {
    hide ReadMonths, FormatMonths;
    if months == LEAST {
      LeastMonths(form);
    } else {
      MonthsBack(form, months);
    }
  }

  /** The same for seconds and nanoseconds of one sign. */
  lemma SecondsBackIff(form: SecondForm, seconds: int, nanos: int)
    requires LEAST <= seconds < -LEAST && -NANOS < nanos < NANOS
    requires (seconds >= 0 && nanos >= 0) || (seconds <= 0 && nanos <= 0)
    ensures seconds != LEAST
       <==> ReadSeconds(form, FormatSeconds(form, seconds, nanos))
            == Some((Shown(form, seconds), if ShowsNanos(form) then nanos else 0))
  {
    hide ReadSeconds, FormatSeconds;
    if seconds == LEAST {
      LeastSeconds(form, nanos);
    } else {
      SecondsBack(form, seconds, nanos);
    }
  }

  /** The plain SECOND form is exact just for values within a minute. */
  lemma SecondFormIff(seconds: int, nanos: int)
    requires LEAST <= seconds < -LEAST && -NANOS < nanos < NANOS
    requires (seconds >= 0 && nanos >= 0) || (seconds <= 0 && nanos <= 0)
    ensures ReadSeconds(Second, FormatSeconds(Second, seconds, nanos)) == Some((seconds, nanos)) <==> -60 < seconds < 60
  {
    hide ReadSeconds, FormatSeconds;
    if seconds == LEAST {
      LeastSeconds(Second, nanos);
    } else {
      SecondsBack(Second, seconds, nanos);
    }
  }
}
