/** Which texts parseDecimal takes, what it makes of them, and which of them formatDecimal prints. */
module DecimalLaws {
  import opened Bytes
  import opened Decimal

  // ----- the texts formatDecimal prints

  /** Digits without a needless zero in front: at least `width` of them, more only to hold the number. */
  predicate Tight(d: string, width: nat) {
    AllDigits(d) && |d| >= width && (|d| > width ==> d[0] != '0')
  }

  predicate AnyNonZero(d: string) {
    exists i :: 0 <= i < |d| && d[i] != '0'
  }

  /** The text after a minus sign. */
  function Unsigned(s: string): string {
    if s != "" && s[0] == '-' then s[1..] else s
  }

  function WithPoint(d: string, scale: nat): string
    requires |d| >= scale
  {
    d[..|d| - scale] + "." + d[|d| - scale..]
  }

  function WithoutPoint(b: string, scale: nat): string
    requires |b| > scale
  {
    b[..|b| - scale - 1] + b[|b| - scale..]
  }

  lemma PointBack(d: string, scale: nat)
    requires |d| >= scale
    ensures var b := WithPoint(d, scale);
            |b| > scale && b[|b| - scale - 1] == '.' && WithoutPoint(b, scale) == d
  {
    assert d[..|d| - scale] + d[|d| - scale..] == d;
  }

  lemma PointAgain(b: string, scale: nat)
    requires |b| > scale && b[|b| - scale - 1] == '.'
    ensures |WithoutPoint(b, scale)| >= scale && WithPoint(WithoutPoint(b, scale), scale) == b
  {
    var k := |b| - scale - 1;
    var d := WithoutPoint(b, scale);
    assert d[..k] == b[..k] && d[k..] == b[k + 1..];
  }

  /**
   * The decimal texts of a scale: a minus sign only before a number that is not zero, no needless
   * leading zero, and exactly `scale` digits after the point, or no point at scale zero. A
   * negative scale has only the text of zero.
   */
  predicate CanonicalText(s: string, scale: int) {
    var b := Unsigned(s);
    if scale < 0 then s == Zeros(1 - scale)
    else if scale == 0 then Tight(b, 1) && (s != b ==> AnyNonZero(b))
    else
      && |b| > scale && b[|b| - scale - 1] == '.'
      && Tight(WithoutPoint(b, scale), scale + 1) && (s != b ==> AnyNonZero(WithoutPoint(b, scale)))
  }

  lemma {:induction false} DigitsOfFirst(n: nat)
    ensures DigitsOf(n)[0] == '0' <==> n == 0
    ensures n == 0 ==> DigitsOf(n) == "0"
  {
    if n >= 10 {
      DigitsOfFirst(n / 10);
    }
  }

  lemma {:induction false} NumZero(d: string)
    requires AllDigits(d)
    ensures NumOf(d) == 0 <==> !AnyNonZero(d)
  {
    if d != "" {
      var init, last := d[..|d| - 1], d[|d| - 1];
      NumZero(init);
      assert DigitVal(last) == 0 <==> last == '0';
      assert d == init + [last];
      if AnyNonZero(init) {
        var i :| 0 <= i < |init| && init[i] != '0';
        assert d[i] != '0';
      }
    }
  }

  /** Tight digits are the padded digits of their own number. */
  lemma {:induction false} TightBack(d: string, width: nat)
    requires width >= 1 && Tight(d, width)
    ensures PadLeft(DigitsOf(NumOf(d)), width) == d
    decreases |d|
  {
    hide NumOf, DigitsOf;
    if d[0] == '0' && width > 1 {
      var rest := d[1..];
      assert d == "0" + rest && Zeros(1) == "0";
      NumOfConcat("0", rest);
      NumOfZeros(1);
      TightBack(rest, width - 1);
      var n := DigitsOf(NumOf(rest));
      assert |n| <= width - 1;
      assert Zeros(width - |n|) == "0" + Zeros(width - 1 - |n|);
      assert "0" + (Zeros(width - 1 - |n|) + n) == Zeros(width - |n|) + n;
      assert "0" + rest == PadLeft(n, width);
    } else {
      DigitsBack(d);
    }
  }

  /** Digits that do not start with a zero, or a single digit, are the digits of their number. */
  lemma {:induction false} DigitsBack(d: string)
    requires AllDigits(d) && d != "" && (|d| == 1 || d[0] != '0')
    ensures DigitsOf(NumOf(d)) == d
  {
    var init, last := d[..|d| - 1], d[|d| - 1];
    assert d == init + [last];
    if |d| == 1 {
      assert init == "";
    } else {
      DigitsBack(init);
      NumZero(init);
      assert init[0] != '0';
      assert NumOf(d) == NumOf(init) * 10 + DigitVal(last);
      LastDigit(NumOf(init), DigitVal(last));
    }
  }

  lemma LastDigit(n: nat, d: nat)
    requires n > 0 && d < 10
    ensures DigitsOf(n * 10 + d) == DigitsOf(n) + [DigitChar(d)]
  {
  }

  lemma PaddedTight(n: nat, width: nat)
    requires width >= 1
    ensures Tight(PadLeft(DigitsOf(n), width), width)
    ensures AllDigits(PadLeft(DigitsOf(n), width)) && NumOf(PadLeft(DigitsOf(n), width)) == n
    ensures PadLeft(DigitsOf(n), width)[0] != '-'
  {
    hide DigitsOf, NumOf;
    var d := DigitsOf(n);
    DigitsOfFirst(n);
    NumOfDigits(n);
    if |d| < width {
      NumOfConcat(Zeros(width - |d|), d);
      NumOfZeros(width - |d|);
    }
    FirstNotSign(PadLeft(d, width));
  }

  /** What formatDecimal prints is canonical, except for a value at a negative scale. */
  lemma FormatCanonical(u: int, scale: int)
    requires scale >= 0 || u == 0
    ensures CanonicalText(Format(u, scale), scale)
  {
    hide NumOf, DigitsOf, AnyNonZero, AllDigits, Tight, PadLeft, WithPoint, WithoutPoint, SignText;
    if scale < 0 {
      ZeroText(scale);
    } else {
      var d := PadLeft(DigitsOf(Abs(u)), scale + 1);
      PaddedTight(Abs(u), scale + 1);
      NumZero(d);
      if scale == 0 {
        PadOne(DigitsOf(Abs(u)));
        FormatWhole(u);
        SignedUnsigned(u < 0, d);
      } else {
        PointBack(d, scale);
        PointFirst(d, scale);
        FormatPointed(u, scale);
        SignedUnsigned(u < 0, WithPoint(d, scale));
      }
    }
  }

  lemma ZeroText(scale: int)
    requires scale < 0
    ensures Format(0, scale) == Zeros(1 - scale)
  {
    hide DigitsOf;
    DigitsOfFirst(0);
    assert "0" + Zeros(-scale) == Zeros(1 - scale);
    assert SignText(false) + Zeros(1 - scale) == Zeros(1 - scale);
  }

  lemma PadOne(d: string)
    ensures d != "" ==> PadLeft(d, 1) == d
  {
  }

  lemma FormatPointed(u: int, scale: int)
    requires scale > 0
    ensures Format(u, scale) == SignText(u < 0) + WithPoint(PadLeft(DigitsOf(Abs(u)), scale + 1), scale)
  {
    hide DigitsOf, Abs, AllDigits, Zeros, PadLeft, SignText;
  }

  lemma PointFirst(d: string, scale: nat)
    requires AllDigits(d) && |d| > scale
    ensures WithPoint(d, scale)[0] != '-'
  {
  }

  lemma FirstNotSign(d: string)
    requires AllDigits(d) && d != ""
    ensures d[0] != '-'
  {
  }

  lemma SignedUnsigned(neg: bool, b: string)
    requires b != "" && b[0] != '-'
    ensures Unsigned(SignText(neg) + b) == b && (SignText(neg) + b != b <==> neg)
  {
    assert ("-" + b)[1..] == b && "" + b == b;
  }

  /** The number behind a canonical text. */
  function NumberOf(s: string, scale: int): int
    requires CanonicalText(s, scale)
  {
    var b := Unsigned(s);
    var n := if scale < 0 then 0 else NumOf(if scale == 0 then b else WithoutPoint(b, scale));
    if s != b then -n else n
  }

  lemma CanonicalPrinted(s: string, scale: int)
    requires CanonicalText(s, scale)
    ensures Format(NumberOf(s, scale), scale) == s
    ensures scale < 0 ==> NumberOf(s, scale) == 0
  {
    hide NumOf, DigitsOf, AnyNonZero, AllDigits, PadLeft, WithPoint, WithoutPoint, Format;
    if scale < 0 {
      ZeroText(scale);
    } else {
      var b := Unsigned(s);
      var d := if scale == 0 then b else WithoutPoint(b, scale);
      var n := NumOf(d);
      NumZero(d);
      TightBack(d, scale + 1);
      SignAgain(s);
      var u := if s != b then -n else n;
      assert (u < 0 <==> s != b) && Abs(u) == n;
      if scale == 0 {
        PadOne(DigitsOf(n));
        FormatWhole(u);
      } else {
        PointAgain(b, scale);
        FormatPointed(u, scale);
      }
    }
  }

  lemma SignAgain(s: string)
    ensures s == SignText(s != Unsigned(s)) + Unsigned(s)
  {
  }

  lemma FormatWhole(u: int)
    ensures Format(u, 0) == SignText(u < 0) + DigitsOf(Abs(u))
  {
  }

  /**
   * The fixed points of printing what was parsed are exactly the canonical texts of the scale.
   */
  lemma FixedTextIff(s: string, scale: int)
    ensures Parse(s, scale).Some? && Format(Parse(s, scale).value.unscaled, scale) == s <==> CanonicalText(s, scale)
  {
    hide Parse, Format, CanonicalText;
    if CanonicalText(s, scale) {
      CanonicalPrinted(s, scale);
      RoundTripIff(NumberOf(s, scale), scale);
    }
    if Parse(s, scale).Some? && Format(Parse(s, scale).value.unscaled, scale) == s {
      var u := Parse(s, scale).value.unscaled;
      RoundTripIff(u, scale);
      ParsedScale(s, scale);
      FormatCanonical(u, scale);
    }
  }

  lemma ParsedScale(s: string, scale: int)
    ensures Parse(s, scale).Some? ==> Parse(s, scale).value.scale == scale
  {
    hide ParseUnsigned;
  }

  // ----- which texts parseDecimal takes, and with what value

  function Want(scale: int): nat {
    if scale < 0 then 0 else scale
  }

  /** A text without white space and one sign. */
  function Core(text: string): string {
    var s := TrimSpace(text);
    if s != "" && (s[0] == '-' || s[0] == '+') then s[1..] else s
  }

  predicate Negative(text: string) {
    var s := TrimSpace(text);
    s != "" && s[0] == '-'
  }

  /** All characters in front of the point, and `want` behind it, zeros filling up. */
  function Kept(b: string, want: nat): string {
    var dot := IndexOf(b, '.');
    b[..dot] + FitFraction(if dot < |b| then b[dot + 1..] else "", want)
  }

  /** The characters parseDecimal looks at. */
  function LookedAt(text: string, scale: int): string {
    Kept(Core(text), Want(scale))
  }

  function AfterSign(k: string): string {
    if k != "" && (k[0] == '-' || k[0] == '+') then k[1..] else k
  }

  /** Nothing at all, or digits after at most one more sign. */
  predicate Taken(k: string) {
    AllDigits(AfterSign(k)) && (AfterSign(k) != "" || k == "")
  }

  /**
   * A text is accepted exactly when the characters looked at are nothing at all, or digits after
   * at most one more sign; whatever follows them plays no part. The value is the number of those
   * digits, negated once for each minus sign.
   */
  lemma AcceptedIff(text: string, scale: int)
    ensures Parse(text, scale).Some? <==> Taken(LookedAt(text, scale))
    ensures Parse(text, scale).Some? ==>
              var k := LookedAt(text, scale);
              var n := if k != "" && k[0] == '-' then -NumOf(AfterSign(k)) else NumOf(AfterSign(k));
              Parse(text, scale) == Some(Dec(if Negative(text) then -n else n, scale))
  {
    hide TrimSpace, IndexOf, FitFraction;
    assert AllDigits("0") && NumOf("0") == 0 && NumOf("") == 0 by {
      NumOfZeros(1);
      assert Zeros(1) == "0";
    }
  }

  // ----- numbers in full, with an exponent when there is one

  /** Sign, digits around the point, and a power of ten. */
  datatype Numeral = Numeral(neg: bool, whole: string, point: bool, frac: string, marked: bool, exp: int)

  predicate IsMark(ch: char) {
    ch == 'e' || ch == 'E'
  }

  /** The position of the exponent mark, or the length. */
  function MarkIndex(s: string): (i: nat)
    ensures i <= |s| && (i < |s| ==> IsMark(s[i]))
    ensures forall j :: 0 <= j < i ==> !IsMark(s[j])
  {
    if s == "" || IsMark(s[0]) then 0 else 1 + MarkIndex(s[1..])
  }

  /** The numeral of a mantissa and an exponent: digits around the point, at least one of them. */
  function ReadMantissa(neg: bool, mantissa: string, marked: bool, exp: Option<int>): (r: Option<Numeral>)
    ensures r.Some? ==> AllDigits(r.value.whole) && AllDigits(r.value.frac)
  {
    var dot := IndexOf(mantissa, '.');
    var whole, frac := mantissa[..dot], if dot < |mantissa| then mantissa[dot + 1..] else "";
    if AllDigits(whole) && AllDigits(frac) && whole + frac != "" && exp.Some? then
      Some(Numeral(neg, whole, dot < |mantissa|, frac, marked, exp.value))
    else None
  }

  /** The number a whole text stands for, with an exponent after a mark. */
  function ReadNumeral(text: string): (r: Option<Numeral>)
    ensures r.Some? ==> AllDigits(r.value.whole) && AllDigits(r.value.frac)
  {
    var b := Core(text);
    var mark := MarkIndex(b);
    ReadMantissa(Negative(text), b[..mark], mark < |b|, if mark < |b| then SetString(b[mark + 1..]) else Some(0))
  }

  /** A number of digits with a power of ten, times 10^want, rounded down. */
  function CutNumber(whole: string, frac: string, exp: int, want: nat): int
    requires AllDigits(whole) && AllDigits(frac)
  {
    NumOf(whole + frac) * Pow10(want + (if exp > 0 then exp else 0)) / Pow10(|frac| + (if exp < 0 then -exp else 0))
  }

  /** The exact value times 10^scale, cut toward zero. */
  function CutValue(x: Numeral, scale: int): int
    requires AllDigits(x.whole) && AllDigits(x.frac)
  {
    var n := CutNumber(x.whole, x.frac, x.exp, Want(scale));
    if x.neg then -n else n
  }

  /** The digits in front of the cut once the point has moved right by the exponent. */
  function InView(x: Numeral, scale: int): string {
    x.whole + FitFraction(x.frac, Want(scale) + (if x.exp > 0 then x.exp else 0))
  }

  // ----- the shape of a numeral

  function Join(whole: string, point: bool, frac: string, tail: string): string {
    if point then whole + ("." + (frac + tail)) else whole + tail
  }

  lemma SetStringDots(s: string)
    requires SetString(s).Some?
    ensures forall i | 0 <= i < |s| :: s[i] != '.'
  {
    hide NumOf;
    forall i | 0 <= i < |s| ensures s[i] != '.' {
      if i > 0 && (s[0] == '-' || s[0] == '+') {
        assert IsDigit(s[1..][i - 1]);
      }
    }
  }

  /** What follows the mantissa: nothing, or a mark and no point after it. */
  lemma NumeralShape(text: string) returns (tail: string)
    requires ReadNumeral(text).Some?
    ensures var x := ReadNumeral(text).value;
            && Core(text) == Join(x.whole, x.point, x.frac, tail) && x.whole + x.frac != ""
            && (x.point || x.frac == "") && (x.marked <==> tail != "") && x.neg == Negative(text)
            && (tail != "" ==> IsMark(tail[0])) && (!x.marked ==> x.exp == 0)
    ensures forall i | 0 <= i < |tail| :: tail[i] != '.'
  {
    hide SetString, Core, Negative, AllDigits, ReadMantissa;
    var b := Core(text);
    var mark := MarkIndex(b);
    tail := b[mark..];
    assert b == b[..mark] + tail;
    MantissaShape(Negative(text), b[..mark], mark < |b|, if mark < |b| then SetString(b[mark + 1..]) else Some(0), tail);
    if mark < |b| {
      SetStringDots(b[mark + 1..]);
      assert forall i | 1 <= i < |tail| :: tail[i] == b[mark + 1..][i - 1];
    }
  }

  lemma MantissaShape(neg: bool, m: string, marked: bool, exp: Option<int>, tail: string)
    requires ReadMantissa(neg, m, marked, exp).Some?
    ensures var x := ReadMantissa(neg, m, marked, exp).value;
            && m + tail == Join(x.whole, x.point, x.frac, tail) && x.whole + x.frac != ""
            && (x.point || x.frac == "") && x.marked == marked && x.neg == neg && exp == Some(x.exp)
  {
    hide AllDigits;
    var dot := IndexOf(m, '.');
    if dot < |m| {
      assert m == m[..dot] + ("." + m[dot + 1..]);
      assert m + tail == m[..dot] + ("." + (m[dot + 1..] + tail));
    } else {
      assert m[..dot] == m;
    }
  }

  lemma KeptPointed(whole: string, frac: string, tail: string, want: nat)
    requires AllDigits(whole)
    ensures Kept(whole + ("." + (frac + tail)), want) == whole + FitFraction(frac + tail, want)
  {
    PointAt(whole, frac + tail);
    hide IndexOf, FitFraction, AllDigits;
    var b := whole + ("." + (frac + tail));
    assert b[..|whole|] == whole && b[|whole| + 1..] == frac + tail;
  }

  lemma KeptPlain(whole: string, tail: string, want: nat)
    requires AllDigits(whole) && forall i | 0 <= i < |tail| :: tail[i] != '.'
    ensures Kept(whole + tail, want) == whole + tail + Zeros(want)
  {
    var b := whole + tail;
    hide IndexOf;
    assert IndexOf(b, '.') == |b|;
    assert b[..|b|] == b && "" + Zeros(want) == Zeros(want);
  }

  lemma FitTail(frac: string, tail: string, want: nat)
    ensures |frac| >= want || tail == "" ==> FitFraction(frac + tail, want) == FitFraction(frac, want)
    ensures |frac| < want && tail != "" ==> FitFraction(frac + tail, want)[|frac|] == tail[0]
  {
    if tail == "" {
      assert frac + tail == frac;
    } else if |frac| >= want {
      assert (frac + tail)[..want] == frac[..want];
      assert frac + Zeros(0) == frac;
    }
  }

  lemma TakenDigits(k: string)
    requires AllDigits(k)
    ensures Taken(k) && AfterSign(k) == k && (k != "" ==> k[0] != '-')
  {
  }

  lemma NotTaken(k: string, i: nat)
    requires 1 <= i < |k| && !IsDigit(k[i]) && IsDigit(k[0])
    ensures !Taken(k)
  {
  }

  lemma KeptDigits(whole: string, frac: string, want: nat)
    requires AllDigits(whole) && AllDigits(frac)
    ensures AllDigits(whole + FitFraction(frac, want))
  {
    FitFractionVal(whole, frac, want);
  }

  /** A numeral is accepted exactly when an exponent mark lies behind the fraction digits looked at. */
  lemma NumeralAcceptedIff(text: string, scale: int)
    requires ReadNumeral(text).Some?
    ensures var x := ReadNumeral(text).value;
            && (Parse(text, scale).Some? <==> !x.marked || (x.point && |x.frac| >= Want(scale)))
            && (Parse(text, scale).Some? ==> LookedAt(text, scale) == x.whole + FitFraction(x.frac, Want(scale)))
  {
    var x := ReadNumeral(text).value;
    var tail := NumeralShape(text);
    AcceptedIff(text, scale);
    KeptDigits(x.whole, x.frac, Want(scale));
    NumeralKept(x.whole, x.point, x.frac, tail, Want(scale));
    hide Parse, Core, ReadNumeral, Kept, Taken, FitFraction, AllDigits;
    TakenDigits(x.whole + FitFraction(x.frac, Want(scale)));
  }

  lemma NumeralKept(whole: string, point: bool, frac: string, tail: string, want: nat)
    requires AllDigits(whole) && AllDigits(frac) && whole + frac != "" && (point || frac == "")
    requires (tail != "" ==> IsMark(tail[0])) && forall i | 0 <= i < |tail| :: tail[i] != '.'
    ensures var k := Kept(Join(whole, point, frac, tail), want);
            if tail == "" || (point && |frac| >= want) then k == whole + FitFraction(frac, want) else !Taken(k)
  {
    hide Kept, Taken;
    if point {
      KeptPointed(whole, frac, tail, want);
      FitTail(frac, tail, want);
      var k := whole + FitFraction(frac + tail, want);
      if |frac| < want && tail != "" {
        assert k[|whole| + |frac|] == tail[0];
        FitKeeps(frac, tail, want);
        assert k[0] == (whole + frac)[0];
        NotTaken(k, |whole| + |frac|);
      }
    } else {
      KeptPlain(whole, tail, want);
      var k := whole + tail + Zeros(want);
      if tail == "" {
        assert k == whole + FitFraction(frac, want);
      } else {
        assert k[|whole|] == tail[0] && k[0] == whole[0];
        NotTaken(k, |whole|);
      }
    }
  }

  lemma FitKeeps(frac: string, tail: string, want: nat)
    requires |frac| < want
    ensures forall i | 0 <= i < |frac| :: FitFraction(frac + tail, want)[i] == frac[i]
  {
  }

  // ----- when the value is right

  lemma DivTwice(n: nat, a: int, b: int)
    requires a > 0 && b > 0
    ensures a * b > 0 && n / (a * b) == n / a / b
  {
    var q, r := n / a, n % a;
    var q2, r2 := q / b, q % b;
    assert n == a * q + r && q == b * q2 + r2;
    assert n == (a * b) * q2 + (a * r2 + r);
    MulMonotone(a, r2, b - 1);
    MulMonotone(a, 0, r2);
    DivModUnique(n, a * b, q2, a * r2 + r);
  }

  lemma SmallerQuotient(k: nat, p: int)
    requires p >= 10
    ensures k / p == k <==> k == 0
  {
    if k > 0 {
      MulMonotone(k, 10, p);
      var q, r := k / p, k % p;
      assert k == p * q + r;
      if q == k {
        assert false;
      }
    }
  }

  lemma GrownNumber(k: nat, p: int, e: nat)
    requires p >= 10
    ensures k * p + e == k <==> k * p + e == 0
  {
    MulMonotone(k, 10, p);
  }

  /** Cutting deeper leaves the same number exactly when nothing but zeros is in view. */
  lemma CutUp(whole: string, frac: string, want: nat, up: nat)
    requires AllDigits(whole) && AllDigits(frac) && up > 0
    ensures AllDigits(whole + FitFraction(frac, want)) && AllDigits(whole + FitFraction(frac, want + up))
    ensures var a := NumOf(whole + FitFraction(frac, want + up));
            a == NumOf(whole + FitFraction(frac, want)) <==> a == 0
  {
    hide NumOf;
    KeptDigits(whole, frac, want);
    KeptDigits(whole, frac, want + up);
    var k := whole + FitFraction(frac, want);
    var extra := FitFraction(frac, want + up)[want..];
    assert FitFraction(frac, want + up)[..want] == FitFraction(frac, want);
    assert whole + FitFraction(frac, want + up) == k + extra;
    DigitSlices(whole + FitFraction(frac, want + up), |k|);
    assert (k + extra)[|k|..] == extra;
    NumOfConcat(k, extra);
    Pow10Grows(up);
    GrownNumber(NumOf(k), Pow10(up), NumOf(extra));
  }

  /** The number of the digits looked at against the value of the whole numeral, both without sign. */
  lemma CutIff(whole: string, frac: string, want: nat, exp: int)
    requires AllDigits(whole) && AllDigits(frac)
    ensures AllDigits(whole + FitFraction(frac, want))
    ensures NumOf(whole + FitFraction(frac, want)) == CutNumber(whole, frac, exp, want)
       <==> exp == 0 || !AnyNonZero(whole + FitFraction(frac, want + (if exp > 0 then exp else 0)))
  {
    hide NumOf, CutNumber, AnyNonZero, FitFraction, AllDigits;
    KeptDigits(whole, frac, want);
    if exp < 0 {
      CutNumberDown(whole, frac, exp, want);
      NumZero(whole + FitFraction(frac, want));
    } else {
      CutNumberUp(whole, frac, exp, want);
      if exp > 0 {
        CutUp(whole, frac, want, exp);
        NumZero(whole + FitFraction(frac, want + exp));
      }
    }
  }

  lemma CutNumberUp(whole: string, frac: string, exp: nat, want: nat)
    requires AllDigits(whole) && AllDigits(frac)
    ensures AllDigits(whole + FitFraction(frac, want + exp))
    ensures CutNumber(whole, frac, exp, want) == NumOf(whole + FitFraction(frac, want + exp))
  {
    hide NumOf, Pow10, FitFraction;
    FitFractionVal(whole, frac, want + exp);
  }

  lemma CutNumberDown(whole: string, frac: string, exp: int, want: nat)
    requires AllDigits(whole) && AllDigits(frac) && exp < 0
    ensures AllDigits(whole + FitFraction(frac, want))
    ensures var k := NumOf(whole + FitFraction(frac, want)); CutNumber(whole, frac, exp, want) == k <==> k == 0
  {
    hide NumOf, Pow10, FitFraction;
    FitFractionVal(whole, frac, want);
    CutDown(NumOf(whole + frac) * Pow10(want), |frac|, -exp);
  }

  lemma CutDown(n: nat, f: nat, down: nat)
    requires down > 0
    ensures n / Pow10(f) == n / Pow10(f + down) <==> n / Pow10(f) == 0
  {
    hide Pow10;
    Pow10Add(f, down);
    DivTwice(n, Pow10(f), Pow10(down));
    Pow10Grows(down);
    SmallerQuotient(n / Pow10(f), Pow10(down));
  }

  /**
   * For every text that stands for a number, parseDecimal gives its exact value times 10^scale,
   * cut toward zero, if and only if an exponent mark lies behind the fraction digits looked at,
   * and the exponent is zero or there are only zeros in front of the cut.
   */
  lemma ExactIff(text: string, scale: int)
    requires ReadNumeral(text).Some?
    ensures var x := ReadNumeral(text).value;
            Parse(text, scale) == Some(Dec(CutValue(x, scale), scale)) <==>
            && (x.marked ==> x.point && |x.frac| >= Want(scale))
            && (x.exp == 0 || !AnyNonZero(InView(x, scale)))
  {
    hide Parse, ReadNumeral, FitFraction, NumOf, CutNumber, AnyNonZero, AllDigits;
    var x := ReadNumeral(text).value;
    NumeralAcceptedIff(text, scale);
    CutIff(x.whole, x.frac, Want(scale), x.exp);
    if Parse(text, scale).Some? {
      NumeralParsed(text, scale);
    }
  }

  lemma NumeralParsed(text: string, scale: int)
    requires ReadNumeral(text).Some? && Parse(text, scale).Some?
    ensures var x := ReadNumeral(text).value;
            var k := x.whole + FitFraction(x.frac, Want(scale));
            AllDigits(k) && Parse(text, scale) == Some(Dec(if x.neg then -NumOf(k) else NumOf(k), scale))
  {
    hide Parse, ReadNumeral, FitFraction, NumOf, AllDigits, LookedAt, Taken;
    var x := ReadNumeral(text).value;
    var tail := NumeralShape(text);
    NumeralAcceptedIff(text, scale);
    AcceptedIff(text, scale);
    KeptDigits(x.whole, x.frac, Want(scale));
    TakenDigits(x.whole + FitFraction(x.frac, Want(scale)));
  }

  // ----- two texts

  /** The numeral in a text with a point. */
  lemma ReadPointed(text: string, whole: string, frac: string, tail: string)
    requires Core(text) == whole + ("." + (frac + tail)) && AllDigits(whole) && whole != ""
    requires forall i | 0 <= i < |frac| :: !IsMark(frac[i])
    requires tail != "" ==> IsMark(tail[0])
    ensures ReadNumeral(text)
         == var exp := if tail != "" then SetString(tail[1..]) else Some(0);
            if AllDigits(frac) && exp.Some? then
              Some(Numeral(Negative(text), whole, true, frac, tail != "", exp.value))
            else None
  {
    var m := whole + ("." + frac);
    assert whole + ("." + (frac + tail)) == m + tail;
    NoMarks(whole, frac);
    hide Core, Negative, SetString, AllDigits, ReadMantissa, IsMark, ReadNumeral;
    ReadMarked(text, m, tail);
    MantissaPointed(Negative(text), whole, frac, tail != "", if tail != "" then SetString(tail[1..]) else Some(0));
  }

  lemma NoMarks(whole: string, frac: string)
    requires AllDigits(whole) && forall i | 0 <= i < |frac| :: !IsMark(frac[i])
    ensures var m := whole + ("." + frac); forall i | 0 <= i < |m| :: !IsMark(m[i])
  {
  }

  /** A text split where its exponent mark is. */
  lemma ReadMarked(text: string, m: string, tail: string)
    requires Core(text) == m + tail && forall i | 0 <= i < |m| :: !IsMark(m[i])
    requires tail != "" ==> IsMark(tail[0])
    ensures ReadNumeral(text)
         == ReadMantissa(Negative(text), m, tail != "", if tail != "" then SetString(tail[1..]) else Some(0))
  {
    hide Core, Negative, SetString, ReadMantissa, IsMark;
    MarkAt(m, tail);
    assert (m + tail)[..|m|] == m && (tail != "" ==> (m + tail)[|m| + 1..] == tail[1..]);
  }

  lemma MantissaPointed(neg: bool, whole: string, frac: string, marked: bool, exp: Option<int>)
    requires AllDigits(whole) && whole != ""
    ensures ReadMantissa(neg, whole + ("." + frac), marked, exp)
         == if AllDigits(frac) && exp.Some? then Some(Numeral(neg, whole, true, frac, marked, exp.value)) else None
  {
    var m := whole + ("." + frac);
    PointAt(whole, frac);
    hide AllDigits, IndexOf;
    assert m[..|whole|] == whole && m[|whole| + 1..] == frac;
  }

  lemma MarkAt(m: string, tail: string)
    requires forall i | 0 <= i < |m| :: !IsMark(m[i])
    requires tail != "" ==> IsMark(tail[0])
    ensures MarkIndex(m + tail) == |m|
  {
    hide MarkIndex, IsMark;
    assert forall j | 0 <= j < |m| :: (m + tail)[j] == m[j];
    assert tail != "" ==> (m + tail)[|m|] == tail[0];
  }

  lemma PointAt(whole: string, frac: string)
    requires forall i | 0 <= i < |whole| :: whole[i] != '.'
    ensures IndexOf(whole + ("." + frac), '.') == |whole|
  {
    IndexOfFirst(whole, '.', "." + frac);
    assert ("." + frac)[0] == '.';
  }

  lemma PlainCore(s: string)
    requires s != "" && IsDigit(s[0]) && !IsSpace(s[|s| - 1])
    ensures Core(s) == s && !Negative(s)
  {
    TrimSpaceCore("", s, "");
    assert "" + s + "" == s;
  }

  lemma OneDigit(d: string)
    requires |d| == 1 && IsDigit(d[0])
    ensures NumOf(d) == DigitVal(d[0])
  {
    assert d[..0] == "";
  }

  /** A text that stands for no number can be taken for one: nothing behind the cut is looked at. */
  lemma JunkTaken()
    ensures ReadNumeral("7.x!").None? && Parse("7.x!", 0) == Some(Dec(7, 0))
  {
    JunkNumeral();
    PlainCore("7.x!");
    JunkPieces();
    hide Core, Negative, Kept, ReadNumeral, Parse, FitFraction, NumOf;
    KeptPointed("7", "x!", "", 0);
    FitNothing("x!" + "");
    AcceptedIff("7.x!", 0);
    TakenDigits("7");
    OneDigit("7");
  }

  lemma JunkNumeral()
    ensures ReadNumeral("7.x!").None?
  {
    PlainCore("7.x!");
    JunkPieces();
    hide Core, Negative, ReadNumeral, AllDigits, IsMark, SetString;
    ReadPointed("7.x!", "7", "x!", "");
  }

  lemma JunkPieces()
    ensures "7.x!" == "7" + ("." + ("x!" + "")) && "7" + "" == "7" && !AllDigits("x!") && AllDigits("7")
    ensures forall i | 0 <= i < 2 :: !IsMark("x!"[i])
  {
    assert !IsDigit("x!"[0]);
  }

  lemma FitNothing(f: string)
    ensures FitFraction(f, 0) == ""
  {
  }

  /** The way Go prints 1.5e-07 is taken for 1.5 at one decimal, where the number itself is cut to zero. */
  lemma FloatTextMisread()
    ensures ReadNumeral("1.5e-07") == Some(Numeral(false, "1", true, "5", true, -7))
    ensures Parse("1.5e-07", 1) == Some(Dec(15, 1)) && CutValue(ReadNumeral("1.5e-07").value, 1) == 0
  {
    FloatNumeral();
    SmallExponent();
    CutValueSmall();
    hide ReadNumeral, Parse, FitFraction, NumOf, CutValue, AnyNonZero, InView;
    NumeralAcceptedIff("1.5e-07", 1);
    NumeralParsed("1.5e-07", 1);
    FitWhole("5");
    assert "1" + "5" == "15";
  }

  lemma FloatNumeral()
    ensures ReadNumeral("1.5e-07") == Some(Numeral(false, "1", true, "5", true, -7))
  {
    PlainCore("1.5e-07");
    SmallExponent();
    FloatPieces();
    hide Core, Negative, ReadNumeral, SetString, NumOf;
    ReadPointed("1.5e-07", "1", "5", "e-07");
  }

  lemma FloatPieces()
    ensures "1.5e-07" == "1" + ("." + ("5" + "e-07")) && "e-07"[1..] == "-07"
    ensures IsMark("e-07"[0]) && !IsMark("5"[0]) && AllDigits("1") && AllDigits("5")
  {
  }

  lemma SmallExponent()
    ensures SetString("-07") == Some(-7) && NumOf("15") == 15
  {
    assert "-07"[1..] == "07" && "07"[..1] == "0" && "15"[..1] == "1";
    OneDigit("0");
    OneDigit("1");
  }

  lemma CutValueSmall()
    ensures CutValue(Numeral(false, "1", true, "5", true, -7), 1) == 0
  {
    hide NumOf;
    SmallExponent();
    assert "1" + "5" == "15";
    Pow10Add(4, 4);
    assert Pow10(4) == 10000 && Pow10(1) == 10;
  }
}
