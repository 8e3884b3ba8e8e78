/** internal/proto: decimal text, both directions. */
module Decimal {
  import opened Bytes

  /** An unscaled integer and the number of decimals it carries. */
  datatype Dec = Dec(unscaled: int, scale: int)

  function Abs(n: int): nat {
    if n < 0 then -n else n
  }

  function Pow10(k: nat): (p: int)
    ensures p > 0
  {
    if k == 0 then 1 else 10 * Pow10(k - 1)
  }

  predicate IsDigit(ch: char) { '0' <= ch <= '9' }

  predicate AllDigits(s: string) { forall i :: 0 <= i < |s| ==> IsDigit(s[i]) }

  function DigitChar(d: int): (ch: char)
    requires 0 <= d < 10
    ensures IsDigit(ch) && DigitVal(ch) == d
  {
    '0' + d as char
  }

  function DigitVal(ch: char): (d: int)
    requires IsDigit(ch)
    ensures 0 <= d < 10
  {
    ch as int - '0' as int
  }

  /** The decimal digits of a natural number (big.Int.String). */
  function DigitsOf(n: nat): (s: string)
    ensures |s| > 0 && AllDigits(s)
  {
    if n < 10 then [DigitChar(n)] else DigitsOf(n / 10) + [DigitChar(n % 10)]
  }

  /** The number a digit string stands for; leading zeros count for nothing. */
  function NumOf(s: string): (n: int)
    requires AllDigits(s)
    ensures 0 <= n
  {
    if s == [] then 0 else NumOf(s[..|s| - 1]) * 10 + DigitVal(s[|s| - 1])
  }

  function Zeros(k: nat): (s: string)
    ensures |s| == k && AllDigits(s)
  {
    seq(k, i => '0')
  }

  function SignText(neg: bool): string {
    if neg then "-" else ""
  }

  function IntText(v: int): string {
    SignText(v < 0) + DigitsOf(Abs(v))
  }

  /** Enough leading zeros for one digit before the point. */
  function PadLeft(s: string, n: nat): (r: string)
    ensures |r| >= n && |r| >= |s|
    ensures AllDigits(s) ==> AllDigits(r)
  {
    if |s| >= n then s else Zeros(n - |s|) + s
  }

  /** formatDecimal. */
  function Format(unscaled: int, scale: int): string {
    var digits := DigitsOf(Abs(unscaled));
    if scale == 0 then IntText(unscaled)
    else if scale < 0 then SignText(unscaled < 0) + (digits + Zeros(-scale))
    else
      var d := PadLeft(digits, scale + 1);
      SignText(unscaled < 0) + (d[..|d| - scale] + "." + d[|d| - scale..])
  }

  method FormatDecimal(unscaled: int, scale: int) returns (out: string)
    ensures out == Format(unscaled, scale)
  {
    hide DigitsOf, AllDigits, PadLeft, IntText, Zeros, SignText, Abs;
    if scale == 0 {
      return IntText(unscaled);
    }
    var neg := unscaled < 0;
    var digits := DigitsOf(Abs(unscaled));
    if scale < 0 {
      digits := digits + Zeros(-scale);
      return SignText(neg) + digits;
    }
    digits := LeadingZeros(digits, scale);
    out := digits[..|digits| - scale] + "." + digits[|digits| - scale..];
    return SignText(neg) + out;
  }

  /** The padding loop of formatDecimal. */
  method LeadingZeros(start: string, scale: nat) returns (digits: string)
    ensures digits == PadLeft(start, scale + 1)
  {
    hide AllDigits;
    digits := start;
    ghost var pad := 0;
    while |digits| <= scale
      invariant digits == Zeros(pad) + start
      invariant pad > 0 ==> |digits| <= scale + 1
      decreases scale - |digits|
    {
      assert ['0'] + Zeros(pad) == Zeros(pad + 1);
      digits := ['0'] + digits;
      pad := pad + 1;
    }
    assert Zeros(0) + start == start;
  }

  /** The white space strings.TrimSpace drops. */
  predicate IsSpace(ch: char) {
    var r := ch as int;
    || 0x09 <= r <= 0x0D || r == 0x20 || r == 0x85 || r == 0xA0 || r == 0x1680
    || 0x2000 <= r <= 0x200A || r == 0x2028 || r == 0x2029 || r == 0x202F || r == 0x205F || r == 0x3000
  }

  function TrimLeft(s: string): string {
    if s != [] && IsSpace(s[0]) then TrimLeft(s[1..]) else s
  }

  function TrimRight(s: string): string {
    if s != [] && IsSpace(s[|s| - 1]) then TrimRight(s[..|s| - 1]) else s
  }

  function TrimSpace(s: string): string {
    TrimRight(TrimLeft(s))
  }

  /** The position of the first `ch`, or the length when there is none. */
  function IndexOf(s: string, ch: char): (i: nat)
    ensures i <= |s|
    ensures i < |s| ==> s[i] == ch
    ensures forall j :: 0 <= j < i ==> s[j] != ch
  {
    if s == [] then 0 else if s[0] == ch then 0 else 1 + IndexOf(s[1..], ch)
  }

  /** big.Int.SetString in base 10: an optional sign and at least one digit. */
  function SetString(s: string): Option<int> {
    var body := if s != [] && (s[0] == '-' || s[0] == '+') then s[1..] else s;
    if body == [] || !AllDigits(body) then None
    else if s[0] == '-' then Some(-NumOf(body))
    else Some(NumOf(body))
  }

  /** The fraction with exactly `want` characters: zeros added or excess cut. */
  function FitFraction(frac: string, want: nat): (f: string)
    ensures |f| == want
  {
    if |frac| <= want then frac + Zeros(want - |frac|) else frac[..want]
  }

  /** parseDecimal on text without white space and sign. */
  function ParseUnsigned(s: string, scale: int): Option<int> {
    var dot := IndexOf(s, '.');
    var frac := if dot < |s| then s[dot + 1..] else "";
    var digits := s[..dot] + FitFraction(frac, if scale < 0 then 0 else scale);
    SetString(if digits == "" then "0" else digits)
  }

  /** parseDecimal. */
  function Parse(text: string, scale: int): Option<Dec> {
    var s := TrimSpace(text);
    var neg := s != [] && s[0] == '-';
    var body := if s != [] && (s[0] == '-' || s[0] == '+') then s[1..] else s;
    match ParseUnsigned(body, scale)
    case None => None
    case Some(u) => Some(Dec(if neg then -u else u, scale))
  }

  method ParseDecimal(text: string, scale: int) returns (r: Option<Dec>)
    ensures r == Parse(text, scale)
  {
    hide TrimSpace, SetString, IsDigit, AllDigits, FitFraction;
    var s := TrimSpace(text);
    var neg := false;
    if s != [] && s[0] == '-' {
      neg := true;
      s := s[1..];
    } else if s != [] && s[0] == '+' {
      s := s[1..];
    }
    var intPart, fracPart := s, "";
    var i := IndexOf(s, '.');
    if i < |s| {
      intPart, fracPart := s[..i], s[i + 1..];
    }
    var want := if scale < 0 then 0 else scale;
    fracPart := AdjustFraction(fracPart, want);
    assert s[..|s|] == s;
    var digits := intPart + fracPart;
    if digits == "" {
      digits := "0";
    }
    match SetString(digits) {
      case None => return None;
      case Some(u) => return Some(Dec(if neg then -u else u, scale));
    }
  }

  /** The padding loop and the cut of parseDecimal. */
  method AdjustFraction(frac: string, want: nat) returns (fracPart: string)
    ensures fracPart == FitFraction(frac, want)
  {
    hide AllDigits;
    fracPart := frac;
    ghost var pad := 0;
    while |fracPart| < want
      invariant fracPart == frac + Zeros(pad)
      invariant pad > 0 ==> |fracPart| <= want
    {
      assert Zeros(pad) + ['0'] == Zeros(pad + 1);
      fracPart := fracPart + ['0'];
      pad := pad + 1;
    }
    assert frac + Zeros(0) == frac;
    if |fracPart| > want {
      fracPart := fracPart[..want];
    }
  }

  /** scaleUnscaled: the path an int64 parameter takes. */
  function ScaleUnscaled(v: int, scale: int): int {
    if scale <= 0 then v else v * Pow10(scale)
  }

  // ----- numbers and digit strings

  lemma {:induction false} NumOfDigits(n: nat)
    ensures NumOf(DigitsOf(n)) == n
  {
    var d := DigitsOf(n);
    if n >= 10 {
      NumOfDigits(n / 10);
      assert d[..|d| - 1] == DigitsOf(n / 10);
    } else {
      assert d[..0] == [];
    }
  }

  lemma {:induction false} Pow10Add(a: nat, b: nat)
    ensures Pow10(a + b) == Pow10(a) * Pow10(b)
  {
    if b > 0 {
      Pow10Add(a, b - 1);
    }
  }

  lemma MulMulDistribute(a: int, b: int, x: int, y: int)
    requires x == 10 * y
    ensures (a * y + b) * 10 == a * x + b * 10
  {
  }

  lemma {:induction false} NumOfConcat(a: string, b: string)
    requires AllDigits(a) && AllDigits(b)
    ensures AllDigits(a + b) && NumOf(a + b) == NumOf(a) * Pow10(|b|) + NumOf(b)
  {
    if b == [] {
      assert a + b == a;
    } else {
      var init := b[..|b| - 1];
      NumOfConcat(a, init);
      assert (a + b)[..|a + b| - 1] == a + init;
      MulMulDistribute(NumOf(a), NumOf(init), Pow10(|b|), Pow10(|init|));
    }
  }

  lemma {:induction false} NumOfZeros(k: nat)
    ensures NumOf(Zeros(k)) == 0
  {
    if k > 0 {
      NumOfZeros(k - 1);
      assert Zeros(k)[..k - 1] == Zeros(k - 1);
    }
  }

  lemma {:induction false} NumOfBound(s: string)
    requires AllDigits(s)
    ensures NumOf(s) < Pow10(|s|)
  {
    if s != [] {
      NumOfBound(s[..|s| - 1]);
    }
  }

  // ----- white space and the decimal point

  lemma {:induction false} TrimLeftSkips(pre: string, rest: string)
    requires forall i :: 0 <= i < |pre| ==> IsSpace(pre[i])
    requires rest == [] || !IsSpace(rest[0])
    ensures TrimLeft(pre + rest) == rest
  {
    hide IsSpace;
    if pre == [] {
      assert pre + rest == rest;
    } else {
      assert (pre + rest)[1..] == pre[1..] + rest;
      TrimLeftSkips(pre[1..], rest);
    }
  }

  lemma {:induction false} TrimRightSkips(rest: string, post: string)
    requires forall i :: 0 <= i < |post| ==> IsSpace(post[i])
    requires rest == [] || !IsSpace(rest[|rest| - 1])
    ensures TrimRight(rest + post) == rest
  {
    hide IsSpace;
    if post == [] {
      assert rest + post == rest;
    } else {
      assert (rest + post)[..|rest + post| - 1] == rest + post[..|post| - 1];
      TrimRightSkips(rest, post[..|post| - 1]);
    }
  }

  predicate AllSpace(s: string) { forall i :: 0 <= i < |s| ==> IsSpace(s[i]) }

  lemma TrimSpaceCore(pre: string, core: string, post: string)
    requires AllSpace(pre) && AllSpace(post)
    requires core != [] ==> !IsSpace(core[0]) && !IsSpace(core[|core| - 1])
    ensures TrimSpace(pre + core + post) == core
  {
    hide IsSpace;
    if core == [] {
      assert pre + core + post == (pre + post) + [];
      TrimLeftSkips(pre + post, []);
    } else {
      assert pre + core + post == pre + (core + post);
      TrimLeftSkips(pre, core + post);
      TrimRightSkips(core, post);
    }
  }

  lemma {:induction false} IndexOfFirst(a: string, ch: char, b: string)
    requires forall i :: 0 <= i < |a| ==> a[i] != ch
    ensures IndexOf(a + b, ch) == |a| + IndexOf(b, ch)
  {
    if a == [] {
      assert a + b == b;
    } else {
      assert (a + b)[1..] == a[1..] + b;
      IndexOfFirst(a[1..], ch, b);
    }
  }

  // ----- main results

  /** The text after an optional sign: digits, and digits after a point when there is one. */
  function Body(whole: string, dot: bool, frac: string): string {
    if dot then whole + "." + frac else whole
  }

  lemma ScaleDiv(n: nat, p: int, q: int)
    requires 0 < p && 0 < q
    ensures 0 < p * q && n * p / (p * q) == n / q
  {
    var k, r := n / q, n % q;
    assert n == q * k + r;
    assert n * p == (p * q) * k + r * p;
    MulMonotone(p, r, q - 1);
    MulMonotone(p, 0, r);
    assert p * (q - 1) == p * q - p;
    DivModUnique(n * p, p * q, k, r * p);
  }

  lemma MulDiv(n: int, a: int, b: int)
    requires 0 < a
    ensures n * (a * b) / a == n * b
  {
    assert n * (a * b) == a * (n * b);
    DivModUnique(n * (a * b), a, n * b, 0);
  }

  lemma DivByPower(n: nat, want: nat, f: nat)
    requires want <= f
    ensures n * Pow10(want) / Pow10(f) == n / Pow10(f - want)
  {
    Pow10Add(want, f - want);
    ScaleDiv(n, Pow10(want), Pow10(f - want));
  }

  lemma FitWhole(frac: string)
    ensures FitFraction(frac, |frac|) == frac
  {
    assert frac + Zeros(0) == frac;
  }

  /** Cutting the fraction is division rounding down; padding it is multiplication. */
  lemma FitFractionVal(whole: string, frac: string, want: nat)
    requires AllDigits(whole) && AllDigits(frac)
    ensures AllDigits(whole + FitFraction(frac, want))
    ensures NumOf(whole + FitFraction(frac, want)) == NumOf(whole + frac) * Pow10(want) / Pow10(|frac|)
  {
    hide NumOf, Pow10, IsDigit;
    if |frac| <= want {
      var z := want - |frac|;
      assert whole + FitFraction(frac, want) == (whole + frac) + Zeros(z);
      NumOfConcat(whole + frac, Zeros(z));
      NumOfZeros(z);
      Pow10Add(|frac|, z);
      MulDiv(NumOf(whole + frac), Pow10(|frac|), Pow10(z));
    } else {
      var kept, cut := whole + frac[..want], frac[want..];
      assert whole + frac == kept + cut;
      NumOfConcat(kept, cut);
      NumOfBound(cut);
      DivModUnique(NumOf(whole + frac), Pow10(|cut|), NumOf(kept), NumOf(cut));
      DivByPower(NumOf(whole + frac), want, |frac|);
    }
  }

  /** The digits as a number with `decimals` decimals, times 10^scale, excess cut. */
  function ScaledDown(digits: string, scale: int, decimals: nat): int
    requires AllDigits(digits)
  {
    NumOf(digits) * Pow10(if scale < 0 then 0 else scale) / Pow10(decimals)
  }

  lemma ParseUnsignedBody(whole: string, dot: bool, frac: string, scale: int)
    requires AllDigits(whole) && AllDigits(frac) && (!dot ==> frac == "")
    ensures ParseUnsigned(Body(whole, dot, frac), scale) == Some(ScaledDown(whole + frac, scale, |frac|))
    ensures Body(whole, dot, frac) != [] ==> Body(whole, dot, frac)[0] != '-' && Body(whole, dot, frac)[0] != '+'
  {
    hide NumOf, Pow10, IndexOf, SetString, FitFraction;
    var want := if scale < 0 then 0 else scale;
    var s := Body(whole, dot, frac);
    if dot {
      assert s == whole + ("." + frac);
      IndexOfFirst(whole, '.', "." + frac);
      assert ("." + frac)[0] == '.';
      assert IndexOf("." + frac, '.') == 0;
      assert s[..|whole|] == whole && s[|whole| + 1..] == frac;
    } else {
      IndexOfFirst(whole, '.', "");
      assert s + "" == s;
      assert s[..|whole|] == whole;
    }
    FitFractionVal(whole, frac, want);
    SetStringDigits(whole + FitFraction(frac, want));
  }

  lemma SetStringDigits(d: string)
    requires AllDigits(d)
    ensures SetString(if d == "" then "0" else d) == Some(NumOf(d))
  {
  }

  lemma TextEnds(sign: string, whole: string, dot: bool, frac: string)
    requires sign == "" || sign == "+" || sign == "-"
    requires AllDigits(whole) && AllDigits(frac)
    ensures var core := sign + Body(whole, dot, frac);
            core != [] ==> !IsSpace(core[0]) && !IsSpace(core[|core| - 1])
  {
  }

  /**
   * For every well-formed decimal text, with white space around it, any sign, and any number of
   * digits on either side of the point, the parsed value is the exact value times 10^scale with
   * the excess cut toward zero. A negative scale is treated as zero.
   */
  lemma ParseTruncates(pre: string, sign: string, whole: string, dot: bool, frac: string, post: string, scale: int)
    requires AllSpace(pre) && AllSpace(post)
    requires sign == "" || sign == "+" || sign == "-"
    requires AllDigits(whole) && AllDigits(frac) && (!dot ==> frac == "")
    ensures Parse(pre + (sign + Body(whole, dot, frac)) + post, scale)
         == Some(Dec((if sign == "-" then -1 else 1) * ScaledDown(whole + frac, scale, |frac|), scale))
  {
    hide Parse, ParseUnsigned, ScaledDown, Body, IsSpace, IsDigit, NumOf;
    TextEnds(sign, whole, dot, frac);
    ParseUnsignedBody(whole, dot, frac, scale);
    ParseText(pre, sign, Body(whole, dot, frac), post, scale, ScaledDown(whole + frac, scale, |frac|));
  }

  /** White space and a sign around what is read. */
  lemma ParseText(pre: string, sign: string, body: string, post: string, scale: int, n: int)
    requires AllSpace(pre) && AllSpace(post)
    requires sign == "" || sign == "+" || sign == "-"
    requires sign + body != "" ==> !IsSpace((sign + body)[0]) && !IsSpace((sign + body)[|sign + body| - 1])
    requires body != "" ==> body[0] != '-' && body[0] != '+'
    requires ParseUnsigned(body, scale) == Some(n)
    ensures Parse(pre + (sign + body) + post, scale) == Some(Dec((if sign == "-" then -1 else 1) * n, scale))
  {
    hide *;
    TrimSpaceCore(pre, sign + body, post);
    ParseSigned(pre + (sign + body) + post, sign, body, scale);
  }

  /** A sign is taken off in front of what is read. */
  lemma ParseSigned(text: string, sign: string, body: string, scale: int)
    requires TrimSpace(text) == sign + body && (sign == "" || sign == "+" || sign == "-")
    requires body != "" ==> body[0] != '-' && body[0] != '+'
    ensures Parse(text, scale)
         == match ParseUnsigned(body, scale)
            case None => None
            case Some(u) => Some(Dec(if sign == "-" then -u else u, scale))
  {
    hide TrimSpace, ParseUnsigned;
    if sign == "" {
      assert sign + body == body;
    } else {
      assert (sign + body)[1..] == body;
    }
  }

  lemma PowZero()
    ensures Pow10(0) == 1
  {
  }

  lemma DigitSlices(s: string, i: nat)
    requires AllDigits(s) && i <= |s|
    ensures AllDigits(s[..i]) && AllDigits(s[i..])
  {
  }

  /** formatDecimal as sign, digits, point and digits; the digits are those of the unscaled value. */
  lemma FormatShape(u: int, scale: int) returns (whole: string, frac: string)
    ensures AllDigits(whole) && AllDigits(frac) && |frac| == (if scale > 0 then scale else 0)
    ensures Format(u, scale) == SignText(u < 0) + Body(whole, scale > 0, frac)
    ensures NumOf(whole + frac) == Abs(u) * Pow10(if scale < 0 then -scale else 0)
  {
    hide DigitsOf, NumOf, Pow10, AllDigits, Abs;
    var digits := DigitsOf(Abs(u));
    NumOfDigits(Abs(u));
    assert Pow10(0) == 1 by { PowZero(); }
    if scale <= 0 {
      whole, frac := digits + Zeros(-scale), "";
      NumOfConcat(digits, Zeros(-scale));
      NumOfZeros(-scale);
      assert whole + frac == whole;
      assert digits + Zeros(0) == digits;
    } else {
      var d := PadLeft(digits, scale + 1);
      whole, frac := d[..|d| - scale], d[|d| - scale..];
      assert whole + frac == d;
      DigitSlices(d, |d| - scale);
      if |digits| <= scale {
        NumOfConcat(Zeros(scale + 1 - |digits|), digits);
        NumOfZeros(scale + 1 - |digits|);
      }
    }
  }

  /** Reading back what was printed: exactly the value, unless the scale is negative. */
  lemma ParseFormat(u: int, scale: int)
    ensures Parse(Format(u, scale), scale)
         == Some(Dec(u * Pow10(if scale < 0 then -scale else 0), scale))
  {
    hide NumOf, Pow10, Format, Parse, Abs;
    var whole, frac := FormatShape(u, scale);
    var sign := SignText(u < 0);
    ParseTruncates("", sign, whole, scale > 0, frac, "", scale);
    assert "" + (sign + Body(whole, scale > 0, frac)) + "" == Format(u, scale);
    ExactScale(whole + frac, scale, |frac|);
    SignTimes(u, Pow10(if scale < 0 then -scale else 0));
  }

  lemma SignTimes(u: int, p: int)
    ensures (if u < 0 then -1 else 1) * (Abs(u) * p) == u * p
  {
  }

  lemma ExactScale(digits: string, scale: int, decimals: nat)
    requires AllDigits(digits) && decimals == if scale < 0 then 0 else scale
    ensures ScaledDown(digits, scale, decimals) == NumOf(digits)
  {
    MulDiv(NumOf(digits), Pow10(decimals), 1);
  }

  lemma Pow10Grows(k: nat)
    requires k > 0
    ensures Pow10(k) >= 10
  {
  }

  /** parseDecimal undoes formatDecimal exactly when the scale is not negative or the value is zero. */
  lemma RoundTripIff(u: int, scale: int)
    ensures Parse(Format(u, scale), scale) == Some(Dec(u, scale)) <==> (scale >= 0 || u == 0)
  {
    hide Parse, Format, Pow10;
    ParseFormat(u, scale);
    PowZero();
    if scale < 0 {
      Pow10Grows(-scale);
      MulMonotone(Abs(u), 10, Pow10(-scale));
      SignTimes(u, Pow10(-scale));
    }
  }

  /** The int64 path gives what parsing that integer's text gives, for every scale. */
  lemma IntPathAgrees(v: int, scale: int)
    ensures Parse(IntText(v), scale) == Some(Dec(ScaleUnscaled(v, scale), scale))
  {
    hide NumOf, Pow10, Parse, DigitsOf, Abs, IsDigit;
    var sign, digits := SignText(v < 0), DigitsOf(Abs(v));
    NumOfDigits(Abs(v));
    ParseTruncates("", sign, digits, false, "", "", scale);
    assert "" + (sign + Body(digits, false, "")) + "" == IntText(v);
    assert digits + "" == digits;
    PowZero();
    SignTimes(v, Pow10(if scale < 0 then 0 else scale));
  }
}
