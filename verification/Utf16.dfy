/** UTF-16 (sections 2.1 and 2.2 of RFC 2781), as Go's unicode/utf16 encodes and decodes runes. */
module Utf16 {

  type unit = i: int | 0 <= i < 0x1_0000

  function EncodeChar(ch: char): (us: seq<unit>)
    ensures 1 <= |us| <= 2
  {
    var r := ch as int;
    if r < 0x1_0000 then [r]
    else
      var s := r - 0x1_0000;
      [0xD800 + s / 0x400, 0xDC00 + s % 0x400]
  }

  function Encode(s: string): (us: seq<unit>)
    ensures |us| >= |s|
  {
    if s == [] then [] else EncodeChar(s[0]) + Encode(s[1..])
  }

  predicate High(u: unit) { 0xD800 <= u < 0xDC00 }

  predicate Low(u: unit) { 0xDC00 <= u < 0xE000 }

  function Pair(hi: int, lo: int): char
    requires 0xD800 <= hi < 0xDC00 && 0xDC00 <= lo < 0xE000
  {
    (0x1_0000 + (hi - 0xD800) * 0x400 + (lo - 0xDC00)) as char
  }

  /** The rune at the front and the units it takes; a lone surrogate becomes U+FFFD. */
  function DecodeChar(us: seq<unit>): (r: (char, nat))
    requires us != []
    ensures 1 <= r.1 <= |us|
  {
    if !High(us[0]) && !Low(us[0]) then (us[0] as char, 1)
    else if High(us[0]) && |us| > 1 && Low(us[1]) then
      (Pair(us[0], us[1]), 2)
    else (0xFFFD as char, 1)
  }

  function Decode(us: seq<unit>): string {
    if us == [] then [] else var (ch, n) := DecodeChar(us); [ch] + Decode(us[n..])
  }

  /** Table of section 2.1 of RFC 2781: one unit below 0x10000, a surrogate pair of ten bits each above. */
  lemma UnitsOf(ch: char)
    ensures var us := EncodeChar(ch);
            if ch as int < 0x1_0000 then us == [ch as int]
            else
              && |us| == 2 && us[0] / 0x400 == 0x36 && us[1] / 0x400 == 0x37
              && ch as int == 0x1_0000 + 0x400 * (us[0] as int % 0x400) + us[1] % 0x400
  {
  }

  lemma DecodeCharEncodeChar(ch: char, rest: seq<unit>)
    ensures DecodeChar(EncodeChar(ch) + rest) == (ch, |EncodeChar(ch)|)
  {
  }

  lemma {:induction false} RoundTrip(s: string)
    ensures Decode(Encode(s)) == s
  {
    hide EncodeChar, DecodeChar;
    if s != [] {
      DecodeCharEncodeChar(s[0], Encode(s[1..]));
      assert Encode(s)[|EncodeChar(s[0])|..] == Encode(s[1..]);
      RoundTrip(s[1..]);
    }
  }

  lemma {:induction false} EncodeConcat(a: string, b: string)
    ensures Encode(a + b) == Encode(a) + Encode(b)
  {
    hide EncodeChar;
    if a == [] {
      assert a + b == b;
    } else {
      assert (a + b)[1..] == a[1..] + b;
      EncodeConcat(a[1..], b);
    }
  }
}
