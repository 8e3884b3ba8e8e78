/**
 * internal/proto: Java's modified UTF-8 (section 4.4.7 of the Java Virtual Machine
 * Specification). A Go string is the sequence of Unicode scalar values `range` yields, which is
 * what a Dafny string is. Masks and shifts of non-negative numbers are written as division and
 * remainder.
 */
module ModifiedUtf8 {
  import opened Bytes

  /** One UTF-16 unit of at least 0x800 as three bytes. */
  function ThreeBytes(u: int): (bs: seq<byte>)
    requires 0x800 <= u <= 0xFFFF
    ensures |bs| == 3
  {
    [0xE0 + u / 0x1000, 0x80 + u / 0x40 % 0x40, 0x80 + u % 0x40]
  }

  /** One iteration of the loop of encodeModifiedUTF8. */
  function EncodeChar(ch: char): (bs: seq<byte>)
  {
    var r := ch as int;
    if r == 0 then [0xC0, 0x80]
    else if r <= 0x7F then [r]
    else if r <= 0x7FF then [0xC0 + r / 0x40, 0x80 + r % 0x40]
    else if r <= 0xFFFF then ThreeBytes(r)
    else
      var s := r - 0x10000;
      ThreeBytes(0xD800 + s / 0x400) + ThreeBytes(0xDC00 + s % 0x400)
  }

  function Encode(s: string): (bs: seq<byte>) {
    if s == [] then [] else EncodeChar(s[0]) + Encode(s[1..])
  }

  /** A rune of a `[]rune` turned into text: surrogates and values out of range become U+FFFD. */
  function RuneToChar(r: int): (ch: char)
  {
    if 0 <= r < 0xD800 || 0xE000 <= r < 0x11_0000 then r as char else 0xFFFD as char
  }

  function Unit3(b0: byte, b1: byte, b2: byte): (u: int)
    ensures 0 <= u <= 0xFFFF
  {
    b0 % 0x10 * 0x1000 + b1 % 0x40 * 0x40 + b2 % 0x40
  }

  predicate Leads3(b: byte) { 0xE0 <= b < 0xF0 }

  /** A surrogate pair written as two three-byte groups at the front of `b`. */
  predicate PairAhead(b: seq<byte>) {
    && |b| >= 6 && Leads3(b[0]) && Leads3(b[3])
    && 0xD800 <= Unit3(b[0], b[1], b[2]) <= 0xDBFF
    && 0xDC00 <= Unit3(b[3], b[4], b[5]) <= 0xDFFF
  }

  /** One iteration of the loop of decodeModifiedUTF8: the rune found and the bytes it took. */
  function DecodeRune(b: seq<byte>): (r: (int, nat))
    requires b != []
    ensures 0 < r.1 <= |b|
  {
    var c: int := b[0];
    if c < 0x80 then (c, 1)
    else if 0xC0 <= c < 0xE0 then
      if |b| < 2 then (c, 1) else (c % 0x20 * 0x40 + b[1] % 0x40, 2)
    else if Leads3(c) then
      if |b| < 3 then (c, 1)
      else if PairAhead(b) then
        (0x10000 + (Unit3(b[0], b[1], b[2]) - 0xD800) * 0x400 + (Unit3(b[3], b[4], b[5]) - 0xDC00), 6)
      else (Unit3(b[0], b[1], b[2]), 3)
    else (c, 1)
  }

  function Decode(b: seq<byte>): (s: string)
    ensures |s| <= |b|
  {
    if b == [] then []
    else var (r, n) := DecodeRune(b); [RuneToChar(r)] + Decode(b[n..])
  }

  /** Three bytes 1110xxxx, 10xxxxxx and 10xxxxxx for a UTF-16 unit. */
  predicate ThreePattern(bs: seq<byte>, u: int) {
    && |bs| == 3 && bs[0] / 0x10 == 0xE && bs[1] / 0x40 == 2 && bs[2] / 0x40 == 2
    && u == (bs[0] as int % 0x10) * 0x1000 + (bs[1] as int % 0x40) * 0x40 + bs[2] % 0x40
  }

  /**
   * The table of section 4.4.7: one byte for 1 to 7F, two for 0 and up to 7FF, three up to FFFF, and
   * three for each half of a surrogate pair.
   */
  lemma BytesOf(ch: char)
    ensures var bs, u := EncodeChar(ch), ch as int;
            if 0 < u < 0x80 then bs == [u]
            else if u < 0x800 then
              |bs| == 2 && bs[0] / 0x20 == 6 && bs[1] / 0x40 == 2 && u == (bs[0] as int % 0x20) * 0x40 + bs[1] % 0x40
            else if u < 0x1_0000 then ThreePattern(bs, u)
            else
              && |bs| == 6
              && exists hi, lo ::
                   && ThreePattern(bs[..3], hi) && ThreePattern(bs[3..], lo)
                   && 0xD800 <= hi < 0xDC00 <= lo < 0xE000
                   && 0x1_0000 + (hi - 0xD800) * 0x400 + (lo - 0xDC00) == u
  {
    var u := ch as int;
    if u >= 0x1_0000 {
      var hi, lo := 0xD800 + (u - 0x1_0000) / 0x400, 0xDC00 + (u - 0x1_0000) % 0x400;
      assert EncodeChar(ch)[..3] == ThreeBytes(hi) && EncodeChar(ch)[3..] == ThreeBytes(lo);
      ThreeBytesOf(hi);
      ThreeBytesOf(lo);
    } else if u >= 0x800 {
      ThreeBytesOf(u);
    }
  }

  lemma ThreeBytesOf(u: int)
    requires 0x800 <= u <= 0xFFFF
    ensures ThreePattern(ThreeBytes(u), u)
  {
  }

  /** A byte that cannot start a group, or whose group is cut off, is taken for a character of its own. */
  lemma StrayByte(b: seq<byte>)
    requires b != []
    requires 0x80 <= b[0] < 0xC0 || b[0] >= 0xF0 || (b[0] >= 0xC0 && |b| == 1) || (b[0] >= 0xE0 && |b| == 2)
    ensures Decode(b) == [b[0] as char] + Decode(b[1..])
  {
  }

  /** encodeModifiedUTF8. */
  method EncodeModifiedUTF8(s: string) returns (out: seq<byte>)
    ensures out == Encode(s)
  {
    hide EncodeChar;
    out := [];
    for i := 0 to |s|
      invariant out + Encode(s[i..]) == Encode(s)
    {
      assert s[i..][1..] == s[i + 1..];
      out := out + EncodeChar(s[i]);
    }
  }

  /** The branches of the loop of decodeModifiedUTF8, by index into the whole buffer. */
  method DecodeAt(b: seq<byte>, i: nat) returns (r: int, n: nat)
    requires i < |b|
    ensures (r, n) == DecodeRune(b[i..])
  {
    hide Unit3;
    var c: int := b[i];
    r, n := c, 1;
    if 0xC0 <= c < 0xE0 {
      if i + 1 < |b| {
        r, n := c % 0x20 * 0x40 + b[i + 1] % 0x40, 2;
      }
    } else if Leads3(c) && i + 2 < |b| {
      r, n := Unit3(b[i], b[i + 1], b[i + 2]), 3;
      if 0xD800 <= r <= 0xDBFF && i + 5 < |b| && Leads3(b[i + 3]) {
        var lo := Unit3(b[i + 3], b[i + 4], b[i + 5]);
        if 0xDC00 <= lo <= 0xDFFF {
          r, n := 0x10000 + (r - 0xD800) * 0x400 + (lo - 0xDC00), 6;
        }
      }
    }
  }

  /** decodeModifiedUTF8. */
  method DecodeModifiedUTF8(b: seq<byte>) returns (s: string)
    ensures s == Decode(b)
  {
    hide DecodeRune;
    hide RuneToChar;
    s := [];
    var i := 0;
    while i < |b|
      invariant 0 <= i <= |b|
      invariant s + Decode(b[i..]) == Decode(b)
    {
      var r, n := DecodeAt(b, i);
      assert b[i..][n..] == b[i + n..];
      s := s + [RuneToChar(r)];
      i := i + n;
    }
  }

  /** A three-byte group reads back as the unit it was made from. */
  lemma ThreeBytesUnit(u: int)
    requires 0x800 <= u <= 0xFFFF
    ensures var t := ThreeBytes(u); Leads3(t[0]) && Unit3(t[0], t[1], t[2]) == u
  {
    assert u / 0x40 / 0x40 == u / 0x1000;
  }

  lemma DecodeThree(r: int, rest: seq<byte>)
    requires 0x800 <= r < 0xD800 || 0xE000 <= r <= 0xFFFF
    ensures DecodeRune(ThreeBytes(r) + rest) == (r, 3)
  {
    hide ThreeBytes;
    hide Unit3;
    ThreeBytesUnit(r);
    var t := ThreeBytes(r);
    var b := t + rest;
    assert b[0] == t[0] && b[1] == t[1] && b[2] == t[2];
  }

  lemma DecodePair(hi: int, lo: int, rest: seq<byte>)
    requires 0xD800 <= hi <= 0xDBFF && 0xDC00 <= lo <= 0xDFFF
    ensures DecodeRune(ThreeBytes(hi) + ThreeBytes(lo) + rest)
         == (0x10000 + (hi - 0xD800) * 0x400 + (lo - 0xDC00), 6)
  {
    hide ThreeBytes;
    hide Unit3;
    ThreeBytesUnit(hi);
    ThreeBytesUnit(lo);
    var t, u := ThreeBytes(hi), ThreeBytes(lo);
    var b := t + u + rest;
    assert b[0] == t[0] && b[1] == t[1] && b[2] == t[2];
    assert b[3] == u[0] && b[4] == u[1] && b[5] == u[2];
    assert PairAhead(b);
  }

  /** Whatever follows, the decoder finds the character that was encoded and nothing more. */
  lemma DecodeRuneEncodeChar(ch: char, rest: seq<byte>)
    ensures EncodeChar(ch) != []
    ensures DecodeRune(EncodeChar(ch) + rest) == (ch as int, |EncodeChar(ch)|)
  {
    var r, e := ch as int, EncodeChar(ch);
    if r > 0xFFFF {
      var s := r - 0x10000;
      DecodePair(0xD800 + s / 0x400, 0xDC00 + s % 0x400, rest);
    } else if r > 0x7FF {
      DecodeThree(r, rest);
    } else if r > 0x7F || r == 0 {
      assert e[0] + 0 == 0xC0 + r / 0x40 && e[1] + 0 == 0x80 + r % 0x40;
      assert (e + rest)[0] == e[0] && (e + rest)[1] == e[1];
    }
  }

  /** Decoding undoes encoding, also in front of other bytes. */
  lemma {:induction false} DecodeEncode(s: string, rest: seq<byte>)
    ensures Decode(Encode(s) + rest) == s + Decode(rest)
  {
    hide EncodeChar; hide DecodeRune;
    if s == [] {
      assert Encode(s) + rest == rest;
    } else {
      var head, tail := EncodeChar(s[0]), Encode(s[1..]);
      assert Encode(s) + rest == head + (tail + rest);
      DecodeRuneEncodeChar(s[0], tail + rest);
      assert (head + (tail + rest))[|head|..] == tail + rest;
      DecodeEncode(s[1..], rest);
    }
  }

  lemma DecodeNothing()
    ensures Decode([]) == ""
  {
  }

  lemma RoundTrip(s: string)
    ensures Decode(Encode(s)) == s
  {
    DecodeEncode(s, []);
    assert Encode(s) + [] == Encode(s);
    assert s + Decode([]) == s;
  }

  /** No encoded text holds the byte zero. */
  lemma {:induction false} NoZeroByte(s: string)
    ensures 0 !in Encode(s)
  {
    if s != [] {
      NoZeroByte(s[1..]);
    }
  }

  /** Distinct texts have distinct encodings, and none is a proper prefix of a longer text's rest. */
  lemma Injective(s: string, t: string)
    requires Encode(s) == Encode(t)
    ensures s == t
  {
    RoundTrip(s);
    RoundTrip(t);
  }
}
