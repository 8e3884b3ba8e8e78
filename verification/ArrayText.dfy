/** array.go: the text form of a SQL array, printed and parsed. */
module ArrayText {
  import opened Bytes
  import opened Decimal
  import opened Values

  /**
   * What the Go library decides: which characters print as themselves inside quotes, and the text
   * of doubles, times and other values.
   */
  datatype Texts = Texts(
    printable: char -> bool, doubleText: int -> string, timeText: Value -> string, sprint: Value -> string)

  /** An element of the parsed text. */
  datatype Elem = Elem(raw: string, quoted: bool, isNull: bool)

  const NULL_TOKEN := "NULL"

  // ----- hexadecimal digits

  function HexChar(d: int): (ch: char)
    requires 0 <= d < 16
  {
    "0123456789abcdef"[d]
  }

  function HexVal(ch: char): (d: Option<int>)
    ensures d.Some? ==> 0 <= d.value < 16
  {
    if '0' <= ch <= '9' then Some(ch as int - '0' as int)
    else if 'a' <= ch <= 'f' then Some(ch as int - 'a' as int + 10)
    else if 'A' <= ch <= 'F' then Some(ch as int - 'A' as int + 10)
    else None
  }

  /** The low `k` hexadecimal digits of a number. */
  function HexText(n: nat, k: nat): (s: string)
    ensures |s| == k
    ensures forall ch | ch in s :: HexVal(ch).Some?
    ensures forall ch | ch in s :: '0' <= ch <= '9' || 'a' <= ch <= 'f'
    decreases k
  {
    if k == 0 then "" else HexText(n / 16, k - 1) + [HexChar(n % 16)]
  }

  function ParseHex(s: string): Option<nat> {
    if s == "" then Some(0)
    else
      match (ParseHex(s[..|s| - 1]), HexVal(s[|s| - 1]))
      case (Some(n), Some(d)) => Some(n * 16 + d)
      case _ => None
  }

  /** hex.EncodeToString. */
  function HexBytes(b: seq<byte>): string {
    if b == [] then "" else HexText(b[0], 2) + HexBytes(b[1..])
  }

  // ----- quoting

  function ShortEscape(ch: char): Option<char> {
    match ch as int
    case 7 => Some('a')
    case 8 => Some('b')
    case 12 => Some('f')
    case 10 => Some('n')
    case 13 => Some('r')
    case 9 => Some('t')
    case 11 => Some('v')
    case _ => None
  }

  function ShortUnescape(ch: char): Option<char> {
    match ch
    case 'a' => Some(7 as char)
    case 'b' => Some(8 as char)
    case 'f' => Some(12 as char)
    case 'n' => Some(10 as char)
    case 'r' => Some(13 as char)
    case 't' => Some(9 as char)
    case 'v' => Some(11 as char)
    case '\\' => Some('\\')
    case '\"' => Some('\"')
    case _ => None
  }

  /** One character of strconv.Quote. */
  function Escape(x: Texts, ch: char): (s: string)
    ensures s != ""
  {
    if ch == '\"' || ch == '\\' then ['\\', ch]
    else if x.printable(ch) then [ch]
    else if ShortEscape(ch).Some? then ['\\', ShortEscape(ch).value]
    else if ch < ' ' || ch as int == 0x7F then ['\\', 'x'] + HexText(ch as int, 2)
    else if ch as int < 0x1_0000 then ['\\', 'u'] + HexText(ch as int, 4)
    else ['\\', 'U'] + HexText(ch as int, 8)
  }

  function EscapeAll(x: Texts, s: string): string {
    if s == "" then "" else Escape(x, s[0]) + EscapeAll(x, s[1..])
  }

  /** strconv.Quote. */
  function Quote(x: Texts, s: string): string {
    ['\"'] + (EscapeAll(x, s) + ['\"'])
  }

  /** A numeric escape of `k` digits after the backslash and its letter. */
  function NumericEscape(s: string, k: nat): (r: Option<(char, nat)>)
    ensures r.Some? ==> 1 <= r.value.1 <= |s|
  {
    if |s| < k + 2 then None
    else
      match ParseHex(s[2..k + 2])
      case None => None
      case Some(n) =>
        if k == 2 && n >= 0x80 then None
        else if n < 0xD800 || 0xE000 <= n < 0x11_0000 then Some((n as char, k + 2))
        else None
  }

  /** strconv.UnquoteChar between double quotes: the character and the length of its text. */
  function Unescape(s: string): (r: Option<(char, nat)>)
    requires s != ""
    ensures r.Some? ==> 1 <= r.value.1 <= |s|
  {
    if s[0] == '\"' || s[0] == '\n' then None
    else if s[0] != '\\' then Some((s[0], 1))
    else if |s| < 2 then None
    else if s[1] == 'x' then NumericEscape(s, 2)
    else if s[1] == 'u' then NumericEscape(s, 4)
    else if s[1] == 'U' then NumericEscape(s, 8)
    else
      match ShortUnescape(s[1])
      case None => None
      case Some(ch) => Some((ch, 2))
  }

  function UnescapeAll(s: string): Option<string> {
    if s == "" then Some("")
    else
      match Unescape(s)
      case None => None
      case Some((ch, n)) =>
        match UnescapeAll(s[n..])
        case None => None
        case Some(rest) => Some([ch] + rest)
  }

  /** strconv.Unquote of a text between two double quotes. */
  function Unquote(s: string): Option<string> {
    if |s| < 2 || s[0] != '\"' || s[|s| - 1] != '\"' then None else UnescapeAll(s[1..|s| - 1])
  }

  // ----- printing

  /** encodeArrayElement and, for nested arrays, encodeArrayText. */
  function Render(x: Texts, v: Value): string
    decreases v, 2
  {
    match v
    case Null => NULL_TOKEN
    case Str(s) => Quote(x, s)
    case Int(i) => IntText(i)
    case Double(bits) => x.doubleText(bits)
    case Bool(b) => if b then "true" else "false"
    case Raw(bytes) => HexBytes(bytes)
    case Time(_, _, _) => Quote(x, x.timeText(v))
    case Arr(vs, _) => Encode(x, vs)
    case _ => Quote(x, x.sprint(v))
  }

  /** strings.Join with commas. */
  function Join(parts: seq<string>): string {
    if parts == [] then ""
    else if |parts| == 1 then parts[0]
    else parts[0] + ("," + Join(parts[1..]))
  }

  function RenderAll(x: Texts, vs: seq<Value>): (parts: seq<string>)
    ensures |parts| == |vs|
    decreases vs, 0
  {
    seq(|vs|, i requires 0 <= i < |vs| => Render(x, vs[i]))
  }

  /** encodeArrayText. */
  function Encode(x: Texts, vs: seq<Value>): string
    decreases vs, 1
  {
    "[" + (Join(RenderAll(x, vs)) + "]")
  }

  // ----- parsing

  function SkipBlanks(s: string): (r: string)
    ensures |r| <= |s|
  {
    if s != "" && (s[0] == ' ' || s[0] == '\t') then SkipBlanks(s[1..]) else s
  }

  /** The index of the closing quote from `j` on, or one past the end when there is none. */
  function ClosingQuote(s: string, j: nat): (k: nat)
    ensures k >= j
    ensures k < |s| ==> s[k] == '\"'
    decreases |s| - j
  {
    if j >= |s| then j
    else if s[j] == '\\' then ClosingQuote(s, j + 2)
    else if s[j] == '\"' then j
    else ClosingQuote(s, j + 1)
  }

  /** What follows the next comma. */
  function AfterComma(s: string): (r: string)
    ensures |r| <= |s|
  {
    var k := IndexOf(s, ',');
    if k < |s| then s[k + 1..] else ""
  }

  /** An element without quotes. */
  function BareElem(token: string): Elem {
    if TrimSpace(token) == NULL_TOKEN then Elem("", false, true) else Elem(TrimSpace(token), false, false)
  }

  /** The loop of parseArrayElements on what is left of the text. */
  function Elems(text: string): Option<seq<Elem>>
    decreases |text|
  {
    if text == "" then Some([])
    else
      var s := SkipBlanks(text);
      if s != "" && s[0] == '\"' then
        var j := ClosingQuote(s, 1);
        if j >= |s| then None
        else
          match (Unquote(s[..j + 1]), Elems(AfterComma(s[j + 1..])))
          case (Some(raw), Some(rest)) => Some([Elem(raw, true, false)] + rest)
          case _ => None
      else
        var k := IndexOf(s, ',');
        match Elems(if k < |s| then s[k + 1..] else "")
        case None => None
        case Some(rest) => Some([BareElem(s[..k])] + rest)
  }

  /** parseArrayElements. */
  function ParseArray(text: string): Option<seq<Elem>> {
    var s := TrimSpace(text);
    if |s| < 2 || s[0] != '[' || s[|s| - 1] != ']' then None
    else
      var inner := s[1..|s| - 1];
      if TrimSpace(inner) == "" then Some([]) else Elems(inner)
  }

  method ParseArrayElements(text: string) returns (out: Option<seq<Elem>>)
    ensures out == ParseArray(text)
  {
    hide TrimSpace, Elems;
    var t := TrimSpace(text);
    if |t| < 2 || t[0] != '[' || t[|t| - 1] != ']' {
      return None;
    }
    var s := t[1..|t| - 1];
    if TrimSpace(s) == "" {
      return Some([]);
    }
    var elems: seq<Elem> := [];
    var i := 0;
    PrefixNone(Elems(s));
    assert s[0..] == s;
    while i < |s|
      invariant i <= |s|
      invariant Elems(s) == Prefixed(elems, Elems(s[i..]))
    {
      var e, next := ParseElement(s, i);
      if e.None? {
        return None;
      }
      PrefixMore(elems, e.value, Elems(s[next..]));
      elems := elems + [e.value];
      i := next;
    }
    assert s[i..] == "";
    NothingLeft(elems);
    out := Some(elems);
  }

  lemma NothingLeft(elems: seq<Elem>)
    ensures Prefixed(elems, Elems("")) == Some(elems)
  {
    assert elems + [] == elems;
  }

  /** One round of the loop of parseArrayElements: the element at `i` and where the next one starts. */
  method ParseElement(s: string, i: nat) returns (e: Option<Elem>, next: nat)
    requires i < |s|
    ensures i < next <= |s|
    ensures Elems(s[i..]) == if e.None? then None else Prefixed([e.value], Elems(s[next..]))
  {
    hide Unquote, BareElem, AfterComma, ClosingQuote, IndexOf;
    ghost var text := s[i..];
    var k := SkipBlanksFrom(s, i);
    if k < |s| && s[k] == '\"' {
      var j := ScanQuoted(s, k);
      if j >= |s| {
        return None, |s|;
      }
      assert s[k..][..j + 1 - k] == s[k..j + 1] && s[k..][j + 1 - k..] == s[j + 1..];
      next := SkipPastComma(s, j + 1);
      var raw := Unquote(s[k..j + 1]);
      if raw.None? {
        return None, |s|;
      }
      return Some(Elem(raw.value, true, false)), next;
    }
    var j := IndexOf(s[k..], ',');
    next := if k + j < |s| then k + j + 1 else |s|;
    assert s[next..] == if j < |s[k..]| then s[k..][j + 1..] else "";
    return Some(BareElem(s[k..][..j])), next;
  }

  function Prefixed(elems: seq<Elem>, rest: Option<seq<Elem>>): Option<seq<Elem>> {
    match rest
    case None => None
    case Some(more) => Some(elems + more)
  }

  lemma PrefixNone(rest: Option<seq<Elem>>)
    ensures Prefixed([], rest) == rest
  {
    assert rest.Some? ==> [] + rest.value == rest.value;
  }

  lemma PrefixMore(elems: seq<Elem>, e: Elem, rest: Option<seq<Elem>>)
    ensures Prefixed(elems, Prefixed([e], rest)) == Prefixed(elems + [e], rest)
  {
    if rest.Some? {
      assert elems + ([e] + rest.value) == (elems + [e]) + rest.value;
    }
  }

  method SkipBlanksFrom(s: string, start: nat) returns (i: nat)
    requires start <= |s|
    ensures start <= i <= |s| && s[i..] == SkipBlanks(s[start..])
  {
    i := start;
    while i < |s| && (s[i] == ' ' || s[i] == '\t')
      invariant start <= i <= |s| && SkipBlanks(s[i..]) == SkipBlanks(s[start..])
    {
      assert s[i..][1..] == s[i + 1..];
      i := i + 1;
    }
  }

  /** The search for the closing quote of the element that opens at `i`. */
  method ScanQuoted(s: string, i: nat) returns (j: nat)
    requires i < |s|
    ensures i < j
    ensures j == i + ClosingQuote(s[i..], 1)
  {
    j := i + 1;
    while j < |s|
      invariant i < j
      invariant ClosingQuote(s[i..], j - i) == ClosingQuote(s[i..], 1)
      decreases |s| - j
    {
      if s[j] == '\\' {
        j := j + 2;
        continue;
      }
      if s[j] == '\"' {
        break;
      }
      j := j + 1;
    }
  }

  lemma AfterCommaStep(t: string)
    requires t != "" && t[0] != ','
    ensures AfterComma(t) == AfterComma(t[1..])
  {
  }

  method SkipPastComma(s: string, start: nat) returns (i: nat)
    requires start <= |s|
    ensures start <= i <= |s| && s[i..] == AfterComma(s[start..])
  {
    hide AfterComma;
    i := start;
    while i < |s| && s[i] != ','
      invariant start <= i <= |s| && AfterComma(s[i..]) == AfterComma(s[start..])
    {
      assert s[i..][1..] == s[i + 1..];
      AfterCommaStep(s[i..]);
      i := i + 1;
    }
    AfterCommaEnds(s, i);
    if i < |s| {
      i := i + 1;
    }
  }

  lemma AfterCommaEnds(s: string, i: nat)
    requires i <= |s|
    ensures i < |s| && s[i] == ',' ==> AfterComma(s[i..]) == s[i + 1..]
    ensures i == |s| ==> AfterComma(s[i..]) == ""
  {
  }
}
