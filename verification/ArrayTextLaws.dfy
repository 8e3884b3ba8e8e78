/** parseArrayElements undoes encodeArrayText, except for an empty last element. */
module ArrayTextLaws {
  import opened Bytes
  import opened Decimal
  import opened Values
  import opened ArrayText

  // ----- hexadecimal escapes

  lemma {:induction false} HexRoundTrip(n: nat, k: nat)
    requires n < Pow16(k)
    ensures ParseHex(HexText(n, k)) == Some(n)
    decreases k
  {
    hide HexVal, HexChar;
    if k > 0 {
      HexRoundTrip(n / 16, k - 1);
      var s := HexText(n, k);
      assert s[..k - 1] == HexText(n / 16, k - 1);
      HexDigitBack(n % 16);
    }
  }

  lemma HexDigitBack(d: int)
    requires 0 <= d < 16
    ensures HexVal(HexChar(d)) == Some(d)
  {
  }

  /** Binary content is shown as two lower-case hexadecimal digits for each byte. */
  lemma {:induction false} HexBack(b: seq<byte>)
    ensures |HexBytes(b)| == 2 * |b|
    ensures forall ch | ch in HexBytes(b) :: '0' <= ch <= '9' || 'a' <= ch <= 'f'
    ensures forall i | 0 <= i < |b| :: ParseHex(HexBytes(b)[2 * i..2 * i + 2]) == Some(b[i])
  {
    hide HexText, ParseHex;
    if b != [] {
      var head, tail := HexText(b[0], 2), HexBytes(b[1..]);
      assert Pow16(2) == 0x100;
      HexRoundTrip(b[0], 2);
      HexBack(b[1..]);
      forall i | 0 <= i < |b| ensures ParseHex((head + tail)[2 * i..2 * i + 2]) == Some(b[i]) {
        if i == 0 {
          assert (head + tail)[0..2] == head;
        } else {
          assert (head + tail)[2 * i..2 * i + 2] == tail[2 * (i - 1)..2 * (i - 1) + 2];
        }
      }
    }
  }

  function Pow16(k: nat): (p: int)
    ensures p > 0
  {
    if k == 0 then 1 else 16 * Pow16(k - 1)
  }

  lemma Pow16Values()
    ensures Pow16(2) == 0x100 && Pow16(4) == 0x1_0000 && Pow16(8) == 0x1_0000_0000
  {
  }

  // ----- one quoted character

  /** No newline prints as itself inside quotes. */
  predicate QuoteSafe(x: Texts) {
    !x.printable('\n')
  }

  lemma NumericBack(letter: char, n: nat, k: nat, rest: string)
    requires k > 0 && n < Pow16(k) && (n < 0xD800 || 0xE000 <= n < 0x11_0000) && (k == 2 ==> n < 0x80)
    ensures NumericEscape(['\\', letter] + HexText(n, k) + rest, k) == Some((n as char, k + 2))
  {
    HexRoundTrip(n, k);
    var s := ['\\', letter] + HexText(n, k) + rest;
    assert s[2..k + 2] == HexText(n, k);
  }

  /** The escaped form of a character is read back as that character, whatever follows. */
  lemma EscapeBack(x: Texts, ch: char, rest: string)
    requires QuoteSafe(x)
    ensures Unescape(Escape(x, ch) + rest) == Some((ch, |Escape(x, ch)|))
  {
    Pow16Values();
    hide HexText, ParseHex, NumericEscape, Pow16;
    var s := Escape(x, ch) + rest;
    if ch == '\"' || ch == '\\' || x.printable(ch) || ShortEscape(ch).Some? {
    } else if ch < ' ' || ch as int == 0x7F {
      NumericBack('x', ch as int, 2, rest);
    } else if ch as int < 0x1_0000 {
      NumericBack('u', ch as int, 4, rest);
    } else {
      NumericBack('U', ch as int, 8, rest);
    }
  }

  lemma {:induction false} EscapeAllBack(x: Texts, s: string)
    requires QuoteSafe(x)
    ensures UnescapeAll(EscapeAll(x, s)) == Some(s)
  {
    hide Escape, Unescape;
    if s != "" {
      var head, tail := Escape(x, s[0]), EscapeAll(x, s[1..]);
      EscapeBack(x, s[0], tail);
      assert (head + tail)[|head|..] == tail;
      EscapeAllBack(x, s[1..]);
      assert s == [s[0]] + s[1..];
    }
  }

  lemma QuoteBack(x: Texts, s: string)
    requires QuoteSafe(x)
    ensures Unquote(Quote(x, s)) == Some(s)
  {
    hide EscapeAll, UnescapeAll;
    assert Quote(x, s)[1..|Quote(x, s)| - 1] == EscapeAll(x, s);
    EscapeAllBack(x, s);
  }

  // ----- finding the closing quote

  /** Characters that neither escape nor close. */
  lemma {:induction false} PlainSkipped(s: string, j: nat, n: nat)
    requires j + n <= |s|
    requires forall i | j <= i < j + n :: s[i] != '\\' && s[i] != '\"'
    ensures ClosingQuote(s, j) == ClosingQuote(s, j + n)
    decreases n
  {
    if n > 0 {
      PlainSkipped(s, j + 1, n - 1);
    }
  }

  /** The scan steps over an escaped character as a whole. */
  lemma EscapeSkipped(x: Texts, ch: char, s: string, j: nat)
    requires j + |Escape(x, ch)| <= |s| && s[j..j + |Escape(x, ch)|] == Escape(x, ch)
    ensures ClosingQuote(s, j) == ClosingQuote(s, j + |Escape(x, ch)|)
  {
    EscapeChars(x, ch);
    hide Escape;
    ShapeSkipped(Escape(x, ch), s, j);
  }

  lemma ShapeSkipped(e: string, s: string, j: nat)
    requires j + |e| <= |s| && s[j..j + |e|] == e && e != ""
    requires if e[0] == '\\' then |e| >= 2 && forall i | 2 <= i < |e| :: e[i] != '\\' && e[i] != '\"'
             else |e| == 1 && e[0] != '\"'
    ensures ClosingQuote(s, j) == ClosingQuote(s, j + |e|)
  {
    assert s[j..j + |e|][0] == s[j];
    if e[0] == '\\' {
      forall i | j + 2 <= i < j + |e| ensures s[i] == e[i - j] {
        assert s[j..j + |e|][i - j] == s[i];
      }
      PlainSkipped(s, j + 2, |e| - 2);
    }
  }

  lemma EscapeChars(x: Texts, ch: char)
    ensures var e := Escape(x, ch);
            if e[0] == '\\' then |e| >= 2 && forall i | 2 <= i < |e| :: e[i] != '\\' && e[i] != '\"'
            else |e| == 1 && e[0] != '\"'
  {
    var e := Escape(x, ch);
    forall i | 2 <= i < |e|
      ensures e[i] != '\\' && e[i] != '\"'
    {
      assert HexVal(e[i]).Some?;
    }
  }

  lemma {:induction false} BodySkipped(x: Texts, t: string, s: string, j: nat)
    requires j + |EscapeAll(x, t)| < |s| && s[j..j + |EscapeAll(x, t)|] == EscapeAll(x, t)
    requires s[j + |EscapeAll(x, t)|] == '\"'
    ensures ClosingQuote(s, j) == j + |EscapeAll(x, t)|
    decreases |t|
  {
    hide Escape;
    if t != "" {
      var head, tail := Escape(x, t[0]), EscapeAll(x, t[1..]);
      assert s[j..j + |head|] == (head + tail)[..|head|] == head;
      assert s[j + |head|..j + |head| + |tail|] == (head + tail)[|head|..] == tail;
      EscapeSkipped(x, t[0], s, j);
      BodySkipped(x, t[1..], s, j + |head|);
    }
  }

  lemma QuoteCloses(x: Texts, t: string, rest: string)
    ensures ClosingQuote(Quote(x, t) + rest, 1) == |Quote(x, t)| - 1
  {
    hide EscapeAll;
    var s := Quote(x, t) + rest;
    assert s[1..1 + |EscapeAll(x, t)|] == EscapeAll(x, t);
    BodySkipped(x, t, s, 1);
  }

  // ----- elements

  /** A token that can stand without quotes. */
  predicate Bare(s: string) {
    && (forall i | 0 <= i < |s| :: s[i] != ',' && !IsSpace(s[i]))
    && (s != "" ==> s[0] != '\"')
  }

  /** The Go texts of doubles are bare, not empty, and not the NULL token. */
  ghost predicate TextsSafe(x: Texts) {
    QuoteSafe(x) && forall bits: int :: var t := x.doubleText(bits); Bare(t) && t != "" && t != NULL_TOKEN
  }

  /** What an element must come back as. */
  function Expected(x: Texts, v: Value): Elem
    requires !v.Arr?
  {
    match v
    case Null => Elem("", false, true)
    case Str(s) => Elem(s, true, false)
    case Int(i) => Elem(IntText(i), false, false)
    case Double(bits) => Elem(x.doubleText(bits), false, false)
    case Bool(b) => Elem(if b then "true" else "false", false, false)
    case Raw(bytes) => Elem(HexBytes(bytes), false, false)
    case Time(_, _, _) => Elem(x.timeText(v), true, false)
    case _ => Elem(x.sprint(v), true, false)
  }

  function ExpectedAll(x: Texts, vs: seq<Value>): (es: seq<Elem>)
    requires forall v | v in vs :: !v.Arr?
    ensures |es| == |vs|
  {
    seq(|vs|, i requires 0 <= i < |vs| => Expected(x, vs[i]))
  }

  /** A rendered element is either a quoted text or a bare token, and which one is known. */
  ghost predicate Renders(x: Texts, part: string, e: Elem) {
    if e.quoted then part == Quote(x, e.raw) && !e.isNull
    else Bare(part) && BareElem(part) == e
  }

  lemma BareTrim(s: string)
    requires forall i | 0 <= i < |s| :: !IsSpace(s[i])
    ensures TrimSpace(s) == s
  {
  }

  lemma DigitsBare(s: string)
    requires AllDigits(s)
    ensures Bare(s) && Bare("-" + s)
  {
  }

  lemma {:induction false} HexBare(b: seq<byte>)
    ensures Bare(HexBytes(b))
    ensures forall ch | ch in HexBytes(b) :: HexVal(ch).Some?
  {
    if b != [] {
      HexBare(b[1..]);
      forall ch | ch in HexBytes(b) ensures HexVal(ch).Some? {
      }
    }
    HexCharsBare(HexBytes(b));
  }

  lemma HexCharsBare(s: string)
    requires forall ch | ch in s :: HexVal(ch).Some?
    ensures Bare(s) && s != NULL_TOKEN
  {
    forall i | 0 <= i < |s| ensures s[i] != ',' && !IsSpace(s[i]) && s[i] != '\"' {
      assert HexVal(s[i]).Some?;
    }
    assert s != "" ==> HexVal(s[0]).Some?;
  }

  lemma RenderShape(x: Texts, v: Value)
    requires !v.Arr? && TextsSafe(x)
    ensures Renders(x, Render(x, v), Expected(x, v))
  {
    var part := Render(x, v);
    match v {
      case Int(i) =>
        DigitsBare(DigitsOf(Abs(i)));
        assert "" + DigitsOf(Abs(i)) == DigitsOf(Abs(i));
        assert part[0] != 'N';
        BareTrim(part);
      case Double(bits) => BareTrim(part);
      case Bool(b) => BareTrim(part);
      case Raw(bytes) =>
        HexBare(bytes);
        HexCharsBare(part);
        BareTrim(part);
      case Null => BareTrim(part);
      case _ =>
    }
  }

  /** Reading one element that is followed by a comma and more text. */
  lemma ElemThenMore(x: Texts, part: string, e: Elem, rest: string)
    requires QuoteSafe(x) && Renders(x, part, e)
    ensures Elems(part + ("," + rest)) == Prefixed([e], Elems(rest))
  {
    var text := part + ("," + rest);
    if e.quoted {
      QuotedElem(x, e.raw, "," + rest);
      assert AfterComma("," + rest) == rest by { CommaFirst(rest); }
    } else {
      BareUpTo(part, "," + rest);
      assert text[|part| + 1..] == rest && text[..|part|] == part;
    }
  }

  lemma CommaFirst(rest: string)
    ensures AfterComma("," + rest) == rest
  {
  }

  /** Reading the last element, when its text is not empty. */
  lemma LastElem(x: Texts, part: string, e: Elem)
    requires QuoteSafe(x) && Renders(x, part, e) && part != ""
    ensures Elems(part) == Some([e])
  {
    assert part + "" == part;
    if e.quoted {
      QuotedElem(x, e.raw, "");
      assert AfterComma("") == "";
    } else {
      BareUpTo(part, "");
      assert part[..|part|] == part;
    }
    assert [e] + [] == [e];
  }

  lemma QuotedElem(x: Texts, raw: string, rest: string)
    requires QuoteSafe(x)
    ensures Elems(Quote(x, raw) + rest) == Prefixed([Elem(raw, true, false)], Elems(AfterComma(rest)))
  {
    hide EscapeAll, AfterComma, ClosingQuote, Unquote;
    var q := Quote(x, raw);
    var s := q + rest;
    QuoteCloses(x, raw, rest);
    QuoteBack(x, raw);
    assert SkipBlanks(s) == s;
    assert s[..|q|] == q && s[|q|..] == rest;
  }

  lemma BareUpTo(part: string, rest: string)
    requires Bare(part) && (rest == "" || rest[0] == ',')
    ensures SkipBlanks(part + rest) == part + rest
    ensures part + rest != "" ==> (part + rest)[0] != '\"'
    ensures IndexOf(part + rest, ',') == |part|
  {
    IndexOfFirst(part, ',', rest);
    assert IsSpace(' ') && IsSpace('\t');
    if part != "" {
      assert (part + rest)[0] == part[0];
    }
  }

  // ----- whole arrays

  /** The elements that survive: all, or all but an empty last one. */
  function Kept(parts: seq<string>, es: seq<Elem>): seq<Elem>
    requires |parts| == |es| && parts != []
  {
    if parts[|parts| - 1] == "" then es[..|es| - 1] else es
  }

  lemma KeptStep(parts: seq<string>, es: seq<Elem>)
    requires |parts| == |es| > 1
    ensures [es[0]] + Kept(parts[1..], es[1..]) == Kept(parts, es)
  {
  }

  lemma {:induction false} ElemsOfJoin(x: Texts, parts: seq<string>, es: seq<Elem>)
    requires QuoteSafe(x) && |parts| == |es| && parts != []
    requires forall i | 0 <= i < |parts| :: Renders(x, parts[i], es[i])
    ensures Elems(Join(parts)) == Some(Kept(parts, es))
    decreases |parts|
  {
    hide Elems, Renders, QuoteSafe;
    if |parts| == 1 {
      assert es == [es[0]] && es[..0] == [];
      if parts[0] == "" {
        NoElems();
      } else {
        LastElem(x, parts[0], es[0]);
      }
    } else {
      hide Kept;
      ElemThenMore(x, parts[0], es[0], Join(parts[1..]));
      ElemsOfJoin(x, parts[1..], es[1..]);
      KeptStep(parts, es);
    }
  }

  lemma NoElems()
    ensures Elems("") == Some([])
  {
  }

  /** The text between the brackets is blank only when it is empty. */
  lemma JoinNotBlank(x: Texts, parts: seq<string>, es: seq<Elem>)
    requires |parts| == |es| && parts != []
    requires forall i | 0 <= i < |parts| :: Renders(x, parts[i], es[i])
    ensures Join(parts) == "" <==> parts == [""]
    ensures Join(parts) != "" ==> !IsSpace(Join(parts)[0])
  {
  }

  lemma TrimNotBlank(s: string)
    requires s != "" && !IsSpace(s[0])
    ensures TrimSpace(s) != ""
  {
    TrimRightKeepsFirst(s);
  }

  lemma {:induction false} TrimRightKeepsFirst(s: string)
    requires s != "" && !IsSpace(s[0])
    ensures TrimRight(s) != ""
  {
    hide IsSpace;
    if IsSpace(s[|s| - 1]) {
      TrimRightKeepsFirst(s[..|s| - 1]);
    }
  }

  lemma Brackets(inner: string)
    ensures ParseArray("[" + (inner + "]")) == if TrimSpace(inner) == "" then Some([]) else Elems(inner)
  {
    var s := "[" + (inner + "]");
    hide Elems;
    TrimSpaceCore("", s, "");
    assert "" + s + "" == s;
    assert s[1..|s| - 1] == inner;
  }

  /** What is parsed: one element per value, without the last one when its text is empty. */
  lemma ParseEncode(x: Texts, vs: seq<Value>)
    requires TextsSafe(x) && forall v | v in vs :: !v.Arr?
    ensures ParseArray(Encode(x, vs))
         == Some(if vs != [] && Render(x, vs[|vs| - 1]) == "" then ExpectedAll(x, vs)[..|vs| - 1] else ExpectedAll(x, vs))
  {
    hide Render, Expected, Elems, TrimSpace, ParseArray, TextsSafe;
    var parts, es := RenderAll(x, vs), ExpectedAll(x, vs);
    assert QuoteSafe(x) by { SafeQuotes(x); }
    Brackets(Join(parts));
    if vs == [] {
      assert TrimSpace("") == "" by { TrimEmpty(); }
    } else {
      forall i | 0 <= i < |parts| ensures Renders(x, parts[i], es[i]) {
        assert vs[i] in vs;
        RenderShape(x, vs[i]);
      }
      hide Renders;
      ElemsOfJoin(x, parts, es);
      JoinNotBlank(x, parts, es);
      if parts == [""] {
        assert TrimSpace("") == "" by { TrimEmpty(); }
      } else {
        TrimNotBlank(Join(parts));
      }
    }
  }

  lemma SafeQuotes(x: Texts)
    requires TextsSafe(x)
    ensures QuoteSafe(x)
  {
  }

  lemma TrimEmpty()
    ensures TrimSpace("") == ""
  {
  }

  /** The only element that renders as empty text is an empty binary value. */
  lemma EmptyRender(x: Texts, v: Value)
    requires TextsSafe(x) && !v.Arr?
    ensures Render(x, v) == "" <==> v == Raw([])
  {
  }

  /**
   * Parsing undoes printing, with the right content and marks for every element, commas, quotes,
   * backslashes, brackets and the text NULL included, if and only if the last element is not an
   * empty binary value.
   */
  lemma RoundTripIff(x: Texts, vs: seq<Value>)
    requires TextsSafe(x) && forall v | v in vs :: !v.Arr?
    ensures ParseArray(Encode(x, vs)) == Some(ExpectedAll(x, vs)) <==> vs == [] || vs[|vs| - 1] != Raw([])
  {
    hide Render, Expected, ParseArray, Encode, TextsSafe;
    ParseEncode(x, vs);
    if vs != [] {
      assert vs[|vs| - 1] in vs;
      EmptyRender(x, vs[|vs| - 1]);
    }
  }
}
