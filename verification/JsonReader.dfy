/** A reader of JSON text as RFC 8259 defines it. A number without fraction and exponent is an integer. */
module JsonReader {
  import opened Wrappers
  import opened Json
  import Text

  predicate IsBlank(c: char) { c == ' ' || c == '\t' || c == '\n' || c == '\r' }

  function SkipBlank(s: string): (r: string)
    ensures |r| <= |s|
    ensures s == [] || !IsBlank(s[0]) ==> r == s
  {
    if s != [] && IsBlank(s[0]) then SkipBlank(s[1..]) else s
  }

  // Numbers

  predicate IsDigit(c: char) { '0' <= c <= '9' }

  /** How many digits the text starts with. */
  function DigitCount(s: string): (n: nat)
    ensures n <= |s|
    ensures forall i :: 0 <= i < n ==> IsDigit(s[i])
  {
    if s == [] || !IsDigit(s[0]) then 0 else 1 + DigitCount(s[1..])
  }

  function Power(n: nat): (r: real)
    ensures r > 0.0
  {
    if n == 0 then 1.0 else 10.0 * Power(n - 1)
  }

  function Scaled(x: real, exponent: int): (r: real) {
    if exponent >= 0 then x * Power(exponent) else x / Power(-exponent)
  }

  function ReadFraction(s: string): (r: Option<(Option<real>, string)>)
    ensures r.Some? ==> |r.value.1| <= |s|
  {
    if s == [] || s[0] != '.' then Some((None, s))
    else
      var n := DigitCount(s[1..]);
      if n == 0 then None
      else Some((Some(Text.DigitsValue(s[1..][..n]) as real / Power(n)), s[1..][n..]))
  }

  function ReadExponent(s: string): (r: Option<(Option<int>, string)>)
    ensures r.Some? ==> |r.value.1| <= |s|
  {
    if s == [] || (s[0] != 'e' && s[0] != 'E') then Some((None, s))
    else
      var signed := |s| > 1 && (s[1] == '+' || s[1] == '-');
      var digits := if signed then s[2..] else s[1..];
      var n := DigitCount(digits);
      if n == 0 then None
      else
        var size: int := Text.DigitsValue(digits[..n]);
        Some((Some(if signed && s[1] == '-' then -size else size), digits[n..]))
  }

  /** The number a text stands for: an integer when it has neither fraction nor exponent. */
  function Number(whole: nat, fraction: Option<real>, exponent: Option<int>): (j: Json)
    ensures j.Int? || j.Float?
  {
    if fraction.None? && exponent.None? then Int(whole)
    else
      var x := whole as real + if fraction.None? then 0.0 else fraction.value;
      Float(Scaled(x, if exponent.None? then 0 else exponent.value))
  }

  /** A number behind its whole part. */
  function ReadAfterWhole(whole: nat, s: string): (r: Option<(Json, string)>)
    ensures r.Some? ==> |r.value.1| <= |s| && (r.value.0.Int? || r.value.0.Float?)
  {
    match ReadFraction(s)
    case None => None
    case Some((fraction, afterFraction)) => match ReadExponent(afterFraction)
      case None => None
      case Some((exponent, rest)) => Some((Number(whole, fraction, exponent), rest))
  }

  /** The digits of a number, behind its sign. */
  function ReadUnsigned(s: string): (r: Option<(Json, string)>)
    ensures r.Some? ==> |r.value.1| < |s| && (r.value.0.Int? || r.value.0.Float?)
  {
    var n := DigitCount(s);
    if n == 0 || (n > 1 && s[0] == '0') then None
    else ReadAfterWhole(Text.DigitsValue(s[..n]), s[n..])
  }

  function Negated(j: Json): (r: Json) {
    match j
    case Int(i) => Int(-i)
    case Float(f) => Float(-f)
    case _ => j
  }

  function ReadNumber(s: string): (r: Option<(Json, string)>)
    ensures r.Some? ==> |r.value.1| < |s|
  {
    if s == [] || s[0] != '-' then ReadUnsigned(s)
    else match ReadUnsigned(s[1..])
      case None => None
      case Some((j, rest)) => Some((Negated(j), rest))
  }

  // Strings

  function HexValue(c: char): (r: Option<nat>)
    ensures r.Some? ==> r.value < 16
  {
    if '0' <= c <= '9' then Some(c as int - '0' as int)
    else if 'a' <= c <= 'f' then Some(c as int - 'a' as int + 10)
    else if 'A' <= c <= 'F' then Some(c as int - 'A' as int + 10)
    else None
  }

  /** Four hexadecimal digits. */
  function ReadUnit(s: string): (r: Option<(nat, string)>)
    ensures r.Some? ==> r.value.0 < 0x10000 && |r.value.1| < |s|
  {
    if |s| < 4 then None
    else
      var a, b, c, d := HexValue(s[0]), HexValue(s[1]), HexValue(s[2]), HexValue(s[3]);
      if a.None? || b.None? || c.None? || d.None? then None
      else Some((((a.value * 16 + b.value) * 16 + c.value) * 16 + d.value, s[4..]))
  }

  /** A character from its code units: one, or a high and a low surrogate. */
  function ReadUnits(s: string): (r: Option<(char, string)>)
    ensures r.Some? ==> |r.value.1| < |s|
  {
    match ReadUnit(s)
    case None => None
    case Some((u, rest)) =>
      if u < 0xD800 || 0xE000 <= u then Some((u as char, rest))
      else if u < 0xDC00 && |rest| >= 2 && rest[0] == '\\' && rest[1] == 'u' then
        match ReadUnit(rest[2..])
        case None => None
        case Some((low, after)) =>
          if 0xDC00 <= low < 0xE000 then
            Some(((0x10000 + (u - 0xD800) * 0x400 + (low - 0xDC00)) as char, after))
          else None
      else None
  }

  /** What stands behind a backslash. */
  function ReadEscape(s: string): (r: Option<(char, string)>)
    ensures r.Some? ==> |r.value.1| < |s|
  {
    if s == [] then None
    else if s[0] == 'u' then ReadUnits(s[1..])
    else if s[0] == '"' || s[0] == '\\' || s[0] == '/' then Some((s[0], s[1..]))
    else if s[0] == 'b' then Some((8 as char, s[1..]))
    else if s[0] == 'f' then Some((12 as char, s[1..]))
    else if s[0] == 'n' then Some(('\n', s[1..]))
    else if s[0] == 'r' then Some(('\r', s[1..]))
    else if s[0] == 't' then Some(('\t', s[1..]))
    else None
  }

  /** The next character of a string, written as itself or escaped. */
  function ReadChar(s: string): (r: Option<(char, string)>)
    ensures r.Some? ==> |r.value.1| < |s|
  {
    if s == [] || s[0] < ' ' || s[0] == '"' then None
    else if s[0] == '\\' then ReadEscape(s[1..])
    else Some((s[0], s[1..]))
  }

  /** A string behind its opening quote, through the closing one. */
  function ReadChars(s: string): (r: Option<(string, string)>)
    ensures r.Some? ==> |r.value.1| < |s|
    decreases |s|
  {
    if s == [] then None
    else if s[0] == '"' then Some(([], s[1..]))
    else match ReadChar(s)
      case None => None
      case Some((c, rest)) => match ReadChars(rest)
        case None => None
        case Some((text, after)) => Some(([c] + text, after))
  }

  // Values

  function ReadWord(s: string, word: string, j: Json): (r: Option<(Json, string)>)
    requires word != []
    ensures r.Some? ==> |r.value.1| < |s|
  {
    if word <= s then Some((j, s[|word|..])) else None
  }

  function ReadValue(s: string): (r: Option<(Json, string)>)
    ensures r.Some? ==> |r.value.1| < |s|
    decreases |s|, 0
  {
    if s == [] then None
    else if IsDigit(s[0]) || s[0] == '-' then ReadNumber(s)
    else if s[0] == 'n' then ReadWord(s, "null", Null)
    else if s[0] == 't' then ReadWord(s, "true", Bool(true))
    else if s[0] == 'f' then ReadWord(s, "false", Bool(false))
    else if s[0] == '"' then
      match ReadChars(s[1..])
      case None => None
      case Some((text, rest)) => Some((Str(text), rest))
    else if s[0] == '[' then ReadList(s[1..])
    else if s[0] == '{' then ReadDict(s[1..])
    else None
  }

  /** A list behind its opening bracket. */
  function ReadList(s: string): (r: Option<(Json, string)>)
    ensures r.Some? ==> |r.value.1| < |s|
    decreases |s|, 3
  {
    var t := SkipBlank(s);
    if t != [] && t[0] == ']' then Some((Arr([]), t[1..]))
    else match ReadItems(t)
      case None => None
      case Some((items, rest)) => Some((Arr(items), rest))
  }

  /** A dict behind its opening brace. */
  function ReadDict(s: string): (r: Option<(Json, string)>)
    ensures r.Some? ==> |r.value.1| < |s|
    decreases |s|, 3
  {
    var t := SkipBlank(s);
    if t != [] && t[0] == '}' then Some((Obj([]), t[1..]))
    else match ReadMembers(t)
      case None => None
      case Some((members, rest)) => Some((Obj(members), rest))
  }

  /** The items of a list, from one of them through the closing bracket. */
  function ReadItems(s: string): (r: Option<(seq<Json>, string)>)
    ensures r.Some? ==> |r.value.1| < |s|
    decreases |s|, 1
  {
    match ReadValue(s)
    case None => None
    case Some((j, rest)) =>
      var t := SkipBlank(rest);
      if t == [] then None
      else if t[0] == ']' then Some(([j], t[1..]))
      else if t[0] != ',' then None
      else match ReadItems(SkipBlank(t[1..]))
        case None => None
        case Some((items, after)) => Some(([j] + items, after))
  }

  /** One name and the value behind its colon. */
  function ReadMember(s: string): (r: Option<(Member, string)>)
    ensures r.Some? ==> |r.value.1| < |s|
    decreases |s|, 1
  {
    if s == [] || s[0] != '"' then None
    else match ReadChars(s[1..])
      case None => None
      case Some((key, afterKey)) =>
        var colon := SkipBlank(afterKey);
        if colon == [] || colon[0] != ':' then None
        else match ReadValue(SkipBlank(colon[1..]))
          case None => None
          case Some((j, rest)) => Some((Member(key, j), rest))
  }

  /** The members of a dict, from one of them through the closing brace. */
  function ReadMembers(s: string): (r: Option<(seq<Member>, string)>)
    ensures r.Some? ==> |r.value.1| < |s|
    decreases |s|, 2
  {
    match ReadMember(s)
    case None => None
    case Some((m, rest)) =>
      var t := SkipBlank(rest);
      if t == [] then None
      else if t[0] == '}' then Some(([m], t[1..]))
      else if t[0] != ',' then None
      else match ReadMembers(SkipBlank(t[1..]))
        case None => None
        case Some((members, after)) => Some(([m] + members, after))
  }

  /** A whole text: one value with nothing but blanks around it. */
  function ReadJson(s: string): (r: Option<Json>) {
    match ReadValue(SkipBlank(s))
    case None => None
    case Some((j, rest)) => if SkipBlank(rest) == [] then Some(j) else None
  }
}

/** What `json.dumps` writes, the reader reads back. */
module JsonRoundTrip {
  import opened Wrappers
  import opened Json
  import opened JsonReader
  import opened JsonText
  import opened Text

  /** A separator is its mark, then spaces if any. */
  predicate Separates(s: string, mark: char) {
    s != [] && s[0] == mark && forall i :: 1 <= i < |s| ==> s[i] == ' '
  }

  predicate ProperStyle(style: Style) {
    Separates(style.itemSeparator, ',') && Separates(style.keySeparator, ':')
  }

  type PlainStyle = style: Style | ProperStyle(style) witness Style(",", ":", _ => "0.0")

  /** Every float in the document is written as a number text that stands for it. */
  predicate FloatsSpelled(j: Json, style: Style)
    decreases j
  {
    match j
    case Float(f) => ReadNumber(style.floatText(f)) == Some((Float(f), ""))
    case Arr(items) => forall i :: 0 <= i < |items| ==> FloatsSpelled(items[i], style)
    case Obj(ms) => forall i :: 0 <= i < |ms| ==> FloatsSpelled(ms[i].value, style)
    case _ => true
  }

  // Numbers

  /** No number goes on with this text. */
  predicate EndsNumber(rest: string) {
    rest == [] || (!IsDigit(rest[0]) && rest[0] != '.' && rest[0] != 'e' && rest[0] != 'E')
  }

  lemma {:induction false} DigitsThen(s: string, rest: string)
    requires rest == [] || !IsDigit(rest[0])
    ensures DigitCount(s + rest) == DigitCount(s)
  {
    if s == [] {
      assert s + rest == rest;
    } else {
      DigitsThen(s[1..], rest);
      assert (s + rest)[1..] == s[1..] + rest;
    }
  }

  lemma SliceThen(s: string, rest: string, n: nat)
    requires n <= |s|
    ensures (s + rest)[..n] == s[..n] && (s + rest)[n..] == s[n..] + rest
  {
  }

  lemma FractionThen(s: string, rest: string)
    requires EndsNumber(rest) && ReadFraction(s).Some?
    ensures ReadFraction(s + rest) == Some((ReadFraction(s).value.0, ReadFraction(s).value.1 + rest))
  {
    if s == [] {
      assert s + rest == rest;
    } else {
      SliceThen(s, rest, 1);
      DigitsThen(s[1..], rest);
      SliceThen(s[1..], rest, DigitCount(s[1..]));
    }
  }

  lemma ExponentThen(s: string, rest: string)
    requires EndsNumber(rest) && ReadExponent(s).Some?
    ensures ReadExponent(s + rest) == Some((ReadExponent(s).value.0, ReadExponent(s).value.1 + rest))
  {
    if s == [] {
      assert s + rest == rest;
    } else if s[0] == 'e' || s[0] == 'E' {
      var k := if |s| > 1 && (s[1] == '+' || s[1] == '-') then 2 else 1;
      SliceThen(s, rest, k);
      DigitsThen(s[k..], rest);
      SliceThen(s[k..], rest, DigitCount(s[k..]));
    }
  }

  lemma AfterWholeThen(whole: nat, s: string, rest: string)
    requires EndsNumber(rest) && ReadAfterWhole(whole, s).Some?
    ensures ReadAfterWhole(whole, s + rest) ==
      Some((ReadAfterWhole(whole, s).value.0, ReadAfterWhole(whole, s).value.1 + rest))
  {
    FractionThen(s, rest);
    ExponentThen(ReadFraction(s).value.1, rest);
  }

  lemma UnsignedThen(s: string, rest: string)
    requires EndsNumber(rest) && ReadUnsigned(s).Some?
    ensures ReadUnsigned(s + rest) == Some((ReadUnsigned(s).value.0, ReadUnsigned(s).value.1 + rest))
  {
    var n := DigitCount(s);
    DigitsThen(s, rest);
    SliceThen(s, rest, n);
    AfterWholeThen(Text.DigitsValue(s[..n]), s[n..], rest);
    assert (s + rest)[0] == s[0];
  }

  /** A number text is read alike whatever follows, if that does not go on with the number. */
  lemma NumberThen(s: string, rest: string, j: Json)
    requires EndsNumber(rest) && ReadNumber(s) == Some((j, ""))
    ensures ReadNumber(s + rest) == Some((j, rest))
  {
    assert "" + rest == rest;
    if s[0] == '-' {
      SliceThen(s, rest, 1);
      UnsignedThen(s[1..], rest);
    } else {
      UnsignedThen(s, rest);
    }
  }

  lemma {:induction false} AllDigits(s: string)
    requires forall i :: 0 <= i < |s| ==> IsDigit(s[i])
    ensures DigitCount(s) == |s|
  {
    if s != [] {
      AllDigits(s[1..]);
    }
  }

  lemma NatReads(n: nat)
    ensures ReadUnsigned(NatText(n)) == Some((Int(n), ""))
  {
    var s := NatText(n);
    AllDigits(s);
    NatTextSpells(n);
    assert s[..|s|] == s && s[|s|..] == "";
  }

  lemma NegativeReads(n: nat)
    ensures ReadNumber("-" + NatText(n)) == Some((Int(0 - n), ""))
  {
    NatReads(n);
    assert ("-" + NatText(n))[1..] == NatText(n);
  }

  lemma IntReads(i: int)
    ensures ReadNumber(IntText(i)) == Some((Int(i), ""))
  {
    if i < 0 {
      NegativeReads(-i);
    } else {
      NatReads(i);
      assert IsDigit(NatText(i)[0]);
    }
  }

  // Strings

  lemma UnitReads(hi: nat, lo: nat, rest: string)
    requires hi < 16 && lo < 16
    ensures ReadUnits("00" + [HexDigit(hi), HexDigit(lo)] + rest) == Some(((hi * 16 + lo) as char, rest))
  {
    var s := "00" + [HexDigit(hi), HexDigit(lo)] + rest;
    assert s[0] == '0' && s[1] == '0' && s[2] == HexDigit(hi) && s[3] == HexDigit(lo) && s[4..] == rest;
    assert HexValue(HexDigit(hi)) == Some(hi) && HexValue(HexDigit(lo)) == Some(lo);
    assert HexValue('0') == Some(0);
  }

  lemma EscapeReads(c: char, rest: string)
    ensures Escape(c) != [] && Escape(c)[0] != '"'
    ensures ReadChar(Escape(c) + rest) == Some((c, rest))
  {
    var s := Escape(c) + rest;
    if |Escape(c)| == 1 {
      assert s[1..] == rest;
    } else if |Escape(c)| == 2 {
      assert s[1..][1..] == rest;
    } else {
      var v := c as int;
      UnitReads(v / 16, v % 16, rest);
      assert s[1..][1..] == "00" + [HexDigit(v / 16), HexDigit(v % 16)] + rest;
    }
  }

  lemma {:induction false} CharsRead(text: string, rest: string)
    ensures ReadChars(Escaped(text) + ("\"" + rest)) == Some((text, rest))
  {
    var close := "\"" + rest;
    if text == [] {
      assert Escaped(text) + close == close && close[1..] == rest;
    } else {
      var tail := Escaped(text[1..]) + close;
      CharsRead(text[1..], rest);
      EscapeReads(text[0], tail);
      Associates(Escape(text[0]), Escaped(text[1..]), close);
      assert [text[0]] + text[1..] == text;
    }
  }

  lemma QuotedReads(text: string, rest: string)
    ensures (Quoted(text) + rest)[0] == '"' && ReadChars((Quoted(text) + rest)[1..]) == Some((text, rest))
  {
    CharsRead(text, rest);
    assert (Quoted(text) + rest)[1..] == Escaped(text) + ("\"" + rest);
  }

  // Values

  lemma SeparatorSkipped(separator: string, mark: char, rest: string)
    requires Separates(separator, mark) && (rest == [] || !IsBlank(rest[0]))
    ensures (separator + rest)[0] == mark && SkipBlank((separator + rest)[1..]) == rest
  {
    SpacesSkipped(separator[1..], rest);
    assert (separator + rest)[1..] == separator[1..] + rest;
  }

  lemma {:induction false} SpacesSkipped(spaces: string, rest: string)
    requires (forall i :: 0 <= i < |spaces| ==> spaces[i] == ' ') && (rest == [] || !IsBlank(rest[0]))
    ensures SkipBlank(spaces + rest) == rest
  {
    if spaces == [] {
      assert spaces + rest == rest;
    } else {
      SpacesSkipped(spaces[1..], rest);
      assert (spaces + rest)[1..] == spaces[1..] + rest;
    }
  }

  /** How a value starts: never with a blank or a closing bracket. */
  lemma DumpsHead(j: Json, style: Style)
    requires FloatsSpelled(j, style)
    ensures Dumps(j, style) != []
    ensures !IsBlank(Dumps(j, style)[0]) && Dumps(j, style)[0] != ']'
    ensures j.Int? || j.Float? ==> IsDigit(Dumps(j, style)[0]) || Dumps(j, style)[0] == '-'
  {
    match j
    case Int(i) => assert i >= 0 ==> IsDigit(NatText(i)[0]);
    case Float(f) => assert style.floatText(f)[0] != '-' ==> DigitCount(style.floatText(f)) > 0;
    case _ =>
  }

  lemma WordReads(word: string, j: Json, rest: string)
    requires word != []
    ensures ReadWord(word + rest, word, j) == Some((j, rest))
  {
    assert word <= word + rest && (word + rest)[|word|..] == rest;
  }

  lemma ScalarReads(j: Json, style: Style, rest: string)
    requires FloatsSpelled(j, style) && !j.Arr? && !j.Obj? && EndsNumber(rest)
    ensures ReadValue(Dumps(j, style) + rest) == Some((j, rest))
  {
    DumpsHead(j, style);
    var s := Dumps(j, style) + rest;
    assert s[0] == Dumps(j, style)[0];
    match j
    case Null => WordReads("null", Null, rest);
    case Bool(b) => WordReads(if b then "true" else "false", j, rest);
    case Int(i) =>
      IntReads(i);
      NumberThen(IntText(i), rest, j);
      NumberHead(s);
    case Float(f) =>
      NumberThen(style.floatText(f), rest, j);
      NumberHead(s);
    case Str(t) =>
      QuotedReads(t, rest);
      StringHead(s);
  }

  lemma NumberHead(s: string)
    requires s != [] && (IsDigit(s[0]) || s[0] == '-')
    ensures ReadValue(s) == ReadNumber(s)
  {
  }

  lemma StringHead(s: string)
    requires s != [] && s[0] == '"' && ReadChars(s[1..]).Some?
    ensures ReadValue(s) == Some((Str(ReadChars(s[1..]).value.0), ReadChars(s[1..]).value.1))
  {
  }

  lemma ListHead(s: string)
    ensures ReadValue("[" + s) == ReadList(s)
  {
    assert ("[" + s)[1..] == s;
  }

  lemma DictHead(s: string)
    ensures ReadValue("{" + s) == ReadDict(s)
  {
    assert ("{" + s)[1..] == s;
  }

  /** A value is read back from its text, whatever follows that does not go on with a number. */
  lemma {:induction false} ValueReads(j: Json, style: PlainStyle, rest: string)
    requires FloatsSpelled(j, style) && EndsNumber(rest)
    ensures ReadValue(Dumps(j, style) + rest) == Some((j, rest))
    decreases j
  {
    match j
    case Arr(items) =>
      if items != [] { ItemsRead(items, 0, style, rest); }
      ListReads(items, style, rest);
    case Obj(ms) =>
      if ms != [] { MembersRead(ms, 0, style, rest); }
      DictReads(ms, style, rest);
    case _ => ScalarReads(j, style, rest);
  }

  /** The text of a list from item `i` on. */
  function ItemsText(items: seq<Json>, i: nat, style: Style, rest: string): (s: string)
    requires i < |items|
  {
    Dumps(items[i], style) + (DumpItems(items, i + 1, style) + ("]" + rest))
  }

  lemma Enclosed(left: string, body: string, right: string, rest: string)
    ensures (left + body + right) + rest == left + (body + (right + rest))
  {
    Associates(left + body, right, rest);
    Associates(left, body, right + rest);
  }

  lemma ListReads(items: seq<Json>, style: Style, rest: string)
    requires FloatsSpelled(Arr(items), style)
    requires items != [] ==> ReadItems(ItemsText(items, 0, style, rest)) == Some((items, rest))
    ensures ReadValue(Dumps(Arr(items), style) + rest) == Some((Arr(items), rest))
  {
    var text := DumpItems(items, 0, style) + ("]" + rest);
    Enclosed("[", DumpItems(items, 0, style), "]", rest);
    ListHead(text);
    if items == [] {
      EmptyListReads(rest);
      assert text == "]" + rest;
    } else {
      FirstItem(items, style, rest);
      DumpsHead(items[0], style);
      ListTextReads(text, items, rest);
    }
  }

  lemma EmptyListReads(rest: string)
    ensures ReadList("]" + rest) == Some((Arr([]), rest))
  {
    assert ("]" + rest)[1..] == rest;
  }

  lemma FirstItem(items: seq<Json>, style: Style, rest: string)
    requires items != []
    ensures DumpItems(items, 0, style) + ("]" + rest) == ItemsText(items, 0, style, rest)
  {
    var first, others := Dumps(items[0], style), DumpItems(items, 1, style);
    assert DumpItems(items, 0, style) == "" + first + others == first + others;
    Associates(first, others, "]" + rest);
  }

  lemma ListTextReads(text: string, items: seq<Json>, rest: string)
    requires text != [] && !IsBlank(text[0]) && text[0] != ']' && ReadItems(text) == Some((items, rest))
    ensures ReadList(text) == Some((Arr(items), rest))
  {
  }

  lemma NextItem(items: seq<Json>, i: nat, style: Style, rest: string)
    requires 0 < i < |items|
    ensures DumpItems(items, i, style) + ("]" + rest) == style.itemSeparator + ItemsText(items, i, style, rest)
  {
    var item, others := Dumps(items[i], style), DumpItems(items, i + 1, style);
    Associates(style.itemSeparator + item, others, "]" + rest);
    Associates(style.itemSeparator, item, others + ("]" + rest));
  }

  function AfterItem(items: seq<Json>, i: nat, style: Style, rest: string): (s: string)
    requires i < |items|
  {
    DumpItems(items, i + 1, style) + ("]" + rest)
  }

  /** What stands behind an item: the closing bracket, or a separator and the next item. */
  lemma ItemBoundary(items: seq<Json>, i: nat, style: PlainStyle, rest: string)
    requires i < |items|
    ensures EndsNumber(AfterItem(items, i, style, rest))
    ensures AfterItem(items, i, style, rest) ==
      if i + 1 == |items| then "]" + rest else style.itemSeparator + ItemsText(items, i + 1, style, rest)
  {
    if i + 1 < |items| {
      NextItem(items, i + 1, style, rest);
    } else {
      assert "" + ("]" + rest) == "]" + rest;
    }
  }

  lemma ItemsTextHead(items: seq<Json>, i: nat, style: Style, rest: string)
    requires i < |items| && FloatsSpelled(items[i], style)
    ensures ItemsText(items, i, style, rest) != [] && !IsBlank(ItemsText(items, i, style, rest)[0])
  {
    DumpsHead(items[i], style);
  }

  lemma {:induction false} OneItemRead(items: seq<Json>, i: nat, style: PlainStyle, rest: string)
    requires i < |items| && FloatsSpelled(Arr(items), style)
    ensures ReadValue(ItemsText(items, i, style, rest)) == Some((items[i], AfterItem(items, i, style, rest)))
    decreases items, 0
  {
    ItemBoundary(items, i, style, rest);
    ValueReads(items[i], style, AfterItem(items, i, style, rest));
  }

  lemma {:induction false} ItemsRead(items: seq<Json>, i: nat, style: PlainStyle, rest: string)
    requires i < |items| && FloatsSpelled(Arr(items), style)
    ensures ReadItems(ItemsText(items, i, style, rest)) == Some((items[i..], rest))
    decreases items, |items| - i + 1
  {
    OneItemRead(items, i, style, rest);
    if i + 1 < |items| {
      ItemsRead(items, i + 1, style, rest);
      ItemsTextHead(items, i + 1, style, rest);
    }
    ItemsJoin(items, i, style, rest);
  }

  lemma ItemsJoin(items: seq<Json>, i: nat, style: PlainStyle, rest: string)
    requires i < |items|
    requires ReadValue(ItemsText(items, i, style, rest)) == Some((items[i], AfterItem(items, i, style, rest)))
    requires i + 1 < |items| ==>
      && ReadItems(ItemsText(items, i + 1, style, rest)) == Some((items[i + 1..], rest))
      && ItemsText(items, i + 1, style, rest) != [] && !IsBlank(ItemsText(items, i + 1, style, rest)[0])
    ensures ReadItems(ItemsText(items, i, style, rest)) == Some((items[i..], rest))
  {
    ItemBoundary(items, i, style, rest);
    if i + 1 < |items| {
      MoreItems(
        ItemsText(items, i, style, rest), items[i], style, ItemsText(items, i + 1, style, rest), items[i + 1..], rest);
    } else {
      LastItem(ItemsText(items, i, style, rest), items[i], rest);
    }
    FromOn(items, i);
  }

  lemma FromOn<T>(xs: seq<T>, i: nat)
    requires i < |xs|
    ensures xs[i..] == [xs[i]] + xs[i + 1..]
    ensures i + 1 == |xs| ==> xs[i..] == [xs[i]]
  {
  }

  lemma LastItem(text: string, j: Json, rest: string)
    requires ReadValue(text) == Some((j, "]" + rest))
    ensures ReadItems(text) == Some(([j], rest))
  {
    assert ("]" + rest)[1..] == rest;
  }

  lemma MoreItems(text: string, j: Json, style: PlainStyle, next: string, items: seq<Json>, rest: string)
    requires next != [] && !IsBlank(next[0])
    requires ReadValue(text) == Some((j, style.itemSeparator + next)) && ReadItems(next) == Some((items, rest))
    ensures ReadItems(text) == Some(([j] + items, rest))
  {
    SeparatorSkipped(style.itemSeparator, ',', next);
  }

  /** The text of a dict from member `i` on. */
  function MembersText(ms: seq<Member>, i: nat, style: Style, rest: string): (s: string)
    requires i < |ms|
  {
    DumpMember(ms[i], style) + AfterMember(ms, i, style, rest)
  }

  function AfterMember(ms: seq<Member>, i: nat, style: Style, rest: string): (s: string)
    requires i < |ms|
  {
    DumpMembers(ms, i + 1, style) + ("}" + rest)
  }

  lemma MembersTextHead(ms: seq<Member>, i: nat, style: Style, rest: string)
    requires i < |ms|
    ensures MembersText(ms, i, style, rest) != [] && MembersText(ms, i, style, rest)[0] == '"'
  {
  }

  lemma MembersTextIs(ms: seq<Member>, i: nat, style: Style, rest: string)
    requires i < |ms|
    ensures DumpMembers(ms, i, style) + ("}" + rest) ==
      (if i == 0 then "" else style.itemSeparator) + MembersText(ms, i, style, rest)
  {
    var front := if i == 0 then "" else style.itemSeparator;
    var member, others := DumpMember(ms[i], style), DumpMembers(ms, i + 1, style);
    Associates(front + member, others, "}" + rest);
    Associates(front, member, others + ("}" + rest));
  }

  lemma DictReads(ms: seq<Member>, style: Style, rest: string)
    requires ms != [] ==> ReadMembers(MembersText(ms, 0, style, rest)) == Some((ms, rest))
    ensures ReadValue(Dumps(Obj(ms), style) + rest) == Some((Obj(ms), rest))
  {
    var members := DumpMembers(ms, 0, style) + ("}" + rest);
    Enclosed("{", DumpMembers(ms, 0, style), "}", rest);
    DictHead(members);
    if ms == [] {
      EmptyDictReads(rest);
      assert members == "}" + rest;
    } else {
      FirstMember(ms, style, rest);
      DictTextReads(members, ms, rest);
    }
  }

  lemma EmptyDictReads(rest: string)
    ensures ReadDict("}" + rest) == Some((Obj([]), rest))
  {
    assert ("}" + rest)[1..] == rest;
  }

  lemma FirstMember(ms: seq<Member>, style: Style, rest: string)
    requires ms != []
    ensures DumpMembers(ms, 0, style) + ("}" + rest) == MembersText(ms, 0, style, rest)
    ensures MembersText(ms, 0, style, rest)[0] == '"'
  {
    MembersTextIs(ms, 0, style, rest);
    assert "" + MembersText(ms, 0, style, rest) == MembersText(ms, 0, style, rest);
  }

  lemma DictTextReads(text: string, ms: seq<Member>, rest: string)
    requires text != [] && text[0] == '"' && ReadMembers(text) == Some((ms, rest))
    ensures ReadDict(text) == Some((Obj(ms), rest))
  {
  }

  /** What stands behind a member: the closing brace, or a separator and the next member. */
  lemma MemberBoundary(ms: seq<Member>, i: nat, style: Style, rest: string)
    requires i < |ms|
    ensures AfterMember(ms, i, style, rest) ==
      if i + 1 == |ms| then "}" + rest else style.itemSeparator + MembersText(ms, i + 1, style, rest)
  {
    if i + 1 < |ms| {
      MembersTextIs(ms, i + 1, style, rest);
    } else {
      assert "" + ("}" + rest) == "}" + rest;
    }
  }

  lemma {:induction false} OneMemberRead(ms: seq<Member>, i: nat, style: PlainStyle, rest: string)
    requires i < |ms| && FloatsSpelled(Obj(ms), style)
    ensures ReadMember(MembersText(ms, i, style, rest)) == Some((ms[i], AfterMember(ms, i, style, rest)))
    decreases ms, 0
  {
    var after := AfterMember(ms, i, style, rest);
    MemberEnds(ms, i, style, rest);
    ValueReads(ms[i].value, style, after);
    MemberReads(ms[i], style, after);
  }

  lemma {:induction false} MembersRead(ms: seq<Member>, i: nat, style: PlainStyle, rest: string)
    requires i < |ms| && FloatsSpelled(Obj(ms), style)
    ensures ReadMembers(MembersText(ms, i, style, rest)) == Some((ms[i..], rest))
    decreases ms, |ms| - i + 1
  {
    OneMemberRead(ms, i, style, rest);
    if i + 1 < |ms| {
      MembersRead(ms, i + 1, style, rest);
      MembersTextHead(ms, i + 1, style, rest);
    }
    MembersJoin(ms, i, style, rest);
  }

  lemma MembersJoin(ms: seq<Member>, i: nat, style: PlainStyle, rest: string)
    requires i < |ms|
    requires ReadMember(MembersText(ms, i, style, rest)) == Some((ms[i], AfterMember(ms, i, style, rest)))
    requires i + 1 < |ms| ==>
      && ReadMembers(MembersText(ms, i + 1, style, rest)) == Some((ms[i + 1..], rest))
      && MembersText(ms, i + 1, style, rest) != [] && MembersText(ms, i + 1, style, rest)[0] == '"'
    ensures ReadMembers(MembersText(ms, i, style, rest)) == Some((ms[i..], rest))
  {
    MemberBoundary(ms, i, style, rest);
    if i + 1 < |ms| {
      NextMemberRead(
        MembersText(ms, i, style, rest), ms[i], style, MembersText(ms, i + 1, style, rest), ms[i + 1..], rest);
    } else {
      LastMemberRead(MembersText(ms, i, style, rest), ms[i], rest);
    }
    FromOn(ms, i);
  }

  lemma MemberEnds(ms: seq<Member>, i: nat, style: PlainStyle, rest: string)
    requires i < |ms|
    ensures EndsNumber(AfterMember(ms, i, style, rest))
  {
    MemberBoundary(ms, i, style, rest);
  }

  lemma LastMemberRead(text: string, m: Member, rest: string)
    requires ReadMember(text) == Some((m, "}" + rest))
    ensures ReadMembers(text) == Some(([m], rest))
  {
    assert ("}" + rest)[1..] == rest;
  }

  lemma NextMemberRead(text: string, m: Member, style: PlainStyle, next: string, ms: seq<Member>, rest: string)
    requires next != [] && next[0] == '"'
    requires ReadMember(text) == Some((m, style.itemSeparator + next)) && ReadMembers(next) == Some((ms, rest))
    ensures ReadMembers(text) == Some(([m] + ms, rest))
  {
    SeparatorSkipped(style.itemSeparator, ',', next);
  }

  lemma MemberReads(m: Member, style: PlainStyle, after: string)
    requires FloatsSpelled(m.value, style)
    requires ReadValue(Dumps(m.value, style) + after) == Some((m.value, after))
    ensures ReadMember(DumpMember(m, style) + after) == Some((m, after))
  {
    var value := Dumps(m.value, style) + after;
    Associates(Quoted(m.key) + style.keySeparator, Dumps(m.value, style), after);
    Associates(Quoted(m.key), style.keySeparator, value);
    QuotedReads(m.key, style.keySeparator + value);
    DumpsHead(m.value, style);
    SeparatorSkipped(style.keySeparator, ':', value);
  }

  /** Every document is read back from its text as it was: keys, order, numbers and strings. */
  lemma DumpsReadsBack(j: Json, style: Style)
    requires ProperStyle(style) && FloatsSpelled(j, style)
    ensures ReadJson(Dumps(j, style)) == Some(j)
  {
    var s := Dumps(j, style);
    var plain: PlainStyle := style;
    ValueReads(j, plain, "");
    DumpsHead(j, style);
    assert s + "" == s;
  }
}
