/** `json.dumps(..., ensure_ascii=False)`. The spelling of a float is a parameter. */
module JsonText {
  import opened Json
  import Text

  datatype Style = Style(itemSeparator: string, keySeparator: string, floatText: real -> string)

  function HexDigit(d: int): (c: char)
    requires 0 <= d < 16
    ensures c >= ' '
  {
    if d < 10 then ('0' as int + d) as char else ('a' as int + d - 10) as char
  }

  function Escape(c: char): (s: string)
    ensures Printable(s)
  {
    if c == '"' then "\\\""
    else if c == '\\' then "\\\\"
    else if c == '\n' then "\\n"
    else if c == '\r' then "\\r"
    else if c == '\t' then "\\t"
    else if c as int == 12 then "\\f"
    else if c as int == 8 then "\\b"
    else if c < ' ' then "\\u00" + [HexDigit(c as int / 16), HexDigit(c as int % 16)]
    else [c]
  }

  /** Quotes, backslashes and five control characters take two characters, other control characters six. */
  lemma EscapeSize(c: char)
    ensures |Escape(c)| ==
      if c in "\"\\\n\r\t" || c as int == 8 || c as int == 12 then 2 else if c as int < 32 then 6 else 1
  {
  }

  function Escaped(s: string): (text: string) {
    if s == [] then [] else Escape(s[0]) + Escaped(s[1..])
  }

  function Quoted(s: string): (text: string) { "\"" + Escaped(s) + "\"" }

  function Dumps(j: Json, style: Style): (s: string)
    decreases j
  {
    match j
    case Null => "null"
    case Bool(b) => if b then "true" else "false"
    case Int(i) => Text.IntText(i)
    case Float(f) => style.floatText(f)
    case Str(s) => Quoted(s)
    case Arr(items) => "[" + DumpItems(items, 0, style) + "]"
    case Obj(ms) => "{" + DumpMembers(ms, 0, style) + "}"
  }

  function DumpItems(items: seq<Json>, i: nat, style: Style): (s: string)
    requires i <= |items|
    decreases items, |items| - i
  {
    if i == |items| then ""
    else (if i == 0 then "" else style.itemSeparator) + Dumps(items[i], style) + DumpItems(items, i + 1, style)
  }

  /** A key, the separator and the value. */
  function DumpMember(m: Member, style: Style): (s: string)
    decreases m
  {
    Quoted(m.key) + style.keySeparator + Dumps(m.value, style)
  }

  function DumpMembers(ms: seq<Member>, i: nat, style: Style): (s: string)
    requires i <= |ms|
    decreases ms, |ms| - i
  {
    if i == |ms| then ""
    else (if i == 0 then "" else style.itemSeparator) + DumpMember(ms[i], style) + DumpMembers(ms, i + 1, style)
  }

  /** No control character, so in particular no line break. */
  predicate Printable(s: string) {
    forall i :: 0 <= i < |s| ==> s[i] >= ' '
  }

  ghost predicate PrintableStyle(style: Style) {
    Printable(style.itemSeparator) && Printable(style.keySeparator) && forall f :: Printable(style.floatText(f))
  }

  lemma {:induction false} EscapedPrintable(s: string)
    ensures Printable(Escaped(s))
  {
    if s != [] {
      EscapedPrintable(s[1..]);
    }
  }

  /** JSON text never contains a raw control character, whatever the strings inside it contain. */
  lemma {:induction false} DumpsPrintable(j: Json, style: Style)
    requires PrintableStyle(style)
    ensures Printable(Dumps(j, style))
    decreases j
  {
    match j
    case Int(i) => assert Text.IntText(i) != [];
    case Str(s) => EscapedPrintable(s);
    case Arr(items) => DumpItemsPrintable(items, 0, style);
    case Obj(ms) => DumpMembersPrintable(ms, 0, style);
    case _ =>
  }

  lemma {:induction false} DumpItemsPrintable(items: seq<Json>, i: nat, style: Style)
    requires i <= |items| && PrintableStyle(style)
    ensures Printable(DumpItems(items, i, style))
    decreases items, |items| - i
  {
    if i < |items| {
      DumpsPrintable(items[i], style);
      DumpItemsPrintable(items, i + 1, style);
    }
  }

  lemma PrintableThree(a: string, b: string, c: string)
    requires Printable(a) && Printable(b) && Printable(c)
    ensures Printable(a + b + c)
  {
  }

  lemma {:induction false} DumpMembersPrintable(ms: seq<Member>, i: nat, style: Style)
    requires i <= |ms| && PrintableStyle(style)
    ensures Printable(DumpMembers(ms, i, style))
    decreases ms, |ms| - i
  {
    if i < |ms| {
      EscapedPrintable(ms[i].key);
      DumpsPrintable(ms[i].value, style);
      PrintableThree(Quoted(ms[i].key), style.keySeparator, Dumps(ms[i].value, style));
      DumpMembersPrintable(ms, i + 1, style);
      PrintableThree(
        if i == 0 then "" else style.itemSeparator, DumpMember(ms[i], style), DumpMembers(ms, i + 1, style));
    }
  }
}
