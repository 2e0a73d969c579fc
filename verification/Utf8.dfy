/** UTF-8 as section 3 of RFC 3629 defines it: the codec behind `str.encode("utf-8")` and `bytes.decode("utf-8")`. */
module Utf8 {
  import opened Wrappers
  import Text

  type Byte = x: int | 0 <= x < 256

  function EncodeChar(c: char): (r: seq<Byte>)
    ensures 1 <= |r| <= 4
  {
    var v := c as int;
    if v < 0x80 then [v]
    else if v < 0x800 then [0xC0 + v / 0x40, 0x80 + v % 0x40]
    else if v < 0x10000 then [0xE0 + v / 0x1000, 0x80 + v / 0x40 % 0x40, 0x80 + v % 0x40]
    else [0xF0 + v / 0x40000, 0x80 + v / 0x1000 % 0x40, 0x80 + v / 0x40 % 0x40, 0x80 + v % 0x40]
  }

  function Encode(s: string): (r: seq<Byte>) {
    if s == [] then [] else EncodeChar(s[0]) + Encode(s[1..])
  }

  predicate IsTail(b: Byte) { 0x80 <= b < 0xC0 }

  predicate IsScalar(v: int) { 0 <= v < 0xD800 || 0xE000 <= v < 0x110000 }

  /** The scalar value at the front of `b` and the bytes it takes; overlong forms and surrogates are refused. */
  function DecodeChar(b: seq<Byte>): (r: Option<(char, nat)>)
    ensures r.Some? ==> 1 <= r.value.1 <= |b|
  {
    if b == [] then None
    else if b[0] < 0x80 then Some((b[0] as char, 1))
    else if 0xC0 <= b[0] < 0xE0 && |b| >= 2 && IsTail(b[1]) then
      Sized(More(b[0] - 0xC0, b[1]), 0x80, 2)
    else if 0xE0 <= b[0] < 0xF0 && |b| >= 3 && IsTail(b[1]) && IsTail(b[2]) then
      Sized(More(More(b[0] - 0xE0, b[1]), b[2]), 0x800, 3)
    else if 0xF0 <= b[0] < 0xF8 && |b| >= 4 && IsTail(b[1]) && IsTail(b[2]) && IsTail(b[3]) then
      Sized(More(More(More(b[0] - 0xF0, b[1]), b[2]), b[3]), 0x10000, 4)
    else None
  }

  /** Six more bits, from a tail byte. */
  function More(high: int, tail: Byte): (n: int) { high * 0x40 + (tail as int - 0x80) }

  function Sized(v: int, least: nat, length: nat): (r: Option<(char, nat)>)
    ensures r.Some? <==> least <= v && IsScalar(v)
    ensures r.Some? ==> r.value.0 as int == v && r.value.1 == length
  {
    if least <= v && IsScalar(v) then Some((v as char, length)) else None
  }

  function Decode(b: seq<Byte>): (r: Option<string>)
    decreases |b|
  {
    if b == [] then Some([])
    else match DecodeChar(b)
      case None => None
      case Some((c, n)) => match Decode(b[n..])
        case None => None
        case Some(rest) => Some([c] + rest)
  }

  lemma MoreSplits(v: nat)
    ensures var t: Byte := 0x80 + v % 0x40; IsTail(t) && More(v / 0x40, t) == v
  {
  }

  lemma DecodeCharInvertsEncodeChar(c: char, rest: seq<Byte>)
    ensures DecodeChar(EncodeChar(c) + rest) == Some((c, |EncodeChar(c)|))
  {
    var v: int := c as int;
    var e := EncodeChar(c);
    var b := e + rest;
    assert b[0] == e[0] && |b| >= |e|;
    MoreSplits(v);
    if 0x80 <= v {
      assert b[1] == e[1];
      if 0x800 <= v {
        assert b[2] == e[2];
        MoreSplits(v / 0x40);
        assert v / 0x40 / 0x40 == v / 0x1000;
        if 0x10000 <= v {
          assert b[3] == e[3];
          MoreSplits(v / 0x1000);
          assert v / 0x1000 / 0x40 == v / 0x40000;
        }
      }
    }
  }

  lemma MoreUnique(high: int, tail: Byte)
    requires IsTail(tail) && 0 <= high
    ensures More(high, tail) / 0x40 == high && 0x80 + More(high, tail) % 0x40 == tail
  {
  }

  lemma EncodeCharInvertsDecodeChar(b: seq<Byte>)
    requires DecodeChar(b).Some?
    ensures EncodeChar(DecodeChar(b).value.0) == b[..DecodeChar(b).value.1]
  {
    var (c, n) := DecodeChar(b).value;
    var v: int := c as int;
    if n == 2 {
      MoreUnique(b[0] - 0xC0, b[1]);
    } else if n == 3 {
      MoreUnique(b[0] - 0xE0, b[1]);
      MoreUnique(More(b[0] - 0xE0, b[1]), b[2]);
      assert v / 0x40 / 0x40 == v / 0x1000;
    } else if n == 4 {
      MoreUnique(b[0] - 0xF0, b[1]);
      MoreUnique(More(b[0] - 0xF0, b[1]), b[2]);
      MoreUnique(More(More(b[0] - 0xF0, b[1]), b[2]), b[3]);
      assert v / 0x40 / 0x40 == v / 0x1000;
      assert v / 0x1000 / 0x40 == v / 0x40000;
    }
  }

  lemma {:induction false} DecodeInvertsEncode(s: string)
    ensures Decode(Encode(s)) == Some(s)
  {
    if s != [] {
      var b, n := Encode(s), |EncodeChar(s[0])|;
      DecodeCharInvertsEncodeChar(s[0], Encode(s[1..]));
      assert b[n..] == Encode(s[1..]);
      DecodeInvertsEncode(s[1..]);
      assert [s[0]] + s[1..] == s;
    }
  }

  lemma DecodeStep(b: seq<Byte>) returns (c: char, n: nat, rest: string)
    requires Decode(b).Some? && b != []
    ensures 1 <= n <= |b| && EncodeChar(c) == b[..n] && Decode(b[n..]) == Some(rest)
    ensures Decode(b).value == [c] + rest
  {
    EncodeCharInvertsDecodeChar(b);
    c, n := DecodeChar(b).value.0, DecodeChar(b).value.1;
    rest := Decode(b[n..]).value;
  }

  lemma EncodeStep(c: char, n: nat, rest: string, b: seq<Byte>)
    requires n <= |b| && EncodeChar(c) == b[..n] && Encode(rest) == b[n..]
    ensures Encode([c] + rest) == b
  {
    assert ([c] + rest)[1..] == rest;
    assert b[..n] + b[n..] == b;
  }

  lemma {:induction false} EncodeInvertsDecode(b: seq<Byte>)
    requires Decode(b).Some?
    ensures Encode(Decode(b).value) == b
    decreases |b|
  {
    if b != [] {
      var c, n, rest := DecodeStep(b);
      EncodeInvertsDecode(b[n..]);
      EncodeStep(c, n, rest, b);
    }
  }

  /** Decoding undoes encoding, and accepts nothing but encodings. */
  lemma DecodeIffEncode(b: seq<Byte>, s: string)
    ensures Decode(b) == Some(s) <==> b == Encode(s)
  {
    DecodeInvertsEncode(s);
    if Decode(b) == Some(s) {
      EncodeInvertsDecode(b);
    }
  }

  lemma {:induction false} EncodeConcat(s: string, t: string)
    ensures Encode(s + t) == Encode(s) + Encode(t)
  {
    if s == [] {
      assert s + t == t;
    } else {
      EncodeConcat(s[1..], t);
      assert (s + t)[0] == s[0] && (s + t)[1..] == s[1..] + t;
      Text.Associates(EncodeChar(s[0]), Encode(s[1..]), Encode(t));
    }
  }
}
