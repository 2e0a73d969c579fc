/**
 * base64url as section 5 of RFC 4648 defines it, written with padding by the encoder, and the reader Python
 * puts behind `urlsafe_b64decode`: a left-to-right scan that skips characters outside the alphabet, reads
 * `+` and `/` as well as `-` and `_`, and stops at a padding run that completes a quantum.
 */
module Base64Url {
  import opened Wrappers
  import opened Utf8

  type Sextet = x: int | 0 <= x < 64

  function Symbol(v: Sextet): (c: char) {
    if v < 26 then ('A' as int + v) as char
    else if v < 52 then ('a' as int + v - 26) as char
    else if v < 62 then ('0' as int + v - 52) as char
    else if v == 62 then '-'
    else '_'
  }

  function Value(c: char): (r: Option<Sextet>) {
    if 'A' <= c <= 'Z' then Some(c as int - 'A' as int)
    else if 'a' <= c <= 'z' then Some(c as int - 'a' as int + 26)
    else if '0' <= c <= '9' then Some(c as int - '0' as int + 52)
    else if c == '-' || c == '+' then Some(62)
    else if c == '_' || c == '/' then Some(63)
    else None
  }

  function Quantum(b0: Byte, b1: Byte, b2: Byte): (q: string)
    ensures |q| == 4
  {
    [Symbol(b0 / 4), Symbol(b0 % 4 * 16 + b1 / 16), Symbol(b1 % 16 * 4 + b2 / 64), Symbol(b2 % 64)]
  }

  function Encode(b: seq<Byte>): (s: string) {
    if b == [] then []
    else if |b| == 1 then [Symbol(b[0] / 4), Symbol(b[0] % 4 * 16), '=', '=']
    else if |b| == 2 then [Symbol(b[0] / 4), Symbol(b[0] % 4 * 16 + b[1] / 16), Symbol(b[1] % 16 * 4), '=']
    else Quantum(b[0], b[1], b[2]) + Encode(b[3..])
  }

  /** `quad` symbols of the current quantum are read, `left` holds their bits not yet written out. */
  function Scan(s: string, quad: nat, left: nat, pads: nat): (r: Option<seq<Byte>>)
    requires quad <= 3
    requires left < (if quad == 0 then 1 else if quad == 1 then 64 else if quad == 2 then 16 else 4)
  {
    if s == [] then
      if quad == 0 then Some([]) else None
    else if s[0] == '=' then
      if quad < 2 then Scan(s[1..], quad, left, pads)
      else if quad + pads + 1 >= 4 then Some([])
      else Scan(s[1..], quad, left, pads + 1)
    else match Value(s[0])
      case None => Scan(s[1..], quad, left, pads)
      case Some(v) =>
        if quad == 0 then Scan(s[1..], 1, v, 0)
        else if quad == 1 then Prepend(left * 4 + v / 16, Scan(s[1..], 2, v % 16, 0))
        else if quad == 2 then Prepend(left * 16 + v / 4, Scan(s[1..], 3, v % 4, 0))
        else Prepend(left * 64 + v, Scan(s[1..], 0, 0, 0))
  }

  function Prepend(b: Byte, r: Option<seq<Byte>>): (result: Option<seq<Byte>>) {
    match r
    case None => None
    case Some(bytes) => Some([b] + bytes)
  }

  /** `urlsafe_b64decode` of a string: characters outside ASCII are refused before the scan. */
  function Decode(s: string): (r: Option<seq<Byte>>) {
    if exists i :: 0 <= i < |s| && s[i] >= 128 as char then None else Scan(s, 0, 0, 0)
  }

  predicate IsSafeChar(c: char) {
    'A' <= c <= 'Z' || 'a' <= c <= 'z' || '0' <= c <= '9' || c == '_' || c == '-'
  }

  /** The text with the older alphabet's two symbols replaced and every foreign character left out. */
  function Tidy(s: string): (r: string) {
    if s == [] then []
    else if s[0] == '+' then "-" + Tidy(s[1..])
    else if s[0] == '/' then "_" + Tidy(s[1..])
    else if IsSafeChar(s[0]) || s[0] == '=' then [s[0]] + Tidy(s[1..])
    else Tidy(s[1..])
  }

  /** The reader takes a text for its tidied form; a character outside ASCII, anywhere, it refuses. */
  lemma ReadsTidied(s: string)
    ensures Decode(s) == if exists c :: c in s && c >= 128 as char then None else Scan(Tidy(s), 0, 0, 0)
  {
    ScanTidies(s, 0, 0, 0);
    if i :| 0 <= i < |s| && s[i] >= 128 as char {
      assert s[i] in s;
    }
  }

  lemma {:induction false} ScanTidies(s: string, quad: nat, left: nat, pads: nat)
    requires quad <= 3
    requires left < (if quad == 0 then 1 else if quad == 1 then 64 else if quad == 2 then 16 else 4)
    ensures Scan(s, quad, left, pads) == Scan(Tidy(s), quad, left, pads)
  {
    if s != [] {
      var t := Tidy(s[1..]);
      if s[0] == '+' || s[0] == '/' || IsSafeChar(s[0]) {
        var v := Value(s[0]).value;
        assert (Tidy(s))[1..] == t && Value(Tidy(s)[0]) == Some(v);
        if quad == 0 {
          ScanTidies(s[1..], 1, v, 0);
        } else if quad == 1 {
          ScanTidies(s[1..], 2, v % 16, 0);
        } else if quad == 2 {
          ScanTidies(s[1..], 3, v % 4, 0);
        } else {
          ScanTidies(s[1..], 0, 0, 0);
        }
      } else if s[0] == '=' {
        assert (Tidy(s))[1..] == t;
        ScanTidies(s[1..], quad, left, pads);
        ScanTidies(s[1..], quad, left, pads + 1);
      } else {
        ScanTidies(s[1..], quad, left, pads);
      }
    }
  }

  lemma SymbolValue(v: Sextet)
    ensures IsSafeChar(Symbol(v)) && Value(Symbol(v)) == Some(v)
  {
  }

  lemma ScanSymbol(v: Sextet, s: string, quad: nat, left: nat, pads: nat)
    requires quad <= 3
    requires left < (if quad == 0 then 1 else if quad == 1 then 64 else if quad == 2 then 16 else 4)
    ensures Scan([Symbol(v)] + s, quad, left, pads) ==
      if quad == 0 then Scan(s, 1, v, 0)
      else if quad == 1 then Prepend(left * 4 + v / 16, Scan(s, 2, v % 16, 0))
      else if quad == 2 then Prepend(left * 16 + v / 4, Scan(s, 3, v % 4, 0))
      else Prepend(left * 64 + v, Scan(s, 0, 0, 0))
  {
    assert ([Symbol(v)] + s)[1..] == s;
  }

  /** The sextets of a quantum put back together are its bytes. */
  lemma QuantumBits(b0: int, b1: int, b2: int)
    requires 0 <= b0 < 256 && 0 <= b1 < 256 && 0 <= b2 < 256
    ensures var v0, v1, v2, v3 := b0 / 4, b0 % 4 * 16 + b1 / 16, b1 % 16 * 4 + b2 / 64, b2 % 64;
      v0 * 4 + v1 / 16 == b0 && v1 % 16 * 16 + v2 / 4 == b1 && v2 % 4 * 64 + v3 == b2
  {
    assert (b0 % 4 * 16 + b1 / 16) / 16 == b0 % 4 && (b0 % 4 * 16 + b1 / 16) % 16 == b1 / 16;
    assert (b1 % 16 * 4 + b2 / 64) / 4 == b1 % 16 && (b1 % 16 * 4 + b2 / 64) % 4 == b2 / 64;
  }

  lemma ScanOne(b: Byte)
    ensures Scan(Encode([b]), 0, 0, 0) == Some([b])
  {
    var v0: Sextet, v1: Sextet := b / 4, b % 4 * 16;
    QuantumBits(b, 0, 0);
    ScanSymbol(v0, [Symbol(v1), '=', '='], 0, 0, 0);
    ScanSymbol(v1, ['=', '='], 1, v0, 0);
    assert Encode([b]) == [Symbol(v0)] + [Symbol(v1), '=', '='];
    assert [Symbol(v1), '=', '='] == [Symbol(v1)] + ['=', '='];
    assert ['=', '='][1..] == ['='];
    assert Scan(['='], 2, v1 % 16, 1) == Some([]);
    assert Scan(['=', '='], 2, v1 % 16, 0) == Some([]);
    assert [b] + [] == [b];
  }

  lemma SpreadTwo(a: char, b: char, c: char, d: char)
    ensures [a, b, c, d] == [a] + [b, c, d] && [b, c, d] == [b] + [c, d] && [c, d] == [c] + [d]
  {
  }

  lemma ScanTwo(b0: Byte, b1: Byte)
    ensures Scan(Encode([b0, b1]), 0, 0, 0) == Some([b0, b1])
  {
    var v0: Sextet, v1: Sextet, v2: Sextet := b0 / 4, b0 % 4 * 16 + b1 / 16, b1 % 16 * 4;
    QuantumBits(b0, b1, 0);
    ScanSymbol(v0, [Symbol(v1), Symbol(v2), '='], 0, 0, 0);
    ScanSymbol(v1, [Symbol(v2), '='], 1, v0, 0);
    ScanSymbol(v2, ['='], 2, v1 % 16, 0);
    SpreadTwo(Symbol(v0), Symbol(v1), Symbol(v2), '=');
    assert Encode([b0, b1]) == [Symbol(v0), Symbol(v1), Symbol(v2), '='];
    assert Scan(['='], 3, v2 % 4, 0) == Some([]);
    assert [b0] + ([b1] + []) == [b0, b1];
  }

  lemma ScanQuantum(b0: Byte, b1: Byte, b2: Byte, s: string)
    ensures Scan(Quantum(b0, b1, b2) + s, 0, 0, 0) == Prepend(b0, Prepend(b1, Prepend(b2, Scan(s, 0, 0, 0))))
  {
    var v0: Sextet, v1: Sextet := b0 / 4, b0 % 4 * 16 + b1 / 16;
    var v2: Sextet, v3: Sextet := b1 % 16 * 4 + b2 / 64, b2 % 64;
    QuantumBits(b0, b1, b2);
    SpreadFour(Symbol(v0), Symbol(v1), Symbol(v2), Symbol(v3), s);
    ScanFour(v0, v1, v2, v3, s);
  }

  lemma ScanFour(v0: Sextet, v1: Sextet, v2: Sextet, v3: Sextet, s: string)
    ensures Scan([Symbol(v0)] + ([Symbol(v1)] + ([Symbol(v2)] + ([Symbol(v3)] + s))), 0, 0, 0) ==
      Prepend(v0 * 4 + v1 / 16, Prepend(v1 % 16 * 16 + v2 / 4, Prepend(v2 % 4 * 64 + v3, Scan(s, 0, 0, 0))))
  {
    var s3 := [Symbol(v3)] + s;
    var s2 := [Symbol(v2)] + s3;
    var s1 := [Symbol(v1)] + s2;
    ScanSymbol(v0, s1, 0, 0, 0);
    ScanSymbol(v1, s2, 1, v0, 0);
    ScanTail(v1, v2, v3, s);
  }

  lemma ScanTail(v1: Sextet, v2: Sextet, v3: Sextet, s: string)
    ensures Scan([Symbol(v2)] + ([Symbol(v3)] + s), 2, v1 % 16, 0) ==
      Prepend(v1 % 16 * 16 + v2 / 4, Prepend(v2 % 4 * 64 + v3, Scan(s, 0, 0, 0)))
  {
    ScanSymbol(v2, [Symbol(v3)] + s, 2, v1 % 16, 0);
    ScanSymbol(v3, s, 3, v2 % 4, 0);
  }

  lemma SpreadFour(a: char, b: char, c: char, d: char, s: string)
    ensures [a, b, c, d] + s == [a] + ([b] + ([c] + ([d] + s)))
  {
  }

  lemma {:induction false} ScanInvertsEncode(b: seq<Byte>)
    ensures Scan(Encode(b), 0, 0, 0) == Some(b)
  {
    if |b| == 1 {
      ScanOne(b[0]);
      assert b == [b[0]];
    } else if |b| == 2 {
      ScanTwo(b[0], b[1]);
      assert b == [b[0], b[1]];
    } else if |b| >= 3 {
      ScanQuantum(b[0], b[1], b[2], Encode(b[3..]));
      ScanInvertsEncode(b[3..]);
      assert [b[0]] + ([b[1]] + ([b[2]] + b[3..])) == b;
    }
  }

  function RStrip(s: string): (text: string) {
    if s != [] && s[|s| - 1] == '=' then RStrip(s[..|s| - 1]) else s
  }

  function Padding(n: nat): (p: string) {
    var k: int := -(n as int) % 4;
    seq(k, _ => '=')
  }

  /** `t` is the unpadded spelling of `e`: safe characters only, and its length says how much padding to put back. */
  predicate Unpadded(t: string, e: string) {
    t == RStrip(e) && t + Padding(|t|) == e && forall i :: 0 <= i < |t| ==> IsSafeChar(t[i])
  }

  /** Dropping the padding loses nothing. */
  lemma {:induction false} PaddingRestored(b: seq<Byte>)
    ensures Unpadded(RStrip(Encode(b)), Encode(b))
  {
    if |b| == 1 {
      PaddingRestoredOne(b[0]);
      assert b == [b[0]];
    } else if |b| == 2 {
      PaddingRestoredTwo(b[0], b[1]);
      assert b == [b[0], b[1]];
    } else if |b| >= 3 {
      PaddingRestored(b[3..]);
      PaddingRestoredQuantum(b[0], b[1], b[2], RStrip(Encode(b[3..])), Encode(b[3..]));
    }
  }

  lemma PaddingRestoredOne(b: Byte)
    ensures Unpadded(RStrip(Encode([b])), Encode([b]))
  {
    var e := Encode([b]);
    SymbolValue(b / 4);
    SymbolValue(b % 4 * 16);
    StripPads(e[..2], 2);
    assert e == e[..2] + Padding(2);
  }

  lemma PaddingRestoredTwo(b0: Byte, b1: Byte)
    ensures Unpadded(RStrip(Encode([b0, b1])), Encode([b0, b1]))
  {
    var e := Encode([b0, b1]);
    SymbolValue(b0 / 4);
    SymbolValue(b0 % 4 * 16 + b1 / 16);
    SymbolValue(b1 % 16 * 4);
    StripPads(e[..3], 1);
    assert e == e[..3] + Padding(3);
  }

  lemma PaddingRestoredQuantum(b0: Byte, b1: Byte, b2: Byte, t: string, e: string)
    requires Unpadded(t, e)
    ensures Unpadded(Quantum(b0, b1, b2) + t, Quantum(b0, b1, b2) + e)
  {
    var head := Quantum(b0, b1, b2);
    QuantumIsSafe(b0, b1, b2);
    RStripPrefix(head, e);
    assert Padding(|head + t|) == Padding(|t|) by {
      assert -(4 + |t|) % 4 == -|t| % 4;
    }
    assert (head + t) + Padding(|t|) == head + (t + Padding(|t|));
  }

  lemma QuantumIsSafe(b0: Byte, b1: Byte, b2: Byte)
    ensures forall i :: 0 <= i < 4 ==> IsSafeChar(Quantum(b0, b1, b2)[i])
  {
    SymbolValue(b0 / 4);
    SymbolValue(b0 % 4 * 16 + b1 / 16);
    SymbolValue(b1 % 16 * 4 + b2 / 64);
    SymbolValue(b2 % 64);
  }

  lemma {:induction false} StripPads(s: string, n: nat)
    requires s != [] && s[|s| - 1] != '='
    ensures RStrip(s + seq(n, _ => '=')) == s
  {
    var p := s + seq(n, _ => '=');
    if n == 0 {
      assert p == s;
    } else {
      StripPads(s, n - 1);
      assert p[..|p| - 1] == s + seq(n - 1, _ => '=');
    }
  }

  lemma {:induction false} RStripPrefix(head: string, s: string)
    requires head != [] && head[|head| - 1] != '='
    ensures RStrip(head + s) == head + RStrip(s)
  {
    if s == [] {
      assert head + s == head;
    } else if s[|s| - 1] == '=' {
      RStripPrefix(head, s[..|s| - 1]);
      assert (head + s)[..|head + s| - 1] == head + s[..|s| - 1];
    }
  }

  // Which texts are unpadded encodings

  /** Safe characters only, no lone symbol at the end, and zero in the bits the last symbol does not need. */
  predicate Canonical(t: string) {
    && (forall i :: 0 <= i < |t| ==> IsSafeChar(t[i]))
    && |t| % 4 != 1
    && (|t| % 4 == 2 ==> Bits(t[|t| - 1]) % 16 == 0)
    && (|t| % 4 == 3 ==> Bits(t[|t| - 1]) % 4 == 0)
  }

  function Bits(c: char): (v: Sextet)
    ensures IsSafeChar(c) ==> Symbol(v) == c
    ensures Value(c).Some? ==> v == Value(c).value
  {
    match Value(c)
    case None => 0
    case Some(v) => v
  }

  lemma TailIsCanonical(head: string, t: string)
    requires |head| == 4 && forall i :: 0 <= i < 4 ==> IsSafeChar(head[i])
    ensures Canonical(head + t) <==> Canonical(t)
  {
    var all := head + t;
    assert |all| % 4 == |t| % 4;
    assert t != "" ==> all[|all| - 1] == t[|t| - 1];
    if Canonical(all) {
      assert forall i :: 0 <= i < |t| ==> t[i] == all[i + 4];
    }
  }

  lemma {:induction false} EncodingIsCanonical(b: seq<Byte>)
    ensures Canonical(RStrip(Encode(b)))
  {
    PaddingRestored(b);
    if |b| == 1 {
      StripPads(Encode(b)[..2], 2);
      assert Encode(b) == Encode(b)[..2] + seq(2, _ => '=');
      SymbolValue(b[0] % 4 * 16);
    } else if |b| == 2 {
      StripPads(Encode(b)[..3], 1);
      assert Encode(b) == Encode(b)[..3] + seq(1, _ => '=');
      SymbolValue(b[1] % 16 * 4);
    } else if |b| >= 3 {
      EncodingIsCanonical(b[3..]);
      QuantumIsSafe(b[0], b[1], b[2]);
      RStripPrefix(Quantum(b[0], b[1], b[2]), Encode(b[3..]));
      TailIsCanonical(Quantum(b[0], b[1], b[2]), RStrip(Encode(b[3..])));
    }
  }

  /** Four sextets are three bytes. */
  lemma SextetBits(v0: int, v1: int, v2: int, v3: int)
    requires 0 <= v0 < 64 && 0 <= v1 < 64 && 0 <= v2 < 64 && 0 <= v3 < 64
    ensures var b0, b1, b2 := v0 * 4 + v1 / 16, v1 % 16 * 16 + v2 / 4, v2 % 4 * 64 + v3;
      && 0 <= b0 < 256 && 0 <= b1 < 256 && 0 <= b2 < 256
      && b0 / 4 == v0 && b0 % 4 * 16 + b1 / 16 == v1 && b1 % 16 * 4 + b2 / 64 == v2 && b2 % 64 == v3
  {
    assert (v0 * 4 + v1 / 16) % 4 == v1 / 16;
    assert (v1 % 16 * 16 + v2 / 4) / 16 == v1 % 16 && (v1 % 16 * 16 + v2 / 4) % 16 == v2 / 4;
    assert (v2 % 4 * 64 + v3) / 64 == v2 % 4 && (v2 % 4 * 64 + v3) % 64 == v3;
  }

  lemma QuantumOf(t: string) returns (b0: Byte, b1: Byte, b2: Byte)
    requires |t| == 4 && forall i :: 0 <= i < 4 ==> IsSafeChar(t[i])
    ensures Quantum(b0, b1, b2) == t
  {
    var v0: int, v1: int, v2: int, v3: int := Bits(t[0]), Bits(t[1]), Bits(t[2]), Bits(t[3]);
    SextetBits(v0, v1, v2, v3);
    b0, b1, b2 := v0 * 4 + v1 / 16, v1 % 16 * 16 + v2 / 4, v2 % 4 * 64 + v3;
    QuantumSymbols(b0, b1, b2, v0, v1, v2, v3);
    assert t == [t[0], t[1], t[2], t[3]];
  }

  lemma QuantumSymbols(b0: Byte, b1: Byte, b2: Byte, v0: Sextet, v1: Sextet, v2: Sextet, v3: Sextet)
    requires b0 / 4 == v0 && b0 % 4 * 16 + b1 / 16 == v1 && b1 % 16 * 4 + b2 / 64 == v2 && b2 % 64 == v3
    ensures Quantum(b0, b1, b2) == [Symbol(v0), Symbol(v1), Symbol(v2), Symbol(v3)]
  {
  }

  lemma LastTwo(t: string) returns (b: seq<Byte>)
    requires Canonical(t) && |t| == 2
    ensures RStrip(Encode(b)) == t
  {
    var v0: int, v1: int := Bits(t[0]), Bits(t[1]);
    SextetBits(v0, v1, 0, 0);
    b := [v0 * 4 + v1 / 16];
    StripPads(t, 2);
    assert Encode(b) == t + seq(2, _ => '=');
  }

  lemma TwoBytes(b0: Byte, b1: Byte, t: string)
    requires |t| == 3 && t[0] == Symbol(b0 / 4) && t[1] == Symbol(b0 % 4 * 16 + b1 / 16) && t[2] == Symbol(b1 % 16 * 4)
    ensures Encode([b0, b1]) == t + seq(1, _ => '=')
  {
  }

  lemma LastThree(t: string) returns (b: seq<Byte>)
    requires Canonical(t) && |t| == 3
    ensures RStrip(Encode(b)) == t
  {
    var v0: int, v1: int, v2: int := Bits(t[0]), Bits(t[1]), Bits(t[2]);
    SextetBits(v0, v1, v2, 0);
    b := [v0 * 4 + v1 / 16, v1 % 16 * 16 + v2 / 4];
    assert v2 % 4 == 0;
    TwoBytes(b[0], b[1], t);
    StripPads(t, 1);
  }

  /** Every canonical text is the unpadded encoding of some bytes. */
  lemma {:induction false} CanonicalIsEncoding(t: string) returns (b: seq<Byte>)
    requires Canonical(t)
    ensures RStrip(Encode(b)) == t
    decreases |t|
  {
    if t == "" {
      b := [];
    } else if |t| == 2 {
      b := LastTwo(t);
    } else if |t| == 3 {
      b := LastThree(t);
    } else {
      var head, tail := t[..4], t[4..];
      var b0, b1, b2 := QuantumOf(head);
      assert t == head + tail;
      TailIsCanonical(head, tail);
      var rest := CanonicalIsEncoding(tail);
      b := [b0, b1, b2] + rest;
      assert b[3..] == rest;
      RStripPrefix(head, Encode(rest));
    }
  }
}
