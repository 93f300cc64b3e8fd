/** UTF-8: the check a parser makes of a text, against the encoding of Unicode scalar
    values. */
module Utf8 {
  import opened Bytes

  // ---------- the encoding ----------

  /** Code points without the surrogates. */
  type scalar = c: int | 0 <= c < 0xD800 || 0xE000 <= c < 0x11_0000

  function Encode(c: scalar): seq<byte> {
    if c < 0x80 then [c]
    else if c < 0x800 then [0xC0 + c / 64, 0x80 + c % 64]
    else if c < 0x1_0000 then [0xE0 + c / 4096, 0x80 + c / 64 % 64, 0x80 + c % 64]
    else [0xF0 + c / 0x4_0000, 0x80 + c / 4096 % 64, 0x80 + c / 64 % 64, 0x80 + c % 64]
  }

  function EncodeAll(cs: seq<scalar>): seq<byte> {
    if |cs| == 0 then [] else Encode(cs[0]) + EncodeAll(cs[1..])
  }

  // ---------- the check ----------

  predicate IsContinuation(b: byte) { 0x80 <= b <= 0xBF }

  /** The length of the well-formed character `s` starts with, or 0: Table 3-7 of
      the Unicode Standard, which excludes surrogates and overlong forms. */
  function CharLength(s: seq<byte>): (n: nat)
    ensures n <= |s|
  {
    if |s| >= 1 && s[0] <= 0x7F then 1
    else if |s| >= 2 && 0xC2 <= s[0] <= 0xDF && IsContinuation(s[1]) then 2
    else if |s| >= 3 && IsContinuation(s[1]) && IsContinuation(s[2])
            && (s[0] == 0xE0 ==> s[1] >= 0xA0) && (s[0] == 0xED ==> s[1] <= 0x9F) && 0xE0 <= s[0] <= 0xEF then 3
    else if |s| >= 4 && IsContinuation(s[1]) && IsContinuation(s[2]) && IsContinuation(s[3])
            && (s[0] == 0xF0 ==> s[1] >= 0x90) && (s[0] == 0xF4 ==> s[1] <= 0x8F) && 0xF0 <= s[0] <= 0xF4 then 4
    else 0
  }

  predicate ValidUtf8(s: seq<byte>) {
    |s| == 0 || (CharLength(s) > 0 && ValidUtf8(s[CharLength(s)..]))
  }

  // ---------- the check accepts exactly the encodings ----------

  /** A number of up to three digits of base 64 below a leading one. */
  lemma Digits(a: nat, b: nat, c: nat, d: nat)
    requires b < 64 && c < 64 && d < 64
    ensures var n := ((a * 64 + b) * 64 + c) * 64 + d;
            n % 64 == d && n / 64 % 64 == c && n / 4096 % 64 == b && n / 0x4_0000 == a
  {
    var n := ((a * 64 + b) * 64 + c) * 64 + d;
    assert n / 64 == (a * 64 + b) * 64 + c;
    assert n / 4096 == n / 64 / 64 == a * 64 + b;
    assert n / 0x4_0000 == n / 4096 / 64 == a;
  }

  /** The scalar that a well-formed character encodes. */
  lemma CharEncodes(s: seq<byte>) returns (c: scalar)
    requires CharLength(s) > 0
    ensures s[..CharLength(s)] == Encode(c)
  {
    match CharLength(s)
    case 1 => c := s[0];
    case 2 => c := TwoBytes(s);
    case 3 => c := ThreeBytes(s);
    case _ => c := FourBytes(s);
  }

  lemma TwoBytes(s: seq<byte>) returns (c: scalar)
    requires CharLength(s) == 2
    ensures s[..2] == Encode(c)
  {
    Digits(0, 0, s[0] as int - 0xC0, s[1] as int - 0x80);
    c := (s[0] as int - 0xC0) * 64 + (s[1] as int - 0x80);
  }

  lemma ThreeBytes(s: seq<byte>) returns (c: scalar)
    requires CharLength(s) == 3
    ensures s[..3] == Encode(c)
  {
    Digits(0, s[0] as int - 0xE0, s[1] as int - 0x80, s[2] as int - 0x80);
    c := ((s[0] as int - 0xE0) * 64 + (s[1] as int - 0x80)) * 64 + (s[2] as int - 0x80);
  }

  lemma FourBytes(s: seq<byte>) returns (c: scalar)
    requires CharLength(s) == 4
    ensures s[..4] == Encode(c)
  {
    Digits(s[0] as int - 0xF0, s[1] as int - 0x80, s[2] as int - 0x80, s[3] as int - 0x80);
    c := (((s[0] as int - 0xF0) * 64 + (s[1] as int - 0x80)) * 64 + (s[2] as int - 0x80)) * 64 + (s[3] as int - 0x80);
  }

  /** What encodes a scalar is a well-formed character, whatever follows. */
  lemma EncodedIsChar(c: scalar, tail: seq<byte>)
    ensures CharLength(Encode(c) + tail) == |Encode(c)| > 0
  {
    assert c / 4096 == c / 64 / 64 && c / 0x4_0000 == c / 4096 / 64;
  }

  /** The bytes accepted are exactly the encodings of sequences of scalar values. */
  lemma {:induction false} ValidIsEncoded(s: seq<byte>)
    ensures ValidUtf8(s) <==> exists cs: seq<scalar> :: s == EncodeAll(cs)
  {
    if ValidUtf8(s) {
      var cs := Decoded(s);
    }
    if cs: seq<scalar> :| s == EncodeAll(cs) {
      EncodedIsValid(cs);
    }
  }

  lemma {:induction false} Decoded(s: seq<byte>) returns (cs: seq<scalar>)
    requires ValidUtf8(s)
    ensures s == EncodeAll(cs)
  {
    if |s| == 0 {
      cs := [];
    } else {
      var c := CharEncodes(s);
      var rest := Decoded(s[CharLength(s)..]);
      cs := [c] + rest;
      assert cs[1..] == rest;
    }
  }

  lemma {:induction false} EncodedIsValid(cs: seq<scalar>)
    ensures ValidUtf8(EncodeAll(cs))
  {
    if |cs| > 0 {
      var rest := EncodeAll(cs[1..]);
      EncodedIsChar(cs[0], rest);
      EncodedIsValid(cs[1..]);
      assert (Encode(cs[0]) + rest)[|Encode(cs[0])|..] == rest;
    }
  }
}
