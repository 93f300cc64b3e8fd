/** Base 128 varints as the protobuf runtime writes, measures and reads them. */
module Varints {
  import opened Arithmetic
  import opened Bytes
  import opened Options

  const TWO_32: nat := 0x1_0000_0000
  const TWO_64: nat := 0x1_0000_0000_0000_0000
  /** The longest length-delimited payload: INT_MAX less the parser's slop. */
  const MAX_SIZE: nat := 0x7fff_ffff - 16

  type uint64 = n: int | 0 <= n < 0x1_0000_0000_0000_0000

  // ---------- the encoding ----------

  function EncodeVarint(v: nat): (s: seq<byte>)
    ensures |s| > 0
  {
    if v < 128 then [v] else [v % 128 + 128] + EncodeVarint(v / 128)
  }

  datatype Read = Read(value: nat, size: nat)

  /** The varint at the front of `s`, if it ends within `max` bytes: its
      mathematical value, before any truncation, and its length. */
  function DecodeVarint(s: seq<byte>, max: nat): (r: Option<Read>)
    ensures r.Some? ==> 0 < r.value.size <= |s| && r.value.size <= max
  {
    if |s| == 0 || max == 0 then None
    else if s[0] < 128 then Some(Read(s[0], 1))
    else
      match DecodeVarint(s[1..], max - 1)
      case None => None
      case Some(r) => Some(Read(s[0] - 128 + 128 * r.value, r.size + 1))
  }

  lemma {:induction false} DecodeEncode(v: nat, t: seq<byte>, max: nat)
    requires |EncodeVarint(v)| <= max
    ensures DecodeVarint(EncodeVarint(v) + t, max) == Some(Read(v, |EncodeVarint(v)|))
  {
    if v >= 128 {
      DecodeEncode(v / 128, t, max - 1);
      assert (EncodeVarint(v) + t)[1..] == EncodeVarint(v / 128) + t;
    }
  }

  /** What a varint decodes to does not depend on what follows it. */
  lemma {:induction false} DecodePrefix(s: seq<byte>, t: seq<byte>, max: nat)
    requires DecodeVarint(s, max).Some?
    ensures DecodeVarint(s + t, max) == DecodeVarint(s, max)
  {
    if s[0] >= 128 {
      assert (s + t)[1..] == s[1..] + t;
      DecodePrefix(s[1..], t, max - 1);
    }
  }

  function Pow128(n: nat): (p: nat)
    ensures p > 0
  {
    if n == 0 then 1 else 128 * Pow128(n - 1)
  }

  lemma {:induction false} EncodedLength(v: nat, n: nat)
    requires n > 0 && v < Pow128(n)
    ensures |EncodeVarint(v)| <= n
  {
    if v >= 128 {
      assert Pow128(1) == 128 * Pow128(0);
      EncodedLength(v / 128, n - 1);
    }
  }

  lemma Powers()
    ensures Pow128(4) == 0x1000_0000 && Pow128(5) == 0x8_0000_0000 && Pow128(9) == 0x8000_0000_0000_0000
    ensures Pow128(10) > TWO_64
  {
    assert Pow128(2) == 0x4000 && Pow128(3) == 0x20_0000 && Pow128(4) == 0x1000_0000;
    assert Pow128(5) == 0x8_0000_0000 && Pow128(6) == 0x400_0000_0000 && Pow128(7) == 0x2_0000_0000_0000;
    assert Pow128(8) == 0x100_0000_0000_0000 && Pow128(9) == 0x8000_0000_0000_0000;
  }

  lemma EncodedSizes(v: nat)
    ensures v < TWO_32 ==> |EncodeVarint(v)| <= 5
    ensures v < TWO_64 ==> |EncodeVarint(v)| <= 10
  {
    Powers();
    if v < TWO_32 {
      EncodedLength(v, 5);
    }
    if v < TWO_64 {
      EncodedLength(v, 10);
    }
  }

  /** The digit of `v` to base 128 that counts 128^i. */
  function Digit(v: nat, i: nat): (d: nat)
    ensures d < 128
  {
    v / Pow128(i) % 128
  }

  lemma DigitShift(v: nat, i: nat)
    ensures Digit(v / 128, i) == Digit(v, i + 1)
  {
    var p, q := Pow128(i), v / 128;
    var a, r := q / p, 128 * (q % p) + v % 128;
    assert v == a * (128 * p) + r by {
      assert q == p * a + q % p;
      assert 128 * (p * a) == a * (128 * p);
    }
    QuotientUnique(a, 128 * p, r);
  }

  /** An encoding is the digits to base 128, least significant first, with 128 added to
      all but the last; and it is the shortest such. */
  lemma {:induction false} EncodedDigits(v: nat)
    ensures var s := EncodeVarint(v);
            && (forall i | 0 <= i < |s| :: s[i] == Digit(v, i) + if i + 1 < |s| then 128 else 0)
            && v < Pow128(|s|) && (|s| > 1 ==> Pow128(|s| - 1) <= v)
  {
    var s := EncodeVarint(v);
    assert Pow128(0) == 1 && Pow128(1) == 128 && Digit(v, 0) == v % 128;
    if v >= 128 {
      var t := EncodeVarint(v / 128);
      EncodedDigits(v / 128);
      assert s == [v % 128 + 128] + t;
      hide Digit;
      forall i | 0 < i < |s| ensures s[i] == Digit(v, i) + if i + 1 < |s| then 128 else 0 {
        DigitShift(v, i - 1);
        assert s[i] == t[i - 1];
      }
    }
  }

  /** In bytes. */
  lemma VarintBytes(v: nat)
    ensures v < 128 ==> EncodeVarint(v) == [v]
    ensures 128 <= v < 16384 ==> EncodeVarint(v) == [128 + v % 128, v / 128]
    ensures EncodeVarint(300) == [0xAC, 0x02]
  {
  }

  // ---------- sizes ----------

  /** Bits::Log2FloorNonZero(v | 1). */
  function Log2(v: nat): nat {
    if v < 2 then 0 else 1 + Log2(v / 2)
  }

  /** The runtime's branch-free size formula. */
  function VarintSize(v: nat): nat { (Log2(v) * 9 + 73) / 64 }

  lemma {:induction false} Log2Bound(v: nat, k: nat)
    requires v < 0x1_0000_0000_0000_0000 && k <= 64 && v < Pow2(k) && k > 0
    ensures Log2(v) < k
  {
    if v >= 2 {
      Log2Bound(v / 2, k - 1);
    }
  }

  function Pow2(k: nat): nat { if k == 0 then 1 else 2 * Pow2(k - 1) }

  lemma Log2Shift(v: nat)
    requires v >= 128
    ensures Log2(v) == 7 + Log2(v / 128)
  {
    var a := v / 2;
    var b := a / 2;
    var c := b / 2;
    var d := c / 2;
    var e := d / 2;
    var f := e / 2;
    assert f / 2 == v / 128;
    assert Log2(v) == 1 + Log2(a) && Log2(a) == 1 + Log2(b) && Log2(b) == 1 + Log2(c);
    assert Log2(c) == 1 + Log2(d) && Log2(d) == 1 + Log2(e) && Log2(e) == 1 + Log2(f);
  }

  lemma Log2Small(v: nat)
    requires v < 128
    ensures Log2(v) < 7
  {
    assert Pow2(7) == 128 by {
      assert Pow2(3) == 8;
      assert Pow2(5) == 32;
    }
    Log2Bound(v, 7);
  }

  lemma {:induction false} LengthIsLog(v: nat)
    ensures |EncodeVarint(v)| == Log2(v) / 7 + 1
  {
    if v < 128 {
      Log2Small(v);
    } else {
      Log2Shift(v);
      LengthIsLog(v / 128);
    }
  }

  /** The formula is the encoded length for every 64-bit value. */
  lemma VarintSizeIsLength(v: uint64)
    ensures VarintSize(v) == |EncodeVarint(v)|
  {
    LengthIsLog(v);
    EncodedSizes(v);
    var l := Log2(v);
    assert l / 7 <= 9;
    assert (l * 9 + 73) / 64 == l / 7 + 1;
  }

  // ---------- int32 on the wire ----------

  type int32 = n: int | -0x8000_0000 <= n < 0x8000_0000

  /** A negative int32 is sign-extended to 64 bits, so it takes ten bytes. */
  function SignExtend(n: int32): uint64 { if n < 0 then n + TWO_64 else n }

  function ToInt32(n: uint32): int32 { if n < 0x8000_0000 then n else n - TWO_32 }

  /** Non-negative numbers are written as they are; negative ones take ten bytes. */
  lemma SignExtendMeans(n: int32)
    ensures n >= 0 ==> SignExtend(n) == n && |EncodeVarint(SignExtend(n))| <= 5
    ensures n < 0 ==> SignExtend(n) - n == 0x1_0000_0000_0000_0000 && |EncodeVarint(SignExtend(n))| == 10
  {
    EncodedSizes(SignExtend(n));
    if n < 0 {
      Powers();
      EncodedDigits(SignExtend(n));
    }
  }

  lemma SignExtendRoundTrip(n: int32)
    ensures ToInt32(SignExtend(n) % TWO_32) == n
  {
  }

  // ---------- the runtime's readers ----------

  /** VarintParse: at most ten bytes, the value modulo 2^64. */
  function Varint64(s: seq<byte>): Option<Read> {
    match DecodeVarint(s, 10)
    case None => None
    case Some(r) => Some(Read(r.value % TWO_64, r.size))
  }

  /** A tag: at most five bytes. */
  function Tag(s: seq<byte>): Option<Read> {
    match DecodeVarint(s, 5)
    case None => None
    case Some(r) => Some(Read(r.value % TWO_32, r.size))
  }

  /** The length of a payload: at most five bytes and at most MAX_SIZE. */
  function Size(s: seq<byte>): Option<Read> {
    match DecodeVarint(s, 5)
    case None => None
    case Some(r) => if r.value <= MAX_SIZE then Some(r) else None
  }

  // ---------- how they compute it ----------

  /** The low seven bits of the first `n` bytes, least significant first. */
  function LowBits(s: seq<byte>, n: nat): int
    requires n <= |s|
  {
    if n == 0 then 0 else LowBits(s, n - 1) + (s[n - 1] - 128) * Pow128(n - 1)
  }

  /** After `n` continuation bytes the rest of the varint counts 128^n. */
  lemma {:induction false} DecodeAfter(s: seq<byte>, n: nat, max: nat)
    requires n <= |s| && n <= max
    requires forall i | 0 <= i < n :: s[i] >= 128
    ensures match DecodeVarint(s[n..], max - n)
            case None => DecodeVarint(s, max) == None
            case Some(r) =>
              && DecodeVarint(s, max).Some?
              && DecodeVarint(s, max).value.value == LowBits(s, n) + r.value * Pow128(n)
              && DecodeVarint(s, max).value.size == r.size + n
    decreases n
  {
    if n == 0 {
      assert s[0..] == s;
    } else {
      var m := n - 1;
      DecodeAfter(s, m, max);
      assert s[m..][0] == s[m] && s[m..][1..] == s[n..];
      match DecodeVarint(s[n..], max - n) {
        case None =>
        case Some(r) =>
          assert DecodeVarint(s[m..], max - m) == Some(Read(s[m] - 128 + 128 * r.value, r.size + 1));
          Distribute(s[m] - 128, r.value, Pow128(m));
      }
    }
  }

  lemma Distribute(a: int, b: int, p: int)
    ensures (a + 128 * b) * p == a * p + b * (128 * p)
  {
    assert (a + 128 * b) * p == a * p + (128 * b) * p;
    assert (128 * b) * p == b * (128 * p);
  }

  /** The readers' trick: each byte is added less one, so that its own bit 7 stands
      for the one the next byte takes away. */
  lemma Accumulate(s: seq<byte>, i: nat)
    requires i < |s|
    ensures LowBits(s, i) + Pow128(i) + (s[i] - 1) * Pow128(i) == LowBits(s, i) + s[i] * Pow128(i)
    ensures LowBits(s, i + 1) + Pow128(i + 1) == LowBits(s, i) + s[i] * Pow128(i)
  {
    var b, p := s[i] as int, Pow128(i);
    assert (b - 1) * p == b * p - p;
    assert (b - 128) * p == b * p - 128 * p;
  }

  lemma {:induction false} PowerVanishes(limit: nat, i: nat, modulus: nat)
    requires limit <= i && modulus > 0 && Pow128(limit) % modulus == 0
    ensures Pow128(i) % modulus == 0
  {
    if limit < i {
      PowerVanishes(limit, i - 1, modulus);
      DropMultiple(0, 128, Pow128(i - 1), modulus);
    }
  }

  /** One more byte, in or beyond the part that counts. */
  lemma AccumulateModulo(s: seq<byte>, i: nat, limit: nat, modulus: nat, res: nat)
    requires i < |s| && modulus > 0
    requires i >= limit ==> Pow128(limit) % modulus == 0
    requires res == (LowBits(s, i) + Pow128(i)) % modulus
    ensures var next := if i < limit then (res + (s[i] - 1) * Pow128(i)) % modulus else res;
            && next == (LowBits(s, i) + s[i] * Pow128(i)) % modulus
            && next == (LowBits(s, i + 1) + Pow128(i + 1)) % modulus
  {
    hide LowBits, Pow128;
    Accumulate(s, i);
    var b: int, y: int, p: int := s[i], LowBits(s, i) + Pow128(i), Pow128(i);
    AddReduced(y, (b - 1) * p, modulus);
    if i >= limit {
      PowerVanishes(limit, i, modulus);
      DropMultiple(y, b - 1, p, modulus);
    }
  }

  /** The varint ends at byte `i`. */
  lemma DecodeEnds(s: seq<byte>, i: nat, max: nat)
    requires i < |s| && i < max && s[i] < 128
    requires forall j | 0 <= j < i :: s[j] >= 128
    ensures DecodeVarint(s, max).Some?
    ensures DecodeVarint(s, max).value.value == LowBits(s, i) + s[i] * Pow128(i)
    ensures DecodeVarint(s, max).value.size == i + 1
  {
    DecodeAfter(s, i, max);
    assert s[i..][0] == s[i];
  }

  /** The loop of VarintParse, ReadTag and their fallbacks: the first `limit` bytes
      contribute to the result, modulo `modulus`, and up to `max` are accepted. */
  method ParseVarint(data: seq<byte>, p: nat, limit: nat, max: nat, modulus: nat) returns (ok: bool, value: nat,
        next: nat)
    requires p <= |data| && 1 <= limit <= max && modulus >= 256
    requires limit < max ==> Pow128(limit) % modulus == 0
    ensures match DecodeVarint(data[p..], max)
            case None => !ok
            case Some(r) => ok && value == r.value % modulus && next == p + r.size
  {
    ghost var s := data[p..];
    if p == |data| {
      return false, 0, p;
    }
    var res: nat := data[p];
    if data[p] < 128 {
      return true, res, p + 1;
    }
    var i := 1;
    Accumulate(s, 0);
    while i < max
      invariant 1 <= i <= max && i <= |s|
      invariant forall j | 0 <= j < i :: s[j] >= 128
      invariant res == (LowBits(s, i) + Pow128(i)) % modulus
    {
      if p + i >= |data| {
        DecodeAfter(s, i, max);
        return false, 0, p;
      }
      var b := data[p + i];
      AccumulateModulo(s, i, limit, modulus, res);
      if i < limit {
        res := (res + (b - 1) * Pow128(i)) % modulus;
      }
      if b < 128 {
        DecodeEnds(s, i, max);
        return true, res, p + i + 1;
      }
      i := i + 1;
    }
    DecodeAfter(s, i, max);
    return false, 0, p;
  }

  /** ReadTag. */
  method ReadTag(data: seq<byte>, p: nat) returns (ok: bool, tag: nat, next: nat)
    requires p <= |data|
    ensures match Tag(data[p..])
            case None => !ok
            case Some(t) => ok && tag == t.value && next == p + t.size
    ensures ok ==> p < next <= |data|
  {
    hide DecodeVarint;
    ok, tag, next := ParseVarint(data, p, 5, 5, TWO_32);
  }

  /** ReadVarint32: a varint of up to ten bytes, truncated. */
  method ReadVarint32(data: seq<byte>, p: nat) returns (ok: bool, value: uint32, next: nat)
    requires p <= |data|
    ensures match DecodeVarint(data[p..], 10)
            case None => !ok
            case Some(r) => ok && value == r.value % TWO_32 && next == p + r.size
    ensures ok ==> p < next <= |data|
  {
    hide DecodeVarint;
    Powers();
    value := 0;
    var v;
    ok, v, next := ParseVarint(data, p, 5, 10, TWO_32);
    if ok {
      value := v;
    }
  }
}
