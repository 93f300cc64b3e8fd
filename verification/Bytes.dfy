/** Bytes and the little-endian words of a packet header. */
module Bytes {

  type byte = b: int | 0 <= b < 0x100

  type uint32 = n: int | 0 <= n < 0x1_0000_0000

  function Decode32(s: seq<byte>): (n: uint32)
    requires |s| >= 4
  {
    (s[0] as int) + 0x100 * (s[1] as int) + 0x1_0000 * (s[2] as int) + 0x100_0000 * (s[3] as int)
  }

  /** Only the first four bytes matter. */
  lemma Decode32Prefix(s: seq<byte>, t: seq<byte>)
    requires |s| >= 4 && |t| >= 4 && s[..4] == t[..4]
    ensures Decode32(s) == Decode32(t)
  {
    assert forall i | 0 <= i < 4 :: s[i] == s[..4][i] == t[..4][i] == t[i];
  }

  function Encode32(n: uint32): (s: seq<byte>)
    ensures |s| == 4
  {
    [n % 0x100, n / 0x100 % 0x100, n / 0x1_0000 % 0x100, n / 0x100_0000]
  }

  lemma Decode32Encode32(n: uint32, tail: seq<byte>)
    ensures Decode32(Encode32(n) + tail) == n
  {
    var s := Encode32(n) + tail;
    assert n / 0x1_0000 == n / 0x100 / 0x100 && n / 0x100_0000 == n / 0x1_0000 / 0x100;
    assert s[0] == n % 0x100 && s[1] == n / 0x100 % 0x100 && s[2] == n / 0x1_0000 % 0x100 && s[3] == n / 0x100_0000;
  }

  /** Little-endian: the first byte counts ones, and each further one 256 times as much
      as the one before. */
  lemma LowByteFirst(a: byte, b: byte, c: byte, d: byte, tail: seq<byte>)
    ensures Decode32([a, 0, 0, 0] + tail) == a
    ensures Decode32([a, b, c, d] + tail) == a + 256 * Decode32([b, c, d, 0])
  {
  }

  /** The bytes of a word, spelt out. */
  lemma WordBytes(n: uint32)
    ensures Encode32(n)[0] == n % 256 && Encode32(n)[1] == n / 256 % 256
    ensures n < 256 ==> Encode32(n) == [n, 0, 0, 0]
    ensures n < 65536 ==> Encode32(n) == [n % 256, n / 256, 0, 0]
    ensures n >= 256 ==> Encode32(n)[1..] == Encode32(n / 256)[..3]
  {
    assert n / 0x1_0000 == n / 0x100 / 0x100 && n / 0x100_0000 == n / 0x1_0000 / 0x100;
  }

  function Concat<T>(parts: seq<seq<T>>): seq<T> {
    if |parts| == 0 then [] else parts[0] + Concat(parts[1..])
  }

  lemma {:induction false} ConcatAppend<T>(a: seq<seq<T>>, b: seq<seq<T>>)
    ensures Concat(a + b) == Concat(a) + Concat(b)
  {
    if |a| == 0 {
      assert a + b == b;
    } else {
      assert (a + b)[1..] == a[1..] + b;
      ConcatAppend(a[1..], b);
    }
  }
}
