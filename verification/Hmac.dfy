/** HMACEngine: the message authentication code of RFC 2104 driven over any digest
    engine, checked against section 2 of that document. */
module Hmacs {

  type Octets = seq<bv8>

  // ---------- section 2 of RFC 2104 ----------

  function Zeros(n: nat): Octets {
    seq(n, _ => 0)
  }

  function XorAll(s: Octets, pad: bv8): (r: Octets)
    ensures |r| == |s|
  {
    seq(|s|, i requires 0 <= i < |s| => s[i] ^ pad)
  }

  /** `k` filled up with zeros, or cut, to `n` octets. */
  function Fitted(k: Octets, n: nat): (r: Octets)
    ensures |r| == n
  {
    if |k| <= n then k + Zeros(n - |k|) else k[..n]
  }

  /** The key of block size: hashed first when it is longer than a block. */
  function BlockKey(hash: Octets -> Octets, n: nat, key: Octets): (r: Octets)
    ensures |r| == n
  {
    Fitted(if |key| > n then hash(key) else key, n)
  }

  /** H(K XOR opad, H(K XOR ipad, text)) */
  function Hmac(hash: Octets -> Octets, n: nat, key: Octets, text: Octets): Octets {
    var k := BlockKey(hash, n, key);
    hash(XorAll(k, 0x5c) + hash(XorAll(k, 0x36) + text))
  }

  function Flatten(parts: seq<Octets>): Octets {
    if |parts| == 0 then [] else Flatten(parts[..|parts| - 1]) + parts[|parts| - 1]
  }

  /** Zeros behind a key shorter than a block do not matter. */
  lemma PaddedKey(hash: Octets -> Octets, n: nat, key: Octets, zeros: nat, text: Octets)
    requires |key| + zeros <= n
    ensures Hmac(hash, n, key + Zeros(zeros), text) == Hmac(hash, n, key, text)
  {
    assert (key + Zeros(zeros)) + Zeros(n - |key| - zeros) == key + Zeros(n - |key|);
  }

  /** A key longer than a block is as good as its hash, cut to a block. */
  lemma LongKey(hash: Octets -> Octets, n: nat, key: Octets, text: Octets)
    requires |key| > n
    ensures |hash(key)| <= n ==> Hmac(hash, n, key, text) == Hmac(hash, n, hash(key), text)
    ensures |hash(key)| > n ==> Hmac(hash, n, key, text) == Hmac(hash, n, hash(key)[..n], text)
  {
    if |hash(key)| > n {
      assert hash(key)[..n] + Zeros(0) == hash(key)[..n];
    }
  }

  /** The two blocks absorbed first, octet by octet. */
  lemma PadOctets(hash: Octets -> Octets, n: nat, key: Octets, text: Octets) returns (inner: Octets, outer: Octets)
    requires |key| <= n
    ensures Hmac(hash, n, key, text) == hash(outer + hash(inner + text)) && |inner| == |outer| == n
    ensures forall i | 0 <= i < |key| :: inner[i] == key[i] ^ 0x36 && outer[i] == key[i] ^ 0x5c
    ensures forall i | |key| <= i < n :: inner[i] == 0x36 && outer[i] == 0x5c
  {
    inner, outer := XorAll(key + Zeros(n - |key|), 0x36), XorAll(key + Zeros(n - |key|), 0x5c);
  }

  // ---------- engines ----------

  /** A digest engine: after digest() it must be reset before the next update(). */
  class DigestEngine {
    const hash: Octets -> Octets
    var absorbed: Octets
    var finished: bool

    constructor (hash: Octets -> Octets)
      ensures this.hash == hash && absorbed == [] && !finished
    {
      this.hash := hash;
      absorbed, finished := [], false;
    }

    method Reset()
      modifies this
      ensures absorbed == [] && !finished
    {
      absorbed, finished := [], false;
    }

    method Update(data: Octets)
      requires !finished
      modifies this
      ensures absorbed == old(absorbed) + data && !finished
    {
      absorbed := absorbed + data;
    }

    method Digest() returns (d: Octets)
      modifies this
      ensures d == hash(old(absorbed)) && finished
    {
      d := hash(absorbed);
      finished := true;
    }
  }

  class HMACEngine {
    const blockSize: nat
    const engine: DigestEngine
    const ipad: array<bv8>
    const opad: array<bv8>
    ghost var key: Octets
    ghost var text: Octets  // what update() has got since the last digest() or reset()

    ghost predicate Valid()
      reads this, engine, ipad, opad
    {
      && ipad != opad
      && ipad[..] == XorAll(BlockKey(engine.hash, blockSize, key), 0x36)
      && opad[..] == XorAll(BlockKey(engine.hash, blockSize, key), 0x5c)
      && !engine.finished && engine.absorbed == ipad[..] + text
    }

    constructor (hash: Octets -> Octets, blockSize: nat, passphrase: Octets)
      ensures Valid() && fresh(engine) && fresh(ipad) && fresh(opad)
      ensures engine.hash == hash && this.blockSize == blockSize && key == passphrase && text == []
    {
      this.blockSize := blockSize;
      engine := new DigestEngine(hash);
      ipad := new bv8[blockSize](_ => 0);
      opad := new bv8[blockSize](_ => 0);
      key, text := passphrase, [];
      new;
      if |passphrase| > blockSize {
        engine.Reset();
        engine.Update(passphrase);
        var d := engine.Digest();
        assert [] + passphrase == passphrase;
        Spread(d);
      } else {
        Spread(passphrase);
      }
      XorPads(BlockKey(hash, blockSize, passphrase));
      engine.Reset();
      engine.Update(ipad[..]);
      assert engine.absorbed == ipad[..] + [];
    }

    /** Copies into both pads, which hold zeros, what fits of `k`. */
    method Spread(k: Octets)
      requires ipad != opad && ipad.Length == opad.Length
      requires ipad[..] == Zeros(ipad.Length) && opad[..] == Zeros(ipad.Length)
      modifies ipad, opad
      ensures ipad[..] == Fitted(k, ipad.Length) && opad[..] == Fitted(k, ipad.Length)
    {
      var n := 0;
      while n < |k| && n < ipad.Length
        invariant n <= |k| && n <= ipad.Length
        invariant forall j | 0 <= j < ipad.Length :: ipad[j] == if j < n then k[j] else 0
        invariant forall j | 0 <= j < ipad.Length :: opad[j] == if j < n then k[j] else 0
      {
        ipad[n], opad[n] := k[n], k[n];
        n := n + 1;
      }
    }

    method XorPads(ghost k: Octets)
      requires ipad != opad && ipad.Length == opad.Length && ipad[..] == k && opad[..] == k
      modifies ipad, opad
      ensures ipad[..] == XorAll(k, 0x36) && opad[..] == XorAll(k, 0x5c)
    {
      for i := 0 to ipad.Length
        invariant forall j | 0 <= j < ipad.Length :: ipad[j] == if j < i then k[j] ^ 0x36 else k[j]
        invariant forall j | 0 <= j < ipad.Length :: opad[j] == if j < i then k[j] ^ 0x5c else k[j]
      {
        ipad[i] := ipad[i] ^ 0x36;
        opad[i] := opad[i] ^ 0x5c;
      }
    }

    method Reset()
      requires Valid()
      modifies engine, this`text
      ensures Valid() && text == []
    {
      engine.Reset();
      engine.Update(ipad[..]);
      text := [];
      assert engine.absorbed == ipad[..] + [];
    }

    method Update(data: Octets)
      requires Valid()
      modifies engine, this`text
      ensures Valid() && text == old(text) + data
    {
      engine.Update(data);
      text := text + data;
    }

    method Digest() returns (r: Octets)
      requires Valid()
      modifies engine, this`text
      ensures r == Hmac(engine.hash, blockSize, key, old(text))
      ensures Valid() && text == []
    {
      var d := engine.Digest();
      engine.Reset();
      engine.Update(opad[..]);
      engine.Update(d);
      assert engine.absorbed == opad[..] + d;
      r := engine.Digest();
      engine.Reset();
      engine.Update(ipad[..]);
      text := [];
      assert engine.absorbed == ipad[..] + [];
    }

    /** However a message is cut into updates its code is that of the whole message,
        and the engine is ready for the next one. */
    method Authenticate(parts: seq<Octets>) returns (r: Octets)
      requires Valid() && text == []
      modifies engine, this`text
      ensures r == Hmac(engine.hash, blockSize, key, Flatten(parts))
      ensures Valid() && text == []
    {
      for i := 0 to |parts|
        invariant Valid() && text == Flatten(parts[..i])
      {
        Update(parts[i]);
        assert parts[..i + 1][..i] == parts[..i];
      }
      assert parts[..|parts|] == parts;
      r := Digest();
    }
  }
}
