/** HMAC over the Ascon hash (libs/ascon_integration/src/ascon_hmac.c). The hash is a parameter:
    any function from octets to 32 octets. */
module Hmac {
  import opened Bytes
  import opened RuleId

  const HASH_SIZE: nat := 32
  const BLOCK_SIZE: nat := 32

  type Digest = d: bytes | |d| == HASH_SIZE witness seq(HASH_SIZE, _ => 0)
  type Hash = bytes -> Digest

  function Zeros(n: nat): (r: bytes)
    ensures |r| == n
  {
    seq(n, _ => 0)
  }

  /** The exclusive or of the low n bits. */
  function XorBits(a: nat, b: nat, n: nat): (r: nat)
    ensures r < Pow2(n)
  {
    if n == 0 then 0 else 2 * XorBits(a / 2, b / 2, n - 1) + if a % 2 != b % 2 then 1 else 0
  }

  /** `a ^ b` on octets. */
  function Xor(a: byte, b: byte): byte {
    PowEight();
    XorBits(a, b, 8)
  }

  function XorAll(s: bytes, b: byte): (r: bytes)
    ensures |r| == |s|
  {
    seq(|s|, k requires 0 <= k < |s| => Xor(s[k], b))
  }

  /** Section 2 of RFC 2104: a long key is hashed, a short one is filled up with zeros. */
  function BlockKey(h: Hash, key: bytes): (k0: bytes)
    ensures |k0| == BLOCK_SIZE
  {
    if |key| > BLOCK_SIZE then h(key) else key + Zeros(BLOCK_SIZE - |key|)
  }

  /** H(K xor opad, H(K xor ipad, text)) */
  function Mac(h: Hash, key: bytes, msg: bytes): Digest {
    var k0 := BlockKey(h, key);
    h(XorAll(k0, 0x5c) + h(XorAll(k0, 0x36) + msg))
  }

  /** The sponge state, with the one assumption made about the Ascon library: absorbing twice
      is absorbing the concatenation. */
  class HashState {
    const h: Hash
    var absorbed: bytes

    constructor (h: Hash)
      ensures this.h == h && absorbed == []
    {
      this.h, absorbed := h, [];
    }

    method InitHash()
      modifies this
      ensures absorbed == []
    {
      absorbed := [];
    }

    method Absorb(data: bytes)
      modifies this
      ensures absorbed == old(absorbed) + data
    {
      absorbed := absorbed + data;
    }

    method Squeeze(out: array<byte>)
      requires out.Length >= HASH_SIZE
      modifies out
      ensures out[..] == h(absorbed) + old(out[HASH_SIZE..])
    {
      var d := h(absorbed);
      for i := 0 to HASH_SIZE
        invariant out[..i] == d[..i]
        invariant out[HASH_SIZE..] == old(out[HASH_SIZE..])
      {
        out[i] := d[i];
      }
    }
  }

  /** Step 1 of `hmac_ascon`. */
  method NormalizeKey(s: HashState, key: bytes) returns (k0: array<byte>)
    modifies s
    ensures fresh(k0) && k0[..] == BlockKey(s.h, key)
  {
    k0 := new byte[BLOCK_SIZE](_ => 0);
    if |key| > BLOCK_SIZE {
      s.InitHash();
      s.Absorb(key);
      assert s.absorbed == key;
      s.Squeeze(k0);
    } else {
      forall k | 0 <= k < |key| {
        k0[k] := key[k];
      }
    }
  }

  /** Step 2 of `hmac_ascon`. */
  method Pads(k0: array<byte>) returns (kIpad: array<byte>, kOpad: array<byte>)
    requires k0.Length == BLOCK_SIZE
    ensures fresh(kIpad) && fresh(kOpad)
    ensures kIpad[..] == XorAll(k0[..], 0x36) && kOpad[..] == XorAll(k0[..], 0x5c)
  {
    hide Xor;
    kIpad, kOpad := new byte[BLOCK_SIZE], new byte[BLOCK_SIZE];
    for i := 0 to BLOCK_SIZE
      invariant forall k :: 0 <= k < i ==> kIpad[k] == Xor(k0[k], 0x36) && kOpad[k] == Xor(k0[k], 0x5c)
    {
      kIpad[i] := Xor(k0[i], 0x36);
      kOpad[i] := Xor(k0[i], 0x5c);
    }
  }

  /** H(pad || data), absorbed in two pieces. */
  method HashTwo(s: HashState, pad: bytes, data: bytes, out: array<byte>)
    requires out.Length >= HASH_SIZE
    modifies s, out
    ensures out[..] == s.h(pad + data) + old(out[HASH_SIZE..])
  {
    s.InitHash();
    s.Absorb(pad);
    s.Absorb(data);
    assert s.absorbed == pad + data;
    s.Squeeze(out);
  }

  /** `hmac_ascon`. */
  method HmacAscon(h: Hash, out: array<byte>, key: bytes, msg: bytes)
    requires out.Length >= HASH_SIZE
    modifies out
    ensures out[..] == Mac(h, key, msg) + old(out[HASH_SIZE..])
  {
    hide XorAll, BlockKey;
    var s := new HashState(h);
    var k0 := NormalizeKey(s, key);
    var kIpad, kOpad := Pads(k0);
    var innerHash := new byte[HASH_SIZE];
    HashTwo(s, kIpad[..], msg, innerHash);
    assert innerHash[..] == h(kIpad[..] + msg);
    HashTwo(s, kOpad[..], innerHash[..], out);
  }

  /** Short keys give the same block key exactly when the longer one only adds zeros. */
  lemma SameBlockKeyIff(h: Hash, key: bytes, other: bytes)
    requires |key| <= |other| <= BLOCK_SIZE
    ensures BlockKey(h, key) == BlockKey(h, other) <==> other == key + Zeros(|other| - |key|)
  {
    var n := |other| - |key|;
    assert BlockKey(h, key) == (key + Zeros(n)) + Zeros(BLOCK_SIZE - |other|);
    assert BlockKey(h, other)[..|other|] == other;
    assert BlockKey(h, key)[..|other|] == key + Zeros(n);
  }

  /** Trailing zeros do not matter to the code. */
  lemma TrailingZerosIgnored(h: Hash, key: bytes, n: nat, msg: bytes)
    requires |key| + n <= BLOCK_SIZE
    ensures Mac(h, key + Zeros(n), msg) == Mac(h, key, msg)
  {
    SameBlockKeyIff(h, key, key + Zeros(n));
  }

  // ---------------------------------------------------------------- what the pads are

  /** Bit by bit, the exclusive or tells whether the bits differ. */
  lemma {:induction false} XorBitsAt(a: nat, b: nat, n: nat, k: nat)
    requires k < n
    ensures LowBits(XorBits(a, b, n), n)[k] <==> LowBits(a, n)[k] != LowBits(b, n)[k]
    decreases n
  {
    assert XorBits(a, b, n) / 2 == XorBits(a / 2, b / 2, n - 1);
    if k < n - 1 {
      XorBitsAt(a / 2, b / 2, n - 1, k);
    }
  }

  lemma XorAt(a: byte, b: byte, k: nat)
    requires k < 8
    ensures LowBits(Xor(a, b), 8)[k] <==> LowBits(a, 8)[k] != LowBits(b, 8)[k]
  {
    XorBitsAt(a, b, 8, k);
  }

  /** What two numbers have in common with a third cancels. */
  lemma {:induction false} XorBitsCancel(a: nat, b: nat, c: nat, n: nat)
    ensures XorBits(XorBits(a, b, n), XorBits(a, c, n), n) == XorBits(b, c, n)
    decreases n
  {
    if n > 0 {
      XorBitsCancel(a / 2, b / 2, c / 2, n - 1);
      assert XorBits(a, b, n) / 2 == XorBits(a / 2, b / 2, n - 1);
      assert XorBits(a, c, n) / 2 == XorBits(a / 2, c / 2, n - 1);
    }
  }

  /** Doing it twice undoes it. */
  lemma {:induction false} XorBitsTwice(a: nat, b: nat, n: nat)
    ensures XorBits(XorBits(a, b, n), b, n) == a % Pow2(n)
    decreases n
  {
    if n > 0 {
      XorBitsTwice(a / 2, b / 2, n - 1);
      HalfMod(a, n - 1);
      assert XorBits(a, b, n) / 2 == XorBits(a / 2, b / 2, n - 1);
    }
  }

  lemma XorAllTwice(s: bytes, b: byte)
    ensures XorAll(XorAll(s, b), b) == s
  {
    hide XorBits, Pow2;
    PowEight();
    forall k | 0 <= k < |s|
      ensures Xor(Xor(s[k], b), b) == s[k]
    {
      XorBitsTwice(s[k], b, 8);
    }
  }

  /** The pads of a key differ in the same four bits of every octet. */
  lemma PadsDiffer(k0: bytes, k: nat)
    requires k < |k0|
    ensures Xor(XorAll(k0, 0x36)[k], XorAll(k0, 0x5c)[k]) == 0x6A
    ensures XorAll(k0, 0x36)[k] != XorAll(k0, 0x5c)[k]
  {
    hide XorBits;
    XorBitsCancel(k0[k], 0x36, 0x5c, 8);
    PadConstants();
  }

  lemma PadConstants()
    ensures Xor(0x36, 0x5c) == 0x6A
    ensures forall a: byte :: Xor(a, a) == 0
  {
    ConstantBits();
    hide XorBits;
    forall a: byte
      ensures Xor(a, a) == 0
    {
      XorBitsSelf(a, 8);
    }
  }

  lemma ConstantBits()
    ensures XorBits(0x36, 0x5c, 8) == 0x6A
  {
    assert XorBits(3, 5, 4) == 6;
    assert XorBits(0xd, 0x17, 6) == 0x1a;
  }

  lemma {:induction false} XorBitsSelf(a: nat, n: nat)
    ensures XorBits(a, a, n) == 0
    decreases n
  {
    if n > 0 {
      XorBitsSelf(a / 2, n - 1);
    }
  }

  /** `pad` is the key with the bits of `b` flipped in every octet. */
  ghost predicate IsPad(pad: bytes, k0: bytes, b: byte) {
    && |pad| == |k0|
    && forall i, k :: 0 <= i < |k0| && 0 <= k < 8 ==>
         (LowBits(pad[i], 8)[k] <==> LowBits(k0[i], 8)[k] != LowBits(b, 8)[k])
  }

  /** K of section 2 of RFC 2104, made as long as a block. */
  ghost predicate IsBlockKey(h: Hash, key: bytes, k0: bytes) {
    && |k0| == BLOCK_SIZE
    && if |key| > BLOCK_SIZE then k0 == h(key)
       else key <= k0 && forall i :: |key| <= i < BLOCK_SIZE ==> k0[i] == 0
  }

  /** Whatever is K and its two pads in the sense of RFC 2104, the MAC is the hash of the outer pad and
      the hash of the inner pad and the message. */
  lemma MacIsRfc2104(h: Hash, key: bytes, msg: bytes, k0: bytes, inner: bytes, outer: bytes)
    requires IsBlockKey(h, key, k0) && IsPad(inner, k0, 0x36) && IsPad(outer, k0, 0x5c)
    ensures Mac(h, key, msg) == h(outer + h(inner + msg))
  {
    assert k0 == BlockKey(h, key);
    PadIsXorAll(inner, k0, 0x36);
    PadIsXorAll(outer, k0, 0x5c);
  }

  lemma PadIsXorAll(pad: bytes, k0: bytes, b: byte)
    requires IsPad(pad, k0, b)
    ensures pad == XorAll(k0, b)
  {
    hide Xor, LowBits;
    forall i | 0 <= i < |k0|
      ensures pad[i] == Xor(k0[i], b)
    {
      forall k | 0 <= k < 8
        ensures LowBits(pad[i], 8)[k] == LowBits(Xor(k0[i], b), 8)[k]
      {
        XorAt(k0[i], b, k);
      }
      SameOctet(pad[i], Xor(k0[i], b));
    }
  }

  lemma SameOctet(a: byte, b: byte)
    requires LowBits(a, 8) == LowBits(b, 8)
    ensures a == b
  {
    hide LowBits, Pow2;
    PowEight();
    NumberOfLowBits(a, 8);
    NumberOfLowBits(b, 8);
  }

  /** The code's block key and pads are those. */
  lemma MacInputs(h: Hash, key: bytes)
    ensures var k0 := BlockKey(h, key);
            IsBlockKey(h, key, k0) && IsPad(XorAll(k0, 0x36), k0, 0x36) && IsPad(XorAll(k0, 0x5c), k0, 0x5c)
  {
    hide Xor, LowBits;
    var k0 := BlockKey(h, key);
    forall i, k | 0 <= i < |k0| && 0 <= k < 8
      ensures LowBits(Xor(k0[i], 0x36), 8)[k] <==> LowBits(k0[i], 8)[k] != LowBits(0x36, 8)[k]
      ensures LowBits(Xor(k0[i], 0x5c), 8)[k] <==> LowBits(k0[i], 8)[k] != LowBits(0x5c, 8)[k]
    {
      XorAt(k0[i], 0x36, k);
      XorAt(k0[i], 0x5c, k);
    }
  }
}
