/** HKDF over HMAC (libs/ascon_integration/src/ascon_integration.c, RFC 5869). */
module Hkdf {
  import opened Bytes
  import opened Hmac

  datatype Error = Ok | CryptoOperationNotImplemented
  datatype HashAlg = AsconHash256 | OtherHash

  // ---------------------------------------------------------------- extract

  /** `hkdf_extract`; a null salt is `None`. */
  method HkdfExtract(alg: HashAlg, h: Hash, salt: Option<bytes>, ikm: bytes, out: array<byte>) returns (e: Error)
    requires out.Length >= HASH_SIZE
    modifies out
    ensures e == if alg.AsconHash256? then Ok else CryptoOperationNotImplemented
    ensures out[..] == if e.Ok? then Mac(h, SaltKey(salt), ikm) + old(out[HASH_SIZE..]) else old(out[..])
  {
    if !alg.AsconHash256? {
      return CryptoOperationNotImplemented;
    }
    if salt.None? || salt.value == [] {
      HmacAscon(h, out, Zeros(HASH_SIZE), ikm);
    } else {
      HmacAscon(h, out, salt.value, ikm);
    }
    e := Ok;
  }

  /** Section 2.2 of RFC 5869: a salt that is not provided is a string of zeros of the hash length. */
  function SaltKey(salt: Option<bytes>): bytes {
    if salt.None? || salt.value == [] then Zeros(HASH_SIZE) else salt.value
  }

  /** No salt, an empty salt and every all-zero salt of at most a block extract the same key. */
  lemma ZeroSaltsAgree(h: Hash, n: nat, ikm: bytes)
    requires n <= BLOCK_SIZE
    ensures Mac(h, SaltKey(Some(Zeros(n))), ikm) == Mac(h, SaltKey(None), ikm)
  {
    if n > 0 {
      assert Zeros(n) + Zeros(BLOCK_SIZE - n) == Zeros(HASH_SIZE);
      TrailingZerosIgnored(h, Zeros(n), BLOCK_SIZE - n, ikm);
    }
  }

  /** Salts of at most a block act as the same key exactly when they differ in trailing zeros. */
  lemma SaltsAgreeIff(h: Hash, salt: bytes, other: bytes)
    requires 0 < |salt| <= |other| <= BLOCK_SIZE
    ensures BlockKey(h, SaltKey(Some(salt))) == BlockKey(h, SaltKey(Some(other)))
       <==> other == salt + Zeros(|other| - |salt|)
  {
    SameBlockKeyIff(h, salt, other);
  }

  /** The key of the extracting MAC: the salt filled up with zeros, or hashed if it is longer than a block. */
  lemma SaltIsKey(h: Hash, salt: Option<bytes>)
    ensures var s := if salt.Some? then salt.value else [];
            IsBlockKey(h, s, BlockKey(h, SaltKey(salt)))
  {
    MacInputs(h, SaltKey(salt));
  }

  // ---------------------------------------------------------------- expand, as the standard defines it

  /** T(i) of section 2.3 of RFC 5869. */
  function T(h: Hash, prk: bytes, info: bytes, i: nat): bytes
    requires i < 0x100
  {
    if i == 0 then [] else Mac(h, prk, T(h, prk, info, i - 1) + info + [i])
  }

  /** T(1) | T(2) | ... | T(n) */
  function Okm(h: Hash, prk: bytes, info: bytes, n: nat): (r: bytes)
    requires n < 0x100
    ensures |r| == n * HASH_SIZE
  {
    if n == 0 then [] else Okm(h, prk, info, n - 1) + T(h, prk, info, n)
  }

  /** N = ceil(L / HashLen) */
  function Blocks(length: nat): nat {
    (length + HASH_SIZE - 1) / HASH_SIZE
  }

  /** The least number of blocks that holds the length. */
  lemma BlocksIff(length: nat, n: nat)
    ensures Blocks(length) == n <==> n * HASH_SIZE < length + HASH_SIZE && length <= n * HASH_SIZE
  {
  }

  /** Asking for more output never changes what came before. */
  lemma {:induction false} OkmPrefix(h: Hash, prk: bytes, info: bytes, n: nat, m: nat)
    requires n <= m < 0x100
    ensures Okm(h, prk, info, n) <= Okm(h, prk, info, m)
    decreases m
  {
    if n < m {
      OkmPrefix(h, prk, info, n, m - 1);
    }
  }

  /** T(0), T(1), ... as a list that begins empty and goes on as the standard says. */
  ghost predicate IsChain(h: Hash, prk: bytes, info: bytes, ts: seq<bytes>) {
    && 0 < |ts| <= 0x100 && ts[0] == []
    && forall i :: 0 < i < |ts| ==> ts[i] == Mac(h, prk, ts[i - 1] + info + [i])
  }

  /** Every octet of the output, whatever list satisfies the standard's equations. */
  lemma {:induction false} OkmOctet(h: Hash, prk: bytes, info: bytes, ts: seq<bytes>, q: nat)
    requires IsChain(h, prk, info, ts) && q < (|ts| - 1) * HASH_SIZE
    ensures |ts[q / HASH_SIZE + 1]| == HASH_SIZE
    ensures Okm(h, prk, info, |ts| - 1)[q] == ts[q / HASH_SIZE + 1][q % HASH_SIZE]
    decreases |ts|
  {
    hide Mac;
    var n := |ts| - 1;
    ChainIsT(h, prk, info, ts, n);
    if q < (n - 1) * HASH_SIZE {
      OkmOctet(h, prk, info, ts[..n], q);
    } else {
      assert q / HASH_SIZE == n - 1 && q % HASH_SIZE == q - (n - 1) * HASH_SIZE;
    }
  }

  lemma {:induction false} ChainIsT(h: Hash, prk: bytes, info: bytes, ts: seq<bytes>, i: nat)
    requires IsChain(h, prk, info, ts) && i < |ts|
    ensures ts[i] == T(h, prk, info, i)
    decreases i
  {
    if i > 0 {
      ChainIsT(h, prk, info, ts, i - 1);
    }
  }

  // ---------------------------------------------------------------- expand, as the code computes it

  /** The octets written after n blocks. */
  function Upto(length: nat, n: nat): (m: nat)
    ensures m <= length && m <= n * HASH_SIZE
  {
    if n * HASH_SIZE < length then n * HASH_SIZE else length
  }

  /** How many octets the code writes: the block count is stored in a `uint8_t`. */
  function Written(length: nat): nat {
    Upto(length, Blocks(length) % 0x100)
  }

  lemma BlockStarts(length: nat, i: nat)
    requires 1 <= i <= Blocks(length) % 0x100
    ensures (i - 1) * HASH_SIZE < length
  {
  }

  /** `hkdf_expand`. The loop counter is a `uint8_t`, so the count 255 is excluded: see `CounterPassesIff`. */
  method HkdfExpand(alg: HashAlg, h: Hash, prk: bytes, info: bytes, out: array<byte>) returns (e: Error)
    requires Blocks(out.Length) % 0x100 != 255
    modifies out
    ensures e == if alg.AsconHash256? then Ok else CryptoOperationNotImplemented
    ensures e.Ok? ==> out[..] == Okm(h, prk, info, Blocks(out.Length) % 0x100)[..Written(out.Length)]
                                 + old(out[Written(out.Length)..])
    ensures !e.Ok? ==> out[..] == old(out[..])
  {
    if !alg.AsconHash256? {
      return CryptoOperationNotImplemented;
    }
    hide T, Mac, Okm, Upto, Blocks;
    ghost var before := out[..];
    OkmStart(h, prk, info, out.Length);
    var iterations: byte := Blocks(out.Length) % 0x100;
    var t := new byte[HASH_SIZE](_ => 0);
    var msg := new byte[HASH_SIZE + |info| + 1];
    var i: byte := 1;
    while i <= iterations
      invariant 1 <= i <= iterations + 1
      invariant t.Length == HASH_SIZE && (i > 1 ==> t[..] == T(h, prk, info, i - 1))
      invariant fresh(t) && fresh(msg) && msg.Length == HASH_SIZE + |info| + 1
      invariant out[..] == Okm(h, prk, info, i - 1)[..Upto(out.Length, i - 1)] + before[Upto(out.Length, i - 1)..]
      decreases iterations + 1 - i
    {
      NextBlock(h, prk, info, t, msg, i);
      BlockStarts(out.Length, i);
      StoreBlock(out, t, i, h, prk, info, before);
      i := (i + 1) % 0x100;
    }
    e := Ok;
  }

  /** One chained block: T(i) replaces T(i-1) in `t`. */
  method NextBlock(h: Hash, prk: bytes, info: bytes, t: array<byte>, msg: array<byte>, i: byte)
    requires i >= 1 && t.Length == HASH_SIZE && msg.Length == HASH_SIZE + |info| + 1 && msg != t
    requires i > 1 ==> t[..] == T(h, prk, info, i - 1)
    modifies t, msg
    ensures t[..] == T(h, prk, info, i)
  {
    hide T, Mac;
    var msgLen := FillMessage(msg, t, info, i);
    TStep(h, prk, info, i);
    HmacAscon(h, t, prk, msg[..msgLen]);
    assert t[HASH_SIZE..] == [];
  }

  lemma OkmStart(h: Hash, prk: bytes, info: bytes, length: nat)
    ensures Okm(h, prk, info, 0) == [] && Upto(length, 0) == 0
  {
  }

  lemma TStep(h: Hash, prk: bytes, info: bytes, i: nat)
    requires 0 < i < 0x100
    ensures T(h, prk, info, i) == Mac(h, prk, (if i > 1 then T(h, prk, info, i - 1) else []) + info + [i])
  {
    assert T(h, prk, info, 0) == [];
  }

  lemma OkmStep(h: Hash, prk: bytes, info: bytes, i: nat, length: nat)
    requires 0 < i < 0x100 && (i - 1) * HASH_SIZE <= length <= i * HASH_SIZE
    ensures |T(h, prk, info, i)| == HASH_SIZE
    ensures Okm(h, prk, info, i)[..length]
         == Okm(h, prk, info, i - 1) + T(h, prk, info, i)[..length - (i - 1) * HASH_SIZE]
  {
    hide Mac;
    TStep(h, prk, info, i);
  }

  /** T(i-1) || info || i */
  method FillMessage(msg: array<byte>, t: array<byte>, info: bytes, i: byte) returns (msgLen: nat)
    requires i >= 1 && t.Length == HASH_SIZE && msg.Length == HASH_SIZE + |info| + 1 && msg != t
    modifies msg
    ensures msgLen <= msg.Length
    ensures msg[..msgLen] == (if i > 1 then t[..] else []) + info + [i]
  {
    msgLen := 0;
    if i > 1 {
      forall k | 0 <= k < HASH_SIZE {
        msg[k] := t[k];
      }
      msgLen := HASH_SIZE;
    }
    ghost var head := msg[..msgLen];
    forall k | 0 <= k < |info| {
      msg[msgLen + k] := info[k];
    }
    assert msg[..msgLen] == head && msg[msgLen..msgLen + |info|] == info;
    msgLen := msgLen + |info|;
    msg[msgLen] := i;
    assert msg[..msgLen] == head + info;
    msgLen := msgLen + 1;
  }

  /** How many octets of block i are copied. */
  function CopyLength(length: nat, i: nat): nat
    requires 1 <= i && (i - 1) * HASH_SIZE < length
  {
    if length - (i - 1) * HASH_SIZE < HASH_SIZE then length % HASH_SIZE else HASH_SIZE
  }

  lemma CopiesUpto(length: nat, i: nat)
    requires 1 <= i && (i - 1) * HASH_SIZE < length
    ensures CopyLength(length, i) <= HASH_SIZE && Upto(length, i - 1) == (i - 1) * HASH_SIZE
    ensures Upto(length, i) == (i - 1) * HASH_SIZE + CopyLength(length, i)
  {
  }

  /** A block copied over what came before it follows what was already written. */
  lemma Spliced(was: bytes, now: bytes, written: bytes, before: bytes, block: bytes)
    requires |was| == |now| == |before| && |written| + |block| <= |was|
    requires was == written + before[|written|..]
    requires now == was[..|written|] + block + was[|written| + |block|..]
    ensures now == (written + block) + before[|written| + |block|..]
  {
  }

  /** A full block, or what is left on the last iteration. */
  method StoreBlock(out: array<byte>, t: array<byte>, i: byte,
                    ghost h: Hash, ghost prk: bytes, ghost info: bytes, ghost before: bytes)
    requires 1 <= i && (i - 1) * HASH_SIZE < out.Length && t.Length == HASH_SIZE && t != out
    requires t[..] == T(h, prk, info, i) && |before| == out.Length
    requires out[..] == Okm(h, prk, info, i - 1)[..Upto(out.Length, i - 1)] + before[Upto(out.Length, i - 1)..]
    modifies out
    ensures out[..] == Okm(h, prk, info, i)[..Upto(out.Length, i)] + before[Upto(out.Length, i)..]
  {
    hide T, Okm, Upto;
    CopiesUpto(out.Length, i);
    var start := (i - 1) * HASH_SIZE;
    var copyLen := CopyLength(out.Length, i);
    hide CopyLength;
    ghost var was := out[..];
    CopyInto(out, start, t, copyLen);
    OkmStep(h, prk, info, i, start + copyLen);
    Spliced(was, out[..], Okm(h, prk, info, i - 1), before, t[..copyLen]);
  }

  /** `memcpy` of the first octets of a block. */
  method CopyInto(out: array<byte>, start: nat, t: array<byte>, n: nat)
    requires start + n <= out.Length && n <= t.Length && t != out
    modifies out
    ensures out[..] == old(out[..start]) + t[..n] + old(out[start + n..])
  {
    forall k | 0 <= k < n {
      out[start + k] := t[k];
    }
    assert out[..] == out[..start] + out[start..start + n] + out[start + n..];
  }

  /** The loop counter after k increments from 1. */
  function CounterAfter(k: nat): byte {
    (1 + k) % 0x100
  }

  /** The loop ends exactly when the 8-bit block count is not 255: no 8-bit counter exceeds that. */
  lemma CounterPassesIff(length: nat)
    ensures (exists k: nat :: CounterAfter(k) > Blocks(length) % 0x100) <==> Blocks(length) % 0x100 != 255
  {
    if Blocks(length) % 0x100 != 255 {
      assert CounterAfter(254) > Blocks(length) % 0x100;
    }
  }

  /** When the loop ends, the whole buffer holds the standard's output exactly up to 254 blocks;
      from 256 blocks on, the call still succeeds and leaves octets unwritten. */
  lemma FullyWrittenIff(length: nat)
    requires Blocks(length) % 0x100 != 255
    ensures Written(length) == length <==> Blocks(length) <= 254
  {
  }

  /** The longest output RFC 5869 allows, 255 blocks, is where the loop does not end. */
  lemma LongestOutputNeverEnds()
    ensures Blocks(8160) == 255
    ensures forall k: nat :: CounterAfter(k) <= Blocks(8160) % 0x100
  {
  }

  /** One block more, and the call succeeds without writing anything. */
  lemma NextOutputUnwritten()
    ensures Blocks(8192) == 256 && Written(8192) == 0
  {
  }
}
