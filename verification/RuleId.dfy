/** Variable-width rule identifiers: what patches/schc_sdk.patch makes the compressor write first and
    the decompressor read first. */
module RuleId {
  import opened Bytes

  // ---------------------------------------------------------------- bits and numbers

  function Pow2(n: nat): (r: nat)
    ensures r > 0
  {
    if n == 0 then 1 else 2 * Pow2(n - 1)
  }

  /** The low n bits of a number, most significant first. */
  function LowBits(v: nat, n: nat): (r: seq<bool>)
    ensures |r| == n
  {
    if n == 0 then [] else LowBits(v / 2, n - 1) + [v % 2 == 1]
  }

  function Number(bits: seq<bool>): nat {
    if bits == [] then 0
    else 2 * Number(bits[..|bits| - 1]) + if bits[|bits| - 1] then 1 else 0
  }

  lemma HalfMod(v: nat, n: nat)
    ensures v % Pow2(n + 1) == 2 * (v / 2 % Pow2(n)) + v % 2
  {
    var p, h := Pow2(n), v / 2;
    assert h == p * (h / p) + h % p;
    assert v == 2 * p * (h / p) + (2 * (h % p) + v % 2) by {
      assert 2 * (p * (h / p)) == 2 * p * (h / p);
    }
    ModIs(v, 2 * p, h / p, 2 * (h % p) + v % 2);
  }

  lemma ModIs(v: nat, d: nat, q: nat, r: nat)
    requires d > 0 && r < d && v == d * q + r
    ensures v % d == r
  {
    var e := v / d - q;
    assert d * (v / d) == d * q + d * e;
    MultipleBeyond(d, e);
  }

  lemma MultipleBeyond(d: nat, e: int)
    ensures e > 0 ==> d * e >= d
    ensures e < 0 ==> d * e + d <= 0
  {
  }

  /** Reading back n bits gives the number modulo 2^n. */
  lemma {:induction false} NumberOfLowBits(v: nat, n: nat)
    ensures Number(LowBits(v, n)) == v % Pow2(n)
    decreases n
  {
    if n > 0 {
      NumberOfLowBits(v / 2, n - 1);
      HalfMod(v, n - 1);
      assert LowBits(v, n)[..n - 1] == LowBits(v / 2, n - 1);
    }
  }

  lemma {:induction false} NumberBound(bits: seq<bool>)
    ensures Number(bits) < Pow2(|bits|)
    decreases |bits|
  {
    if bits != [] {
      NumberBound(bits[..|bits| - 1]);
    }
  }

  lemma {:induction false} NumberAppend(a: seq<bool>, b: seq<bool>)
    ensures Number(a + b) == Number(a) * Pow2(|b|) + Number(b)
    decreases |b|
  {
    if b == [] {
      assert a + b == a;
    } else {
      var c := b[..|b| - 1];
      NumberAppend(a, c);
      assert (a + b)[..|a + b| - 1] == a + c;
      assert 2 * (Number(a) * Pow2(|c|)) == Number(a) * (2 * Pow2(|c|));
    }
  }

  function Falses(n: nat): (r: seq<bool>)
    ensures |r| == n
  {
    seq(n, _ => false)
  }

  lemma {:induction false} ZeroBits(n: nat)
    ensures Number(Falses(n)) == 0
    decreases n
  {
    if n > 0 {
      ZeroBits(n - 1);
      assert Falses(n)[..n - 1] == Falses(n - 1);
    }
  }

  // ---------------------------------------------------------------- the bit buffer

  datatype CompStatus = CompSuccess | CompInternalError | CompEmptyData | CompRulesNotFound

  /** The SDK's `bit_buffer_t`: bits written so far, and a reading position. */
  class BitBuffer {
    const bits: array<bool>
    var lastBitIndex: nat
    var getBitIndex: nat

    ghost predicate Valid()
      reads this
    {
      getBitIndex <= lastBitIndex <= bits.Length
    }

    constructor (capacity: nat)
      ensures Valid() && fresh(bits) && bits.Length == capacity && lastBitIndex == getBitIndex == 0
    {
      bits := new bool[capacity](_ => false);
      lastBitIndex, getBitIndex := 0, 0;
    }

    /** `push_16_bits(bb, &value, 16 - n, n)` */
    method Push16Bits(value: uint16, n: nat)
      requires Valid() && n <= 16 && lastBitIndex + n <= bits.Length
      modifies this`lastBitIndex, bits
      ensures Valid() && lastBitIndex == old(lastBitIndex) + n
      ensures bits[old(lastBitIndex)..lastBitIndex] == LowBits(value, n)
      ensures forall k :: 0 <= k < bits.Length && !(old(lastBitIndex) <= k < lastBitIndex) ==> bits[k] == old(bits[k])
    {
      ghost var all := LowBits(value, n);
      var start, v: nat, i: nat := lastBitIndex, value, n;
      while i > 0
        invariant i <= n && lastBitIndex == start
        invariant LowBits(v, i) + bits[start + i..start + n] == all
        invariant forall k :: 0 <= k < bits.Length && !(start + i <= k < start + n) ==> bits[k] == old(bits[k])
      {
        ghost var done := bits[start + i..start + n];
        i := i - 1;
        bits[start + i] := v % 2 == 1;
        assert bits[start + i..start + n] == [v % 2 == 1] + done;
        assert LowBits(v, i + 1) + done == LowBits(v / 2, i) + ([v % 2 == 1] + done);
        v := v / 2;
      }
      lastBitIndex := start + n;
    }

    /** The two octets after `move_n_bits(rule_id_bytes, 16 - n, buffer, get_bit_index, n)`, combined. */
    method Peek16(n: nat) returns (id: uint16)
      requires Valid() && n <= 16 && getBitIndex + n <= bits.Length
      ensures id == Number(bits[getBitIndex..getBitIndex + n])
    {
      hide Number, Pow2;
      ghost var taken := bits[getBitIndex..getBitIndex + n];
      var octets := new bool[16](_ => false);
      forall k | 0 <= k < n {
        octets[16 - n + k] := bits[getBitIndex + k];
      }
      ghost var aligned := Falses(16 - n) + taken;
      assert octets[..] == aligned;
      RightAligned(taken);
      var high := OctetAt(octets, 0);
      var low := OctetAt(octets, 8);
      JoinOctets(aligned, octets[0..0 + 8], octets[8..8 + 8]);
      id := Be16(high, low);
      assert bits[getBitIndex..getBitIndex + n] == taken;
    }

    /** The compressor's first hunk. */
    method WriteRuleId(ruleId: uint16, width: nat) returns (st: CompStatus)
      requires Valid() && (width <= 16 ==> lastBitIndex + width <= bits.Length)
      modifies this`lastBitIndex, bits
      ensures Valid() && (st == if width > 16 then CompInternalError else CompSuccess)
      ensures lastBitIndex == old(lastBitIndex) + if st.CompSuccess? then width else 0
      ensures bits[old(lastBitIndex)..lastBitIndex] == if st.CompSuccess? then LowBits(ruleId, width) else []
      ensures forall k :: 0 <= k < bits.Length && !(old(lastBitIndex) <= k < lastBitIndex) ==> bits[k] == old(bits[k])
    {
      if width > 16 {
        return CompInternalError;
      }
      Push16Bits(ruleId, width);
      st := CompSuccess;
    }

    /** The decompressor's hunks; `known` are the identifiers that `find_rule_from_id` finds. The
        length test compares the bits written with the width, wherever reading stands. */
    method ReadRuleId(known: set<uint16>, width: nat) returns (st: CompStatus, id: uint16)
      requires Valid() && (width <= 16 && lastBitIndex >= width ==> getBitIndex + width <= bits.Length)
      modifies this`getBitIndex
      ensures st.CompInternalError? <==> width > 16
      ensures st.CompEmptyData? <==> width <= 16 && lastBitIndex < width
      ensures st.CompSuccess? || st.CompRulesNotFound? ==>
                id == Number(bits[old(getBitIndex)..old(getBitIndex) + width]) && (st.CompSuccess? <==> id in known)
      ensures getBitIndex == old(getBitIndex) + if st.CompSuccess? then width else 0
    {
      id := 0;
      if width > 16 {
        return CompInternalError, 0;
      }
      if lastBitIndex < width {
        return CompEmptyData, 0;
      }
      id := Peek16(width);
      if id !in known {
        return CompRulesNotFound, id;
      }
      getBitIndex := getBitIndex + width;
      st := CompSuccess;
    }
  }

  lemma JoinOctets(all: seq<bool>, high: seq<bool>, low: seq<bool>)
    requires |high| == |low| == 8 && all == high + low
    ensures Number(all) == 0x100 * Number(high) + Number(low)
  {
    hide Number, Pow2;
    NumberAppend(high, low);
    PowEight();
  }

  lemma PowEight()
    ensures Pow2(8) == 0x100
  {
  }

  method OctetAt(a: array<bool>, start: nat) returns (r: byte)
    requires start + 8 <= a.Length
    ensures r == Number(a[start..start + 8])
  {
    var v: nat := 0;
    for i := 0 to 8
      invariant v == Number(a[start..start + i])
    {
      assert a[start..start + i + 1][..i] == a[start..start + i];
      v := 2 * v + if a[start + i] then 1 else 0;
    }
    NumberBound(a[start..start + 8]);
    assert Pow2(8) == 0x100;
    r := v;
  }

  lemma RightAligned(bits: seq<bool>)
    requires |bits| <= 16
    ensures Number(Falses(16 - |bits|) + bits) == Number(bits)
  {
    hide Number, Pow2, Falses;
    ZeroBits(16 - |bits|);
    NumberAppend(Falses(16 - |bits|), bits);
    assert 0 * Pow2(|bits|) == 0;
  }

  // ---------------------------------------------------------------- which identifiers survive

  /** The identifier a reader finds where a writer has put one, at the same width. */
  function ReadBack(id: uint16, width: nat): nat {
    Number(LowBits(id, width))
  }

  /** Writing and reading at one position returns the identifier exactly when it fits the width. */
  lemma ReadBackIff(id: uint16, width: nat)
    ensures ReadBack(id, width) == id <==> id < Pow2(width)
  {
    NumberOfLowBits(id, width);
    NumberBound(LowBits(id, width));
    if id < Pow2(width) {
      ModIs(id, Pow2(width), 0, id);
    }
  }

  /** Two identifiers are written alike exactly when they agree modulo 2^width. */
  lemma CollideIff(a: uint16, b: uint16, width: nat)
    ensures LowBits(a, width) == LowBits(b, width) <==> a % Pow2(width) == b % Pow2(width)
  {
    NumberOfLowBits(a, width);
    NumberOfLowBits(b, width);
    if a % Pow2(width) == b % Pow2(width) {
      NumberInjective(LowBits(a, width), LowBits(b, width));
    }
  }

  lemma {:induction false} NumberInjective(a: seq<bool>, b: seq<bool>)
    requires |a| == |b| && Number(a) == Number(b)
    ensures a == b
    decreases |a|
  {
    if a != [] {
      NumberInjective(a[..|a| - 1], b[..|b| - 1]);
      assert a == a[..|a| - 1] + [a[|a| - 1]] && b == b[..|b| - 1] + [b[|b| - 1]];
    }
  }

  /** Compressing and then decompressing with an otherwise empty header, at any bit position: the
      rule is found exactly when the identifier, cut to the width, is a known one, and the cursors meet. */
  method RoundTrip(bb: BitBuffer, ruleId: uint16, known: set<uint16>, width: nat) returns (st: CompStatus, id: uint16)
    requires bb.Valid() && bb.getBitIndex == bb.lastBitIndex && width <= 16
    requires bb.lastBitIndex + width <= bb.bits.Length
    modifies bb, bb.bits
    ensures bb.Valid() && id == ruleId % Pow2(width)
    ensures st == if id in known then CompSuccess else CompRulesNotFound
    ensures st.CompSuccess? ==> bb.getBitIndex == bb.lastBitIndex == old(bb.lastBitIndex) + width
  {
    var _ := bb.WriteRuleId(ruleId, width);
    NumberOfLowBits(ruleId, width);
    st, id := bb.ReadRuleId(known, width);
  }

  /** The identifiers of outerrules.c: five OSCORE rules, IPv6/UDP, two EDHOC rules, no compression. */
  const OUTER_RULE_IDS: set<uint16> := {56, 57, 58, 59, 60, 61, 69, 70, 150}

  /** The outer rules need at least eight bits. */
  lemma OuterRulesFitIff(width: nat)
    ensures (forall id :: id in OUTER_RULE_IDS ==> ReadBack(id, width) == id) <==> width >= 8
  {
    assert Pow2(7) == 128 && Pow2(8) == 256;
    forall id | id in OUTER_RULE_IDS
      ensures ReadBack(id, width) == id <==> id < Pow2(width)
    {
      ReadBackIff(id, width);
    }
    if width >= 8 {
      Pow2Monotone(8, width);
    } else {
      Pow2Monotone(width, 7);
      assert 150 in OUTER_RULE_IDS;
    }
  }

  lemma {:induction false} Pow2Monotone(m: nat, n: nat)
    requires m <= n
    ensures Pow2(m) <= Pow2(n)
    decreases n
  {
    if m < n {
      Pow2Monotone(m, n - 1);
    }
  }

  /** At the width of four bits that the SDK's configuration defaults to, an EDHOC response is read
      as another identifier, the same one as an uncompressed packet. */
  lemma FourBitsCollide()
    ensures LowBits(70, 4) == LowBits(150, 4) && ReadBack(70, 4) == 6
  {
    assert Pow2(4) == 16;
    CollideIff(70, 150, 4);
    NumberOfLowBits(70, 4);
  }
}
