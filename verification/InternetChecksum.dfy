/** The Internet checksum of RFC 1071, and the two ways the repository computes it:
    deferred carries over big-endian words, and over words in host byte order. */
module InternetChecksum {
  import opened Bytes

  /** One's complement addition of 16-bit words: the carry out is added back in. */
  function OnesAdd(a: uint16, b: uint16): uint16 {
    if a + b < 0x1_0000 then a + b else a + b - 0xFFFF
  }

  /** The reference: section 1 of RFC 1071, word by word with end-around carry;
      an odd last octet is padded on the right with zero. */
  function OnesSum(s: bytes): uint16 {
    if |s| == 0 then 0
    else if |s| == 1 then Be16(s[0], 0)
    else OnesAdd(Be16(s[0], s[1]), OnesSum(s[2..]))
  }

  /** The plain sum of the big-endian words, which `csum_add` accumulates. */
  function WordSum(s: bytes): nat {
    if |s| == 0 then 0
    else if |s| == 1 then Be16(s[0], 0)
    else Be16(s[0], s[1]) + WordSum(s[2..])
  }

  /** The plain sum that `checksum` in net_helper.c accumulates: words loaded in host
      order, and an odd last octet added as it is. */
  function HostWordSum(host: Endian, s: bytes): nat {
    if |s| == 0 then 0
    else if |s| == 1 then s[0]
    else Load16(host, s[0], s[1]) + HostWordSum(host, s[2..])
  }

  /** The representative of a sum modulo 65535 in 1..65535, with 0 kept apart. */
  function Residue(n: nat): (r: uint16)
    ensures r == 0 <==> n == 0
  {
    if n == 0 then 0 else (n - 1) % 0xFFFF + 1
  }

  /** Congruence modulo 65535, with the multiple as witness, so that sums stay linear. */
  lemma ResidueIs(n: nat, r: uint16, k: int)
    requires n == r + 0xFFFF * k
    requires r == 0 <==> n == 0
    ensures Residue(n) == r
  {
    if n > 0 {
      var m, q := n - 1, (n - 1) / 0xFFFF;
      assert m == 0xFFFF * q + m % 0xFFFF;
      assert -0xFFFF < 0xFFFF * (q - k) < 0xFFFF;
    }
  }

  lemma ResidueMultiple(n: nat) returns (k: int)
    ensures n == Residue(n) + 0xFFFF * k
  {
    k := if n == 0 then 0 else (n - 1) / 0xFFFF;
  }

  /** One round of the fold loop. */
  function FoldOnce(n: nat): nat {
    n % 0x1_0000 + n / 0x1_0000
  }

  function FoldRounds(n: nat): nat
    decreases n
  {
    if n < 0x1_0000 then 0 else 1 + FoldRounds(FoldOnce(n))
  }

  lemma FoldOnceKeepsResidue(n: nat)
    ensures Residue(FoldOnce(n)) == Residue(n)
    ensures n >= 0x1_0000 ==> FoldOnce(n) < n
  {
    var k := ResidueMultiple(FoldOnce(n));
    assert n == FoldOnce(n) + 0xFFFF * (n / 0x1_0000);
    ResidueIs(n, Residue(FoldOnce(n)), k + n / 0x1_0000);
  }

  /** The fold loop, `while (sum >> 16) sum = (sum & 0xFFFF) + (sum >> 16)`. */
  method FoldCarries(sum: uint64) returns (r: uint16, ghost rounds: nat)
    ensures r == Residue(sum)
    ensures rounds == FoldRounds(sum)
  {
    var s: nat := sum;
    rounds := 0;
    while s / 0x1_0000 != 0
      invariant Residue(s) == Residue(sum)
      invariant rounds + FoldRounds(s) == FoldRounds(sum)
      decreases s
    {
      FoldOnceKeepsResidue(s);
      s := s % 0x1_0000 + s / 0x1_0000;
      rounds := rounds + 1;
    }
    r := s;
  }

  /** Two rounds suffice for 32-bit sums, four for every 64-bit sum. */
  /** The value after k rounds. */
  function FoldedBy(n: nat, k: nat): nat {
    if k == 0 then n else FoldedBy(FoldOnce(n), k - 1)
  }

  /** The loop's test holds before each of the counted rounds and fails after them. */
  lemma {:induction false} FoldRoundsIff(n: nat, k: nat)
    ensures k < FoldRounds(n) ==> FoldedBy(n, k) > 0xFFFF
    ensures k == FoldRounds(n) ==> FoldedBy(n, k) <= 0xFFFF
    decreases k
  {
    hide FoldOnce;
    if k > 0 && n > 0xFFFF {
      FoldRoundsIff(FoldOnce(n), k - 1);
    }
  }

  lemma FoldRoundsBounded(n: nat)
    ensures n < 0x1_0000_0000 ==> FoldRounds(n) <= 2
    ensures n < TWO_TO_THE_64 ==> FoldRounds(n) <= 4
  {
    var n1 := FoldOnce(n);
    var n2 := FoldOnce(n1);
    var n3 := FoldOnce(n2);
    var n4 := FoldOnce(n3);
    if n < 0x1_0000_0000 {
      assert n2 < 0x1_0000;
    }
    if n < TWO_TO_THE_64 {
      assert n1 <= 0x1_0000_0000_0000 + 0xFFFE;
      assert n2 <= 0x1_0000_0000 + 0xFFFE;
      assert n3 <= 0x1_0000 + 0xFFFE;
      assert n4 < 0x1_0000;
      assert FoldRounds(n4) == 0;
      assert FoldRounds(n3) <= 1;
      assert FoldRounds(n2) <= 2;
      assert FoldRounds(n1) <= 3;
    }
  }

  /** Deferring the carries and folding them at the end is one's complement addition. */
  lemma {:induction false} FoldedSumIsOnesSum(s: bytes)
    ensures Residue(WordSum(s)) == OnesSum(s)
    decreases |s|
  {
    if |s| >= 2 {
      FoldedSumIsOnesSum(s[2..]);
      OnesAddResidue(Be16(s[0], s[1]), WordSum(s[2..]));
    } else {
      ResidueIs(WordSum(s), OnesSum(s), 0);
    }
  }

  lemma OnesAddResidue(w: uint16, rest: nat)
    ensures OnesAdd(w, Residue(rest)) == Residue(w + rest)
  {
    var k := ResidueMultiple(rest);
    var r := OnesAdd(w, Residue(rest));
    ResidueIs(w + rest, r, if w + Residue(rest) < 0x1_0000 then k else k + 1);
  }

  /** Summing can be cut after any even number of octets. */
  lemma {:induction false} WordSumAppend(a: bytes, b: bytes)
    requires |a| % 2 == 0
    ensures WordSum(a + b) == WordSum(a) + WordSum(b)
    decreases |a|
  {
    if |a| == 0 {
      assert a + b == b;
    } else {
      WordSumAppend(a[2..], b);
      assert (a + b)[2..] == a[2..] + b;
    }
  }

  /** Changing one aligned word changes the sum by the difference. */
  lemma {:induction false} WordSumPut16(s: bytes, i: nat, w: uint16)
    requires i % 2 == 0 && i + 2 <= |s|
    ensures WordSum(Put16(s, i, w)) == WordSum(s) - Get16(s, i) + w
  {
    var t := Put16(s, i, w);
    assert s == s[..i] + (s[i..i + 2] + s[i + 2..]);
    assert t == s[..i] + (t[i..i + 2] + s[i + 2..]);
    WordSumAppend(s[..i], s[i..i + 2] + s[i + 2..]);
    WordSumAppend(s[..i], t[i..i + 2] + s[i + 2..]);
    WordSumAppend(s[i..i + 2], s[i + 2..]);
    WordSumAppend(t[i..i + 2], s[i + 2..]);
    WordSumOfTwo(s[i..i + 2]);
    WordSumOfTwo(t[i..i + 2]);
  }

  lemma WordSumOfTwo(s: bytes)
    requires |s| == 2
    ensures WordSum(s) == Get16(s, 0)
  {
  }

  lemma {:induction false} WordSumBound(s: bytes)
    ensures 2 * WordSum(s) <= 0xFFFF * (|s| + 1)
    decreases |s|
  {
    if |s| >= 2 {
      WordSumBound(s[2..]);
    }
  }

  /** Section 2(B) of RFC 1071. `EvenOctets` witnesses the congruence. */
  function EvenOctets(s: bytes): nat {
    if |s| == 0 then 0
    else if |s| == 1 then s[0]
    else s[0] + EvenOctets(s[2..])
  }

  lemma {:induction false} SwappedSum(s: bytes)
    ensures 0x100 * WordSum(s) == HostWordSum(Little, s) + 0xFFFF * EvenOctets(s)
    decreases |s|
  {
    if |s| >= 2 {
      SwappedSum(s[2..]);
    }
  }

  /** The octet that a big-endian host adds in the wrong half of its word, if there is one. */
  function OddTail(s: bytes): byte {
    if |s| == 0 then 0
    else if |s| == 1 then s[0]
    else OddTail(s[2..])
  }

  lemma {:induction false} OddTailIsLast(s: bytes)
    ensures OddTail(s) == if |s| % 2 == 1 then s[|s| - 1] else 0
    decreases |s|
  {
    if |s| >= 2 {
      OddTailIsLast(s[2..]);
    }
  }

  lemma {:induction false} BigHostSum(s: bytes)
    ensures WordSum(s) == HostWordSum(Big, s) + 0xFF * OddTail(s)
    decreases |s|
  {
    if |s| >= 2 {
      BigHostSum(s[2..]);
    }
  }

  lemma HostWordSumZero(s: bytes)
    ensures HostWordSum(Little, s) == 0 <==> WordSum(s) == 0
    decreases |s|
  {
  }

  /** A little-endian host computes the byte-swapped sum, for even and odd lengths alike. */
  lemma LittleHostSumIsSwapped(s: bytes)
    ensures Residue(HostWordSum(Little, s)) == Swap16(OnesSum(s))
  {
    FoldedSumIsOnesSum(s);
    HostWordSumZero(s);
    SwappedSum(s);
    SwapResidue(WordSum(s), HostWordSum(Little, s), EvenOctets(s));
  }

  lemma SwapResidue(n: nat, swapped: nat, e: nat)
    requires 0x100 * n == swapped + 0xFFFF * e
    requires n == 0 <==> swapped == 0
    ensures Residue(swapped) == Swap16(Residue(n))
  {
    var k := ResidueMultiple(n);
    var r := Residue(n);
    assert 0x100 * r == Swap16(r) + 0xFFFF * (r / 0x100);
    ResidueIs(swapped, Swap16(r), r / 0x100 + 0x100 * k - e);
  }

  /** A big-endian host computes the reference sum exactly when no odd octet is misplaced. */
  lemma BigHostSumIff(s: bytes)
    ensures Residue(HostWordSum(Big, s)) == OnesSum(s) <==> OddTail(s) == 0
  {
    hide Residue, OnesSum, HostWordSum, WordSum, OddTail;
    FoldedSumIsOnesSum(s);
    BigHostSum(s);
    TailTells(HostWordSum(Big, s), OddTail(s));
  }

  lemma TailTells(n: nat, tail: byte)
    ensures Residue(n) == Residue(n + 0xFF * tail) <==> tail == 0
  {
    var k := ResidueMultiple(n);
    var k' := ResidueMultiple(n + 0xFF * tail);
    hide Residue;
    if Residue(n) == Residue(n + 0xFF * tail) {
      assert tail as int == 0x101 * (k' - k);
    }
  }
}
