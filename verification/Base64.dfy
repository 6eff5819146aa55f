/** Base64 as section 4 of RFC 4648 defines it, over the tables of platforms/linux/src/base64.c. */
module Base64 {
  import opened Bytes

  // The two tables, cut into rows.
  const UPPER := "ABCDEFGHIJKLMNOPQRSTUVWXYZ"
  const LOWER := "abcdefghijklmnopqrstuvwxyz"
  const DIGITS := "0123456789"
  const B64_CHARS: string := UPPER + LOWER + DIGITS + "+/"

  const FROM_PLUS: seq<int> :=
    [62, -1, -1, -1, 63, 52, 53, 54, 55, 56, 57, 58, 59, 60, 61, -1, -1, -1, -1, -1, -1, -1]
  const FROM_UPPER: seq<int> :=
    [0, 1, 2, 3, 4, 5, 6, 7, 8, 9, 10, 11, 12, 13, 14, 15, 16, 17, 18, 19, 20, 21, 22, 23, 24, 25]
  const BETWEEN: seq<int> := [-1, -1, -1, -1, -1, -1]
  const FROM_LOWER: seq<int> :=
    [26, 27, 28, 29, 30, 31, 32, 33, 34, 35, 36, 37, 38, 39, 40, 41, 42, 43, 44, 45, 46, 47, 48, 49, 50, 51]
  const B64_INVS: seq<int> := FROM_PLUS + FROM_UPPER + BETWEEN + FROM_LOWER

  type sextet = v: int | 0 <= v < 64

  /** `b64chars[v]` as ranges. */
  function Letter(v: sextet): char {
    if v < 26 then ('A' as int + v) as char
    else if v < 52 then ('a' as int + v - 26) as char
    else if v < 62 then ('0' as int + v - 52) as char
    else if v == 62 then '+' else '/'
  }

  predicate IsLetter(c: char) {
    'A' <= c <= 'Z' || 'a' <= c <= 'z' || '0' <= c <= '9' || c == '+' || c == '/'
  }

  function Value(c: char): sextet
    requires IsLetter(c)
  {
    if 'A' <= c <= 'Z' then c as int - 'A' as int
    else if 'a' <= c <= 'z' then c as int - 'a' as int + 26
    else if '0' <= c <= '9' then c as int - '0' as int + 52
    else if c == '+' then 62 else 63
  }

  lemma CharTable(v: sextet)
    ensures |B64_CHARS| == 64 && B64_CHARS[v] == Letter(v)
  {
  }

  lemma Rows()
    ensures |FROM_PLUS| == 22 && |FROM_UPPER| == 26 && |BETWEEN| == 6 && |FROM_LOWER| == 26
    ensures forall k :: 0 <= k < 26 ==> FROM_UPPER[k] == k
    ensures forall k :: 0 <= k < 6 ==> BETWEEN[k] == -1
    ensures forall k :: 0 <= k < 26 ==> FROM_LOWER[k] == 26 + k
  {
    hide FROM_PLUS;
    assert |FROM_PLUS| == 22 by { FirstRow(0); }
  }

  lemma FirstRow(i: nat)
    requires i < 22
    ensures |FROM_PLUS| == 22
    ensures FROM_PLUS[i] == if IsLetter((i + 43) as char) then Value((i + 43) as char) else -1
  {
  }

  lemma InverseTable(i: nat)
    requires i < 80
    ensures |B64_INVS| == 80
    ensures B64_INVS[i] == if IsLetter((i + 43) as char) then Value((i + 43) as char) else -1
  {
    hide FROM_PLUS, FROM_UPPER, BETWEEN, FROM_LOWER;
    Rows();
    if i < 22 {
      FirstRow(i);
    }
  }

  // ---------------------------------------------------------------- section 4 of RFC 4648

  const PAD := '='

  /** Three octets as four sextets, the missing ones of a last group taken as zero. */
  function Sextets(a: byte, b: byte, c: byte): (sextet, sextet, sextet, sextet) {
    (a / 4, a % 4 * 16 + b / 16, b % 16 * 4 + c / 64, c % 64)
  }

  function First(v0: sextet, v1: sextet): byte { v0 * 4 + v1 / 16 }
  function Second(v1: sextet, v2: sextet): byte { v1 % 16 * 16 + v2 / 4 }
  function Third(v2: sextet, v3: sextet): byte { v2 % 4 * 64 + v3 }

  function Encode(b: bytes): string {
    if |b| == 0 then ""
    else if |b| == 1 then
      var v := Sextets(b[0], 0, 0);
      [Letter(v.0), Letter(v.1), PAD, PAD]
    else if |b| == 2 then
      var v := Sextets(b[0], b[1], 0);
      [Letter(v.0), Letter(v.1), Letter(v.2), PAD]
    else
      var v := Sextets(b[0], b[1], b[2]);
      [Letter(v.0), Letter(v.1), Letter(v.2), Letter(v.3)] + Encode(b[3..])
  }

  /** How many of the last two characters are padding. */
  function Pads(s: string): nat {
    if |s| == 0 || s[|s| - 1] != PAD then 0
    else if |s| == 1 || s[|s| - 2] != PAD then 1
    else 2
  }

  /** Groups of four letters, with padding at the very end only. */
  predicate WellFormed(s: string) {
    |s| % 4 == 0 && forall k :: 0 <= k < |s| - Pads(s) ==> IsLetter(s[k])
  }

  /** Section 3.5 of RFC 4648: the bits that padding leaves unused are zero. */
  predicate Canonical(s: string) {
    && WellFormed(s)
    && (Pads(s) == 1 ==> Value(s[|s| - 2]) % 4 == 0)
    && (Pads(s) == 2 ==> Value(s[|s| - 3]) % 16 == 0)
  }

  lemma WellFormedGroups(s: string)
    requires WellFormed(s) && s != ""
    ensures |s| >= 4 && IsLetter(s[0]) && IsLetter(s[1])
    ensures s[2] == PAD ==> |s| == 4 && s[3] == PAD && Pads(s) == 2
    ensures s[2] != PAD && s[3] == PAD ==> |s| == 4 && IsLetter(s[2]) && Pads(s) == 1
    ensures s[2] != PAD && s[3] != PAD ==>
              IsLetter(s[2]) && IsLetter(s[3]) && WellFormed(s[4..]) && Pads(s[4..]) == Pads(s)
    ensures |s| == 4 && s[3] != PAD ==> Pads(s) == 0
  {
  }

  function Decode(s: string): bytes
    requires WellFormed(s)
    decreases |s|
  {
    if s == "" then []
    else
      WellFormedGroups(s);
      var v0, v1 := Value(s[0]), Value(s[1]);
      if s[2] == PAD then [First(v0, v1)]
      else if s[3] == PAD then [First(v0, v1), Second(v1, Value(s[2]))]
      else [First(v0, v1), Second(v1, Value(s[2])), Third(Value(s[2]), Value(s[3]))] + Decode(s[4..])
  }

  lemma {:induction false} DecodedLength(s: string)
    requires WellFormed(s)
    ensures |Decode(s)| == |s| / 4 * 3 - Pads(s)
    decreases |s|
  {
    if s != "" {
      WellFormedGroups(s);
      if s[2] != PAD && s[3] != PAD {
        DecodedLength(s[4..]);
      }
    }
  }

  lemma SextetsJoin(a: byte, b: byte, c: byte)
    ensures var v := Sextets(a, b, c); First(v.0, v.1) == a && Second(v.1, v.2) == b && Third(v.2, v.3) == c
  {
  }

  lemma OctetsSplit(v0: sextet, v1: sextet, v2: sextet, v3: sextet)
    ensures Sextets(First(v0, v1), Second(v1, v2), Third(v2, v3)) == (v0, v1, v2, v3)
  {
    SplitFirst(v0, v1);
    SplitSecond(v1, v2);
    SplitThird(v2, v3);
  }

  lemma OctetsSplitPadded(v0: sextet, v1: sextet, v2: sextet)
    ensures Sextets(First(v0, v1), Second(v1, v2), 0) == (v0, v1, v2 - v2 % 4, 0)
    ensures Sextets(First(v0, v1), 0, 0) == (v0, v1 - v1 % 16, 0, 0)
  {
    SplitFirst(v0, v1);
    SplitSecond(v1, v2);
  }

  lemma SplitFirst(v0: sextet, v1: sextet)
    ensures First(v0, v1) / 4 == v0 && First(v0, v1) % 4 == v1 / 16
  {
  }

  lemma SplitSecond(v1: sextet, v2: sextet)
    ensures Second(v1, v2) / 16 == v1 % 16 && Second(v1, v2) % 16 == v2 / 4
  {
  }

  lemma SplitThird(v2: sextet, v3: sextet)
    ensures Third(v2, v3) / 64 == v2 % 4 && Third(v2, v3) % 64 == v3
  {
  }

  lemma UnusedBitsZero(a: byte, b: byte)
    ensures Sextets(a, 0, 0).1 % 16 == 0 && Sextets(a, b, 0).2 % 4 == 0
  {
  }

  /** Four characters for every started group of three octets. */
  lemma {:induction false} EncodedLength(b: bytes)
    ensures |Encode(b)| == (|b| + 2) / 3 * 4
    decreases |b|
  {
    hide Letter, Sextets;
    if |b| >= 3 {
      EncodedLength(b[3..]);
    }
  }

  /** Whatever is encoded is in canonical form. */
  lemma {:induction false} EncodedIsCanonical(b: bytes)
    ensures Canonical(Encode(b))
    ensures Pads(Encode(b)) == if |b| % 3 == 0 then 0 else 3 - |b| % 3
    decreases |b|
  {
    hide Letter, Value, Sextets, IsLetter, Canonical, Pads;
    if |b| == 0 {
      EmptyIsCanonical();
    } else if |b| == 1 {
      UnusedBitsZero(b[0], 0);
      SextetLetters(Sextets(b[0], 0, 0));
      LettersAreNotPads();
      PaddedGroup(Encode(b));
    } else if |b| == 2 {
      UnusedBitsZero(b[0], b[1]);
      SextetLetters(Sextets(b[0], b[1], 0));
      LettersAreNotPads();
      PaddedGroup(Encode(b));
    } else {
      EncodedIsCanonical(b[3..]);
      SextetLetters(Sextets(b[0], b[1], b[2]));
      assert Encode(b) == Encode(b)[..4] + Encode(b[3..]);
      CanonicalPrepend(Encode(b)[..4], Encode(b[3..]));
    }
  }

  lemma SextetLetters(v: (sextet, sextet, sextet, sextet))
    ensures IsLetter(Letter(v.0)) && Value(Letter(v.0)) == v.0
    ensures IsLetter(Letter(v.1)) && Value(Letter(v.1)) == v.1
    ensures IsLetter(Letter(v.2)) && Value(Letter(v.2)) == v.2
    ensures IsLetter(Letter(v.3)) && Value(Letter(v.3)) == v.3
  {
  }

  lemma EmptyIsCanonical()
    ensures Canonical("") && Pads("") == 0 && Encode(Decode("")) == ""
  {
  }

  lemma PaddedGroup(s: string)
    requires |s| == 4 && IsLetter(s[0]) && IsLetter(s[1]) && s[3] == PAD
    requires IsLetter(s[2]) || s[2] == PAD
    requires if s[2] == PAD then Value(s[1]) % 16 == 0 else Value(s[2]) % 4 == 0
    ensures Canonical(s) && Pads(s) == if s[2] == PAD then 2 else 1
  {
  }

  lemma CanonicalPrepend(group: string, s: string)
    requires |group| == 4 && (forall k :: 0 <= k < 4 ==> IsLetter(group[k])) && Canonical(s)
    ensures Canonical(group + s) && Pads(group + s) == Pads(s)
  {
  }

  /** Decoding what was encoded returns it. */
  lemma {:induction false} DecodeEncode(b: bytes)
    ensures WellFormed(Encode(b)) && Decode(Encode(b)) == b
    decreases |b|
  {
    hide Letter, Value, Sextets, IsLetter, Pads, First, Second, Third, WellFormed, Canonical;
    EncodedIsCanonical(b);
    LettersAreNotPads();
    CanonicalIsWellFormed(Encode(b));
    if |b| == 1 {
      SextetLetters(Sextets(b[0], 0, 0));
      SextetsJoin(b[0], 0, 0);
    } else if |b| == 2 {
      SextetLetters(Sextets(b[0], b[1], 0));
      SextetsJoin(b[0], b[1], 0);
    } else if |b| >= 3 {
      SextetLetters(Sextets(b[0], b[1], b[2]));
      SextetsJoin(b[0], b[1], b[2]);
      DecodeEncode(b[3..]);
      assert Encode(b)[4..] == Encode(b[3..]);
      assert b == [b[0], b[1], b[2]] + b[3..];
    }
  }

  lemma CanonicalIsWellFormed(s: string)
    requires Canonical(s)
    ensures WellFormed(s)
  {
  }

  lemma LettersAreNotPads()
    ensures !IsLetter(PAD)
  {
  }

  /** Encoding what was decoded returns it exactly when it was canonical. */
  lemma {:induction false} EncodeDecodeIff(s: string)
    requires WellFormed(s)
    ensures Encode(Decode(s)) == s <==> Canonical(s)
    decreases |s|
  {
    hide Letter, Value, Sextets, IsLetter, WellFormed, Canonical, Pads, Encode, Decode;
    if s == "" {
      EmptyIsCanonical();
    } else {
      WellFormedGroups(s);
      if s[2] == PAD {
        EncodeDecodeOneOctet(s);
      } else if s[3] == PAD {
        EncodeDecodeTwoOctets(s);
      } else {
        EncodeDecodeIff(s[4..]);
        CanonicalTail(s);
        EncodeDecodeGroup(s);
        var tail := Encode(Decode(s[4..]));
        assert s == s[..4] + s[4..];
        assert (s[..4] + tail)[4..] == tail;
      }
    }
  }

  lemma CanonicalLastGroup(s: string)
    requires WellFormed(s) && |s| == 4 && s[3] == PAD
    ensures IsLetter(s[0]) && IsLetter(s[1]) && (s[2] != PAD ==> IsLetter(s[2]))
    ensures Canonical(s) <==> if s[2] == PAD then Value(s[1]) % 16 == 0 else Value(s[2]) % 4 == 0
  {
  }

  lemma EncodeDecodeOneOctet(s: string)
    requires WellFormed(s) && |s| == 4 && s[2] == PAD && s[3] == PAD
    ensures Encode(Decode(s)) == s <==> Canonical(s)
  {
    hide Letter, Value, Sextets, IsLetter, WellFormed, Canonical, Pads, First;
    WellFormedGroups(s);
    CanonicalLastGroup(s);
    var v0, v1 := Value(s[0]), Value(s[1]);
    OctetsSplitPadded(v0, v1, 0);
    PaddedLetter(s[0], v0);
    PaddedLetter(s[1], v1 - v1 % 16);
    assert Decode(s) == [First(v0, v1)];
    assert Encode(Decode(s)) == [Letter(v0), Letter(v1 - v1 % 16), PAD, PAD];
  }

  lemma EncodeDecodeTwoOctets(s: string)
    requires WellFormed(s) && |s| == 4 && s[2] != PAD && s[3] == PAD
    ensures Encode(Decode(s)) == s <==> Canonical(s)
  {
    hide Letter, Value, Sextets, IsLetter, WellFormed, Canonical, Pads, First, Second;
    WellFormedGroups(s);
    CanonicalLastGroup(s);
    var v0, v1, v2 := Value(s[0]), Value(s[1]), Value(s[2]);
    OctetsSplitPadded(v0, v1, v2);
    PaddedLetter(s[0], v0);
    PaddedLetter(s[1], v1);
    PaddedLetter(s[2], v2 - v2 % 4);
    assert Decode(s) == [First(v0, v1), Second(v1, v2)];
    assert Encode(Decode(s)) == [Letter(v0), Letter(v1), Letter(v2 - v2 % 4), PAD];
  }

  lemma PaddedLetter(c: char, v: sextet)
    requires IsLetter(c)
    ensures Letter(v) == c <==> v == Value(c)
  {
  }

  lemma EncodeDecodeGroup(s: string)
    requires WellFormed(s) && |s| >= 4 && s[2] != PAD && s[3] != PAD
    ensures WellFormed(s[4..]) && Encode(Decode(s)) == s[..4] + Encode(Decode(s[4..]))
  {
    hide Letter, Value, Sextets, IsLetter, WellFormed, Pads, First, Second, Third, Encode, Decode;
    WellFormedGroups(s);
    var v0, v1, v2, v3 := Value(s[0]), Value(s[1]), Value(s[2]), Value(s[3]);
    OctetsSplit(v0, v1, v2, v3);
    PaddedLetter(s[0], v0);
    PaddedLetter(s[1], v1);
    PaddedLetter(s[2], v2);
    PaddedLetter(s[3], v3);
    DecodeGroup(s);
    EncodeFullGroup(First(v0, v1), Second(v1, v2), Third(v2, v3), Decode(s[4..]));
  }

  lemma DecodeGroup(s: string)
    requires WellFormed(s) && |s| >= 4 && s[2] != PAD && s[3] != PAD
    ensures WellFormed(s[4..]) && IsLetter(s[0]) && IsLetter(s[1]) && IsLetter(s[2]) && IsLetter(s[3])
    ensures Decode(s) == [First(Value(s[0]), Value(s[1])), Second(Value(s[1]), Value(s[2])),
                          Third(Value(s[2]), Value(s[3]))] + Decode(s[4..])
  {
    hide Value, IsLetter, WellFormed, First, Second, Third;
    WellFormedGroups(s);
  }

  lemma EncodeFullGroup(a: byte, b: byte, c: byte, rest: bytes)
    ensures Encode([a, b, c] + rest)
         == [Letter(Sextets(a, b, c).0), Letter(Sextets(a, b, c).1), Letter(Sextets(a, b, c).2),
             Letter(Sextets(a, b, c).3)] + Encode(rest)
  {
    hide Letter, Sextets;
    assert ([a, b, c] + rest)[3..] == rest;
  }

  lemma CanonicalTail(s: string)
    requires WellFormed(s) && s != "" && |s| >= 4 && s[2] != PAD && s[3] != PAD
    ensures WellFormed(s[4..]) && (Canonical(s[4..]) <==> Canonical(s))
  {
  }

  /** The bits of the last letter that survive decoding. */
  function UsedBits(c: char, pads: nat): nat
    requires IsLetter(c) && pads <= 2
  {
    if pads == 0 then Value(c) else if pads == 1 then Value(c) / 4 else Value(c) / 16
  }

  /** Equal up to the bits that padding makes unused. */
  predicate DifferOnlyInPadBits(s: string, t: string)
    requires WellFormed(s) && WellFormed(t)
  {
    && |s| == |t| && Pads(s) == Pads(t)
    && forall k :: 0 <= k < |s| && s[k] != t[k] ==>
         k == |s| - 1 - Pads(s) && UsedBits(s[k], Pads(s)) == UsedBits(t[k], Pads(t))
  }

  /** Two strings stand for the same octets exactly when they differ only in discarded bits. */
  lemma {:induction false} SameOctetsIff(s: string, t: string)
    requires WellFormed(s) && WellFormed(t)
    ensures Decode(s) == Decode(t) <==> DifferOnlyInPadBits(s, t)
    decreases |s|
  {
    hide Letter, Value, IsLetter, WellFormed, Pads, First, Second, Third, UsedBits, DifferOnlyInPadBits, Decode;
    DecodedLength(s);
    DecodedLength(t);
    AboutLengths(s);
    AboutLengths(t);
    if |s| != |t| || Pads(s) != Pads(t) {
      DifferOnlyInLengths(s, t);
    } else if s == "" {
      DifferOnlyReflexive(s);
    } else {
      WellFormedGroups(s);
      WellFormedGroups(t);
      if s[2] == PAD || s[3] == PAD {
        SameLastGroupIff(s, t);
      } else {
        SameOctetsIff(s[4..], t[4..]);
        SameFullGroupIff(s, t);
      }
    }
  }

  lemma AboutLengths(s: string)
    requires WellFormed(s)
    ensures |s| % 4 == 0 && Pads(s) <= 2 && Pads(s) <= |s|
  {
  }

  lemma DifferOnlyInLengths(s: string, t: string)
    requires WellFormed(s) && WellFormed(t)
    requires |s| != |t| || Pads(s) != Pads(t)
    ensures !DifferOnlyInPadBits(s, t)
  {
  }

  lemma DifferOnlyReflexive(s: string)
    requires WellFormed(s)
    ensures DifferOnlyInPadBits(s, s)
  {
  }

  lemma FirstSame(v0: sextet, v1: sextet, w0: sextet, w1: sextet)
    ensures First(v0, v1) == First(w0, w1) <==> v0 == w0 && v1 / 16 == w1 / 16
  {
  }

  lemma SecondSame(v1: sextet, v2: sextet, w1: sextet, w2: sextet)
    ensures Second(v1, v2) == Second(w1, w2) <==> v1 % 16 == w1 % 16 && v2 / 4 == w2 / 4
  {
  }

  lemma SameLetter(c: char, d: char)
    requires IsLetter(c) && IsLetter(d)
    ensures c == d <==> Value(c) == Value(d)
  {
  }

  lemma SameLastGroupIff(s: string, t: string)
    requires WellFormed(s) && WellFormed(t) && |s| == |t| == 4 && Pads(s) == Pads(t) > 0
    ensures Decode(s) == Decode(t) <==> DifferOnlyInPadBits(s, t)
  {
    hide Letter, Value, IsLetter, WellFormed, First, Second;
    WellFormedGroups(s);
    WellFormedGroups(t);
    SameLetter(s[0], t[0]);
    SameLetter(s[1], t[1]);
    var v0, v1, w0, w1 := Value(s[0]), Value(s[1]), Value(t[0]), Value(t[1]);
    FirstSame(v0, v1, w0, w1);
    if s[2] == PAD {
      assert DifferOnlyInPadBits(s, t) <==> v0 == w0 && v1 / 16 == w1 / 16;
    } else {
      SameLetter(s[2], t[2]);
      var v2, w2 := Value(s[2]), Value(t[2]);
      SecondSame(v1, v2, w1, w2);
      assert DifferOnlyInPadBits(s, t) <==> v0 == w0 && v1 == w1 && v2 / 4 == w2 / 4;
    }
  }

  lemma SameFullGroupIff(s: string, t: string)
    requires WellFormed(s) && WellFormed(t) && |s| == |t| >= 4 && Pads(s) == Pads(t)
    requires s[2] != PAD && s[3] != PAD && t[2] != PAD && t[3] != PAD
    ensures WellFormed(s[4..]) && WellFormed(t[4..])
    ensures Decode(s) == Decode(t) <==> s[..4] == t[..4] && Decode(s[4..]) == Decode(t[4..])
    ensures DifferOnlyInPadBits(s, t) <==> s[..4] == t[..4] && DifferOnlyInPadBits(s[4..], t[4..])
  {
    WellFormedGroups(s);
    WellFormedGroups(t);
    FullGroupDecodes(s, t);
    FullGroupDiffers(s, t);
  }

  lemma FullGroupDecodes(s: string, t: string)
    requires WellFormed(s) && WellFormed(t) && |s| == |t| >= 4
    requires s[2] != PAD && s[3] != PAD && t[2] != PAD && t[3] != PAD
    requires WellFormed(s[4..]) && WellFormed(t[4..])
    ensures Decode(s) == Decode(t) <==> s[..4] == t[..4] && Decode(s[4..]) == Decode(t[4..])
  {
    hide Letter, Value, IsLetter, WellFormed, Pads, First, Second, Third;
    WellFormedGroups(s);
    WellFormedGroups(t);
    SameLetter(s[0], t[0]);
    SameLetter(s[1], t[1]);
    SameLetter(s[2], t[2]);
    SameLetter(s[3], t[3]);
    OctetsSplit(Value(s[0]), Value(s[1]), Value(s[2]), Value(s[3]));
    OctetsSplit(Value(t[0]), Value(t[1]), Value(t[2]), Value(t[3]));
    assert Decode(s)[3..] == Decode(s[4..]) && Decode(t)[3..] == Decode(t[4..]);
    if Decode(s) == Decode(t) {
      assert Decode(s)[0] == Decode(t)[0] && Decode(s)[1] == Decode(t)[1] && Decode(s)[2] == Decode(t)[2];
      assert forall k :: 0 <= k < 4 ==> s[k] == t[k];
    }
    if s[..4] == t[..4] {
      assert s[..4][0] == t[..4][0] && s[..4][1] == t[..4][1] && s[..4][2] == t[..4][2] && s[..4][3] == t[..4][3];
    }
  }

  lemma FullGroupDiffers(s: string, t: string)
    requires WellFormed(s) && WellFormed(t) && |s| == |t| >= 4 && Pads(s) == Pads(t)
    requires WellFormed(s[4..]) && WellFormed(t[4..]) && Pads(s[4..]) == Pads(s) && Pads(t[4..]) == Pads(t)
    requires IsLetter(s[3]) && IsLetter(t[3])
    ensures DifferOnlyInPadBits(s, t) <==> s[..4] == t[..4] && DifferOnlyInPadBits(s[4..], t[4..])
  {
  }
}
