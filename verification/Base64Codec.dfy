/** The C functions of platforms/linux/src/base64.c, loop by loop, against the standard's encoding. */
module Base64Codec {
  import opened Bytes
  import opened Base64

  /** `b64_isvalidchar`. */
  predicate IsValidChar(c: char) {
    IsLetter(c) || c == PAD
  }

  /** Exactly the characters of the table and the padding character. */
  lemma ValidCharIff(c: char)
    ensures IsValidChar(c) <==> c in B64_CHARS || c == PAD
  {
    hide B64_CHARS;
    if IsLetter(c) {
      CharTable(Value(c));
      assert Letter(Value(c)) == c;
    }
    if c in B64_CHARS {
      CharTable(0);
      var v :| 0 <= v < |B64_CHARS| && B64_CHARS[v] == c;
      CharTable(v);
    }
  }

  predicate LetterAt(k: nat)
    requires k < 80
  {
    IsLetter((k + 43) as char)
  }

  lemma LetterSlot(v: sextet)
    ensures 43 <= Letter(v) as int < 123
    ensures forall k :: 0 <= k < 80 && LetterAt(k) ==> (Value((k + 43) as char) == v <==> k == Letter(v) as int - 43)
    ensures LetterAt(Letter(v) as int - 43)
  {
  }

  /** `b64_generate_decode_table`: the table in the file is what the generator computes. */
  method GenerateDecodeTable() returns (inv: array<int>)
    ensures fresh(inv) && inv[..] == B64_INVS
  {
    hide Letter, Value, IsLetter, B64_CHARS, B64_INVS;
    inv := new int[80](_ => -1);
    for i := 0 to 64
      invariant forall k :: 0 <= k < 80 ==>
                  inv[k] == if LetterAt(k) && Value((k + 43) as char) < i then Value((k + 43) as char) else -1
    {
      CharTable(i);
      LetterSlot(i);
      inv[B64_CHARS[i] as int - 43] := i;
    }
    InverseTable(0);
    forall k | 0 <= k < 80
      ensures inv[k] == B64_INVS[k]
    {
      InverseTable(k);
    }
  }

  /** `b64_encoded_size`. */
  method EncodedSize(inlen: nat) returns (ret: nat)
    ensures ret == (inlen + 2) / 3 * 4
  {
    ret := inlen;
    if inlen % 3 != 0 {
      ret := ret + (3 - inlen % 3);
    }
    assert ret % 3 == 0 && ret / 3 == (inlen + 2) / 3;
    ret := ret / 3;
    ret := ret * 4;
  }

  /** The accumulator `v` after three octets, and the sextets the shifts and masks take from it. */
  function Pack(a: byte, b: byte, c: byte): nat {
    (a * 0x100 + b) * 0x100 + c
  }

  lemma PackedSextets(a: byte, b: byte, c: byte)
    ensures var v := Pack(a, b, c);
            (v / 0x4_0000 % 0x40, v / 0x1000 % 0x40, v / 0x40 % 0x40, v % 0x40) == Sextets(a, b, c)
  {
    var v, t := Pack(a, b, c), Sextets(a, b, c);
    var t0: int, t1: int, t2: int, t3: int := t.0, t.1, t.2, t.3;
    PackIsSum(a, b, c);
    hide Sextets, Pack;
    Quotient(v, 0x40, 0x1000 * t0 + 0x40 * t1 + t2, t3);
    Quotient(v, 0x1000, 0x40 * t0 + t1, 0x40 * t2 + t3);
    Quotient(v, 0x4_0000, t0, 0x1000 * t1 + 0x40 * t2 + t3);
    Quotient(0x1000 * t0 + 0x40 * t1 + t2, 0x40, 0x40 * t0 + t1, t2);
    Quotient(0x40 * t0 + t1, 0x40, t0, t1);
    Quotient(t0, 0x40, 0, t0);
  }

  lemma PackIsSum(a: byte, b: byte, c: byte)
    ensures var t := Sextets(a, b, c);
            Pack(a, b, c) == 0x4_0000 * t.0 as int + 0x1000 * t.1 as int + 0x40 * t.2 as int + t.3 as int
  {
  }

  lemma Quotient(v: nat, d: nat, q: nat, r: nat)
    requires d in {0x40, 0x100, 0x1000, 0x1_0000, 0x4_0000} && v == d * q + r && r < d
    ensures v / d == q && v % d == r
  {
  }

  /** The stores of one pass over `out` in ascending order, each index once. */
  ghost predicate Ascending(stores: seq<nat>, n: nat) {
    |stores| == n && forall k :: 0 <= k < n ==> stores[k] == k
  }

  /** So no index is written twice, and none but the first n. */
  lemma {:induction false} EachStoredOnce(stores: seq<nat>, n: nat, i: nat)
    requires Ascending(stores, n)
    ensures multiset(stores)[i] == if i < n then 1 else 0
    decreases n
  {
    if n > 0 {
      assert stores == stores[..n - 1] + [stores[n - 1]];
      EachStoredOnce(stores[..n - 1], n - 1, i);
    }
  }

  /** `b64_encode`. The log `stores` lists the indices written after the terminator, in order. */
  method B64Encode(input: array?<byte>, len: nat) returns (out: array?<char>, ghost stores: seq<nat>)
    requires input != null ==> len <= input.Length
    ensures out == null <==> input == null || len == 0
    ensures out != null ==> fresh(out) && out[..] == Encode(input[..len]) + ['\0']
    ensures out != null ==> Ascending(stores, out.Length - 1)
  {
    stores := [];
    if input == null || len == 0 {
      return null, stores;
    }
    var elen := EncodedSize(len);
    EncodedLength(input[..len]);
    out := new char[elen + 1];
    out[elen] := '\0';
    stores := EncodeLoop(input, len, out);
  }

  /** The loop of `b64_encode`, over an output buffer that already has its terminator. */
  method EncodeLoop(input: array<byte>, len: nat, out: array<char>) returns (ghost stores: seq<nat>)
    requires len <= input.Length
    requires out.Length == |Encode(input[..len])| + 1 && out[out.Length - 1] == '\0'
    modifies out
    ensures out[..] == Encode(input[..len]) + ['\0']
    ensures Ascending(stores, out.Length - 1)
  {
    hide Encode, Rest;
    ghost var all, elen := Encode(input[..len]), out.Length - 1;
    stores := [];
    var i: nat, j: nat := 0, 0;
    RestAt(input[..len], 0);
    while i < len
      invariant j <= elen && out[elen] == '\0'
      invariant out[..j] + Encode(Rest(input[..len], i)) == all
      invariant Ascending(stores, j)
    {
      ghost var rest := Rest(input[..len], i);
      RestAt(input[..len], i);
      assert input[..len][i..] == input[i..len];
      var group := EncodeGroup(input, len, i);
      EncodeStep(rest, group, out[..j], elen);
      stores := StoreGroup(out, j, group, stores);
      i, j := i + 3, j + 4;
    }
    RestAt(input[..len], i);
    EncodeNothing();
    assert out[..] == out[..elen] + [out[elen]];
  }

  method StoreGroup(buf: array<char>, j: nat, group: string, ghost stores: seq<nat>) returns (ghost log: seq<nat>)
    requires |group| == 4 && j + 4 <= buf.Length
    requires Ascending(stores, j)
    modifies buf
    ensures buf[..j + 4] == old(buf[..j]) + group
    ensures forall k :: j + 4 <= k < buf.Length ==> buf[k] == old(buf[k])
    ensures Ascending(log, j + 4)
  {
    buf[j] := group[0];
    buf[j + 1] := group[1];
    buf[j + 2] := group[2];
    buf[j + 3] := group[3];
    log := stores + [j, j + 1, j + 2, j + 3];
  }

  /** What is left to encode from position `i`, which may have run past the end. */
  function Rest(b: bytes, i: nat): bytes {
    if i <= |b| then b[i..] else []
  }

  lemma RestAt(b: bytes, i: nat)
    ensures Rest(b, i) == if i < |b| then b[i..] else []
    ensures Rest(b, i + 3) == Rest(Rest(b, i), 3)
    ensures Rest(b, 0) == b
  {
  }

  lemma EncodeNothing()
    ensures Encode([]) == ""
  {
  }

  /** One round of the encoding loop: three shifts into `v`, four letters out of it. */
  method EncodeGroup(input: array<byte>, len: nat, i: nat) returns (group: string)
    requires i < len <= input.Length
    ensures |group| == 4 && group <= Encode(input[i..len])
  {
    hide Letter, Sextets, Encode;
    var second: byte, third: byte := 0, 0;
    if i + 1 < len {
      second := input[i + 1];
    }
    if i + 2 < len {
      third := input[i + 2];
    }
    var v: nat := input[i];
    v := v * 0x100 + second;
    v := v * 0x100 + third;
    EncodeHead(input[i..len], input[i], second, third);
    group := TakeLetters(v, input[i], second, third, i + 1 < len, i + 2 < len);
  }

  method TakeLetters(v: nat, ghost a: byte, ghost b: byte, ghost c: byte, two: bool, three: bool)
    returns (group: string)
    requires v == Pack(a, b, c)
    ensures group == HeadGroup(a, b, c, two, three)
  {
    hide Letter, Sextets, Pack;
    PackedSextets(a, b, c);
    CharTable(v / 0x4_0000 % 0x40);
    CharTable(v / 0x1000 % 0x40);
    CharTable(v / 0x40 % 0x40);
    CharTable(v % 0x40);
    group := [
      B64_CHARS[v / 0x4_0000 % 0x40],
      B64_CHARS[v / 0x1000 % 0x40],
      if two then B64_CHARS[v / 0x40 % 0x40] else PAD,
      if three then B64_CHARS[v % 0x40] else PAD];
  }

  function HeadGroup(a: byte, b: byte, c: byte, two: bool, three: bool): string {
    var v := Sextets(a, b, c);
    [Letter(v.0), Letter(v.1), if two then Letter(v.2) else PAD, if three then Letter(v.3) else PAD]
  }

  lemma EncodeHead(rest: bytes, a: byte, b: byte, c: byte)
    requires rest != [] && a == rest[0]
    requires b == if |rest| > 1 then rest[1] else 0
    requires c == if |rest| > 2 then rest[2] else 0
    ensures HeadGroup(a, b, c, |rest| > 1, |rest| > 2) <= Encode(rest)
  {
  }

  lemma EncodeStep(rest: bytes, group: string, done: string, elen: nat)
    requires rest != [] && |group| == 4 && group <= Encode(rest)
    requires |done + Encode(rest)| == elen
    ensures |done| + 4 <= elen
    ensures done + Encode(rest) == (done + group) + Encode(Rest(rest, 3))
  {
  }

  /** How many `=` the string ends in, well formed or not. */
  function TrailingPads(s: string): nat {
    if s == "" || s[|s| - 1] != PAD then 0 else 1 + TrailingPads(s[..|s| - 1])
  }

  lemma TrailingPadsWellFormed(s: string)
    requires WellFormed(s)
    ensures TrailingPads(s) == Pads(s)
  {
    hide WellFormed, IsLetter;
    if s != "" {
      LettersAreNotPads();
      LastLetter(s);
      var t := s[..|s| - 1];
      var u := t[..|t| - 1];
      assert t[|t| - 1] == s[|s| - 2] && u[|u| - 1] == s[|s| - 3];
      assert s[|s| - 1 - Pads(s)] != PAD;
      if Pads(s) == 2 {
        assert TrailingPads(u) == 0;
        assert TrailingPads(t) == 1;
      } else if Pads(s) == 1 {
        assert TrailingPads(t) == 0;
      }
    }
  }

  lemma LastLetter(s: string)
    requires WellFormed(s) && s != ""
    ensures |s| >= 4 && Pads(s) <= 2 && IsLetter(s[|s| - 1 - Pads(s)])
  {
  }

  /** `b64_decoded_size`; `ret--` on a `size_t` wraps below zero. */
  method DecodedSize(s: string) returns (ret: uint64)
    requires |s| < TWO_TO_THE_64
    ensures ret == var size := |s| / 4 * 3 - TrailingPads(s); if size >= 0 then size else size + TWO_TO_THE_64
    ensures WellFormed(s) ==> ret == |Decode(s)|
  {
    hide WellFormed, Decode;
    ghost var full := |s| / 4 * 3;
    assert 0 <= full <= |s|;
    ret := |s| / 4 * 3;
    var i: nat := |s|;
    assert s[..i] == s;
    while i > 0 && s[i - 1] == PAD
      invariant i <= |s|
      invariant TrailingPads(s) == |s| - i + TrailingPads(s[..i])
      invariant ret == if full >= |s| - i then full - (|s| - i) else full - (|s| - i) + TWO_TO_THE_64
    {
      assert s[..i][..i - 1] == s[..i - 1];
      ret := if ret == 0 then TWO_TO_THE_64 - 1 else ret - 1;
      i := i - 1;
    }
    if WellFormed(s) {
      TrailingPadsWellFormed(s);
      DecodedLength(s);
    }
  }

  /** `b64_decode` on a C string (or null); `length` is what `*outlen` holds afterwards. */
  method B64Decode(input: Option<string>, outlen: nat) returns (out: array?<byte>, length: nat, ghost stores: seq<nat>)
    requires input.Some? ==> |input.value| < TWO_TO_THE_64
    requires input.Some? && PassesChecks(input.value) ==> WellFormed(input.value)
    ensures out == null <==> input.None? || !PassesChecks(input.value)
    ensures out == null ==> length == outlen
    ensures out != null ==> fresh(out) && length == |Decode(input.value)| && out[..] == Decode(input.value) + [0]
    ensures out != null ==> Ascending(stores, length)
  {
    out, length, stores := null, outlen, [];
    if input.None? {
      return;
    }
    var s := input.value;
    if |s| % 4 != 0 {
      return;
    }
    for i := 0 to |s|
      invariant forall k :: 0 <= k < i ==> IsValidChar(s[k])
    {
      if !IsValidChar(s[i]) {
        return;
      }
    }
    length := DecodedSize(s);
    out := new byte[length + 1];
    out[length] := 0;
    stores := DecodeLoop(s, out);
  }

  /** The rejections of `b64_decode`. */
  predicate PassesChecks(s: string) {
    |s| % 4 == 0 && forall k :: 0 <= k < |s| ==> IsValidChar(s[k])
  }

  /** What is rejected: a length that is not a multiple of four, or a character that is neither in the
      table nor padding. */
  lemma PassesChecksIff(s: string)
    ensures PassesChecks(s) <==> |s| % 4 == 0 && forall k :: 0 <= k < |s| ==> s[k] in B64_CHARS || s[k] == PAD
  {
    hide B64_CHARS, IsValidChar;
    forall k | 0 <= k < |s|
      ensures IsValidChar(s[k]) <==> s[k] in B64_CHARS || s[k] == PAD
    {
      ValidCharIff(s[k]);
    }
  }

  /** Every well-formed string passes. */
  lemma WellFormedPasses(s: string)
    requires WellFormed(s)
    ensures PassesChecks(s)
  {
  }

  lemma EncodedDecodes(b: bytes)
    requires (|b| + 2) / 3 * 4 < TWO_TO_THE_64
    ensures |Encode(b)| < TWO_TO_THE_64 && PassesChecks(Encode(b)) && WellFormed(Encode(b)) && Decode(Encode(b)) == b
  {
    hide Encode, Decode, WellFormed, PassesChecks;
    EncodedLength(b);
    DecodeEncode(b);
    WellFormedPasses(Encode(b));
  }

  /** `b64_encode`, and `b64_decode` on the string it returns: all octets come back, for every input
      that is not empty. */
  method EncodeThenDecode(input: array<byte>, len: nat, outlen: nat) returns (out: array?<byte>, length: nat)
    requires 0 < len <= input.Length && (len + 2) / 3 * 4 < TWO_TO_THE_64
    ensures out != null && length == len && out[..] == input[..len] + [0]
  {
    hide Encode, Decode, WellFormed, PassesChecks;
    ghost var octets := input[..len];
    EncodedDecodes(octets);
    var encoded, _ := B64Encode(input, len);
    var s := encoded[..encoded.Length - 1];
    assert s == Encode(octets);
    ghost var stores;
    out, length, stores := B64Decode(Some(s), outlen);
  }

  /** `b64_decode`, and `b64_encode` on the octets it stores: exactly the canonical strings come back. */
  method DecodeThenEncode(s: string, outlen: nat) returns (out: array?<char>)
    requires s != "" && |s| < TWO_TO_THE_64 && WellFormed(s)
    ensures out != null && (out[..] == s + ['\0'] <==> Canonical(s))
  {
    WellFormedPasses(s);
    EncodeDecodeIff(s);
    DecodedLength(s);
    EncodedLength(Decode(s));
    hide Encode, Decode, WellFormed, Canonical, PassesChecks, Pads;
    var octets, length, _ := B64Decode(Some(s), outlen);
    assert octets[..length] == Decode(s);
    ghost var stores;
    out, stores := B64Encode(octets, length);
    assert out[..out.Length - 1] == Encode(Decode(s));
  }

  /** The loop of `b64_decode`. On a padded last group `j` runs past the end of the octets. */
  method DecodeLoop(s: string, out: array<byte>) returns (ghost stores: seq<nat>)
    requires WellFormed(s) && out.Length == |Decode(s)| + 1 && out[out.Length - 1] == 0
    modifies out
    ensures out[..] == Decode(s) + [0]
    ensures Ascending(stores, out.Length - 1)
  {
    hide WellFormed, Decode;
    ghost var all, length := Decode(s), out.Length - 1;
    ghost var filled: nat := 0;
    stores := [];
    var i: nat, j: nat := 0, 0;
    assert s[0..] == s;
    while i < |s|
      invariant i <= |s| && WellFormed(s[i..])
      invariant filled <= length && (i < |s| ==> filled == j)
      invariant out[length] == 0 && out[..filled] + Decode(s[i..]) == all
      invariant Ascending(stores, filled)
    {
      ghost var rest := s[i..];
      WellFormedGroups(rest);
      LettersAreNotPads();
      DecodeStep(rest, out[..j], length);
      assert s[i + 4..] == rest[4..];
      stores := StoreOctets(s, i, out, j, stores);
      filled := j + |HeadOctets(rest)|;
      i, j := i + 4, j + 3;
    }
    DecodeNothing(s[i..]);
    assert out[..] == out[..length] + [out[length]];
  }

  lemma DecodeNothing(s: string)
    requires s == "" && WellFormed(s)
    ensures Decode(s) == []
  {
  }

  /** The octets of the first group. */
  function HeadOctets(s: string): bytes
    requires |s| >= 4 && IsLetter(s[0]) && IsLetter(s[1])
    requires (s[2] == PAD || IsLetter(s[2])) && (s[3] == PAD || IsLetter(s[3]))
    requires s[2] == PAD ==> s[3] == PAD
  {
    var v0, v1 := Value(s[0]), Value(s[1]);
    if s[2] == PAD then [First(v0, v1)]
    else if s[3] == PAD then [First(v0, v1), Second(v1, Value(s[2]))]
    else [First(v0, v1), Second(v1, Value(s[2])), Third(Value(s[2]), Value(s[3]))]
  }

  lemma DecodeStep(rest: string, done: bytes, length: nat)
    requires WellFormed(rest) && rest != "" && |done + Decode(rest)| == length
    ensures |rest| >= 4 && IsLetter(rest[0]) && IsLetter(rest[1]) && (rest[2] == PAD || IsLetter(rest[2]))
    ensures (rest[3] == PAD || IsLetter(rest[3])) && (rest[2] == PAD ==> rest[3] == PAD)
    ensures WellFormed(rest[4..])
    ensures |done| + |HeadOctets(rest)| <= length
    ensures (done + HeadOctets(rest)) + Decode(rest[4..]) == done + Decode(rest)
    ensures |rest| > 4 ==> |HeadOctets(rest)| == 3
  {
    hide Value, First, Second, Third, IsLetter, WellFormed, Pads, Decode, HeadOctets;
    WellFormedGroups(rest);
    DecodeIsHead(rest);
  }

  lemma DecodeIsHead(rest: string)
    requires WellFormed(rest) && |rest| >= 4
    ensures IsLetter(rest[0]) && IsLetter(rest[1]) && (rest[2] == PAD || IsLetter(rest[2]))
    ensures (rest[3] == PAD || IsLetter(rest[3])) && (rest[2] == PAD ==> rest[3] == PAD)
    ensures WellFormed(rest[4..]) && Decode(rest) == HeadOctets(rest) + Decode(rest[4..])
    ensures |rest| > 4 ==> |HeadOctets(rest)| == 3
  {
  }

  /** `b64invs[c - 43]` */
  method Inverse(c: char) returns (v: sextet)
    requires IsLetter(c)
    ensures v == Value(c)
  {
    InverseTable(c as int - 43);
    v := B64_INVS[c as int - 43];
  }

  /** One round of the decoding loop: the table values shifted into `v`, then one to three stores. */
  method StoreOctets(s: string, i: nat, out: array<byte>, j: nat, ghost stores: seq<nat>) returns (ghost log: seq<nat>)
    requires i + 4 <= |s| && IsLetter(s[i]) && IsLetter(s[i + 1])
    requires (s[i + 2] == PAD || IsLetter(s[i + 2])) && (s[i + 3] == PAD || IsLetter(s[i + 3]))
    requires s[i + 2] == PAD ==> s[i + 3] == PAD
    requires j + |HeadOctets(s[i..])| < out.Length && Ascending(stores, j)
    modifies out
    ensures out[..j + |HeadOctets(s[i..])|] == old(out[..j]) + HeadOctets(s[i..])
    ensures forall k :: j + |HeadOctets(s[i..])| <= k < out.Length ==> out[k] == old(out[k])
    ensures Ascending(log, j + |HeadOctets(s[i..])|)
  {
    hide Value, IsLetter, First, Second, Third;
    var v0 := Inverse(s[i]);
    var v1 := Inverse(s[i + 1]);
    var v2: sextet, v3: sextet := 0, 0;
    if s[i + 2] != PAD {
      v2 := Inverse(s[i + 2]);
    }
    if s[i + 3] != PAD {
      v3 := Inverse(s[i + 3]);
    }
    var v: nat := v0;
    v := v * 0x40 + v1;
    v := v * 0x40 + v2;
    v := v * 0x40 + v3;
    AccumulatedOctets(v0, v1, v2, v3);
    log := stores + [j];
    out[j] := v / 0x1_0000 % 0x100;
    if s[i + 2] != PAD {
      out[j + 1] := v / 0x100 % 0x100;
      log := log + [j + 1];
    }
    if s[i + 3] != PAD {
      out[j + 2] := v % 0x100;
      log := log + [j + 2];
    }
  }

  lemma AccumulatedOctets(v0: sextet, v1: sextet, v2: sextet, v3: sextet)
    ensures var v := ((v0 * 0x40 + v1) * 0x40 + v2) * 0x40 + v3;
            v / 0x1_0000 % 0x100 == First(v0, v1) && v / 0x100 % 0x100 == Second(v1, v2) && v % 0x100 == Third(v2, v3)
  {
    hide First, Second, Third;
    var v: nat := ((v0 as int * 0x40 + v1) * 0x40 + v2) * 0x40 + v3;
    var a: int, b: int, c: int := First(v0, v1), Second(v1, v2), Third(v2, v3);
    AccumulatedIsSum(v0, v1, v2, v3);
    Quotient(v, 0x1_0000, a, 0x100 * b + c);
    Quotient(v, 0x100, 0x100 * a + b, c);
    Quotient(0x100 * a + b, 0x100, a, b);
  }

  lemma AccumulatedIsSum(v0: sextet, v1: sextet, v2: sextet, v3: sextet)
    ensures ((v0 as int * 0x40 + v1) * 0x40 + v2) * 0x40 + v3
         == 0x1_0000 * First(v0, v1) as int + 0x100 * Second(v1, v2) as int + Third(v2, v3) as int
  {
    assert v1 == 16 * (v1 / 16) + v1 % 16;
    assert v2 == 4 * (v2 / 4) + v2 % 4;
  }
}
