/** Octets, 16-bit words and host byte order, shared by every other module. */
module Bytes {
  type byte = b: int | 0 <= b < 0x100
  type bytes = seq<byte>
  type uint16 = w: int | 0 <= w < 0x1_0000
  type uint64 = w: int | 0 <= w < 0x1_0000_0000_0000_0000

  const TWO_TO_THE_64: int := 0x1_0000_0000_0000_0000

  datatype Option<+T> = None | Some(value: T)

  /** The byte order of the machine the C code runs on. */
  datatype Endian = Little | Big

  /** The value of two octets in network byte order. */
  function Be16(hi: byte, lo: byte): uint16 {
    0x100 * hi + lo
  }

  function Swap16(w: uint16): uint16 {
    w % 0x100 * 0x100 + w / 0x100
  }

  /** `htons` and `ntohs`: the identity on a big-endian host. */
  function Htons(host: Endian, w: uint16): uint16 {
    if host.Little? then Swap16(w) else w
  }

  /** What loading a `uint16_t` from two consecutive octets yields on the host. */
  function Load16(host: Endian, first: byte, second: byte): uint16 {
    if host.Little? then Be16(second, first) else Be16(first, second)
  }

  /** The two octets in memory after storing a `uint16_t` on the host. */
  function Octets16(host: Endian, w: uint16): (byte, byte) {
    if host.Little? then (w % 0x100, w / 0x100) else (w / 0x100, w % 0x100)
  }

  /** Storing `htons(w)` puts the high octet first, whatever the host. */
  lemma StoredHtonsIsBigEndian(host: Endian, w: uint16)
    ensures Octets16(host, Htons(host, w)) == (w / 0x100, w % 0x100)
    ensures Be16(w / 0x100, w % 0x100) == w
  {
    var hi, lo := w / 0x100, w % 0x100;
    assert Swap16(w) == 0x100 * lo + hi;
    assert Swap16(w) / 0x100 == lo && Swap16(w) % 0x100 == hi;
  }

  /** Loading a field and applying `ntohs` reads it in network byte order. */
  lemma LoadedNtohsIsBigEndian(host: Endian, first: byte, second: byte)
    ensures Htons(host, Load16(host, first, second)) == Be16(first, second)
  {
  }

  /** A 16-bit value in network byte order: the two octets that `Be16` reads back. */
  ghost function Network16(w: uint16): (r: bytes)
    ensures |r| == 2 && Be16(r[0], r[1]) == w
  {
    assert Be16(w / 0x100, w % 0x100) == w;
    var hi: byte, lo: byte :| Be16(hi, lo) == w;
    [hi, lo]
  }

  lemma Be16Injective(a: byte, b: byte, c: byte, d: byte)
    requires Be16(a, b) == Be16(c, d)
    ensures a == c && b == d
  {
  }

  /** Overwrites two octets in network byte order. */
  ghost function Put16(s: bytes, i: nat, w: uint16): (r: bytes)
    requires i + 2 <= |s|
    ensures |r| == |s| && Be16(r[i], r[i + 1]) == w
    ensures forall k :: 0 <= k < |s| && k != i && k != i + 1 ==> r[k] == s[k]
  {
    s[i := Network16(w)[0]][i + 1 := Network16(w)[1]]
  }

  lemma Put16Prefix(s: bytes, i: nat, w: uint16, m: nat)
    requires i + 2 <= m <= |s|
    ensures Put16(s, i, w)[..m] == Put16(s[..m], i, w)
  {
  }

  function Get16(s: bytes, i: nat): uint16
    requires i + 2 <= |s|
  {
    Be16(s[i], s[i + 1])
  }

  /** An assignment to a 16-bit field in host order; `w` is the value it has on the wire. */
  method StoreHost16(host: Endian, a: array<byte>, i: nat, field: uint16, ghost w: uint16)
    requires i + 2 <= a.Length
    requires field == Htons(host, w)
    modifies a
    ensures a[..] == Put16(old(a[..]), i, w)
  {
    StoredHtonsIsBigEndian(host, w);
    var octets := Octets16(host, field);
    a[i], a[i + 1] := octets.0, octets.1;
    Be16Injective(a[i], a[i + 1], Network16(w)[0], Network16(w)[1]);
  }
}
