/** CoAP messages as section 3 of RFC 7252 lays them out in octets. */
module Coap {
  import opened Bytes

  const PAYLOAD_MARKER: byte := 0xFF

  /** The largest number that an extended option delta or length stands for. */
  const MAX_EXTENDED: nat := 269 + 0xFFFF

  datatype CoapOption = CoapOption(number: nat, value: bytes)

  /** `body` is the payload marker and the payload, or nothing. */
  datatype Message = Message(version: nat, kind: nat, code: byte, id: bytes, token: bytes,
                             options: seq<CoapOption>, body: bytes) {
    predicate Valid() {
      && version < 4 && kind < 4 && |id| == 2 && |token| <= 8
      && OptionsFit(options, 0) && BodyFits(body)
    }
  }

  /** A marker without a payload is a format error. */
  predicate BodyFits(body: bytes) {
    body == [] || (|body| >= 2 && body[0] == PAYLOAD_MARKER)
  }

  /** What may follow the options: nothing, or the marker and a payload that is not empty. */
  lemma BodyFitsIff(body: bytes, payload: bytes)
    ensures BodyFits([]) && !BodyFits([PAYLOAD_MARKER])
    ensures payload != [] ==> BodyFits([PAYLOAD_MARKER] + payload)
    ensures BodyFits(body) && body != [] ==> |body| > 1 && body == [PAYLOAD_MARKER] + body[1..]
  {
  }

  predicate OptionFits(o: CoapOption, last: nat) {
    last <= o.number <= last + MAX_EXTENDED && |o.value| <= MAX_EXTENDED
  }

  /** Options are in the order of their numbers, and each is written as a difference to the one before. */
  predicate OptionsFit(options: seq<CoapOption>, last: nat) {
    options == [] || (OptionFits(options[0], last) && OptionsFit(options[1..], options[0].number))
  }

  // ---------------------------------------------------------------- printing

  /** The four bits for a delta or a length. */
  function Nibble(n: nat): (r: nat)
    ensures r < 15
  {
    if n < 13 then n else if n < 269 then 13 else 14
  }

  /** The extended octets after it. */
  function Extended(n: nat): bytes
    requires n <= MAX_EXTENDED
  {
    if n < 13 then [] else if n < 269 then [n - 13] else [(n - 269) / 0x100, (n - 269) % 0x100]
  }

  function PrintOption(o: CoapOption, last: nat): (r: bytes)
    requires OptionFits(o, last)
    ensures r != [] && r[0] != PAYLOAD_MARKER
  {
    [Nibble(o.number - last) * 0x10 + Nibble(|o.value|)]
    + (Extended(o.number - last) + (Extended(|o.value|) + o.value))
  }

  function PrintOptions(options: seq<CoapOption>, last: nat): bytes
    requires OptionsFit(options, last)
  {
    if options == [] then [] else PrintOption(options[0], last) + PrintOptions(options[1..], options[0].number)
  }

  function Print(m: Message): bytes
    requires m.Valid()
  {
    [m.version * 0x40 + m.kind * 0x10 + |m.token|, m.code] + m.id + m.token
    + (PrintOptions(m.options, 0) + m.body)
  }

  // ---------------------------------------------------------------- parsing

  function ReadExtended(nibble: nat, s: bytes): Option<(nat, bytes)> {
    if nibble < 13 then Some((nibble, s))
    else if nibble == 13 && |s| >= 1 then Some((s[0] as int + 13, s[1..]))
    else if nibble == 14 && |s| >= 2 then Some((Be16(s[0], s[1]) as int + 269, s[2..]))
    else None
  }

  function ReadOption(s: bytes, last: nat): (r: Option<(CoapOption, bytes)>)
    requires s != []
    ensures r.Some? ==> |r.value.1| < |s|
  {
    match ReadExtended(s[0] / 0x10, s[1..])
    case None => None
    case Some((delta, afterDelta)) =>
      match ReadExtended(s[0] % 0x10, afterDelta)
      case None => None
      case Some((length, afterLength)) =>
        if |afterLength| < length then None
        else Some((CoapOption(last + delta, afterLength[..length]), afterLength[length..]))
  }

  /** The options, and the payload with its marker. */
  function ParseOptions(s: bytes, last: nat): Option<(seq<CoapOption>, bytes)>
    decreases |s|
  {
    if s == [] || s[0] == PAYLOAD_MARKER then
      if BodyFits(s) then Some(([], s)) else None
    else
      match ReadOption(s, last)
      case None => None
      case Some((o, rest)) =>
        match ParseOptions(rest, o.number)
        case None => None
        case Some((options, body)) => Some(([o] + options, body))
  }

  function Parse(s: bytes): Option<Message> {
    if |s| < 4 || s[0] % 0x10 > 8 || |s| < 4 + s[0] % 0x10 then None
    else
      var start := 4 + s[0] % 0x10;
      match ParseOptions(s[start..], 0)
      case None => None
      case Some((options, body)) =>
        Some(Message(s[0] / 0x40, s[0] / 0x10 % 4, s[1], s[2..4], s[4..start], options, body))
  }

  // ---------------------------------------------------------------- each is the other's inverse

  /** A number has one encoding. */
  lemma ExtendedIff(nibble: nat, s: bytes, n: nat, rest: bytes)
    ensures ReadExtended(nibble, s) == Some((n, rest)) <==>
              n <= MAX_EXTENDED && nibble == Nibble(n) && s == Extended(n) + rest
  {
    if n <= MAX_EXTENDED {
      if n >= 269 {
        assert Be16((n - 269) / 0x100, (n - 269) % 0x100) == n - 269;
      }
      if s == Extended(n) + rest {
        assert s[|Extended(n)|..] == rest;
      }
    }
    if ReadExtended(nibble, s) == Some((n, rest)) {
      ExtendedKept(nibble, s);
    }
  }

  lemma ExtendedKept(nibble: nat, s: bytes)
    requires ReadExtended(nibble, s).Some?
    ensures var (n, rest) := ReadExtended(nibble, s).value;
            n <= MAX_EXTENDED && nibble == Nibble(n) && s == Extended(n) + rest
  {
    var (n, rest) := ReadExtended(nibble, s).value;
    if nibble == 14 {
      var w := n - 269;
      assert w == 0x100 * s[0] as int + s[1] as int;
      assert w / 0x100 == s[0] && w % 0x100 == s[1];
    }
  }

  lemma OctetOfNibbles(b: byte, high: nat, low: nat)
    requires high < 0x10 && low < 0x10
    ensures b == high * 0x10 + low <==> b / 0x10 == high && b % 0x10 == low
  {
  }

  /** An option has one encoding after a given option number. */
  lemma ReadOptionIff(s: bytes, last: nat, o: CoapOption, rest: bytes)
    requires s != []
    ensures ReadOption(s, last) == Some((o, rest)) <==> OptionFits(o, last) && s == PrintOption(o, last) + rest
  {
    if ReadOption(s, last) == Some((o, rest)) {
      OptionKept(s, last);
    }
    if OptionFits(o, last) && s == PrintOption(o, last) + rest {
      OptionRead(last, o, rest);
    }
  }

  lemma OptionKept(s: bytes, last: nat)
    requires s != [] && ReadOption(s, last).Some?
    ensures var (o, rest) := ReadOption(s, last).value;
            OptionFits(o, last) && s == PrintOption(o, last) + rest
  {
    hide ReadExtended, Nibble, Extended, PrintOption;
    var (o, rest) := ReadOption(s, last).value;
    var (delta, afterDelta) := ReadExtended(s[0] / 0x10, s[1..]).value;
    var (length, afterLength) := ReadExtended(s[0] % 0x10, afterDelta).value;
    assert o == CoapOption(last + delta, afterLength[..length]) && rest == afterLength[length..];
    hide ReadOption;
    ExtendedIff(s[0] / 0x10, s[1..], delta, afterDelta);
    ExtendedIff(s[0] % 0x10, afterDelta, length, afterLength);
    OptionLaidOut(s, last, o, rest);
  }

  /** What it means for an option to stand at the start of a string. */
  lemma OptionLaidOut(s: bytes, last: nat, o: CoapOption, rest: bytes)
    requires s != [] && OptionFits(o, last)
    ensures s == PrintOption(o, last) + rest <==>
              && s[0] / 0x10 == Nibble(o.number - last) && s[0] % 0x10 == Nibble(|o.value|)
              && s[1..] == Extended(o.number - last) + (Extended(|o.value|) + (o.value + rest))
  {
    var delta, length := o.number - last, |o.value|;
    hide Nibble, Extended;
    OctetOfNibbles(s[0], Nibble(delta), Nibble(length));
    Regroup(Nibble(delta) * 0x10 + Nibble(length), Extended(delta), Extended(length), o.value, rest);
    SplitFirst(s, Nibble(delta) * 0x10 + Nibble(length), Extended(delta) + (Extended(length) + (o.value + rest)));
  }

  lemma SplitFirst(s: bytes, first: byte, t: bytes)
    requires s != []
    ensures s == [first] + t <==> s[0] == first && s[1..] == t
  {
    assert s == [s[0]] + s[1..];
    assert ([first] + t)[1..] == t;
  }

  lemma Regroup(first: byte, a: bytes, b: bytes, c: bytes, d: bytes)
    ensures ([first] + (a + (b + c))) + d == [first] + (a + (b + (c + d)))
  {
  }

  lemma OptionRead(last: nat, o: CoapOption, rest: bytes)
    requires OptionFits(o, last)
    ensures ReadOption(PrintOption(o, last) + rest, last) == Some((o, rest))
  {
    hide ReadExtended, Nibble, Extended, PrintOption;
    var delta, length := o.number - last, |o.value|;
    var s := PrintOption(o, last) + rest;
    var afterLength := o.value + rest;
    var afterDelta := Extended(length) + afterLength;
    OptionLaidOut(s, last, o, rest);
    ExtendedIff(s[0] / 0x10, s[1..], delta, afterDelta);
    ExtendedIff(s[0] % 0x10, afterDelta, length, afterLength);
    assert afterLength[..length] == o.value && afterLength[length..] == rest;
  }

  lemma {:induction false} ParseOptionsIff(s: bytes, last: nat, options: seq<CoapOption>, body: bytes)
    ensures ParseOptions(s, last) == Some((options, body)) <==>
              OptionsFit(options, last) && BodyFits(body) && s == PrintOptions(options, last) + body
    decreases |s|
  {
    hide ReadOption, PrintOption, OptionFits;
    if ParseOptions(s, last) == Some((options, body)) {
      OptionsKept(s, last);
    }
    if OptionsFit(options, last) && BodyFits(body) && s == PrintOptions(options, last) + body {
      OptionsRead(options, last, body);
    }
  }

  lemma {:induction false} OptionsKept(s: bytes, last: nat)
    requires ParseOptions(s, last).Some?
    ensures var (options, body) := ParseOptions(s, last).value;
            OptionsFit(options, last) && BodyFits(body) && s == PrintOptions(options, last) + body
    decreases |s|
  {
    hide ReadOption, PrintOption, OptionFits;
    if s != [] && s[0] != PAYLOAD_MARKER {
      var (o, rest) := ReadOption(s, last).value;
      var (options, body) := ParseOptions(rest, o.number).value;
      ReadOptionIff(s, last, o, rest);
      OptionsKept(rest, o.number);
      assert ([o] + options)[1..] == options;
      assert PrintOption(o, last) + (PrintOptions(options, o.number) + body)
          == (PrintOption(o, last) + PrintOptions(options, o.number)) + body;
    }
  }

  lemma {:induction false} OptionsRead(options: seq<CoapOption>, last: nat, body: bytes)
    requires OptionsFit(options, last) && BodyFits(body)
    ensures ParseOptions(PrintOptions(options, last) + body, last) == Some((options, body))
    decreases |options|
  {
    if options == [] {
      assert PrintOptions(options, last) + body == body;
    } else {
      hide OptionFits, PrintOption, ParseOptions, BodyFits;
      var o, tail := options[0], PrintOptions(options[1..], options[0].number);
      OptionsRead(options[1..], o.number, body);
      FirstOptionRead(o, tail, options[1..], last, body);
      assert options == [o] + options[1..];
    }
  }

  lemma FirstOptionRead(o: CoapOption, tail: bytes, options: seq<CoapOption>, last: nat, body: bytes)
    requires OptionFits(o, last) && ParseOptions(tail + body, o.number) == Some((options, body))
    ensures ParseOptions((PrintOption(o, last) + tail) + body, last) == Some(([o] + options, body))
  {
    hide ReadOption, OptionFits, PrintOption, ParseOptions;
    var s := PrintOption(o, last) + (tail + body);
    JoinLeft(PrintOption(o, last), tail, body);
    ReadOptionIff(s, last, o, tail + body);
    ParseStep(s, last, o, tail + body);
  }

  lemma JoinLeft(a: bytes, b: bytes, c: bytes)
    ensures (a + b) + c == a + (b + c)
  {
  }

  lemma ParseStep(s: bytes, last: nat, o: CoapOption, rest: bytes)
    requires s != [] && s[0] != PAYLOAD_MARKER && ReadOption(s, last) == Some((o, rest))
    ensures ParseOptions(s, last) == match ParseOptions(rest, o.number)
                                     case None => None
                                     case Some((options, body)) => Some(([o] + options, body))
  {
    hide ReadOption;
  }

  lemma FirstOctet(b: byte, version: nat, kind: nat, length: nat)
    requires version < 4 && kind < 4 && length < 0x10
    ensures b == version * 0x40 + kind * 0x10 + length <==>
              b / 0x40 == version && b / 0x10 % 4 == kind && b % 0x10 == length
  {
  }

  /** A string is read as a message exactly when it is that message's only encoding. */
  lemma ParseIff(s: bytes, m: Message)
    ensures Parse(s) == Some(m) <==> m.Valid() && s == Print(m)
  {
    hide ParseOptions, PrintOptions, OptionsFit, BodyFits;
    if Parse(s) == Some(m) {
      var start := 4 + s[0] % 0x10;
      ParseOptionsIff(s[start..], 0, m.options, m.body);
      FirstOctet(s[0], m.version, m.kind, |m.token|);
      assert s == [s[0], s[1]] + s[2..4] + s[4..start] + s[start..];
    }
    if m.Valid() && s == Print(m) {
      var start := 4 + |m.token|;
      FirstOctet(s[0], m.version, m.kind, |m.token|);
      assert s[2..4] == m.id && s[4..start] == m.token && s[start..] == PrintOptions(m.options, 0) + m.body;
      ParseOptionsIff(s[start..], 0, m.options, m.body);
    }
  }
}
