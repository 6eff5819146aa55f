# SCHC worker verification

A Dafny model of the parts of this repository that carry algorithmic content, and proofs about
them. Loops and in-place updates are Dafny methods on arrays and objects. Each is proved against a
specification function, and the results are lemmas about those functions.

| file | models |
|---|---|
| `Bytes.dfy` | octets, 16-bit fields, host byte order |
| `InternetChecksum.dfy`, `Udp.dfy`, `NetHelper.dfy` | the two UDP checksums, header rewriting, packet generation |
| `Base64.dfy`, `Base64Codec.dfy` | the encoding as RFC 4648 gives it; the C functions |
| `WatchTable.dfy` | the table of watched descriptors and poll dispatch |
| `Worker.dfy`, `AdaptationLayer.dfy`, `MainLoop.dfy` | the adaptation layer as a state machine, its C functions, the main loop |
| `Outcomes.dfy` | what becomes of each packet and what is returned, in terms of the packet |
| `Hmac.dfy`, `Hkdf.dfy` | HMAC and HKDF over an abstract hash |
| `RuleId.dfy`, `Schc.dfy` | rule identifiers, rule interpretation |
| `Coap.dfy` | CoAP messages in octets |
| `OuterRules.dfy`, `CoapRules.dfy`, `OuterTable.dfy` | the header entries of the outer rules, the CoAP rules, the whole table at work |
| `EndToEnd.dfy` | a packet through both adaptation layers and the compressed link between them |
| `AhoiL2.dfy` | the event flags of the acoustic L2 adapter |

`dafny verify dfyconfig.toml` checks the whole project.

## Reading the results

- **Checksums.** `OnesSum` is section 1 of RFC 1071, word by word with end-around carry. The code
  defers its carries and folds them once; `FoldedSumIsOnesSum` and `CarriesFoldedAtTheEnd` show that
  this is the same. Everything is proved for both host byte orders. The two implementations agree on
  the wire exactly as `ImplementationsAgreeIff` says: they part when the complement is zero (only
  udp.c replaces it) and, on a big-endian host, when an odd last octet is not zero.
- **Headers.** `Coherent` says that a frame's lengths and checksum are right. `ReframeUndone` and
  `DownThenUpRestores` show that unprotecting undoes protecting when the frame between them is left alone.
  It is not: the outer rules lie between the two sides. `PacketDelivered` is the statement for the whole way,
  where a packet between the configured peers arrives with the table's flow label and hop limit, and
  `PacketUnchangedIff` says when that is the packet itself.
- **Worker.** `Inv` is the invariant of every run; the environment (arrivals, poll, results, refusals,
  failed protection, read errors) may interleave freely. A packet longer than the buffer is cut off by `read`.
  Runs refine a FIFO server (`RunRefinesServer`), and `ServerIsFifo` says what that is worth. `Outcomes.dfy`
  states both directions packet by packet: which are dropped, what goes on, which status is returned.
  `DrainsByTurns` counts exactly how far the queue drains: one packet for each pass
  that follows an uninterrupted poll, finds the transmitter free and reads successfully; `AnsweredScheduleDrains`
  turns that into a number of passes when results come within d of them. `MainLoop.Pass` puts the watch table,
  poll and the handlers together.
- **HKDF.** The code counts blocks in a `uint8_t`. `CounterPassesIff` and `FullyWrittenIff` give the exact
  consequences: 255 blocks, which RFC 5869 allows, never finish, and from 256 blocks on the call reports
  success with octets left unwritten. `LongestOutputNeverEnds` and `NextOutputUnwritten` show both at
  8160 octets and one block more.
- **Rule identifiers.** `OuterRulesFitIff`: the outer table needs eight bits, which is what config.cmake sets
  (line 23, `RULE_ID_BITS`), so `ConfiguredRoundTripIff` has no condition on the identifier. The SDK
  configuration in the patch defaults to four bits, where two of the identifiers coincide (`FourBitsCollide`).
- **Outer rules.** `ChooseIff` says which rule the table gives a packet, `RoundTripIff` what becomes of it: a
  packet between the peers, under a CoAP rule as under rule 61, comes back up to flow label and hop limit
  exactly when it was coherent; the default rule restores every packet. A CoAP payload is read by the format
  of RFC 7252 in one way only (`ParseIff`); what follows the options travels after the residues, payload marker
  included. The device fields of a rule are taken to mean the local side, the source of what it sends and the
  destination of what it receives, which is what makes two sides with mirrored addresses understand each other.
- **L2.** `l2a_process` clears all flags at the end. `ProcessKeepsInvIff`: sends made from inside its
  callbacks after the result flag was tested are forgotten, and only those.

Assumptions on code that is not in the repository are parameters: the hash, the OSCORE transformations, the
verdict of `net_sendto`. The one assumption about the Ascon library is `HashState.Absorb`: absorbing twice
absorbs the concatenation.

## Model

| member | source | states |
|---|---|---|
| Bytes.StoredHtonsIsBigEndian | libs/net/src/udp.c:60 | storing an `htons` result puts the high octet first on either kind of host |
| InternetChecksum.FoldCarries | libs/net/src/udp.c:52-54 | the fold loop ends for every 64-bit sum, in the representative of the sum modulo 65535 (0 only for 0), after the counted number of rounds |
| InternetChecksum.FoldRoundsBounded | libs/net/src/udp.c:52-54 | two rounds suffice for 32-bit sums, four for every 64-bit sum |
| InternetChecksum.FoldRoundsIff | libs/net/src/udp.c:52-54 | the loop's test holds before each counted round and fails after them |
| InternetChecksum.FoldedSumIsOnesSum | libs/net/src/udp.c:22-54 | adding plainly and folding at the end is the one's complement sum of RFC 1071, even and odd lengths |
| InternetChecksum.WordSumAppend | libs/net/src/udp.c:43-50 | the running sum may be taken over consecutive chunks when the first has even length |
| InternetChecksum.LittleHostSumIsSwapped | libs/commons/src/net_helper.c:13-31 | a sum over little-endian loads folds to the byte-swapped one's complement sum, odd tails included |
| InternetChecksum.BigHostSumIff | libs/commons/src/net_helper.c:22-24 | on a big-endian host the raw odd tail is right exactly when it is zero |
| Udp.CsumAdd | libs/net/src/udp.c:22-32 | the loop adds the big-endian words, odd tail padded, to any 64-bit accumulator |
| Udp.RawSumFits | libs/net/src/udp.c:40-54 | the accumulator never wraps for a representable length, and 16-bit datagrams fold in two rounds |
| Udp.CarriesFoldedAtTheEnd | libs/net/src/udp.c:36-61 | the unfolded 64-bit sum yields the checksum of RFC 8200 section 8.1 over pseudo-header and datagram |
| Udp.UdpChecksum | libs/net/src/udp.c:36-61 | returns the standard checksum in network order, never zero, for either byte order |
| Udp.UpdateUdpChecksum | libs/net/src/udp.c:63-72 | only the checksum field changes, to the standard checksum of the packet with a zero field |
| Udp.UpdateIp6UdpLen | libs/net/src/udp.c:74-80 | both length fields, and nothing else, become header plus size as a 16-bit number |
| Udp.PayloadLengthReadBackIff | libs/net/src/udp.c:74-92 | the length read back is the one written exactly up to 65527 |
| Udp.PayloadLengthIff | libs/net/src/udp.c:82-92 | the payload length is what follows the UDP header, and zero for a length field too small for one |
| Udp.VerifiesIff | libs/net/src/udp.c:56-60 | a nonzero checksum field passes the receiver's test exactly when it is the one the code computes |
| Udp.UpdatedChecksumVerifies | libs/net/src/udp.c:63-72 | after the update the receiver's sum is all ones and the field is not zero |
| Udp.ChecksumFixpointIff | libs/net/src/udp.c:63-72 | updating changes nothing exactly when the old checksum was in use and correct |
| Udp.ReframeIsCoherent | applications/schc_worker_linux/src/schc_al.c:177-181 | after a payload is replaced the lengths agree with the frame, the payload length reads back, the checksum verifies, and addresses, ports and payload are untouched |
| Udp.ReframeUndone | applications/schc_worker_linux/src/schc_al.c:238-242 | replacing the payload of a coherent frame and putting it back restores every octet |
| Udp.UpdatesInLargerBuffer | applications/schc_worker_linux/src/schc_al.c:177-181 | in a larger buffer the updates build the frame at its start and leave the rest alone |
| NetHelper.Checksum | libs/commons/src/net_helper.c:13-31 | the loop and fold give the complement of the folded sum of host-order words |
| NetHelper.UdpChecksumMaterialised | libs/commons/src/net_helper.c:34-58 | the copied buffer is the RFC 8200 pseudo-header followed by header and payload |
| NetHelper.ImplementationsAgreeIff | libs/commons/src/net_helper.c:13-58 | both implementations put the same two octets on the wire except for a zero complement, and on a big-endian host a nonzero odd tail |
| NetHelper.GenerateIpv6UdpPacket | libs/commons/src/net_helper.c:60-93 | the packet laid out field by field, nothing written after it |
| NetHelper.GeneratedThenChecksummed | libs/commons/src/net_helper.c:84-87 | a generated packet lacks a valid checksum, and one update makes it coherent |
| NetHelper.GeneratedFields | libs/commons/src/net_helper.c:66-92 | a generated packet has version 6, flow label 0x6724d, hop limit 64, the given addresses and ports, both lengths and a zero checksum |
| Base64.CharTable | platforms/linux/src/base64.c:18 | the table maps each sextet to its letter |
| Base64.InverseTable | platforms/linux/src/base64.c:20-25 | the inverse table holds the value of every letter and -1 elsewhere |
| Base64.EncodedIsCanonical | platforms/linux/src/base64.c:91-115 | what is encoded is well formed, with zero unused bits and the right padding |
| Base64.DecodeEncode | platforms/linux/src/base64.c:74-196 | decoding an encoded string returns the octets |
| Base64.EncodeDecodeIff | platforms/linux/src/base64.c:147-196 | encoding what a well-formed string decodes to returns it exactly when it is canonical (RFC 4648 section 3.5) |
| Base64.SameOctetsIff | platforms/linux/src/base64.c:177-193 | two strings decode alike exactly when they differ only in bits that padding discards |
| Base64.DecodedLength | platforms/linux/src/base64.c:129-144 | three octets a group, less one for each padding character |
| Base64Codec.GenerateDecodeTable | platforms/linux/src/base64.c:28-38 | the generator computes exactly the table in the file |
| Base64Codec.EncodedSize | platforms/linux/src/base64.c:61-72 | four characters for every started group of three octets |
| Base64Codec.ValidCharIff | platforms/linux/src/base64.c:40-59 | the accepted characters are those of the table and the padding |
| Base64Codec.B64Encode | platforms/linux/src/base64.c:74-118 | null exactly for null or empty input; otherwise the encoding and a terminator, every character stored once in order |
| Base64Codec.EachStoredOnce | platforms/linux/src/base64.c:91-115 | the log of stores of either loop has every index of the output once and no other |
| Base64Codec.DecodedSize | platforms/linux/src/base64.c:120-145 | the size less all trailing padding, wrapping below zero; for well-formed input the decoded length |
| Base64Codec.B64Decode | platforms/linux/src/base64.c:147-196 | null exactly for null, a length not divisible by four or an invalid character, leaving `outlen`; otherwise the octets, their number and a terminator, each octet stored once in order |
| Base64Codec.PassesChecksIff | platforms/linux/src/base64.c:160-171 | a string is rejected exactly for its length or for a character that is neither in the table nor padding |
| Base64Codec.EncodeThenDecode | platforms/linux/src/base64.c:74-196 | `b64_decode` on what `b64_encode` returned for any input that is not empty is not null and stores the same octets, as many |
| Base64Codec.DecodeThenEncode | platforms/linux/src/base64.c:74-196 | `b64_encode` on what `b64_decode` stored for a well-formed string returns that string exactly when it is canonical |
| WatchTable.Platform.constructor | platforms/linux/src/platform.c:34-38 | the initial table has no entries although later slots look like descriptor 0 |
| WatchTable.Platform.Watch | platforms/linux/src/platform.c:40-57 | succeeds exactly for a valid, absent descriptor in a table that is not full; appends or changes nothing; the table stays valid |
| WatchTable.Platform.Unwatch | platforms/linux/src/platform.c:59-84 | succeeds exactly for a registered descriptor; removes that entry by moving the last one; the table stays valid |
| WatchTable.Platform.EnterLowPower | platforms/linux/src/platform.c:260-287 | serves the ready entries that have a callback and nothing else |
| WatchTable.SwapRemoveKeepsOthers | platforms/linux/src/platform.c:74-82 | moving the last entry into the gap removes one key from the map and keeps all others |
| WatchTable.RunRefines | platforms/linux/src/platform.c:34-84 | after any sequence of calls the table represents the finite map that the same calls build, with the same answers |
| WatchTable.DispatchedOnce | platforms/linux/src/platform.c:284-286 | every ready entry with a callback is served exactly once, any other entry never |
| WatchTable.DispatchedInOrder | platforms/linux/src/platform.c:284-286 | entries are served in table order |
| Worker.PreparedAsJudged | applications/schc_worker_linux/src/schc_al.c:139-183 | the in-place steps on the shared buffer drop or forward each packet as configured, and leave the frame at the start of the buffer |
| Worker.RunKeepsInv | applications/schc_worker_linux/src/schc_al.c:53-217 | in every run: a signalled packet implies a processing request and a waiting packet; the transmission flag is set exactly while one accepted frame is unanswered, and the buffer still holds it; arrived packets are the served ones followed by the queued ones; each is classified as its content demands |
| Worker.ReachableInv | applications/schc_worker_linux/src/schc_al.c:58-124 | the invariant holds in every state reached after initialisation |
| Worker.ProcessKeepsInv | applications/schc_worker_linux/src/schc_al.c:199-207 | processing keeps the invariant and never blocks in `read` |
| Worker.LentBufferUntouched | applications/schc_worker_linux/src/schc_al.c:135-142 | while a result is outstanding no step writes the buffer or takes a packet |
| Worker.BusyIff | applications/schc_worker_linux/src/schc_al.c:135-137 | BUSY is reported exactly for a packet signalled during a transmission, and consumes nothing |
| Worker.StepRefinesServer | applications/schc_worker_linux/src/schc_al.c:130-217 | each step is an arrival, a service of the oldest packet as configured, or invisible to a FIFO server |
| Worker.RunRefinesServer | applications/schc_worker_linux/src/schc_al.c:130-217 | every run of the worker is a run of the FIFO server |
| Worker.ServerIsFifo | applications/schc_worker_linux/src/schc_al.c:130-217 | such a run takes packets in the order in which they came, and deals with each as configured |
| Worker.ReachableIsFifo | applications/schc_worker_linux/src/schc_al.c:58-217 | from initialisation on, packets taken and packets queued are those that arrived, in order, and each was dropped, refused or sent as configured |
| Worker.SentInArrivalOrder | applications/schc_worker_linux/src/schc_al.c:188-196 | frames are handed to the SDK in the order their packets arrived, one for each of different packets |
| Worker.Conservation | applications/schc_worker_linux/src/schc_al.c:130-217 | arrived = queued + dropped + refused + answered + in flight, with at most one in flight |
| Worker.IterationProgress | applications/schc_worker_linux/src/main.c:167-184 | a pass takes a packet exactly if one is signalled, the transmitter is free and the read delivers; the next one is signalled exactly if poll is not interrupted |
| Worker.DrainsByTurns | applications/schc_worker_linux/src/main.c:167-184 | over any schedule of results, read errors and interrupted polls, the queue shrinks by exactly the number of turns, down to empty |
| Worker.AnsweredScheduleDrains | applications/schc_worker_linux/src/main.c:167-184 | with results within d passes, d passes for each packet and one more empty the queue |
| Worker.PromptScheduleDrains | applications/schc_worker_linux/src/main.c:167-184 | with a result before every pass, one pass more than there are packets |
| AdaptationLayer.SchcAl.constructor | applications/schc_worker_linux/src/schc_al.c:58-124 | the state after initialisation satisfies the invariant |
| AdaptationLayer.SchcAl.TunReceivedHandler | applications/schc_worker_linux/src/schc_al.c:53-56 | signals a packet and requests processing, keeping the invariant |
| AdaptationLayer.SchcAl.NetTransmissionResult | applications/schc_worker_linux/src/schc_al.c:209-217 | ends the transmission, keeping the invariant |
| AdaptationLayer.SchcAl.ProcessEvents | applications/schc_worker_linux/src/schc_al.c:199-207 | moves the state as the specification does, never blocks, keeps the invariant |
| AdaptationLayer.SchcAl.SendDownPacket | applications/schc_worker_linux/src/schc_al.c:130-197 | status and new state are the specified ones on all paths |
| AdaptationLayer.SchcAl.PrepareFrame | applications/schc_worker_linux/src/schc_al.c:139-183 | buffer contents and verdict of the middle part |
| AdaptationLayer.SchcAl.ForwardUp | applications/schc_worker_linux/src/schc_al.c:219-267 | return code and what is written to the tunnel, on all paths |
| AdaptationLayer.DownThenUpRestores | applications/schc_worker_linux/src/schc_al.c:164-267 | were a protected frame delivered as it was sent, unprotecting it would give back the packet, headers and checksum included |
| Outcomes.IsCoapIff | libs/net/src/udp.c:94-103 | the CoAP filter asks for the bits 01 in front |
| Outcomes.IsCoapIffVersion | libs/net/src/udp.c:94-103 | on whatever can be read as a CoAP message it asks for version 1 |
| Outcomes.IsIpv6UdpIff | libs/net/src/udp.c:7-18 | the other filter lets through what is long enough and has the version and next header that the rules ask for |
| Outcomes.ForwardedIff | applications/schc_worker_linux/src/schc_al.c:154-176 | each reason for dropping a packet applies exactly to the packets that fail its test |
| Outcomes.ForwardedFrame | applications/schc_worker_linux/src/schc_al.c:158-183 | what goes on is the packet itself, or for protected CoAP a coherent frame with its header around what protection left |
| Outcomes.CoapIsProtected | applications/schc_worker_linux/src/schc_al.c:158-183 | a packet that carries a CoAP message of version 1 is never dropped as not CoAP, and with protection on never forwarded as it came |
| Outcomes.ServedAs | applications/schc_worker_linux/src/schc_al.c:185-197 | the log entry, the transmission flag and the outstanding frame after a packet was taken, for every verdict and every answer of the SDK |
| Outcomes.StatusIff | applications/schc_worker_linux/src/schc_al.c:130-207 | each status is returned exactly in its cases, told by the log entry if one was added |
| Outcomes.WrittenIff | applications/schc_worker_linux/src/schc_al.c:219-267 | a received frame goes up exactly if it passes the filters and, where protection is on, unprotection did not fail |
| Outcomes.WrittenFrame | applications/schc_worker_linux/src/schc_al.c:233-264 | what goes up is the frame itself, or a coherent frame with its header around the unprotected payload |
| Outcomes.UpCodeIff | applications/schc_worker_linux/src/schc_al.c:219-267 | -1 exactly for a closed tunnel, an empty frame and a failed unprotection |
| EndToEnd.PacketDelivered | applications/schc_worker_linux/src/schc_al.c:164-267 | a coherent CoAP packet protected on one side, compressed, decompressed and unprotected on the other comes out with the table's flow label and hop limit if it is between the peers, and octet for octet otherwise |
| EndToEnd.PacketUnchangedIff | libs/schc_comp_apis/oscore_basic/src/outerrules.c:53-66 | that is the packet itself exactly when it is not between the peers or already has those two values |
| MainLoop.TunnelDispatchedOnce | platforms/linux/src/platform.c:284-286 | whatever else is ready, poll runs the tunnel's handler once if the tunnel is readable and otherwise not |
| MainLoop.TunnelWatched | applications/schc_worker_linux/src/schc_al.c:114-119 | watching the tunnel, and then other descriptors with other handlers, leads to a table in which only the tunnel has its handler |
| MainLoop.Pass | applications/schc_worker_linux/src/main.c:167-184 | one pass with the real watch table, other descriptors and interrupted polls included, follows the specification and keeps the invariant |
| MainLoop.Loop | applications/schc_worker_linux/src/main.c:167-184 | a whole schedule follows the specification, and takes one packet for each turn until the queue is empty |
| Hmac.HmacAscon | libs/ascon_integration/src/ascon_hmac.c:7-65 | computes H(k0 xor opad, H(k0 xor ipad, msg)) of RFC 2104 for every key and message |
| Hmac.XorAt | libs/ascon_integration/src/ascon_hmac.c:36-39 | each bit of the exclusive or tells whether the two bits differ |
| Hmac.XorAllTwice | libs/ascon_integration/src/ascon_hmac.c:36-39 | applying a pad constant twice gives the key back |
| Hmac.PadsDiffer | libs/ascon_integration/src/ascon_hmac.c:36-39 | the two pads of a key differ in the same four bits of every octet |
| Hmac.MacIsRfc2104 | libs/ascon_integration/src/ascon_hmac.c:23-57 | for any block key and pads with the bits that RFC 2104 describes, the MAC is the hash of the outer pad and the hash of the inner pad and the message |
| Hmac.MacInputs | libs/ascon_integration/src/ascon_hmac.c:23-39 | the code's block key and pads are such |
| Hmac.SameBlockKeyIff | libs/ascon_integration/src/ascon_hmac.c:23-33 | short keys normalise alike exactly when they differ in trailing zeros |
| Hmac.TrailingZerosIgnored | libs/ascon_integration/src/ascon_hmac.c:31-33 | trailing zeros within a block do not change the MAC |
| Hkdf.HkdfExtract | libs/ascon_integration/src/ascon_integration.c:96-116 | RFC 5869 section 2.2, a missing salt standing for zeros; other hashes are refused and nothing is written |
| Hkdf.ZeroSaltsAgree | libs/ascon_integration/src/ascon_integration.c:103-110 | no salt, an empty salt and all-zero salts of at most a block extract the same key |
| Hkdf.SaltsAgreeIff | libs/ascon_integration/src/ascon_integration.c:103-110 | salts of at most a block act alike exactly when they differ in trailing zeros |
| Hkdf.SaltIsKey | libs/ascon_integration/src/ascon_integration.c:103-110 | the salt, filled up with zeros or hashed if longer than a block, is the key of the extracting MAC |
| Hkdf.HkdfExpand | libs/ascon_integration/src/ascon_integration.c:118-168 | the first octets of T(1), T(2), ... of RFC 5869 section 2.3, partial and exact last blocks included, and nothing after them |
| Hkdf.OkmOctet | libs/ascon_integration/src/ascon_integration.c:135-163 | octet by octet, the output is that of any list T(0), T(1), ... that satisfies the equations of RFC 5869 section 2.3 |
| Hkdf.OkmPrefix | libs/ascon_integration/src/ascon_integration.c:135-163 | asking for more output never changes what came before |
| Hkdf.BlocksIff | libs/ascon_integration/src/ascon_integration.c:125-130 | the block count before it is cut to 8 bits is the least that holds the length |
| Hkdf.CounterPassesIff | libs/ascon_integration/src/ascon_integration.c:125-135 | the 8-bit loop ends exactly when the 8-bit block count is not 255 |
| Hkdf.FullyWrittenIff | libs/ascon_integration/src/ascon_integration.c:125-130 | a call that ends fills its buffer exactly up to 254 blocks |
| Hkdf.LongestOutputNeverEnds | libs/ascon_integration/src/ascon_integration.c:125-135 | at 8160 octets, which RFC 5869 allows, no counter value exceeds the block count |
| Hkdf.NextOutputUnwritten | libs/ascon_integration/src/ascon_integration.c:125-130 | at 256 blocks the 8-bit count is zero and nothing is written |
| RuleId.BitBuffer.Push16Bits | patches/schc_sdk.patch:43-44 | the low bits land at the cursor, most significant first; all other bits stay |
| RuleId.BitBuffer.Peek16 | patches/schc_sdk.patch:85-91 | bits right-aligned in two octets and joined are the number they spell |
| RuleId.BitBuffer.WriteRuleId | patches/schc_sdk.patch:34-48 | more than 16 bits is an error; otherwise exactly the width is written at the cursor |
| RuleId.BitBuffer.ReadRuleId | patches/schc_sdk.patch:60-102 | each error exactly in its case; the cursor moves only when the rule is known |
| RuleId.RoundTrip | tests/test_rule_id_var_size.c:85-107 | the identifier comes back modulo 2^width at any position, and is found exactly when that is a known one |
| RuleId.ReadBackIff | patches/schc_sdk.patch:34-91 | the identifier comes back exactly when it fits the width |
| RuleId.CollideIff | patches/schc_sdk.patch:34-48 | two identifiers are written alike exactly when they agree modulo 2^width |
| RuleId.OuterRulesFitIff | libs/schc_comp_apis/oscore_basic/src/outerrules.c:24-34 | the identifiers of the outer table all survive exactly from eight bits on |
| RuleId.FourBitsCollide | patches/schc_sdk.patch:114 | at the default of four bits an EDHOC response is written like an uncompressed packet |
| Schc.ResiduesRead | libs/schc_comp_apis/oscore_basic/src/outerrules.c:83-122 | for every rule and matching fields, reading the residues gives the restored fields and leaves the rest (RFC 8724 sections 7.3 to 7.5) |
| Schc.SizeCodeRead | libs/schc_comp_apis/oscore_basic/src/outerrules.c:285-292 | the 4, 12 or 28 bit size of a variable-length residue reads back (RFC 8724 section 7.4.2) |
| Schc.SizeCodeLength | libs/schc_comp_apis/oscore_basic/src/outerrules.c:285-292 | that size takes 4 bits up to 14 octets, 12 up to 254 and 28 beyond |
| Schc.FieldRestoredIff | libs/schc_comp_apis/oscore_basic/src/outerrules.c:94-110 | a value is lost exactly when it is ignored in matching, not sent and different from the target |
| OuterRules.Rule61MatchesIff | libs/schc_comp_apis/oscore_basic/src/outerrules.c:42-162 | rule 61 applies exactly to version 6, traffic class 0, UDP between the configured end points |
| OuterRules.HeaderRebuilt | libs/schc_comp_apis/oscore_basic/src/outerrules.c:42-162 | the fourteen fields of a header give back its 48 octets, whichever side the device is |
| OuterRules.RebuiltIsLossyIff | libs/schc_comp_apis/oscore_basic/src/outerrules.c:94-110 | the rebuilt packet equals the original with the two ignored values replaced exactly when the original was coherent |
| OuterRules.LossyIsSameIff | libs/schc_comp_apis/oscore_basic/src/outerrules.c:53-66 | nothing is lost exactly when the packet already has flow label 0x12345 and hop limit 64 |
| Coap.ParseIff | libs/schc_comp_apis/oscore_basic/src/outerrules.c:164-290 | the octets that the CoAP fields of the rules describe are read as a message exactly when they are its one encoding (RFC 7252 section 3) |
| Coap.BodyFitsIff | libs/schc_comp_apis/oscore_basic/src/outerrules.c:164-290 | after the options stands nothing, or the payload marker and a payload that is not empty |
| CoapRules.MessageRebuilt | libs/schc_comp_apis/oscore_basic/src/outerrules.c:164-290 | a message can be put together again from its fields |
| CoapRules.AppliesIff | libs/schc_comp_apis/oscore_basic/src/outerrules.c:296-415 | matching a CoAP rule entry by entry is version 1, two octets of token, the rule's type, code and options |
| CoapRules.AppliesToOctets | libs/schc_comp_apis/oscore_basic/src/outerrules.c:296-415 | the first two octets of the messages of each rule |
| CoapRules.AppliesToOptions | libs/schc_comp_apis/oscore_basic/src/outerrules.c:266-415 | and the octets of their options |
| CoapRules.EdhocPathSpelled | libs/schc_comp_apis/oscore_basic/src/outerrules.c:167-168 | the path of an EDHOC request |
| CoapRules.ResiduesOf | libs/schc_comp_apis/oscore_basic/src/outerrules.c:252-294 | a CoAP rule sends message identifier, token, and of the options only what it does not know |
| CoapRules.RulesExcludeEachOther | libs/schc_comp_apis/oscore_basic/src/outerrules.c:296-415 | no fields match two of the CoAP rules |
| OuterTable.ChooseIff | libs/schc_comp_apis/oscore_basic/src/outerrules.c:424-435 | a CoAP rule is chosen exactly for its messages between the peers, the default rule exactly for packets that are not between them |
| OuterTable.IdentifiersInOrder | libs/schc_comp_apis/oscore_basic/src/outerrules.c:24-34 | identifiers 56 to 60, 69 and 70 in the order of the table |
| OuterTable.UdpContentIs | libs/schc_comp_apis/oscore_basic/src/outerrules.c:417-422 | under rule 61 nothing but the payload follows the identifier |
| OuterTable.CoapContentIs | libs/schc_comp_apis/oscore_basic/src/outerrules.c:296-415 | under a CoAP rule what follows is the identifier, the token, the unknown part of the options, and the rest of the message |
| OuterTable.UdpContent | libs/schc_comp_apis/oscore_basic/src/outerrules.c:417-422 | under rule 61 the receiver has its own header values and the payload, up to seven padding bits aside |
| OuterTable.CoapContentRead | libs/schc_comp_apis/oscore_basic/src/outerrules.c:164-415 | under a CoAP rule the receiver has its own header values and every octet of the message |
| OuterTable.Rule61RoundTripIff | libs/schc_comp_apis/oscore_basic/src/outerrules.c:417-435 | between mirrored sides a packet under rule 61 comes back up to flow label and hop limit exactly when it was coherent |
| OuterTable.CoapRoundTripIff | libs/schc_comp_apis/oscore_basic/src/outerrules.c:296-415 | so does a packet under each of the CoAP rules, found again by its identifier |
| OuterTable.DefaultRoundTrip | libs/schc_comp_apis/oscore_basic/src/outerrules.c:24-24 | every packet that is not IPv6/UDP between the peers comes back unchanged |
| OuterTable.RoundTripIff | libs/schc_comp_apis/oscore_basic/src/outerrules.c:424-435 | the same for the whole table, with the rule that the sender chooses |
| OuterTable.ConfiguredRoundTripIff | config.cmake:23-23 | at the configured width of eight bits this holds for every packet |
| AhoiL2.L2a.SendData | l2/ahoi_posix_host/src/fullsdkl2a.c:100-127 | a successful send sets the result flag and requests processing; a failed one changes nothing; the flags stay truthful |
| AhoiL2.L2a.DownlinkAvailableCallback | l2/ahoi_posix_host/src/fullsdkl2a.c:58-62 | sets the downlink flag and requests processing |
| AhoiL2.L2a.ProcessEvents | l2/ahoi_posix_host/src/fullsdkl2a.c:181-192 | the three tests in order, with callbacks that may send, then all flags cleared; truthful flags stay so exactly without late sends |
| AhoiL2.L2a.PacketConsumer | l2/ahoi_posix_host/src/fullsdkl2a.c:149-166 | a packet that fits is copied and announced; one that does not is reported and leaves the buffer alone |
| AhoiL2.ProcessReports | l2/ahoi_posix_host/src/fullsdkl2a.c:181-192 | one result for a batch of sends, one read for a signalled downlink, none otherwise; no flag is left set |
| AhoiL2.ProcessKeepsInvIff | l2/ahoi_posix_host/src/fullsdkl2a.c:186-190 | the flags stay truthful exactly when no callback sends after the result flag was tested |
| AhoiL2.RunReports | l2/ahoi_posix_host/src/fullsdkl2a.c:58-192 | over every run without such sends, results and reads number exactly the batches and the signalled processings |
| AhoiL2.ConnectedReports | l2/ahoi_posix_host/src/fullsdkl2a.c:58-192 | the same from the connected state on, with no more results than sends |

## Left out

- Udp.UpdatedChecksumVerifies: assumes a UDP length of at least 8, because below that the checksum field is not inside the datagram that a receiver sums.
- Udp.UpdateUdpChecksum: the buffer must hold the announced datagram, which is what the C function reads.
- Base64Codec.B64Decode: strings that pass its checks must have padding only at the end; otherwise the C code shifts a negative table value.
- Hkdf.HkdfExpand: a block count of 255 modulo 256 is excluded, because the C loop does not end there; `CounterPassesIff` states this.
- AdaptationLayer.SchcAl.ForwardUp: the receive buffer must be longer than the headers, because the CoAP test always reads the octet after them.
- AdaptationLayer.SchcAl.ProcessEvents: what `read` delivers, cut off at the buffer if the packet is longer, holds the UDP payload that its header announces; the configured buffer is at most 65575 octets; OSCORE results fit the room they are given.
- AdaptationLayer.SchcAl.PrepareFrame: likewise, because otherwise the C code looks at octets that an earlier packet left in the buffer.
- WatchTable.Platform.EnterLowPower: callbacks do not change the table, as the tunnel handler does not; `poll` itself is the set of ready descriptors.
- RuleId.BitBuffer: bits are kept one by one; how the SDK packs them into octets is not part of this model.
- OuterTable.Choose: the SDK's parsers are not part of this model; a payload counts as CoAP exactly when RFC 7252 lets it be read as a message, and only then can a CoAP rule match.
- The null checks of `is_ipv6_udp_packet`, retries of interrupted calls, logging, and failures of `write` beyond the return code.
- The guards `iterations > 255` and a failing `hmac_ascon`, which can never fire: the count is an 8-bit number and the function always returns 0.
- `size_t` overflow of buffer sizes in base64, and of the block count near 2^32 octets of HKDF output.
- `aead` and `hash`: length checks around primitives that are not part of this model.
- `schc_al_init` failures and `schc_al_terminate`, TUN set-up, sockets, timers, signals.
- `nvm_key_base64_encode`, `nvm_key_base64_decode` and the sequence-number file: stdio formatting around an encoder that copies pointer bytes.
- The inner rule set (empty), fragmentation profiles, the LPWAN template, configuration helpers and demo applications: constant data or easy members.
