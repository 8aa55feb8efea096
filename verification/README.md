# gw3 verification

A Dafny model of the parts of gw3 that have to be right byte by byte, and proofs
of what they promise.

gw3 sits between the Bluetooth chip and the vendor application of a gateway. It
reads frames from a serial line whose firmware sometimes inserts extra bytes,
suppresses repeated advertisements, converts extended scan responses to legacy
ones, and decrypts Xiaomi MiBeacon frames with CCM (NIST SP 800-38C). It also
contains an MQTT broker with topic filters.

The block cipher is an arbitrary function on 16-byte blocks: nothing below
depends on which one it is. Code that updates buffers, fields or tables in place
is modelled by methods and classes that do the same, and each such method is
proved equal to a function on values. The theorems are about those functions.

| file | contents |
|---|---|
| `Bytes.dfy`, `Lists.dfy` | bytes, bitwise operators, big-endian numbers; filtering sequences |
| `CcmSpec.dfy` | CCM as the standard defines it: formatting, counter blocks, sealing, opening |
| `Crypt.dfy` | the streaming MAC and CCM code, proved against `CcmSpec` |
| `CcmTheorems.dfy`, `CcmExamples.dfy` | sealing and opening are inverse, the key stream, prefix-freeness, counter blocks; the first example of the standard |
| `Bglib.dfy`, `Framing.dfy` | the frame reader and its theorems over frames and whole streams |
| `Gap.dfy` | advertising data |
| `MiBeacon.dfy`, `MiBeaconTheorems.dfy` | MiBeacon frames: parsing, in-place decryption, which frames decode |
| `Pipeline.dfy`, `PipelineTheorems.dfy`, `Examples.dfy` | one event from the chip through filter, conversion and parsers; when that fails, what it sends on, the way of a sealed beacon; concrete events |
| `Mqtt.dfy` | topic filters and the subscription index |
| `RepeatFilter.dfy`, `Handshake.dfy` | the repeat filter and the command queue with its three threads |

## Where the code differs from what it says

- `NewCCMWithNonceAndTagSizes` is documented to panic on bad sizes and to accept
  tag sizes 4 to 16. It returns an error, and it accepts 0. With tag size 0 the
  flag byte wraps to 0xF8 plus the counter width, the data bit is lost, and the
  formatting is no longer prefix-free (`PrefixFreeIff`).
- The lengths at which the associated-data prefix grows are 2^15-2^7 and 2^31, not
  those of SP 800-38C, appendix A.2.2 (`DataLengthStandardIff` says for which
  lengths the two agree).
- `Seal` cuts its result to the length of the sealed payload even when `dst` is
  not empty (`SealAppendsIffEmpty`).
- The length byte of a converted event is computed from the class byte and is
  0xFC for every extended scan response (`LegacyLengthByteIff`,
  `LegacyLengthByteIsWrong`).
- `Seal` may be given an output buffer that shares its array with the payload, as
  the AEAD interface allows. It encrypts before it computes the tag, so the tag
  covers the ciphertext and the result opens only by coincidence (`SealOverIff`,
  `SealOverDiffers`). Opening in place is correct. The program itself never seals
  and opens into fresh buffers only.
- Decrypting a version 4 or 5 beacon moves its tag over its counter inside the
  buffer that is then sent on to the app; the app gets other bytes than the
  converted event unless the beacon ends as if already moved (`SentOnIntactIff`,
  `SomeBeaconIsSentOnChanged`).
- Advertising data that ends in a service-data or manufacturer structure with a
  one-byte payload makes the parser index past it. The reader delivers such
  events. All inputs for which processing an event indexes out of range are
  given by `ProcessFailsIff`; `ShortEventFails` is one.
- Both optional capability fields can never be present together: the first needs
  the capability byte to be between 24 and 31, the second needs bit 5
  (`MiBeacon.PayloadStart`).
- The cache of the repeat filter is commented to be cleared once per minute. The
  condition is inverted: a call drops expired entries if and only if the next
  clearing is due later than now (`ExpiredEntryDroppedIff`), and with the
  program's initial value that is never (`RepeatFilter.Filter.Test`). The answers
  are right either way.
- Unsubscribing from a filter with wildcards does nothing (`UnsubRemovesIff`).
- A response that is processed after the writer has assigned the command it took
  and before it writes it makes the writer send nothing
  (`WriteCarriesCommandIff`, `CommandCanBeLost`); one that is processed between
  taking and assigning does not (`CommandCanSurvive`).

## Model

| member | source | states |
|---|---|---|
| Crypt.Mac.Reset | crypt/crypt.go:26-31 | afterwards the MAC has absorbed nothing, whatever it did before |
| Crypt.Mac.Write | crypt/crypt.go:33-43 | the state represents everything fed so far followed by the new bytes, so any split into writes gives the same state, although blocks are encrypted late |
| Crypt.Mac.PadZero | crypt/crypt.go:46-51 | the state represents the fed bytes padded with zeros to a block boundary |
| Crypt.Mac.Sum | crypt/crypt.go:53-59 | appends the block CBC-MAC of the padded bytes fed since the last reset |
| Crypt.NewCcm | crypt/crypt.go:81-100 | succeeds exactly for nonce sizes 7 to 13 and tag sizes 0, 4, 6, 8, 10, 12, 14, 16; otherwise says which of the two is wrong |
| Crypt.Ccm.GetTag | crypt/crypt.go:186-225 | CBC-MAC over B0, the padded length-prefixed data and the padded payload, from any earlier state of the MAC, though B0 and the prefix are built over the counter block |
| Crypt.Ccm.WriteData | crypt/crypt.go:193-216 | feeds the MAC the padded length-prefixed data in each of the three length encodings |
| Crypt.Ccm.Seal | crypt/crypt.go:110-142 | nothing when the payload is longer than its length field can say, otherwise the prefix of `dst`, CTR ciphertext and masked tag that the slice keeps |
| Crypt.Ccm.Open | crypt/crypt.go:144-182 | the decryption of SP 800-38C section 6.2: payload appended to `dst`, or too long, or not authentic |
| Crypt.Ccm.SealInPlace | crypt/crypt.go:110-142 | the same code with the payload's own array as output: the ciphertext, and the masked tag of the ciphertext, with the rest of the array unchanged |
| Crypt.Ccm.OpenInPlace | crypt/crypt.go:144-182 | opening over the ciphertext gives the same answer as opening into a fresh buffer, and leaves the decryption in place of the ciphertext also when it is not authentic |
| Crypt.FlagsByOr | crypt/crypt.go:189-194 | or-ing the tag size and the data bit into the counter flags gives the flag byte of B0 for every legal size, including the wrapped one |
| Crypt.AdvanceIsCtr | crypt/crypt.go:131-135 | repeated 128-bit increments from Ctr1 give the standard's counter blocks and never carry into the nonce |
| Crypt.KeyStreamIsCtr | crypt/crypt.go:133-135 | the library key stream started at Ctr1 encrypts as S1 S2 ... of the standard for every admissible payload |
| Crypt.MaxUvarint | crypt/crypt.go:227-229 | 256^n - 1 for 1 to 8 bytes, through the 64-bit wrap at 8 |
| Crypt.PutUvarint | crypt/crypt.go:232-236 | the slice holds the big-endian number and the rest of the array is unchanged |
| Crypt.XorBytesAt | crypt/crypt.go:251-260 | the block is exclusive-ored in place and nothing before it changes |
| Bytes.XorByBits | crypt/crypt.go:257-257 | each bit of the exclusive or of two bytes is set exactly when the two differ there |
| CcmTheorems.OpenIffSealed | crypt/crypt.go:110-182 | opening yields a payload if and only if the payload is 1 to 256^q - 1 bytes long and the input is that payload sealed |
| CcmTheorems.ZerosShowKeyStream | crypt/crypt.go:123-135 | encrypting or sealing k zero blocks gives S1 S2 ... Sk, each block forwards and in order |
| CcmTheorems.CtrCryptPrefix | crypt/crypt.go:133-135 | a prefix of the input is encrypted to that prefix of the output |
| CcmTheorems.XorKeyStreamStarts | crypt/crypt.go:133-135 | the library stream over one zero block is the encrypted initial block, and over any block its exclusive or with that |
| CcmTheorems.XorKeyStreamContinues | crypt/crypt.go:133-135 | after each block the library stream goes on from the incremented initial block |
| CcmTheorems.CbcChains | crypt/crypt.go:33-59 | the MAC of one block is that block encrypted; each further block is combined byte by byte with the MAC before it |
| CcmExamples.StandardExample | crypt/crypt.go:110-225 | for a cipher that agrees with AES-128 on the five blocks of the first example of SP 800-38C, sealing gives the ciphertext and tag printed there and opening them gives the payload |
| CcmTheorems.SealAppendsIffEmpty | crypt/crypt.go:121-141 | the AEAD promise to append to `dst` holds if and only if `dst` is empty |
| CcmTheorems.SealOverIff | crypt/crypt.go:135-137 | sealing over the payload gives the sealed payload, and something that opens to it, if and only if the tags of ciphertext and payload agree in their first bytes |
| CcmTheorems.SealOverDiffers | crypt/crypt.go:135-137 | an input for which it does not |
| CcmTheorems.FormattedPrefixFree | crypt/crypt.go:186-236 | with a tag, a formatted input that is a prefix of another comes from the same nonce, data and payload |
| CcmTheorems.FlagsReadBack | crypt/crypt.go:189-194 | counter width, tag size and data bit can be read back from the first byte of B0 |
| CcmTheorems.PrefixFreeIff | crypt/crypt.go:186-236 | the formatting meets section 5.4 of SP 800-38C if and only if the tag size is at least 4 |
| CcmTheorems.DataLengthStandardIff | crypt/crypt.go:198-214 | the length prefix is the standard's if and only if the length is outside 32640..65279 and 2^31..2^32-1 |
| CcmTheorems.CtrDistinct | crypt/crypt.go:123-135 | counter blocks coincide only for the same nonce and index |
| CcmTheorems.CtrIsNotB0 | crypt/crypt.go:189-191 | no counter block equals a first MAC block |
| CcmTheorems.KeyStreamInputs | crypt/crypt.go:123-135 | the cipher input for each byte is the standard's, differs from Ctr0 and B0, and is shared only within a 16-byte row |
| Bglib.ChipReader.Read | bglib/bglib.go:33-106 | delivers exactly the result of the read function, leaves the rest of the input pending, terminates, never reaches its panic and touches nothing past the copied bytes |
| Framing.FramesAreWhole | bglib/bglib.go:46-98 | a successful read returns 5 to 259 bytes with a type byte and the announced length; extended scan responses have the constant byte, the right data size and no DC or DD after DB; a failed one returns what no frame begins with |
| Framing.ReadConserves | bglib/bglib.go:41-66 | a read that is not cut off consumes a non-empty prefix of the input and returns it without its stuffing bytes |
| Framing.RunConserves | bglib/bglib.go:41-105 | over a whole run every byte is consumed once and in order up to the cut-off read, and each output is its piece without the stuffing bytes |
| Framing.ReadStuffed | bglib/bglib.go:51-66 | whatever bytes were stuffed into a whole frame, the frame is returned; stuffing after its last byte is left for the next read |
| Framing.ReadIntactIff | bglib/bglib.go:33-106 | a byte string is returned intact, whatever follows, if and only if it starts with 0x20 or 0xA0, has the announced length and, as an extended scan response, the constant byte, the data size and no DC or DD after DB |
| Framing.ReadRefusedIff | bglib/bglib.go:46-98 | a byte string is handed back as wrong, whatever follows, if and only if it is one stray byte, announces an empty payload, or is an extended scan response too short, without the constant byte or with the wrong data size |
| Framing.DeliveredWhole | bglib/bglib.go:33-106 | a buffer of 260 bytes gets every result whole with the right count and error, and keeps what it held behind it |
| Framing.StreamRoundTrip | bglib/bglib.go:33-106 | a stream of frames, each stuffed anywhere the firmware does, with anything but type bytes around them, is read as exactly those frames |
| Bglib.ConvertExtendedToLegacy | bglib/bglib.go:162-173 | the buffer starts with the legacy form of its old contents, seven bytes shorter, and is otherwise unchanged |
| Pipeline.LegacyAt | bglib/bglib.go:162-173 | where each byte of the converted event comes from; its header is 0xA0000300 |
| Pipeline.MessagesRecognisedIff | bglib/bglib.go:114-139 | which messages that a read returns are recognised, and as which of the five kinds, by their type, length, class and command bytes, whatever stale bytes the caller's buffer holds after them |
| Pipeline.ConversionKeepsFields | bglib/bglib.go:162-173 | parsing the converted event yields type, address, address type, signal strength and advertising data from their places in the extended event |
| Pipeline.LegacyLengthByteIff | bglib/bglib.go:165-165 | the length byte of the converted event is right if and only if length byte and class byte of the event are equal |
| Pipeline.LegacyLengthByteIsWrong | bglib/bglib.go:165-165 | it is wrong for every extended scan response that the reader returns |
| Gap.SprintMacInjective | gap/gap.go:51-53 | different addresses are printed differently |
| Gap.SprintMacShows | gap/gap.go:51-53 | the address is printed last byte first, each byte as two upper-case hexadecimal digits, higher digit first, with colons between |
| Gap.ParseScanResponse | gap/gap.go:55-122 | the loop computes the parse function, and its final length test cannot fire |
| Gap.StructuresAreLongestPrefix | gap/gap.go:67-84 | the structures found re-encode to a prefix of the data, and what follows is not an acceptable structure |
| Gap.ParseOfEncoding | gap/gap.go:55-122 | encoding any list of acceptable structures and parsing gives its last-wins map, and name, identifiers, brand, comment and usefulness each from the last structure that bears on it, and empty or zero if none does |
| Gap.RawIsLastWins | gap/gap.go:85-85 | on every input the raw map is the last-wins map of the longest valid prefix |
| Gap.MalformedIsFlagged | gap/gap.go:72-84 | data that does not end with a whole acceptable structure is flagged with the reason and useless |
| Gap.StoppedParse | gap/gap.go:72-84 | bytes after the structures that delimit no acceptable one change the comment and the usefulness of the parse and nothing else |
| Gap.TypesOnWire | gap/gap.go:79-85 | of well delimited structures exactly those of types 1 to 0x2D and 0xFF are accepted |
| Gap.BrandsOnWire | gap/gap.go:42-49 | the six companies that are given a brand, by the bytes they are sent as, and no others |
| Gap.ParseFailsIff | gap/gap.go:91-109 | the parse indexes out of range if and only if the header is short or the data ends in a service-data or manufacturer structure with a one-byte payload |
| MiBeacon.ParseMiBeacon | gap/mibeacon.go:268-350 | computes the parse function of the frame, and changes the caller's buffer exactly when decryption with a tag is attempted, also if there is no ciphertext |
| MiBeacon.OutOfRangeIff | gap/mibeacon.go:268-417 | the parse indexes out of range if and only if the frame is shorter than what its control bits, its capability byte and its key make it read |
| MiBeacon.DecodeFaultsIff | gap/mibeacon.go:20-266 | of the beacons that are turned into values, exactly lock events with fewer than nine bytes are indexed out of range |
| MiBeacon.Decode4InPlace | gap/mibeacon.go:387-417 | opens the original ciphertext, counter and tag although joining them overwrites the counter in the caller's buffer, and changes nothing else there |
| MiBeacon.Decode1FromFrame | gap/mibeacon.go:352-385 | opens with the expanded key, the 13-byte nonce and no tag |
| MiBeaconTheorems.SealedFieldsReturn | gap/mibeacon.go:268-350 | address, product, sequence number and event of any device, with any capability layout, sealed into a version 4 or 5 frame laid out field by field, come back from the parse |
| MiBeaconTheorems.LegacyFieldsReturn | gap/mibeacon.go:352-385 | the same for version 2 and 3 frames, encrypted without a tag under the bind key with 8D 3D 3C 97 between its first and second six bytes |
| MiBeaconTheorems.PlainFieldsReturn | gap/mibeacon.go:327-349 | the same for frames without encryption, with the two trailing bytes that version 5 may add |
| MiBeaconTheorems.SmallPayloadReturns | gap/mibeacon.go:332-336 | payloads of up to three bytes without encryption are reported whole, useless and with a comment |
| MiBeaconTheorems.SmallSealedReturns | gap/mibeacon.go:332-336 | the same for sealed payloads of one to three bytes |
| MiBeaconTheorems.NoMacReturns | gap/mibeacon.go:270-280 | a frame without an address is reported with product and sequence number, useless |
| MiBeaconTheorems.NoPayloadReturns | gap/mibeacon.go:282-288 | a frame with an address and no payload is reported with these and its address, useless |
| MiBeaconTheorems.UndecodedReturns | gap/mibeacon.go:307-326 | an encrypted frame of an unknown device is reported as encrypted, one of a known device in a version other than 2 to 5 as having a wrong key, both of usefulness 1 |
| MiBeaconTheorems.OverwritesIff | gap/mibeacon.go:387-409 | the frames whose tag is moved in the caller's buffer: encrypted, version 4 or 5, a known key of the right size, and room for counter and tag |
| MiBeaconTheorems.SealedFrameParses | gap/mibeacon.go:268-350 | every version 4 or 5 frame sealed under the device's key, decodes to its event id and data, useful and without comment |
| MiBeaconTheorems.OnlySealedFramesParse | gap/mibeacon.go:387-417 | a useful result for an encrypted version 4 or 5 frame comes from a frame sealed under that key |
| MiBeaconTheorems.WrongKeyIff | gap/mibeacon.go:305-321 | a long enough frame of version 4 or 5 is answered with a wrong key if and only if no payload seals to it under the device's key |
| MiBeaconTheorems.LegacyFrameParses | gap/mibeacon.go:352-385 | every version 2 or 3 frame encrypted under the expanded key decodes to its event id and data |
| MiBeaconTheorems.EveryLegacyFrameParses | gap/mibeacon.go:352-385 | without a tag every long enough frame decodes to some payload |
| MiBeaconTheorems.LegacyIgnoresLastByte | gap/mibeacon.go:352-385 | the parse of an encrypted version 2 or 3 frame does not depend on its last byte, whatever the key |
| Pipeline.IdentifiersLocated | gap/gap.go:90-113 | on every input, service and company identifier are those read at the last service data and the last manufacturer data |
| Pipeline.ProcessExtResponse | btchip_reader.go:201-268 | an event is suppressed if and only if one that agrees with it except in bytes 17 and 18 was let through less than five seconds before; otherwise the result is that of the parsers and of the two switches on the converted event, and the bytes sent on are that event with, at most, one tag moved over its counter |
| Pipeline.MutedIff | btchip_reader.go:205-207 | two events have the same key in the filter if and only if they have the same length and agree except in signal strength and channel |
| Pipeline.AdvertsAreSpaced | btchip_reader.go:205-212 | over a whole run, events let through that differ at most there are at least five seconds apart |
| Pipeline.ServiceSwitch | btchip_reader.go:222-252 | the service branch in the shared buffer: its outcome, and the buffer with the tag moved exactly if the beacon parser moves it |
| PipelineTheorems.ProcessFailsIff | btchip_reader.go:217-265 | processing indexes out of range if and only if the data ends in a short structure, or the last service data is too short for its parser, or the last manufacturer data is one byte of one company |
| PipelineTheorems.SentOnIntactIff | btchip_reader.go:217-267 | the app gets the converted event unchanged if and only if no tagged decryption is attempted on it or the beacon's counter and first tag byte equal its tag |
| PipelineTheorems.BeaconReachesParser | btchip_reader.go:217-250 | the last Xiaomi service data of an event reaches the beacon parser unchanged, with the event's address and signal strength, and the event fails only if that frame does |
| PipelineTheorems.SealedBeaconArrives | btchip_reader.go:201-268 | a beacon sealed by its device, sent in a stuffed frame with noise around it, is read, converted and decrypted to what was sealed, unless it is a lock event with fewer than nine bytes |
| Examples.SomeBeaconArrives | btchip_reader.go:201-268 | such a beacon exists: an event, frame and key that meet every condition of the previous row |
| Examples.SomeBeaconIsSentOnChanged | btchip_reader.go:217-267 | its event is not sent on as it was converted |
| Examples.ShortEventFails | gap/gap.go:91-91 | an event that the reader delivers intact and whose processing indexes out of range |
| Mqtt.Matches | mqtt/mqtt.go:174-201 | the index loop computes the level-by-level comparison |
| Mqtt.CheckFilter | mqtt/mqtt.go:693-705 | accepts exactly the filters whose wildcards fill a level and whose "#" is last |
| Mqtt.MatchesIff | mqtt/mqtt.go:174-201 | for a valid filter, matching holds if and only if some replacement of "+" by one level and "#" by any number of levels gives the topic |
| Mqtt.PlainFilterMatchesItself | mqtt/mqtt.go:152-163 | a filter without wildcards matches its own topic only, so the exact table agrees with matching |
| Mqtt.SplitIff | mqtt/mqtt.go:171-171 | the levels of a topic are the only strings without separators that join to it |
| Mqtt.SplitAtSlash | mqtt/mqtt.go:171-171 | a separator splits into the levels before it and the levels after it |
| Mqtt.AcceptableIff | mqtt/mqtt.go:152-163 | a filter is accepted if and only if, character by character, each wildcard stands alone between separators and "#" is last |
| Mqtt.OneLevelIsCovered | mqtt/mqtt.go:174-201 | a level followed by "+" matches exactly the topics one level below it |
| Mqtt.BelowIsFound | mqtt/mqtt.go:204-220 | after subscribing to a level followed by "#", the subscribers of that level and of every topic below it are that connection, and of other topics nobody |
| Mqtt.LiveAppend | mqtt/mqtt.go:152-267 | how one more request changes the set of live subscriptions, which is defined from the whole history |
| Mqtt.LiveAfterAdd | mqtt/mqtt.go:152-163 | an accepted filter adds one subscription, and nothing else changes |
| Mqtt.LiveAfterUnsub | mqtt/mqtt.go:246-267 | unsubscribing ends all subscriptions of that connection to that topic if it has no wildcard, and keeps the number of every other |
| Mqtt.LiveAfterUnsubAll | mqtt/mqtt.go:223-243 | no subscription of that connection is left, with or without wildcards, and the number of every other is kept |
| Mqtt.Subscriptions.Add | mqtt/mqtt.go:152-163 | the tables index the live subscriptions of the extended history; invalid filters are dropped |
| Mqtt.Subscriptions.Subscribers | mqtt/mqtt.go:204-220 | the entries that are not nil are, with multiplicity, the connections of the live subscriptions whose filter yields the topic, exact ones in order before wildcard ones |
| Mqtt.Subscriptions.UnsubAll | mqtt/mqtt.go:223-243 | the tables index what is left after all subscriptions of the connection end, through tombstones written in place |
| Mqtt.Subscriptions.Unsub | mqtt/mqtt.go:246-267 | the tables index what is left, whether tombstones are written or the topic is deleted |
| Mqtt.UnsubRemovesIff | mqtt/mqtt.go:246-267 | unsubscribing ends a live subscription if and only if its filter has no wildcard |
| Mqtt.WildcardStays | mqtt/mqtt.go:246-267 | a subscription with a wildcard that unsubscribing leaves live |
| RepeatFilter.Filter.Test | btchip_reader.go:306-326 | answers true if and only if the key was admitted less than five seconds before, whatever was purged; leaves exactly the entries kept by the purge condition and the new one; with the program's initial value nothing is ever purged |
| RepeatFilter.ExpiredEntryDroppedIff | btchip_reader.go:308-316 | a call drops an expired entry if and only if the next clearing is due later than now |
| RepeatFilter.Filter.Purge | btchip_reader.go:309-313 | removes exactly the expired keys and nothing the answers depend on |
| RepeatFilter.AdmittedAreSpaced | btchip_reader.go:318-323 | equal messages that are let through are at least five seconds apart |
| RepeatFilter.EveryMessageIsCovered | btchip_reader.go:318-325 | every message was let through itself or within the five seconds before |
| Handshake.OneCommandAtATime | btchip_reader.go:171-193 | in every interleaving, between two consecutive writes the waiting writer was signalled exactly once |
| Handshake.SignalsDoNotAccumulate | btchip_reader.go:171-178 | signals received and writes made never differ by more than the one being waited for |
| Handshake.WritesFollowTheQueue | btchip_reader.go:150-194 | commands written follow the order in which they were enqueued, each at most once, despite concurrent clearing |
| Handshake.WriteCarriesCommandIff | btchip_reader.go:171-188 | the command assigned is the one last taken, and the write carries it if and only if no response was processed since the assignment |
| Handshake.CommandCanBeLost | btapp_reader.go:56-79 | an interleaving in which a taken and assigned command is not written |
| Handshake.CommandCanSurvive | btapp_reader.go:56-79 | an interleaving in which the same reset falls before the assignment and the command is written |
| Handshake.ClearingDiscards | btchip_reader.go:161-168 | whatever the other threads do meanwhile, no command queued when a thread began to clear the queue is there when that thread goes on |
| Handshake.ResetFindsQueueEmpty | btapp_reader.go:58-62 | in every run the queue is empty from the end of a reset's clearing until the reset command is added |
| Handshake.AddingWaitsIffFull | btchip_reader.go:152-159 | the queue never holds more than 100 commands, and adding waits if and only if it holds 100 |
| Handshake.ResponseReleasesWriter | btchip_reader.go:171-194 | in every reachable state where the writer waits and a command is queued, a response of the chip releases it and it can write that command next |
| Handshake.ResetReleasesWriter | btapp_reader.go:56-79 | in every reachable state where the writer waits, a reset discards the queue, releases the writer, and its own command is the next that can be written |
| Handshake.SecondCommandIsWritten | btapp_reader.go:67-79 | such a run: both commands of starting the discovery are written, with a response between |

## Left out

- AES, hex decoding and the bind-key store: parameters of the model. A bind key of versions 2 and 3 that decodes to fewer than 12 bytes is an index out of range here; Go may read into spare capacity instead.
- The counter mode of the Go library: described by its specification, copying the initial block and incrementing it as a 128-bit big-endian number.
- Crypt.Ccm.Seal: `dst` and the payload are values that share no array. `SealInPlace` is the call with both at the start of one array; other overlaps, which the key stream of the library refuses, and spare capacity elsewhere are not modelled. The program never calls `Seal`.
- Crypt.Ccm.Open: requires more bytes than the tag, since the code panics otherwise; `dst` is a value, and `OpenInPlace` is the call over the ciphertext.
- Lengths that do not fit a 64-bit unsigned number: excluded for the associated data, which is no restriction for Go slices.
- Bglib.ChipReader.Read: the port is a finite sequence of bytes and then an error; short reads without an error are not modelled, and the bytes of a frame that the error cuts off are lost as in the source.
- Mqtt.Subscriptions.Subscribers: returns a value; in the source the result may share its array with the table, so a later subscription can overwrite a result still in use.
- Mqtt: retained messages, workers, connections, and the "$" rule of MQTT 3.1.1 section 4.7.2, which the source does not implement.
- Pipeline.ProcessExtResponse: of the thermometer, scale and iBeacon parsers and of `MiBeacon.Decode` only the indexes they use are modelled, not the values they return; the device state and messages behind them are not modelled.
- Handshake: that a queued command is written is proved possible, not inevitable, since a signal sent before the writer waits is dropped; the contents of queued commands, which the app reader keeps in one shared buffer, are not modelled.
- Command encoders and decoders of mesh messages in bglib: fixed layouts.
- Serial port setup, sockets, shell commands, logging, timers and configuration.
