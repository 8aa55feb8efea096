/** When processing an event fails, what it sends on, and the way of a sealed
    beacon from the serial line to its values. */
module PipelineTheorems {
  import opened Bytes
  import opened Bglib
  import opened Framing
  import opened Gap
  import opened CcmSpec
  import opened MiBeacon
  import opened MiBeaconTheorems
  import opened Pipeline

  // ----- indexes out of range ----------------------------------------------

  /** The frame is too short to parse, or is a lock event too short to decode. */
  predicate FrameFaults(d: seq<byte>, env: Env) {
    || TooShort(d, env)
    || (ParseFrame(d, env).Parsed? && ParseFrame(d, env).useful > 0
        && ParseFrame(d, env).b.eid == 0x000B && |ParseFrame(d, env).b.edata| < 9)
  }

  /** The last service data is for a parser that indexes past it. */
  predicate ServiceFaults(response: seq<byte>, env: Env)
    requires |response| >= 15
  {
    match PayloadAt(response, 0x16)
    case None => false
    case Some(s) =>
      && s.at + s.size <= |response| && s.at + 2 <= |response|
      && var id := Uint16(response[s.at..]);
         && id in {0x181A, 0x181B, 0x181D, 0xFE95}
         && (s.size < 2 || (id == 0x181B && s.size == 14)
             || (id == 0xFE95 && FrameFaults(response[s.at + 2..s.at + s.size], env)))
  }

  /** The last manufacturer data is that of one company and has one byte. */
  predicate ManufacturerFaults(response: seq<byte>)
    requires |response| >= 15
  {
    match PayloadAt(response, 0xFF)
    case None => false
    case Some(s) => s.at + 2 <= |response| && Uint16(response[s.at..]) == 0x004C && s.size < 2
  }

  /** The advertising data is whole structures and ends in one whose two leading
      bytes are read although it has one. */
  predicate EndsInShortStructure(d: seq<byte>) {
    Encode(Structures(d)) == d && EndsShort(Structures(d))
  }

  lemma FrameFaultsIff(d: seq<byte>, env: Env)
    ensures FrameFaults(d, env) <==>
            match ParseFrame(d, env)
            case OutOfRange => true
            case Parsed(b, useful) => useful > 0 && DecodeFaults(b)
  {
    hide ParseFrame, TooShort, DecodeFaults;
    OutOfRangeIff(d, env);
    if ParseFrame(d, env).Parsed? && ParseFrame(d, env).useful > 0 {
      DecodeFaultsIff(d, env);
    }
  }

  lemma ServiceBranchFaultsIff(response: seq<byte>, env: Env)
    requires ParseResponse(response).Some?
    ensures |response| >= 15
    ensures ServiceBranch(ParseResponse(response).value, env) == Fault <==> ServiceFaults(response, env)
  {
    hide ParseResponse, PayloadAt, ParseFrame, FrameFaults, DecodeFaults, Uint16;
    var msg := ParseResponse(response).value;
    PayloadLocated(response, 0x16);
    IdentifiersLocated(response);
    match PayloadAt(response, 0x16) {
      case None =>
      case Some(s) =>
        if s.size >= 2 {
          SliceOfSlice(response, s.at, s.at + s.size, 2, s.size);
          FrameFaultsIff(msg.raw[0x16][2..], env);
        }
    }
  }

  lemma CompanyFaultsIff(response: seq<byte>)
    requires ParseResponse(response).Some?
    ensures |response| >= 15
    ensures CompanyFaults(ParseResponse(response).value) <==> ManufacturerFaults(response)
  {
    hide ParseResponse, PayloadAt, Uint16;
    PayloadLocated(response, 0xFF);
    IdentifiersLocated(response);
  }

  /** Processing a converted event indexes out of range exactly for these bytes. */
  lemma ProcessFailsIff(response: seq<byte>, env: Env)
    ensures Process(response, env) == Crashed <==>
            || |response| < 15
            || EndsInShortStructure(response[15..])
            || ServiceFaults(response, env)
            || ManufacturerFaults(response)
  {
    hide ParseResponse, ServiceBranch, CompanyFaults, ServiceFaults, ManufacturerFaults, Structures, Encode, EndsShort;
    ParseFailsIff(response);
    if ParseResponse(response).Some? {
      ServiceBranchFaultsIff(response, env);
      CompanyFaultsIff(response);
    }
  }

  // ----- the bytes sent on -------------------------------------------------

  /** Moving a tag over its counter changes nothing exactly when the counter and
      the first tag byte equal the tag. */
  lemma TagOverCounterIff(buf: seq<byte>, hi: nat)
    requires 7 <= hi <= |buf|
    ensures TagOverCounter(buf, hi) == buf <==> buf[hi - 7..hi - 3] == buf[hi - 4..hi]
  {
    assert buf == buf[..hi - 7] + buf[hi - 7..hi - 3] + buf[hi - 3..];
    assert TagOverCounter(buf, hi)[hi - 7..hi - 3] == buf[hi - 4..hi];
  }

  /** The app gets the converted event unchanged if and only if no tagged
      decryption is attempted on it, or the counter and first tag byte of its
      beacon happen to equal the tag. */
  lemma SentOnIntactIff(response: seq<byte>, env: Env)
    requires ParseResponse(response).Some?
    ensures var msg := ParseResponse(response).value;
            SentOn(response, env) == response <==>
            (MovesTag(msg, env) ==>
               var d := msg.raw[0x16][2..];
               d[|d| - 7..|d| - 3] == d[|d| - 4..])
  {
    hide ParseResponse, PayloadAt, Overwrites, TagOverCounter;
    var msg := ParseResponse(response).value;
    if MovesTag(msg, env) {
      PayloadLocated(response, 0x16);
      var span := PayloadAt(response, 0x16).value;
      var lo, hi := span.at + 2, span.at + span.size;
      var d := msg.raw[0x16][2..];
      SliceOfSlice(response, span.at, hi, 2, span.size);
      assert d == response[lo..hi];
      SliceOfSlice(response, lo, hi, |d| - 7, |d| - 3);
      SliceOfSlice(response, lo, hi, |d| - 4, |d|);
      TagOverCounterIff(response, hi);
    }
  }

  // ----- end to end --------------------------------------------------------

  /** The event carries `list`, and the last service data in it is a Xiaomi
      beacon with the frame `d`. */
  ghost predicate Carries(e: seq<byte>, list: seq<AdStruct>, d: seq<byte>) {
    && |e| >= 22 && AllEncodable(list) && Readable(list) && e[22..] == Encode(list)
    && exists i :: 0 <= i < |list| && IsLast(list, i) && list[i] == AdStruct(0x16, [0x95, 0xFE] + d)
  }

  /** The parse of such an event, before anything is done with it. */
  lemma ParseOfCarrier(e: seq<byte>, list: seq<AdStruct>, d: seq<byte>) returns (m: Message)
    requires Carries(e, list, d)
    ensures ParseResponse(Legacy(e)) == Some(m)
    ensures m.serviceUuid == XIAOMI && 0x16 in m.raw && m.raw[0x16] == [0x95, 0xFE] + d
    ensures !CompanyFaults(m)
    ensures m.mac == SprintMac(e[5..11]) && m.rssi == Int8(e[17]) && m.packetType == e[4] && m.rand == e[11]
  {
    hide SprintMac, ParseResponse, Encode, AllEncodable, IsLast, Readable;
    var l := Legacy(e);
    LegacyAt(e);
    assert l[15..] == e[22..] && l[..15][6..12] == e[5..11];
    assert l == l[..15] + Encode(list);
    ParseOfEncoding(l[..15], list);
    m := ParseResponse(l).value;
    var i :| 0 <= i < |list| && IsLast(list, i) && list[i] == AdStruct(0x16, [0x95, 0xFE] + d);
    LegibleAt(list, i);
    assert FieldSays(list, i, m);
    NoCompanyFault(list, m);
  }

  lemma LegibleAt(list: seq<AdStruct>, i: nat)
    requires Readable(list) && i < |list|
    ensures Legible(list[i])
  {}

  lemma {:induction false} LastExists(list: seq<AdStruct>, kind: byte) returns (i: nat)
    requires kind in Kinds(list)
    ensures i < |list| && list[i].kind == kind && IsLast(list, i)
  {
    var n := |list| - 1;
    if list[n].kind == kind {
      i := n;
    } else {
      var k :| 0 <= k < |list| && list[k].kind == kind;
      assert list[..n][k].kind == kind;
      i := LastExists(list[..n], kind);
      assert forall j :: i < j < n ==> list[..n][j] == list[j];
    }
  }

  /** Manufacturer data that can be read has the two bytes that are sliced off. */
  lemma NoCompanyFault(list: seq<AdStruct>, m: Message)
    requires Readable(list) && LastWins(list, m.raw) && OthersAre(list, BLANK, m)
    ensures !CompanyFaults(m)
  {
    hide IsLast;
    if 0xFF in Kinds(list) {
      var i := LastExists(list, 0xFF);
      assert Legible(list[i]);
    } else {
      forall i | 0 <= i < |list|
        ensures list[i].kind != 0xFF
      {
        assert list[i].kind in Kinds(list);
      }
    }
  }

  /** The event is sent on with this beacon and with its own address, signal
      strength and types. */
  ghost predicate Delivers(r: Processed, e: seq<byte>, o: Outcome) {
    && |e| >= 22
    && r.Forwarded? && r.beacon == Some(o)
    && r.msg.mac == SprintMac(e[5..11]) && r.msg.rssi == Int8(e[17])
    && r.msg.packetType == e[4] && r.msg.rand == e[11]
  }

  /** The beacon that an event carries reaches the beacon parser unchanged, with
      the address and signal strength of the event beside it. */
  lemma BeaconReachesParser(e: seq<byte>, list: seq<AdStruct>, d: seq<byte>, env: Env)
    requires Carries(e, list, d)
    ensures var r := Process(Legacy(e), env);
            if FrameFaults(d, env) then r == Crashed else Delivers(r, e, ParseFrame(d, env))
  {
    var m := ParseOfCarrier(e, list, d);
    hide ParseFrame, SprintMac, ParseResponse, FrameFaults, CompanyFaults, Carries, Legacy;
    assert m.raw[0x16][2..] == d;
    FrameFaultsIff(d, env);
  }

  /** A beacon sealed under its device's key, advertised in an event that the
      chip sends with stuffing bytes in it and noise around it, is read, converted
      and decrypted to the event id and data that were sealed; what is sent on
      differs from the converted event unless the beacon ends as if already
      moved. Only a lock event with fewer than nine bytes fails. */
  lemma SealedBeaconArrives(it: Item, noise: seq<byte>, list: seq<AdStruct>, e: Cipher, f: Fields, counter: seq<byte>,
                            eid: nat, skipped: byte, edata: seq<byte>, env: Env)
    requires IsItem(it) && IsGap(it.frame) && IsNoise(noise)
    requires IsFields(f) && f.low / 0x08 % 2 == 1 && f.high / 16 in {4, 5} && |counter| == 3
    requires Keyed(env, HeadOf(f), e) && eid < 0x1_0000 && 1 <= |edata| < 0x100_0000 - 3
    requires Carries(it.frame, list, SealedBytes(e, f, counter, PayloadOf(eid, skipped, edata)))
    ensures FramesOf(ReadAll(it.noise + Sent(it) + noise)) == [it.frame]
    ensures var r := Process(Legacy(it.frame), env);
            if eid == 0x000B && |edata| < 9 then r == Crashed else Delivers(r, it.frame, Reading(f, eid, edata))
  {
    hide ReadAll, Process, SealedBytes, Keyed, HeadOf, IsItem, Sent, Delivers, IsFields, Legacy, TooShort;
    OneItem(it, noise);
    var d := SealedBytes(e, f, counter, PayloadOf(eid, skipped, edata));
    SealedFieldsReturn(e, f, counter, eid, skipped, edata, env);
    OutOfRangeIff(d, env);
    BeaconReachesParser(it.frame, list, d, env);
    hide ParseFrame;
  }

  lemma OneItem(it: Item, noise: seq<byte>)
    requires IsItem(it) && IsNoise(noise)
    ensures FramesOf(ReadAll(it.noise + Sent(it) + noise)) == [it.frame]
  {
    hide ReadAll, IsItem, Sent, IsNoise;
    StreamRoundTrip([it], noise);
    assert [it][1..] == [];
    assert Frames([it]) == [it.frame] + Frames([]);
    assert Stream([it], noise) == it.noise + (Sent(it) + noise);
    assert it.noise + (Sent(it) + noise) == it.noise + Sent(it) + noise;
  }
}
