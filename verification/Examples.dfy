/** Events that show what the theorems speak of. */
module Examples {
  import opened Bytes
  import opened Bglib
  import opened Framing
  import opened Gap
  import opened CcmSpec
  import Crypt
  import opened MiBeacon
  import opened MiBeaconTheorems
  import opened Pipeline
  import opened PipelineTheorems

  // ----- a sealed beacon ---------------------------------------------------

  /** A beacon that meets all conditions of `SealedBeaconArrives`,
      under a cipher that maps every block to zeros. */
  lemma SomeBeaconArrives() returns (it: Item, list: seq<AdStruct>, e: Cipher, f: Fields, counter: seq<byte>, env: Env)
    ensures IsItem(it) && IsGap(it.frame)
    ensures IsFields(f) && f.low / 0x08 % 2 == 1 && f.high / 16 in {4, 5} && |counter| == 3
    ensures Keyed(env, HeadOf(f), e)
    ensures Carries(it.frame, list, SealedBytes(e, f, counter, PayloadOf(0x1004, 2, [7])))
  {
    hide SealedBytes, HeadOf, Keyed, Carries, PayloadOf, IsItem, IsGap;
    e := (b: Block) => Zeros(16);
    f := SOME_DEVICE;
    counter := [1, 0, 0];
    env := Env(mac => "k", key => [], key => Some(e));
    SomeSealedBytes(e);
    SomeKey(env, e);
    list := [AdStruct(0x16, [0x95, 0xFE] + SOME_FRAME)];
    it := Item([], SOME_EVENT, seq(48, _ => []));
    SomeEventIsWhole();
    SomeEventCarries(list);
  }

  const SOME_DEVICE: Fields := Fields(0x58, 0x50, 0x5B, 1, [1, 2, 3, 4, 5, 6], [])

  const SOME_FRAME: seq<byte> := [0x58, 0x50, 0x5B, 0, 1, 1, 2, 3, 4, 5, 6, 4, 0x10, 2, 7, 1, 0, 0, 0, 0, 0, 0]

  const SOME_EVENT: seq<byte> :=
    [0xA0, 44, 3, 4, 0, 1, 2, 3, 4, 5, 6, 0, 0, 0, 0, 0xFF, 0, 0xC8, 0x26, 0, 0, 26]
    + ([25, 0x16, 0x95, 0xFE] + SOME_FRAME)

  lemma SomeSealedBytes(e: Cipher)
    requires forall b: Block :: e(b) == Zeros(16)
    ensures IsFields(SOME_DEVICE)
    ensures SealedBytes(e, SOME_DEVICE, [1, 0, 0], PayloadOf(0x1004, 2, [7])) == SOME_FRAME
  {
    hide Seal;
    var f, payload := SOME_DEVICE, PayloadOf(0x1004, 2, [7]);
    assert payload == [4, 0x10, 2, 7];
    ZeroCipherSeals(e, f.mac + Le16(f.pdid) + [f.sequence] + [1, 0, 0], payload);
    assert HeadOf(f) == [0x58, 0x50, 0x5B, 0, 1, 1, 2, 3, 4, 5, 6];
  }

  lemma SomeKey(env: Env, e: Cipher)
    requires forall m :: env.bindkey(m) == "k"
    requires forall k :: env.cipher(k) == Some(e)
    ensures IsFields(SOME_DEVICE) && Keyed(env, HeadOf(SOME_DEVICE), e)
  {
    hide SprintMac;
    HeadOfFields(SOME_DEVICE);
  }

  lemma SomeEventIsWhole()
    ensures IsItem(Item([], SOME_EVENT, seq(48, _ => []))) && IsGap(SOME_EVENT)
  {
    var f := SOME_EVENT;
    assert |f| == 48 && f[0] == 0xA0 && f[1] == 44 && f[2] == 3 && f[3] == 4 && f[15] == 0xFF && f[21] == 26;
    forall i | 0 <= i < 48
      ensures f[i] != 0xDB
    {}
  }

  lemma SomeEventCarries(list: seq<AdStruct>)
    requires list == [AdStruct(0x16, [0x95, 0xFE] + SOME_FRAME)]
    ensures Carries(SOME_EVENT, list, SOME_FRAME)
  {
    hide Encode;
    EncodeCons(list[0], []);
    NoEncoding();
    assert list == [list[0]] + [];
    assert Encode(list) == [25, 0x16, 0x95, 0xFE] + SOME_FRAME == SOME_EVENT[22..];
    assert IsLast(list, 0);
  }

  lemma NoEncoding()
    ensures Encode([]) == []
  {}

  lemma ZeroCipherSeals(e: Cipher, nonce: seq<byte>, payload: seq<byte>)
    requires |nonce| == 12 && forall b: Block :: e(b) == Zeros(16)
    ensures Seal(e, nonce, 4, [0x11], payload) == payload + [0, 0, 0, 0]
  {
    forall i | 0 <= i < |payload|
      ensures CtrCrypt(e, nonce, payload)[i] == payload[i]
    {
      Crypt.XorZero(payload[i]);
    }
    assert CtrCrypt(e, nonce, payload) == payload;
    var f := Formatted(nonce, 4, [0x11], payload);
    assert CbcMac(e, f) == Zeros(16);
    Crypt.XorZero(0);
    assert MaskedTag(e, nonce, 4, [0x11], payload)[..4] == [0, 0, 0, 0];
  }

  /** The app gets other bytes than the converted event of that beacon. */
  lemma SomeBeaconIsSentOnChanged(e: Cipher, env: Env)
    requires forall b: Block :: e(b) == Zeros(16)
    requires forall m :: env.bindkey(m) == "k"
    requires forall k :: env.cipher(k) == Some(e)
    ensures ParseResponse(Legacy(SOME_EVENT)).Some?
    ensures SentOn(Legacy(SOME_EVENT), env) != Legacy(SOME_EVENT)
  {
    hide ParseResponse, Carries, Legacy, SprintMac, SentOn, Overwrites;
    var list := [AdStruct(0x16, [0x95, 0xFE] + SOME_FRAME)];
    SomeEventCarries(list);
    var m := ParseOfCarrier(SOME_EVENT, list, SOME_FRAME);
    assert m.raw[0x16][2..] == SOME_FRAME;
    SomeFrameOverwrites(env);
    SomeFrameEnds();
    SentOnIntactIff(Legacy(SOME_EVENT), env);
  }

  lemma SomeFrameEnds()
    ensures |SOME_FRAME| == 22 && SOME_FRAME[15..19] != SOME_FRAME[18..]
  {
    assert SOME_FRAME[15..19][0] == 1 && SOME_FRAME[18..][0] == 0;
  }

  lemma SomeFrameOverwrites(env: Env)
    requires forall m :: env.bindkey(m) == "k"
    requires forall k :: env.cipher(k).Some?
    ensures Overwrites(SOME_FRAME, env)
  {
    hide SprintMac;
  }

  // ----- an event whose data ends in a short structure ---------------------

  const SHORT_EVENT: seq<byte> :=
    [0xA0, 21, 3, 4, 0, 1, 2, 3, 4, 5, 6, 0, 0, 0, 0, 0xFF, 0, 0xC8, 0x26, 0, 0, 3, 2, 0x16, 7]

  /** The reader delivers it intact and processing it indexes out of range. */
  lemma ShortEventFails(rest: seq<byte>, env: Env)
    ensures ReadOne(SHORT_EVENT + rest) == Frame(SHORT_EVENT, rest)
    ensures Process(Legacy(SHORT_EVENT), env) == Crashed
  {
    hide Process, ReadOne, ServiceFaults, ManufacturerFaults;
    ShortEventIsWhole();
    ReadIntactIff(SHORT_EVENT, rest);
    LegacyAt(SHORT_EVENT);
    var d := Legacy(SHORT_EVENT)[15..];
    assert d == [2, 0x16, 7];
    ShortData(d);
    ProcessFailsIff(Legacy(SHORT_EVENT), env);
  }

  lemma ShortEventIsWhole()
    ensures IsWhole(SHORT_EVENT) && Unambiguous(SHORT_EVENT)
  {
    var f := SHORT_EVENT;
    assert |f| == 25 && f[0] == 0xA0 && f[1] == 21 && f[2] == 3 && f[3] == 4 && f[15] == 0xFF && f[21] == 3;
    forall i | 0 <= i < 25
      ensures f[i] != 0xDB
    {}
  }

  lemma ShortData(d: seq<byte>)
    requires d == [2, 0x16, 7]
    ensures EndsInShortStructure(d)
  {
    var s := AdStruct(0x16, [7]);
    assert d[2..d[0] + 1] == [7] && d[d[0] + 1..] == [];
    StructuresCons(d, s, []);
    assert Structures([]) == [];
    assert Structures(d) == [s];
    EncodeCons(s, []);
    NoEncoding();
    assert [s] + [] == [s];
  }
}
