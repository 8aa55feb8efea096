/** Which MiBeacon frames decode, and to what. */
module MiBeaconTheorems {
  import opened Bytes
  import opened CcmSpec
  import CcmTheorems
  import opened Gap
  import opened MiBeacon

  // ----- frame layouts -----------------------------------------------------

  /** The fields before the payload: control, product, sequence number, address
      and whatever capability fields the control and capability bytes announce. */
  predicate IsHead(head: seq<byte>) {
    && |head| >= 11 && (HasCapability(head) ==> |head| >= 12)
    && |head| == PayloadStart(head)
    && HasMac(head) && HasPayload(head)
  }

  /** A frame of versions 4 and 5: the sealed payload with the counter between
      ciphertext and tag. */
  function SealedFrame(e: Cipher, head: seq<byte>, counter: seq<byte>, payload: seq<byte>): seq<byte>
    requires |head| >= 11 && |counter| == 3
  {
    var sealed := Seal(e, Nonce4(head, counter), 4, [0x11], payload);
    head + sealed[..|payload|] + counter + sealed[|payload|..]
  }

  /** A frame of versions 2 and 3: no tag, and a last byte that is ignored. */
  function LegacyFrame(e: Cipher, head: seq<byte>, counter: seq<byte>, last: byte, payload: seq<byte>): seq<byte>
    requires |head| >= 11 && |counter| == 3
  {
    head + Seal(e, Nonce1(head, counter), 0, [0x11], payload) + counter + [last]
  }

  /** What a payload decodes to under a head. */
  function Decoding(head: seq<byte>, payload: seq<byte>): Outcome
    requires IsHead(head) && |payload| >= 4
  {
    Parsed(Beacon(SprintMac(head[5..]), Uint16(head[2..]), Uint16(payload), payload[3..], head[4], ""), 2)
  }

  /** `k3` is the bind key `k` of versions 2 and 3 with four fixed bytes put into
      its middle. */
  predicate IsExpanded(k: seq<byte>, k3: seq<byte>) {
    && |k| >= 12 && |k3| == 16
    && k3[..6] == k[..6] && k3[6..10] == [0x8d, 0x3d, 0x3c, 0x97] && k3[10..] == k[6..12]
  }

  /** The cipher that `env` provides for the device of `head`. */
  ghost predicate Keyed(env: Env, head: seq<byte>, e: Cipher)
    requires |head| >= 11
  {
    var key := env.bindkey(SprintMac(head[5..]));
    && key != ""
    && (Version(head) in {4, 5} ==> env.cipher(env.hex(key)) == Some(e))
    && (Version(head) in {2, 3} ==> exists k3 :: IsExpanded(env.hex(key), k3) && env.cipher(k3) == Some(e))
  }

  lemma ExpandedIs(k: seq<byte>, k3: seq<byte>)
    requires IsExpanded(k, k3)
    ensures ExpandKey(k) == k3
  {
    assert k3 == k3[..6] + k3[6..10] + k3[10..];
  }

  // ----- reading the head --------------------------------------------------

  lemma SameHead(d: seq<byte>, head: seq<byte>)
    requires IsHead(head) && head <= d
    ensures PayloadStart(d) == |head| && HasMac(d) && HasPayload(d)
    ensures IsEncrypted(d) == IsEncrypted(head) && Version(d) == Version(head)
    ensures d[2..5] == head[2..5] && d[5..11] == head[5..11] && d[0..5] == head[0..5] && d[5..10] == head[5..10]
    ensures Uint16(d[2..]) == Uint16(head[2..]) && SprintMac(d[5..]) == SprintMac(head[5..]) && d[4] == head[4]
  {
    assert forall i :: 0 <= i < |head| ==> d[i] == head[i];
    assert d[2..][0] == head[2] && d[2..][1] == head[3];
  }

  /** With a known head and key the parse is the interpretation of what the
      decoder returns. */
  lemma ParseEncrypted(d: seq<byte>, head: seq<byte>, env: Env, e: Cipher)
    requires IsHead(head) && head <= d && IsEncrypted(head) && Version(head) in {2, 3, 4, 5}
    requires Keyed(env, head, e)
    ensures var b := Beacon(SprintMac(head[5..]), Uint16(head[2..]), 0, [], head[4], "");
            var key := env.bindkey(b.mac);
            var decoded :=
              if Version(head) in {2, 3} then Decode1(d, |head|, key, env) else Decode4(d, |head|, key, env);
            ParseFrame(d, env) == match decoded
                             case Payload(p) => Interpret(b, p)
                             case NoPayload => Parsed(b.(comment := "wrong enc key"), 1)
                             case DecodeOutOfRange => OutOfRange
  {
    hide Decode1, Decode4, SprintMac;
    SameHead(d, head);
  }

  /** Versions 2 and 3 open with the cipher of the expanded key. */
  lemma ExpandedKeyed(head: seq<byte>, env: Env, e: Cipher)
    requires IsHead(head) && Version(head) in {2, 3} && Keyed(env, head, e)
    ensures var key := env.bindkey(SprintMac(head[5..]));
            |env.hex(key)| >= 12 && env.cipher(ExpandKey(env.hex(key))) == Some(e)
  {
    hide SprintMac, ExpandKey;
    var k := env.hex(env.bindkey(SprintMac(head[5..])));
    var k3 :| IsExpanded(k, k3) && env.cipher(k3) == Some(e);
    ExpandedIs(k, k3);
  }

  // ----- versions 4 and 5 --------------------------------------------------

  /** The frame taken apart: what the decoder reads from it. */
  lemma FramePieces(d: seq<byte>, head: seq<byte>, c: seq<byte>, counter: seq<byte>, tag: seq<byte>)
    requires |counter| == 3 && |tag| == 4 && d == head + c + counter + tag
    ensures d[|head|..|d| - 7] == c && d[|d| - 7..|d| - 4] == counter && d[|d| - 4..] == tag
  {}

  lemma NonceOfFrame(d: seq<byte>, head: seq<byte>, counter: seq<byte>)
    requires IsHead(head) && head <= d
    ensures Nonce4(d, counter) == Nonce4(head, counter)
    ensures Nonce1(d, counter) == Nonce1(head, counter)
  {
    SameHead(d, head);
  }

  /** Every frame sealed under the device's key decodes to its payload. */
  lemma SealedFrameParses(e: Cipher, head: seq<byte>, counter: seq<byte>, payload: seq<byte>, env: Env)
    requires IsHead(head) && IsEncrypted(head) && Version(head) in {4, 5} && |counter| == 3
    requires Keyed(env, head, e)
    requires 4 <= |payload| < 0x100_0000
    ensures ParseFrame(SealedFrame(e, head, counter, payload), env) == Decoding(head, payload)
  {
    hide Seal, Open, SprintMac, PayloadStart, Pow256;
    var nonce := Nonce4(head, counter);
    var sealed := Seal(e, nonce, 4, [0x11], payload);
    var d := SealedFrame(e, head, counter, payload);
    FramePieces(d, head, sealed[..|payload|], counter, sealed[|payload|..]);
    NonceOfFrame(d, head, counter);
    ParseEncrypted(d, head, env, e);
    assert sealed[..|payload|] + sealed[|payload|..] == sealed;
    Pow256Small();
    CcmTheorems.OpenIffSealed(e, nonce, 4, [0x11], sealed, payload);
  }

  /** A useful result means that the tag verified. */
  lemma UsefulOpens(e: Cipher, head: seq<byte>, d: seq<byte>, env: Env) returns (payload: seq<byte>)
    requires IsHead(head) && IsEncrypted(head) && Version(head) in {4, 5} && head <= d
    requires Keyed(env, head, e)
    requires ParseFrame(d, env).Parsed? && ParseFrame(d, env).useful == 2
    ensures |d| > |head| + 7 && |payload| >= 4
    ensures var n := |d|;
            Open(e, Nonce4(head, d[n - 7..n - 4]), 4, [0x11], d[|head|..n - 7] + d[n - 4..]) == Plain(payload)
  {
    hide Open, SprintMac, PayloadStart;
    ParseEncrypted(d, head, env, e);
    hide ParseFrame;
    var n := |d|;
    NonceOfFrame(d, head, d[n - 7..n - 4]);
    payload := Open(e, Nonce4(head, d[n - 7..n - 4]), 4, [0x11], d[|head|..n - 7] + d[n - 4..]).payload;
  }

  lemma SplitFrame(d: seq<byte>, h: nat)
    requires h + 7 <= |d|
    ensures var n := |d|;
            d == d[..h] + d[h..n - 7] + d[n - 7..n - 4] + d[n - 4..]
  {}

  /** Nothing else does: a useful result comes from a sealed frame. */
  lemma OnlySealedFramesParse(e: Cipher, head: seq<byte>, d: seq<byte>, env: Env) returns (payload: seq<byte>)
    requires IsHead(head) && IsEncrypted(head) && Version(head) in {4, 5} && head <= d
    requires Keyed(env, head, e)
    requires ParseFrame(d, env).Parsed? && ParseFrame(d, env).useful == 2
    ensures |d| >= |head| + 11 && 4 <= |payload| < 0x100_0000
    ensures d == SealedFrame(e, head, d[|d| - 7..|d| - 4], payload)
  {
    hide Seal, Open, ParseFrame, Keyed, IsHead, IsEncrypted, Pow256, Nonce4, SealedFrame;
    NonceSizes(head);
    payload := UsefulOpens(e, head, d, env);
    var n := |d|;
    CcmTheorems.OpenIffSealed(e, Nonce4(head, d[n - 7..n - 4]), 4, [0x11], d[|head|..n - 7] + d[n - 4..], payload);
    Pow256Small();
    AssembleFrame(e, head, d, payload);
  }

  lemma AssembleFrame(e: Cipher, head: seq<byte>, d: seq<byte>, payload: seq<byte>)
    requires |head| >= 11 && head <= d && |head| + 7 <= |d|
    requires var n := |d|;
             d[|head|..n - 7] + d[n - 4..] == Seal(e, Nonce4(head, d[n - 7..n - 4]), 4, [0x11], payload)
    ensures |d| == |head| + |payload| + 7
    ensures d == SealedFrame(e, head, d[|d| - 7..|d| - 4], payload)
  {
    hide Seal;
    var n := |d|;
    var c, tag := d[|head|..n - 7], d[n - 4..];
    assert (c + tag)[..|c|] == c && (c + tag)[|c|..] == tag;
    SplitFrame(d, |head|);
  }

  lemma NonceSizes(head: seq<byte>)
    requires IsHead(head)
    ensures |head| >= 11 && forall counter: seq<byte> :: |Nonce4(head, counter)| == 9 + |counter|
  {}

  /** What the parse answers when the payload stays unread. */
  function Unread(head: seq<byte>, comment: string, useful: byte): Outcome
    requires |head| >= 11
  {
    Parsed(Beacon(SprintMac(head[5..]), Uint16(head[2..]), 0, [], head[4], comment), useful)
  }

  /** A frame long enough to be sealed is answered with a wrong key exactly when
      no payload seals to it. */
  lemma WrongKeyIff(e: Cipher, head: seq<byte>, d: seq<byte>, env: Env)
    requires IsHead(head) && IsEncrypted(head) && Version(head) in {4, 5} && head <= d
    requires Keyed(env, head, e) && |head| + 7 < |d|
    ensures ParseFrame(d, env) == Unread(head, "wrong enc key", 1) <==>
            forall p :: 1 <= |p| < 0x100_0000 ==> d != SealedFrame(e, head, d[|d| - 7..|d| - 4], p)
  {
    hide Seal, Open, SprintMac, Pow256, SealedFrame, Keyed, Nonce4, ParseFrame, IsHead, IsEncrypted, Interpret;
    NonceSizes(head);
    OpenedParse(e, head, d, env);
    InterpretParses();
    if exists p :: 1 <= |p| < 0x100_0000 && d == SealedFrame(e, head, d[|d| - 7..|d| - 4], p) {
      var p :| 1 <= |p| < 0x100_0000 && d == SealedFrame(e, head, d[|d| - 7..|d| - 4], p);
      SealedOpens(e, head, d, p);
      InterpretComments(Beacon(SprintMac(head[5..]), Uint16(head[2..]), 0, [], head[4], ""), p);
    } else {
      OpensIfSealed(e, head, d);
    }
  }

  lemma InterpretComments(b: Beacon, p: seq<byte>)
    requires b.comment == ""
    ensures Interpret(b, p).b.comment != "wrong enc key"
  {}

  lemma SealedOpens(e: Cipher, head: seq<byte>, d: seq<byte>, p: seq<byte>)
    requires |head| >= 11 && |head| + 7 < |d| && 1 <= |p| < 0x100_0000
    requires d == SealedFrame(e, head, d[|d| - 7..|d| - 4], p)
    ensures var n := |d|;
            Open(e, Nonce4(head, d[n - 7..n - 4]), 4, [0x11], d[|head|..n - 7] + d[n - 4..]) == Plain(p)
  {
    hide Seal, Open, Pow256, SealedFrame;
    var counter := d[|d| - 7..|d| - 4];
    SealedPieces(e, head, counter, p);
    Pow256Small();
    CcmTheorems.OpenIffSealed(e, Nonce4(head, counter), 4, [0x11], d[|head|..|d| - 7] + d[|d| - 4..], p);
  }

  lemma OpensIfSealed(e: Cipher, head: seq<byte>, d: seq<byte>)
    requires |head| >= 11 && head <= d && |head| + 7 < |d|
    ensures var n := |d|;
            var result := Open(e, Nonce4(head, d[n - 7..n - 4]), 4, [0x11], d[|head|..n - 7] + d[n - 4..]);
            result.Plain? ==>
              1 <= |result.payload| < 0x100_0000 && d == SealedFrame(e, head, d[n - 7..n - 4], result.payload)
  {
    hide Seal, Open, Pow256, SealedFrame;
    var counter, sealed := d[|d| - 7..|d| - 4], d[|head|..|d| - 7] + d[|d| - 4..];
    var result := Open(e, Nonce4(head, counter), 4, [0x11], sealed);
    if result.Plain? {
      Pow256Small();
      CcmTheorems.OpenIffSealed(e, Nonce4(head, counter), 4, [0x11], sealed, result.payload);
      AssembleFrame(e, head, d, result.payload);
    }
  }

  lemma SealedPieces(e: Cipher, head: seq<byte>, counter: seq<byte>, p: seq<byte>)
    requires |head| >= 11 && |counter| == 3
    ensures var d := SealedFrame(e, head, counter, p);
            && |d| == |head| + |p| + 7 && head <= d && d[|d| - 7..|d| - 4] == counter
            && d[|head|..|d| - 7] + d[|d| - 4..] == Seal(e, Nonce4(head, counter), 4, [0x11], p)
  {
    hide Seal;
    var sealed := Seal(e, Nonce4(head, counter), 4, [0x11], p);
    var d := SealedFrame(e, head, counter, p);
    FramePieces(d, head, sealed[..|p|], counter, sealed[|p|..]);
    assert sealed[..|p|] + sealed[|p|..] == sealed;
  }

  /** The parse is what opening the joined ciphertext and tag says. */
  lemma OpenedParse(e: Cipher, head: seq<byte>, d: seq<byte>, env: Env)
    requires IsHead(head) && IsEncrypted(head) && Version(head) in {4, 5} && head <= d
    requires Keyed(env, head, e) && |head| + 7 < |d|
    ensures var n := |d|;
            ParseFrame(d, env) ==
            match Open(e, Nonce4(head, d[n - 7..n - 4]), 4, [0x11], d[|head|..n - 7] + d[n - 4..])
            case Plain(p) =>
              Interpret(Beacon(SprintMac(head[5..]), Uint16(head[2..]), 0, [], head[4], ""), p)
            case TooLong => Unread(head, "wrong enc key", 1)
            case AuthFailed => Unread(head, "wrong enc key", 1)
  {
    hide Open, SprintMac, PayloadStart;
    ParseEncrypted(d, head, env, e);
    NonceOfFrame(d, head, d[|d| - 7..|d| - 4]);
    hide ParseFrame, Interpret;
  }

  // ----- versions 2 and 3 --------------------------------------------------

  lemma LegacyPieces(d: seq<byte>, head: seq<byte>, c: seq<byte>, counter: seq<byte>, last: byte)
    requires |counter| == 3 && d == head + c + counter + [last]
    ensures d[|head|..|d| - 4] == c && d[|d| - 4..|d| - 1] == counter
  {}

  lemma LegacyFrameParses(e: Cipher, head: seq<byte>, counter: seq<byte>, last: byte, payload: seq<byte>, env: Env)
    requires IsHead(head) && IsEncrypted(head) && Version(head) in {2, 3} && |counter| == 3
    requires Keyed(env, head, e)
    requires 4 <= |payload| < 0x1_0000
    ensures ParseFrame(LegacyFrame(e, head, counter, last, payload), env) == Decoding(head, payload)
  {
    hide Seal, Open, SprintMac, PayloadStart, Pow256;
    var nonce := Nonce1(head, counter);
    var sealed := Seal(e, nonce, 0, [0x11], payload);
    var d := LegacyFrame(e, head, counter, last, payload);
    LegacyPieces(d, head, sealed, counter, last);
    NonceOfFrame(d, head, counter);
    ExpandedKeyed(head, env, e);
    ParseEncrypted(d, head, env, e);
    Pow256Small();
    CcmTheorems.OpenIffSealed(e, nonce, 0, [0x11], sealed, payload);
  }

  /** Without a tag, every string is the sealing of its own encryption. */
  lemma UntaggedSealing(e: Cipher, nonce: seq<byte>, c: seq<byte>)
    requires |nonce| == 13 && |c| < 0x1_0000
    ensures |CtrCrypt(e, nonce, c)| == |c|
    ensures Seal(e, nonce, 0, [0x11], CtrCrypt(e, nonce, c)) == c
  {
    hide CtrCrypt, MaskedTag, Pow256;
    CcmTheorems.CtrCryptTwice(e, nonce, c);
  }

  /** Without a tag every frame decodes: whatever stands where the ciphertext
      is expected is the encryption of something. */
  lemma EveryLegacyFrameParses(e: Cipher, head: seq<byte>, d: seq<byte>, env: Env) returns (payload: seq<byte>)
    requires IsHead(head) && IsEncrypted(head) && Version(head) in {2, 3} && head <= d
    requires Keyed(env, head, e)
    requires |head| + 8 <= |d| < |head| + 4 + 0x1_0000
    ensures |payload| == |d| - |head| - 4
    ensures d == LegacyFrame(e, head, d[|d| - 4..|d| - 1], d[|d| - 1], payload)
    ensures ParseFrame(d, env) == Decoding(head, payload)
  {
    hide SprintMac, PayloadStart, ParseFrame, Pow256, Seal, CtrCrypt, Decoding;
    var n := |d|;
    var counter, c := d[n - 4..n - 1], d[|head|..n - 4];
    var nonce := Nonce1(head, counter);
    payload := CtrCrypt(e, nonce, c);
    UntaggedSealing(e, nonce, c);
    assert d == head + c + counter + [d[n - 1]] by {
      assert d[..|head|] == head && d[n - 1..] == [d[n - 1]];
      assert d == d[..|head|] + d[|head|..n - 4] + d[n - 4..n - 1] + d[n - 1..];
    }
    LegacyFrameParses(e, head, counter, d[n - 1], payload, env);
  }

  /** The last byte of an encrypted frame of these versions plays no part,
      whatever the key. */
  lemma LegacyIgnoresLastByte(d: seq<byte>, last: byte, env: Env)
    requires |d| >= 13 && IsEncrypted(d) && Version(d) in {2, 3}
    ensures ParseFrame(d[|d| - 1 := last], env) == ParseFrame(d, env)
  {
    hide Open, SprintMac;
    var n, d' := |d|, d[|d| - 1 := last];
    MacOfPrefix(d, d');
    assert d'[2..][0] == d[2..][0] && d'[2..][1] == d[2..][1];
    var pos := PayloadStart(d);
    assert PayloadStart(d') == pos;
    if n - 4 > pos {
      assert d'[pos..n - 4] == d[pos..n - 4] && d'[n - 4..n - 1] == d[n - 4..n - 1];
      assert d'[0..5] == d[0..5] && d'[5..10] == d[5..10];
    }
  }

  lemma MacOfPrefix(d: seq<byte>, d': seq<byte>)
    requires |d| >= 11 && |d'| >= 11 && d[..11] == d'[..11]
    ensures SprintMac(d[5..]) == SprintMac(d'[5..])
  {
    assert forall i :: 0 <= i < 6 ==> d[5..][i] == d[..11][5 + i] == d'[..11][5 + i] == d'[5..][i];
  }

  // ----- from fields to fields ---------------------------------------------

  /** Little-endian 16-bit number. */
  function Le16(u: nat): (b: seq<byte>)
    requires u < 0x1_0000
    ensures |b| == 2 && Uint16(b) == u
  {
    [u % 256, u / 256]
  }

  /** What a device puts before the payload: the two control bytes, product,
      sequence number, address (lowest byte first) and capability fields. */
  datatype Fields = Fields(low: byte, high: byte, pdid: nat, sequence: byte, mac: seq<byte>, capability: seq<byte>)

  /** The control bytes announce address and payload; a capability byte of 24 to
      31 is followed by two bytes, and so is one with bit 5 set in version 5. */
  predicate IsFields(f: Fields) {
    && f.pdid < 0x1_0000 && |f.mac| == 6
    && f.low / 0x10 % 2 == 1 && f.low / 0x40 % 2 == 1
    && if f.low / 0x20 % 2 == 0 then f.capability == []
       else
         && f.capability != []
         && var c := f.capability[0];
            |f.capability| == if 24 <= c < 32 then 3 else if f.high / 16 == 5 && c / 0x20 % 2 == 1 then 3 else 1
  }

  function HeadOf(f: Fields): (head: seq<byte>)
    requires IsFields(f)
    ensures |head| >= 11
  {
    [f.low, f.high] + Le16(f.pdid) + [f.sequence] + f.mac + f.capability
  }

  /** Event id, one byte that the program skips, and event data. */
  function PayloadOf(eid: nat, skipped: byte, edata: seq<byte>): seq<byte>
    requires eid < 0x1_0000
  {
    Le16(eid) + [skipped] + edata
  }

  /** The useful result without comment that has these fields. */
  function Reading(f: Fields, eid: nat, edata: seq<byte>): Outcome
    requires IsFields(f)
  {
    Parsed(Beacon(SprintMac(f.mac), f.pdid, eid, edata, f.sequence, ""), 2)
  }

  /** The frame that a device of version 4 or 5 sends. */
  function SealedBytes(e: Cipher, f: Fields, counter: seq<byte>, payload: seq<byte>): seq<byte>
    requires IsFields(f) && |counter| == 3
  {
    var sealed := Seal(e, f.mac + Le16(f.pdid) + [f.sequence] + counter, 4, [0x11], payload);
    HeadOf(f) + sealed[..|payload|] + counter + sealed[|payload|..]
  }

  /** The frame that a device of version 2 or 3 sends. */
  function LegacyBytes(e: Cipher, f: Fields, counter: seq<byte>, last: byte, payload: seq<byte>): seq<byte>
    requires IsFields(f) && |counter| == 3
  {
    var nonce := [f.low, f.high] + Le16(f.pdid) + [f.sequence] + counter + f.mac[..5];
    HeadOf(f) + Seal(e, nonce, 0, [0x11], payload) + counter + [last]
  }

  lemma HeadOfFields(f: Fields)
    requires IsFields(f)
    ensures var h := HeadOf(f);
            && IsHead(h) && Version(h) == f.high / 16
            && IsEncrypted(h) == (f.low / 0x08 % 2 == 1) && HasTrailer(h) == (f.low / 0x80 % 2 == 1)
            && h[2..5] == Le16(f.pdid) + [f.sequence] && h[5..11] == f.mac && h[5..10] == f.mac[..5]
            && h[0..5] == [f.low, f.high] + Le16(f.pdid) + [f.sequence]
            && Uint16(h[2..]) == f.pdid && h[4] == f.sequence && SprintMac(h[5..]) == SprintMac(f.mac)
  {
    hide Hex2;
    var h := HeadOf(f);
    assert h[0] == f.low && h[1] == f.high && h[2..4] == Le16(f.pdid);
    assert h[5..11] == f.mac && h[11..] == f.capability;
    assert h[2..][0] == h[2..4][0] && h[2..][1] == h[2..4][1];
    assert forall i :: 0 <= i < 6 ==> h[5..][i] == h[5..11][i];
  }

  lemma DecodingOfFields(f: Fields, eid: nat, skipped: byte, edata: seq<byte>)
    requires IsFields(f) && eid < 0x1_0000 && edata != []
    ensures IsHead(HeadOf(f)) && |PayloadOf(eid, skipped, edata)| >= 4
    ensures Decoding(HeadOf(f), PayloadOf(eid, skipped, edata)) == Reading(f, eid, edata)
  {
    hide SprintMac, IsHead, HeadOf;
    HeadOfFields(f);
    var p := PayloadOf(eid, skipped, edata);
    assert p[3..] == edata && p[..2] == Le16(eid);
    assert p[0] == p[..2][0] && p[1] == p[..2][1];
  }

  /** Address, product, sequence number and an event, sealed as the devices do,
      come back as they were. */
  lemma SealedFieldsReturn(e: Cipher, f: Fields, counter: seq<byte>,
                           eid: nat, skipped: byte, edata: seq<byte>, env: Env)
    requires IsFields(f) && f.low / 0x08 % 2 == 1 && f.high / 16 in {4, 5}
    requires |counter| == 3 && eid < 0x1_0000 && 1 <= |edata| < 0x100_0000 - 3
    requires Keyed(env, HeadOf(f), e)
    ensures ParseFrame(SealedBytes(e, f, counter, PayloadOf(eid, skipped, edata)), env) == Reading(f, eid, edata)
  {
    hide Seal, ParseFrame, SprintMac, HeadOf, Keyed;
    HeadOfFields(f);
    DecodingOfFields(f, eid, skipped, edata);
    assert Nonce4(HeadOf(f), counter) == f.mac + Le16(f.pdid) + [f.sequence] + counter;
    SealedFrameParses(e, HeadOf(f), counter, PayloadOf(eid, skipped, edata), env);
  }

  lemma LegacyFieldsReturn(e: Cipher, f: Fields, counter: seq<byte>, last: byte,
                           eid: nat, skipped: byte, edata: seq<byte>, env: Env)
    requires IsFields(f) && f.low / 0x08 % 2 == 1 && f.high / 16 in {2, 3}
    requires |counter| == 3 && eid < 0x1_0000 && 1 <= |edata| < 0x1_0000 - 3
    requires Keyed(env, HeadOf(f), e)
    ensures ParseFrame(LegacyBytes(e, f, counter, last, PayloadOf(eid, skipped, edata)), env) == Reading(f, eid, edata)
  {
    hide Seal, ParseFrame, SprintMac, HeadOf, Keyed;
    HeadOfFields(f);
    DecodingOfFields(f, eid, skipped, edata);
    assert Nonce1(HeadOf(f), counter) == [f.low, f.high] + Le16(f.pdid) + [f.sequence] + counter + f.mac[..5];
    LegacyFrameParses(e, HeadOf(f), counter, last, PayloadOf(eid, skipped, edata), env);
  }

  /** The same for frames without encryption; version 5 may add two bytes. */
  lemma PlainFieldsReturn(f: Fields, trailer: seq<byte>, eid: nat, skipped: byte, edata: seq<byte>, env: Env)
    requires IsFields(f) && f.low / 0x08 % 2 == 0 && eid < 0x1_0000 && edata != []
    requires |trailer| == if f.high / 16 == 5 && f.low / 0x80 % 2 == 1 then 2 else 0
    ensures ParseFrame(HeadOf(f) + PayloadOf(eid, skipped, edata) + trailer, env) == Reading(f, eid, edata)
  {
    hide SprintMac, HeadOf, PayloadOf, PayloadStart;
    HeadOfFields(f);
    DecodingOfFields(f, eid, skipped, edata);
    var head, payload := HeadOf(f), PayloadOf(eid, skipped, edata);
    var d := head + payload + trailer;
    SameHead(d, head);
    assert HasTrailer(d) == HasTrailer(head) by { assert d[0] == head[0]; }
    PlainPieces(d, head, payload, trailer);
  }

  /** The frames whose tag is moved in the caller's buffer, on the fields. */
  lemma OverwritesIff(f: Fields, rest: seq<byte>, env: Env)
    requires IsFields(f)
    ensures var key := env.bindkey(SprintMac(f.mac));
            Overwrites(HeadOf(f) + rest, env) <==>
            && f.low / 0x08 % 2 == 1 && f.high / 16 in {4, 5} && |rest| >= 7
            && key != "" && env.cipher(env.hex(key)).Some?
  {
    hide SprintMac, HeadOf, PayloadStart, IsFields;
    HeadOfFields(f);
    SameHead(HeadOf(f) + rest, HeadOf(f));
  }

  // ----- frames whose payload is not read, or too small --------------------

  /** Without an address only product and sequence number are reported. */
  lemma NoMacReturns(low: byte, high: byte, pdid: nat, sequence: byte, rest: seq<byte>, env: Env)
    requires low / 0x10 % 2 == 0 && pdid < 0x1_0000
    ensures ParseFrame([low, high] + Le16(pdid) + [sequence] + rest, env) ==
            Parsed(Beacon("", pdid, 0, [], sequence, "no mac"), 0)
  {
    var d := [low, high] + Le16(pdid) + [sequence] + rest;
    assert d[2..][0] == pdid % 256 && d[2..][1] == pdid / 256;
  }

  lemma NoPayloadReturns(low: byte, high: byte, pdid: nat, sequence: byte, mac: seq<byte>, rest: seq<byte>, env: Env)
    requires low / 0x10 % 2 == 1 && low / 0x40 % 2 == 0 && pdid < 0x1_0000 && |mac| == 6
    ensures ParseFrame([low, high] + Le16(pdid) + [sequence] + mac + rest, env) ==
            Parsed(Beacon(SprintMac(mac), pdid, 0, [], sequence, "no payload"), 0)
  {
    hide Hex2;
    var d := [low, high] + Le16(pdid) + [sequence] + mac + rest;
    assert d[2..][0] == pdid % 256 && d[2..][1] == pdid / 256;
    assert d[5..] == mac + rest;
  }

  /** An encrypted frame of an unknown device is reported as such; one of a
      known device in a version without a decoder is blamed on the key. */
  lemma UndecodedReturns(f: Fields, rest: seq<byte>, env: Env)
    requires IsFields(f) && f.low / 0x08 % 2 == 1
    ensures env.bindkey(SprintMac(f.mac)) == "" ==>
              ParseFrame(HeadOf(f) + rest, env) ==
              Parsed(Beacon(SprintMac(f.mac), f.pdid, 0, [], f.sequence, "encrypted"), 1)
    ensures env.bindkey(SprintMac(f.mac)) != "" && f.high / 16 !in {2, 3, 4, 5} ==>
              ParseFrame(HeadOf(f) + rest, env) ==
              Parsed(Beacon(SprintMac(f.mac), f.pdid, 0, [], f.sequence, "wrong enc key"), 1)
  {
    hide SprintMac, HeadOf, PayloadStart, IsFields, Decode1, Decode4, Interpret;
    HeadOfFields(f);
    SameHead(HeadOf(f) + rest, HeadOf(f));
  }

  /** Payloads of less than four bytes are reported whole and count as useless. */
  lemma SmallPayloadReturns(f: Fields, trailer: seq<byte>, p: seq<byte>, env: Env)
    requires IsFields(f) && f.low / 0x08 % 2 == 0 && |p| < 4
    requires |trailer| == if f.high / 16 == 5 && f.low / 0x80 % 2 == 1 then 2 else 0
    ensures ParseFrame(HeadOf(f) + p + trailer, env) ==
            Parsed(Beacon(SprintMac(f.mac), f.pdid, 0, p, f.sequence, "small payload"), 0)
  {
    hide SprintMac, HeadOf, PayloadStart, IsFields;
    HeadOfFields(f);
    var head := HeadOf(f);
    var d := head + p + trailer;
    SameHead(d, head);
    assert HasTrailer(d) == HasTrailer(head) by { assert d[0] == head[0]; }
    PlainPieces(d, head, p, trailer);
  }

  lemma SmallSealedReturns(e: Cipher, f: Fields, counter: seq<byte>, p: seq<byte>, env: Env)
    requires IsFields(f) && f.low / 0x08 % 2 == 1 && f.high / 16 in {4, 5} && |counter| == 3
    requires 1 <= |p| < 4 && Keyed(env, HeadOf(f), e)
    ensures ParseFrame(SealedBytes(e, f, counter, p), env) ==
            Parsed(Beacon(SprintMac(f.mac), f.pdid, 0, p, f.sequence, "small payload"), 0)
  {
    hide Seal, Open, ParseFrame, SprintMac, HeadOf, Keyed, IsFields, Pow256;
    HeadOfFields(f);
    var head := HeadOf(f);
    assert Nonce4(head, counter) == f.mac + Le16(f.pdid) + [f.sequence] + counter;
    SealedPieces(e, head, counter, p);
    OpenedParse(e, head, SealedFrame(e, head, counter, p), env);
    Pow256Small();
    CcmTheorems.OpenIffSealed(e, Nonce4(head, counter), 4, [0x11], Seal(e, Nonce4(head, counter), 4, [0x11], p), p);
  }

  lemma PlainPieces(d: seq<byte>, head: seq<byte>, payload: seq<byte>, trailer: seq<byte>)
    requires d == head + payload + trailer
    ensures d[|head|..|d| - |trailer|] == payload
    ensures trailer == [] ==> d[|head|..] == payload
  {}
}
