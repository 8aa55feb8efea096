/** gap/mibeacon.go: Xiaomi MiBeacon frames, plain and encrypted. */
module MiBeacon {
  import opened Bytes
  import opened CcmSpec
  import opened Crypt
  import opened Gap

  /** What the program takes from outside: the bind keys by address (empty when
      unknown), the hex decoder, and the construction of the block cipher, which
      refuses keys of the wrong size. */
  datatype Env = Env(
    bindkey: string -> string,
    hex: string -> seq<byte>,
    cipher: seq<byte> -> Option<Cipher>)

  datatype Beacon = Beacon(mac: string, pdid: nat, eid: nat, edata: seq<byte>, sequence: byte, comment: string)

  /** The beacon and how useful it is, or an index out of range. */
  datatype Outcome = Parsed(b: Beacon, useful: byte) | OutOfRange

  datatype Decoded = Payload(p: seq<byte>) | NoPayload | DecodeOutOfRange

  // ----- specification -----------------------------------------------------

  // The bits of the frame control field that the program looks at.

  predicate IsEncrypted(d: seq<byte>)
    requires |d| >= 1
  {
    d[0] / 0x08 % 2 == 1
  }

  predicate HasMac(d: seq<byte>)
    requires |d| >= 1
  {
    d[0] / 0x10 % 2 == 1
  }

  predicate HasCapability(d: seq<byte>)
    requires |d| >= 1
  {
    d[0] / 0x20 % 2 == 1
  }

  predicate HasPayload(d: seq<byte>)
    requires |d| >= 1
  {
    d[0] / 0x40 % 2 == 1
  }

  predicate HasTrailer(d: seq<byte>)
    requires |d| >= 1
  {
    d[0] / 0x80 % 2 == 1
  }

  function Version(d: seq<byte>): nat
    requires |d| >= 2
  {
    d[1] / 16
  }

  /** Where the payload starts, after the address and the capability fields. */
  function PayloadStart(d: seq<byte>): (i: nat)
    requires |d| >= 11 && (HasCapability(d) ==> |d| >= 12)
    ensures i in {11, 12, 14}
  {
    if !HasCapability(d) then 11
    else 12 + (if d[11] / 8 == 3 then 2 else 0) + (if Version(d) == 5 && d[11] / 0x20 % 2 == 1 then 2 else 0)
  }

  /** Nonce of versions 4 and 5: address, product and sequence number, counter. */
  function Nonce4(d: seq<byte>, counter: seq<byte>): seq<byte>
    requires |d| >= 11
  {
    d[5..11] + d[2..5] + counter
  }

  /** Nonce of versions 2 and 3. */
  function Nonce1(d: seq<byte>, counter: seq<byte>): seq<byte>
    requires |d| >= 10
  {
    d[0..5] + counter + d[5..10]
  }

  /** The 12-byte bind key of versions 2 and 3 with four fixed bytes inside. */
  function ExpandKey(k: seq<byte>): seq<byte>
    requires |k| >= 12
  {
    k[..6] + [0x8d, 0x3d, 0x3c, 0x97] + k[6..12]
  }

  function Opening(r: Opened): Decoded {
    match r
    case Plain(p) => Payload(p)
    case TooLong => NoPayload
    case AuthFailed => NoPayload
  }

  function Decode4(d: seq<byte>, pos: nat, key: string, env: Env): Decoded
    requires |d| >= 11
  {
    match env.cipher(env.hex(key))
    case None => NoPayload
    case Some(e) =>
      var n := |d|;
      if n - 7 <= pos then DecodeOutOfRange
      else Opening(Open(e, Nonce4(d, d[n - 7..n - 4]), 4, [0x11], d[pos..n - 7] + d[n - 4..]))
  }

  function Decode1(d: seq<byte>, pos: nat, key: string, env: Env): Decoded
    requires |d| >= 11
  {
    var k := env.hex(key);
    if |k| < 12 then DecodeOutOfRange
    else
      match env.cipher(ExpandKey(k))
      case None => NoPayload
      case Some(e) =>
        var n := |d|;
        if n - 4 <= pos then DecodeOutOfRange
        else Opening(Open(e, Nonce1(d, d[n - 4..n - 1]), 0, [0x11], d[pos..n - 4]))
  }

  /** The last step: event id and data of a payload that is long enough. */
  function Interpret(b: Beacon, payload: seq<byte>): Outcome {
    if |payload| < 4 then Parsed(b.(edata := payload, comment := "small payload"), 0)
    else Parsed(b.(eid := Uint16(payload), edata := payload[3..]), 2)
  }

  /** An address is known: find the payload. */
  function ParseBody(b: Beacon, d: seq<byte>, env: Env): Outcome
    requires |d| >= 11
  {
    if HasCapability(d) && |d| < 12 then OutOfRange
    else
      var i := PayloadStart(d);
      if IsEncrypted(d) then
        var key := env.bindkey(b.mac);
        if key == "" then Parsed(b.(comment := "encrypted"), 1)
        else
          var decoded :=
            if Version(d) in {2, 3} then Decode1(d, i, key, env)
            else if Version(d) in {4, 5} then Decode4(d, i, key, env)
            else NoPayload;
          match decoded
          case Payload(p) => Interpret(b, p)
          case NoPayload => Parsed(b.(comment := "wrong enc key"), 1)
          case DecodeOutOfRange => OutOfRange
      else if Version(d) == 5 && HasTrailer(d) then
        if |d| - 2 < i then OutOfRange else Interpret(b, d[i..|d| - 2])
      else
        if |d| < i then OutOfRange else Interpret(b, d[i..])
  }

  function ParseFrame(d: seq<byte>, env: Env): Outcome {
    if |d| < 5 then OutOfRange
    else
      var b := Beacon("", Uint16(d[2..]), 0, [], d[4], "");
      if !HasMac(d) then Parsed(b.(comment := "no mac"), 0)
      else if |d| < 11 then OutOfRange
      else
        var known := b.(mac := SprintMac(d[5..]));
        if !HasPayload(d) then Parsed(known.(comment := "no payload"), 0)
        else ParseBody(known, d, env)
  }

  // ----- when a frame is too short -----------------------------------------

  /** Some index that the parse reaches lies outside the frame. */
  predicate TooShort(d: seq<byte>, env: Env) {
    |d| < 5
    || (HasMac(d)
        && (|d| < 11
            || (HasPayload(d)
                && ((HasCapability(d) && |d| < 12) || BodyTooShort(d, env)))))
  }

  /** The same past the head: encrypted frames need the counter, the tag and at
      least one byte of ciphertext, if their key makes a cipher. */
  predicate BodyTooShort(d: seq<byte>, env: Env)
    requires |d| >= 11 && (HasCapability(d) ==> |d| >= 12)
  {
    var i, key := PayloadStart(d), env.bindkey(SprintMac(d[5..]));
    if !IsEncrypted(d) then |d| < i + (if Version(d) == 5 && HasTrailer(d) then 2 else 0)
    else
      && key != ""
      && if Version(d) in {2, 3} then
           |env.hex(key)| < 12 || (env.cipher(ExpandKey(env.hex(key))).Some? && |d| <= i + 4)
         else
           Version(d) in {4, 5} && env.cipher(env.hex(key)).Some? && |d| <= i + 7
  }

  lemma OutOfRangeIff(d: seq<byte>, env: Env)
    ensures ParseFrame(d, env) == OutOfRange <==> TooShort(d, env)
  {
    hide Open, SprintMac, Interpret;
    if |d| >= 11 {
      InterpretParses();
    }
  }

  lemma InterpretParses()
    ensures forall b, p :: Interpret(b, p).Parsed?
  {}

  // ----- turning a beacon into values --------------------------------------

  /** How many bytes of event data `Decode` reads without asking for the length. */
  function NeededLength(eid: nat): nat {
    if eid == 0x000B then 9
    else if eid in {0x0007, 0x0008, 0x1002, 0x1003, 0x1008, 0x100A, 0x100E, 0x100F,
                    0x1012, 0x1013, 0x1014, 0x1015, 0x1016, 0x1018, 0x1019} then 1
    else 0
  }

  /** `Decode` indexes past the event data. */
  predicate DecodeFaults(b: Beacon) {
    |b.edata| < NeededLength(b.eid)
  }

  /** Of the beacons that are decoded, this happens to short lock events only. */
  lemma DecodeFaultsIff(d: seq<byte>, env: Env)
    requires ParseFrame(d, env).Parsed? && ParseFrame(d, env).useful > 0
    ensures var b := ParseFrame(d, env).b;
            DecodeFaults(b) <==> b.eid == 0x000B && |b.edata| < 9
  {
    hide Decode1, Decode4, SprintMac, Uint16;
  }

  // ----- the effect on the caller's buffer ---------------------------------

  /** The four tag bytes that end at `hi`, moved down over the counter. */
  function TagOverCounter(buf: seq<byte>, hi: nat): seq<byte>
    requires 7 <= hi <= |buf|
  {
    buf[..hi - 7] + buf[hi - 4..hi] + buf[hi - 3..]
  }

  /** The frames whose parse does that: those that decryption with a tag is
      attempted on. */
  predicate Overwrites(d: seq<byte>, env: Env)
    ensures Overwrites(d, env) ==> |d| >= 11
  {
    && |d| >= 11 && HasMac(d) && HasPayload(d) && (HasCapability(d) ==> |d| >= 12)
    && IsEncrypted(d) && Version(d) in {4, 5}
    && var key := env.bindkey(SprintMac(d[5..]));
       key != "" && env.cipher(env.hex(key)).Some? && |d| - 7 >= PayloadStart(d)
  }

  // ----- the code ----------------------------------------------------------

  /** A fresh AEAD object opens `ciphertext`, as both decoders do. */
  method OpenWith(c: Cipher, nonce: seq<byte>, tagSize: nat, ciphertext: seq<byte>) returns (r: Decoded)
    requires LegalSizes(|nonce|, tagSize) && |ciphertext| > tagSize
    ensures r == Opening(Open(c, nonce, tagSize, [0x11], ciphertext))
  {
    hide Open;
    var ccm := new Ccm(c, |nonce|, tagSize);
    var plain := ccm.Open([], nonce, ciphertext, [0x11]);
    match plain {
      case Plain(p) =>
        assert [] + p == p;
        r := Payload(p);
      case TooLong => r := NoPayload;
      case AuthFailed => r := NoPayload;
    }
  }

  /** The frame is `buf[lo..hi]`. The ciphertext and the tag are joined by
      appending inside that buffer, which overwrites the counter and the first
      tag byte; the nonce has been copied out before. */
  method Decode4InPlace(buf: array<byte>, lo: nat, hi: nat, pos: nat, key: string, env: Env) returns (r: Decoded)
    requires lo + 11 <= hi <= buf.Length
    modifies buf
    ensures r == Decode4(old(buf[lo..hi]), pos, key, env)
    ensures buf[..] == if env.cipher(env.hex(key)).Some? && hi - lo - 7 >= pos
                       then TagOverCounter(old(buf[..]), hi) else old(buf[..])
  {
    hide Open, Opening, Nonce4, TagOverCounter;
    ghost var whole, d := buf[..], buf[lo..hi];
    var key2 := env.hex(key);
    var c := env.cipher(key2);
    if c.None? {
      return NoPayload;
    }

    var nonce: seq<byte> := buf[lo + 5..lo + 11];
    nonce := nonce + buf[lo + 2..lo + 5];
    nonce := nonce + buf[hi - 7..hi - 4];
    NonceInBuffer(whole, lo, hi);

    if hi - 7 < lo + pos {
      return DecodeOutOfRange;
    }
    TagMoved(whole, hi);
    CopyInto(buf, hi - 7, buf[hi - 4..hi]);
    if hi - 7 == lo + pos {
      // `Open` refuses an empty payload.
      return DecodeOutOfRange;
    }
    var ciphertext := buf[lo + pos..hi - 3];
    CiphertextInBuffer(whole, lo, hi, pos);
    r := OpenWith(c.value, nonce, 4, ciphertext);
  }

  lemma TagMoved(whole: seq<byte>, hi: nat)
    requires 7 <= hi <= |whole|
    ensures |TagOverCounter(whole, hi)| == |whole|
    ensures TagOverCounter(whole, hi) == whole[..hi - 7] + whole[hi - 4..hi] + whole[hi - 3..]
  {}

  lemma NonceInBuffer(whole: seq<byte>, lo: nat, hi: nat)
    requires lo + 11 <= hi <= |whole|
    ensures var d := whole[lo..hi];
            whole[lo + 5..lo + 11] + whole[lo + 2..lo + 5] + whole[hi - 7..hi - 4] == Nonce4(d, d[|d| - 7..|d| - 4])
  {
    SliceOfSlice(whole, lo, hi, 5, 11);
    SliceOfSlice(whole, lo, hi, 2, 5);
    SliceOfSlice(whole, lo, hi, hi - lo - 7, hi - lo - 4);
  }

  lemma CiphertextInBuffer(whole: seq<byte>, lo: nat, hi: nat, pos: nat)
    requires lo + 11 <= hi <= |whole| && lo + pos < hi - 7
    ensures var d := whole[lo..hi];
            TagOverCounter(whole, hi)[lo + pos..hi - 3] == d[pos..|d| - 7] + d[|d| - 4..]
  {
    SliceOfSlice(whole, lo, hi, pos, hi - lo - 7);
    SliceOfSlice(whole, lo, hi, hi - lo - 4, hi - lo);
    var moved := whole[..hi - 7] + whole[hi - 4..hi];
    assert TagOverCounter(whole, hi) == moved + whole[hi - 3..];
    assert TagOverCounter(whole, hi)[lo + pos..hi - 3] == moved[lo + pos..];
  }

  method Decode1FromFrame(d: seq<byte>, pos: nat, key: string, env: Env) returns (r: Decoded)
    requires |d| >= 11
    ensures r == Decode1(d, pos, key, env)
  {
    hide Open;
    var key2 := env.hex(key);
    if |key2| < 12 {
      return DecodeOutOfRange;
    }
    var key3: seq<byte> := key2[..6];
    key3 := key3 + [0x8d, 0x3d, 0x3c, 0x97];
    key3 := key3 + key2[6..12];
    var c := env.cipher(key3);
    if c.None? {
      return NoPayload;
    }

    var nonce: seq<byte> := d[0..5];
    nonce := nonce + d[|d| - 4..|d| - 1];
    nonce := nonce + d[5..10];

    if |d| - 4 <= pos {
      return DecodeOutOfRange;
    }
    r := OpenWith(c.value, nonce, 0, d[pos..|d| - 4]);
  }

  method ParseMiBeacon(buf: array<byte>, lo: nat, hi: nat, env: Env) returns (r: Outcome)
    requires lo <= hi <= buf.Length
    modifies buf
    ensures r == ParseFrame(old(buf[lo..hi]), env)
    ensures buf[..] == if Overwrites(old(buf[lo..hi]), env) then TagOverCounter(old(buf[..]), hi) else old(buf[..])
  {
    hide Decode4, Decode1, SprintMac, Uint16, TagOverCounter;
    var d := buf[lo..hi];
    if |d| < 5 {
      return OutOfRange;
    }
    var b := Beacon("", Uint16(d[2..]), 0, [], d[4], "");
    if d[0] / 0x10 % 2 == 0 {
      return Parsed(b.(comment := "no mac"), 0);
    }
    if |d| < 11 {
      return OutOfRange;
    }
    b := b.(mac := SprintMac(d[5..]));
    if d[0] / 0x40 % 2 == 0 {
      return Parsed(b.(comment := "no payload"), 0);
    }
    var version := d[1] / 16;
    var i := 5 + 6;
    if d[0] / 0x20 % 2 == 1 {
      if |d| <= i {
        return OutOfRange;
      }
      var capab := d[i];
      i := i + 1;
      if capab / 8 == 3 {
        i := i + 2;
      }
      if version == 5 && capab / 0x20 % 2 == 1 {
        i := i + 2;
      }
    }
    assert i == PayloadStart(d);

    var payload: seq<byte>;
    if d[0] / 0x08 % 2 == 1 {
      var key := env.bindkey(b.mac);
      if key == "" {
        return Parsed(b.(comment := "encrypted"), 1);
      }
      var decoded := NoPayload;
      if version == 2 || version == 3 {
        decoded := Decode1FromFrame(d, i, key, env);
      } else if version == 4 || version == 5 {
        decoded := Decode4InPlace(buf, lo, hi, i, key, env);
      }
      match decoded {
        case Payload(p) => payload := p;
        case NoPayload => return Parsed(b.(comment := "wrong enc key"), 1);
        case DecodeOutOfRange => return OutOfRange;
      }
    } else if version == 5 && d[0] / 0x80 % 2 == 1 {
      if |d| - 2 < i {
        return OutOfRange;
      }
      payload := d[i..|d| - 2];
    } else {
      if |d| < i {
        return OutOfRange;
      }
      payload := d[i..];
    }

    if |payload| < 4 {
      return Parsed(b.(edata := payload, comment := "small payload"), 0);
    }
    return Parsed(b.(eid := Uint16(payload), edata := payload[3..]), 2);
  }
}
