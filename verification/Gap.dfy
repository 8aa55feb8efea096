/** gap/gap.go: parsing a scan response and its advertising data. */
module Gap {
  import opened Bytes

  /** Little-endian 16-bit number at the start of `b`. */
  function Uint16(b: seq<byte>): nat
    requires |b| >= 2
  {
    var low: int, high: int := b[0], b[1];
    low + 256 * high
  }

  function Int8(b: byte): int {
    if b < 128 then b else b - 256
  }

  const HEX: string := "0123456789ABCDEF"

  function Hex2(b: byte): string {
    [HEX[b / 16], HEX[b % 16]]
  }

  /** The address is sent lowest byte first and printed highest byte first. */
  function SprintMac(b: seq<byte>): string
    requires |b| >= 6
  {
    Hex2(b[5]) + ":" + Hex2(b[4]) + ":" + Hex2(b[3]) + ":" + Hex2(b[2]) + ":" + Hex2(b[1]) + ":" + Hex2(b[0])
  }

  /** Different addresses are printed differently, so a bind key is looked up
      for one device only. */
  lemma SprintMacInjective(a: seq<byte>, b: seq<byte>)
    requires |a| == 6 && |b| == 6
    ensures SprintMac(a) == SprintMac(b) <==> a == b
  {
    if SprintMac(a) == SprintMac(b) {
      forall i | 0 <= i < 6
        ensures a[i] == b[i]
      {
        MacDigits(a, i);
        MacDigits(b, i);
        Hex2Injective(a[i], b[i]);
      }
    }
  }

  lemma MacDigits(a: seq<byte>, i: nat)
    requires |a| >= 6 && i < 6
    ensures |SprintMac(a)| == 17
    ensures SprintMac(a)[3 * (5 - i)..3 * (5 - i) + 2] == Hex2(a[i])
  {
    Hex2Lengths(a);
    hide Hex2;
    var five, four, three := Hex2(a[5]) + ":", Hex2(a[4]) + ":", Hex2(a[3]) + ":";
    var two, one, zero := Hex2(a[2]) + ":", Hex2(a[1]) + ":", Hex2(a[0]);
    assert SprintMac(a) == five + four + three + two + one + zero;
    if i >= 3 {
      assert SprintMac(a)[..9] == five + four + three;
    } else {
      assert SprintMac(a)[9..] == two + one + zero;
    }
  }

  /** Byte `i` is printed as the pair of digits 5 - i, the higher digit first
      and letters in upper case; a colon stands between pairs. */
  lemma SprintMacShows(a: seq<byte>, i: nat)
    requires |a| >= 6 && i < 6
    ensures |SprintMac(a)| == 17
    ensures SprintMac(a)[3 * (5 - i)] == "0123456789ABCDEF"[a[i] / 16]
    ensures SprintMac(a)[3 * (5 - i) + 1] == "0123456789ABCDEF"[a[i] % 16]
    ensures i > 0 ==> SprintMac(a)[3 * (5 - i) + 2] == ':'
  {
    MacDigits(a, i);
    var pair := SprintMac(a)[3 * (5 - i)..3 * (5 - i) + 2];
    assert pair[0] == Hex2(a[i])[0] && pair[1] == Hex2(a[i])[1];
    MacColons(a);
  }

  lemma MacColons(a: seq<byte>)
    requires |a| >= 6
    ensures |SprintMac(a)| == 17
    ensures SprintMac(a)[2] == SprintMac(a)[5] == SprintMac(a)[8] == SprintMac(a)[11] == SprintMac(a)[14] == ':'
  {
    Hex2Lengths(a);
    hide Hex2;
  }

  lemma Hex2Lengths(a: seq<byte>)
    ensures forall i :: 0 <= i < |a| ==> |Hex2(a[i])| == 2
  {}

  lemma Hex2Injective(a: byte, b: byte)
    requires Hex2(a) == Hex2(b)
    ensures a == b
  {
    DigitsDiffer(a / 16, b / 16);
    DigitsDiffer(a % 16, b % 16);
    assert Hex2(a)[0] == Hex2(b)[0] && Hex2(a)[1] == Hex2(b)[1];
  }

  lemma DigitsDiffer(i: nat, j: nat)
    requires i < 16 && j < 16
    ensures HEX[i] == HEX[j] <==> i == j
  {}

  datatype Message = Message(
    packetType: byte, mac: string, rand: byte, rssi: int,
    brand: string, name: seq<byte>, comment: string, useful: byte,
    serviceUuid: nat, companyId: nat, raw: map<byte, seq<byte>>)

  const BRANDS: map<nat, string> := map[
    0x0006 := "Microsoft", 0x004C := "Apple", 0x0075 := "Samsung",
    0x00E0 := "Google", 0x0157 := "Huami", 0x05A7 := "Sonos"]

  // ----- specification -----------------------------------------------------

  /** One advertising structure: length byte, type byte, payload. */
  datatype AdStruct = AdStruct(kind: byte, payload: seq<byte>)

  predicate Accepted(kind: byte) {
    1 <= kind <= 0x2D || kind == 0xFF
  }

  predicate WrongLength(d: seq<byte>)
    requires d != []
  {
    d[0] < 2 || d[0] >= |d|
  }

  predicate WrongKind(d: seq<byte>)
    requires |d| >= 2
  {
    (0x2D < d[1] < 0xFF) || d[1] == 0
  }

  /** What one structure does to the message; `tail` is its payload and all
      that follows, since the 16-bit reads are not bounded by the structure.
      No result stands for an index out of range. */
  function Apply(msg: Message, s: AdStruct, tail: seq<byte>): Option<Message> {
    var m := msg.(raw := msg.raw[s.kind := s.payload]);
    match s.kind
    case 0x08 => Some(m.(name := s.payload))
    case 0x09 => Some(m.(name := s.payload))
    case 0x16 =>
      if |tail| < 2 then None
      else
        var uuid := Uint16(tail);
        if uuid == 0xFE95 then Some(m.(serviceUuid := uuid, brand := "Xiaomi", useful := 1))
        else if uuid == 0xFE9F then Some(m.(serviceUuid := uuid, brand := "Google", useful := 0))
        else Some(m.(serviceUuid := uuid, useful := 1))
    case 0x2A => Some(m.(comment := "Mesh Message", useful := 0))
    case 0x2B => Some(m.(comment := "Mesh Beacon", useful := 0))
    case 0xFF =>
      if |tail| < 2 then None
      else
        var cid := Uint16(tail);
        Some(m.(companyId := cid, brand := if cid in BRANDS then BRANDS[cid] else m.brand, useful := 1))
    case _ => Some(m)
  }

  function ApplyAll(msg: Message, d: seq<byte>): Option<Message>
    decreases |d|
  {
    if d == [] then Some(msg)
    else if WrongLength(d) then Some(msg.(comment := "wrong len", useful := 0))
    else if WrongKind(d) then Some(msg.(comment := "wrong adv type", useful := 0))
    else
      match Apply(msg, AdStruct(d[1], d[2..d[0] + 1]), d[2..])
      case None => None
      case Some(m) => ApplyAll(m, d[d[0] + 1..])
  }

  lemma ApplyAllStep(msg: Message, d: seq<byte>)
    ensures d == [] ==> ApplyAll(msg, d) == Some(msg)
    ensures d != [] && WrongLength(d) ==> ApplyAll(msg, d) == Some(msg.(comment := "wrong len", useful := 0))
    ensures d != [] && !WrongLength(d) && WrongKind(d) ==>
              ApplyAll(msg, d) == Some(msg.(comment := "wrong adv type", useful := 0))
    ensures d != [] && !WrongLength(d) && !WrongKind(d) ==>
              var applied := Apply(msg, AdStruct(d[1], d[2..d[0] + 1]), d[2..]);
              ApplyAll(msg, d) == if applied.None? then None else ApplyAll(applied.value, d[d[0] + 1..])
  {}

  function Start(data: seq<byte>): Message
    requires |data| >= 15
  {
    Message(data[5], SprintMac(data[6..12]), data[12], Int8(data[4]), "", [], "", 0, 0, 0, map[])
  }

  /** The whole parse; no result stands for an index out of range. */
  function ParseResponse(data: seq<byte>): Option<Message> {
    if |data| < 15 then None else ApplyAll(Start(data), data[15..])
  }

  // ----- the loop ----------------------------------------------------------

  /** The body of the loop once the structure is delimited; `tail` starts at
      the payload and runs to the end of the data. */
  method ApplyType(msg: Message, advType: byte, payload: seq<byte>, tail: seq<byte>) returns (r: Option<Message>)
    ensures r == Apply(msg, AdStruct(advType, payload), tail)
  {
    var m := msg.(raw := msg.raw[advType := payload]);
    if advType == 0x08 || advType == 0x09 {
      m := m.(name := payload);
    } else if advType == 0x16 {
      if |tail| < 2 {
        return None;
      }
      m := m.(serviceUuid := Uint16(tail));
      if m.serviceUuid == 0xFE95 {
        m := m.(brand := "Xiaomi", useful := 1);
      } else if m.serviceUuid == 0xFE9F {
        m := m.(brand := "Google", useful := 0);
      } else {
        m := m.(useful := 1);
      }
    } else if advType == 0x2A {
      m := m.(comment := "Mesh Message", useful := 0);
    } else if advType == 0x2B {
      m := m.(comment := "Mesh Beacon", useful := 0);
    } else if advType == 0xFF {
      if |tail| < 2 {
        return None;
      }
      m := m.(companyId := Uint16(tail));
      if m.companyId in BRANDS {
        m := m.(brand := BRANDS[m.companyId]);
      }
      m := m.(useful := 1);
    }
    return Some(m);
  }

  method ParseScanResponse(response: seq<byte>) returns (r: Option<Message>)
    ensures r == ParseResponse(response)
  {
    hide Apply, ApplyAll, SprintMac;
    if |response| < 15 {
      return None;
    }
    var msg := Message(response[5], SprintMac(response[6..12]), response[12], Int8(response[4]),
                       "", [], "", 0, 0, 0, map[]);
    var data := response[15..];
    var i := 0;
    while i < |data|
      invariant i <= |data|
      invariant ApplyAll(msg, data[i..]) == ParseResponse(response)
    {
      ghost var d := data[i..];
      ApplyAllStep(msg, d);
      var l: int := data[i];
      if l < 2 || i + l >= |data| {
        return Some(msg.(comment := "wrong len", useful := 0));
      }
      var advType := data[i + 1];
      if (0x2D < advType && advType < 0xFF) || advType == 0 {
        return Some(msg.(comment := "wrong adv type", useful := 0));
      }
      var payload := data[i + 2..i + l + 1];
      assert d == data[i..|data|];
      SliceOfSlice(data, i, |data|, 2, l + 1);
      DropDrop(data, i, 2);
      DropDrop(data, i, l + 1);
      var applied := ApplyType(msg, advType, payload, data[i + 2..]);
      if applied.None? {
        return None;
      }
      msg := applied.value;
      i := i + 1 + l;
    }
    // The source tests `i != len(data)` here; the invariant rules it out.
    assert i == |data| && data[i..] == [];
    ApplyAllStep(msg, data[i..]);
    r := Some(msg);
  }

  // ----- what a parse means ------------------------------------------------

  /** The longest prefix of `d` made of whole structures of accepted types. */
  function Structures(d: seq<byte>): (list: seq<AdStruct>)
    ensures AllEncodable(list)
    decreases |d|
  {
    if d == [] || WrongLength(d) || WrongKind(d) then []
    else [AdStruct(d[1], d[2..d[0] + 1])] + Structures(d[d[0] + 1..])
  }

  predicate Encodable(s: AdStruct) {
    Accepted(s.kind) && 1 <= |s.payload| <= 254
  }

  predicate AllEncodable(list: seq<AdStruct>) {
    forall i :: 0 <= i < |list| ==> Encodable(list[i])
  }

  function Encode(list: seq<AdStruct>): seq<byte>
    requires AllEncodable(list)
  {
    if list == [] then []
    else [1 + |list[0].payload|, list[0].kind] + list[0].payload + Encode(list[1..])
  }

  function Kinds(list: seq<AdStruct>): set<byte> {
    set i | 0 <= i < |list| :: list[i].kind
  }

  /** No later structure has the type of structure `i`. */
  predicate IsLast(list: seq<AdStruct>, i: nat)
    requires i < |list|
  {
    forall j :: i < j < |list| ==> list[j].kind != list[i].kind
  }

  /** `raw` holds, for each type that occurs, the payload of its last occurrence. */
  ghost predicate LastWins(list: seq<AdStruct>, raw: map<byte, seq<byte>>) {
    && raw.Keys == Kinds(list)
    && forall i :: 0 <= i < |list| && IsLast(list, i) ==> list[i].kind in raw && raw[list[i].kind] == list[i].payload
  }

  /** Parsing the prefix and encoding it again gives the consumed bytes, and
      what is left, if anything, is not a structure the loop accepts. */
  lemma {:induction false} StructuresAreLongestPrefix(d: seq<byte>)
    ensures Encode(Structures(d)) <= d
    ensures var rest := d[|Encode(Structures(d))|..];
            rest == [] || WrongLength(rest) || WrongKind(rest)
    decreases |d|
  {
    if d == [] || WrongLength(d) || WrongKind(d) {
    } else {
      var s, tail := AdStruct(d[1], d[2..d[0] + 1]), d[d[0] + 1..];
      StructuresAreLongestPrefix(tail);
      EncodeStep(d, s, tail);
    }
  }

  lemma EncodeStep(d: seq<byte>, s: AdStruct, tail: seq<byte>)
    requires d != [] && !WrongLength(d) && !WrongKind(d)
    requires s == AdStruct(d[1], d[2..d[0] + 1]) && tail == d[d[0] + 1..]
    ensures Structures(d) == [s] + Structures(tail)
    ensures var head, rest := [d[0], d[1]] + s.payload, Encode(Structures(tail));
            && d == head + tail && Encode(Structures(d)) == head + rest
            && (rest <= tail ==> head + rest <= d && d[|head + rest|..] == tail[|rest|..])
  {
    hide Structures, Encode, WrongKind, Encodable;
    var list := Structures(tail);
    StructuresCons(d, s, tail);
    EncodeCons(s, list);
    SplitStructure(d, s.payload, tail);
    hide WrongLength;
    var head, rest := [d[0], d[1]] + s.payload, Encode(Structures(tail));
    if rest <= tail {
      PrefixShift(head, tail, rest);
    }
  }

  lemma SplitStructure(d: seq<byte>, payload: seq<byte>, tail: seq<byte>)
    requires d != [] && !WrongLength(d)
    requires payload == d[2..d[0] + 1] && tail == d[d[0] + 1..]
    ensures d == [d[0], d[1]] + payload + tail
  {}

  lemma PrefixShift(head: seq<byte>, tail: seq<byte>, rest: seq<byte>)
    requires rest <= tail
    ensures head + rest <= head + tail
    ensures (head + tail)[|head + rest|..] == tail[|rest|..]
  {
    assert head + tail == head + rest + tail[|rest|..];
  }

  lemma StructuresCons(d: seq<byte>, s: AdStruct, tail: seq<byte>)
    requires d != [] && !WrongLength(d) && !WrongKind(d)
    requires s == AdStruct(d[1], d[2..d[0] + 1]) && tail == d[d[0] + 1..]
    ensures Structures(d) == [s] + Structures(tail) && Encodable(s)
  {}

  lemma EncodeCons(s: AdStruct, list: seq<AdStruct>)
    requires Encodable(s) && AllEncodable(list)
    ensures AllEncodable([s] + list)
    ensures Encode([s] + list) == [1 + |s.payload|, s.kind] + s.payload + Encode(list)
  {
    assert ([s] + list)[1..] == list;
  }

  /** Encoding a list and parsing it gives the list. */
  lemma {:induction false} StructuresOfEncoding(list: seq<AdStruct>)
    requires AllEncodable(list)
    ensures Structures(Encode(list)) == list
  {
    if list != [] {
      var s, rest := list[0], list[1..];
      assert Encodable(s) && list == [s] + rest;
      EncodeCons(s, rest);
      hide Structures, Encode, Encodable;
      StructuresOfEncoding(rest);
      var d, tail := Encode(list), Encode(rest);
      SplitEncoded(d, s, tail);
      StructuresCons(d, s, tail);
    }
  }

  lemma SplitEncoded(d: seq<byte>, s: AdStruct, tail: seq<byte>)
    requires Encodable(s)
    requires d == [1 + |s.payload|, s.kind] + s.payload + tail
    ensures !WrongLength(d) && !WrongKind(d)
    ensures s == AdStruct(d[1], d[2..d[0] + 1]) && tail == d[d[0] + 1..]
  {}

  predicate NeedsTwoBytes(kind: byte) {
    kind == 0x16 || kind == 0xFF
  }

  /** The raw map only grows by what the structures say. */
  lemma {:induction false} RawIsOverride(msg: Message, d: seq<byte>)
    ensures ApplyAll(msg, d).Some? ==>
              ApplyAll(msg, d).value.raw == Override(msg.raw, Structures(d))
    decreases |d|
  {
    hide Apply;
    if d == [] || WrongLength(d) || WrongKind(d) {
    } else {
      var s, tail := AdStruct(d[1], d[2..d[0] + 1]), d[d[0] + 1..];
      assert Structures(d) == [s] + Structures(tail);
      OverrideCons(msg.raw, s, Structures(tail));
      ApplyRaw(msg, s, d[2..]);
      if Apply(msg, s, d[2..]).Some? {
        RawIsOverride(Apply(msg, s, d[2..]).value, tail);
      }
    }
  }

  lemma ApplyRaw(msg: Message, s: AdStruct, tail: seq<byte>)
    ensures Apply(msg, s, tail).Some? ==> Apply(msg, s, tail).value.raw == msg.raw[s.kind := s.payload]
  {}

  lemma OverrideCons(raw: map<byte, seq<byte>>, s: AdStruct, list: seq<AdStruct>)
    ensures Override(raw, [s] + list) == Override(raw[s.kind := s.payload], list)
  {
    assert ([s] + list)[1..] == list;
  }

  function Override(raw: map<byte, seq<byte>>, list: seq<AdStruct>): map<byte, seq<byte>>
    decreases |list|
  {
    if list == [] then raw
    else Override(raw[list[0].kind := list[0].payload], list[1..])
  }

  lemma {:induction false} OverrideAppend(raw: map<byte, seq<byte>>, list: seq<AdStruct>, s: AdStruct)
    ensures Override(raw, list + [s]) == Override(raw, list)[s.kind := s.payload]
    decreases |list|
  {
    if list == [] {
      assert [s][1..] == [];
      assert Override(raw, [s]) == Override(raw[s.kind := s.payload], []);
      assert list + [s] == [s];
    } else {
      assert (list + [s])[1..] == list[1..] + [s];
      OverrideAppend(raw[list[0].kind := list[0].payload], list[1..], s);
    }
  }

  lemma {:induction false} OverrideLastWins(list: seq<AdStruct>)
    ensures LastWins(list, Override(map[], list))
  {
    if list != [] {
      var n := |list| - 1;
      assert list == list[..n] + [list[n]];
      OverrideLastWins(list[..n]);
      OverrideAppend(map[], list[..n], list[n]);
      LastWinsAppend(list[..n], list[n], Override(map[], list[..n]));
    }
  }

  lemma KindsAppend(front: seq<AdStruct>, s: AdStruct)
    ensures Kinds(front + [s]) == Kinds(front) + {s.kind}
  {
    var list := front + [s];
    assert list[|front|] == s;
    forall k | k in Kinds(front)
      ensures k in Kinds(list)
    {
      var i :| 0 <= i < |front| && front[i].kind == k;
      assert list[i].kind == k;
    }
  }

  lemma LastWinsAppend(front: seq<AdStruct>, s: AdStruct, raw: map<byte, seq<byte>>)
    requires LastWins(front, raw)
    ensures LastWins(front + [s], raw[s.kind := s.payload])
  {
    var list, n := front + [s], |front|;
    assert list[n] == s;
    KindsAppend(front, s);
    forall i | 0 <= i < n && IsLast(list, i)
      ensures front[i] == list[i] && IsLast(front, i) && list[i].kind != s.kind
    {
      assert list[n].kind != list[i].kind;
      assert forall j :: i < j < n ==> front[j] == list[j];
    }
  }

  /** For any response, the raw map of a parse is the last-wins map of the
      longest prefix of whole structures of accepted types. */
  lemma RawIsLastWins(data: seq<byte>)
    ensures ParseResponse(data).Some? ==> LastWins(Structures(data[15..]), ParseResponse(data).value.raw)
  {
    if ParseResponse(data).Some? {
      RawIsOverride(Start(data), data[15..]);
      OverrideLastWins(Structures(data[15..]));
    }
  }

  /** If the first two payload bytes are read, they are there. */
  predicate Legible(s: AdStruct) {
    NeedsTwoBytes(s.kind) ==> |s.payload| >= 2
  }

  predicate Readable(list: seq<AdStruct>) {
    forall i :: 0 <= i < |list| ==> Legible(list[i])
  }

  function ApplyOne(msg: Message, s: AdStruct): Message
    requires Legible(s)
  {
    Apply(msg, s, s.payload).value
  }

  /** The message after the structures of `list`, left to right. */
  function FoldAll(msg: Message, list: seq<AdStruct>): Message
    requires Readable(list)
    decreases |list|
  {
    if list == [] then msg
    else
      assert forall i :: 0 <= i < |list| - 1 ==> list[1..][i] == list[i + 1];
      FoldAll(ApplyOne(msg, list[0]), list[1..])
  }

  lemma ApplyReadsPayload(msg: Message, s: AdStruct, rest: seq<byte>)
    requires Legible(s)
    ensures Apply(msg, s, s.payload + rest) == Some(ApplyOne(msg, s))
  {}

  lemma {:induction false} ApplyAllOfEncoding(msg: Message, list: seq<AdStruct>, rest: seq<byte>)
    requires AllEncodable(list) && Readable(list)
    ensures ApplyAll(msg, Encode(list) + rest) == ApplyAll(FoldAll(msg, list), rest)
    decreases |list|
  {
    hide Encode, FoldAll, ApplyOne, ApplyAll, Apply, WrongLength, WrongKind;
    if list == [] {
      NothingEncoded(msg);
      assert [] + rest == rest;
    } else {
      var s, later := list[0], list[1..];
      assert Encodable(s) && Legible(s) && list == [s] + later;
      assert forall i :: 0 <= i < |later| ==> later[i] == list[i + 1];
      FoldStep(msg, list);
      EncodeCons(s, later);
      hide Encodable, Legible;
      ApplyEncoded(msg, s, Encode(list) + rest, Encode(later) + rest);
      ApplyAllOfEncoding(ApplyOne(msg, s), later, rest);
    }
  }

  lemma NothingEncoded(msg: Message)
    ensures Encode([]) == [] && FoldAll(msg, []) == msg
  {}

  /** One encoded structure is parsed and applied. */
  lemma ApplyEncoded(msg: Message, s: AdStruct, d: seq<byte>, tail: seq<byte>)
    requires Encodable(s) && Legible(s)
    requires d == [1 + |s.payload|, s.kind] + s.payload + tail
    ensures ApplyAll(msg, d) == ApplyAll(ApplyOne(msg, s), tail)
  {
    SplitEncoded(d, s, tail);
    assert d[2..] == s.payload + tail;
    hide ApplyOne, Apply, Encodable, Legible;
    ApplyReadsPayload(msg, s, tail);
    ApplyAllStep(msg, d);
    hide ApplyAll;
  }

  lemma FoldStep(msg: Message, list: seq<AdStruct>)
    requires Readable(list) && list != []
    ensures Legible(list[0]) && Readable(list[1..])
    ensures FoldAll(msg, list) == FoldAll(ApplyOne(msg, list[0]), list[1..])
  {
    assert forall i :: 0 <= i < |list| - 1 ==> list[1..][i] == list[i + 1];
  }

  lemma {:induction false} FoldAppend(msg: Message, list: seq<AdStruct>, s: AdStruct)
    requires Readable(list + [s])
    ensures Readable(list) && Legible(s)
    ensures FoldAll(msg, list + [s]) == ApplyOne(FoldAll(msg, list), s)
    decreases |list|
  {
    hide ApplyOne;
    assert forall i :: 0 <= i < |list| ==> list[i] == (list + [s])[i];
    assert (list + [s])[|list|] == s;
    if list == [] {
      assert list + [s] == [s] && [s][1..] == [];
      assert FoldAll(msg, [s]) == FoldAll(ApplyOne(msg, s), []);
    } else {
      assert (list + [s])[1..] == list[1..] + [s] && (list + [s])[0] == list[0];
      assert forall i :: 1 <= i < |list + [s]| ==> (list + [s])[1..][i - 1] == (list + [s])[i];
      FoldAppend(ApplyOne(msg, list[0]), list[1..], s);
    }
  }

  predicate IsName(kind: byte) {
    kind == 0x08 || kind == 0x09
  }

  /** The types that decide whether the message is worth processing. */
  predicate Rates(kind: byte) {
    kind in {0x16, 0x2A, 0x2B, 0xFF}
  }

  predicate Worthwhile(s: AdStruct)
    requires Legible(s)
  {
    s.kind == 0xFF || (s.kind == 0x16 && Uint16(s.payload) != 0xFE9F)
  }

  predicate LastName(list: seq<AdStruct>, i: nat)
    requires i < |list|
  {
    IsName(list[i].kind) && forall j :: i < j < |list| ==> !IsName(list[j].kind)
  }

  predicate LastRating(list: seq<AdStruct>, i: nat)
    requires i < |list|
  {
    Rates(list[i].kind) && forall j :: i < j < |list| ==> !Rates(list[j].kind)
  }

  predicate IsMesh(kind: byte) {
    kind == 0x2A || kind == 0x2B
  }

  predicate LastMesh(list: seq<AdStruct>, i: nat)
    requires i < |list|
  {
    IsMesh(list[i].kind) && forall j :: i < j < |list| ==> !IsMesh(list[j].kind)
  }

  /** The manufacturer that a structure names, if it names one. */
  function BrandOf(s: AdStruct): Option<string>
    requires Legible(s)
  {
    if s.kind == 0x16 && Uint16(s.payload) == 0xFE95 then Some("Xiaomi")
    else if s.kind == 0x16 && Uint16(s.payload) == 0xFE9F then Some("Google")
    else if s.kind == 0xFF && Uint16(s.payload) in BRANDS then Some(BRANDS[Uint16(s.payload)])
    else None
  }

  predicate LastBrand(list: seq<AdStruct>, i: nat)
    requires i < |list| && Readable(list)
  {
    BrandOf(list[i]).Some? && forall j :: i < j < |list| ==> BrandOf(list[j]).None?
  }

  ghost predicate FieldSays(list: seq<AdStruct>, i: nat, m: Message)
    requires i < |list| && Readable(list)
  {
    var s := list[i];
    && (s.kind == 0x16 && IsLast(list, i) ==> m.serviceUuid == Uint16(s.payload))
    && (s.kind == 0xFF && IsLast(list, i) ==> m.companyId == Uint16(s.payload))
    && (LastName(list, i) ==> m.name == s.payload)
    && (LastBrand(list, i) ==> m.brand == BrandOf(s).value)
    && (LastMesh(list, i) ==> m.comment == if s.kind == 0x2A then "Mesh Message" else "Mesh Beacon")
    && (LastRating(list, i) ==> m.useful == if Worthwhile(s) then 1 else 0)
  }

  /** The scalar fields, each decided by the last structure that bears on it. */
  ghost predicate FieldsSay(list: seq<AdStruct>, m: Message)
    requires Readable(list)
  {
    forall i :: 0 <= i < |list| ==> FieldSays(list, i, m)
  }

  /** The fields that no structure of `list` bears on are those of `start`. */
  ghost predicate OthersAre(list: seq<AdStruct>, start: Message, m: Message)
    requires Readable(list)
  {
    && ((forall i :: 0 <= i < |list| ==> list[i].kind != 0x16) ==> m.serviceUuid == start.serviceUuid)
    && ((forall i :: 0 <= i < |list| ==> list[i].kind != 0xFF) ==> m.companyId == start.companyId)
    && ((forall i :: 0 <= i < |list| ==> !IsName(list[i].kind)) ==> m.name == start.name)
    && ((forall i :: 0 <= i < |list| ==> BrandOf(list[i]).None?) ==> m.brand == start.brand)
    && ((forall i :: 0 <= i < |list| ==> !IsMesh(list[i].kind)) ==> m.comment == start.comment)
    && ((forall i :: 0 <= i < |list| ==> !Rates(list[i].kind)) ==> m.useful == start.useful)
  }

  /** Before any structure: empty texts, zero numbers, not useful. */
  const BLANK: Message := Message(0, "", 0, 0, "", [], "", 0, 0, 0, map[])

  lemma {:induction false} OthersOfFold(msg: Message, list: seq<AdStruct>)
    requires Readable(list)
    ensures OthersAre(list, msg, FoldAll(msg, list))
    decreases |list|
  {
    if list != [] {
      var s, rest := list[0], list[1..];
      assert forall i :: 0 <= i < |rest| ==> rest[i] == list[i + 1];
      OthersOfFold(ApplyOne(msg, s), rest);
      OthersOfOne(msg, s);
      hide ApplyOne;
      assert OthersAre(rest, ApplyOne(msg, s), FoldAll(msg, list));
      assert forall i :: 1 <= i < |list| ==> list[i] == rest[i - 1];
    }
  }

  lemma OthersOfOne(msg: Message, s: AdStruct)
    requires Legible(s)
    ensures var m := ApplyOne(msg, s);
            && (s.kind != 0x16 ==> m.serviceUuid == msg.serviceUuid)
            && (s.kind != 0xFF ==> m.companyId == msg.companyId)
            && (!IsName(s.kind) ==> m.name == msg.name)
            && (BrandOf(s).None? ==> m.brand == msg.brand)
            && (!IsMesh(s.kind) ==> m.comment == msg.comment)
            && (!Rates(s.kind) ==> m.useful == msg.useful)
  {}

  lemma LastInPrefix(front: seq<AdStruct>, s: AdStruct, i: nat)
    requires i < |front| && Readable(front) && Legible(s) && Readable(front + [s])
    ensures var list := front + [s];
            && list[i] == front[i]
            && (IsLast(list, i) ==> IsLast(front, i) && s.kind != front[i].kind)
            && (LastName(list, i) ==> LastName(front, i) && !IsName(s.kind))
            && (LastRating(list, i) ==> LastRating(front, i) && !Rates(s.kind))
            && (LastMesh(list, i) ==> LastMesh(front, i) && !IsMesh(s.kind))
            && (LastBrand(list, i) ==> LastBrand(front, i) && BrandOf(s).None?)
  {
    var list := front + [s];
    assert list[|front|] == s;
    assert forall j :: i < j < |front| ==> front[j] == list[j];
  }

  lemma FieldsAppend(list: seq<AdStruct>, s: AdStruct, m: Message)
    requires Readable(list) && Legible(s) && Readable(list + [s])
    requires FieldsSay(list, m)
    ensures FieldsSay(list + [s], ApplyOne(m, s))
  {
    hide IsLast, LastName, LastRating, LastMesh, LastBrand, Readable;
    forall i | 0 <= i < |list + [s]|
      ensures FieldSays(list + [s], i, ApplyOne(m, s))
    {
      if i < |list| {
        LastInPrefix(list, s, i);
        assert FieldSays(list, i, m);
      } else {
        LastNames(list + [s]);
      }
    }
  }

  lemma LastNames(list: seq<AdStruct>)
    requires list != [] && Readable(list)
    ensures var i := |list| - 1;
            && (LastName(list, i) ==> IsName(list[i].kind)) && (LastRating(list, i) ==> Rates(list[i].kind))
            && (LastMesh(list, i) ==> IsMesh(list[i].kind)) && (LastBrand(list, i) ==> BrandOf(list[i]).Some?)
  {}

  lemma {:induction false} FieldsOfFold(msg: Message, list: seq<AdStruct>)
    requires Readable(list)
    ensures FieldsSay(list, FoldAll(msg, list))
  {
    hide ApplyOne;
    if list != [] {
      var n := |list| - 1;
      var front, s := list[..n], list[n];
      assert list == front + [s];
      FoldAppend(msg, front, s);
      FieldsOfFold(msg, front);
      FieldsAppend(front, s, FoldAll(msg, front));
    }
  }

  /** A response that encodes a list of structures is parsed, and every field
      is what the header and the list say. */
  lemma ParseOfEncoding(header: seq<byte>, list: seq<AdStruct>)
    requires |header| == 15 && AllEncodable(list) && Readable(list)
    ensures var r := ParseResponse(header + Encode(list));
            && r.Some?
            && r.value.packetType == header[5] && r.value.mac == SprintMac(header[6..12])
            && r.value.rand == header[12]
            && (var strength: int := header[4]; r.value.rssi == if strength < 128 then strength else strength - 256)
            && LastWins(list, r.value.raw) && FieldsSay(list, r.value)
            && OthersAre(list, BLANK, r.value)
  {
    var data := header + Encode(list);
    assert data[15..] == Encode(list) && data[6..12] == header[6..12];
    ApplyAllOfEncoding(Start(header), list, []);
    assert Encode(list) + [] == Encode(list);
    StructuresOfEncoding(list);
    RawIsLastWins(data);
    FieldsOfFold(Start(header), list);
    OthersOfFold(Start(header), list);
    HeaderKept(Start(header), Encode(list));
  }

  lemma StartOf(header: seq<byte>, d: seq<byte>)
    requires |header| == 15
    ensures ParseResponse(header + d) == ApplyAll(Start(header), d)
  {
    hide ApplyAll, SprintMac;
    assert (header + d)[15..] == d && (header + d)[6..12] == header[6..12];
  }

  /** Bytes after the structures that do not delimit an acceptable one change the
      comment and the usefulness, and nothing else. */
  lemma StoppedParse(header: seq<byte>, list: seq<AdStruct>, rest: seq<byte>)
    requires |header| == 15 && AllEncodable(list) && Readable(list) && rest != []
    requires rest[0] < 2 || rest[0] >= |rest| || rest[1] == 0 || 0x2E <= rest[1] <= 0xFE
    ensures ParseResponse(header + Encode(list)).Some?
    ensures var comment := if rest[0] < 2 || rest[0] >= |rest| then "wrong len" else "wrong adv type";
            ParseResponse(header + Encode(list) + rest) ==
            Some(ParseResponse(header + Encode(list)).value.(comment := comment, useful := 0))
  {
    hide Encode, FoldAll, SprintMac, ApplyAll, Apply, AllEncodable, Readable;
    var code := Encode(list);
    StartOf(header, code);
    StartOf(header, code + rest);
    assert header + code + rest == header + (code + rest);
    ApplyAllOfEncoding(Start(header), list, []);
    assert code + [] == code;
    ApplyAllOfEncoding(Start(header), list, rest);
    ApplyAllStep(FoldAll(Start(header), list), []);
    ApplyAllStep(FoldAll(Start(header), list), rest);
  }

  /** Of well delimited structures, exactly those of types 1 to 0x2D and 0xFF are
      accepted; the parse ends at any other and keeps nothing of it. */
  lemma TypesOnWire(header: seq<byte>, kind: byte, payload: seq<byte>)
    requires |header| == 15 && 1 <= |payload| <= 254
    requires kind == 0x16 || kind == 0xFF ==> |payload| >= 2
    ensures ParseResponse(header + [1 + |payload|, kind] + payload).Some?
    ensures var m := ParseResponse(header + [1 + |payload|, kind] + payload).value;
            if 1 <= kind <= 0x2D || kind == 0xFF then m.raw == map[kind := payload] && m.comment != "wrong adv type"
            else m.raw == map[] && m.comment == "wrong adv type" && m.useful == 0
  {
    hide ApplyAll, Apply, ApplyOne, SprintMac;
    var d := [1 + |payload|, kind] + payload;
    assert header + [1 + |payload|, kind] + payload == header + d;
    StartOf(header, d);
    if 1 <= kind <= 0x2D || kind == 0xFF {
      var s, msg := AdStruct(kind, payload), Start(header);
      assert d == d + [];
      ApplyEncoded(msg, s, d, []);
      ApplyAllStep(ApplyOne(msg, s), []);
      OneApplied(msg, s);
    } else {
      ApplyAllStep(Start(header), d);
    }
  }

  lemma OneApplied(msg: Message, s: AdStruct)
    requires Legible(s) && msg.comment == ""
    ensures ApplyOne(msg, s).raw == msg.raw[s.kind := s.payload] && ApplyOne(msg, s).comment != "wrong adv type"
  {}

  /** The companies that are given a brand, by the bytes they are sent as. */
  lemma BrandsOnWire(rest: seq<byte>)
    ensures BrandOf(AdStruct(0xFF, [0x06, 0x00] + rest)) == Some("Microsoft")
    ensures BrandOf(AdStruct(0xFF, [0x4C, 0x00] + rest)) == Some("Apple")
    ensures BrandOf(AdStruct(0xFF, [0x75, 0x00] + rest)) == Some("Samsung")
    ensures BrandOf(AdStruct(0xFF, [0xE0, 0x00] + rest)) == Some("Google")
    ensures BrandOf(AdStruct(0xFF, [0x57, 0x01] + rest)) == Some("Huami")
    ensures BrandOf(AdStruct(0xFF, [0xA7, 0x05] + rest)) == Some("Sonos")
    ensures forall a: byte, b: byte {:trigger AdStruct(0xFF, [a, b] + rest)} ::
              [a, b] !in [[0x06, 0x00], [0x4C, 0x00], [0x75, 0x00], [0xE0, 0x00], [0x57, 0x01], [0xA7, 0x05]]
              ==> BrandOf(AdStruct(0xFF, [a, b] + rest)) == None
  {}

  /** No structure touches what came from the header. */
  lemma {:induction false} HeaderKept(msg: Message, d: seq<byte>)
    ensures ApplyAll(msg, d).Some? ==>
              var m := ApplyAll(msg, d).value;
              m.packetType == msg.packetType && m.mac == msg.mac && m.rand == msg.rand && m.rssi == msg.rssi
    decreases |d|
  {
    if d == [] || WrongLength(d) || WrongKind(d) {
    } else {
      var applied := Apply(msg, AdStruct(d[1], d[2..d[0] + 1]), d[2..]);
      if applied.Some? {
        HeaderKept(applied.value, d[d[0] + 1..]);
      }
    }
  }

  /** A response that goes on after its whole structures is flagged, for the
      reason that stopped the parse, and counts as useless. */
  lemma MalformedIsFlagged(data: seq<byte>)
    requires ParseResponse(data).Some?
    ensures Encode(Structures(data[15..])) <= data[15..]
    ensures var d := data[15..];
            var rest := d[|Encode(Structures(d))|..];
            rest != [] ==>
              && ParseResponse(data).value.useful == 0
              && ParseResponse(data).value.comment == if WrongLength(rest) then "wrong len" else "wrong adv type"
  {
    StructuresAreLongestPrefix(data[15..]);
    StopIsFlagged(Start(data), data[15..]);
  }

  lemma {:induction false} StopIsFlagged(msg: Message, d: seq<byte>)
    requires ApplyAll(msg, d).Some? && Encode(Structures(d)) <= d
    ensures var rest := d[|Encode(Structures(d))|..];
            rest != [] ==>
              && ApplyAll(msg, d).value.useful == 0
              && ApplyAll(msg, d).value.comment == if WrongLength(rest) then "wrong len" else "wrong adv type"
    decreases |d|
  {
    hide Apply, Structures, Encode;
    StructuresAreLongestPrefix(d);
    if d == [] || WrongLength(d) || WrongKind(d) {
      NoStructures(d);
    } else {
      var s, tail := AdStruct(d[1], d[2..d[0] + 1]), d[d[0] + 1..];
      EncodeStep(d, s, tail);
      StructuresAreLongestPrefix(tail);
      ApplyAllStep(msg, d);
      StopIsFlagged(Apply(msg, s, d[2..]).value, tail);
    }
  }

  lemma NoStructures(d: seq<byte>)
    requires d == [] || WrongLength(d) || WrongKind(d)
    ensures Encode(Structures(d)) == []
  {}

  /** The parse runs off the data exactly when the response is shorter than its
      header or the bytes it reaches end in a service-data or manufacturer
      structure whose payload is one byte. */
  lemma ParseFailsIff(data: seq<byte>)
    ensures ParseResponse(data).None? <==>
            || |data| < 15
            || (Encode(Structures(data[15..])) == data[15..] && EndsShort(Structures(data[15..])))
  {
    if |data| >= 15 {
      ApplyAllFailsIff(Start(data), data[15..]);
    }
  }

  predicate EndsShort(list: seq<AdStruct>) {
    && list != []
    && NeedsTwoBytes(list[|list| - 1].kind)
    && |list[|list| - 1].payload| == 1
  }

  lemma {:induction false} ApplyAllFailsIff(msg: Message, d: seq<byte>)
    ensures ApplyAll(msg, d).None? <==> Encode(Structures(d)) == d && EndsShort(Structures(d))
    decreases |d|
  {
    if d == [] || WrongLength(d) || WrongKind(d) {
    } else {
      var s, tail := AdStruct(d[1], d[2..d[0] + 1]), d[d[0] + 1..];
      StructuresStep(d, s, tail);
      ApplyNeeds(msg, s, d[2..]);
      assert |d[2..]| == |s.payload| + |tail|;
      var applied := Apply(msg, s, d[2..]);
      if applied.Some? {
        ApplyAllFailsIff(applied.value, tail);
      } else {
        assert tail == [];
      }
    }
  }

  lemma ApplyNeeds(msg: Message, s: AdStruct, tail: seq<byte>)
    ensures Apply(msg, s, tail).None? <==> NeedsTwoBytes(s.kind) && |tail| < 2
  {}

  lemma StructuresStep(d: seq<byte>, s: AdStruct, tail: seq<byte>)
    requires d != [] && !WrongLength(d) && !WrongKind(d)
    requires s == AdStruct(d[1], d[2..d[0] + 1]) && tail == d[d[0] + 1..]
    ensures Structures(d) == [s] + Structures(tail)
    ensures Encode(Structures(d)) == d <==> Encode(Structures(tail)) == tail
    ensures EndsShort(Structures(d)) <==>
            if Structures(tail) == [] then NeedsTwoBytes(s.kind) && |s.payload| == 1 else EndsShort(Structures(tail))
  {
    EncodeStep(d, s, tail);
    var list, head := Structures(d), [d[0], d[1]] + s.payload;
    assert d[|head|..] == tail && Encode(list)[|head|..] == Encode(Structures(tail));
    if Structures(tail) != [] {
      assert list[|list| - 1] == Structures(tail)[|list| - 2];
    }
  }
}
