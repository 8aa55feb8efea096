/** btchip_reader.go: the way of an extended scan response from the chip through
    the filter, the conversion and the parsers, in one shared buffer. */
module Pipeline {
  import opened Bytes
  import opened Bglib
  import opened Framing
  import opened Gap
  import opened RepeatFilter
  import opened CcmSpec
  import Crypt
  import opened MiBeacon
  import opened MiBeaconTheorems

  // ----- conversion and parsing --------------------------------------------

  /** The parse of a converted event has every field of the event, taken from
      where the extended layout keeps it. */
  lemma ConversionKeepsFields(e: seq<byte>)
    requires |e| >= 22
    ensures ParseResponse(Legacy(e)) ==
            ApplyAll(Message(e[4], SprintMac(e[5..11]), e[11], Int8(e[17]), "", [], "", 0, 0, 0, map[]), e[22..])
  {
    var l := Legacy(e);
    LegacyAt(e);
    assert l[15..] == e[22..] && l[6..12] == e[5..11];
    assert l[5] == e[4] && l[12] == e[11];
    hide Legacy, ApplyAll, SprintMac;
  }

  /** Every byte of the converted event; its header is that of a legacy scan
      response. */
  lemma LegacyAt(e: seq<byte>)
    requires |e| >= 21
    ensures Header(Legacy(e)) == 0xA000_0300
    ensures var length: int := e[2]; Legacy(e)[1] == if length >= 7 then length - 7 else length + 249
    ensures Legacy(e)[4] == e[17]
    ensures forall i {:trigger Legacy(e)[i]} :: 5 <= i < 14 ==> Legacy(e)[i] == e[i - 1]
    ensures forall i {:trigger Legacy(e)[i]} :: 14 <= i < |e| - 7 ==> Legacy(e)[i] == e[i + 7]
  {
    var length: int := e[2];
    var head: seq<byte> := [0xA0, (length - 7) % 256, 0x03, 0x00, e[17]];
    var l := Legacy(e);
    assert l == head + (e[4..13] + e[21..]);
    assert forall i :: 5 <= i < 14 ==> l[i] == e[4..13][i - 5];
    assert forall i :: 14 <= i < |l| ==> l[i] == e[21..][i - 14];
  }

  /** The length byte of the converted event is right exactly when the event's
      length byte equals its class byte. */
  lemma LegacyLengthByteIff(e: seq<byte>)
    requires |e| >= 21 && |e| == ExpectedLength(e)
    ensures Legacy(e)[1] == (|Legacy(e)| - 4) % 256 <==> e[1] == e[2]
  {}

  /** So it is wrong for every extended scan response that a read returns. */
  lemma LegacyLengthByteIsWrong(e: seq<byte>)
    requires IsWhole(e) && IsGap(e)
    ensures Legacy(e)[1] == 0xFC && |Legacy(e)| != ExpectedLength(Legacy(e))
  {}

  /** Type byte, payload length, class and command byte. */
  predicate IsMessage(out: seq<byte>, kind: byte, group: byte, command: byte, length: byte) {
    |out| >= 4 && out[0] == kind && out[1] == length && out[2] == group && out[3] == command
  }

  /** Which of the messages that a read returns are recognised, and as what,
      whatever else the buffer holds. */
  lemma MessagesRecognisedIff(input: seq<byte>, p: seq<byte>)
    requires ReadOne(input).Frame?
    requires |p| >= 260 && ReadOne(input).out <= p
    ensures var out := ReadOne(input).out;
            var header := DecodeResponse(p, |out|);
            && (header == 0x2000_0103 <==> IsMessage(out, 0x20, 0x01, 0x03, 6))
            && (header == 0x2000_0318 <==> IsMessage(out, 0x20, 0x03, 0x18, 2))
            && (header == 0x2000_031C <==> IsMessage(out, 0x20, 0x03, 0x1C, 2))
            && (header == 0xA000_0100 <==> IsMessage(out, 0xA0, 0x01, 0x00, 18))
            && (header == 0xA000_0304 <==> IsExtended(out))
            && header in {0, 0x2000_0103, 0x2000_0318, 0x2000_031C, 0xA000_0100, 0xA000_0304}
  {
    hide ReadOne;
    var out := ReadOne(input).out;
    FramesAreWhole(input);
    assert forall i :: 0 <= i < |out| ==> p[i] == out[i];
    HeaderIs(p, 0x20, 0x01, 0x03);
    HeaderIs(p, 0x20, 0x03, 0x18);
    HeaderIs(p, 0x20, 0x03, 0x1C);
    HeaderIs(p, 0xA0, 0x01, 0x00);
    HeaderIs(p, 0xA0, 0x03, 0x04);
    hide Header;
  }

  lemma HeaderIs(p: seq<byte>, kind: byte, group: byte, command: byte)
    requires |p| >= 4
    ensures Header(p) == kind * 0x100_0000 + group * 0x100 + command
            <==> p[0] == kind && p[2] == group && p[3] == command
  {}

  // ----- where a payload lies in the buffer --------------------------------

  /** A slice of the response: where the payload starts and how long it is. */
  datatype Span = Span(at: nat, size: nat)

  /** The span of the last payload of type `kind`: what the Go slice in the raw
      map refers to. `d` is the data from `pos` on. */
  function LastAt(d: seq<byte>, kind: byte, pos: nat, found: Option<Span>): Option<Span>
    decreases |d|
  {
    if d == [] || WrongLength(d) || WrongKind(d) then found
    else
      var l: int := d[0];
      LastAt(d[l + 1..], kind, pos + l + 1, if d[1] == kind then Some(Span(pos + 2, l - 1)) else found)
  }

  ghost predicate Locates(data: seq<byte>, raw: map<byte, seq<byte>>, kind: byte, span: Option<Span>) {
    match span
    case None => kind !in raw
    case Some(s) => kind in raw && s.at + s.size <= |data| && raw[kind] == data[s.at..s.at + s.size]
  }

  lemma {:induction false} LastAtLocates(data: seq<byte>, pos: nat, d: seq<byte>, kind: byte,
                                         raw: map<byte, seq<byte>>, found: Option<Span>)
    requires pos <= |data| && d == data[pos..] && Locates(data, raw, kind, found)
    ensures Locates(data, Override(raw, Structures(d)), kind, LastAt(d, kind, pos, found))
    decreases |d|
  {
    LastAtStep(d, kind, pos, found);
    hide Structures, Override, Locates, LastAt;
    if d == [] || WrongLength(d) || WrongKind(d) {
      StructuresStop(raw, d);
    } else {
      var l: int := d[0];
      var s, tail := AdStruct(d[1], d[2..l + 1]), d[l + 1..];
      DropDrop(data, pos, l + 1);
      StructuresCons(d, s, tail);
      OverrideCons(raw, s, Structures(tail));
      LocatesOne(data, pos, kind, raw, found);
      hide WrongLength, WrongKind;
      LastAtLocates(data, pos + l + 1, tail, kind, raw[s.kind := s.payload],
                    if d[1] == kind then Some(Span(pos + 2, l - 1)) else found);
    }
  }

  lemma LocatesOne(data: seq<byte>, pos: nat, kind: byte, raw: map<byte, seq<byte>>, found: Option<Span>)
    requires pos < |data| && Locates(data, raw, kind, found)
    requires var d := data[pos..]; !WrongLength(d) && !WrongKind(d)
    ensures var d := data[pos..];
            var l: int := d[0];
            Locates(data, raw[d[1] := d[2..l + 1]], kind, if d[1] == kind then Some(Span(pos + 2, l - 1)) else found)
  {
    var d := data[pos..];
    var l: int := d[0];
    assert d == data[pos..|data|];
    SliceOfSlice(data, pos, |data|, 2, l + 1);
  }

  lemma StructuresStop(raw: map<byte, seq<byte>>, d: seq<byte>)
    requires d == [] || WrongLength(d) || WrongKind(d)
    ensures Override(raw, Structures(d)) == raw
  {}

  function PayloadAt(response: seq<byte>, kind: byte): Option<Span>
    requires |response| >= 15
  {
    LastAt(response[15..], kind, 15, None)
  }

  /** The raw map of a parse refers to these spans. */
  lemma PayloadLocated(response: seq<byte>, kind: byte)
    requires ParseResponse(response).Some?
    ensures |response| >= 15
    ensures Locates(response, ParseResponse(response).value.raw, kind, PayloadAt(response, kind))
  {
    RawIsOverride(Start(response), response[15..]);
    LastAtLocates(response, 15, response[15..], kind, map[], None);
  }

  /** The 16-bit identifier read at a span, which may reach past a short payload. */
  ghost predicate Identifies(data: seq<byte>, span: Option<Span>, id: nat) {
    match span
    case None => id == 0
    case Some(s) => s.at + 2 <= |data| && id == Uint16(data[s.at..])
  }

  /** The field of the message that structures of type `kind` identify. */
  function IdentifierOf(kind: byte, msg: Message): nat {
    if kind == 0x16 then msg.serviceUuid else msg.companyId
  }

  lemma ApplyIdentifies(msg: Message, s: AdStruct, tail: seq<byte>, kind: byte)
    requires NeedsTwoBytes(kind) && Apply(msg, s, tail).Some?
    ensures s.kind == kind ==> |tail| >= 2 && IdentifierOf(kind, Apply(msg, s, tail).value) == Uint16(tail)
    ensures s.kind != kind ==> IdentifierOf(kind, Apply(msg, s, tail).value) == IdentifierOf(kind, msg)
  {}

  lemma {:induction false} LastAtIdentifies(data: seq<byte>, pos: nat, d: seq<byte>, msg: Message,
                                            kind: byte, found: Option<Span>)
    requires NeedsTwoBytes(kind) && pos <= |data| && d == data[pos..] && ApplyAll(msg, d).Some?
    requires Identifies(data, found, IdentifierOf(kind, msg))
    ensures Identifies(data, LastAt(d, kind, pos, found), IdentifierOf(kind, ApplyAll(msg, d).value))
    decreases |d|
  {
    ApplyAllStep(msg, d);
    LastAtStep(d, kind, pos, found);
    hide Apply, ApplyAll, IdentifierOf, LastAt, Identifies;
    if d == [] || WrongLength(d) || WrongKind(d) {
      FlagsKeepIdentifiers(msg, kind);
    } else {
      var l: int := d[0];
      var tail, applied := d[l + 1..], Apply(msg, AdStruct(d[1], d[2..l + 1]), d[2..]);
      IdentifiesOne(data, pos, d, msg, kind, found);
      DropDrop(data, pos, l + 1);
      assert |tail| < |d| && ApplyAll(applied.value, tail).Some?;
      hide WrongLength, WrongKind;
      LastAtIdentifies(data, pos + l + 1, tail, applied.value, kind,
                       if d[1] == kind then Some(Span(pos + 2, l - 1)) else found);
    }
  }

  lemma LastAtStep(d: seq<byte>, kind: byte, pos: nat, found: Option<Span>)
    ensures d == [] || WrongLength(d) || WrongKind(d) ==> LastAt(d, kind, pos, found) == found
    ensures d != [] && !WrongLength(d) && !WrongKind(d) ==>
              var l: int := d[0];
              LastAt(d, kind, pos, found) ==
              LastAt(d[l + 1..], kind, pos + l + 1, if d[1] == kind then Some(Span(pos + 2, l - 1)) else found)
  {}

  lemma IdentifiesOne(data: seq<byte>, pos: nat, d: seq<byte>, msg: Message, kind: byte, found: Option<Span>)
    requires NeedsTwoBytes(kind) && pos < |data| && d == data[pos..] && !WrongLength(d) && !WrongKind(d)
    requires Identifies(data, found, IdentifierOf(kind, msg))
    requires Apply(msg, AdStruct(d[1], d[2..d[0] + 1]), d[2..]).Some?
    ensures Identifies(data, if d[1] == kind then Some(Span(pos + 2, d[0] - 1)) else found,
                       IdentifierOf(kind, Apply(msg, AdStruct(d[1], d[2..d[0] + 1]), d[2..]).value))
  {
    DropDrop(data, pos, 2);
    ApplyIdentifies(msg, AdStruct(d[1], d[2..d[0] + 1]), d[2..], kind);
    hide Apply, IdentifierOf, Uint16;
  }

  lemma FlagsKeepIdentifiers(msg: Message, kind: byte)
    ensures forall c, u :: IdentifierOf(kind, msg.(comment := c, useful := u)) == IdentifierOf(kind, msg)
  {}

  /** On every input, the identifiers of a parse are those at the last service
      data and the last manufacturer data. */
  lemma IdentifiersLocated(response: seq<byte>)
    requires ParseResponse(response).Some?
    ensures var m := ParseResponse(response).value;
            && Identifies(response, PayloadAt(response, 0x16), m.serviceUuid)
            && Identifies(response, PayloadAt(response, 0xFF), m.companyId)
  {
    hide ApplyAll, LastAt;
    LastAtIdentifies(response, 15, response[15..], Start(response), 0x16, None);
    LastAtIdentifies(response, 15, response[15..], Start(response), 0xFF, None);
  }

  // ----- processing one event ----------------------------------------------

  const ATC: nat := 0x181A
  const SCALE_V2: nat := 0x181B
  const SCALE_V1: nat := 0x181D
  const XIAOMI: nat := 0xFE95
  const APPLE: nat := 0x004C

  datatype Processed =
    | Suppressed
    | Crashed
    | Forwarded(msg: Message, beacon: Option<Outcome>)

  /** What the service branch does: nothing of interest here, a beacon, or an
      index out of range. */
  datatype Branch = Quiet | Found(beacon: Outcome) | Fault

  /** The switch on the service identifier. The thermometer and scale parsers
      check lengths, but the second scale parser accepts twelve bytes and reads
      a thirteenth. */
  function ServiceBranch(msg: Message, env: Env): Branch {
    if msg.serviceUuid !in {ATC, SCALE_V1, SCALE_V2, XIAOMI} then Quiet
    else if 0x16 !in msg.raw || |msg.raw[0x16]| < 2 then Fault
    else
      var d := msg.raw[0x16][2..];
      if msg.serviceUuid == SCALE_V2 && |d| == 12 then Fault
      else if msg.serviceUuid != XIAOMI then Quiet
      else
        match ParseFrame(d, env)
        case OutOfRange => Fault
        case Parsed(b, useful) => if useful > 0 && DecodeFaults(b) then Fault else Found(Parsed(b, useful))
  }

  /** The switch on the company identifier slices the data of one company. */
  predicate CompanyFaults(msg: Message) {
    msg.companyId == APPLE && (0xFF !in msg.raw || |msg.raw[0xFF]| < 2)
  }

  /** What comes of an event that is not suppressed. */
  function Process(response: seq<byte>, env: Env): Processed {
    match ParseResponse(response)
    case None => Crashed
    case Some(msg) =>
      var branch := ServiceBranch(msg, env);
      if branch.Fault? || CompanyFaults(msg) then Crashed
      else Forwarded(msg, if branch.Found? then Some(branch.beacon) else None)
  }

  /** The event that decides whether it has been seen: without signal strength
      and channel. */
  function Muted(e: seq<byte>): seq<byte>
    requires |e| >= 22
  {
    e[17 := 0][18 := 0]
  }

  /** The same advertisement, apart from signal strength and channel. */
  predicate SameAdvert(a: seq<byte>, b: seq<byte>) {
    |a| == |b| && forall i :: 0 <= i < |a| && i != 17 && i != 18 ==> a[i] == b[i]
  }

  lemma MutedIff(a: seq<byte>, b: seq<byte>)
    requires |a| >= 22 && |b| >= 22
    ensures Muted(a) == Muted(b) <==> SameAdvert(a, b)
  {
    var x, y := Muted(a), Muted(b);
    assert forall i :: 0 <= i < |a| ==> x[i] == if i == 17 || i == 18 then 0 else a[i];
    assert forall i :: 0 <= i < |b| ==> y[i] == if i == 17 || i == 18 then 0 else b[i];
  }

  /** The calls in the log were made for these events. */
  ghost predicate Logs(log: seq<Entry>, events: seq<seq<byte>>) {
    |log| == |events| && forall i :: 0 <= i < |log| ==> |events[i]| >= 22 && log[i].key == Muted(events[i])
  }

  /** An event has been let through less than five seconds before that differs
      from `e` at most in signal strength and channel. */
  predicate SeenBefore(log: seq<Entry>, events: seq<seq<byte>>, e: seq<byte>, now: int)
    requires |log| == |events|
  {
    exists i :: 0 <= i < |log| && log[i].admitted && SameAdvert(events[i], e) && now < log[i].at + 5_000_000_000
  }

  lemma RecentIffSeen(log: seq<Entry>, events: seq<seq<byte>>, e: seq<byte>, now: int)
    requires Logs(log, events) && |e| >= 22
    ensures Recent(log, Muted(e), now) <==> SeenBefore(log, events, e, now)
  {
    hide Muted, SameAdvert;
    forall i | 0 <= i < |log|
      ensures log[i].key == Muted(e) <==> SameAdvert(events[i], e)
    {
      MutedIff(events[i], e);
    }
  }

  /** Over a whole run, events let through that differ at most there are at least
      five seconds apart. */
  lemma AdvertsAreSpaced(log: seq<Entry>, events: seq<seq<byte>>, i: nat, j: nat)
    requires Consistent(log) && Logs(log, events) && i < j < |log|
    requires SameAdvert(events[i], events[j]) && log[i].admitted && log[j].admitted
    ensures log[i].at + 5_000_000_000 <= log[j].at
  {
    MutedIff(events[i], events[j]);
    hide Consistent;
    AdmittedAreSpaced(log, i, j);
  }

  /** The message is a Xiaomi beacon whose parse moves its tag. */
  predicate MovesTag(msg: Message, env: Env) {
    && msg.serviceUuid == XIAOMI && 0x16 in msg.raw && |msg.raw[0x16]| >= 2
    && Overwrites(msg.raw[0x16][2..], env)
  }

  /** The bytes sent on to the app: the converted event, in which parsing may
      have moved the tag of an encrypted beacon over its counter. */
  function SentOn(response: seq<byte>, env: Env): seq<byte>
    requires ParseResponse(response).Some?
  {
    var msg := ParseResponse(response).value;
    if MovesTag(msg, env) then
      PayloadLocated(response, 0x16);
      var span := PayloadAt(response, 0x16).value;
      TagOverCounter(response, span.at + span.size)
    else response
  }

  /** `btchipProcessExtResponse` on the event `p[..n]`, without what it does with
      the values it finds; `events` are those processed before. */
  method ProcessExtResponse(p: array<byte>, n: nat, filter: Filter, now: int, env: Env,
                            ghost events: seq<seq<byte>>)
      returns (m: nat, r: Processed)
    requires 22 <= n <= p.Length
    requires filter.Valid() && filter.last <= now && Logs(filter.log, events)
    modifies p, filter
    ensures filter.Valid() && filter.last == now
    ensures filter.log == old(filter.log) + [Entry(Muted(old(p[..n])), now, !r.Suppressed?)]
    ensures Logs(filter.log, events + [old(p[..n])])
    ensures r.Suppressed? <==> SeenBefore(old(filter.log), events, old(p[..n]), now)
    ensures r.Suppressed? ==> m == 0
    ensures !r.Suppressed? ==> r == Process(Legacy(old(p[..n])), env)
    ensures r.Forwarded? ==> m == n - 7 && p[..m] == SentOn(Legacy(old(p[..n])), env)
  {
    hide Recent, SeenBefore, ParseResponse, ParseFrame, Overwrites, PayloadAt, Legacy, TagOverCounter;
    ghost var e := p[..n];
    RecentIffSeen(filter.log, events, e, now);
    var rssi := p[17];
    p[17] := 0;
    p[18] := 0;
    assert p[..n] == Muted(e);
    var seen := filter.Test(p[..n], now);
    if seen {
      return 0, Suppressed;
    }
    p[17] := rssi;
    assert p[..n] == e[18 := 0];
    LegacyIgnoresChannel(e);
    m := ConvertExtendedToLegacy(p, n);
    var response := p[..m];
    assert response == Legacy(e);

    var parsed := ParseScanResponse(response);
    if parsed.None? {
      return m, Crashed;
    }
    var msg := parsed.value;
    var branch := ServiceSwitch(p, m, msg, env);
    if branch.Fault? {
      return m, Crashed;
    }
    if msg.companyId == APPLE && (0xFF !in msg.raw || |msg.raw[0xFF]| < 2) {
      return m, Crashed;
    }
    r := Forwarded(msg, if branch.Found? then Some(branch.beacon) else None);
  }

  /** The switch on the service identifier, in the buffer that starts with the
      parsed response. */
  method ServiceSwitch(p: array<byte>, m: nat, msg: Message, env: Env) returns (branch: Branch)
    requires m <= p.Length && ParseResponse(p[..m]) == Some(msg)
    modifies p
    ensures branch == ServiceBranch(msg, env)
    ensures p[..m] == SentOn(old(p[..m]), env) && p[m..] == old(p[m..])
  {
    hide ParseResponse, ParseFrame, Overwrites, PayloadAt, TagOverCounter, DecodeFaults;
    if msg.serviceUuid != ATC && msg.serviceUuid != SCALE_V2 && msg.serviceUuid != SCALE_V1
       && msg.serviceUuid != XIAOMI {
      return Quiet;
    }
    if 0x16 !in msg.raw || |msg.raw[0x16]| < 2 {
      return Fault;
    }
    if msg.serviceUuid == SCALE_V2 && |msg.raw[0x16]| - 2 == 12 {
      return Fault;
    }
    if msg.serviceUuid != XIAOMI {
      return Quiet;
    }
    var response := p[..m];
    PayloadLocated(response, 0x16);
    var span := PayloadAt(response, 0x16).value;
    var lo, hi := span.at + 2, span.at + span.size;
    ghost var whole := p[..];
    InBuffer(whole, response, span.at, span.size);
    var outcome := ParseMiBeacon(p, lo, hi, env);
    MovedInPrefix(whole, m, hi);
    match outcome {
      case OutOfRange => branch := Fault;
      case Parsed(b, useful) =>
        if useful > 0 && DecodeFaults(b) {
          branch := Fault;
        } else {
          branch := Found(Parsed(b, useful));
        }
    }
  }

  lemma LegacyIgnoresChannel(e: seq<byte>)
    requires |e| >= 22
    ensures Legacy(e[18 := 0]) == Legacy(e)
  {
    assert e[18 := 0][4..13] == e[4..13] && e[18 := 0][21..] == e[21..];
  }

  lemma InBuffer(whole: seq<byte>, response: seq<byte>, at: nat, size: nat)
    requires response <= whole && 2 <= size && at + size <= |response|
    ensures whole[at + 2..at + size] == response[at..at + size][2..]
  {
    SliceOfSlice(response, at, at + size, 2, size);
    SliceOfSlice(whole, 0, |response|, at + 2, at + size);
    assert whole[..|response|] == response;
  }

  lemma MovedInPrefix(whole: seq<byte>, m: nat, hi: nat)
    requires hi <= m <= |whole|
    ensures hi >= 7 ==>
              && TagOverCounter(whole, hi)[..m] == TagOverCounter(whole[..m], hi)
              && TagOverCounter(whole, hi)[m..] == whole[m..]
  {}
}
