/** bglib/bglib.go: reading frames from the Bluetooth chip, recognising them and
    converting extended scan responses to legacy ones. */
module Bglib {
  import opened Bytes

  // ----- one read, on values -----------------------------------------------

  /** The result of one read: a whole frame, bytes that are no frame, or the end
      of the input. `rest` is the input that is left. */
  datatype ReadResult =
    | Frame(out: seq<byte>, rest: seq<byte>)
    | Wrong(out: seq<byte>, rest: seq<byte>)
    | End

  /** 0x20 for commands and 0xA0 for events. */
  predicate IsType(b: byte) {
    b % 128 == 0x20
  }

  predicate IsGap(buf: seq<byte>) {
    |buf| >= 4 && buf[0] == 0xA0 && buf[2] == 0x03 && buf[3] == 0x04
  }

  function ExpectedLength(buf: seq<byte>): int
    requires |buf| >= 2
  {
    var payload: int := buf[1];
    4 + payload
  }

  predicate IsStuffing(b: byte) {
    b == 0xDC || b == 0xDD
  }

  /** The byte that arrives is jumped over. */
  predicate Skipped(buf: seq<byte>, b: byte) {
    IsGap(buf) && buf[|buf| - 1] == 0xDB && IsStuffing(b)
  }

  datatype Verdict = Continue | Accept | Reject

  /** What the reader decides when `buf` has just grown to its present length.
      (Extended scan responses shorter than 22 bytes are gone after four bytes,
      so that byte 21 exists where it is looked at.) */
  function Judge(buf: seq<byte>): Verdict
    requires buf != []
  {
    var n := |buf|;
    if n == 1 then if IsType(buf[0]) then Continue else Reject
    else if n == 2 then if buf[1] == 0 then Reject else Continue
    else if n == 4 then if IsGap(buf) && ExpectedLength(buf) < 22 then Reject else Continue
    else if n == ExpectedLength(buf) then
      if IsGap(buf) && (n < 22 || buf[21] != (n % 256 - 22) % 256) then Reject else Accept
    else if n == 16 then if IsGap(buf) && buf[15] != 0xFF then Reject else Continue
    else Continue
  }

  /** A read with `buf` already collected. */
  function ReadFrom(buf: seq<byte>, input: seq<byte>): ReadResult
    decreases |input|
  {
    if input == [] then End
    else if Skipped(buf, input[0]) then ReadFrom(buf, input[1..])
    else
      var grown := buf + [input[0]];
      match Judge(grown)
      case Continue => ReadFrom(grown, input[1..])
      case Accept => Frame(grown, input[1..])
      case Reject => Wrong(grown, input[1..])
  }

  function ReadOne(input: seq<byte>): ReadResult {
    ReadFrom([], input)
  }

  lemma ReadStep(buf: seq<byte>, input: seq<byte>)
    ensures input == [] ==> ReadFrom(buf, input) == End
    ensures input != [] ==>
              && Skipped(buf, input[0]) == (IsGap(buf) && buf[|buf| - 1] == 0xDB && IsStuffing(input[0]))
              && var grown := buf + [input[0]];
              ReadFrom(buf, input) ==
              if Skipped(buf, input[0]) then ReadFrom(buf, input[1..])
              else if Judge(grown) == Continue then ReadFrom(grown, input[1..])
              else if Judge(grown) == Accept then Frame(grown, input[1..])
              else Wrong(grown, input[1..])
  {}

  // ----- the reader --------------------------------------------------------

  /** The serial port, as the bytes that it will still deliver. */
  class Port {
    var pending: seq<byte>

    constructor (pending: seq<byte>)
      ensures this.pending == pending
    {
      this.pending := pending;
    }

    method ReadByte() returns (b: Option<byte>)
      modifies this
      ensures old(pending) == [] ==> b == None && pending == []
      ensures old(pending) != [] ==> b == Some(old(pending)[0]) && pending == old(pending)[1..]
    {
      if pending == [] {
        return None;
      }
      b := Some(pending[0]);
      pending := pending[1..];
    }
  }

  datatype Status = Ok | WrongRead | Failed

  /** Go's `copy` into `p`, on values. */
  function Overwrite(p: seq<byte>, s: seq<byte>): seq<byte> {
    if |s| <= |p| then s + p[|s|..] else s[..|p|]
  }

  /** A result handed to a caller: the count, the status, what is left to read,
      and the caller's buffer before and after. */
  ghost predicate Delivered(result: ReadResult, n: nat, status: Status, pending: seq<byte>,
                            before: seq<byte>, after: seq<byte>) {
    match result
    case End => n == 0 && status == Failed && pending == [] && after == before
    case Frame(out, rest) =>
      && n == (if |out| <= |before| then |out| else |before|) && status == Ok
      && pending == rest && after == Overwrite(before, out)
    case Wrong(out, rest) =>
      && n == (if |out| <= |before| then |out| else |before|) && status == WrongRead
      && pending == rest && after == Overwrite(before, out)
  }

  lemma NothingDelivered(p: seq<byte>)
    ensures Delivered(End, 0, Failed, [], p, p)
  {}

  class ChipReader {
    const r: Port

    constructor (r: Port)
      ensures this.r == r
    {
      this.r := r;
    }

    /** Reads into `p`, whose length the callers make 260. */
    method Read(p: array<byte>) returns (n: nat, status: Status)
      modifies r, p
      ensures Delivered(ReadOne(old(r.pending)), n, status, r.pending, old(p[..]), p[..])
    {
      hide Delivered, ReadFrom, Skipped;
      var buf := new byte[260](_ => 0);
      n := 0;
      var expectedLen := 0;
      var isGap := false;
      ghost var result := ReadOne(r.pending);

      while true
        invariant n < 260
        invariant n >= 2 ==> expectedLen == ExpectedLength(buf[..n]) && (n < expectedLen || n < 4)
        invariant n < 2 ==> expectedLen == 0
        invariant n >= 2 ==> buf[1] > 0
        invariant isGap == IsGap(buf[..n])
        invariant isGap ==> expectedLen >= 22
        invariant ReadFrom(buf[..n], r.pending) == result
        invariant p[..] == old(p[..])
        decreases |r.pending|
      {
        ghost var before := buf[..n];
        ReadStep(before, r.pending);
        var chunk := r.ReadByte();
        if chunk.None? {
          NothingDelivered(p[..]);
          return 0, Failed;
        }
        var b := chunk.value;
        if n == 0 && b % 128 != 0x20 {
          n, status := Return(p, [b], WrongRead, result);
          return;
        }
        if isGap && buf[n - 1] == 0xDB && (b == 0xDC || b == 0xDD) {
          continue;
        }
        buf[n] := b;
        n := n + 1;
        assert buf[..n] == before + [b];

        if n == 2 {
          if buf[1] == 0 {
            n, status := Return(p, buf[..2], WrongRead, result);
            return;
          }
          var payload: int := buf[1];
          expectedLen := 4 + payload;
        } else if n == 4 {
          isGap := buf[0] == 0xA0 && buf[2] == 0x03 && buf[3] == 0x04;
          if isGap && expectedLen < 22 {
            n, status := Return(p, buf[..4], WrongRead, result);
            return;
          }
        } else if n == expectedLen {
          if isGap && buf[21] != (n % 256 - 22) % 256 {
            n, status := Return(p, buf[..expectedLen], WrongRead, result);
            return;
          }
          n, status := Return(p, buf[..expectedLen], Ok, result);
          return;
        } else if n == 16 {
          if isGap && buf[15] != 0xFF {
            n, status := Return(p, buf[..16], WrongRead, result);
            return;
          }
        } else if n == 260 {
          // The source panics here.
          assert false;
        }
      }
    }

    /** `return copy(p, s), err`. */
    method Return(p: array<byte>, s: seq<byte>, err: Status, ghost result: ReadResult) returns (n: nat, status: Status)
      requires result == if err == Ok then Frame(s, r.pending) else Wrong(s, r.pending)
      requires err != Failed
      modifies p
      ensures Delivered(result, n, status, r.pending, old(p[..]), p[..])
    {
      n := if |s| <= p.Length then |s| else p.Length;
      status := err;
      CopyInto(p, 0, s[..n]);
    }
  }

  // ----- recognising frames ------------------------------------------------

  const CMD_GET_BT_ADDRESS: nat := 0x2000_0103
  const CMD_START_DISCOVERY: nat := 0x2000_0318
  const CMD_SET_EXTENDED_SCAN_RESPONSE: nat := 0x2000_031C
  const EVT_SYSTEM_BOOT: nat := 0xA000_0100
  const EVT_EXTENDED_SCAN_RESPONSE: nat := 0xA000_0304

  function Header(p: seq<byte>): nat
    requires |p| >= 4
  {
    var b0: int, b2: int, b3: int := p[0], p[2], p[3];
    b0 * 0x100_0000 + b2 * 0x100 + b3
  }

  /** The header of a message the program acts on, or 0; `p` is the whole read
      buffer and `n` the size of the message in it. */
  function DecodeResponse(p: seq<byte>, n: nat): nat
    requires |p| >= 22
  {
    var h := Header(p);
    if h == CMD_GET_BT_ADDRESS && n == 10 && p[1] == 0x06 then h
    else if h == CMD_SET_EXTENDED_SCAN_RESPONSE && n == 6 && p[1] == 0x02 then h
    else if h == CMD_START_DISCOVERY && n == 6 && p[1] == 0x02 then h
    else if h == EVT_SYSTEM_BOOT && n == 22 && p[1] == 0x12 then h
    else if h == EVT_EXTENDED_SCAN_RESPONSE && n >= 22 && p[1] >= 0x12 && p[21] == (n % 256 - 22) % 256 then h
    else 0
  }

  // ----- conversion --------------------------------------------------------

  /** The legacy form of an extended scan response. */
  function Legacy(e: seq<byte>): (r: seq<byte>)
    requires |e| >= 21
    ensures |r| == |e| - 7
  {
    var length: int := e[2];
    [0xA0, (length - 7) % 256, 0x03, 0x00, e[17]] + e[4..13] + e[21..]
  }

  /** The argument is `p[..n]`; its first bytes are overwritten. */
  method ConvertExtendedToLegacy(p: array<byte>, n: nat) returns (m: nat)
    requires 21 <= n <= p.Length
    modifies p
    ensures m == n - 7
    ensures p[..m] == Legacy(old(p[..n])) && p[m..] == old(p[m..])
  {
    var length: int := p[2];
    var legacy: seq<byte> := [0xA0, (length - 7) % 256, 0x03, 0x00];
    legacy := legacy + [p[17]];
    legacy := legacy + p[4..13];
    legacy := legacy + p[21..n];
    assert legacy == Legacy(p[..n]);
    CopyInto(p, 0, legacy);
    m := |legacy|;
  }
}
