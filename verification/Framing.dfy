/** What reading guarantees about single frames and about whole streams. */
module Framing {
  import opened Bytes
  import opened Bglib

  // ----- whole frames ------------------------------------------------------

  // The definitions of this section speak of bytes only, not of the reader's tests.

  predicate IsExtended(f: seq<byte>) {
    |f| >= 4 && f[0] == 0xA0 && f[2] == 0x03 && f[3] == 0x04
  }

  /** Type byte, length byte, and for extended scan responses the constant byte
      and the size of the advertising data. */
  predicate IsWhole(f: seq<byte>) {
    && |f| >= 5 && f[0] in {0x20, 0xA0}
    && (var payload: int := f[1]; |f| == 4 + payload)
    && (IsExtended(f) ==> |f| >= 22 && f[15] == 0xFF && f[21] == |f| - 22)
  }

  /** No byte of an extended scan response looks stuffed in. */
  predicate Unambiguous(f: seq<byte>) {
    IsExtended(f) ==> forall i :: 4 <= i < |f| - 1 && f[i] == 0xDB ==> f[i + 1] !in {0xDC, 0xDD}
  }

  /** The shortest beginnings that no whole frame has: a byte that is no type
      byte, an empty payload, and extended scan responses that are too short, or
      lack the constant byte, or have the wrong size of advertising data. */
  predicate IsRefuse(f: seq<byte>) {
    || (|f| == 1 && f[0] !in {0x20, 0xA0})
    || (|f| == 2 && f[0] in {0x20, 0xA0} && f[1] == 0)
    || (|f| == 4 && IsExtended(f) && 1 <= f[1] < 18)
    || (|f| == 16 && IsExtended(f) && f[1] >= 18 && f[15] != 0xFF)
    || (|f| >= 22 && IsExtended(f) && (var payload: int := f[1]; |f| == 4 + payload)
        && f[15] == 0xFF && f[21] != |f| - 22)
  }

  /** What holds of the bytes collected so far in the middle of a read. */
  predicate Alive(buf: seq<byte>) {
    && (|buf| >= 1 ==> IsType(buf[0]))
    && (|buf| >= 2 ==> buf[1] != 0 && |buf| < ExpectedLength(buf))
    && (IsGap(buf) ==> ExpectedLength(buf) >= 22)
    && (IsGap(buf) && |buf| >= 16 ==> buf[15] == 0xFF)
    && Unambiguous(buf)
  }

  lemma JudgeAlive(buf: seq<byte>, b: byte)
    requires Alive(buf) && !Skipped(buf, b)
    ensures Judge(buf + [b]) == Continue ==> Alive(buf + [b])
    ensures Judge(buf + [b]) == Accept ==> IsWhole(buf + [b]) && Unambiguous(buf + [b])
    ensures Judge(buf + [b]) == Reject ==> IsRefuse(buf + [b]) && Unambiguous(buf + [b])
  {
    hide Unambiguous, Alive, Judge, Skipped, IsWhole, IsRefuse;
    AliveGrows(buf, b);
    JudgeEnds(buf, b);
    if Judge(buf + [b]) == Continue {
      JudgeGoesOn(buf, b);
    }
  }

  lemma AliveGrows(buf: seq<byte>, b: byte)
    requires Alive(buf) && !Skipped(buf, b)
    ensures Unambiguous(buf + [b]) && (|buf| >= 4 ==> IsGap(buf) == IsGap(buf + [b]))
  {
    hide ExpectedLength;
  }

  lemma JudgeGoesOn(buf: seq<byte>, b: byte)
    requires Alive(buf) && Unambiguous(buf + [b]) && Judge(buf + [b]) == Continue
    ensures Alive(buf + [b])
  {
    hide Unambiguous;
  }

  lemma JudgeEnds(buf: seq<byte>, b: byte)
    requires Alive(buf)
    ensures Judge(buf + [b]) == Accept ==> IsWhole(buf + [b])
    ensures Judge(buf + [b]) == Reject ==> IsRefuse(buf + [b])
  {
    hide Unambiguous;
  }

  lemma {:induction false} ReadFromWhole(buf: seq<byte>, input: seq<byte>)
    requires Alive(buf)
    ensures var r := ReadFrom(buf, input);
            && (r.Frame? ==> IsWhole(r.out) && Unambiguous(r.out))
            && (r.Wrong? ==> IsRefuse(r.out) && Unambiguous(r.out))
    decreases |input|
  {
    if input != [] {
      if Skipped(buf, input[0]) {
        ReadFromWhole(buf, input[1..]);
      } else {
        JudgeAlive(buf, input[0]);
        if Judge(buf + [input[0]]) == Continue {
          ReadFromWhole(buf + [input[0]], input[1..]);
        }
      }
    }
  }

  /** A read that succeeds returns a whole frame without stuffing bytes; one that
      fails before the end of the input returns what no frame begins with. */
  lemma FramesAreWhole(input: seq<byte>)
    ensures ReadOne(input).Frame? ==> IsWhole(ReadOne(input).out) && Unambiguous(ReadOne(input).out)
    ensures ReadOne(input).Wrong? ==> IsRefuse(ReadOne(input).out) && Unambiguous(ReadOne(input).out)
  {
    ReadFromWhole([], input);
  }

  /** The callers' buffer of 260 bytes takes every result whole, and keeps what
      it held behind it. */
  lemma DeliveredWhole(input: seq<byte>, n: nat, status: Status, pending: seq<byte>,
                       before: seq<byte>, after: seq<byte>)
    requires |before| == 260 && Delivered(ReadOne(input), n, status, pending, before, after)
    ensures n < 260 && |after| == 260 && after[n..] == before[n..]
    ensures status == Ok <==> ReadOne(input) == Frame(after[..n], pending)
    ensures status == WrongRead <==> ReadOne(input) == Wrong(after[..n], pending)
    ensures status == Failed <==> ReadOne(input) == End
    ensures status == Failed ==> n == 0
  {
    hide ReadOne, Unambiguous;
    FramesAreWhole(input);
  }

  // ----- what a read consumes ----------------------------------------------

  /** `b` arrives after a DB byte of an extended scan response. */
  predicate IsExtra(kept: seq<byte>, b: byte) {
    IsExtended(kept) && kept[|kept| - 1] == 0xDB && b in {0xDC, 0xDD}
  }

  /** `raw` without the DC and DD bytes that follow a kept DB byte of an
      extended scan response. */
  function Unstuff(raw: seq<byte>): seq<byte> {
    if raw == [] then []
    else
      var kept, b := Unstuff(raw[..|raw| - 1]), raw[|raw| - 1];
      if IsExtra(kept, b) then kept else kept + [b]
  }

  /** The reader jumps over exactly those bytes. */
  lemma UnstuffOne(raw: seq<byte>, b: byte)
    ensures Unstuff(raw + [b]) == if Skipped(Unstuff(raw), b) then Unstuff(raw) else Unstuff(raw) + [b]
    ensures Skipped(Unstuff(raw), b) <==> IsExtra(Unstuff(raw), b)
  {
    assert (raw + [b])[..|raw|] == raw;
  }

  /** `r` consumed `input` up to its rest, after `raw`. */
  predicate Consumed(raw: seq<byte>, input: seq<byte>, r: ReadResult) {
    r.End? || (|r.rest| < |input| && input == input[..|input| - |r.rest|] + r.rest
               && r.out == Unstuff(raw + input[..|input| - |r.rest|]))
  }

  lemma ConsumedLater(raw: seq<byte>, b: byte, tail: seq<byte>, r: ReadResult)
    requires Consumed(raw + [b], tail, r)
    ensures Consumed(raw, [b] + tail, r)
  {
    if !r.End? {
      var k, input := |tail| - |r.rest|, [b] + tail;
      assert input[..k + 1] == [b] + tail[..k];
      assert raw + [b] + tail[..k] == raw + input[..k + 1];
    }
  }

  lemma {:induction false} ReadFromConserves(raw: seq<byte>, input: seq<byte>)
    ensures Consumed(raw, input, ReadFrom(Unstuff(raw), input))
    decreases |input|
  {
    hide Judge, Skipped, Consumed, Unstuff;
    if input == [] {
      ConsumedNothing(raw, ReadFrom(Unstuff(raw), []));
    } else {
      var buf, b, tail := Unstuff(raw), input[0], input[1..];
      assert input == [b] + tail;
      UnstuffOne(raw, b);
      ReadStep(buf, input);
      if Skipped(buf, b) || Judge(buf + [b]) == Continue {
        ReadFromConserves(raw + [b], tail);
        ConsumedLater(raw, b, tail, ReadFrom(buf, input));
      } else {
        ConsumedHere(raw, b, tail, ReadFrom(buf, input));
      }
    }
  }

  lemma ConsumedNothing(raw: seq<byte>, r: ReadResult)
    requires r.End?
    ensures Consumed(raw, [], r)
  {}

  lemma ConsumedHere(raw: seq<byte>, b: byte, tail: seq<byte>, r: ReadResult)
    requires !r.End? && r.rest == tail && r.out == Unstuff(raw + [b])
    ensures Consumed(raw, [b] + tail, r)
  {
    assert ([b] + tail)[..1] == [b];
  }

  /** A read that is not cut off consumes a prefix and returns that prefix
      without its stuffing bytes. */
  lemma ReadConserves(input: seq<byte>)
    ensures var r := ReadOne(input);
            !r.End? ==>
              && |r.rest| < |input|
              && input == input[..|input| - |r.rest|] + r.rest
              && r.out == Unstuff(input[..|input| - |r.rest|])
  {
    ReadFromConserves([], input);
    var r := ReadOne(input);
    if !r.End? {
      assert [] + input[..|input| - |r.rest|] == input[..|input| - |r.rest|];
    }
  }

  /** Unstuffing only appends as bytes arrive; bytes that add nothing are DC or DD. */
  lemma {:induction false} UnstuffGrows(raw: seq<byte>, k: nat)
    requires k <= |raw|
    ensures Unstuff(raw[..k]) <= Unstuff(raw)
    ensures Unstuff(raw[..k]) == Unstuff(raw) ==> forall i :: k <= i < |raw| ==> raw[i] in {0xDC, 0xDD}
  {
    var n := |raw|;
    if k == n {
      assert raw[..k] == raw;
    } else {
      assert raw == raw[..n - 1] + [raw[n - 1]];
      UnstuffOne(raw[..n - 1], raw[n - 1]);
      UnstuffGrows(raw[..n - 1], k);
      assert raw[..n - 1][..k] == raw[..k];
      assert forall i :: k <= i < n - 1 ==> raw[..n - 1][i] == raw[i];
    }
  }

  // ----- reading a frame back ----------------------------------------------

  /** A proper prefix of a whole frame is never judged the end of one. */
  lemma JudgePrefix(f: seq<byte>, buf: seq<byte>)
    requires IsWhole(f) && buf <= f && buf != []
    ensures Judge(buf) == if |buf| == |f| then Accept else Continue
  {
    assert forall i :: 0 <= i < |buf| ==> buf[i] == f[i];
  }

  lemma {:induction false} ReadFromStuffed(raw: seq<byte>, k: nat, rest: seq<byte>) returns (m: nat)
    requires IsWhole(Unstuff(raw))
    requires k <= |raw| && Unstuff(raw[..k]) != Unstuff(raw)
    ensures m <= |raw| && forall i :: m <= i < |raw| ==> raw[i] in {0xDC, 0xDD}
    ensures ReadFrom(Unstuff(raw[..k]), raw[k..] + rest) == Frame(Unstuff(raw), raw[m..] + rest)
    decreases |raw| - k
  {
    hide IsWhole, Unstuff;
    assert raw[..|raw|] == raw;
    var f, buf, input := Unstuff(raw), Unstuff(raw[..k]), raw[k..] + rest;
    var b := raw[k];
    assert input[0] == b && input[1..] == raw[k + 1..] + rest;
    assert raw[..k + 1] == raw[..k] + [b];
    UnstuffOne(raw[..k], b);
    UnstuffGrows(raw, k + 1);
    var next := Unstuff(raw[..k + 1]);
    ReadStep(buf, input);
    if !Skipped(buf, b) {
      JudgePrefix(f, next);
    }
    if next == f {
      m := k + 1;
    } else {
      m := ReadFromStuffed(raw, k + 1, rest);
    }
  }

  /** Any stuffed form of a whole frame is read back as the frame; stuffing
      bytes after its last byte are left for the next read. */
  lemma ReadStuffed(raw: seq<byte>, rest: seq<byte>) returns (m: nat)
    requires IsWhole(Unstuff(raw))
    ensures m <= |raw| && forall i :: m <= i < |raw| ==> raw[i] in {0xDC, 0xDD}
    ensures ReadOne(raw + rest) == Frame(Unstuff(raw), raw[m..] + rest)
  {
    assert raw[..0] == [] && raw[0..] == raw;
    m := ReadFromStuffed(raw, 0, rest);
  }

  lemma {:induction false} UnstuffUnambiguous(f: seq<byte>)
    requires Unambiguous(f)
    ensures Unstuff(f) == f
  {
    if f != [] {
      var n := |f|;
      var front := f[..n - 1];
      assert f == front + [f[n - 1]];
      UnstuffOne(front, f[n - 1]);
      UnstuffUnambiguous(front);
    }
  }

  /** The byte strings that a read returns intact, whatever follows them. */
  lemma ReadIntactIff(f: seq<byte>, rest: seq<byte>)
    ensures ReadOne(f + rest) == Frame(f, rest) <==> IsWhole(f) && Unambiguous(f)
  {
    if ReadOne(f + rest) == Frame(f, rest) {
      ReadFromWhole([], f + rest);
    }
    if IsWhole(f) && Unambiguous(f) {
      UnstuffUnambiguous(f);
      var m := ReadStuffed(f, rest);
      ReadConserves(f + rest);
      NotShorter(f, rest, m);
    }
  }

  /** A frame that is its own unstuffed form is consumed to its last byte. */
  lemma NotShorter(f: seq<byte>, rest: seq<byte>, m: nat)
    requires m <= |f| && Unstuff(f) == f
    requires f == Unstuff((f + rest)[..|f + rest| - |f[m..] + rest|])
    ensures f[m..] + rest == rest
  {
    assert (f + rest)[..|f + rest| - |f[m..] + rest|] == f[..m];
    UnstuffShrinks(f[..m]);
    assert f[m..] == [];
  }

  lemma {:induction false} UnstuffShrinks(raw: seq<byte>)
    ensures |Unstuff(raw)| <= |raw|
  {
    if raw != [] {
      UnstuffShrinks(raw[..|raw| - 1]);
    }
  }

  // ----- what a read gives up on -------------------------------------------

  /** A proper prefix of what is refused is still read on. */
  lemma JudgeRefused(f: seq<byte>, buf: seq<byte>)
    requires IsRefuse(f) && buf <= f && buf != []
    ensures Judge(buf) == if |buf| == |f| then Reject else Continue
  {
    assert forall i :: 0 <= i < |buf| ==> buf[i] == f[i];
  }

  lemma NothingSkipped(f: seq<byte>, k: nat)
    requires Unambiguous(f) && k < |f|
    ensures !Skipped(f[..k], f[k])
  {
    if k >= 4 {
      assert f[..k][k - 1] == f[k - 1] && f[..k][0] == f[0] && f[..k][2] == f[2] && f[..k][3] == f[3];
    }
  }

  lemma {:induction false} ReadFromRefused(f: seq<byte>, k: nat, rest: seq<byte>)
    requires IsRefuse(f) && Unambiguous(f) && k < |f|
    ensures ReadFrom(f[..k], f[k..] + rest) == Wrong(f, rest)
    decreases |f| - k
  {
    hide IsRefuse, Unambiguous;
    var input := f[k..] + rest;
    assert input[0] == f[k] && input[1..] == f[k + 1..] + rest;
    assert f[..k] + [f[k]] == f[..k + 1] && f[..|f|] == f;
    ReadStep(f[..k], input);
    NothingSkipped(f, k);
    JudgeRefused(f, f[..k + 1]);
    if k + 1 < |f| {
      ReadFromRefused(f, k + 1, rest);
    }
  }

  /** The byte strings that a read hands back as wrong, whatever follows them. */
  lemma ReadRefusedIff(f: seq<byte>, rest: seq<byte>)
    ensures ReadOne(f + rest) == Wrong(f, rest) <==> IsRefuse(f) && Unambiguous(f)
  {
    if ReadOne(f + rest) == Wrong(f, rest) {
      FramesAreWhole(f + rest);
    }
    if IsRefuse(f) && Unambiguous(f) {
      assert f[..0] == [] && f[0..] == f;
      ReadFromRefused(f, 0, rest);
    }
  }

  // ----- whole streams -----------------------------------------------------

  /** All reads of an input up to the one that its end cuts off. */
  function ReadAll(input: seq<byte>): seq<ReadResult>
    decreases |input|
  {
    ReadConserves(input);
    var r := ReadOne(input);
    if r.End? then [] else [r] + ReadAll(r.rest)
  }

  /** The pieces of the input that those reads consume. */
  function Pieces(input: seq<byte>): seq<seq<byte>>
    decreases |input|
  {
    ReadConserves(input);
    var r := ReadOne(input);
    if r.End? then [] else [input[..|input| - |r.rest|]] + Pieces(r.rest)
  }

  function Flatten(pieces: seq<seq<byte>>): seq<byte> {
    if pieces == [] then [] else pieces[0] + Flatten(pieces[1..])
  }

  /** Over a whole run every input byte is consumed once and in order, up to the
      cut-off read, and each output is its piece without the stuffing bytes. */
  lemma {:induction false} RunConserves(input: seq<byte>)
    ensures |Pieces(input)| == |ReadAll(input)|
    ensures Flatten(Pieces(input)) <= input
    ensures ReadOne(input[|Flatten(Pieces(input))|..]) == End
    ensures forall i :: 0 <= i < |Pieces(input)| ==>
              !ReadAll(input)[i].End? && ReadAll(input)[i].out == Unstuff(Pieces(input)[i])
    decreases |input|
  {
    hide ReadOne, Unstuff;
    ReadConserves(input);
    var r := ReadOne(input);
    if r.End? {
      assert input[0..] == input;
    } else {
      RunConserves(r.rest);
      var piece, pieces := input[..|input| - |r.rest|], Pieces(r.rest);
      assert Pieces(input) == [piece] + pieces && ReadAll(input) == [r] + ReadAll(r.rest);
      FlattenCons(piece, pieces, r.rest);
    }
  }

  lemma FlattenCons(piece: seq<byte>, pieces: seq<seq<byte>>, rest: seq<byte>)
    requires Flatten(pieces) <= rest
    ensures var longer := [piece] + pieces;
            Flatten(longer) <= piece + rest && (piece + rest)[|Flatten(longer)|..] == rest[|Flatten(pieces)|..]
  {
    var flat := Flatten(pieces);
    assert ([piece] + pieces)[1..] == pieces;
    assert Flatten([piece] + pieces) == piece + flat;
    assert piece + rest == piece + flat + rest[|flat|..];
  }

  function FramesOf(results: seq<ReadResult>): seq<seq<byte>> {
    if results == [] then []
    else (if results[0].Frame? then [results[0].out] else []) + FramesOf(results[1..])
  }

  /** The frame `f` as the firmware sends it: after byte `i` comes `extra[i]`. */
  function Insert(f: seq<byte>, extra: seq<seq<byte>>, k: nat): seq<byte>
    requires k <= |f| == |extra|
  {
    if k == 0 then [] else Insert(f, extra, k - 1) + [f[k - 1]] + extra[k - 1]
  }

  predicate AllStuffing(s: seq<byte>) {
    forall i :: 0 <= i < |s| ==> s[i] in {0xDC, 0xDD}
  }

  /** DC and DD bytes only, and only after DB bytes of extended scan responses. */
  predicate IsStuffed(f: seq<byte>, extra: seq<seq<byte>>) {
    && |f| == |extra|
    && forall i :: 0 <= i < |f| && extra[i] != [] ==> IsExtended(f) && i >= 4 && f[i] == 0xDB && AllStuffing(extra[i])
  }

  lemma {:induction false} UnstuffRun(raw: seq<byte>, run: seq<byte>)
    requires AllStuffing(run)
    requires run != [] ==> IsGap(Unstuff(raw)) && Unstuff(raw)[|Unstuff(raw)| - 1] == 0xDB
    ensures Unstuff(raw + run) == Unstuff(raw)
  {
    hide Unstuff;
    if run == [] {
      assert raw + run == raw;
    } else {
      var n := |run| - 1;
      assert raw + run == raw + run[..n] + [run[n]];
      UnstuffRun(raw, run[..n]);
      UnstuffOne(raw + run[..n], run[n]);
    }
  }

  /** The inserted bytes are exactly the ones that are dropped. */
  lemma {:induction false} UnstuffInsert(f: seq<byte>, extra: seq<seq<byte>>, k: nat)
    requires Unambiguous(f) && IsStuffed(f, extra) && k <= |f|
    ensures Unstuff(Insert(f, extra, k)) == f[..k]
  {
    hide Unstuff;
    if k == 0 {
      NothingUnstuffed();
    } else {
      var sent, b := Insert(f, extra, k - 1), f[k - 1];
      UnstuffInsert(f, extra, k - 1);
      assert f[..k] == f[..k - 1] + [b];
      assert k - 1 >= 4 ==> IsGap(f[..k - 1]) == IsGap(f);
      UnstuffOne(sent, b);
      UnstuffRun(sent + [b], extra[k - 1]);
    }
  }

  lemma NothingUnstuffed()
    ensures Unstuff([]) == []
  {}

  /** Bytes between frames, and then a frame with stuffing bytes in it. */
  datatype Item = Item(noise: seq<byte>, frame: seq<byte>, extra: seq<seq<byte>>)

  predicate IsNoise(s: seq<byte>) {
    forall i :: 0 <= i < |s| ==> s[i] !in {0x20, 0xA0}
  }

  predicate IsItem(it: Item) {
    IsNoise(it.noise) && IsWhole(it.frame) && Unambiguous(it.frame) && IsStuffed(it.frame, it.extra)
  }

  function Sent(it: Item): seq<byte>
    requires IsItem(it)
  {
    Insert(it.frame, it.extra, |it.frame|)
  }

  lemma SentUnstuffs(it: Item)
    requires IsItem(it)
    ensures Unstuff(Sent(it)) == it.frame
  {
    UnstuffInsert(it.frame, it.extra, |it.frame|);
    assert it.frame[..|it.frame|] == it.frame;
  }

  /** The frames that were sent. */
  function Frames(items: seq<Item>): seq<seq<byte>> {
    if items == [] then [] else [items[0].frame] + Frames(items[1..])
  }

  function Stream(items: seq<Item>, noise: seq<byte>): seq<byte>
    requires forall i :: 0 <= i < |items| ==> IsItem(items[i])
  {
    if items == [] then noise else items[0].noise + (Sent(items[0]) + Stream(items[1..], noise))
  }

  lemma {:induction false} NoiseSkipped(noise: seq<byte>, rest: seq<byte>)
    requires IsNoise(noise)
    ensures FramesOf(ReadAll(noise + rest)) == FramesOf(ReadAll(rest))
  {
    if noise == [] {
      assert noise + rest == rest;
    } else {
      var input := noise + rest;
      ReadStep([], input);
      assert input[1..] == noise[1..] + rest;
      assert [] + [input[0]] == [input[0]];
      assert ReadOne(input) == Wrong([noise[0]], noise[1..] + rest);
      NoiseSkipped(noise[1..], rest);
      assert ReadAll(input)[1..] == ReadAll(noise[1..] + rest);
    }
  }

  /** A stream of whole frames, each in any stuffed form, with anything but
      type bytes around them, is read as exactly those frames. */
  lemma {:induction false} StreamRoundTrip(items: seq<Item>, noise: seq<byte>)
    requires IsNoise(noise) && forall i :: 0 <= i < |items| ==> IsItem(items[i])
    ensures FramesOf(ReadAll(Stream(items, noise))) == Frames(items)
  {
    hide IsWhole, Unstuff, ReadOne, Sent, Insert, Unambiguous, IsStuffed;
    if items == [] {
      NoiseSkipped(noise, []);
      assert noise + [] == noise;
      NothingRead();
    } else {
      var it, later := items[0], Stream(items[1..], noise);
      var raw := Sent(it);
      NoiseSkipped(it.noise, raw + later);
      SentUnstuffs(it);
      var m := ReadStuffed(raw, later);
      var trail := raw[m..];
      FrameThen(raw + later, it.frame, trail + later);
      NoiseSkipped(trail, later);
      StreamRoundTrip(items[1..], noise);
    }
  }

  lemma NothingRead()
    ensures ReadAll([]) == []
  {}

  lemma FrameThen(input: seq<byte>, f: seq<byte>, rest: seq<byte>)
    requires ReadOne(input) == Frame(f, rest)
    ensures FramesOf(ReadAll(input)) == [f] + FramesOf(ReadAll(rest))
  {
    assert ReadAll(input)[1..] == ReadAll(rest);
  }
}
