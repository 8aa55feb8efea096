/** crypt/crypt.go: the streaming CBC-MAC and CCM sealing and opening. */
module Crypt {
  import opened Bytes
  import opened CcmSpec

  // ----- streaming CBC-MAC -------------------------------------------------

  /** `ci` and `p` are what remains of the bytes `fed`: whole blocks have been
      folded in, except that the last one may still be waiting (`p == 16`). */
  ghost predicate Absorbs(e: Cipher, ci: seq<byte>, p: nat, fed: seq<byte>) {
    && p <= 16 && p <= |fed| && (|fed| - p) % 16 == 0
    && ci == XorInto(CbcMac(e, fed[..|fed| - p]), fed[|fed| - p..])
  }

  class Mac {
    const c: Cipher
    const ci: array<byte>
    var p: nat
    /** Everything written since the last reset, with the padding. */
    ghost var fed: seq<byte>

    ghost predicate Valid()
      reads this, ci
    {
      ci.Length == 16 && p <= 16 && Absorbs(c, ci[..], p, fed)
    }

    constructor (c: Cipher)
      ensures this.c == c && Valid() && fed == [] && fresh(ci)
    {
      this.c := c;
      ci := new byte[16](_ => 0);
      p := 0;
      fed := [];
      new;
      assert ci[..] == Zeros(16) == XorInto(CbcMac(c, []), []);
    }

    method Encrypt()
      requires ci.Length == 16
      modifies ci
      ensures ci[..] == c(old(ci[..]))
    {
      CopyInto(ci, 0, c(ci[..]));
    }

    method Reset()
      requires ci.Length == 16
      modifies this, ci
      ensures Valid() && fed == []
    {
      for i := 0 to ci.Length
        invariant forall k :: 0 <= k < i ==> ci[k] == 0
      {
        ci[i] := 0;
      }
      p := 0;
      fed := [];
      assert ci[..] == Zeros(16) == XorInto(CbcMac(c, []), []);
    }

    method Write(s: seq<byte>)
      requires Valid()
      modifies this, ci
      ensures Valid() && fed == old(fed) + s
    {
      hide Absorbs, CbcMac, Xor;
      for i := 0 to |s|
        invariant Valid() && fed == old(fed) + s[..i]
      {
        if p >= ci.Length {
          ghost var full := ci[..];
          Encrypt();
          p := 0;
          EncryptFull(c, full, fed);
        }
        ghost var before := ci[..];
        ci[p] := Xor(ci[p], s[i]);
        AbsorbOne(c, before, p, fed, s[i], ci[..]);
        p := p + 1;
        fed := fed + [s[i]];
        assert s[..i + 1] == s[..i] + [s[i]];
      }
      assert s[..|s|] == s;
    }

    method PadZero()
      requires Valid()
      modifies this, ci
      ensures Valid() && p == 0 && fed == Pad(old(fed))
    {
      if p != 0 {
        ghost var before := ci[..];
        Encrypt();
        PadPartial(c, before, p, fed);
        p := 0;
      } else {
        assert Pad(fed) == fed;
      }
      fed := Pad(fed);
      Boundary(c, ci[..], fed);
    }

    method Sum(prefix: seq<byte>) returns (r: seq<byte>)
      requires Valid()
      modifies this, ci
      ensures Valid() && fed == Pad(old(fed)) && r == prefix + CbcMac(c, fed)
    {
      if p != 0 {
        ghost var before := ci[..];
        Encrypt();
        PadPartial(c, before, p, fed);
        p := 0;
      } else {
        assert Pad(fed) == fed;
      }
      fed := Pad(fed);
      Boundary(c, ci[..], fed);
      r := prefix + ci[..];
    }
  }

  /** With nothing pending, the state is the MAC so far. */
  lemma Boundary(e: Cipher, ci: seq<byte>, fed: seq<byte>)
    requires |fed| % 16 == 0
    ensures Absorbs(e, ci, 0, fed) <==> ci == CbcMac(e, fed)
  {
    assert fed[..|fed| - 0] == fed && fed[|fed| - 0..] == [];
    assert XorInto(CbcMac(e, fed), []) == CbcMac(e, fed);
  }

  /** Encrypting a waiting block folds it in. */
  lemma EncryptFull(e: Cipher, ci: seq<byte>, fed: seq<byte>)
    requires Absorbs(e, ci, 16, fed)
    ensures Absorbs(e, e(ci), 0, fed)
  {
    Boundary(e, e(ci), fed);
  }

  lemma AbsorbOne(e: Cipher, ci: seq<byte>, p: nat, fed: seq<byte>, b: byte, ci': seq<byte>)
    requires Absorbs(e, ci, p, fed) && p < 16
    requires ci' == ci[p := Xor(ci[p], b)]
    ensures Absorbs(e, ci', p + 1, fed + [b])
  {
    var done := |fed| - p;
    assert (fed + [b])[..done] == fed[..done];
    assert (fed + [b])[done..] == fed[done..] + [b];
  }

  /** Padding fills the pending part up to a block. */
  lemma PadOfPending(fed: seq<byte>, done: nat, p: nat)
    requires |fed| == done + p && done % 16 == 0 && 0 < p <= 16
    ensures Pad(fed) == fed + Zeros(16 - p)
  {
    PadLengthOf(|fed|, done / 16, p);
  }

  lemma PadLengthOf(n: nat, k: nat, p: nat)
    requires n == 16 * k + p && 0 < p <= 16
    ensures PadLength(n) == 16 - p
  {}

  lemma CbcLast(e: Cipher, front: seq<byte>, block: Block)
    requires |front| % 16 == 0
    ensures |front + block| % 16 == 0
    ensures CbcMac(e, front + block) == e(XorInto(CbcMac(e, front), block))
  {
    var s := front + block;
    assert s[..|s| - 16] == front && s[|s| - 16..] == block;
  }

  /** Zeros change nothing. */
  lemma XorIntoPadded(acc: Block, s: seq<byte>, n: nat)
    requires |s| + n == 16
    ensures XorInto(acc, s + Zeros(n)) == XorInto(acc, s)
  {
    var padded := s + Zeros(n);
    forall i | 0 <= i < 16
      ensures XorInto(acc, padded)[i] == XorInto(acc, s)[i]
    {
      if i >= |s| {
        XorZero(acc[i]);
      }
    }
  }

  /** Encrypting a partly filled block is absorbing it padded with zeros. */
  lemma PadPartial(e: Cipher, ci: seq<byte>, p: nat, fed: seq<byte>)
    requires Absorbs(e, ci, p, fed) && p > 0
    ensures e(ci) == CbcMac(e, Pad(fed))
  {
    hide CbcMac, XorInto, Pad;
    var done := |fed| - p;
    var front, pending := fed[..done], fed[done..];
    PadOfPending(fed, done, p);
    assert Pad(fed) == front + (pending + Zeros(16 - p));
    CbcLast(e, front, pending + Zeros(16 - p));
    XorIntoPadded(CbcMac(e, front), pending, 16 - p);
  }

  lemma XorZero(b: byte)
    ensures Xor(b, 0) == b
  {
    XorBitsZero(b, 8);
    Pow2Of8();
  }

  lemma {:induction false} XorBitsZero(b: nat, n: nat)
    requires b < Pow2(n)
    ensures XorBits(b, 0, n) == b
  {
    if n > 0 {
      XorBitsZero(b / 2, n - 1);
    }
  }

  // ----- counter mode of the Go library ------------------------------------

  /** The library's counter step: a big-endian increment with carry. */
  function Increment(b: seq<byte>): (r: seq<byte>)
    ensures |r| == |b|
  {
    if b == [] then []
    else if b[|b| - 1] == 255 then Increment(b[..|b| - 1]) + [0]
    else b[..|b| - 1] + [b[|b| - 1] + 1]
  }

  function Advance(b: Block, k: nat): Block {
    if k == 0 then b else Increment(Advance(b, k - 1))
  }

  /** What `cipher.NewCTR(c, iv).XORKeyStream` produces. */
  function XorKeyStream(e: Cipher, iv: Block, s: seq<byte>): (r: seq<byte>)
    ensures |r| == |s|
  {
    seq<byte>(|s|, i requires 0 <= i < |s| => Xor(s[i], e(Advance(iv, i / 16))[i % 16]))
  }

  lemma {:induction false} IncrementBigEndian(u: nat, n: nat)
    requires u + 1 < Pow256(n)
    ensures Increment(BigEndian(u, n)) == BigEndian(u + 1, n)
  {
    if n > 0 {
      var b := BigEndian(u, n);
      assert b[..n - 1] == BigEndian(u / 256, n - 1);
      assert b[n - 1] == u % 256;
      if u % 256 == 255 {
        IncrementBigEndian(u / 256, n - 1);
        assert (u + 1) / 256 == u / 256 + 1 && (u + 1) % 256 == 0;
      } else {
        assert (u + 1) / 256 == u / 256 && (u + 1) % 256 == u % 256 + 1;
      }
    }
  }

  /** A carry that the tail absorbs leaves the head alone. */
  lemma {:induction false} IncrementTail(head: seq<byte>, tail: seq<byte>)
    requires exists i :: 0 <= i < |tail| && tail[i] != 255
    ensures Increment(head + tail) == head + Increment(tail)
  {
    var b := head + tail;
    assert b[..|b| - 1] == head + tail[..|tail| - 1];
    if tail[|tail| - 1] == 255 {
      var i :| 0 <= i < |tail| && tail[i] != 255;
      assert tail[..|tail| - 1][i] != 255;
      IncrementTail(head, tail[..|tail| - 1]);
    }
  }

  lemma {:induction false} NotAllOnes(u: nat, n: nat)
    requires u + 1 < Pow256(n)
    ensures exists i :: 0 <= i < n && BigEndian(u, n)[i] != 255
  {
    var b := BigEndian(u, n);
    assert n > 0;
    if u % 256 != 255 {
      assert b[n - 1] != 255;
    } else {
      NotAllOnes(u / 256, n - 1);
      var i :| 0 <= i < n - 1 && BigEndian(u / 256, n - 1)[i] != 255;
      assert b[i] != 255;
    }
  }

  lemma IncrementCtr(nonce: seq<byte>, j: nat)
    requires 7 <= |nonce| <= 13 && j + 1 < Pow256(Q(nonce))
    ensures Increment(Ctr(nonce, j)) == Ctr(nonce, j + 1)
  {
    hide Increment, BigEndian, Pow256;
    var q := Q(nonce);
    var head: seq<byte> := [q - 1] + nonce;
    NotAllOnes(j, q);
    IncrementTail(head, BigEndian(j, q));
    IncrementBigEndian(j, q);
  }

  /** The library's increments walk through the standard's counter blocks and
      never carry into the nonce. */
  lemma {:induction false} AdvanceIsCtr(nonce: seq<byte>, k: nat)
    requires 7 <= |nonce| <= 13
    requires 1 + k < Pow256(Q(nonce))
    ensures Advance(Ctr(nonce, 1), k) == Ctr(nonce, 1 + k)
  {
    hide Ctr, Pow256, Increment;
    if k > 0 {
      AdvanceIsCtr(nonce, k - 1);
      IncrementCtr(nonce, k);
    }
  }

  /** A payload within the limit needs fewer counter values than there are. */
  lemma CounterFits(nonce: seq<byte>, n: nat, i: nat)
    requires 7 <= |nonce| <= 13
    requires i < n <= MaxPayload(nonce)
    ensures 1 + i / 16 < Pow256(Q(nonce))
  {
    Pow256Monotone(2, Q(nonce));
    Pow256Small();
  }

  lemma KeyStreamIsCtr(e: Cipher, nonce: seq<byte>, s: seq<byte>)
    requires 7 <= |nonce| <= 13
    requires |s| <= MaxPayload(nonce)
    ensures XorKeyStream(e, Ctr(nonce, 1), s) == CtrCrypt(e, nonce, s)
  {
    hide Ctr, Advance, Xor, Pow256;
    forall i | 0 <= i < |s|
      ensures Advance(Ctr(nonce, 1), i / 16) == Ctr(nonce, 1 + i / 16)
    {
      CounterFits(nonce, |s|, i);
      AdvanceIsCtr(nonce, i / 16);
    }
    var x, y := XorKeyStream(e, Ctr(nonce, 1), s), CtrCrypt(e, nonce, s);
    assert forall i :: 0 <= i < |s| ==> x[i] == y[i];
  }

  // ----- number formatting -------------------------------------------------

  const UINT64: nat := 0x1_0000_0000_0000_0000

  /** `1<<uint(n*8) - 1` on a 64-bit unsigned number. */
  function MaxUvarint(n: nat): (r: nat)
    ensures 1 <= n <= 8 ==> r == Pow256(n) - 1
  {
    Pow256Small();
    Pow256Below8(n);
    (Pow256(n) % UINT64 - 1) % UINT64
  }

  lemma Pow256Below8(n: nat)
    ensures n < 8 ==> Pow256(n) < UINT64
  {
    if n < 8 {
      Pow256Monotone(n, 7);
      Pow256Small();
    }
  }

  /** `putUvarint(bs[lo:hi], u)`. */
  method PutUvarint(bs: array<byte>, lo: nat, hi: nat, u: nat)
    requires lo <= hi <= bs.Length
    modifies bs
    ensures bs[..] == old(bs[..lo]) + BigEndian(u, hi - lo) + old(bs[hi..])
  {
    var n := hi - lo;
    for i := 0 to n
      invariant forall k :: 0 <= k < i ==> bs[lo + k] == BigEndian(u, n)[k]
      invariant forall k :: 0 <= k < bs.Length && !(lo <= k < lo + i) ==> bs[k] == old(bs[k])
    {
      bs[lo + i] := u / Pow256(n - 1 - i) % 256;
      BigEndianAt(u, n, i);
    }
  }

  /** `xorBytes(dst[at:], dst[at:], b)` for a 16-byte block. */
  method XorBytesAt(dst: array<byte>, at: nat, b: Block)
    requires at + 16 <= dst.Length
    modifies dst
    ensures dst[..] == old(dst[..at]) + XorInto(old(dst[at..at + 16]), b) + old(dst[at + 16..])
  {
    for i := 0 to 16
      invariant forall k :: 0 <= k < i ==> dst[at + k] == Xor(old(dst[at + k]), b[k])
      invariant forall k :: 0 <= k < dst.Length && !(at <= k < at + i) ==> dst[k] == old(dst[k])
    {
      dst[at + i] := Xor(dst[at + i], b[i]);
    }
  }

  // ----- CCM ---------------------------------------------------------------

  datatype CcmError = InvalidNonceSize | InvalidTagSize | NoError

  /** What `byte(((tagSize - 2) / 2) << 3)` is: Go's division truncates, and the
      conversion keeps the low eight bits of a negative number too. */
  function TagFlags(tagSize: nat): byte {
    if tagSize < 2 then (-((2 - tagSize) / 2) * 8) % 256
    else ((tagSize - 2) / 2 * 8) % 256
  }

  lemma OrDisjoint8(low: byte, c: nat)
    requires low < 8 && 8 * c < 256
    ensures Or(low, 8 * c) == low + 8 * c
  {
    assert Pow2(3) == 8;
    Pow2Of8();
    OrBitsDisjoint(low, c, 3, 8);
  }

  lemma Or64(a: byte)
    ensures Or(a, 64) == if a / 64 % 2 == 1 then a else a + 64
  {
    assert Pow2(6) == 64 by { assert Pow2(3) == 8; }
    Pow2Of8();
    OrBitsSingle(a, 6, 8);
  }

  /** Or-ing the tag size and the data bit into the first counter byte gives
      the first byte of B0. */
  lemma FlagsByOr(q: nat, tagSize: nat)
    requires 2 <= q <= 8 && LegalSizes(15 - q, tagSize)
    ensures Or(q - 1, TagFlags(tagSize)) == Flags(false, tagSize, q)
    ensures Or(Flags(false, tagSize, q), 64) == Flags(true, tagSize, q)
  {
    assert Or(q - 1, TagFlags(tagSize)) == Flags(false, tagSize, q) by {
      var c := if tagSize == 0 then 31 else (tagSize - 2) / 2;
      assert TagFlags(tagSize) == 8 * c;
      OrDisjoint8(q - 1, c);
    }
    assert Or(Flags(false, tagSize, q), 64) == Flags(true, tagSize, q) by {
      Or64(Flags(false, tagSize, q));
    }
  }

  /** From the counter block to B0 without data. */
  lemma B0Built(ctr: seq<byte>, b: seq<byte>, nonce: seq<byte>, tagSize: nat, n: nat)
    requires LegalSizes(|nonce|, tagSize)
    requires |ctr| == 16 && ctr[0] == 14 - |nonce| && ctr[1..1 + |nonce|] == nonce
    requires b == ctr[0 := Or(ctr[0], TagFlags(tagSize))][..1 + |nonce|] + BigEndian(n, Q(nonce))
    ensures b == B0(nonce, tagSize, false, n)
    ensures b[0 := Or(b[0], 64)] == B0(nonce, tagSize, true, n)
  {
    hide Or, TagFlags, Flags, BigEndian;
    FlagsByOr(15 - |nonce|, tagSize);
    assert b[0] == Or(ctr[0], TagFlags(tagSize)) && b[1..1 + |nonce|] == nonce;
  }

  lemma NoData(nonce: seq<byte>, tagSize: nat, n: nat)
    requires LegalSizes(|nonce|, tagSize)
    ensures Head(nonce, tagSize, [], n) == B0(nonce, tagSize, false, n)
  {}

  /** Padding what follows whole blocks pads only that. */
  lemma PadAfterBlocks(a: seq<byte>, s: seq<byte>)
    requires |a| % 16 == 0
    ensures Pad(a + s) == a + Pad(s)
  {
    assert |a + s| % 16 == |s| % 16;
  }

  lemma PadWhole(s: seq<byte>)
    requires |s| % 16 == 0
    ensures Pad(s) == s
  {}

  class Ccm {
    const c: Cipher
    const mac: Mac
    const nonceSize: nat
    const tagSize: nat

    ghost predicate Valid()
      reads mac, mac.ci
    {
      mac.Valid() && mac.c == c && LegalSizes(nonceSize, tagSize)
    }

    constructor (c: Cipher, nonceSize: nat, tagSize: nat)
      requires LegalSizes(nonceSize, tagSize)
      ensures Valid() && fresh(mac) && fresh(mac.ci)
      ensures this.c == c && this.nonceSize == nonceSize && this.tagSize == tagSize
    {
      this.c, this.nonceSize, this.tagSize := c, nonceSize, tagSize;
      mac := new Mac(c);
    }

    /** The length prefix is built in the block that held B0. */
    method WriteData(b: array<byte>, data: seq<byte>)
      requires Valid() && b.Length == 16 && b != mac.ci
      requires |mac.fed| % 16 == 0 && 0 < |data| < UINT64
      modifies mac, mac.ci, b
      ensures Valid() && mac.fed == old(mac.fed) + DataBlocks(data)
    {
      hide Absorbs, CbcMac;
      ghost var prefix := DataLength(|data|);
      if |data| < 0x8000 - 0x80 {
        PutUvarint(b, 0, 2, |data|);
        assert b[..2] == prefix;
        mac.Write(b[..2]);
      } else if |data| <= 0x7FFF_FFFF {
        b[0] := 0xFF;
        b[1] := 0xFE;
        PutUvarint(b, 2, 6, |data|);
        assert b[..6] == prefix;
        mac.Write(b[..6]);
      } else {
        b[0] := 0xFF;
        b[1] := 0xFF;
        PutUvarint(b, 2, 10, |data|);
        assert b[..10] == prefix;
        mac.Write(b[..10]);
      }
      mac.Write(data);
      assert mac.fed == old(mac.fed) + (prefix + data);
      PadAfterBlocks(old(mac.fed), prefix + data);
      mac.PadZero();
    }

    /** The block `ctr` is turned into B0 and then into the length prefix of
        the data, in place. The result does not depend on what the shared MAC
        object did before. */
    method GetTag(ctr: array<byte>, data: seq<byte>, plaintext: seq<byte>) returns (r: Block)
      requires Valid() && ctr.Length == 16 && ctr != mac.ci
      requires ctr[0] == 14 - nonceSize
      requires |data| < UINT64
      modifies mac, mac.ci, ctr
      ensures Valid()
      ensures r == Tag(c, old(ctr[1..1 + nonceSize]), tagSize, data, plaintext)
    {
      hide Absorbs, CbcMac, Or, B0, DataBlocks, Pad;
      ghost var before, nonce := ctr[..], ctr[1..1 + nonceSize];
      ghost var head := Head(nonce, tagSize, data, |plaintext|);
      mac.Reset();

      ctr[0] := Or(ctr[0], TagFlags(tagSize));
      ghost var flagged := ctr[..];
      assert flagged == before[0 := flagged[0]];
      PutUvarint(ctr, 1 + nonceSize, 16, |plaintext|);
      B0Built(before, ctr[..], nonce, tagSize, |plaintext|);

      if |data| > 0 {
        ctr[0] := Or(ctr[0], 64);
        mac.Write(ctr[..]);
        WriteData(ctr, data);
      } else {
        mac.Write(ctr[..]);
        NoData(nonce, tagSize, |plaintext|);
      }
      assert mac.fed == head;
      mac.Write(plaintext);
      PadAfterBlocks(head, plaintext);
      mac.PadZero();
      assert mac.fed == Formatted(nonce, tagSize, data, plaintext);
      PadWhole(mac.fed);
      r := mac.Sum([]);
    }

    /** `dst` is extended with the sealed payload; nil when the payload is too
        long. The slice returned is as long as the sealed payload alone. */
    method Seal(dst: seq<byte>, nonce: seq<byte>, plaintext: seq<byte>, data: seq<byte>)
        returns (r: Option<seq<byte>>)
      requires Valid() && |nonce| == nonceSize && |data| < UINT64
      modifies mac, mac.ci
      ensures Valid()
      ensures r == if |plaintext| > MaxPayload(nonce) then None
                   else Some(SealInto(c, dst, nonce, tagSize, data, plaintext))
    {
      hide Absorbs, Tag, Ctr, XorInto, CtrCrypt, Pow256;
      var n := |plaintext|;
      if MaxUvarint(15 - nonceSize) < n {
        return None;
      }

      var ret, ctr := EncryptedBuffer(dst, nonce, plaintext);
      var tag := GetTag(ctr, data, plaintext);
      var s0At := |dst| + n;
      ghost var front, s0 := dst + CtrCrypt(c, nonce, plaintext), c(Ctr(nonce, 0));
      assert ret[..s0At] == front && ret[s0At..s0At + 16] == s0;
      XorBytesAt(ret, s0At, tag);
      assert ret[..] == front + XorInto(s0, tag);
      r := Some(ret[..n + tagSize]);
    }

    /** The output buffer with `dst`, the encrypted payload and S0 in it, and
        the counter block Ctr1. */
    method EncryptedBuffer(dst: seq<byte>, nonce: seq<byte>, plaintext: seq<byte>)
        returns (ret: array<byte>, ctr: array<byte>)
      requires Valid() && |nonce| == nonceSize && |plaintext| <= MaxPayload(nonce)
      ensures fresh(ret) && ret[..] == dst + CtrCrypt(c, nonce, plaintext) + c(Ctr(nonce, 0))
      ensures fresh(ctr) && ctr != ret && ctr.Length == 16 && ctr[..] == Ctr(nonce, 1)
      ensures ctr[0] == 14 - nonceSize && ctr[1..1 + nonceSize] == nonce
    {
      hide Absorbs, Ctr, CtrCrypt, XorKeyStream, Pow256;
      var start, n := |dst|, |plaintext|;
      ret := new byte[start + n + 16](_ => 0);
      CopyInto(ret, 0, dst);
      ghost var r1 := ret[..];
      assert r1[..start] == dst;

      var s0;
      s0, ctr := StartCounter(nonce);
      CopyInto(ret, start + n, s0);
      ghost var r2 := ret[..];
      assert r2[..start] == r1[..start] && r2[start + n..] == s0;

      KeyStreamIsCtr(c, nonce, plaintext);
      var encrypted := XorKeyStream(c, ctr[..], plaintext);
      CopyInto(ret, start, encrypted);
      ghost var r3 := ret[..];
      assert r3 == r2[..start] + encrypted + r2[start + n..];
      assert r3 == dst + encrypted + s0;
    }

    method Open(dst: seq<byte>, nonce: seq<byte>, ciphertext: seq<byte>, data: seq<byte>)
        returns (r: Opened)
      requires Valid() && |nonce| == nonceSize && |data| < UINT64
      requires |ciphertext| > tagSize
      modifies mac, mac.ci
      ensures Valid()
      ensures r == match CcmSpec.Open(c, nonce, tagSize, data, ciphertext)
                   case Plain(p) => Plain(dst + p)
                   case other => other
    {
      hide Absorbs, Tag, Ctr, CtrCrypt, XorInto, Pow256;
      if MaxUvarint(15 - nonceSize) < |ciphertext| - tagSize {
        return TooLong;
      }

      var n := |ciphertext| - tagSize;
      var s0, ctr := StartCounter(nonce);
      KeyStreamIsCtr(c, nonce, ciphertext[..n]);
      var plaintext := XorKeyStream(c, ctr[..], ciphertext[..n]);

      var tag := GetTag(ctr, data, plaintext);
      var t := MaskTag(tag, s0);
      if t[..tagSize] != ciphertext[n..] {
        return AuthFailed;
      }
      r := Plain(dst + plaintext);
    }

    /** `Seal(buf[:0], nonce, buf[:n], data)` with room for the tag in `buf`: the
        output shares its array with the payload, which the AEAD interface allows.
        The payload is encrypted before the tag is computed over it. */
    method SealInPlace(buf: array<byte>, n: nat, nonce: seq<byte>, data: seq<byte>) returns (m: Option<nat>)
      requires Valid() && |nonce| == nonceSize && |data| < UINT64
      requires n + 16 <= buf.Length && buf != mac.ci
      modifies mac, mac.ci, buf
      ensures Valid()
      ensures n > MaxPayload(nonce) ==> m == None && buf[..] == old(buf[..])
      ensures n <= MaxPayload(nonce) ==>
                && m == Some(n + tagSize)
                && buf[..m.value] == SealOver(c, nonce, tagSize, data, old(buf[..n]))
                && buf[n + 16..] == old(buf[n + 16..])
    {
      hide Absorbs, Tag, Ctr, XorInto, CtrCrypt, Pow256;
      if MaxUvarint(15 - nonceSize) < n {
        return None;
      }
      ghost var payload := buf[..n];

      var s0, ctr := StartCounter(nonce);
      CopyInto(buf, n, s0);
      ghost var masked := buf[..];
      assert masked[..n] == payload && masked[n..n + 16] == s0;

      XorKeyStreamInPlace(buf, n, nonce, ctr[..]);
      ghost var encrypted := CtrCrypt(c, nonce, payload);

      var tag := GetTag(ctr, data, buf[..n]);
      ghost var untagged := buf[..];
      assert untagged[n..] == masked[n..] && untagged[..n] == encrypted;
      XorBytesAt(buf, n, tag);
      TagInBuffer(untagged, n, s0, tag, tagSize);
      m := Some(n + tagSize);
    }

    /** `Open(buf[:0], nonce, buf[:n], data)`: the payload replaces its
        ciphertext, also when it turns out not to be authentic. */
    method OpenInPlace(buf: array<byte>, n: nat, nonce: seq<byte>, data: seq<byte>) returns (r: Opened)
      requires Valid() && |nonce| == nonceSize && |data| < UINT64
      requires tagSize < n <= buf.Length && buf != mac.ci
      modifies mac, mac.ci, buf
      ensures Valid()
      ensures r == CcmSpec.Open(c, nonce, tagSize, data, old(buf[..n]))
      ensures buf[n - tagSize..] == old(buf[n - tagSize..])
      ensures buf[..n - tagSize] == if r == TooLong then old(buf[..n - tagSize])
                                    else CtrCrypt(c, nonce, old(buf[..n - tagSize]))
    {
      hide Absorbs, Tag, Ctr, CtrCrypt, XorInto, Pow256;
      var k := n - tagSize;
      if MaxUvarint(15 - nonceSize) < k {
        return TooLong;
      }
      ghost var before := buf[..];
      assert before[..n][..k] == before[..k] && before[..n][k..] == before[k..n];

      var s0, ctr := StartCounter(nonce);
      XorKeyStreamInPlace(buf, k, nonce, ctr[..]);

      var tag := GetTag(ctr, data, buf[..k]);
      var t := MaskTag(tag, s0);

      assert buf[k..n] == before[k..n];
      if t[..tagSize] != buf[k..n] {
        return AuthFailed;
      }
      r := Plain(buf[..k]);
    }

    /** The key stream from Ctr1 over the first `k` bytes of `buf`, in place. */
    method XorKeyStreamInPlace(buf: array<byte>, k: nat, nonce: seq<byte>, ctr: Block)
      requires |nonce| == nonceSize && 7 <= nonceSize <= 13 && ctr == Ctr(nonce, 1)
      requires k <= buf.Length && k <= MaxPayload(nonce)
      modifies buf
      ensures buf[..k] == CtrCrypt(c, nonce, old(buf[..k])) && buf[k..] == old(buf[k..])
    {
      hide Ctr, CtrCrypt, XorKeyStream, Pow256;
      KeyStreamIsCtr(c, nonce, buf[..k]);
      CopyInto(buf, 0, XorKeyStream(c, ctr, buf[..k]));
    }

    /** The tag masked with S0, as opening compares it. */
    method MaskTag(tag: Block, s0: Block) returns (t: seq<byte>)
      ensures t == XorInto(s0, tag)
    {
      hide XorInto;
      var masked := new byte[16](_ => 0);
      CopyInto(masked, 0, tag);
      assert masked[..] == tag;
      XorBytesAt(masked, 0, s0);
      XorIntoCommutes(tag, s0);
      t := masked[..];
    }

    /** S0 and the counter block Ctr1, as both directions prepare them. */
    method StartCounter(nonce: seq<byte>) returns (s0: Block, ctr: array<byte>)
      requires Valid() && |nonce| == nonceSize
      ensures s0 == c(Ctr(nonce, 0))
      ensures fresh(ctr) && ctr.Length == 16 && ctr[..] == Ctr(nonce, 1)
      ensures ctr[0] == 14 - nonceSize && ctr[1..1 + nonceSize] == nonce
    {
      hide Absorbs, BigEndian;
      ctr := new byte[16](_ => 0);
      ctr[0] := 15 - nonceSize - 1;
      CopyInto(ctr, 1, nonce);
      assert ctr[..] == [14 - nonceSize] + nonce + Zeros(15 - nonceSize);
      BigEndianZero(Q(nonce));
      assert ctr[..] == Ctr(nonce, 0);
      s0 := c(ctr[..]);
      ctr[15] := 1;
      FirstCounter(nonce, ctr[..]);
    }
  }

  lemma FirstCounter(nonce: seq<byte>, ctr: seq<byte>)
    requires 7 <= |nonce| <= 13
    requires ctr == Ctr(nonce, 0)[15 := 1]
    ensures ctr == Ctr(nonce, 1)
    ensures ctr[0] == 14 - |nonce| && ctr[1..1 + |nonce|] == nonce
  {
    hide BigEndian;
    BigEndianZero(Q(nonce));
    BigEndianOne(Q(nonce));
  }

  /** `NewCCMWithNonceAndTagSizes` for a 128-bit block cipher. Its comment says
      that it panics outside the standard's sizes; it returns an error, and it
      accepts tag size 0. */
  method NewCcm(c: Cipher, nonceSize: int, tagSize: int) returns (err: CcmError, ccm: Ccm?)
    ensures err == NoError <==> LegalSizes(nonceSize, tagSize)
    ensures err == InvalidNonceSize <==> nonceSize < 7 || 13 < nonceSize
    ensures err == NoError <==> 7 <= nonceSize <= 13 && tagSize in {0, 4, 6, 8, 10, 12, 14, 16}
    ensures ccm != null <==> err == NoError
    ensures ccm != null ==> ccm.Valid() && fresh(ccm) && fresh(ccm.mac) && fresh(ccm.mac.ci)
    ensures ccm != null ==> ccm.c == c && ccm.nonceSize == nonceSize && ccm.tagSize == tagSize
  {
    if !(7 <= nonceSize && nonceSize <= 13) {
      return InvalidNonceSize, null;
    }
    if !(4 <= tagSize && tagSize <= 16 && tagSize % 2 == 0) && tagSize != 0 {
      return InvalidTagSize, null;
    }
    err := NoError;
    ccm := new Ccm(c, nonceSize, tagSize);
  }

  /** What `Seal` returns: the first |payload| + tagSize bytes of `dst`, the
      encrypted payload and the whole masked tag. */
  function SealInto(e: Cipher, dst: seq<byte>, nonce: seq<byte>, tagSize: nat,
                    data: seq<byte>, payload: seq<byte>): seq<byte>
    requires LegalSizes(|nonce|, tagSize)
  {
    (dst + CtrCrypt(e, nonce, payload) + MaskedTag(e, nonce, tagSize, data, payload))[..|payload| + tagSize]
  }

  /** What sealing in place leaves: the tag covers the ciphertext. */
  function SealOver(e: Cipher, nonce: seq<byte>, tagSize: nat, data: seq<byte>, payload: seq<byte>): seq<byte>
    requires LegalSizes(|nonce|, tagSize)
  {
    var encrypted := CtrCrypt(e, nonce, payload);
    encrypted + MaskedTag(e, nonce, tagSize, data, encrypted)[..tagSize]
  }

  /** What masking the tag in place leaves in a buffer. */
  lemma TagInBuffer(w: seq<byte>, n: nat, s0: Block, tag: Block, tagSize: nat)
    requires n + 16 <= |w| && w[n..][..16] == s0 && tagSize <= 16
    ensures var after := w[..n] + XorInto(w[n..n + 16], tag) + w[n + 16..];
            && |after| == |w|
            && after[..n + tagSize] == w[..n] + XorInto(s0, tag)[..tagSize]
            && after[n + 16..] == w[n..][16..]
  {
    hide XorInto;
    assert w[n..n + 16] == w[n..][..16];
  }

  lemma XorIntoCommutes(a: Block, b: Block)
    ensures XorInto(a, b) == XorInto(b, a)
  {
    forall i | 0 <= i < 16
      ensures XorInto(a, b)[i] == XorInto(b, a)[i]
    {
      XorCommutes(a[i], b[i]);
    }
  }
}
