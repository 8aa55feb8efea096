/** What CCM promises, proved of the specification that the code is proved against. */
module CcmTheorems {
  import opened Bytes
  import opened CcmSpec
  import opened Crypt

  // ----- the key stream ----------------------------------------------------

  /** S1 S2 ... Sk. */
  function KeyBlocks(e: Cipher, nonce: seq<byte>, k: nat): (r: seq<byte>)
    requires 7 <= |nonce| <= 13
    ensures |r| == 16 * k
  {
    if k == 0 then [] else KeyBlocks(e, nonce, k - 1) + e(Ctr(nonce, k))
  }

  lemma {:induction false} KeyBlocksAt(e: Cipher, nonce: seq<byte>, k: nat, i: nat)
    requires 7 <= |nonce| <= 13 && i < 16 * k
    ensures KeyBlocks(e, nonce, k)[i] == e(Ctr(nonce, 1 + i / 16))[i % 16]
  {
    hide Ctr;
    if i < 16 * (k - 1) {
      KeyBlocksAt(e, nonce, k - 1, i);
    } else {
      assert i / 16 == k - 1;
    }
  }

  /** Counter mode is exclusive or with those blocks, byte by byte. */
  lemma CtrCryptIsXor(e: Cipher, nonce: seq<byte>, s: seq<byte>, k: nat)
    requires 7 <= |nonce| <= 13 && |s| <= 16 * k
    ensures forall i :: 0 <= i < |s| ==> CtrCrypt(e, nonce, s)[i] == Xor(s[i], KeyBlocks(e, nonce, k)[i])
  {
    hide Xor, Ctr, KeyBlocks;
    forall i | 0 <= i < |s|
      ensures CtrCrypt(e, nonce, s)[i] == Xor(s[i], KeyBlocks(e, nonce, k)[i])
    {
      KeyBlocksAt(e, nonce, k, i);
    }
  }

  lemma XorOfZero(b: byte)
    ensures Xor(0, b) == b
  {
    XorCommutes(0, b);
    XorZero(b);
  }

  /** Encrypting zeros shows the key stream, each block forwards and in order;
      so does sealing them. */
  lemma ZerosShowKeyStream(e: Cipher, nonce: seq<byte>, k: nat, tagSize: nat, data: seq<byte>)
    requires LegalSizes(|nonce|, tagSize)
    ensures CtrCrypt(e, nonce, Zeros(16 * k)) == KeyBlocks(e, nonce, k)
    ensures Seal(e, nonce, tagSize, data, Zeros(16 * k))[..16 * k] == KeyBlocks(e, nonce, k)
  {
    var z := Zeros(16 * k);
    CtrCryptIsXor(e, nonce, z, k);
    hide CtrCrypt, KeyBlocks, MaskedTag, Xor;
    forall i | 0 <= i < 16 * k
      ensures CtrCrypt(e, nonce, z)[i] == KeyBlocks(e, nonce, k)[i]
    {
      XorOfZero(KeyBlocks(e, nonce, k)[i]);
    }
  }

  /** A prefix is encrypted to the prefix. */
  lemma CtrCryptPrefix(e: Cipher, nonce: seq<byte>, s: seq<byte>, t: seq<byte>)
    requires 7 <= |nonce| <= 13
    ensures CtrCrypt(e, nonce, s + t)[..|s|] == CtrCrypt(e, nonce, s)
  {
    hide Xor, Ctr;
  }

  lemma {:induction false} AdvanceIncremented(b: Block, k: nat)
    ensures Advance(Increment(b), k) == Advance(b, k + 1)
  {
    hide Increment;
    if k > 0 {
      AdvanceIncremented(b, k - 1);
    }
  }

  lemma XorKeyStreamAt(e: Cipher, iv: Block, s: seq<byte>, i: nat)
    requires i < |s|
    ensures XorKeyStream(e, iv, s)[i] == Xor(s[i], e(Advance(iv, i / 16))[i % 16])
  {
    hide Xor, Advance;
  }

  /** The library's key stream starts with the encrypted initial block. */
  lemma XorKeyStreamStarts(e: Cipher, iv: Block, b: Block)
    ensures XorKeyStream(e, iv, Zeros(16)) == e(iv)
    ensures XorKeyStream(e, iv, b) == XorInto(b, e(iv))
  {
    assert Advance(iv, 0) == iv;
    hide Xor, XorKeyStream, Advance;
    forall i | 0 <= i < 16
      ensures XorKeyStream(e, iv, Zeros(16))[i] == e(iv)[i]
      ensures XorKeyStream(e, iv, b)[i] == XorInto(b, e(iv))[i]
    {
      assert i / 16 == 0 && i % 16 == i;
      XorKeyStreamAt(e, iv, Zeros(16), i);
      XorKeyStreamAt(e, iv, b, i);
      XorOfZero(e(iv)[i]);
    }
  }

  /** After every block it goes on from the incremented initial block. */
  lemma XorKeyStreamContinues(e: Cipher, iv: Block, b: Block, s: seq<byte>)
    ensures XorKeyStream(e, iv, b + s) == XorKeyStream(e, iv, b) + XorKeyStream(e, Increment(iv), s)
  {
    hide Xor, Increment, XorKeyStream, Advance;
    var whole, head, tail := XorKeyStream(e, iv, b + s), XorKeyStream(e, iv, b), XorKeyStream(e, Increment(iv), s);
    forall i | 0 <= i < 16
      ensures whole[i] == head[i]
    {
      XorKeyStreamAt(e, iv, b + s, i);
      XorKeyStreamAt(e, iv, b, i);
    }
    forall i | 0 <= i < |s|
      ensures whole[16 + i] == tail[i]
    {
      AdvanceIncremented(iv, i / 16);
      assert (16 + i) / 16 == i / 16 + 1 && (16 + i) % 16 == i % 16;
      XorKeyStreamAt(e, iv, b + s, 16 + i);
      XorKeyStreamAt(e, Increment(iv), s, i);
    }
  }

  // ----- the MAC -----------------------------------------------------------

  /** One block is encrypted as it is; each further block is first combined,
      byte by byte, with the MAC of what comes before it. */
  lemma CbcChains(e: Cipher, s: seq<byte>, block: Block, y: Block)
    requires |s| % 16 == 0
    requires forall i :: 0 <= i < 16 ==> y[i] == if s == [] then block[i] else Xor(CbcMac(e, s)[i], block[i])
    ensures |s + block| % 16 == 0 && CbcMac(e, s + block) == e(y)
  {
    CbcLast(e, s, block);
    hide Xor;
    forall i | 0 <= i < 16
      ensures XorInto(CbcMac(e, s), block)[i] == y[i]
    {
      XorOfZero(block[i]);
    }
    assert XorInto(CbcMac(e, s), block) == y;
  }

  // ----- sealing and opening are inverse -----------------------------------

  lemma CtrCryptTwice(e: Cipher, nonce: seq<byte>, s: seq<byte>)
    requires 7 <= |nonce| <= 13
    ensures CtrCrypt(e, nonce, CtrCrypt(e, nonce, s)) == s
  {
    var once := CtrCrypt(e, nonce, s);
    forall i | 0 <= i < |s|
      ensures CtrCrypt(e, nonce, once)[i] == s[i]
    {
      XorCancel(s[i], e(Ctr(nonce, 1 + i / 16))[i % 16]);
    }
  }

  /** Opening yields a payload exactly when the input is that payload sealed. */
  lemma OpenIffSealed(e: Cipher, nonce: seq<byte>, tagSize: nat, data: seq<byte>, sealed: seq<byte>, payload: seq<byte>)
    requires LegalSizes(|nonce|, tagSize)
    requires |sealed| > tagSize
    ensures Open(e, nonce, tagSize, data, sealed) == Plain(payload)
            <==> 1 <= |payload| <= MaxPayload(nonce) && sealed == Seal(e, nonce, tagSize, data, payload)
  {
    hide MaskedTag;
    var n := |sealed| - tagSize;
    assert sealed == sealed[..n] + sealed[n..];
    CtrCryptTwice(e, nonce, sealed[..n]);
    if sealed == Seal(e, nonce, tagSize, data, payload) {
      assert sealed[..n] == CtrCrypt(e, nonce, payload);
      CtrCryptTwice(e, nonce, payload);
      assert sealed[n..] == MaskedTag(e, nonce, tagSize, data, payload)[..tagSize];
    }
  }

  /** `Seal` appends the sealed payload to `dst`, as the AEAD interface asks,
      exactly when `dst` is empty. */
  lemma SealAppendsIffEmpty(e: Cipher, dst: seq<byte>, nonce: seq<byte>, tagSize: nat,
                            data: seq<byte>, payload: seq<byte>)
    requires LegalSizes(|nonce|, tagSize)
    ensures SealInto(e, dst, nonce, tagSize, data, payload) == dst + Seal(e, nonce, tagSize, data, payload)
            <==> dst == []
  {
    hide MaskedTag, CtrCrypt;
    if dst == [] {
      var c, m := CtrCrypt(e, nonce, payload), MaskedTag(e, nonce, tagSize, data, payload);
      assert (dst + c + m)[..|c| + tagSize] == dst + (c + m[..tagSize]);
    }
  }

  lemma XorIntoInjective(s0: Block, t: Block, t': Block, k: nat)
    requires k <= 16
    ensures XorInto(s0, t)[..k] == XorInto(s0, t')[..k] <==> t[..k] == t'[..k]
  {
    var m, m' := XorInto(s0, t), XorInto(s0, t');
    forall i | 0 <= i < k
      ensures m[..k][i] == m'[..k][i] <==> t[..k][i] == t'[..k][i]
    {
      XorCommutes(s0[i], t[i]);
      XorCommutes(s0[i], t'[i]);
      XorCancel(t[i], s0[i]);
      XorCancel(t'[i], s0[i]);
    }
  }

  /** Sealing over the payload itself gives a sealed payload that opens if and
      only if the tag of the ciphertext happens to be that of the payload. */
  lemma SealOverIff(e: Cipher, nonce: seq<byte>, tagSize: nat, data: seq<byte>, payload: seq<byte>)
    requires LegalSizes(|nonce|, tagSize) && 1 <= |payload| <= MaxPayload(nonce)
    ensures var over, encrypted := SealOver(e, nonce, tagSize, data, payload), CtrCrypt(e, nonce, payload);
            var same := Tag(e, nonce, tagSize, data, encrypted)[..tagSize]
                        == Tag(e, nonce, tagSize, data, payload)[..tagSize];
            && (over == Seal(e, nonce, tagSize, data, payload) <==> same)
            && (Open(e, nonce, tagSize, data, over) == Plain(payload) <==> same)
            && (tagSize == 0 ==> same)
  {
    hide Tag, CtrCrypt, XorInto;
    var encrypted := CtrCrypt(e, nonce, payload);
    var over, sealed := SealOver(e, nonce, tagSize, data, payload), Seal(e, nonce, tagSize, data, payload);
    var s0 := e(Ctr(nonce, 0));
    XorIntoInjective(s0, Tag(e, nonce, tagSize, data, encrypted), Tag(e, nonce, tagSize, data, payload), tagSize);
    assert over[|encrypted|..] == MaskedTag(e, nonce, tagSize, data, encrypted)[..tagSize];
    assert sealed[|encrypted|..] == MaskedTag(e, nonce, tagSize, data, payload)[..tagSize];
    OpenIffSealed(e, nonce, tagSize, data, over, payload);
  }

  /** It does not, for example, for one zero byte under the identity cipher. */
  lemma SealOverDiffers(nonce: seq<byte>)
    requires nonce == Zeros(13)
    ensures SealOver(b => b, nonce, 4, [], [0]) != Seal(b => b, nonce, 4, [], [0])
  {
    var e: Cipher := b => b;
    hide Tag, Seal, SealOver, Xor;
    SealOverIff(e, nonce, 4, [], [0]);
    OneByteEncrypted(nonce);
    TagOfOneByte(nonce, 0);
    TagOfOneByte(nonce, 1);
    XorCancel(0, 0x09);
    XorCancel(1, 0x09);
    assert Tag(e, nonce, 4, [], [0])[..4][0] != Tag(e, nonce, 4, [], [1])[..4][0];
  }

  lemma OneByteEncrypted(nonce: seq<byte>)
    requires nonce == Zeros(13)
    ensures CtrCrypt(b => b, nonce, [0]) == [1]
  {
    var e: Cipher := b => b;
    hide Xor;
    assert Ctr(nonce, 1)[0] == 1;
    XorZero(1);
    XorCommutes(0, 1);
    assert CtrCrypt(e, nonce, [0])[0] == 1;
  }

  /** Under the identity cipher the tag starts with the exclusive or of the flag
      byte and the payload. */
  lemma TagOfOneByte(nonce: seq<byte>, x: byte)
    requires nonce == Zeros(13)
    ensures Tag(b => b, nonce, 4, [], [x])[0] == Xor(x, 0x09)
  {
    var e: Cipher := b => b;
    var b0: Block := B0(nonce, 4, false, 1);
    var f := Formatted(nonce, 4, [], [x]);
    assert f == b0 + Pad([x]);
    assert f[..16] == b0 && f[16..] == Pad([x]);
    assert CbcMac(e, b0) == XorInto(CbcMac(e, []), b0) by {
      assert b0[..0] == [] && b0[0..] == b0;
    }
    XorZero(0x09);
    XorCommutes(0x09, 0);
    XorCommutes(0x09, x);
    assert CbcMac(e, b0)[0] == 0x09;
  }

  // ----- the formatting function -------------------------------------------

  /** The flag byte can be read back: counter width, tag size, data bit. */
  lemma FlagsReadBack(hasData: bool, tagSize: nat, q: int)
    requires 2 <= q <= 8 && LegalSizes(15 - q, tagSize)
    ensures var f: int := Flags(hasData, tagSize, q);
            && f % 8 == q - 1
            && (tagSize == 0 ==> f / 8 == 31)
            && (tagSize > 0 ==> f < 128 && 2 * (f / 8 % 8) + 2 == tagSize && (f / 64 == 1 <==> hasData))
  {
    if tagSize > 0 {
      var t := (tagSize - 2) / 2;
      assert tagSize == 2 * t + 2 && t < 8;
      assert Flags(hasData, tagSize, q) == (if hasData then 64 else 0) + 8 * t + (q - 1);
    }
  }

  lemma B0Determines(n: seq<byte>, n': seq<byte>, tagSize: nat, d: bool, d': bool, p: nat, p': nat)
    requires LegalSizes(|n|, tagSize) && |n| == |n'|
    requires p <= MaxPayload(n) && p' <= MaxPayload(n)
    requires B0(n, tagSize, d, p) == B0(n', tagSize, d', p')
    ensures n == n' && p == p' && (tagSize >= 4 ==> d == d')
  {
    var b, b' := B0(n, tagSize, d, p), B0(n', tagSize, d', p');
    assert b[0] == b'[0];
    assert n == b[1..1 + |n|] == b'[1..1 + |n|] == n';
    assert BigEndian(p, Q(n)) == b[1 + |n|..] == b'[1 + |n|..] == BigEndian(p', Q(n));
    BigEndianInjective(p, p', Q(n));
  }

  lemma DataLengthDetermines(a: nat, b: nat, w: seq<byte>)
    requires a < UINT64 && b < UINT64
    requires DataLength(a) <= w && DataLength(b) <= w
    ensures a == b
  {
    var x, y := DataLength(a), DataLength(b);
    BigEndianAt(a, 2, 0);
    BigEndianAt(b, 2, 0);
    Pow256Small();
    assert x[0] == w[0] == y[0] && x[1] == w[1] == y[1];
    assert |x| == |y|;
    assert x == w[..|x|] == y;
    var k := if |x| == 2 then 0 else 2;
    assert BigEndian(a, |x| - k) == x[k..] == y[k..] == BigEndian(b, |x| - k);
    BigEndianInjective(a, b, |x| - k);
  }

  lemma PrefixSplits(x: seq<byte>, s: seq<byte>, x': seq<byte>, s': seq<byte>)
    requires |x| == |x'| && x + s <= x' + s'
    ensures x == x' && s <= s'
  {
    assert x == (x + s)[..|x|] && x' == (x' + s')[..|x|];
    assert s == (x + s)[|x|..] && s' == (x' + s')[|x|..];
  }

  lemma PadSize(x: seq<byte>, x': seq<byte>)
    ensures |x| == |x'| ==> |Pad(x)| == |Pad(x')|
  {
    hide PadLength;
  }

  /** Blocks of data followed by anything determine the data. */
  lemma DataBlocksDetermine(a: seq<byte>, a': seq<byte>, s: seq<byte>, s': seq<byte>)
    requires 0 < |a| < UINT64 && 0 < |a'| < UINT64
    requires DataBlocks(a) + s <= DataBlocks(a') + s'
    ensures a == a' && s <= s'
  {
    hide DataLength, Pad;
    var l, l' := DataLength(|a|), DataLength(|a'|);
    var d, d' := Pad(l + a), Pad(l' + a');
    var w := (d + s)[..16];
    assert w == (d' + s')[..16];
    StartsWithLength(l, a, s, w);
    StartsWithLength(l', a', s', w);
    DataLengthDetermines(|a|, |a'|, w);
    PadSize(l + a, l + a');
    PrefixSplits(d, s, d', s');
    PadDetermines(l + a, l + a');
    PrefixSplits(l, a, l, a');
  }

  /** The first block holds the whole length prefix. */
  lemma StartsWithLength(l: seq<byte>, a: seq<byte>, s: seq<byte>, w: seq<byte>)
    requires |l| in {2, 6, 10} && a != []
    requires |Pad(l + a) + s| >= 16 && w == (Pad(l + a) + s)[..16]
    ensures l <= w
  {
    assert forall i :: 0 <= i < |l| ==> w[i] == Pad(l + a)[i] == l[i];
  }

  lemma PadDetermines(p: seq<byte>, p': seq<byte>)
    requires |p| == |p'| && Pad(p) <= Pad(p')
    ensures p == p'
  {
    assert p == Pad(p)[..|p|] && p' == Pad(p')[..|p|];
  }

  /** No formatted input is a proper prefix of another, and distinct inputs
      are formatted differently. */
  lemma FormattedPrefixFree(n: seq<byte>, n': seq<byte>, tagSize: nat,
                            a: seq<byte>, a': seq<byte>, p: seq<byte>, p': seq<byte>)
    requires LegalSizes(|n|, tagSize) && tagSize >= 4 && |n| == |n'|
    requires |a| < UINT64 && |a'| < UINT64
    requires |p| <= MaxPayload(n) && |p'| <= MaxPayload(n')
    requires Formatted(n, tagSize, a, p) <= Formatted(n', tagSize, a', p')
    ensures n == n' && a == a' && p == p'
  {
    hide B0, DataBlocks, Pad;
    var f, f' := Formatted(n, tagSize, a, p), Formatted(n', tagSize, a', p');
    var d, d' := DataBlocks(a), DataBlocks(a');
    assert f == B0(n, tagSize, a != [], |p|) + (d + Pad(p));
    assert f' == B0(n', tagSize, a' != [], |p'|) + (d' + Pad(p'));
    assert f[..16] == f'[..16];
    B0Determines(n, n', tagSize, a != [], a' != [], |p|, |p'|);
    assert f[16..] == d + Pad(p) && f'[16..] == d' + Pad(p');
    assert d + Pad(p) <= d' + Pad(p');
    if a == [] {
      NoDataBlocks();
      assert d + Pad(p) == Pad(p) && d' + Pad(p') == Pad(p');
    } else {
      DataBlocksDetermine(a, a', Pad(p), Pad(p'));
    }
    PadDetermines(p, p');
  }

  lemma NoDataBlocks()
    ensures DataBlocks([]) == []
  {}

  /** The requirement of SP 800-38C, section 5.4, on a formatting function. */
  ghost predicate PrefixFree(nonceSize: nat, tagSize: nat)
    requires LegalSizes(nonceSize, tagSize)
  {
    forall n: seq<byte>, n': seq<byte>, a, a', p, p' ::
      && |n| == |n'| == nonceSize && |a| < UINT64 && |a'| < UINT64
      && |p| <= MaxPayload(n) && |p'| <= MaxPayload(n')
      && Formatted(n, tagSize, a, p) <= Formatted(n', tagSize, a', p')
      ==> n == n' && a == a' && p == p'
  }

  /** Tag size 0, which the program adds to the standard's, loses the property:
      the data bit is always set. */
  lemma PrefixFreeIff(nonceSize: nat, tagSize: nat)
    requires LegalSizes(nonceSize, tagSize)
    ensures PrefixFree(nonceSize, tagSize) <==> tagSize >= 4
  {
    if tagSize >= 4 {
      forall n: seq<byte>, n': seq<byte>, a, a', p, p' |
        && |n| == |n'| == nonceSize && |a| < UINT64 && |a'| < UINT64
        && |p| <= MaxPayload(n) && |p'| <= MaxPayload(n')
        && Formatted(n, tagSize, a, p) <= Formatted(n', tagSize, a', p')
        ensures n == n' && a == a' && p == p'
      {
        FormattedPrefixFree(n, n', tagSize, a, a', p, p');
      }
    } else {
      var n := Zeros(nonceSize);
      var p, p' := [0, 1, 5] + Zeros(13), Zeros(16);
      NotPrefixFreeUntagged(n, p, p');
      assert Formatted(n, tagSize, [], p) <= Formatted(n, tagSize, [5], p');
      Pow256Monotone(2, Q(n));
      Pow256Small();
    }
  }

  /** A payload that spells out a data block, against that data block. */
  lemma NotPrefixFreeUntagged(n: seq<byte>, p: seq<byte>, p': seq<byte>)
    requires 7 <= |n| <= 13 && p == [0, 1, 5] + Zeros(13) && |p'| == 16
    ensures Formatted(n, 0, [], p) <= Formatted(n, 0, [5], p')
  {
    assert DataLength(1) == [0, 1] by {
      assert BigEndian(1, 2) == BigEndian(0, 1) + [1];
    }
    assert DataBlocks([5]) == p;
    assert Pad(p) == p && Pad(p') == p';
    assert Formatted(n, 0, [], p) == B0(n, 0, false, 16) + p;
    assert Formatted(n, 0, [5], p') == B0(n, 0, true, 16) + p + p';
  }

  /** The length prefix of section A.2.2. */
  function StandardDataLength(a: nat): seq<byte> {
    if a < 0x1_0000 - 0x100 then BigEndian(a, 2)
    else if a < 0x1_0000_0000 then [0xFF, 0xFE] + BigEndian(a, 4)
    else [0xFF, 0xFF] + BigEndian(a, 8)
  }

  lemma DataLengthStandardIff(a: nat)
    ensures DataLength(a) == StandardDataLength(a)
            <==> a < 32640 || 65280 <= a < 0x8000_0000 || 0x1_0000_0000 <= a
  {
    assert |DataLength(a)| == |StandardDataLength(a)|
      <==> a < 32640 || 65280 <= a < 0x8000_0000 || 0x1_0000_0000 <= a;
  }

  // ----- counter blocks ----------------------------------------------------

  /** Counter blocks repeat neither within a message nor across nonces. */
  lemma CtrDistinct(n: seq<byte>, n': seq<byte>, i: nat, j: nat)
    requires 7 <= |n| <= 13 && |n| == |n'|
    requires i <= MaxPayload(n) && j <= MaxPayload(n)
    ensures Ctr(n, i) == Ctr(n', j) <==> n == n' && i == j
  {
    if Ctr(n, i) == Ctr(n', j) {
      var b, b' := Ctr(n, i), Ctr(n', j);
      assert n == b[1..1 + |n|] == b'[1..1 + |n|] == n';
      assert BigEndian(i, Q(n)) == b[1 + |n|..] == b'[1 + |n|..] == BigEndian(j, Q(n));
      BigEndianInjective(i, j, Q(n));
    }
  }

  /** No counter block is ever the first block of a MAC computation. */
  lemma CtrIsNotB0(n: seq<byte>, n': seq<byte>, tagSize: nat, i: nat, hasData: bool, p: nat)
    requires LegalSizes(|n|, tagSize) && |n| == |n'|
    ensures Ctr(n, i) != B0(n', tagSize, hasData, p)
  {
    assert Ctr(n, i)[0] < 8 <= B0(n', tagSize, hasData, p)[0];
  }

  /** Byte `i` of the key stream that the library's counter mode produces for
      an admissible payload comes from the standard's block for it, and that
      block is neither Ctr_0 nor B0 nor the block of another 16-byte row. */
  lemma KeyStreamInputs(n: seq<byte>, tagSize: nat, size: nat, hasData: bool, i: nat, j: nat)
    requires LegalSizes(|n|, tagSize)
    requires i < size <= MaxPayload(n) && j < size
    ensures var used := Advance(Ctr(n, 1), i / 16);
            && used == Ctr(n, 1 + i / 16)
            && used != Ctr(n, 0)
            && used != B0(n, tagSize, hasData, size)
            && (used == Advance(Ctr(n, 1), j / 16) <==> i / 16 == j / 16)
  {
    hide B0, Ctr, Pow256;
    CounterFits(n, size, i);
    CounterFits(n, size, j);
    AdvanceIsCtr(n, i / 16);
    AdvanceIsCtr(n, j / 16);
    CtrDistinct(n, n, 1 + i / 16, 0);
    CtrDistinct(n, n, 1 + i / 16, 1 + j / 16);
    CtrIsNotB0(n, n, tagSize, 1 + i / 16, hasData, size);
  }
}
