/**
  Counter with CBC-MAC as NIST SP 800-38C defines it, for an arbitrary block
  cipher: formatting (appendix A.2), counter blocks (appendix A.3), generation
  and encryption (section 6.1), decryption and verification (section 6.2).

  Two things are the program's and not the standard's: the lengths at which the
  encoding of the associated-data length changes, and tag size 0.
 */
module CcmSpec {
  import opened Bytes

  type Block = s: seq<byte> | |s| == 16 witness Zeros(16)

  /** The block cipher under a fixed key. Nothing is assumed about it. */
  type Cipher = Block -> Block

  // ----- CBC-MAC -----------------------------------------------------------

  /** `base` with `s` exclusive-ored into its first bytes. */
  function XorInto(base: Block, s: seq<byte>): Block
    requires |s| <= 16
  {
    seq(16, i requires 0 <= i < 16 => if i < |s| then Xor(base[i], s[i]) else base[i])
  }

  /** Y_i = E(B_i xor Y_(i-1)), starting from the zero block. */
  function CbcMac(e: Cipher, s: seq<byte>): Block
    requires |s| % 16 == 0
    decreases |s|
  {
    if s == [] then Zeros(16)
    else e(XorInto(CbcMac(e, s[..|s| - 16]), s[|s| - 16..]))
  }

  function PadLength(n: nat): (k: nat)
    ensures k < 16 && (n + k) % 16 == 0
  {
    (16 - n % 16) % 16
  }

  /** `s` with zero bytes up to the next block boundary. */
  function Pad(s: seq<byte>): (r: seq<byte>)
    ensures |r| % 16 == 0 && s <= r
  {
    s + Zeros(PadLength(|s|))
  }

  // ----- formatting --------------------------------------------------------

  /** The sizes the constructor accepts. */
  predicate LegalSizes(nonceSize: int, tagSize: int) {
    7 <= nonceSize <= 13 && (tagSize == 0 || (4 <= tagSize <= 16 && tagSize % 2 == 0))
  }

  /** Width in bytes of the payload length and of the block counter. */
  function Q(nonce: seq<byte>): int {
    15 - |nonce|
  }

  /** First byte of B0. A tag size of 0 is no part of the standard. */
  function Flags(hasData: bool, tagSize: nat, q: int): byte
    requires 2 <= q <= 8 && LegalSizes(15 - q, tagSize)
  {
    if tagSize == 0 then 0xF8 + (q - 1)
    else (if hasData then 64 else 0) + 8 * ((tagSize - 2) / 2) + (q - 1)
  }

  function B0(nonce: seq<byte>, tagSize: nat, hasData: bool, payload: nat): Block
    requires LegalSizes(|nonce|, tagSize)
  {
    [Flags(hasData, tagSize, Q(nonce))] + nonce + BigEndian(payload, Q(nonce))
  }

  /** The length prefix of the associated data, with the program's thresholds. */
  function DataLength(a: nat): (r: seq<byte>)
    ensures |r| in {2, 6, 10}
  {
    if a < 0x8000 - 0x80 then BigEndian(a, 2)
    else if a <= 0x7FFF_FFFF then [0xFF, 0xFE] + BigEndian(a, 4)
    else [0xFF, 0xFF] + BigEndian(a, 8)
  }

  function DataBlocks(data: seq<byte>): (r: seq<byte>)
    ensures |r| % 16 == 0
  {
    if data == [] then [] else Pad(DataLength(|data|) + data)
  }

  /** What the MAC sees before the payload. */
  function Head(nonce: seq<byte>, tagSize: nat, data: seq<byte>, payload: nat): (r: seq<byte>)
    requires LegalSizes(|nonce|, tagSize)
    ensures |r| % 16 == 0
  {
    var b0: Block := B0(nonce, tagSize, data != [], payload);
    b0 + DataBlocks(data)
  }

  /** The blocks B0, B1, ... that the MAC is computed over. */
  function Formatted(nonce: seq<byte>, tagSize: nat, data: seq<byte>, payload: seq<byte>): (r: seq<byte>)
    requires LegalSizes(|nonce|, tagSize)
    ensures |r| % 16 == 0
  {
    WholeBlocks(Head(nonce, tagSize, data, |payload|), Pad(payload));
    Head(nonce, tagSize, data, |payload|) + Pad(payload)
  }

  lemma WholeBlocks(s: seq<byte>, t: seq<byte>)
    requires |s| % 16 == 0 && |t| % 16 == 0
    ensures |s + t| % 16 == 0
  {}

  function Tag(e: Cipher, nonce: seq<byte>, tagSize: nat, data: seq<byte>, payload: seq<byte>): Block
    requires LegalSizes(|nonce|, tagSize)
  {
    CbcMac(e, Formatted(nonce, tagSize, data, payload))
  }

  // ----- counter mode ------------------------------------------------------

  function Ctr(nonce: seq<byte>, j: nat): Block
    requires 7 <= |nonce| <= 13
  {
    [Q(nonce) - 1] + nonce + BigEndian(j, Q(nonce))
  }

  /** Exclusive or with S1 S2 ..., where Sj = E(Ctr_j). */
  function CtrCrypt(e: Cipher, nonce: seq<byte>, s: seq<byte>): (r: seq<byte>)
    requires 7 <= |nonce| <= 13
    ensures |r| == |s|
  {
    seq(|s|, i requires 0 <= i < |s| => Xor(s[i], e(Ctr(nonce, 1 + i / 16))[i % 16]))
  }

  function MaskedTag(e: Cipher, nonce: seq<byte>, tagSize: nat, data: seq<byte>, payload: seq<byte>): Block
    requires LegalSizes(|nonce|, tagSize)
  {
    XorInto(e(Ctr(nonce, 0)), Tag(e, nonce, tagSize, data, payload))
  }

  // ----- sealing and opening -----------------------------------------------

  /** The longest payload whose length fits in Q bytes. */
  function MaxPayload(nonce: seq<byte>): nat
    requires 7 <= |nonce| <= 13
  {
    Pow256(Q(nonce)) - 1
  }

  function Seal(e: Cipher, nonce: seq<byte>, tagSize: nat, data: seq<byte>, payload: seq<byte>): (r: seq<byte>)
    requires LegalSizes(|nonce|, tagSize)
    ensures |r| == |payload| + tagSize
  {
    CtrCrypt(e, nonce, payload) + MaskedTag(e, nonce, tagSize, data, payload)[..tagSize]
  }

  datatype Opened = Plain(payload: seq<byte>) | TooLong | AuthFailed

  function Open(e: Cipher, nonce: seq<byte>, tagSize: nat, data: seq<byte>, sealed: seq<byte>): Opened
    requires LegalSizes(|nonce|, tagSize)
    requires |sealed| > tagSize
  {
    var n := |sealed| - tagSize;
    if n > MaxPayload(nonce) then TooLong
    else
      var payload := CtrCrypt(e, nonce, sealed[..n]);
      if MaskedTag(e, nonce, tagSize, data, payload)[..tagSize] == sealed[n..] then Plain(payload)
      else AuthFailed
  }
}
