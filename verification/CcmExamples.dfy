/** The first example of NIST SP 800-38C (appendix C.1). */
module CcmExamples {
  import opened Bytes
  import opened CcmSpec
  import opened Crypt
  import opened CcmTheorems

  // ----- the blocks --------------------------------------------------------

  const B0_BLOCK: Block :=
    [0x4F, 0x10, 0x11, 0x12, 0x13, 0x14, 0x15, 0x16, 0x00, 0x00, 0x00, 0x00, 0x00, 0x00, 0x00, 0x04]
  const B1_BLOCK: Block :=
    [0x00, 0x08, 0x00, 0x01, 0x02, 0x03, 0x04, 0x05, 0x06, 0x07, 0x00, 0x00, 0x00, 0x00, 0x00, 0x00]
  const B2_BLOCK: Block :=
    [0x20, 0x21, 0x22, 0x23, 0x00, 0x00, 0x00, 0x00, 0x00, 0x00, 0x00, 0x00, 0x00, 0x00, 0x00, 0x00]

  // Inputs and outputs of AES-128 under the key 40 41 ... 4f, in the MAC and in
  // counter mode.

  const Y0: Block :=
    [0x2A, 0xD2, 0x39, 0xBB, 0x22, 0x9B, 0x8F, 0xB4, 0x6E, 0x30, 0x8F, 0x5B, 0xC7, 0x40, 0x9B, 0x88]
  const X1: Block :=
    [0x2A, 0xDA, 0x39, 0xBA, 0x20, 0x98, 0x8B, 0xB1, 0x68, 0x37, 0x8F, 0x5B, 0xC7, 0x40, 0x9B, 0x88]
  const Y1: Block :=
    [0x2E, 0x3B, 0x95, 0x53, 0x0A, 0xD7, 0xC9, 0x02, 0x68, 0xCA, 0xF2, 0xC5, 0x97, 0xC4, 0x92, 0x92]
  const X2: Block :=
    [0x0E, 0x1A, 0xB7, 0x70, 0x0A, 0xD7, 0xC9, 0x02, 0x68, 0xCA, 0xF2, 0xC5, 0x97, 0xC4, 0x92, 0x92]
  const Y2: Block :=
    [0x60, 0x84, 0x34, 0x1B, 0x32, 0x04, 0x2B, 0xF0, 0x00, 0xB4, 0xB7, 0x99, 0x55, 0x53, 0xA3, 0xC5]
  const CTR0: Block :=
    [0x07, 0x10, 0x11, 0x12, 0x13, 0x14, 0x15, 0x16, 0x00, 0x00, 0x00, 0x00, 0x00, 0x00, 0x00, 0x00]
  const S0: Block :=
    [0x2D, 0x28, 0x11, 0x46, 0x10, 0x67, 0x6C, 0x26, 0x32, 0xBA, 0xD7, 0x48, 0x55, 0x9A, 0x67, 0x9A]
  const CTR1: Block :=
    [0x07, 0x10, 0x11, 0x12, 0x13, 0x14, 0x15, 0x16, 0x00, 0x00, 0x00, 0x00, 0x00, 0x00, 0x00, 0x01]
  const S1: Block :=
    [0x51, 0x43, 0x23, 0x78, 0xE4, 0x74, 0xB3, 0x39, 0x71, 0x31, 0x84, 0x84, 0x10, 0x3C, 0xDD, 0xFB]

  const NONCE: seq<byte> := [0x10, 0x11, 0x12, 0x13, 0x14, 0x15, 0x16]
  const DATA: seq<byte> := [0, 1, 2, 3, 4, 5, 6, 7]
  const PAYLOAD: seq<byte> := [0x20, 0x21, 0x22, 0x23]

  /** The cipher agrees with AES-128 under that key on these blocks. */
  predicate AgreesWithAes(e: Cipher) {
    && e(B0_BLOCK) == Y0 && e(X1) == Y1 && e(X2) == Y2
    && e(CTR0) == S0 && e(CTR1) == S1
  }

  // ----- formatting and counter blocks -------------------------------------

  lemma ExampleB0()
    ensures LegalSizes(|NONCE|, 4) && B0(NONCE, 4, true, 4) == B0_BLOCK
  {
    BigEndianZero(7);
    assert BigEndian(4, 8) == Zeros(7) + [4];
    hide BigEndian;
  }

  lemma ExampleDataBlocks()
    ensures DataBlocks(DATA) == B1_BLOCK
  {
    BigEndianZero(1);
    assert BigEndian(8, 2) == Zeros(1) + [8];
    hide BigEndian;
  }

  lemma ExamplePayloadBlocks()
    ensures Pad(PAYLOAD) == B2_BLOCK
  {}

  lemma ExampleFormatted()
    ensures LegalSizes(|NONCE|, 4)
    ensures Formatted(NONCE, 4, DATA, PAYLOAD) == B0_BLOCK + B1_BLOCK + B2_BLOCK
  {
    hide B0, DataBlocks, Pad;
    ExampleB0();
    ExampleDataBlocks();
    ExamplePayloadBlocks();
  }

  lemma ExampleCounters()
    ensures Ctr(NONCE, 0) == CTR0 && Ctr(NONCE, 1) == CTR1
  {
    BigEndianZero(8);
    BigEndianOne(8);
  }

  // ----- the MAC -----------------------------------------------------------

  lemma Chain1Xors()
    ensures Xor(0xD2, 0x08) == 0xDA && Xor(0xBB, 0x01) == 0xBA && Xor(0x22, 0x02) == 0x20 && Xor(0x9B, 0x03) == 0x98
  {
    hide Xor;
    XorByBits(0xD2, 0x08);
    XorByBits(0xBB, 0x01);
    XorByBits(0x22, 0x02);
    XorByBits(0x9B, 0x03);
  }

  lemma MoreChain1Xors()
    ensures Xor(0x8F, 0x04) == 0x8B && Xor(0xB4, 0x05) == 0xB1 && Xor(0x6E, 0x06) == 0x68 && Xor(0x30, 0x07) == 0x37
  {
    hide Xor;
    XorByBits(0x8F, 0x04);
    XorByBits(0xB4, 0x05);
    XorByBits(0x6E, 0x06);
    XorByBits(0x30, 0x07);
  }

  lemma Chain1()
    ensures forall i :: 0 <= i < 16 ==> X1[i] == Xor(Y0[i], B1_BLOCK[i])
  {
    Chain1Xors();
    MoreChain1Xors();
    hide Xor;
    forall i | 0 <= i < 16
      ensures X1[i] == Xor(Y0[i], B1_BLOCK[i])
    {
      XorZero(Y0[i]);
    }
  }

  lemma Chain2Xors()
    ensures Xor(0x2E, 0x20) == 0x0E && Xor(0x3B, 0x21) == 0x1A && Xor(0x95, 0x22) == 0xB7 && Xor(0x53, 0x23) == 0x70
  {
    hide Xor;
    XorByBits(0x2E, 0x20);
    XorByBits(0x3B, 0x21);
    XorByBits(0x95, 0x22);
    XorByBits(0x53, 0x23);
  }

  lemma Chain2()
    ensures forall i :: 0 <= i < 16 ==> X2[i] == Xor(Y1[i], B2_BLOCK[i])
  {
    Chain2Xors();
    hide Xor;
    forall i | 0 <= i < 16
      ensures X2[i] == Xor(Y1[i], B2_BLOCK[i])
    {
      XorZero(Y1[i]);
    }
  }

  lemma ExampleTag(e: Cipher)
    requires AgreesWithAes(e)
    ensures LegalSizes(|NONCE|, 4) && Tag(e, NONCE, 4, DATA, PAYLOAD) == Y2
  {
    hide Xor, Formatted, CbcMac;
    ExampleFormatted();
    CbcChains(e, [], B0_BLOCK, B0_BLOCK);
    assert [] + B0_BLOCK == B0_BLOCK;
    Chain1();
    CbcChains(e, B0_BLOCK, B1_BLOCK, X1);
    Chain2();
    CbcChains(e, B0_BLOCK + B1_BLOCK, B2_BLOCK, X2);
  }

  /** The example's ciphertext and tag. */
  const SEALED: seq<byte> := [0x71, 0x62, 0x01, 0x5B, 0x4D, 0xAC, 0x25, 0x5D]

  lemma CiphertextXors()
    ensures Xor(0x20, 0x51) == 0x71 && Xor(0x21, 0x43) == 0x62 && Xor(0x22, 0x23) == 0x01 && Xor(0x23, 0x78) == 0x5B
  {
    hide Xor;
    XorByBits(0x20, 0x51);
    XorByBits(0x21, 0x43);
    XorByBits(0x22, 0x23);
    XorByBits(0x23, 0x78);
  }

  lemma TagXors()
    ensures Xor(0x2D, 0x60) == 0x4D && Xor(0x28, 0x84) == 0xAC && Xor(0x11, 0x34) == 0x25 && Xor(0x46, 0x1B) == 0x5D
  {
    hide Xor;
    XorByBits(0x2D, 0x60);
    XorByBits(0x28, 0x84);
    XorByBits(0x11, 0x34);
    XorByBits(0x46, 0x1B);
  }

  lemma ExampleCiphertext(e: Cipher)
    requires AgreesWithAes(e)
    ensures CtrCrypt(e, NONCE, PAYLOAD) == SEALED[..4]
  {
    CiphertextXors();
    hide Xor, Ctr;
    ExampleCounters();
    assert S1[0] == 0x51 && S1[1] == 0x43 && S1[2] == 0x23 && S1[3] == 0x78;
    forall i | 0 <= i < 4
      ensures CtrCrypt(e, NONCE, PAYLOAD)[i] == Xor(PAYLOAD[i], S1[i])
    {
      assert i / 16 == 0 && i % 16 == i;
    }
  }

  lemma ExampleMaskedTag(e: Cipher)
    requires AgreesWithAes(e)
    ensures LegalSizes(|NONCE|, 4) && MaskedTag(e, NONCE, 4, DATA, PAYLOAD)[..4] == SEALED[4..]
  {
    TagXors();
    ExampleTag(e);
    ExampleCounters();
    hide Xor, Ctr, Tag;
    assert S0[0] == 0x2D && S0[1] == 0x28 && S0[2] == 0x11 && S0[3] == 0x46;
    assert Y2[0] == 0x60 && Y2[1] == 0x84 && Y2[2] == 0x34 && Y2[3] == 0x1B;
  }

  /** Sealing gives the example's ciphertext and tag, and opening gives its
      payload back. */
  lemma StandardExample(e: Cipher)
    requires AgreesWithAes(e)
    ensures LegalSizes(|NONCE|, 4)
    ensures Seal(e, NONCE, 4, DATA, PAYLOAD) == SEALED
    ensures Open(e, NONCE, 4, DATA, SEALED) == Plain(PAYLOAD)
  {
    ExampleCiphertext(e);
    ExampleMaskedTag(e);
    hide MaskedTag, CtrCrypt, Pow256;
    assert SEALED == SEALED[..4] + SEALED[4..];
    Pow256Monotone(1, 8);
    Pow256Small();
    OpenIffSealed(e, NONCE, 4, DATA, SEALED, PAYLOAD);
  }
}
