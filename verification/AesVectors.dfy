/** The known answers of FIPS 197 for AES-256: the expanded key of its appendix A.3, and
    the example of its appendix C.3 with its round keys and the state after every round. */
module AesVectors {
  import opened Gf256
  import opened AesTables
  import opened Aes
  import opened AesKey

  /** The four columns of a state, or the four words of a round key. */
  datatype Four = Four(w0: Word, w1: Word, w2: Word, w3: Word)

  // ---- Round keys --------------------------------------------------------------------------

  function RoundKeyAt(key: seq<bv8>, r: nat): Four
    requires |key| == 32
  {
    Four(Expanded(key, 4 * r), Expanded(key, 4 * r + 1), Expanded(key, 4 * r + 2), Expanded(key, 4 * r + 3))
  }

  /** Round key r from the two before it. */
  function NextKey(r: nat, before: Four, last: Four): Four {
    var mixed := if r % 2 == 0 then XorWord(SubWord(RotWord(last.w3)), Word(RoundConstant(r / 2), 0, 0, 0))
                 else SubWord(last.w3);
    ChainedKey(before, mixed)
  }

  function ChainedKey(before: Four, mixed: Word): Four {
    var w0 := XorWord(before.w0, mixed);
    var w1 := XorWord(before.w1, w0);
    var w2 := XorWord(before.w2, w1);
    Four(w0, w1, w2, XorWord(before.w3, w2))
  }

  lemma WordByCase(key: seq<bv8>, r: nat, j: nat)
    requires |key| == 32 && r >= 2 && j < 4
    ensures Expanded(key, 4 * r + j)
         == XorWord(Expanded(key, 4 * (r - 2) + j),
                    if j > 0 then Expanded(key, 4 * r + j - 1)
                    else if r % 2 == 1 then SubWord(Expanded(key, 4 * (r - 1) + 3))
                    else XorWord(SubWord(RotWord(Expanded(key, 4 * (r - 1) + 3))), Word(RoundConstant(r / 2), 0, 0, 0)))
  {
    hide SubWord, RotWord, XorWord, RoundConstant;
    assert (4 * r + j) % 8 == 4 * (r % 2) + j && (4 * r + j) / 8 == r / 2;
  }

  lemma NextKeyAt(key: seq<bv8>, r: nat, before: Four, last: Four)
    requires |key| == 32 && r >= 2 && RoundKeyAt(key, r - 2) == before && RoundKeyAt(key, r - 1) == last
    ensures RoundKeyAt(key, r) == NextKey(r, before, last)
  {
    hide SubWord, RotWord, XorWord, RoundConstant, Expanded;
    WordByCase(key, r, 0);
    WordByCase(key, r, 1);
    WordByCase(key, r, 2);
    WordByCase(key, r, 3);
  }

  function BlockOf(f: Four): Block {
    [f.w0.b0, f.w0.b1, f.w0.b2, f.w0.b3, f.w1.b0, f.w1.b1, f.w1.b2, f.w1.b3,
     f.w2.b0, f.w2.b1, f.w2.b2, f.w2.b3, f.w3.b0, f.w3.b1, f.w3.b2, f.w3.b3]
  }

  lemma FirstKeys(low: Four, high: Four)
    ensures RoundKeyAt(BlockOf(low) + BlockOf(high), 0) == low
    ensures RoundKeyAt(BlockOf(low) + BlockOf(high), 1) == high
  {
  }

  // ---- Appendix A.3 ------------------------------------------------------------------------

  const A3_K0 := Four(Word(0x60, 0x3d, 0xeb, 0x10), Word(0x15, 0xca, 0x71, 0xbe),
                      Word(0x2b, 0x73, 0xae, 0xf0), Word(0x85, 0x7d, 0x77, 0x81))
  const A3_K1 := Four(Word(0x1f, 0x35, 0x2c, 0x07), Word(0x3b, 0x61, 0x08, 0xd7),
                      Word(0x2d, 0x98, 0x10, 0xa3), Word(0x09, 0x14, 0xdf, 0xf4))
  const A3_K2 := Four(Word(0x9b, 0xa3, 0x54, 0x11), Word(0x8e, 0x69, 0x25, 0xaf),
                      Word(0xa5, 0x1a, 0x8b, 0x5f), Word(0x20, 0x67, 0xfc, 0xde))
  const A3_K3 := Four(Word(0xa8, 0xb0, 0x9c, 0x1a), Word(0x93, 0xd1, 0x94, 0xcd),
                      Word(0xbe, 0x49, 0x84, 0x6e), Word(0xb7, 0x5d, 0x5b, 0x9a))
  const A3_K4 := Four(Word(0xd5, 0x9a, 0xec, 0xb8), Word(0x5b, 0xf3, 0xc9, 0x17),
                      Word(0xfe, 0xe9, 0x42, 0x48), Word(0xde, 0x8e, 0xbe, 0x96))
  const A3_K5 := Four(Word(0xb5, 0xa9, 0x32, 0x8a), Word(0x26, 0x78, 0xa6, 0x47),
                      Word(0x98, 0x31, 0x22, 0x29), Word(0x2f, 0x6c, 0x79, 0xb3))
  const A3_K6 := Four(Word(0x81, 0x2c, 0x81, 0xad), Word(0xda, 0xdf, 0x48, 0xba),
                      Word(0x24, 0x36, 0x0a, 0xf2), Word(0xfa, 0xb8, 0xb4, 0x64))
  const A3_K7 := Four(Word(0x98, 0xc5, 0xbf, 0xc9), Word(0xbe, 0xbd, 0x19, 0x8e),
                      Word(0x26, 0x8c, 0x3b, 0xa7), Word(0x09, 0xe0, 0x42, 0x14))
  const A3_K8 := Four(Word(0x68, 0x00, 0x7b, 0xac), Word(0xb2, 0xdf, 0x33, 0x16),
                      Word(0x96, 0xe9, 0x39, 0xe4), Word(0x6c, 0x51, 0x8d, 0x80))
  const A3_K9 := Four(Word(0xc8, 0x14, 0xe2, 0x04), Word(0x76, 0xa9, 0xfb, 0x8a),
                      Word(0x50, 0x25, 0xc0, 0x2d), Word(0x59, 0xc5, 0x82, 0x39))
  const A3_K10 := Four(Word(0xde, 0x13, 0x69, 0x67), Word(0x6c, 0xcc, 0x5a, 0x71),
                       Word(0xfa, 0x25, 0x63, 0x95), Word(0x96, 0x74, 0xee, 0x15))
  const A3_K11 := Four(Word(0x58, 0x86, 0xca, 0x5d), Word(0x2e, 0x2f, 0x31, 0xd7),
                       Word(0x7e, 0x0a, 0xf1, 0xfa), Word(0x27, 0xcf, 0x73, 0xc3))
  const A3_K12 := Four(Word(0x74, 0x9c, 0x47, 0xab), Word(0x18, 0x50, 0x1d, 0xda),
                       Word(0xe2, 0x75, 0x7e, 0x4f), Word(0x74, 0x01, 0x90, 0x5a))
  const A3_K13 := Four(Word(0xca, 0xfa, 0xaa, 0xe3), Word(0xe4, 0xd5, 0x9b, 0x34),
                       Word(0x9a, 0xdf, 0x6a, 0xce), Word(0xbd, 0x10, 0x19, 0x0d))
  const A3_K14 := Four(Word(0xfe, 0x48, 0x90, 0xd1), Word(0xe6, 0x18, 0x8d, 0x0b),
                       Word(0x04, 0x6d, 0xf3, 0x44), Word(0x70, 0x6c, 0x63, 0x1e))

  const A3_KEY := BlockOf(A3_K0) + BlockOf(A3_K1)

  lemma A3Keys2()
    ensures NextKey(2, A3_K0, A3_K1) == A3_K2
    ensures NextKey(3, A3_K1, A3_K2) == A3_K3
  {
  }

  lemma A3Keys4()
    ensures NextKey(4, A3_K2, A3_K3) == A3_K4
    ensures NextKey(5, A3_K3, A3_K4) == A3_K5
  {
  }

  lemma A3Keys6()
    ensures NextKey(6, A3_K4, A3_K5) == A3_K6
    ensures NextKey(7, A3_K5, A3_K6) == A3_K7
  {
  }

  lemma A3Keys8()
    ensures NextKey(8, A3_K6, A3_K7) == A3_K8
    ensures NextKey(9, A3_K7, A3_K8) == A3_K9
  {
  }

  lemma A3Keys10()
    ensures NextKey(10, A3_K8, A3_K9) == A3_K10
    ensures NextKey(11, A3_K9, A3_K10) == A3_K11
  {
  }

  lemma A3Keys12()
    ensures NextKey(12, A3_K10, A3_K11) == A3_K12
    ensures NextKey(13, A3_K11, A3_K12) == A3_K13
  {
  }

  lemma A3Keys14()
    ensures NextKey(14, A3_K12, A3_K13) == A3_K14
  {
  }

  // ---- Appendix C.3 ------------------------------------------------------------------------

  const C3_K0 := Four(Word(0x00, 0x01, 0x02, 0x03), Word(0x04, 0x05, 0x06, 0x07),
                      Word(0x08, 0x09, 0x0a, 0x0b), Word(0x0c, 0x0d, 0x0e, 0x0f))
  const C3_K1 := Four(Word(0x10, 0x11, 0x12, 0x13), Word(0x14, 0x15, 0x16, 0x17),
                      Word(0x18, 0x19, 0x1a, 0x1b), Word(0x1c, 0x1d, 0x1e, 0x1f))
  const C3_K2 := Four(Word(0xa5, 0x73, 0xc2, 0x9f), Word(0xa1, 0x76, 0xc4, 0x98),
                      Word(0xa9, 0x7f, 0xce, 0x93), Word(0xa5, 0x72, 0xc0, 0x9c))
  const C3_K3 := Four(Word(0x16, 0x51, 0xa8, 0xcd), Word(0x02, 0x44, 0xbe, 0xda),
                      Word(0x1a, 0x5d, 0xa4, 0xc1), Word(0x06, 0x40, 0xba, 0xde))
  const C3_K4 := Four(Word(0xae, 0x87, 0xdf, 0xf0), Word(0x0f, 0xf1, 0x1b, 0x68),
                      Word(0xa6, 0x8e, 0xd5, 0xfb), Word(0x03, 0xfc, 0x15, 0x67))
  const C3_K5 := Four(Word(0x6d, 0xe1, 0xf1, 0x48), Word(0x6f, 0xa5, 0x4f, 0x92),
                      Word(0x75, 0xf8, 0xeb, 0x53), Word(0x73, 0xb8, 0x51, 0x8d))
  const C3_K6 := Four(Word(0xc6, 0x56, 0x82, 0x7f), Word(0xc9, 0xa7, 0x99, 0x17),
                      Word(0x6f, 0x29, 0x4c, 0xec), Word(0x6c, 0xd5, 0x59, 0x8b))
  const C3_K7 := Four(Word(0x3d, 0xe2, 0x3a, 0x75), Word(0x52, 0x47, 0x75, 0xe7),
                      Word(0x27, 0xbf, 0x9e, 0xb4), Word(0x54, 0x07, 0xcf, 0x39))
  const C3_K8 := Four(Word(0x0b, 0xdc, 0x90, 0x5f), Word(0xc2, 0x7b, 0x09, 0x48),
                      Word(0xad, 0x52, 0x45, 0xa4), Word(0xc1, 0x87, 0x1c, 0x2f))
  const C3_K9 := Four(Word(0x45, 0xf5, 0xa6, 0x60), Word(0x17, 0xb2, 0xd3, 0x87),
                      Word(0x30, 0x0d, 0x4d, 0x33), Word(0x64, 0x0a, 0x82, 0x0a))
  const C3_K10 := Four(Word(0x7c, 0xcf, 0xf7, 0x1c), Word(0xbe, 0xb4, 0xfe, 0x54),
                       Word(0x13, 0xe6, 0xbb, 0xf0), Word(0xd2, 0x61, 0xa7, 0xdf))
  const C3_K11 := Four(Word(0xf0, 0x1a, 0xfa, 0xfe), Word(0xe7, 0xa8, 0x29, 0x79),
                       Word(0xd7, 0xa5, 0x64, 0x4a), Word(0xb3, 0xaf, 0xe6, 0x40))
  const C3_K12 := Four(Word(0x25, 0x41, 0xfe, 0x71), Word(0x9b, 0xf5, 0x00, 0x25),
                       Word(0x88, 0x13, 0xbb, 0xd5), Word(0x5a, 0x72, 0x1c, 0x0a))
  const C3_K13 := Four(Word(0x4e, 0x5a, 0x66, 0x99), Word(0xa9, 0xf2, 0x4f, 0xe0),
                       Word(0x7e, 0x57, 0x2b, 0xaa), Word(0xcd, 0xf8, 0xcd, 0xea))
  const C3_K14 := Four(Word(0x24, 0xfc, 0x79, 0xcc), Word(0xbf, 0x09, 0x79, 0xe9),
                       Word(0x37, 0x1a, 0xc2, 0x3c), Word(0x6d, 0x68, 0xde, 0x36))

  const C3_KEY := BlockOf(C3_K0) + BlockOf(C3_K1)

  lemma C3Keys2()
    ensures NextKey(2, C3_K0, C3_K1) == C3_K2
    ensures NextKey(3, C3_K1, C3_K2) == C3_K3
  {
  }

  lemma C3Keys4()
    ensures NextKey(4, C3_K2, C3_K3) == C3_K4
    ensures NextKey(5, C3_K3, C3_K4) == C3_K5
  {
  }

  lemma C3Keys6()
    ensures NextKey(6, C3_K4, C3_K5) == C3_K6
    ensures NextKey(7, C3_K5, C3_K6) == C3_K7
  {
  }

  lemma C3Keys8()
    ensures NextKey(8, C3_K6, C3_K7) == C3_K8
    ensures NextKey(9, C3_K7, C3_K8) == C3_K9
  {
  }

  lemma C3Keys10()
    ensures NextKey(10, C3_K8, C3_K9) == C3_K10
    ensures NextKey(11, C3_K9, C3_K10) == C3_K11
  {
  }

  lemma C3Keys12()
    ensures NextKey(12, C3_K10, C3_K11) == C3_K12
    ensures NextKey(13, C3_K11, C3_K12) == C3_K13
  {
  }

  lemma C3Keys14()
    ensures NextKey(14, C3_K12, C3_K13) == C3_K14
  {
  }

  // ---- States ----------------------------------------------------------------------------

  /** The state after SubBytes and ShiftRows. */
  function Shifted(s: Four): Four {
    Four(ShiftedColumn(s.w0, s.w1, s.w2, s.w3), ShiftedColumn(s.w1, s.w2, s.w3, s.w0),
         ShiftedColumn(s.w2, s.w3, s.w0, s.w1), ShiftedColumn(s.w3, s.w0, s.w1, s.w2))
  }

  function ShiftedColumn(a: Word, b: Word, c: Word, d: Word): Word {
    Word(SubByte(a.b0), SubByte(b.b1), SubByte(c.b2), SubByte(d.b3))
  }

  /** The state after MixColumns, and after AddRoundKey. */
  function MixedState(s: Four): Four {
    Four(MixedColumn(s.w0), MixedColumn(s.w1), MixedColumn(s.w2), MixedColumn(s.w3))
  }

  function MixedColumn(w: Word): Word {
    Word(MixTwice(w.b0, w.b1, w.b2, w.b3), MixTwice(w.b1, w.b2, w.b3, w.b0),
         MixTwice(w.b2, w.b3, w.b0, w.b1), MixTwice(w.b3, w.b0, w.b1, w.b2))
  }

  function MixTwice(a: bv8, b: bv8, c: bv8, d: bv8): bv8 {
    XTime(a ^ b) ^ b ^ c ^ d
  }

  function Keyed(s: Four, k: Four): Four {
    Four(XorWord(s.w0, k.w0), XorWord(s.w1, k.w1), XorWord(s.w2, k.w2), XorWord(s.w3, k.w3))
  }

  const C3_S0 := Four(Word(0x00, 0x10, 0x20, 0x30), Word(0x40, 0x50, 0x60, 0x70),
                      Word(0x80, 0x90, 0xa0, 0xb0), Word(0xc0, 0xd0, 0xe0, 0xf0))
  const C3_T1 := Four(Word(0x63, 0x53, 0xe0, 0x8c), Word(0x09, 0x60, 0xe1, 0x04),
                      Word(0xcd, 0x70, 0xb7, 0x51), Word(0xba, 0xca, 0xd0, 0xe7))
  const C3_S1 := Four(Word(0x4f, 0x63, 0x76, 0x06), Word(0x43, 0xe0, 0xaa, 0x85),
                      Word(0xef, 0xa7, 0x21, 0x32), Word(0x01, 0xa4, 0xe7, 0x05))
  const C3_T2 := Four(Word(0x84, 0xe1, 0xfd, 0x6b), Word(0x1a, 0x5c, 0x94, 0x6f),
                      Word(0xdf, 0x49, 0x38, 0x97), Word(0x7c, 0xfb, 0xac, 0x23))
  const C3_S2 := Four(Word(0x18, 0x59, 0xfb, 0xc2), Word(0x8a, 0x1c, 0x00, 0xa0),
                      Word(0x78, 0xed, 0x8a, 0xad), Word(0xc4, 0x2f, 0x61, 0x09))
  const C3_T3 := Four(Word(0xad, 0x9c, 0x7e, 0x01), Word(0x7e, 0x55, 0xef, 0x25),
                      Word(0xbc, 0x15, 0x0f, 0xe0), Word(0x1c, 0xcb, 0x63, 0x95))
  const C3_S3 := Four(Word(0x97, 0x5c, 0x66, 0xc1), Word(0xcb, 0x9f, 0x3f, 0xa8),
                      Word(0xa9, 0x3a, 0x28, 0xdf), Word(0x8e, 0xe1, 0x0f, 0x63))
  const C3_T4 := Four(Word(0x88, 0xdb, 0x34, 0xfb), Word(0x1f, 0x80, 0x76, 0x78),
                      Word(0xd3, 0xf8, 0x33, 0xc2), Word(0x19, 0x4a, 0x75, 0x9e))
  const C3_S4 := Four(Word(0x1c, 0x05, 0xf2, 0x71), Word(0xa4, 0x17, 0xe0, 0x4f),
                      Word(0xf9, 0x21, 0xc5, 0xc1), Word(0x04, 0x70, 0x15, 0x54))
  const C3_T5 := Four(Word(0x9c, 0xf0, 0xa6, 0x20), Word(0x49, 0xfd, 0x59, 0xa3),
                      Word(0x99, 0x51, 0x89, 0x84), Word(0xf2, 0x6b, 0xe1, 0x78))
  const C3_S5 := Four(Word(0xc3, 0x57, 0xaa, 0xe1), Word(0x1b, 0x45, 0xb7, 0xb0),
                      Word(0xa2, 0xc7, 0xbd, 0x28), Word(0xa8, 0xdc, 0x99, 0xfa))
  const C3_T6 := Four(Word(0x2e, 0x6e, 0x7a, 0x2d), Word(0xaf, 0xc6, 0xee, 0xf8),
                      Word(0x3a, 0x86, 0xac, 0xe7), Word(0xc2, 0x5b, 0xa9, 0x34))
  const C3_S6 := Four(Word(0x7f, 0x07, 0x41, 0x43), Word(0xcb, 0x4e, 0x24, 0x3e),
                      Word(0xc1, 0x0c, 0x81, 0x5d), Word(0x83, 0x75, 0xd5, 0x4c))
  const C3_T7 := Four(Word(0xd2, 0x2f, 0x0c, 0x29), Word(0x1f, 0xfe, 0x03, 0x1a),
                      Word(0x78, 0x9d, 0x83, 0xb2), Word(0xec, 0xc5, 0x36, 0x4c))
  const C3_S7 := Four(Word(0xd6, 0x53, 0xa4, 0x69), Word(0x6c, 0xa0, 0xbc, 0x0f),
                      Word(0x5a, 0xca, 0xab, 0x5d), Word(0xb9, 0x6c, 0x5e, 0x7d))
  const C3_T8 := Four(Word(0xf6, 0xe0, 0x62, 0xff), Word(0x50, 0x74, 0x58, 0xf9),
                      Word(0xbe, 0x50, 0x49, 0x76), Word(0x56, 0xed, 0x65, 0x4c))
  const C3_S8 := Four(Word(0x5a, 0xa8, 0x58, 0x39), Word(0x5f, 0xd2, 0x8d, 0x7d),
                      Word(0x05, 0xe1, 0xa3, 0x88), Word(0x68, 0xf3, 0xb9, 0xc5))
  const C3_T9 := Four(Word(0xbe, 0xb5, 0x0a, 0xa6), Word(0xcf, 0xf8, 0x56, 0x12),
                      Word(0x6b, 0x0d, 0x6a, 0xff), Word(0x45, 0xc2, 0x5d, 0xc4))
  const C3_S9 := Four(Word(0x4a, 0x82, 0x48, 0x51), Word(0xc5, 0x7e, 0x7e, 0x47),
                      Word(0x64, 0x3d, 0xe5, 0x0c), Word(0x2a, 0xf3, 0xe8, 0xc9))
  const C3_T10 := Four(Word(0xd6, 0xf3, 0xd9, 0xdd), Word(0xa6, 0x27, 0x9b, 0xd1),
                       Word(0x43, 0x0d, 0x52, 0xa0), Word(0xe5, 0x13, 0xf3, 0xfe))
  const C3_S10 := Four(Word(0xc1, 0x49, 0x07, 0xf6), Word(0xca, 0x3b, 0x3a, 0xa0),
                       Word(0x70, 0xe9, 0xaa, 0x31), Word(0x3b, 0x52, 0xb5, 0xec))
  const C3_T11 := Four(Word(0x78, 0xe2, 0xac, 0xce), Word(0x74, 0x1e, 0xd5, 0x42),
                       Word(0x51, 0x00, 0xc5, 0xe0), Word(0xe2, 0x3b, 0x80, 0xc7))
  const C3_S11 := Four(Word(0x5f, 0x9c, 0x6a, 0xbf), Word(0xba, 0xc6, 0x34, 0xaa),
                       Word(0x50, 0x40, 0x9f, 0xa7), Word(0x66, 0x67, 0x76, 0x53))
  const C3_T12 := Four(Word(0xcf, 0xb4, 0xdb, 0xed), Word(0xf4, 0x09, 0x38, 0x08),
                       Word(0x53, 0x85, 0x02, 0xac), Word(0x33, 0xde, 0x18, 0x5c))
  const C3_S12 := Four(Word(0x51, 0x66, 0x04, 0x95), Word(0x43, 0x53, 0x95, 0x03),
                       Word(0x14, 0xfb, 0x86, 0xe4), Word(0x01, 0x92, 0x25, 0x21))
  const C3_T13 := Four(Word(0xd1, 0xed, 0x44, 0xfd), Word(0x1a, 0x0f, 0x3f, 0x2a),
                       Word(0xfa, 0x4f, 0xf2, 0x7b), Word(0x7c, 0x33, 0x2a, 0x69))
  const C3_S13 := Four(Word(0x62, 0x7b, 0xce, 0xb9), Word(0x99, 0x9d, 0x5a, 0xaa),
                       Word(0xc9, 0x45, 0xec, 0xf4), Word(0x23, 0xf5, 0x6d, 0xa5))
  const C3_T14 := Four(Word(0xaa, 0x5e, 0xce, 0x06), Word(0xee, 0x6e, 0x3c, 0x56),
                       Word(0xdd, 0xe6, 0x8b, 0xac), Word(0x26, 0x21, 0xbe, 0xbf))

  lemma C3States1()
    ensures Shifted(C3_S0) == C3_T1 && Keyed(MixedState(C3_T1), C3_K1) == C3_S1
    ensures Shifted(C3_S1) == C3_T2 && Keyed(MixedState(C3_T2), C3_K2) == C3_S2
  {
  }

  lemma C3States3()
    ensures Shifted(C3_S2) == C3_T3 && Keyed(MixedState(C3_T3), C3_K3) == C3_S3
    ensures Shifted(C3_S3) == C3_T4 && Keyed(MixedState(C3_T4), C3_K4) == C3_S4
  {
  }

  lemma C3States5()
    ensures Shifted(C3_S4) == C3_T5 && Keyed(MixedState(C3_T5), C3_K5) == C3_S5
    ensures Shifted(C3_S5) == C3_T6 && Keyed(MixedState(C3_T6), C3_K6) == C3_S6
  {
  }

  lemma C3States7()
    ensures Shifted(C3_S6) == C3_T7 && Keyed(MixedState(C3_T7), C3_K7) == C3_S7
    ensures Shifted(C3_S7) == C3_T8 && Keyed(MixedState(C3_T8), C3_K8) == C3_S8
  {
  }

  lemma C3States9()
    ensures Shifted(C3_S8) == C3_T9 && Keyed(MixedState(C3_T9), C3_K9) == C3_S9
    ensures Shifted(C3_S9) == C3_T10 && Keyed(MixedState(C3_T10), C3_K10) == C3_S10
  {
  }

  lemma C3States11()
    ensures Shifted(C3_S10) == C3_T11 && Keyed(MixedState(C3_T11), C3_K11) == C3_S11
    ensures Shifted(C3_S11) == C3_T12 && Keyed(MixedState(C3_T12), C3_K12) == C3_S12
  {
  }

  lemma C3States13()
    ensures Shifted(C3_S12) == C3_T13 && Keyed(MixedState(C3_T13), C3_K13) == C3_S13
  {
  }

  lemma A3Expanded()
    ensures RoundKeyAt(A3_KEY, 0) == A3_K0 && RoundKeyAt(A3_KEY, 1) == A3_K1 && RoundKeyAt(A3_KEY, 2) == A3_K2
    ensures RoundKeyAt(A3_KEY, 3) == A3_K3 && RoundKeyAt(A3_KEY, 4) == A3_K4 && RoundKeyAt(A3_KEY, 5) == A3_K5
    ensures RoundKeyAt(A3_KEY, 6) == A3_K6 && RoundKeyAt(A3_KEY, 7) == A3_K7 && RoundKeyAt(A3_KEY, 8) == A3_K8
    ensures RoundKeyAt(A3_KEY, 9) == A3_K9 && RoundKeyAt(A3_KEY, 10) == A3_K10 && RoundKeyAt(A3_KEY, 11) == A3_K11
    ensures RoundKeyAt(A3_KEY, 12) == A3_K12 && RoundKeyAt(A3_KEY, 13) == A3_K13 && RoundKeyAt(A3_KEY, 14) == A3_K14
  {
    hide NextKey, RoundKeyAt, BlockOf;
    FirstKeys(A3_K0, A3_K1);
    A3Keys2();
    NextKeyAt(A3_KEY, 2, A3_K0, A3_K1);
    NextKeyAt(A3_KEY, 3, A3_K1, A3_K2);
    A3Keys4();
    NextKeyAt(A3_KEY, 4, A3_K2, A3_K3);
    NextKeyAt(A3_KEY, 5, A3_K3, A3_K4);
    A3Keys6();
    NextKeyAt(A3_KEY, 6, A3_K4, A3_K5);
    NextKeyAt(A3_KEY, 7, A3_K5, A3_K6);
    A3Keys8();
    NextKeyAt(A3_KEY, 8, A3_K6, A3_K7);
    NextKeyAt(A3_KEY, 9, A3_K7, A3_K8);
    A3Keys10();
    NextKeyAt(A3_KEY, 10, A3_K8, A3_K9);
    NextKeyAt(A3_KEY, 11, A3_K9, A3_K10);
    A3Keys12();
    NextKeyAt(A3_KEY, 12, A3_K10, A3_K11);
    NextKeyAt(A3_KEY, 13, A3_K11, A3_K12);
    A3Keys14();
    NextKeyAt(A3_KEY, 14, A3_K12, A3_K13);
  }

  lemma C3Expanded()
    ensures RoundKeyAt(C3_KEY, 0) == C3_K0 && RoundKeyAt(C3_KEY, 1) == C3_K1 && RoundKeyAt(C3_KEY, 2) == C3_K2
    ensures RoundKeyAt(C3_KEY, 3) == C3_K3 && RoundKeyAt(C3_KEY, 4) == C3_K4 && RoundKeyAt(C3_KEY, 5) == C3_K5
    ensures RoundKeyAt(C3_KEY, 6) == C3_K6 && RoundKeyAt(C3_KEY, 7) == C3_K7 && RoundKeyAt(C3_KEY, 8) == C3_K8
    ensures RoundKeyAt(C3_KEY, 9) == C3_K9 && RoundKeyAt(C3_KEY, 10) == C3_K10 && RoundKeyAt(C3_KEY, 11) == C3_K11
    ensures RoundKeyAt(C3_KEY, 12) == C3_K12 && RoundKeyAt(C3_KEY, 13) == C3_K13 && RoundKeyAt(C3_KEY, 14) == C3_K14
  {
    hide NextKey, RoundKeyAt, BlockOf;
    FirstKeys(C3_K0, C3_K1);
    C3Keys2();
    NextKeyAt(C3_KEY, 2, C3_K0, C3_K1);
    NextKeyAt(C3_KEY, 3, C3_K1, C3_K2);
    C3Keys4();
    NextKeyAt(C3_KEY, 4, C3_K2, C3_K3);
    NextKeyAt(C3_KEY, 5, C3_K3, C3_K4);
    C3Keys6();
    NextKeyAt(C3_KEY, 6, C3_K4, C3_K5);
    NextKeyAt(C3_KEY, 7, C3_K5, C3_K6);
    C3Keys8();
    NextKeyAt(C3_KEY, 8, C3_K6, C3_K7);
    NextKeyAt(C3_KEY, 9, C3_K7, C3_K8);
    C3Keys10();
    NextKeyAt(C3_KEY, 10, C3_K8, C3_K9);
    NextKeyAt(C3_KEY, 11, C3_K9, C3_K10);
    C3Keys12();
    NextKeyAt(C3_KEY, 12, C3_K10, C3_K11);
    NextKeyAt(C3_KEY, 13, C3_K11, C3_K12);
    C3Keys14();
    NextKeyAt(C3_KEY, 14, C3_K12, C3_K13);
  }

  // ---- Along the rounds ------------------------------------------------------------------

  predicate ColumnOf(s: seq<bv8>, i: nat, w: Word)
    requires i + 4 <= |s|
  {
    s[i] == w.b0 && s[i + 1] == w.b1 && s[i + 2] == w.b2 && s[i + 3] == w.b3
  }

  /** The columns of the block from position i on. */
  predicate Shows(s: seq<bv8>, i: nat, f: Four)
    requires i + 16 <= |s|
  {
    ColumnOf(s, i, f.w0) && ColumnOf(s, i + 4, f.w1) && ColumnOf(s, i + 8, f.w2) && ColumnOf(s, i + 12, f.w3)
  }

  lemma SourcesOfRows()
    ensures LeftSource(0) == 0 && LeftSource(4) == 4 && LeftSource(8) == 8 && LeftSource(12) == 12
    ensures LeftSource(1) == 5 && LeftSource(5) == 9 && LeftSource(9) == 13 && LeftSource(13) == 1
    ensures LeftSource(2) == 10 && LeftSource(6) == 14 && LeftSource(10) == 2 && LeftSource(14) == 6
    ensures LeftSource(3) == 15 && LeftSource(7) == 3 && LeftSource(11) == 7 && LeftSource(15) == 11
  {
  }

  lemma ShiftedShows(s: Block, f: Four)
    requires Shows(s, 0, f)
    ensures Shows(ShiftRowsOf(SubBytesOf(s)), 0, Shifted(f))
  {
    hide SubByte, LeftSource;
    SourcesOfRows();
  }

  lemma MixTwiceIsMix(a: bv8, b: bv8, c: bv8, d: bv8)
    ensures MixTwice(a, b, c, d) == Mix(a, b, c, d)
  {
    hide XTime, GfMul, Multiply;
    XTimeLinear(a, b);
    MultiplyBy2(a);
    MultiplyBy3(b);
    Regroup(XTime(a), XTime(b), b, c, d);
  }

  lemma Regroup(x: bv8, y: bv8, b: bv8, c: bv8, d: bv8)
    ensures (x ^ y) ^ b ^ c ^ d == x ^ (y ^ b) ^ c ^ d
  {
  }

  function Next(r: nat, k: nat): (j: nat)
    requires r < 4 && k < 4
    ensures j < 4
  {
    if r + k < 4 then r + k else r + k - 4
  }

  lemma ByteOfColumn(s: seq<bv8>, i: nat, w: Word, j: nat)
    requires i + 4 <= |s| && ColumnOf(s, i, w) && j < 4
    ensures s[i + j] == ByteOf(w, j)
  {
  }

  lemma ByteMixed(s: Block, c: nat, w: Word, r: nat)
    requires c < 4 && r < 4 && ColumnOf(s, 4 * c, w)
    ensures MixColumnsOf(s)[4 * c + r]
         == Mix(ByteOf(w, r), ByteOf(w, Next(r, 1)), ByteOf(w, Next(r, 2)), ByteOf(w, Next(r, 3)))
  {
    hide Mix, Down, ByteOf, ColumnOf;
    DownValue(c, r, 1);
    DownValue(c, r, 2);
    DownValue(c, r, 3);
    ByteOfColumn(s, 4 * c, w, r);
    ByteOfColumn(s, 4 * c, w, Next(r, 1));
    ByteOfColumn(s, 4 * c, w, Next(r, 2));
    ByteOfColumn(s, 4 * c, w, Next(r, 3));
  }

  lemma ColumnMixedShows(s: Block, c: nat, w: Word)
    requires c < 4 && ColumnOf(s, 4 * c, w)
    ensures ColumnOf(MixColumnsOf(s), 4 * c, MixedColumn(w))
  {
    hide Mix, MixTwice, MixColumnsOf;
    ByteMixed(s, c, w, 0);
    ByteMixed(s, c, w, 1);
    ByteMixed(s, c, w, 2);
    ByteMixed(s, c, w, 3);
    MixTwiceIsMix(w.b0, w.b1, w.b2, w.b3);
    MixTwiceIsMix(w.b1, w.b2, w.b3, w.b0);
    MixTwiceIsMix(w.b2, w.b3, w.b0, w.b1);
    MixTwiceIsMix(w.b3, w.b0, w.b1, w.b2);
  }

  lemma ColumnKeyedShows(s: Block, rk: RoundKeys, r: nat, i: nat, w: Word, k: Word)
    requires r <= 14 && i <= 12 && ColumnOf(s, i, w) && ColumnOf(rk, 16 * r + i, k)
    ensures ColumnOf(AddRoundKeyOf(s, rk, r), i, XorWord(w, k))
  {
    hide AddRoundKeyOf;
    ByteKeyed(s, rk, r, i);
    ByteKeyed(s, rk, r, i + 1);
    ByteKeyed(s, rk, r, i + 2);
    ByteKeyed(s, rk, r, i + 3);
  }

  lemma ByteKeyed(s: Block, rk: RoundKeys, r: nat, i: nat)
    requires r <= 14 && i < 16
    ensures AddRoundKeyOf(s, rk, r)[i] == s[i] ^ rk[16 * r + i]
  {
  }

  lemma KeyedShows(s: Block, rk: RoundKeys, r: nat, f: Four, k: Four)
    requires r <= 14 && Shows(s, 0, f) && Shows(rk, 16 * r, k)
    ensures Shows(AddRoundKeyOf(s, rk, r), 0, Keyed(f, k))
  {
    hide ColumnOf, XorWord;
    ColumnKeyedShows(s, rk, r, 0, f.w0, k.w0);
    ColumnKeyedShows(s, rk, r, 4, f.w1, k.w1);
    ColumnKeyedShows(s, rk, r, 8, f.w2, k.w2);
    ColumnKeyedShows(s, rk, r, 12, f.w3, k.w3);
  }

  lemma MixedShows(s: Block, f: Four)
    requires Shows(s, 0, f)
    ensures Shows(MixColumnsOf(s), 0, MixedState(f))
  {
    hide ColumnOf, MixedColumn;
    ColumnMixedShows(s, 0, f.w0);
    ColumnMixedShows(s, 1, f.w1);
    ColumnMixedShows(s, 2, f.w2);
    ColumnMixedShows(s, 3, f.w3);
  }

  /** One round of the cipher. */
  lemma RoundShows(s: Block, rk: RoundKeys, r: nat, before: Four, shifted: Four, k: Four, after: Four)
    requires 1 <= r <= 13 && Shows(RoundState(s, rk, r - 1), 0, before) && Shows(rk, 16 * r, k)
    requires Shifted(before) == shifted && Keyed(MixedState(shifted), k) == after
    ensures Shows(RoundState(s, rk, r), 0, after)
  {
    hide Shows, Shifted, MixedState, Keyed, ShiftRowsOf, SubBytesOf, MixColumnsOf, AddRoundKeyOf;
    ShiftedShows(RoundState(s, rk, r - 1), before);
    MixedShows(ShiftRowsOf(SubBytesOf(RoundState(s, rk, r - 1))), shifted);
    KeyedShows(MixColumnsOf(ShiftRowsOf(SubBytesOf(RoundState(s, rk, r - 1)))), rk, r, MixedState(shifted), k);
  }

  lemma WordShows(key: seq<bv8>, n: nat)
    requires |key| == 32 && n < 60
    ensures ColumnOf(KeySchedule(key), 4 * n, Expanded(key, n))
  {
    hide Expanded, KeySchedule;
    ScheduleByte(key, n, 0);
    ScheduleByte(key, n, 1);
    ScheduleByte(key, n, 2);
    ScheduleByte(key, n, 3);
  }

  lemma ScheduleShows(key: seq<bv8>, r: nat, f: Four)
    requires |key| == 32 && r <= 14 && RoundKeyAt(key, r) == f
    ensures Shows(KeySchedule(key), 16 * r, f)
  {
    hide Expanded, ColumnOf;
    WordShows(key, 4 * r);
    WordShows(key, 4 * r + 1);
    WordShows(key, 4 * r + 2);
    WordShows(key, 4 * r + 3);
  }

  // ---- The example -----------------------------------------------------------------------

  const C3_PLAIN: Block := [0x00, 0x11, 0x22, 0x33, 0x44, 0x55, 0x66, 0x77,
                            0x88, 0x99, 0xaa, 0xbb, 0xcc, 0xdd, 0xee, 0xff]
  const C3_CIPHER: Block := [0x8e, 0xa2, 0xb7, 0xca, 0x51, 0x67, 0x45, 0xbf,
                             0xea, 0xfc, 0x49, 0x90, 0x4b, 0x49, 0x60, 0x89]

  lemma C3First(rk: RoundKeys)
    requires Shows(rk, 0, C3_K0)
    ensures Shows(RoundState(C3_PLAIN, rk, 0), 0, C3_S0)
  {
  }

  lemma C3Last(rk: RoundKeys)
    requires Shows(RoundState(C3_PLAIN, rk, 13), 0, C3_S13) && Shows(rk, 224, C3_K14)
    ensures CipherOf(C3_PLAIN, rk) == C3_CIPHER
  {
    hide RoundState, ShiftRowsOf, SubBytesOf, AddRoundKeyOf;
    ShiftedShows(RoundState(C3_PLAIN, rk, 13), C3_S13);
    KeyedShows(ShiftRowsOf(SubBytesOf(RoundState(C3_PLAIN, rk, 13))), rk, 14, Shifted(C3_S13), C3_K14);
    C3Output();
  }

  lemma C3Output()
    ensures Shifted(C3_S13) == C3_T14 && Shows(C3_CIPHER, 0, Keyed(C3_T14, C3_K14))
  {
  }

  /** The cipher and its inverse on the example, with the expanded key. */
  lemma C3Example()
    ensures CipherOf(C3_PLAIN, KeySchedule(C3_KEY)) == C3_CIPHER
    ensures InvCipherOf(C3_CIPHER, KeySchedule(C3_KEY)) == C3_PLAIN
  {
    hide Shows, Shifted, MixedState, Keyed, RoundState, CipherOf, InvCipherOf, KeySchedule, RoundKeyAt;
    var rk := KeySchedule(C3_KEY);
    C3Expanded();
    ScheduleShows(C3_KEY, 0, C3_K0);
    C3First(rk);
    C3States1();
    ScheduleShows(C3_KEY, 1, C3_K1);
    RoundShows(C3_PLAIN, rk, 1, C3_S0, C3_T1, C3_K1, C3_S1);
    ScheduleShows(C3_KEY, 2, C3_K2);
    RoundShows(C3_PLAIN, rk, 2, C3_S1, C3_T2, C3_K2, C3_S2);
    C3States3();
    ScheduleShows(C3_KEY, 3, C3_K3);
    RoundShows(C3_PLAIN, rk, 3, C3_S2, C3_T3, C3_K3, C3_S3);
    ScheduleShows(C3_KEY, 4, C3_K4);
    RoundShows(C3_PLAIN, rk, 4, C3_S3, C3_T4, C3_K4, C3_S4);
    C3States5();
    ScheduleShows(C3_KEY, 5, C3_K5);
    RoundShows(C3_PLAIN, rk, 5, C3_S4, C3_T5, C3_K5, C3_S5);
    ScheduleShows(C3_KEY, 6, C3_K6);
    RoundShows(C3_PLAIN, rk, 6, C3_S5, C3_T6, C3_K6, C3_S6);
    C3States7();
    ScheduleShows(C3_KEY, 7, C3_K7);
    RoundShows(C3_PLAIN, rk, 7, C3_S6, C3_T7, C3_K7, C3_S7);
    ScheduleShows(C3_KEY, 8, C3_K8);
    RoundShows(C3_PLAIN, rk, 8, C3_S7, C3_T8, C3_K8, C3_S8);
    C3States9();
    ScheduleShows(C3_KEY, 9, C3_K9);
    RoundShows(C3_PLAIN, rk, 9, C3_S8, C3_T9, C3_K9, C3_S9);
    ScheduleShows(C3_KEY, 10, C3_K10);
    RoundShows(C3_PLAIN, rk, 10, C3_S9, C3_T10, C3_K10, C3_S10);
    C3States11();
    ScheduleShows(C3_KEY, 11, C3_K11);
    RoundShows(C3_PLAIN, rk, 11, C3_S10, C3_T11, C3_K11, C3_S11);
    ScheduleShows(C3_KEY, 12, C3_K12);
    RoundShows(C3_PLAIN, rk, 12, C3_S11, C3_T12, C3_K12, C3_S12);
    C3States13();
    ScheduleShows(C3_KEY, 13, C3_K13);
    RoundShows(C3_PLAIN, rk, 13, C3_S12, C3_T13, C3_K13, C3_S13);
    ScheduleShows(C3_KEY, 14, C3_K14);
    C3Last(rk);
    InvCipherOfCipher(C3_PLAIN, rk);
  }
}
