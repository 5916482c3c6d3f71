/** AES-256 on 16-byte blocks inside a larger buffer: the in-place transformations of
    aes.c against their definitions in FIPS 197, and the cipher and its inverse.
    Byte r + 4*c of a block is row r, column c of the state. */
module Aes {
  import opened Gf256
  import opened AesTables

  const BLOCK := 16
  const ROUNDS := 14
  const KEY_WORDS := 8
  const EXPANDED := 240

  type Block = s: seq<bv8> | |s| == BLOCK witness [0, 0, 0, 0, 0, 0, 0, 0, 0, 0, 0, 0, 0, 0, 0, 0]
  type RoundKeys = s: seq<bv8> | |s| == EXPANDED witness seq(EXPANDED, (i: nat) => 0)

  // ---- The transformations by definition ------------------------------------------

  function SubBytesOf(s: Block): Block {
    seq(BLOCK, i requires 0 <= i < BLOCK => SubByte(s[i]))
  }

  function InvSubBytesOf(s: Block): Block {
    seq(BLOCK, i requires 0 <= i < BLOCK => InvSubByte(s[i]))
  }

  /** Where byte i comes from when row r moves r columns to the left. */
  function LeftSource(i: nat): (j: nat)
    requires i < BLOCK
    ensures j < BLOCK
  {
    i % 4 + 4 * ((i / 4 + i % 4) % 4)
  }

  function RightSource(i: nat): (j: nat)
    requires i < BLOCK
    ensures j < BLOCK
  {
    i % 4 + 4 * ((i / 4 + 4 - i % 4) % 4)
  }

  function ShiftRowsOf(s: Block): Block {
    seq(BLOCK, i requires 0 <= i < BLOCK => s[LeftSource(i)])
  }

  function InvShiftRowsOf(s: Block): Block {
    seq(BLOCK, i requires 0 <= i < BLOCK => s[RightSource(i)])
  }

  /** The place k rows below place i in its column, cyclically. */
  function Down(i: nat, k: nat): (j: nat)
    requires i < BLOCK
    ensures j < BLOCK
  {
    4 * (i / 4) + (i % 4 + k) % 4
  }

  function MixColumnsOf(s: Block): Block {
    seq(BLOCK, i requires 0 <= i < BLOCK => Mix(s[i], s[Down(i, 1)], s[Down(i, 2)], s[Down(i, 3)]))
  }

  function InvMixColumnsOf(s: Block): Block {
    seq(BLOCK, i requires 0 <= i < BLOCK => InvMix(s[i], s[Down(i, 1)], s[Down(i, 2)], s[Down(i, 3)]))
  }

  function AddRoundKeyOf(s: Block, rk: RoundKeys, round: nat): Block
    requires round <= ROUNDS
  {
    seq(BLOCK, i requires 0 <= i < BLOCK => s[i] ^ rk[16 * round + i])
  }

  // ---- They undo each other ---------------------------------------------------------

  lemma SubBytesInverse(s: Block)
    ensures InvSubBytesOf(SubBytesOf(s)) == s && SubBytesOf(InvSubBytesOf(s)) == s
  {
    hide SubByte, InvSubByte;
    forall i | 0 <= i < BLOCK
      ensures InvSubByte(SubByte(s[i])) == s[i] && SubByte(InvSubByte(s[i])) == s[i]
    {
      InvSubByteOfSubByte(s[i]);
      SubByteOfInvSubByte(s[i]);
    }
  }

  lemma Place(r: nat, c: nat)
    requires r < 4 && c < 4
    ensures (r + 4 * c) / 4 == c && (r + 4 * c) % 4 == r
  {
  }

  /** The column that is r to the right of c, or to the left. */
  function Turn(c: nat, r: nat): (d: nat)
    ensures d < 4
  {
    (c + r) % 4
  }

  function Back(c: nat, r: nat): (d: nat)
    requires r < 4
    ensures d < 4
  {
    (c + 4 - r) % 4
  }

  lemma TurnBack(c: nat, r: nat)
    requires c < 4 && r < 4
    ensures Turn(Back(c, r), r) == c && Back(Turn(c, r), r) == c
  {
  }

  lemma SourceOfPlace(r: nat, c: nat)
    requires r < 4 && c < 4
    ensures LeftSource(r + 4 * c) == r + 4 * Turn(c, r) && RightSource(r + 4 * c) == r + 4 * Back(c, r)
  {
    Place(r, c);
  }

  lemma SourcesInverse(i: nat)
    requires i < BLOCK
    ensures LeftSource(RightSource(i)) == i && RightSource(LeftSource(i)) == i
  {
    hide LeftSource, RightSource, Turn, Back;
    var c, r := i / 4, i % 4;
    assert i == r + 4 * c;
    SourceOfPlace(r, c);
    SourceOfPlace(r, Turn(c, r));
    SourceOfPlace(r, Back(c, r));
    TurnBack(c, r);
  }

  lemma ShiftRowsInverse(s: Block)
    ensures InvShiftRowsOf(ShiftRowsOf(s)) == s && ShiftRowsOf(InvShiftRowsOf(s)) == s
  {
    hide LeftSource, RightSource;
    forall i | 0 <= i < BLOCK
      ensures LeftSource(RightSource(i)) == i && RightSource(LeftSource(i)) == i
    {
      SourcesInverse(i);
    }
  }

  lemma AddRoundKeyInverse(s: Block, rk: RoundKeys, round: nat)
    requires round <= ROUNDS
    ensures AddRoundKeyOf(AddRoundKeyOf(s, rk, round), rk, round) == s
  {
    forall i | 0 <= i < BLOCK
      ensures (s[i] ^ rk[16 * round + i]) ^ rk[16 * round + i] == s[i]
    {
    }
  }

  lemma MixColumnsInverse(s: Block)
    ensures InvMixColumnsOf(MixColumnsOf(s)) == s && MixColumnsOf(InvMixColumnsOf(s)) == s
  {
    hide Mix, InvMix, Down;
    forall i | 0 <= i < BLOCK
      ensures InvMixColumnsOf(MixColumnsOf(s))[i] == s[i] && MixColumnsOf(InvMixColumnsOf(s))[i] == s[i]
    {
      MixColumnsInverseAt(s, i);
    }
  }

  lemma MixColumnsInverseAt(s: Block, i: nat)
    requires i < BLOCK
    ensures InvMixColumnsOf(MixColumnsOf(s))[i] == s[i] && MixColumnsOf(InvMixColumnsOf(s))[i] == s[i]
  {
    hide Mix, InvMix, Down;
    forall k, l | 1 <= k <= 3 && 1 <= l <= 3
      ensures Down(Down(i, k), l) == Down(i, if k + l < 4 then k + l else k + l - 4) && Down(i, 0) == i
    {
      DownDown(i, k, l);
    }
    InvMixOfMix(s[i], s[Down(i, 1)], s[Down(i, 2)], s[Down(i, 3)]);
    MixOfInvMix(s[i], s[Down(i, 1)], s[Down(i, 2)], s[Down(i, 3)]);
  }

  lemma DownValue(c: nat, r: nat, k: nat)
    requires c < 4 && r < 4 && k <= 3
    ensures Down(4 * c + r, k) == 4 * c + if r + k < 4 then r + k else r + k - 4
  {
    Place(r, c);
  }

  /** Going down a column of four comes back around. */
  lemma DownDown(i: nat, k: nat, l: nat)
    requires i < BLOCK && k <= 3 && l <= 3
    ensures Down(Down(i, k), l) == Down(i, if k + l < 4 then k + l else k + l - 4)
    ensures Down(i, 0) == i
  {
    hide Down;
    var c, r := i / 4, i % 4;
    DownValue(c, r, k);
    DownValue(c, if r + k < 4 then r + k else r + k - 4, l);
    DownValue(c, r, if k + l < 4 then k + l else k + l - 4);
    DownValue(c, r, 0);
  }

  // ---- The cipher --------------------------------------------------------------------

  /** The state after round r of encryption (section 5.1 of FIPS 197), up to the
      round before the last. */
  function RoundState(s: Block, rk: RoundKeys, r: nat): Block
    requires r < ROUNDS
  {
    if r == 0 then AddRoundKeyOf(s, rk, 0)
    else AddRoundKeyOf(MixColumnsOf(ShiftRowsOf(SubBytesOf(RoundState(s, rk, r - 1)))), rk, r)
  }

  function CipherOf(s: Block, rk: RoundKeys): Block {
    AddRoundKeyOf(ShiftRowsOf(SubBytesOf(RoundState(s, rk, ROUNDS - 1))), rk, ROUNDS)
  }

  /** The state before round r of decryption (section 5.3 of FIPS 197), which counts
      down. */
  function InvRoundState(s: Block, rk: RoundKeys, r: nat): Block
    requires r < ROUNDS
    decreases ROUNDS - r
  {
    if r == ROUNDS - 1 then AddRoundKeyOf(s, rk, ROUNDS)
    else InvMixColumnsOf(AddRoundKeyOf(InvSubBytesOf(InvShiftRowsOf(InvRoundState(s, rk, r + 1))), rk, r + 1))
  }

  function InvCipherOf(s: Block, rk: RoundKeys): Block {
    AddRoundKeyOf(InvSubBytesOf(InvShiftRowsOf(InvRoundState(s, rk, 0))), rk, 0)
  }

  lemma {:induction false} DecryptionRetraces(s: Block, rk: RoundKeys, r: nat)
    requires r < ROUNDS
    ensures InvRoundState(CipherOf(s, rk), rk, r) == ShiftRowsOf(SubBytesOf(RoundState(s, rk, r)))
    decreases ROUNDS - r
  {
    hide SubBytesOf, InvSubBytesOf, ShiftRowsOf, InvShiftRowsOf, MixColumnsOf, InvMixColumnsOf, AddRoundKeyOf;
    if r == ROUNDS - 1 {
      AddRoundKeyInverse(ShiftRowsOf(SubBytesOf(RoundState(s, rk, r))), rk, ROUNDS);
    } else {
      DecryptionRetraces(s, rk, r + 1);
      var t, u := RoundState(s, rk, r + 1), ShiftRowsOf(SubBytesOf(RoundState(s, rk, r)));
      ShiftRowsInverse(SubBytesOf(t));
      SubBytesInverse(t);
      AddRoundKeyInverse(MixColumnsOf(u), rk, r + 1);
      MixColumnsInverse(u);
    }
  }

  /** Decryption undoes encryption under every round-key array. */
  lemma InvCipherOfCipher(s: Block, rk: RoundKeys)
    ensures InvCipherOf(CipherOf(s, rk), rk) == s
  {
    hide SubBytesOf, InvSubBytesOf, ShiftRowsOf, InvShiftRowsOf, MixColumnsOf, InvMixColumnsOf, AddRoundKeyOf,
      InvRoundState, CipherOf;
    DecryptionRetraces(s, rk, 0);
    var t := RoundState(s, rk, 0);
    ShiftRowsInverse(SubBytesOf(t));
    SubBytesInverse(t);
    AddRoundKeyInverse(s, rk, 0);
  }

  lemma {:induction false} EncryptionRetraces(s: Block, rk: RoundKeys, r: nat)
    requires r < ROUNDS
    ensures ShiftRowsOf(SubBytesOf(RoundState(InvCipherOf(s, rk), rk, r))) == InvRoundState(s, rk, r)
  {
    hide SubBytesOf, InvSubBytesOf, ShiftRowsOf, InvShiftRowsOf, MixColumnsOf, InvMixColumnsOf, AddRoundKeyOf;
    var t := InvRoundState(s, rk, r);
    var u := InvSubBytesOf(InvShiftRowsOf(t));
    if r > 0 {
      EncryptionRetraces(s, rk, r - 1);
      MixColumnsInverse(AddRoundKeyOf(u, rk, r));
    }
    AddRoundKeyInverse(u, rk, r);
    SubBytesInverse(InvShiftRowsOf(t));
    ShiftRowsInverse(t);
  }

  /** Encryption undoes decryption under every round-key array. */
  lemma CipherOfInvCipher(s: Block, rk: RoundKeys)
    ensures CipherOf(InvCipherOf(s, rk), rk) == s
  {
    hide SubBytesOf, InvSubBytesOf, ShiftRowsOf, InvShiftRowsOf, MixColumnsOf, InvMixColumnsOf, AddRoundKeyOf,
      RoundState, InvCipherOf;
    EncryptionRetraces(s, rk, ROUNDS - 1);
    AddRoundKeyInverse(s, rk, ROUNDS);
  }
}
