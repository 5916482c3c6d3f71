/** AES-256 in place: the transformations of aes.c on the sixteen bytes of a buffer
    that start at an offset, the key schedule, and the cipher loops. */
module AesBuffer {
  import opened Gf256
  import opened AesTables
  import opened Aes

  /** The block of buf at o. */
  function At(buf: array<bv8>, o: nat): Block
    requires o + BLOCK <= buf.Length
    reads buf
  {
    buf[o..o + BLOCK]
  }

  /** Nothing outside the block at o has changed. */
  twostate predicate OnlyBlock(buf: array<bv8>, o: nat)
    reads buf
  {
    forall i :: 0 <= i < buf.Length && !(o <= i < o + BLOCK) ==> buf[i] == old(buf[i])
  }

  function Load(buf: array<bv8>, o: nat, k: nat): (v: bv8)
    requires o + BLOCK <= buf.Length && k < BLOCK
    reads buf
    ensures v == At(buf, o)[k]
  {
    buf[o + k]
  }

  method Store(buf: array<bv8>, o: nat, k: nat, v: bv8)
    requires o + BLOCK <= buf.Length && k < BLOCK
    modifies buf
    ensures At(buf, o) == old(At(buf, o))[k := v] && OnlyBlock(buf, o)
  {
    buf[o + k] := v;
  }

  method AddRoundKey(round: nat, buf: array<bv8>, o: nat, roundKey: array<bv8>)
    requires o + BLOCK <= buf.Length && roundKey.Length == EXPANDED && buf != roundKey && round <= ROUNDS
    modifies buf
    ensures At(buf, o) == AddRoundKeyOf(old(At(buf, o)), roundKey[..], round) && OnlyBlock(buf, o)
  {
    ghost var s, rk := At(buf, o), roundKey[..];
    var i := 0;
    while i < 4
      invariant 0 <= i <= 4 && OnlyBlock(buf, o) && roundKey[..] == rk
      invariant forall k :: 0 <= k < BLOCK ==> At(buf, o)[k] == if k < 4 * i then s[k] ^ rk[16 * round + k] else s[k]
    {
      var j := 0;
      while j < 4
        invariant 0 <= j <= 4 && OnlyBlock(buf, o) && roundKey[..] == rk
        invariant forall k :: 0 <= k < BLOCK ==>
                    At(buf, o)[k] == if k < 4 * i + j then s[k] ^ rk[16 * round + k] else s[k]
      {
        Store(buf, o, 4 * i + j, Load(buf, o, 4 * i + j) ^ roundKey[round * 16 + i * 4 + j]);
        j := j + 1;
      }
      i := i + 1;
    }
    assert At(buf, o) == AddRoundKeyOf(s, rk, round);
  }

  method SubBytes(buf: array<bv8>, o: nat)
    requires o + BLOCK <= buf.Length
    modifies buf
    ensures At(buf, o) == SubBytesOf(old(At(buf, o))) && OnlyBlock(buf, o)
  {
    hide SubByte;
    ghost var s := At(buf, o);
    var i := 0;
    while i < 4
      invariant 0 <= i <= 4 && OnlyBlock(buf, o)
      invariant forall k :: 0 <= k < BLOCK ==> At(buf, o)[k] == if k % 4 < i then SubByte(s[k]) else s[k]
    {
      var j := 0;
      while j < 4
        invariant 0 <= j <= 4 && OnlyBlock(buf, o)
        invariant forall k :: 0 <= k < BLOCK ==>
                    At(buf, o)[k] == if k % 4 < i || (k % 4 == i && k / 4 < j) then SubByte(s[k]) else s[k]
      {
        Place(i, j);
        Store(buf, o, 4 * j + i, SubByte(Load(buf, o, 4 * j + i)));
        j := j + 1;
      }
      i := i + 1;
    }
    assert At(buf, o) == SubBytesOf(s);
  }

  method InvSubBytes(buf: array<bv8>, o: nat)
    requires o + BLOCK <= buf.Length
    modifies buf
    ensures At(buf, o) == InvSubBytesOf(old(At(buf, o))) && OnlyBlock(buf, o)
  {
    hide InvSubByte;
    ghost var s := At(buf, o);
    var i := 0;
    while i < 4
      invariant 0 <= i <= 4 && OnlyBlock(buf, o)
      invariant forall k :: 0 <= k < BLOCK ==> At(buf, o)[k] == if k % 4 < i then InvSubByte(s[k]) else s[k]
    {
      var j := 0;
      while j < 4
        invariant 0 <= j <= 4 && OnlyBlock(buf, o)
        invariant forall k :: 0 <= k < BLOCK ==>
                    At(buf, o)[k] == if k % 4 < i || (k % 4 == i && k / 4 < j) then InvSubByte(s[k]) else s[k]
      {
        Place(i, j);
        Store(buf, o, 4 * j + i, InvSubByte(Load(buf, o, 4 * j + i)));
        j := j + 1;
      }
      i := i + 1;
    }
    assert At(buf, o) == InvSubBytesOf(s);
  }

  lemma LeftSources()
    ensures LeftSource(0) == 0 && LeftSource(1) == 5 && LeftSource(2) == 10 && LeftSource(3) == 15
    ensures LeftSource(4) == 4 && LeftSource(5) == 9 && LeftSource(6) == 14 && LeftSource(7) == 3
    ensures LeftSource(8) == 8 && LeftSource(9) == 13 && LeftSource(10) == 2 && LeftSource(11) == 7
    ensures LeftSource(12) == 12 && LeftSource(13) == 1 && LeftSource(14) == 6 && LeftSource(15) == 11
  {
  }

  lemma RightSources()
    ensures RightSource(0) == 0 && RightSource(1) == 13 && RightSource(2) == 10 && RightSource(3) == 7
    ensures RightSource(4) == 4 && RightSource(5) == 1 && RightSource(6) == 14 && RightSource(7) == 11
    ensures RightSource(8) == 8 && RightSource(9) == 5 && RightSource(10) == 2 && RightSource(11) == 15
    ensures RightSource(12) == 12 && RightSource(13) == 9 && RightSource(14) == 6 && RightSource(15) == 3
  {
  }

  /** Shifting rows, byte by byte. */
  lemma ShiftedBytes(s: Block)
    ensures ShiftRowsOf(s) == [s[0], s[5], s[10], s[15], s[4], s[9], s[14], s[3],
                               s[8], s[13], s[2], s[7], s[12], s[1], s[6], s[11]]
  {
    hide LeftSource;
    LeftSources();
  }

  lemma ShiftedBackBytes(s: Block)
    ensures InvShiftRowsOf(s) == [s[0], s[13], s[10], s[7], s[4], s[1], s[14], s[11],
                               s[8], s[5], s[2], s[15], s[12], s[9], s[6], s[3]]
  {
    hide RightSource;
    RightSources();
  }

  lemma RowsMoved(s: Block)
    ensures s[1 := s[5]][5 := s[9]][9 := s[13]][13 := s[1]]
             [2 := s[10]][10 := s[2]][6 := s[14]][14 := s[6]]
             [3 := s[15]][15 := s[11]][11 := s[7]][7 := s[3]]
            == ShiftRowsOf(s)
  {
    ShiftedBytes(s);
  }

  lemma RowsMovedBack(s: Block)
    ensures s[13 := s[9]][9 := s[5]][5 := s[1]][1 := s[13]]
             [2 := s[10]][10 := s[2]][6 := s[14]][14 := s[6]]
             [3 := s[7]][7 := s[11]][11 := s[15]][15 := s[3]]
            == InvShiftRowsOf(s)
  {
    ShiftedBackBytes(s);
  }

  method ShiftRows(buf: array<bv8>, o: nat)
    requires o + BLOCK <= buf.Length
    modifies buf
    ensures At(buf, o) == ShiftRowsOf(old(At(buf, o))) && OnlyBlock(buf, o)
  {
    hide ShiftRowsOf;
    ghost var s := At(buf, o);
    // Row 1 by one column
    var temp := Load(buf, o, 1);
    Store(buf, o, 1, Load(buf, o, 5));
    Store(buf, o, 5, Load(buf, o, 9));
    Store(buf, o, 9, Load(buf, o, 13));
    Store(buf, o, 13, temp);
    // Row 2 by two columns
    temp := Load(buf, o, 2);
    Store(buf, o, 2, Load(buf, o, 10));
    Store(buf, o, 10, temp);
    temp := Load(buf, o, 6);
    Store(buf, o, 6, Load(buf, o, 14));
    Store(buf, o, 14, temp);
    // Row 3 by three columns
    temp := Load(buf, o, 3);
    Store(buf, o, 3, Load(buf, o, 15));
    Store(buf, o, 15, Load(buf, o, 11));
    Store(buf, o, 11, Load(buf, o, 7));
    Store(buf, o, 7, temp);
    RowsMoved(s);
  }

  method InvShiftRows(buf: array<bv8>, o: nat)
    requires o + BLOCK <= buf.Length
    modifies buf
    ensures At(buf, o) == InvShiftRowsOf(old(At(buf, o))) && OnlyBlock(buf, o)
  {
    hide InvShiftRowsOf;
    ghost var s := At(buf, o);
    // Row 1 by one column
    var temp := Load(buf, o, 13);
    Store(buf, o, 13, Load(buf, o, 9));
    Store(buf, o, 9, Load(buf, o, 5));
    Store(buf, o, 5, Load(buf, o, 1));
    Store(buf, o, 1, temp);
    // Row 2 by two columns
    temp := Load(buf, o, 2);
    Store(buf, o, 2, Load(buf, o, 10));
    Store(buf, o, 10, temp);
    temp := Load(buf, o, 6);
    Store(buf, o, 6, Load(buf, o, 14));
    Store(buf, o, 14, temp);
    // Row 3 by three columns
    temp := Load(buf, o, 3);
    Store(buf, o, 3, Load(buf, o, 7));
    Store(buf, o, 7, Load(buf, o, 11));
    Store(buf, o, 11, Load(buf, o, 15));
    Store(buf, o, 15, temp);
    RowsMovedBack(s);
  }

  function ColumnSum(a: bv8, b: bv8, c: bv8, d: bv8): bv8 {
    a ^ b ^ c ^ d
  }

  /** The byte that MixColumns stores: the old one plus the doubled sum with its
      neighbour plus the sum of the column. */
  function MixedByte(own: bv8, next: bv8, sum: bv8): bv8 {
    own ^ (XTime(own ^ next) ^ sum)
  }

  lemma ColumnSumRotates(a: bv8, b: bv8, c: bv8, d: bv8)
    ensures ColumnSum(b, c, d, a) == ColumnSum(a, b, c, d)
  {
  }

  lemma MixedByteIsMix(a: bv8, b: bv8, c: bv8, d: bv8)
    ensures MixedByte(a, b, ColumnSum(a, b, c, d)) == Mix(a, b, c, d)
  {
    hide XTime, GfMul, Multiply, MixedByte, ColumnSum, Mix;
    MixedByDoubles(a, b, c, d);
    MixByDoubles(a, b, c, d);
  }

  lemma MixByDoubles(a: bv8, b: bv8, c: bv8, d: bv8)
    ensures Mix(a, b, c, d) == XTime(a) ^ (XTime(b) ^ b) ^ c ^ d
  {
    hide XTime, GfMul, Multiply;
    MultiplyBy2(a);
    MultiplyBy3(b);
  }

  lemma MixedByDoubles(a: bv8, b: bv8, c: bv8, d: bv8)
    ensures MixedByte(a, b, ColumnSum(a, b, c, d)) == XTime(a) ^ (XTime(b) ^ b) ^ c ^ d
  {
    hide XTime;
    XTimeLinear(a, b);
    MixedSum(a, b, c, d, XTime(a ^ b), XTime(a), XTime(b));
  }

  lemma MixedSum(a: bv8, b: bv8, c: bv8, d: bv8, t: bv8, x: bv8, y: bv8)
    requires t == x ^ y
    ensures a ^ (t ^ (a ^ b ^ c ^ d)) == x ^ (y ^ b) ^ c ^ d
  {
  }

  lemma DownInColumn(i: nat)
    requires i < 4
    ensures Down(4 * i, 1) == 4 * i + 1 && Down(4 * i, 2) == 4 * i + 2 && Down(4 * i, 3) == 4 * i + 3
    ensures Down(4 * i + 1, 1) == 4 * i + 2 && Down(4 * i + 1, 2) == 4 * i + 3 && Down(4 * i + 1, 3) == 4 * i
    ensures Down(4 * i + 2, 1) == 4 * i + 3 && Down(4 * i + 2, 2) == 4 * i && Down(4 * i + 2, 3) == 4 * i + 1
    ensures Down(4 * i + 3, 1) == 4 * i && Down(4 * i + 3, 2) == 4 * i + 1 && Down(4 * i + 3, 3) == 4 * i + 2
  {
    hide Down;
    DownValue(i, 0, 1);
    DownValue(i, 0, 2);
    DownValue(i, 0, 3);
    DownValue(i, 1, 1);
    DownValue(i, 1, 2);
    DownValue(i, 1, 3);
    DownValue(i, 2, 1);
    DownValue(i, 2, 2);
    DownValue(i, 2, 3);
    DownValue(i, 3, 1);
    DownValue(i, 3, 2);
    DownValue(i, 3, 3);
  }

  /** The block after column i has been mixed. */
  function MixColumnAt(s: Block, i: nat): Block
    requires i < 4
  {
    var a, b, c, d := s[4 * i], s[4 * i + 1], s[4 * i + 2], s[4 * i + 3];
    s[4 * i := Mix(a, b, c, d)][4 * i + 1 := Mix(b, c, d, a)]
     [4 * i + 2 := Mix(c, d, a, b)][4 * i + 3 := Mix(d, a, b, c)]
  }

  function InvMixColumnAt(s: Block, i: nat): Block
    requires i < 4
  {
    var a, b, c, d := s[4 * i], s[4 * i + 1], s[4 * i + 2], s[4 * i + 3];
    s[4 * i := InvMix(a, b, c, d)][4 * i + 1 := InvMix(b, c, d, a)]
     [4 * i + 2 := InvMix(c, d, a, b)][4 * i + 3 := InvMix(d, a, b, c)]
  }

  /** The columns before i come from t, the others from s. */
  predicate MixedUpTo(cur: Block, t: Block, s: Block, i: nat) {
    forall k :: 0 <= k < BLOCK ==> cur[k] == if k < 4 * i then t[k] else s[k]
  }

  lemma ColumnMixed(s: Block, i: nat)
    requires i < 4
    ensures var a, b, c, d := s[4 * i], s[4 * i + 1], s[4 * i + 2], s[4 * i + 3];
            && MixColumnsOf(s)[4 * i] == Mix(a, b, c, d) && MixColumnsOf(s)[4 * i + 1] == Mix(b, c, d, a)
            && MixColumnsOf(s)[4 * i + 2] == Mix(c, d, a, b) && MixColumnsOf(s)[4 * i + 3] == Mix(d, a, b, c)
  {
    hide Mix, Down;
    DownInColumn(i);
  }

  lemma InvColumnMixed(s: Block, i: nat)
    requires i < 4
    ensures var a, b, c, d := s[4 * i], s[4 * i + 1], s[4 * i + 2], s[4 * i + 3];
            && InvMixColumnsOf(s)[4 * i] == InvMix(a, b, c, d) && InvMixColumnsOf(s)[4 * i + 1] == InvMix(b, c, d, a)
            && InvMixColumnsOf(s)[4 * i + 2] == InvMix(c, d, a, b)
            && InvMixColumnsOf(s)[4 * i + 3] == InvMix(d, a, b, c)
  {
    hide InvMix, Down;
    DownInColumn(i);
  }

  lemma MixStep(cur: Block, s: Block, i: nat)
    requires i < 4 && MixedUpTo(cur, MixColumnsOf(s), s, i)
    ensures MixedUpTo(MixColumnAt(cur, i), MixColumnsOf(s), s, i + 1)
  {
    hide Mix, MixColumnsOf;
    ColumnMixed(s, i);
  }

  lemma InvMixStep(cur: Block, s: Block, i: nat)
    requires i < 4 && MixedUpTo(cur, InvMixColumnsOf(s), s, i)
    ensures MixedUpTo(InvMixColumnAt(cur, i), InvMixColumnsOf(s), s, i + 1)
  {
    hide InvMix, InvMixColumnsOf;
    InvColumnMixed(s, i);
  }

  method MixColumns(buf: array<bv8>, o: nat)
    requires o + BLOCK <= buf.Length
    modifies buf
    ensures At(buf, o) == MixColumnsOf(old(At(buf, o))) && OnlyBlock(buf, o)
  {
    hide MixColumnsOf, MixColumnAt;
    ghost var s := At(buf, o);
    var i := 0;
    while i < 4
      invariant 0 <= i <= 4 && OnlyBlock(buf, o)
      invariant MixedUpTo(At(buf, o), MixColumnsOf(s), s, i)
    {
      MixStep(At(buf, o), s, i);
      MixColumn(buf, o, i);
      i := i + 1;
    }
  }

  /** One column of MixColumns. */
  method MixColumn(buf: array<bv8>, o: nat, i: nat)
    requires o + BLOCK <= buf.Length && i < 4
    modifies buf
    ensures At(buf, o) == MixColumnAt(old(At(buf, o)), i) && OnlyBlock(buf, o)
  {
    hide MixedByte, ColumnSum, Mix;
    var p := 4 * i;
    ghost var a, b, c, d := At(buf, o)[p], At(buf, o)[p + 1], At(buf, o)[p + 2], At(buf, o)[p + 3];
    ColumnSumRotates(a, b, c, d);
    ColumnSumRotates(b, c, d, a);
    ColumnSumRotates(c, d, a, b);
    MixedByteIsMix(a, b, c, d);
    MixedByteIsMix(b, c, d, a);
    MixedByteIsMix(c, d, a, b);
    MixedByteIsMix(d, a, b, c);
    var t := Load(buf, o, p);
    var sum := ColumnSum(t, Load(buf, o, p + 1), Load(buf, o, p + 2), Load(buf, o, p + 3));
    Store(buf, o, p, MixedByte(Load(buf, o, p), Load(buf, o, p + 1), sum));
    Store(buf, o, p + 1, MixedByte(Load(buf, o, p + 1), Load(buf, o, p + 2), sum));
    Store(buf, o, p + 2, MixedByte(Load(buf, o, p + 2), Load(buf, o, p + 3), sum));
    Store(buf, o, p + 3, MixedByte(Load(buf, o, p + 3), t, sum));
  }

  method InvMixColumns(buf: array<bv8>, o: nat)
    requires o + BLOCK <= buf.Length
    modifies buf
    ensures At(buf, o) == InvMixColumnsOf(old(At(buf, o))) && OnlyBlock(buf, o)
  {
    hide InvMixColumnsOf, InvMixColumnAt;
    ghost var s := At(buf, o);
    var i := 0;
    while i < 4
      invariant 0 <= i <= 4 && OnlyBlock(buf, o)
      invariant MixedUpTo(At(buf, o), InvMixColumnsOf(s), s, i)
    {
      InvMixStep(At(buf, o), s, i);
      InvMixColumn(buf, o, i);
      i := i + 1;
    }
  }

  /** One column of InvMixColumns. */
  method InvMixColumn(buf: array<bv8>, o: nat, i: nat)
    requires o + BLOCK <= buf.Length && i < 4
    modifies buf
    ensures At(buf, o) == InvMixColumnAt(old(At(buf, o)), i) && OnlyBlock(buf, o)
  {
    hide InvMix, InvMixByte;
    var p := 4 * i;
    var a, b, c, d := Load(buf, o, p), Load(buf, o, p + 1), Load(buf, o, p + 2), Load(buf, o, p + 3);
    InvMixByteIsInvMix(a, b, c, d);
    InvMixByteIsInvMix(b, c, d, a);
    InvMixByteIsInvMix(c, d, a, b);
    InvMixByteIsInvMix(d, a, b, c);
    Store(buf, o, p, InvMixByte(a, b, c, d));
    Store(buf, o, p + 1, InvMixByte(b, c, d, a));
    Store(buf, o, p + 2, InvMixByte(c, d, a, b));
    Store(buf, o, p + 3, InvMixByte(d, a, b, c));
  }

  function InvMixByte(a: bv8, b: bv8, c: bv8, d: bv8): bv8 {
    Multiply(a, 0x0e) ^ Multiply(b, 0x0b) ^ Multiply(c, 0x0d) ^ Multiply(d, 0x09)
  }

  lemma InvMixByteIsInvMix(a: bv8, b: bv8, c: bv8, d: bv8)
    ensures InvMixByte(a, b, c, d) == InvMix(a, b, c, d)
  {
    hide XTime, GfMul, Multiply;
    MultiplyBy14(a);
    MultiplyBy11(b);
    MultiplyBy13(c);
    MultiplyBy9(d);
  }

  // ---- The cipher loops ------------------------------------------------------------

  method Cipher(buf: array<bv8>, o: nat, roundKey: array<bv8>)
    requires o + BLOCK <= buf.Length && roundKey.Length == EXPANDED && buf != roundKey
    modifies buf
    ensures At(buf, o) == CipherOf(old(At(buf, o)), roundKey[..]) && OnlyBlock(buf, o)
  {
    hide SubBytesOf, ShiftRowsOf, MixColumnsOf, AddRoundKeyOf;
    ghost var s, rk := At(buf, o), roundKey[..];
    AddRoundKey(0, buf, o, roundKey);
    var round := 1;
    while true
      invariant 1 <= round <= ROUNDS && OnlyBlock(buf, o) && roundKey[..] == rk
      invariant At(buf, o) == RoundState(s, rk, round - 1)
      decreases ROUNDS - round
    {
      SubBytes(buf, o);
      ShiftRows(buf, o);
      if round == ROUNDS {
        break;
      }
      MixColumns(buf, o);
      AddRoundKey(round, buf, o, roundKey);
      round := round + 1;
    }
    AddRoundKey(ROUNDS, buf, o, roundKey);
  }

  method InvCipher(buf: array<bv8>, o: nat, roundKey: array<bv8>)
    requires o + BLOCK <= buf.Length && roundKey.Length == EXPANDED && buf != roundKey
    modifies buf
    ensures At(buf, o) == InvCipherOf(old(At(buf, o)), roundKey[..]) && OnlyBlock(buf, o)
  {
    hide InvSubBytesOf, InvShiftRowsOf, InvMixColumnsOf, AddRoundKeyOf;
    ghost var s, rk := At(buf, o), roundKey[..];
    AddRoundKey(ROUNDS, buf, o, roundKey);
    var round := ROUNDS - 1;
    while true
      invariant 0 <= round < ROUNDS && OnlyBlock(buf, o) && roundKey[..] == rk
      invariant At(buf, o) == InvRoundState(s, rk, round)
      decreases round
    {
      InvShiftRows(buf, o);
      InvSubBytes(buf, o);
      AddRoundKey(round, buf, o, roundKey);
      if round == 0 {
        break;
      }
      InvMixColumns(buf, o);
      round := round - 1;
    }
  }
}
