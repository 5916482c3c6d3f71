/** The AES-256 key schedule: the in-place loop of aes.c against the recurrence of
    section 5.2 of FIPS 197. */
module AesKey {
  import opened Gf256
  import opened AesTables
  import opened Aes

  datatype Word = Word(b0: bv8, b1: bv8, b2: bv8, b3: bv8)

  const EXPANDED_WORDS := 60

  function XorWord(v: Word, w: Word): Word {
    Word(v.b0 ^ w.b0, v.b1 ^ w.b1, v.b2 ^ w.b2, v.b3 ^ w.b3)
  }

  function RotWord(w: Word): Word {
    Word(w.b1, w.b2, w.b3, w.b0)
  }

  function SubWord(w: Word): Word {
    Word(SubByte(w.b0), SubByte(w.b1), SubByte(w.b2), SubByte(w.b3))
  }

  /** The round constant x^(j-1). */
  function RoundConstant(j: nat): bv8 {
    if j <= 1 then 1 else XTime(RoundConstant(j - 1))
  }

  function WordAt(s: seq<bv8>, i: nat): Word
    requires 4 * i + 4 <= |s|
  {
    Word(s[4 * i], s[4 * i + 1], s[4 * i + 2], s[4 * i + 3])
  }

  /** Word i of the expanded key. */
  function Expanded(key: seq<bv8>, i: nat): Word
    requires |key| == 4 * KEY_WORDS
  {
    if i < KEY_WORDS then WordAt(key, i)
    else
      XorWord(Expanded(key, i - KEY_WORDS), Mixed(i, Expanded(key, i - 1)))
  }

  /** What the word before word i contributes to it. */
  function Mixed(i: nat, temp: Word): Word {
    if i % KEY_WORDS == 0 then XorWord(SubWord(RotWord(temp)), Word(RoundConstant(i / KEY_WORDS), 0, 0, 0))
    else if i % KEY_WORDS == 4 then SubWord(temp)
    else temp
  }

  function ByteOf(w: Word, j: nat): bv8
    requires j < 4
  {
    match j
    case 0 => w.b0
    case 1 => w.b1
    case 2 => w.b2
    case 3 => w.b3
  }

  /** The expanded key, as the bytes of its words. */
  function KeySchedule(key: seq<bv8>): RoundKeys
    requires |key| == 4 * KEY_WORDS
  {
    seq(EXPANDED, i requires 0 <= i < EXPANDED => ByteOf(Expanded(key, i / 4), i % 4))
  }

  lemma ByteInWord(rk: RoundKeys, n: nat, j: nat)
    requires n < EXPANDED_WORDS && j < 4
    ensures rk[4 * n + j] == ByteOf(WordAt(rk, n), j)
  {
  }

  lemma WordsMakeSchedule(key: seq<bv8>, rk: RoundKeys)
    requires |key| == 4 * KEY_WORDS
    requires forall i :: 0 <= i < EXPANDED_WORDS ==> WordAt(rk, i) == Expanded(key, i)
    ensures rk == KeySchedule(key)
  {
    hide Expanded, WordAt, ByteOf;
    forall i | 0 <= i < EXPANDED
      ensures rk[i] == KeySchedule(key)[i]
    {
      var n, j := i / 4, i % 4;
      assert WordAt(rk, n) == Expanded(key, n);
      ByteInWord(rk, n, j);
    }
  }

  /** The table of round constants; the entry at 0 is not used. */
  const RCON: seq<bv8> := [0x8d, 0x01, 0x02, 0x04, 0x08, 0x10, 0x20, 0x40, 0x80, 0x1b, 0x36]

  lemma RconIsRoundConstant(j: nat)
    requires 1 <= j < |RCON|
    ensures RCON[j] == RoundConstant(j)
  {
    FirstConstants();
    LastConstants();
  }

  lemma FirstConstants()
    ensures RoundConstant(1) == 0x01 && RoundConstant(2) == 0x02 && RoundConstant(3) == 0x04
    ensures RoundConstant(4) == 0x08 && RoundConstant(5) == 0x10
  {
    assert RoundConstant(3) == XTime(XTime(1));
  }

  lemma LastConstants()
    ensures RoundConstant(6) == 0x20 && RoundConstant(7) == 0x40 && RoundConstant(8) == 0x80
    ensures RoundConstant(9) == 0x1b && RoundConstant(10) == 0x36
  {
    FirstConstants();
    assert RoundConstant(7) == XTime(XTime(0x10));
    assert RoundConstant(9) == XTime(XTime(0x40));
  }

  // ---- The schedule byte by byte ------------------------------------------------------------

  /** What the bytes before byte i of the expanded key contribute to it. */
  function Contribution(rk: seq<bv8>, i: nat): bv8
    requires 32 <= i < |rk| == 240
  {
    if i % 32 == 0 then SubByte(rk[i - 3]) ^ [0x01, 0x02, 0x04, 0x08, 0x10, 0x20, 0x40][i / 32 - 1]
    else if i % 32 < 3 then SubByte(rk[i - 3])
    else if i % 32 == 3 then SubByte(rk[i - 7])
    else if 16 <= i % 32 < 20 then SubByte(rk[i - 4])
    else rk[i - 4]
  }

  /** The key itself, and then each byte is the one 32 before it, mixed with what those
      just before it contribute. */
  ghost predicate ExpandsTo(key: seq<bv8>, rk: seq<bv8>)
    requires |key| == 32
  {
    && |rk| == 240 && rk[..32] == key
    && forall i :: 32 <= i < 240 ==> rk[i] == rk[i - 32] ^ Contribution(rk, i)
  }

  lemma ScheduleByte(key: seq<bv8>, n: nat, j: nat)
    requires |key| == 32 && n < 60 && j < 4
    ensures KeySchedule(key)[4 * n + j] == ByteOf(Expanded(key, n), j)
  {
    hide Expanded, ByteOf;
    assert (4 * n + j) / 4 == n && (4 * n + j) % 4 == j;
  }

  lemma ConstantOfSection(r: nat)
    requires 1 <= r <= 7
    ensures RoundConstant(r) == [0x01, 0x02, 0x04, 0x08, 0x10, 0x20, 0x40][r - 1]
  {
    FirstConstants();
    LastConstants();
  }

  /** Byte j of what word n - 1 contributes to word n. */
  function MixedByte(n: nat, j: nat, v: Word): bv8
    requires 8 <= n < 60 && j < 4
  {
    if n % 8 == 0 then SubByte(ByteOf(v, if j < 3 then j + 1 else 0)) ^ (if j == 0 then RoundConstant(n / 8) else 0)
    else if n % 8 == 4 then SubByte(ByteOf(v, j))
    else ByteOf(v, j)
  }

  lemma NextByte(key: seq<bv8>, n: nat, j: nat)
    requires |key| == 32 && 8 <= n < 60 && j < 4
    ensures ByteOf(Expanded(key, n), j) == ByteOf(Expanded(key, n - 8), j) ^ MixedByte(n, j, Expanded(key, n - 1))
  {
    hide SubByte, RoundConstant, Mixed, Expanded;
    ExpandedStep(key, n);
    ByteOfMixed(n, j, Expanded(key, n - 1));
    match j {
      case 0 =>
      case 1 =>
      case 2 =>
      case 3 =>
    }
  }

  lemma ExpandedStep(key: seq<bv8>, n: nat)
    requires |key| == 32 && 8 <= n
    ensures Expanded(key, n) == XorWord(Expanded(key, n - 8), Mixed(n, Expanded(key, n - 1)))
  {
    hide Mixed, XorWord, WordAt;
  }

  lemma ByteOfMixed(n: nat, j: nat, v: Word)
    requires 8 <= n < 60 && j < 4
    ensures ByteOf(Mixed(n, v), j) == MixedByte(n, j, v)
  {
    hide SubByte, RoundConstant;
    match j {
      case 0 =>
      case 1 =>
      case 2 =>
      case 3 =>
    }
  }

  lemma ContributionOfWord(key: seq<bv8>, n: nat, j: nat)
    requires |key| == 32 && 8 <= n < 60 && j < 4
    ensures Contribution(KeySchedule(key), 4 * n + j) == MixedByte(n, j, Expanded(key, n - 1))
  {
    hide KeySchedule, SubByte, RoundConstant, Expanded, ByteOf;
    var i := 4 * n + j;
    assert i % 32 == 4 * (n % 8) + j && i / 32 == n / 8;
    ScheduleByte(key, n - 1, j);
    ScheduleByte(key, n - 1, if j < 3 then j + 1 else 0);
    if n % 8 == 0 {
      ConstantOfSection(n / 8);
    }
  }

  lemma ByteOfNext(key: seq<bv8>, n: nat, j: nat)
    requires |key| == 32 && 8 <= n < 60 && j < 4
    ensures KeySchedule(key)[4 * n + j] == KeySchedule(key)[4 * n + j - 32] ^ Contribution(KeySchedule(key), 4 * n + j)
  {
    hide KeySchedule, Contribution, Expanded, ByteOf, MixedByte;
    ScheduleByte(key, n, j);
    ScheduleByte(key, n - 8, j);
    ContributionOfWord(key, n, j);
    NextByte(key, n, j);
  }

  /** The schedule is the one sequence of bytes with this law. */
  lemma ScheduleExactly(key: seq<bv8>, rk: seq<bv8>)
    requires |key| == 32
    ensures ExpandsTo(key, rk) <==> rk == KeySchedule(key)
  {
    hide KeySchedule, Contribution, Expanded;
    var w := KeySchedule(key);
    forall i | 32 <= i < 240
      ensures w[i] == w[i - 32] ^ Contribution(w, i)
    {
      assert i == 4 * (i / 4) + i % 4;
      ByteOfNext(key, i / 4, i % 4);
    }
    FirstBytes(key);
    if ExpandsTo(key, rk) {
      SameExpansion(key, rk, w, 240);
    }
  }

  lemma FirstBytes(key: seq<bv8>)
    requires |key| == 32
    ensures KeySchedule(key)[..32] == key
  {
    forall i | 0 <= i < 32
      ensures KeySchedule(key)[i] == key[i]
    {
      assert i == 4 * (i / 4) + i % 4;
      ScheduleByte(key, i / 4, i % 4);
    }
  }

  lemma {:induction false} SameExpansion(key: seq<bv8>, rk: seq<bv8>, w: seq<bv8>, n: nat)
    requires |key| == 32 && ExpandsTo(key, rk) && ExpandsTo(key, w) && n <= 240
    ensures rk[..n] == w[..n]
  {
    hide Contribution;
    if n > 0 {
      var i := n - 1;
      SameExpansion(key, rk, w, i);
      if i < 32 {
        assert rk[i] == rk[..32][i] && w[i] == w[..32][i];
      } else {
        SameContribution(rk, w, i);
      }
      assert rk[..n] == rk[..i] + [rk[i]] && w[..n] == w[..i] + [w[i]];
    }
  }

  lemma SameContribution(rk: seq<bv8>, w: seq<bv8>, i: nat)
    requires 32 <= i < 240 && |rk| == |w| == 240 && rk[..i] == w[..i]
    ensures Contribution(rk, i) == Contribution(w, i) && rk[i - 32] == w[i - 32]
  {
    hide SubByte;
    assert forall n :: 0 <= n < i ==> rk[n] == rk[..i][n] && w[n] == w[..i][n];
  }

  method KeyExpansion(roundKey: array<bv8>, key: array<bv8>)
    requires roundKey.Length == EXPANDED && key.Length == 4 * KEY_WORDS && roundKey != key
    modifies roundKey
    ensures roundKey[..] == KeySchedule(key[..]) && ExpandsTo(key[..], roundKey[..])
  {
    hide SubByte, XTime, KeySchedule, ExpandsTo;
    ghost var k0 := key[..];
    var i := 0;
    while i < KEY_WORDS
      invariant 0 <= i <= KEY_WORDS && key[..] == k0
      invariant forall n :: 0 <= n < i ==> WordAt(roundKey[..], n) == Expanded(k0, n)
    {
      CopyWord(roundKey, i, key);
      i := i + 1;
    }
    while i < EXPANDED_WORDS
      invariant KEY_WORDS <= i <= EXPANDED_WORDS && key[..] == k0
      invariant forall n :: 0 <= n < i ==> WordAt(roundKey[..], n) == Expanded(k0, n)
    {
      var temp := WordAt(roundKey[..], i - 1);
      if i % KEY_WORDS == 0 {
        temp := SubWord(RotWord(temp));
        RconIsRoundConstant(i / KEY_WORDS);
        temp := temp.(b0 := temp.b0 ^ RCON[i / KEY_WORDS]);
      }
      if i % KEY_WORDS == 4 {
        temp := SubWord(temp);
      }
      StoreWord(roundKey, i, XorWord(WordAt(roundKey[..], i - KEY_WORDS), temp));
      i := i + 1;
    }
    WordsMakeSchedule(k0, roundKey[..]);
    ScheduleExactly(k0, roundKey[..]);
  }

  method CopyWord(roundKey: array<bv8>, i: nat, key: array<bv8>)
    requires roundKey.Length == EXPANDED && key.Length == 4 * KEY_WORDS && roundKey != key && i < KEY_WORDS
    modifies roundKey
    ensures WordAt(roundKey[..], i) == WordAt(key[..], i)
    ensures forall n :: 0 <= n < EXPANDED_WORDS && n != i ==> WordAt(roundKey[..], n) == old(WordAt(roundKey[..], n))
  {
    roundKey[i * 4 + 0] := key[i * 4 + 0];
    roundKey[i * 4 + 1] := key[i * 4 + 1];
    roundKey[i * 4 + 2] := key[i * 4 + 2];
    roundKey[i * 4 + 3] := key[i * 4 + 3];
  }

  method StoreWord(roundKey: array<bv8>, i: nat, w: Word)
    requires roundKey.Length == EXPANDED && i < EXPANDED_WORDS
    modifies roundKey
    ensures WordAt(roundKey[..], i) == w
    ensures forall n :: 0 <= n < EXPANDED_WORDS && n != i ==> WordAt(roundKey[..], n) == old(WordAt(roundKey[..], n))
  {
    var j := i * 4;
    roundKey[j + 0] := w.b0;
    roundKey[j + 1] := w.b1;
    roundKey[j + 2] := w.b2;
    roundKey[j + 3] := w.b3;
  }
}
