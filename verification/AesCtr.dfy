/** Counter mode in place (section 6.5 of SP 800-38A), with the big-endian increment of
    its appendix B.1 carried out byte by byte. */
module AesCtr {
  import opened ModArith
  import opened Aes
  import opened AesBuffer
  import opened AesModes

  // ---- The counter ------------------------------------------------------------------

  /** The bytes as a number, most significant first. */
  function Value(s: seq<bv8>): nat {
    if s == [] then 0 else 256 * Value(s[..|s| - 1]) + s[|s| - 1] as int
  }

  /** How many numbers n bytes can hold. */
  function Span(n: nat): (m: nat)
    ensures m >= 1
  {
    if n == 0 then 1 else 256 * Span(n - 1)
  }

  const TWO_TO_128 := 0x1_0000_0000_0000_0000_0000_0000_0000_0000

  lemma SpanOfBlock()
    ensures Span(BLOCK) == TWO_TO_128
  {
    assert Span(4) == 0x1_0000_0000;
    assert Span(8) == 0x1_0000_0000_0000_0000;
    assert Span(12) == 0x1_0000_0000_0000_0000_0000_0000;
  }

  /** One more, with carry; all ones turn over to all zeros. */
  function Incremented(s: seq<bv8>): (t: seq<bv8>)
    ensures |t| == |s|
  {
    if s == [] then []
    else
      var front, last := s[..|s| - 1], s[|s| - 1];
      if last == 255 then Incremented(front) + [0] else front + [last + 1]
  }

  lemma {:induction false} ValueBound(s: seq<bv8>)
    ensures Value(s) < Span(|s|)
  {
    if s != [] {
      ValueBound(s[..|s| - 1]);
      ByteBound(s[|s| - 1]);
    }
  }

  lemma ByteBound(b: bv8)
    ensures 0 <= b as int < 256 && (b == 255 <==> b as int == 255)
    ensures b != 255 ==> (b + 1) as int == b as int + 1
  {
  }

  /** The increment adds one modulo 256 to the length. */
  lemma {:induction false} IncrementedAddsOne(s: seq<bv8>)
    ensures Value(Incremented(s)) == (Value(s) + 1) % Span(|s|)
  {
    if s == [] {
      assert Span(0) == 1;
    } else {
      var front, last := s[..|s| - 1], s[|s| - 1];
      var m := Span(|front|);
      ByteBound(last);
      ValueBound(front);
      if last == 255 {
        IncrementedAddsOne(front);
        AppendedValue(Incremented(front), 0);
        CarryOut(Value(front), m);
      } else {
        AppendedValue(front, last + 1);
        NoCarry(Value(front), last as int, m);
      }
    }
  }

  lemma AppendedValue(s: seq<bv8>, b: bv8)
    ensures Value(s + [b]) == 256 * Value(s) + b as int
  {
    assert (s + [b])[..|s|] == s;
  }

  lemma CarryOut(v: nat, m: nat)
    requires v < m
    ensures 256 * ((v + 1) % m) == (256 * v + 256) % (256 * m)
  {
    if v + 1 < m {
      ModIsRemainder(v + 1, m, 0, v + 1);
      ModIsRemainder(256 * v + 256, 256 * m, 0, 256 * v + 256);
    } else {
      ModIsRemainder(m, m, 1, 0);
      ModIsRemainder(256 * m, 256 * m, 1, 0);
    }
  }

  lemma NoCarry(v: nat, b: nat, m: nat)
    requires v < m && b < 255
    ensures (256 * v + b + 1) % (256 * m) == 256 * v + b + 1
  {
    ModIsRemainder(256 * v + b + 1, 256 * m, 0, 256 * v + b + 1);
  }

  /** The counter block for block j. */
  function Counter(iv: Block, j: nat): Block {
    if j == 0 then iv else Incremented(Counter(iv, j - 1))
  }

  /** Counter j is the initial vector plus j, modulo 2^128. */
  lemma {:induction false} CounterValue(iv: Block, j: nat)
    ensures Value(Counter(iv, j)) == (Value(iv) + j) % TWO_TO_128
  {
    hide Span, Incremented, Value;
    var m := TWO_TO_128;
    SpanOfBlock();
    ValueBound(iv);
    if j == 0 {
      ModIsRemainder(Value(iv), m, 0, Value(iv));
    } else {
      CounterValue(iv, j - 1);
      IncrementedAddsOne(Counter(iv, j - 1));
      OneMore(Value(iv) + j - 1, m);
    }
  }

  lemma OneMore(v: nat, m: nat)
    requires m > 0
    ensures (v % m + 1) % m == (v + 1) % m
  {
    CongMod(v, m);
    CongAdd(v % m, v, 1, 1, m);
  }

  lemma {:induction false} CounterSum(iv: Block, a: nat, b: nat)
    ensures Counter(iv, a + b) == Counter(Counter(iv, a), b)
  {
    if b > 0 {
      CounterSum(iv, a, b - 1);
    }
  }

  lemma {:induction false} ValueInjective(s: seq<bv8>, t: seq<bv8>)
    requires |s| == |t|
    ensures Value(s) == Value(t) <==> s == t
  {
    if s != [] {
      var n := |s| - 1;
      ValueInjective(s[..n], t[..n]);
      LastDigit(Value(s[..n]), s[n], Value(t[..n]), t[n]);
      assert s == s[..n] + [s[n]] && t == t[..n] + [t[n]];
    }
  }

  lemma LastDigit(v: nat, b: bv8, w: nat, c: bv8)
    ensures 256 * v + b as int == 256 * w + c as int <==> v == w && b == c
  {
    ByteBound(b);
    ByteBound(c);
    DigitsDiffer(v, b as int, w, c as int);
    if b as int == c as int {
      SameByte(b, c);
    }
  }

  lemma DigitsDiffer(v: nat, x: int, w: nat, y: int)
    requires 0 <= x < 256 && 0 <= y < 256
    ensures 256 * v + x == 256 * w + y <==> v == w && x == y
  {
  }

  lemma SameByte(b: bv8, c: bv8)
    requires b as int == c as int
    ensures b == c
  {
    assert (b as int) as bv8 == (c as int) as bv8;
  }

  const EXAMPLE_IV: Block := [0xf0, 0xf1, 0xf2, 0xf3, 0xf4, 0xf5, 0xf6, 0xf7,
                              0xf8, 0xf9, 0xfa, 0xfb, 0xfc, 0xfd, 0xfe, 0xff]

  /** The counter blocks of the example in section F.5.5 of SP 800-38A. */
  lemma ExampleCounters()
    ensures Counter(EXAMPLE_IV, 1) == EXAMPLE_IV[..14] + [0xff, 0x00]
    ensures Counter(EXAMPLE_IV, 2) == EXAMPLE_IV[..14] + [0xff, 0x01]
  {
  }

  // ---- CTR by definition --------------------------------------------------------------

  function Mask(rk: RoundKeys, iv: Block, i: nat): bv8 {
    CipherOf(Counter(iv, i / BLOCK), rk)[i % BLOCK]
  }

  function CtrOf(rk: RoundKeys, iv: Block, p: seq<bv8>): (c: seq<bv8>)
    ensures |c| == |p|
  {
    seq(|p|, i requires 0 <= i < |p| => p[i] ^ Mask(rk, iv, i))
  }

  /** c is p masked in counter mode from iv: byte i with byte i % 16 of the cipher of the
      block whose number is that of iv plus i / 16, modulo 2^128. */
  ghost predicate CtrBytes(rk: RoundKeys, iv: Block, p: seq<bv8>, c: seq<bv8>) {
    && |c| == |p|
    && forall i, block: Block ::
         0 <= i < |p| && Value(block) == (Value(iv) + i / 16) % 0x1_0000_0000_0000_0000_0000_0000_0000_0000 ==>
           c[i] == p[i] ^ CipherOf(block, rk)[i % 16]
  }

  lemma CtrExactly(rk: RoundKeys, iv: Block, p: seq<bv8>, c: seq<bv8>)
    ensures CtrBytes(rk, iv, p, c) <==> c == CtrOf(rk, iv, p)
  {
    hide CipherOf, Counter, Value;
    forall i, block: Block | 0 <= i && Value(block) == (Value(iv) + i / 16) % TWO_TO_128
      ensures block == Counter(iv, i / 16)
    {
      CounterValue(iv, i / 16);
      ValueInjective(block, Counter(iv, i / 16));
    }
    if CtrBytes(rk, iv, p, c) {
      forall i | 0 <= i < |p|
        ensures c[i] == CtrOf(rk, iv, p)[i]
      {
        CounterValue(iv, i / 16);
      }
    }
  }

  /** Running twice from the same vector gives the data back. */
  lemma CtrTwice(rk: RoundKeys, iv: Block, p: seq<bv8>)
    ensures CtrOf(rk, iv, CtrOf(rk, iv, p)) == p
  {
    hide Mask;
    forall i | 0 <= i < |p|
      ensures (p[i] ^ Mask(rk, iv, i)) ^ Mask(rk, iv, i) == p[i]
    {
    }
  }

  function BlocksIn(length: nat): nat {
    (length + BLOCK - 1) / BLOCK
  }

  /** Splitting at a block boundary, carrying the vector over, is the whole. */
  lemma CtrSplit(rk: RoundKeys, iv: Block, p: seq<bv8>, r: seq<bv8>)
    requires |p| % BLOCK == 0
    ensures CtrOf(rk, iv, p + r) == CtrOf(rk, iv, p) + CtrOf(rk, Counter(iv, BlocksIn(|p|)), r)
  {
    hide Mask, Counter, BlocksIn;
    var next := Counter(iv, BlocksIn(|p|));
    forall i | 0 <= i < |r|
      ensures CtrOf(rk, iv, p + r)[|p| + i] == CtrOf(rk, next, r)[i]
    {
      MaskOffset(rk, iv, |p|, i);
    }
    assert CtrOf(rk, iv, p + r)[..|p|] == CtrOf(rk, iv, p);
    assert CtrOf(rk, iv, p + r)[|p|..] == CtrOf(rk, next, r);
  }

  lemma MaskOffset(rk: RoundKeys, iv: Block, a: nat, i: nat)
    requires a % BLOCK == 0
    ensures Mask(rk, iv, a + i) == Mask(rk, Counter(iv, BlocksIn(a)), i)
  {
    hide CipherOf, Counter, BlocksIn;
    BlockOffset(a, i);
    CounterSum(iv, BlocksIn(a), i / BLOCK);
  }

  lemma BlockOffset(a: nat, b: nat)
    requires a % BLOCK == 0
    ensures (a + b) / BLOCK == BlocksIn(a) + b / BLOCK && (a + b) % BLOCK == b % BLOCK
  {
    var k := a / BLOCK;
    assert a == k * BLOCK;
    ModIsRemainder(a + BLOCK - 1, BLOCK, k, BLOCK - 1);
    ModIsRemainder(a + b, BLOCK, k + b / BLOCK, b % BLOCK);
  }

  // ---- In place -------------------------------------------------------------------------

  /** Bytes that are all ones turn to zeros and carry into what precedes them. */
  lemma {:induction false} IncrementedCarries(s: seq<bv8>, k: nat)
    requires k <= |s| && forall n :: k <= n < |s| ==> s[n] == 255
    ensures Incremented(s) == Incremented(s[..k]) + seq(|s| - k, (n: nat) => 0 as bv8)
    decreases |s|
  {
    if k < |s| {
      var front := s[..|s| - 1];
      IncrementedCarries(front, k);
      assert front[..k] == s[..k];
    } else {
      assert s[..k] == s;
    }
  }

  /** The byte loop of the increment. */
  method IncrementIv(iv: array<bv8>)
    requires iv.Length == BLOCK
    modifies iv
    ensures iv[..] == Incremented(old(iv[..]))
  {
    ghost var v := iv[..];
    var bi := BLOCK - 1;
    while bi >= 0
      invariant -1 <= bi < BLOCK
      invariant iv[..bi + 1] == v[..bi + 1]
      invariant forall n :: bi < n < BLOCK ==> v[n] == 255 && iv[n] == 0
    {
      if iv[bi] == 255 {
        iv[bi] := 0;
        bi := bi - 1;
        continue;
      }
      iv[bi] := iv[bi] + 1;
      break;
    }
    IncrementDone(v, bi + 1, iv[..]);
  }

  /** What the loop leaves when it has turned the bytes from k on to zeros. */
  lemma IncrementDone(v: Block, k: nat, w: Block)
    requires k <= BLOCK && forall n :: k <= n < BLOCK ==> v[n] == 255 && w[n] == 0
    requires k > 0 ==> v[k - 1] != 255 && w[..k] == v[..k - 1] + [v[k - 1] + 1]
    ensures w == Incremented(v)
  {
    IncrementedCarries(v, k);
    if k > 0 {
      assert v[..k][..k - 1] == v[..k - 1];
    } else {
      assert w[..0] == [] && v[..0] == [];
    }
    assert w == w[..k] + seq(BLOCK - k, (n: nat) => 0 as bv8);
  }

  /** AES_CTR_xcrypt_buffer. */
  method CtrXcryptBuffer(ctx: AesCtx, buf: array<bv8>, base: nat, length: nat)
    requires ctx.Valid() && buf != ctx.roundKey && buf != ctx.iv && base + length <= buf.Length
    modifies buf, ctx.iv
    ensures buf[base..base + length] == CtrOf(ctx.roundKey[..], old(ctx.iv[..]), old(buf[base..base + length]))
    ensures ctx.iv[..] == Counter(old(ctx.iv[..]), BlocksIn(length))
    ensures CtrBytes(ctx.roundKey[..], old(ctx.iv[..]), old(buf[base..base + length]), buf[base..base + length])
    ensures Value(ctx.iv[..])
         == (Value(old(ctx.iv[..])) + (length + 15) / 16) % 0x1_0000_0000_0000_0000_0000_0000_0000_0000
    ensures forall n :: 0 <= n < buf.Length && !(base <= n < base + length) ==> buf[n] == old(buf[n])
  {
    hide CipherOf, Counter, Incremented, CtrBytes, Value;
    ghost var rk, iv0, p := ctx.roundKey[..], ctx.iv[..], buf[base..base + length];
    var buffer := new bv8[BLOCK];
    var i, bi := 0, BLOCK;
    NoBlocks(iv0);
    while i < length
      invariant 0 <= i <= length && ctx.roundKey[..] == rk
      invariant bi == if i % BLOCK == 0 then BLOCK else i % BLOCK
      invariant bi < BLOCK ==> buffer[..] == CipherOf(Counter(iv0, i / BLOCK), rk)
      invariant ctx.iv[..] == Counter(iv0, BlocksIn(i))
      invariant forall n :: 0 <= n < length ==>
                  buf[base..base + length][n] == if n < i then p[n] ^ Mask(rk, iv0, n) else p[n]
      invariant forall n :: 0 <= n < buf.Length && !(base <= n < base + length) ==> buf[n] == old(buf[n])
    {
      if bi == BLOCK {
        RefillMask(ctx, buffer);
        NextCounter(iv0, i);
        bi := 0;
      }
      assert buffer[bi] == Mask(rk, iv0, i);
      assert buf[base + i] == buf[base..base + length][i] == p[i];
      buf[base + i] := buf[base + i] ^ buffer[bi];
      NextByte(i);
      i, bi := i + 1, bi + 1;
    }
    assert buf[base..base + length] == CtrOf(rk, iv0, p);
    CtrExactly(rk, iv0, p, buf[base..base + length]);
    CounterValue(iv0, BlocksIn(length));
  }

  method RefillMask(ctx: AesCtx, buffer: array<bv8>)
    requires ctx.Valid() && buffer.Length == BLOCK && buffer != ctx.roundKey && buffer != ctx.iv
    modifies buffer, ctx.iv
    ensures buffer[..] == CipherOf(old(ctx.iv[..]), ctx.roundKey[..])
    ensures ctx.iv[..] == Incremented(old(ctx.iv[..]))
  {
    hide CipherOf, Incremented;
    CopyBlock(ctx.iv, 0, buffer, 0);
    assert buffer[0..BLOCK] == buffer[..] && ctx.iv[0..BLOCK] == ctx.iv[..];
    Cipher(buffer, 0, ctx.roundKey);
    assert At(buffer, 0) == buffer[..];
    IncrementIv(ctx.iv);
  }

  lemma NoBlocks(iv: Block)
    ensures Counter(iv, BlocksIn(0)) == iv
  {
  }

  lemma NextCounter(iv: Block, i: nat)
    requires i % BLOCK == 0
    ensures BlocksIn(i) == i / BLOCK && BlocksIn(i + 1) == i / BLOCK + 1
    ensures Counter(iv, BlocksIn(i + 1)) == Incremented(Counter(iv, BlocksIn(i)))
  {
  }

  lemma NextByte(i: nat)
    ensures i % BLOCK != 0 ==> BlocksIn(i + 1) == BlocksIn(i)
    ensures (i + 1) % BLOCK != 0 ==> (i + 1) / BLOCK == i / BLOCK && (i + 1) % BLOCK == i % BLOCK + 1
    ensures (i + 1) % BLOCK == 0 ==> i % BLOCK == BLOCK - 1
  {
  }
}
