/** CBC and CTR over buffers, in place, with the running initialisation vector kept in
    the context (SP 800-38A, sections 6.2 and 6.5). */
module AesModes {
  import opened ModArith
  import opened Aes
  import opened AesBuffer
  import opened AesKey

  // ---- CBC by definition --------------------------------------------------------------

  function XorBlock(s: Block, t: Block): (u: Block) {
    seq(BLOCK, i requires 0 <= i < BLOCK => s[i] ^ t[i])
  }

  lemma XorBlockTwice(s: Block, t: Block)
    ensures XorBlock(XorBlock(s, t), t) == s
  {
    forall i | 0 <= i < BLOCK
      ensures (s[i] ^ t[i]) ^ t[i] == s[i]
    {
    }
  }

  function CbcEncrypt(rk: RoundKeys, iv: Block, p: seq<bv8>): (c: seq<bv8>)
    requires |p| % BLOCK == 0
    ensures |c| == |p|
    decreases |p|
  {
    if p == [] then []
    else
      var block: Block := CipherOf(XorBlock(p[..BLOCK], iv), rk);
      block + CbcEncrypt(rk, block, p[BLOCK..])
  }

  function CbcDecrypt(rk: RoundKeys, iv: Block, c: seq<bv8>): (p: seq<bv8>)
    requires |c| % BLOCK == 0
    ensures |p| == |c|
    decreases |c|
  {
    if c == [] then []
    else XorBlock(InvCipherOf(c[..BLOCK], rk), iv) + CbcDecrypt(rk, c[..BLOCK], c[BLOCK..])
  }

  /** The vector left for the next call: the last block of ciphertext. */
  function NextIv(iv: Block, c: seq<bv8>): Block
    requires |c| % BLOCK == 0
  {
    if c == [] then iv else c[|c| - BLOCK..]
  }

  lemma {:induction false} CbcRoundTrip(rk: RoundKeys, iv: Block, p: seq<bv8>)
    requires |p| % BLOCK == 0
    ensures CbcDecrypt(rk, iv, CbcEncrypt(rk, iv, p)) == p
    decreases |p|
  {
    hide CipherOf, InvCipherOf, XorBlock;
    if p != [] {
      var x: Block := XorBlock(p[..BLOCK], iv);
      var block: Block := CipherOf(x, rk);
      var rest := CbcEncrypt(rk, block, p[BLOCK..]);
      CbcRoundTrip(rk, block, p[BLOCK..]);
      InvCipherOfCipher(x, rk);
      XorBlockTwice(p[..BLOCK], iv);
      assert (block + rest)[..BLOCK] == block && (block + rest)[BLOCK..] == rest;
      assert p == p[..BLOCK] + p[BLOCK..];
    }
  }

  lemma {:induction false} CbcRoundTripBack(rk: RoundKeys, iv: Block, c: seq<bv8>)
    requires |c| % BLOCK == 0
    ensures CbcEncrypt(rk, iv, CbcDecrypt(rk, iv, c)) == c
    decreases |c|
  {
    hide CipherOf, InvCipherOf, XorBlock;
    if c != [] {
      var d: Block := InvCipherOf(c[..BLOCK], rk);
      var first: Block, rest := XorBlock(d, iv), CbcDecrypt(rk, c[..BLOCK], c[BLOCK..]);
      CbcRoundTripBack(rk, c[..BLOCK], c[BLOCK..]);
      CipherOfInvCipher(c[..BLOCK], rk);
      XorBlockTwice(d, iv);
      assert (first + rest)[..BLOCK] == first && (first + rest)[BLOCK..] == rest;
      assert c == c[..BLOCK] + c[BLOCK..];
    }
  }

  lemma EncryptFirst(rk: RoundKeys, iv: Block, p: seq<bv8>)
    requires |p| % BLOCK == 0 && p != []
    ensures |p| >= BLOCK && |p[BLOCK..]| % BLOCK == 0
    ensures var block: Block := CipherOf(XorBlock(p[..BLOCK], iv), rk);
            CbcEncrypt(rk, iv, p) == block + CbcEncrypt(rk, block, p[BLOCK..])
  {
    hide CipherOf, XorBlock;
  }

  lemma WholeBlocks(a: nat, b: nat)
    requires a % BLOCK == 0 && b % BLOCK == 0
    ensures (a + b) % BLOCK == 0
  {
    var k, l := a / BLOCK, b / BLOCK;
    assert a == k * BLOCK && b == l * BLOCK;
    ModIsRemainder(a + b, BLOCK, k + l, 0);
  }

  lemma NothingEncrypted(rk: RoundKeys, iv: Block)
    ensures CbcEncrypt(rk, iv, []) == [] && NextIv(iv, []) == iv
  {
  }

  /** Encrypting in parts, carrying the vector over, is encrypting the whole. */
  lemma {:induction false} CbcEncryptSplit(rk: RoundKeys, iv: Block, p: seq<bv8>, r: seq<bv8>)
    requires |p| % BLOCK == 0 && |r| % BLOCK == 0
    ensures |p + r| % BLOCK == 0
    ensures CbcEncrypt(rk, iv, p + r)
         == CbcEncrypt(rk, iv, p) + CbcEncrypt(rk, NextIv(iv, CbcEncrypt(rk, iv, p)), r)
    decreases |p|
  {
    hide CipherOf, XorBlock, CbcEncrypt, NextIv;
    WholeBlocks(|p|, |r|);
    if p == [] {
      assert p + r == r;
      NothingEncrypted(rk, iv);
    } else {
      var block: Block := CipherOf(XorBlock(p[..BLOCK], iv), rk);
      EncryptFirst(rk, iv, p);
      EncryptFirst(rk, iv, p + r);
      var rest := CbcEncrypt(rk, block, p[BLOCK..]);
      assert (p + r)[..BLOCK] == p[..BLOCK] && (p + r)[BLOCK..] == p[BLOCK..] + r;
      CbcEncryptSplit(rk, block, p[BLOCK..], r);
      NextIvPrepend(iv, block, rest);
      assert block + rest + CbcEncrypt(rk, NextIv(block, rest), r)
          == block + (rest + CbcEncrypt(rk, NextIv(block, rest), r));
    }
  }

  lemma NextIvPrepend(iv: Block, block: Block, rest: seq<bv8>)
    requires |rest| % BLOCK == 0
    ensures NextIv(iv, block + rest) == NextIv(block, rest)
  {
    if rest != [] {
      assert (block + rest)[|rest|..] == rest[|rest| - BLOCK..];
    } else {
      assert block + rest == block;
    }
  }

  lemma DecryptFirst(rk: RoundKeys, iv: Block, c: seq<bv8>)
    requires |c| % BLOCK == 0 && c != []
    ensures |c| >= BLOCK && |c[BLOCK..]| % BLOCK == 0
    ensures CbcDecrypt(rk, iv, c) == XorBlock(InvCipherOf(c[..BLOCK], rk), iv) + CbcDecrypt(rk, c[..BLOCK], c[BLOCK..])
  {
    hide InvCipherOf, XorBlock;
  }

  lemma NothingDecrypted(rk: RoundKeys, iv: Block)
    ensures CbcDecrypt(rk, iv, []) == [] && NextIv(iv, []) == iv
  {
  }

  lemma {:induction false} CbcDecryptSplit(rk: RoundKeys, iv: Block, c: seq<bv8>, r: seq<bv8>)
    requires |c| % BLOCK == 0 && |r| % BLOCK == 0
    ensures |c + r| % BLOCK == 0
    ensures CbcDecrypt(rk, iv, c + r) == CbcDecrypt(rk, iv, c) + CbcDecrypt(rk, NextIv(iv, c), r)
    decreases |c|
  {
    hide InvCipherOf, XorBlock, CbcDecrypt, NextIv;
    WholeBlocks(|c|, |r|);
    if c == [] {
      assert c + r == r;
      NothingDecrypted(rk, iv);
    } else {
      DecryptFirst(rk, iv, c);
      DecryptFirst(rk, iv, c + r);
      assert (c + r)[..BLOCK] == c[..BLOCK] && (c + r)[BLOCK..] == c[BLOCK..] + r;
      CbcDecryptSplit(rk, c[..BLOCK], c[BLOCK..], r);
      assert c == c[..BLOCK] + c[BLOCK..];
      NextIvPrepend(iv, c[..BLOCK], c[BLOCK..]);
      var first, rest := XorBlock(InvCipherOf(c[..BLOCK], rk), iv), CbcDecrypt(rk, c[..BLOCK], c[BLOCK..]);
      var last := CbcDecrypt(rk, NextIv(iv, c), r);
      assert first + rest + last == first + (rest + last);
    }
  }

  // ---- CBC byte by byte ----------------------------------------------------------------

  /** The deciphered byte of c at n, plus the byte one block before it in c, which for
      the first block is that of iv. */
  function PlainByte(rk: RoundKeys, iv: Block, c: seq<bv8>, n: nat): bv8
    requires n < |c| && |c| % 16 == 0
  {
    InvCipherOf(c[n - n % 16..n - n % 16 + 16], rk)[n % 16] ^ (if n < 16 then iv[n] else c[n - 16])
  }

  ghost predicate CbcBytes(rk: RoundKeys, iv: Block, p: seq<bv8>, c: seq<bv8>) {
    && |p| == |c| && |c| % 16 == 0
    && forall n :: 0 <= n < |p| ==> p[n] == PlainByte(rk, iv, c, n)
  }

  lemma PlainOfLater(rk: RoundKeys, iv: Block, c: seq<bv8>, n: nat)
    requires 16 <= n < |c| && |c| % 16 == 0
    ensures PlainByte(rk, iv, c, n) == PlainByte(rk, c[..16], c[16..], n - 16)
  {
    hide InvCipherOf;
    var m := n - 16;
    assert m % 16 == n % 16;
    assert c[16..][m - m % 16..m - m % 16 + 16] == c[n - n % 16..n - n % 16 + 16];
  }

  lemma PlainOfFirst(rk: RoundKeys, iv: Block, c: seq<bv8>, n: nat)
    requires n < 16 <= |c| && |c| % 16 == 0
    ensures PlainByte(rk, iv, c, n) == XorBlock(InvCipherOf(c[..16], rk), iv)[n]
  {
    hide InvCipherOf;
    assert c[0..16] == c[..16];
  }

  lemma {:induction false} DecryptedBytes(rk: RoundKeys, iv: Block, c: seq<bv8>)
    requires |c| % 16 == 0
    ensures CbcBytes(rk, iv, CbcDecrypt(rk, iv, c), c)
    decreases |c|
  {
    hide InvCipherOf, PlainByte, XorBlock, CbcDecrypt;
    if c == [] {
      NothingDecrypted(rk, iv);
    } else {
      DecryptFirst(rk, iv, c);
      DecryptedBytes(rk, c[..16], c[16..]);
      var p := CbcDecrypt(rk, iv, c);
      forall n | 0 <= n < |p|
        ensures p[n] == PlainByte(rk, iv, c, n)
      {
        if n < 16 {
          PlainOfFirst(rk, iv, c, n);
        } else {
          PlainOfLater(rk, iv, c, n);
        }
      }
    }
  }

  /** These bytes are those of CBC, in either direction. */
  lemma CbcExactly(rk: RoundKeys, iv: Block, p: seq<bv8>, c: seq<bv8>)
    requires |p| % 16 == 0 && |c| % 16 == 0
    ensures CbcBytes(rk, iv, p, c) <==> p == CbcDecrypt(rk, iv, c)
    ensures CbcBytes(rk, iv, p, c) <==> c == CbcEncrypt(rk, iv, p)
  {
    hide PlainByte, CbcDecrypt, CbcEncrypt;
    var d := CbcDecrypt(rk, iv, c);
    DecryptedBytes(rk, iv, c);
    if CbcBytes(rk, iv, p, c) {
      forall n | 0 <= n < |p|
        ensures p[n] == d[n]
      {
      }
      assert p == d;
    }
    CbcRoundTrip(rk, iv, p);
    CbcRoundTripBack(rk, iv, c);
  }

  // ---- The context --------------------------------------------------------------------

  class AesCtx {
    const roundKey: array<bv8>
    const iv: array<bv8>

    ghost predicate Valid() {
      roundKey.Length == EXPANDED && iv.Length == BLOCK && roundKey != iv
    }

    /** AES_init_ctx_iv: expands the key and copies the vector. */
    constructor (key: array<bv8>, iv0: array<bv8>)
      requires key.Length == 4 * KEY_WORDS && iv0.Length == BLOCK
      ensures Valid() && fresh(roundKey) && fresh(iv)
      ensures roundKey[..] == KeySchedule(key[..]) && iv[..] == iv0[..]
    {
      roundKey := new bv8[EXPANDED];
      iv := new bv8[BLOCK];
      new;
      KeyExpansion(roundKey, key);
      CopyBlock(iv0, 0, iv, 0);
    }

    /** AES_CBC_encrypt_buffer. The vector of the next block is where the block
        before it has just been encrypted, inside the buffer itself. */
    method CbcEncryptBuffer(buf: array<bv8>, base: nat, length: nat)
      requires Valid() && buf != roundKey && buf != iv
      requires length % BLOCK == 0 && base + length <= buf.Length
      modifies buf, iv
      ensures buf[..] == old(buf[..base]) + CbcEncrypt(roundKey[..], old(iv[..]), old(buf[base..base + length]))
                         + old(buf[base + length..])
      ensures iv[..] == NextIv(old(iv[..]), CbcEncrypt(roundKey[..], old(iv[..]), old(buf[base..base + length])))
      ensures CbcBytes(roundKey[..], old(iv[..]), old(buf[base..base + length]), buf[base..base + length])
    {
      hide CipherOf, XorBlock, CbcEncrypt, NextIv, EncryptedUpTo, VectorAfter, CbcBytes;
      ghost var rk, iv0, orig := roundKey[..], iv[..], buf[..];
      assert buf[..base] == orig[..base] && buf[base..base + length] == orig[base..base + length];
      assert buf[base + length..] == orig[base + length..];
      var ivArray, ivAt := iv, 0;
      var i := 0;
      EncryptionStarts(rk, iv0, orig, base, length);
      while i < length
        invariant 0 <= i <= length && i % BLOCK == 0
        invariant roundKey[..] == rk && iv[..] == iv0
        invariant if i == 0 then ivArray == iv && ivAt == 0 else ivArray == buf && ivAt == base + i - BLOCK
        invariant EncryptedUpTo(rk, iv0, orig, base, length, i, buf[..])
        invariant ivArray[ivAt..ivAt + BLOCK] == VectorAfter(rk, iv0, orig, base, length, i)
      {
        RoomForBlock(i, length);
        EncryptNext(buf, base, length, i, ivArray, ivAt, iv0, orig);
        ivArray, ivAt := buf, base + i;
        i := i + BLOCK;
      }
      EncryptionEnds(rk, iv0, orig, base, length, buf[..]);
      MiddleEncrypted(rk, iv0, orig, base, length, buf[..]);
      assert buf[base..base + length] == buf[..][base..base + length];
      CopyBlock(ivArray, ivAt, iv, 0);
    }

    /** One turn of the loop of AES_CBC_encrypt_buffer. */
    method EncryptNext(buf: array<bv8>, base: nat, length: nat, i: nat, ivArray: array<bv8>, ivAt: nat,
                       ghost iv0: Block, ghost orig: seq<bv8>)
      requires Valid() && buf != roundKey && i % BLOCK == 0 && length % BLOCK == 0 && i + BLOCK <= length
      requires base + length <= buf.Length == |orig|
      requires ivAt + BLOCK <= ivArray.Length && (buf != ivArray || ivAt + BLOCK <= base + i)
      requires EncryptedUpTo(roundKey[..], iv0, orig, base, length, i, buf[..])
      requires ivArray[ivAt..ivAt + BLOCK] == VectorAfter(roundKey[..], iv0, orig, base, length, i)
      modifies buf
      ensures (i + BLOCK) % BLOCK == 0
      ensures EncryptedUpTo(roundKey[..], iv0, orig, base, length, i + BLOCK, buf[..])
      ensures At(buf, base + i) == VectorAfter(roundKey[..], iv0, orig, base, length, i + BLOCK)
    {
      hide CipherOf, XorBlock, CbcEncrypt, NextIv, EncryptedUpTo, VectorAfter;
      ghost var cur := buf[..];
      EncryptAfter(buf, base + i, ivArray, ivAt);
      CbcStep(roundKey[..], iv0, orig, base, length, i, i + BLOCK, cur, buf[..]);
    }

    method EncryptAfter(buf: array<bv8>, o: nat, ivArray: array<bv8>, ivAt: nat)
      requires Valid() && buf != roundKey && o + BLOCK <= buf.Length && ivAt + BLOCK <= ivArray.Length
      requires buf != ivArray || ivAt + BLOCK <= o
      modifies buf
      ensures At(buf, o) == CipherOf(XorBlock(old(At(buf, o)), old(ivArray[ivAt..ivAt + BLOCK])), roundKey[..])
      ensures OnlyBlock(buf, o)
    {
      hide CipherOf, XorBlock;
      XorWithIv(buf, o, ivArray, ivAt);
      Cipher(buf, o, roundKey);
    }

    /** AES_CBC_decrypt_buffer. */
    method CbcDecryptBuffer(buf: array<bv8>, base: nat, length: nat)
      requires Valid() && buf != roundKey && buf != iv
      requires length % BLOCK == 0 && base + length <= buf.Length
      modifies buf, iv
      ensures buf[..] == old(buf[..base]) + CbcDecrypt(roundKey[..], old(iv[..]), old(buf[base..base + length]))
                         + old(buf[base + length..])
      ensures iv[..] == NextIv(old(iv[..]), old(buf[base..base + length]))
      ensures CbcBytes(roundKey[..], old(iv[..]), buf[base..base + length], old(buf[base..base + length]))
    {
      hide InvCipherOf, XorBlock, CbcDecrypt, NextIv, DecryptedUpTo, CbcBytes;
      ghost var rk, iv0, orig := roundKey[..], iv[..], buf[..];
      var storeNextIv := new bv8[BLOCK];
      var i := 0;
      DecryptionStarts(rk, iv0, orig, base, length);
      while i < length
        invariant 0 <= i <= length && i % BLOCK == 0
        invariant roundKey[..] == rk && iv[..] == InputVector(iv0, orig, base, length, i)
        invariant DecryptedUpTo(rk, iv0, orig, base, length, i, buf[..])
      {
        ghost var cur := buf[..];
        RoomForBlock(i, length);
        CopyBlock(buf, base + i, storeNextIv, 0);
        DecryptWith(buf, base + i);
        CbcDecryptStep(rk, iv0, orig, base, length, i, i + BLOCK, cur, buf[..]);
        CopyBlock(storeNextIv, 0, iv, 0);
        i := i + BLOCK;
      }
      DecryptionEnds(rk, iv0, orig, base, length, buf[..]);
      MiddleDecrypted(rk, iv0, orig, base, length, buf[..]);
      assert buf[base..base + length] == buf[..][base..base + length];
    }

    method DecryptWith(buf: array<bv8>, o: nat)
      requires Valid() && buf != roundKey && buf != iv && o + BLOCK <= buf.Length
      modifies buf
      ensures At(buf, o) == XorBlock(InvCipherOf(old(At(buf, o)), roundKey[..]), iv[..]) && OnlyBlock(buf, o)
    {
      hide InvCipherOf, XorBlock;
      assert iv[0..BLOCK] == iv[..];
      InvCipher(buf, o, roundKey);
      XorWithIv(buf, o, iv, 0);
    }
  }

  lemma RoomForBlock(i: nat, length: nat)
    requires i % BLOCK == 0 && length % BLOCK == 0 && i < length
    ensures i + BLOCK <= length && (i + BLOCK) % BLOCK == 0
  {
    var a, b := i / BLOCK, length / BLOCK;
    assert i == a * BLOCK && length == b * BLOCK;
    assert a < b;
    ModIsRemainder(i + BLOCK, BLOCK, a + 1, 0);
  }

  // ---- Progress of the buffer loops ------------------------------------------------

  /** The buffer once the first i bytes from base on have been encrypted. */
  ghost predicate EncryptedUpTo(rk: RoundKeys, iv0: Block, orig: seq<bv8>, base: nat, length: nat, i: nat,
                                cur: seq<bv8>)
    requires i <= length && base + length <= |orig| && i % BLOCK == 0
  {
    cur == orig[..base] + CbcEncrypt(rk, iv0, orig[base..base + length][..i]) + orig[base + i..]
  }

  ghost predicate DecryptedUpTo(rk: RoundKeys, iv0: Block, orig: seq<bv8>, base: nat, length: nat, i: nat,
                                cur: seq<bv8>)
    requires i <= length && base + length <= |orig| && i % BLOCK == 0
  {
    cur == orig[..base] + CbcDecrypt(rk, iv0, orig[base..base + length][..i]) + orig[base + i..]
  }

  /** The vector for the block at i. */
  ghost function VectorAfter(rk: RoundKeys, iv0: Block, orig: seq<bv8>, base: nat, length: nat, i: nat): Block
    requires i <= length && base + length <= |orig| && i % BLOCK == 0
  {
    NextIv(iv0, CbcEncrypt(rk, iv0, orig[base..base + length][..i]))
  }

  /** The last block of input before the one at i. */
  ghost function InputVector(iv0: Block, orig: seq<bv8>, base: nat, length: nat, i: nat): Block
    requires i <= length && base + length <= |orig| && i % BLOCK == 0
  {
    NextIv(iv0, orig[base..base + length][..i])
  }

  lemma EncryptionStarts(rk: RoundKeys, iv0: Block, orig: seq<bv8>, base: nat, length: nat)
    requires base + length <= |orig|
    ensures EncryptedUpTo(rk, iv0, orig, base, length, 0, orig)
    ensures VectorAfter(rk, iv0, orig, base, length, 0) == iv0
  {
    assert orig[base..base + length][..0] == [];
  }

  lemma DecryptionStarts(rk: RoundKeys, iv0: Block, orig: seq<bv8>, base: nat, length: nat)
    requires base + length <= |orig|
    ensures DecryptedUpTo(rk, iv0, orig, base, length, 0, orig)
    ensures InputVector(iv0, orig, base, length, 0) == iv0
  {
    assert orig[base..base + length][..0] == [];
  }

  lemma EncryptionEnds(rk: RoundKeys, iv0: Block, orig: seq<bv8>, base: nat, length: nat, cur: seq<bv8>)
    requires length % BLOCK == 0 && base + length <= |orig|
    requires EncryptedUpTo(rk, iv0, orig, base, length, length, cur)
    ensures cur == orig[..base] + CbcEncrypt(rk, iv0, orig[base..base + length]) + orig[base + length..]
    ensures VectorAfter(rk, iv0, orig, base, length, length)
         == NextIv(iv0, CbcEncrypt(rk, iv0, orig[base..base + length]))
  {
    hide CbcEncrypt, NextIv;
    assert orig[base..base + length][..length] == orig[base..base + length];
  }

  lemma MiddleEncrypted(rk: RoundKeys, iv0: Block, orig: seq<bv8>, base: nat, length: nat, cur: seq<bv8>)
    requires length % BLOCK == 0 && base + length <= |orig|
    requires cur == orig[..base] + CbcEncrypt(rk, iv0, orig[base..base + length]) + orig[base + length..]
    ensures CbcBytes(rk, iv0, orig[base..base + length], cur[base..base + length])
  {
    hide CbcEncrypt, CbcBytes;
    CbcExactly(rk, iv0, orig[base..base + length], CbcEncrypt(rk, iv0, orig[base..base + length]));
    assert cur[base..base + length] == CbcEncrypt(rk, iv0, orig[base..base + length]);
  }

  lemma MiddleDecrypted(rk: RoundKeys, iv0: Block, orig: seq<bv8>, base: nat, length: nat, cur: seq<bv8>)
    requires length % BLOCK == 0 && base + length <= |orig|
    requires cur == orig[..base] + CbcDecrypt(rk, iv0, orig[base..base + length]) + orig[base + length..]
    ensures CbcBytes(rk, iv0, cur[base..base + length], orig[base..base + length])
  {
    hide CbcDecrypt, CbcBytes;
    CbcExactly(rk, iv0, CbcDecrypt(rk, iv0, orig[base..base + length]), orig[base..base + length]);
    assert cur[base..base + length] == CbcDecrypt(rk, iv0, orig[base..base + length]);
  }

  lemma DecryptionEnds(rk: RoundKeys, iv0: Block, orig: seq<bv8>, base: nat, length: nat, cur: seq<bv8>)
    requires length % BLOCK == 0 && base + length <= |orig|
    requires DecryptedUpTo(rk, iv0, orig, base, length, length, cur)
    ensures cur == orig[..base] + CbcDecrypt(rk, iv0, orig[base..base + length]) + orig[base + length..]
    ensures InputVector(iv0, orig, base, length, length) == NextIv(iv0, orig[base..base + length])
  {
    hide CbcDecrypt, NextIv;
    assert orig[base..base + length][..length] == orig[base..base + length];
  }

  /** Replacing the first block of the last part of a buffer. */
  lemma BlockReplaced(front: seq<bv8>, done: seq<bv8>, back: seq<bv8>, next: seq<bv8>)
    requires |back| >= BLOCK && |next| == |front| + |done| + |back|
    requires var o := |front| + |done|; var cur := front + done + back;
             forall n :: 0 <= n < |next| && !(o <= n < o + BLOCK) ==> next[n] == cur[n]
    ensures var o := |front| + |done|; next == front + (done + next[o..o + BLOCK]) + back[BLOCK..]
    ensures var o := |front| + |done|; (front + done + back)[o..o + BLOCK] == back[..BLOCK]
  {
  }

  lemma BlockOfRange(orig: seq<bv8>, base: nat, length: nat, i: nat)
    requires i + BLOCK <= length && base + length <= |orig|
    ensures orig[base + i..][..BLOCK] == orig[base..base + length][i..i + BLOCK]
    ensures orig[base + i..][BLOCK..] == orig[base + i + BLOCK..]
    ensures orig[base..base + length][..i + BLOCK][i..] == orig[base..base + length][i..i + BLOCK]
  {
    var w := orig[base..base + length];
    var u, v := w[i..i + BLOCK], orig[base + i..][..BLOCK];
    forall n | 0 <= n < BLOCK
      ensures u[n] == v[n]
    {
      var k := i + n;
      assert w[k] == orig[base + k];
    }
  }

  /** One more block, up to j, after the block at base + i of cur has been replaced. */
  lemma CbcStep(rk: RoundKeys, iv0: Block, orig: seq<bv8>, base: nat, length: nat, i: nat, j: nat,
                cur: seq<bv8>, next: seq<bv8>)
    requires length % BLOCK == 0 && i % BLOCK == 0 && j % BLOCK == 0 && j == i + BLOCK <= length
    requires base + length <= |orig|
    requires EncryptedUpTo(rk, iv0, orig, base, length, i, cur)
    requires |next| == |cur| == |orig|
    requires forall n :: 0 <= n < |next| && !(base + i <= n < base + j) ==> next[n] == cur[n]
    requires next[base + i..base + j]
          == CipherOf(XorBlock(cur[base + i..base + j], VectorAfter(rk, iv0, orig, base, length, i)), rk)
    ensures EncryptedUpTo(rk, iv0, orig, base, length, j, next)
    ensures next[base + i..base + j] == VectorAfter(rk, iv0, orig, base, length, j)
  {
    hide CipherOf, XorBlock, CbcEncrypt, NextIv;
    var p := orig[base..base + length];
    var done := CbcEncrypt(rk, iv0, p[..i]);
    BlockReplaced(orig[..base], done, orig[base + i..], next);
    BlockOfRange(orig, base, length, i);
    EncryptedPrefix(rk, iv0, p, i);
    var block := next[base + i..base + j];
    assert cur[base + i..base + j] == p[i..i + BLOCK];
    assert CbcEncrypt(rk, iv0, p[..j]) == done + block;
    LastBlockIsNext(iv0, done, block);
  }

  lemma LastBlockIsNext(iv: Block, done: seq<bv8>, block: seq<bv8>)
    requires |done| % BLOCK == 0 && |block| == BLOCK
    ensures |done + block| % BLOCK == 0 && NextIv(iv, done + block) == block
  {
  }

  lemma CbcDecryptStep(rk: RoundKeys, iv0: Block, orig: seq<bv8>, base: nat, length: nat, i: nat, j: nat,
                       cur: seq<bv8>, next: seq<bv8>)
    requires length % BLOCK == 0 && i % BLOCK == 0 && j % BLOCK == 0 && j == i + BLOCK <= length
    requires base + length <= |orig|
    requires DecryptedUpTo(rk, iv0, orig, base, length, i, cur)
    requires |next| == |cur| == |orig|
    requires forall n :: 0 <= n < |next| && !(base + i <= n < base + j) ==> next[n] == cur[n]
    requires next[base + i..base + j]
          == XorBlock(InvCipherOf(cur[base + i..base + j], rk), InputVector(iv0, orig, base, length, i))
    ensures DecryptedUpTo(rk, iv0, orig, base, length, j, next)
    ensures cur[base + i..base + j] == InputVector(iv0, orig, base, length, j)
  {
    hide InvCipherOf, XorBlock, CbcDecrypt;
    var c := orig[base..base + length];
    var done := CbcDecrypt(rk, iv0, c[..i]);
    BlockReplaced(orig[..base], done, orig[base + i..], next);
    BlockOfRange(orig, base, length, i);
    DecryptedPrefix(rk, iv0, c, i);
  }

  /** One more block decrypted. */
  lemma DecryptedPrefix(rk: RoundKeys, iv: Block, c: seq<bv8>, i: nat)
    requires |c| % BLOCK == 0 && i % BLOCK == 0 && i < |c|
    ensures CbcDecrypt(rk, iv, c[..i + BLOCK])
         == CbcDecrypt(rk, iv, c[..i]) + XorBlock(InvCipherOf(c[i..i + BLOCK], rk), NextIv(iv, c[..i]))
  {
    hide InvCipherOf, XorBlock;
    var block := c[i..i + BLOCK];
    assert c[..i + BLOCK] == c[..i] + block;
    CbcDecryptSplit(rk, iv, c[..i], block);
    assert block[..BLOCK] == block && block[BLOCK..] == [];
  }

  /** One more block encrypted. */
  lemma EncryptedPrefix(rk: RoundKeys, iv: Block, p: seq<bv8>, i: nat)
    requires |p| % BLOCK == 0 && i % BLOCK == 0 && i < |p|
    ensures var c := CbcEncrypt(rk, iv, p[..i]);
            CbcEncrypt(rk, iv, p[..i + BLOCK]) == c + CipherOf(XorBlock(p[i..i + BLOCK], NextIv(iv, c)), rk)
  {
    hide CipherOf, XorBlock;
    var block := p[i..i + BLOCK];
    assert p[..i + BLOCK] == p[..i] + block;
    CbcEncryptSplit(rk, iv, p[..i], block);
    assert block[..BLOCK] == block && block[BLOCK..] == [];
  }

  /** memcpy of one block. */
  method CopyBlock(src: array<bv8>, from: nat, dst: array<bv8>, to: nat)
    requires from + BLOCK <= src.Length && to + BLOCK <= dst.Length && (src != dst || from == to)
    modifies dst
    ensures dst[to..to + BLOCK] == old(src[from..from + BLOCK])
    ensures forall i :: 0 <= i < dst.Length && !(to <= i < to + BLOCK) ==> dst[i] == old(dst[i])
  {
    ghost var v := src[from..from + BLOCK];
    var i := 0;
    while i < BLOCK
      invariant 0 <= i <= BLOCK
      invariant dst[to..to + i] == v[..i]
      invariant src[from + i..from + BLOCK] == v[i..]
      invariant forall n :: 0 <= n < dst.Length && !(to <= n < to + BLOCK) ==> dst[n] == old(dst[n])
    {
      assert src[from + i] == src[from + i..from + BLOCK][0];
      dst[to + i] := src[from + i];
      i := i + 1;
    }
  }

  /** Adds the vector at iv[ivAt..] to the block of buf at o; the vector may lie in
      the same buffer, before the block. */
  method XorWithIv(buf: array<bv8>, o: nat, iv: array<bv8>, ivAt: nat)
    requires o + BLOCK <= buf.Length && ivAt + BLOCK <= iv.Length
    requires buf != iv || ivAt + BLOCK <= o
    modifies buf
    ensures At(buf, o) == XorBlock(old(At(buf, o)), old(iv[ivAt..ivAt + BLOCK])) && OnlyBlock(buf, o)
  {
    ghost var s, v := At(buf, o), iv[ivAt..ivAt + BLOCK];
    var i := 0;
    while i < BLOCK
      invariant 0 <= i <= BLOCK && OnlyBlock(buf, o)
      invariant iv[ivAt..ivAt + BLOCK] == v
      invariant forall k :: 0 <= k < BLOCK ==> At(buf, o)[k] == if k < i then s[k] ^ v[k] else s[k]
    {
      assert iv[ivAt + i] == v[i];
      Store(buf, o, i, Load(buf, o, i) ^ iv[ivAt + i]);
      i := i + 1;
    }
    assert At(buf, o) == XorBlock(s, v);
  }
}
