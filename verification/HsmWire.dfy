/** The protocol of the HSM in the numbers that travel: what each program sends for what
    it receives, and the ring buffers behind the queues of the machine. */
module HsmWire {
  import opened Aes
  import opened AesModes
  import opened AesCtr
  import opened Hsm
  import opened HsmFirmware
  import RingBuffer

  // ---- The receive buffers -------------------------------------------------------------------

  /** An arriving byte is a put on the 64 cells of the security processor. */
  lemma SecArrivesInRing(r: RingBuffer.Ring, b: bv8)
    requires r.Valid() && |r.cells| == 64
    ensures RingBuffer.Put(r, b).0.Valid() && RingBuffer.Put(r, b).0.Contents() == Arrive(r.Contents(), SEC_CAPACITY, b)
  {
    RingBuffer.PutAppends(r, b);
  }

  /** And on the 256 cells of the main processor. */
  lemma McuArrivesInRing(r: RingBuffer.Ring, b: bv8)
    requires r.Valid() && |r.cells| == 256
    ensures RingBuffer.Put(r, b).0.Valid() && RingBuffer.Put(r, b).0.Contents() == Arrive(r.Contents(), MCU_CAPACITY, b)
  {
    RingBuffer.PutAppends(r, b);
  }

  // ---- What the security processor answers -----------------------------------------------------

  lemma OpcodeRead(d: Device, ins: bv8)
    requires d.Valid()
    ensures Absorb(d, Opcode, [ins]) == (if ins == 1 || ins == 2 || ins == 3 then PinBytes(ins, []) else Opcode, [])
  {
    var none: seq<bv8> := [];
    AbsorbOne(d, Opcode, none, ins);
    assert none + [ins] == [ins] && none + none == none;
  }

  lemma PinRead(d: Device, ins: bv8, pin: seq<bv8>)
    requires d.Valid() && |pin| == 8 && (ins == 1 || ins == 2 || ins == 3)
    ensures Absorb(d, Opcode, [ins] + pin)
         == (if pin == d.pin && ins != 1 then KeyId(ins, pin) else Opcode, [if pin == d.pin then 1 else 2])
  {
    hide Absorb, Read, FeedsTo;
    OpcodeRead(d, ins);
    assert [] + pin == pin;
    PinFeeds(d, ins, [], pin);
    AbsorbMessage(d, Opcode, [ins], pin, if pin == d.pin && ins != 1 then KeyId(ins, pin) else Opcode,
                  [PinStatus(d, pin)]);
    assert [] + [PinStatus(d, pin)] == [PinStatus(d, pin)];
  }

  lemma KeyRead(d: Device, ins: bv8, pin: seq<bv8>, k: bv8)
    requires d.Valid() && |pin| == 8 && pin == d.pin && (ins == 2 || ins == 3)
    ensures Absorb(d, Opcode, [ins] + pin + [k])
         == if (k as nat) % 8 == 2 then (Opcode, [1, 3]) else (BlockCount(ins, pin, (k as nat) % 8), [1, 1])
  {
    hide Absorb;
    PinRead(d, ins, pin);
    AbsorbOne(d, Opcode, [ins] + pin, k);
    assert [1 as bv8] + [3] == [1, 3] && [1 as bv8] + [1] == [1, 1];
  }

  lemma CountRead(d: Device, ins: bv8, pin: seq<bv8>, k: bv8, n: bv8)
    requires d.Valid() && |pin| == 8 && pin == d.pin && (ins == 2 || ins == 3) && (k as nat) % 8 != 2
    ensures Absorb(d, Opcode, [ins] + pin + [k] + [n])
         == (if n as nat == 0 then Opcode else BlockBytes(ins, pin, (k as nat) % 8, ZERO_IV, n as nat, []), [1, 1])
  {
    hide Absorb;
    KeyRead(d, ins, pin, k);
    AbsorbOne(d, Opcode, [ins] + pin + [k], n);
    assert [1 as bv8, 1] + [] == [1, 1];
  }

  /** All the blocks of a command. */
  lemma {:induction false} BlocksRead(d: Device, p: Phase, bytes: seq<bv8>, sent: seq<bv8>, data: seq<bv8>)
    requires d.Valid() && PhaseOk(p) && p.BlockBytes? && p.got == []
    requires |data| % 16 == 0 && |data| == 16 * p.left
    requires Absorb(d, Opcode, bytes) == (p, sent)
    ensures Absorb(d, Opcode, bytes + data)
         == (Opcode, sent + if p.ins == 2 then CbcEncrypt(d.keys[p.key], p.iv, data)
                            else CbcDecrypt(d.keys[p.key], p.iv, data))
    decreases p.left
  {
    hide Absorb, FeedsTo, CbcEncrypt, CbcDecrypt, NextIv;
    var block: Block, rest := data[..16], data[16..];
    var (result, next) := CipherBlock(d, p.ins, p.key, p.iv, block);
    var after := if p.left == 1 then Opcode else BlockBytes(p.ins, p.pin, p.key, next, p.left - 1, []);
    assert [] + block == block && data == block + rest;
    BlockFeeds(d, p, block);
    AbsorbMessage(d, Opcode, bytes, block, after, result);
    CbcEncryptSplit(d.keys[p.key], p.iv, block, rest);
    CbcDecryptSplit(d.keys[p.key], p.iv, block, rest);
    assert bytes + data == bytes + block + rest;
    if p.left == 1 {
      NothingEncrypted(d.keys[p.key], next);
      NothingDecrypted(d.keys[p.key], next);
      assert rest == [] && bytes + block + rest == bytes + block;
      assert result + [] == result;
    } else {
      BlocksRead(d, after, bytes + block, sent + result, rest);
      var more := if p.ins == 2 then CbcEncrypt(d.keys[p.key], next, rest) else CbcDecrypt(d.keys[p.key], next, rest);
      assert sent + result + more == sent + (result + more);
    }
  }

  /** Every whole command, as it travels: the opcode is 1 to verify the PIN, 2 to encrypt
      and 3 to decrypt; the PIN has eight bytes; the key number counts modulo 8, and key 2
      is locked; a count of blocks of 16 bytes follows, and the blocks. The status is 1 for
      good, 2 for a wrong PIN and 3 for the locked key. */
  lemma CommandOnWire(d: Device, ins: bv8, pin: seq<bv8>, k: bv8, n: bv8, data: seq<bv8>)
    requires |d.pin| == 8 && |d.keys| == 8 && |pin| == 8 && |data| == 16 * (n as nat)
    ensures d.Valid()
    ensures ins != 1 && ins != 2 && ins != 3 ==> Absorb(d, Opcode, [ins]) == (Opcode, [])
    ensures ins == 1 || ((ins == 2 || ins == 3) && pin != d.pin) ==>
              Absorb(d, Opcode, [ins] + pin) == (Opcode, [if pin == d.pin then 1 else 2])
    ensures (ins == 2 || ins == 3) && pin == d.pin ==>
              if (k as nat) % 8 == 2 then Absorb(d, Opcode, [ins] + pin + [k]) == (Opcode, [1, 3])
              else
                var zeros: Block := [0, 0, 0, 0, 0, 0, 0, 0, 0, 0, 0, 0, 0, 0, 0, 0];
                var key := d.keys[(k as nat) % 8];
                Absorb(d, Opcode, [ins] + pin + [k] + [n] + data)
                  == (Opcode, [1, 1] + if ins == 2 then CbcEncrypt(key, zeros, data) else CbcDecrypt(key, zeros, data))
  {
    hide Absorb, CbcEncrypt, CbcDecrypt;
    OpcodeRead(d, ins);
    if ins == 1 || ins == 2 || ins == 3 {
      PinRead(d, ins, pin);
      if ins != 1 && pin == d.pin {
        KeyRead(d, ins, pin, k);
        if (k as nat) % 8 != 2 {
          CountRead(d, ins, pin, k, n);
          var bytes := [ins] + pin + [k] + [n];
          var key := d.keys[(k as nat) % 8];
          if n as nat == 0 {
            assert bytes + data == bytes && data == [] && [1 as bv8, 1] + data == [1, 1];
            NothingEncrypted(key, ZERO_IV);
            NothingDecrypted(key, ZERO_IV);
          } else {
            BlocksRead(d, BlockBytes(ins, pin, (k as nat) % 8, ZERO_IV, n as nat, []), bytes, [1, 1], data);
          }
        }
      }
    }
  }

  // ---- Where the keys are used -------------------------------------------------------------------

  /** The stored keys are the same but for some that the phase does not name. */
  ghost predicate SameFor(d: Device, d': Device, p: Phase)
    requires d.Valid() && d'.Valid() && PhaseOk(p)
  {
    d.pin == d'.pin && (Ciphers(p) ==> d.keys[p.key] == d'.keys[p.key])
  }

  /** Only the phases that run the cipher use a key, and only the one that was chosen. */
  lemma OneKeyUsed(d: Device, d': Device, p: Phase, b: bv8)
    requires d.Valid() && d'.Valid() && PhaseOk(p) && SameFor(d, d', p)
    ensures Read(d, p, b) == Read(d', p, b)
  {
    hide CbcEncrypt, CbcDecrypt, NextIv;
  }

  /** Whatever bytes arrive, nothing that is sent depends on the key with number 2. */
  lemma {:induction false} LockedKeyUnused(d: Device, d': Device, bytes: seq<bv8>)
    requires |d.pin| == 8 && |d.keys| == |d'.keys| == 8 && d.pin == d'.pin
    requires forall key :: 0 <= key < 8 && key != 2 ==> d.keys[key] == d'.keys[key]
    ensures d.Valid() && d'.Valid() && Absorb(d, Opcode, bytes) == Absorb(d', Opcode, bytes)
    decreases |bytes|
  {
    hide Read;
    if bytes != [] {
      var front, b := bytes[..|bytes| - 1], bytes[|bytes| - 1];
      LockedKeyUnused(d, d', front);
      AbsorbedPhase(d, front);
      NoCipherWithoutPin(d, front);
      OneKeyUsed(d, d', PhaseAfter(d, front), b);
    }
  }

  lemma {:induction false} AbsorbedPhase(d: Device, bytes: seq<bv8>)
    requires d.Valid()
    ensures Absorb(d, Opcode, bytes).0 == PhaseAfter(d, bytes)
    decreases |bytes|
  {
    hide Read;
    if bytes != [] {
      AbsorbedPhase(d, bytes[..|bytes| - 1]);
    }
  }

  // ---- What the main processor sends -----------------------------------------------------------

  lemma ByteOf(n: nat, b: bv8)
    requires n < 256 && b as nat == n
    ensures ToByte(n) == b
  {
    ByteOfNat(n);
    SameByte(ToByte(n), b);
  }

  lemma FirstSent(c: Command, b: bv8)
    requires CommandOk(c)
    ensures var m := Begun(c).(out := []);
            var after := Receive(m, b);
            && Transact(Begun(c), []) == (m, [Ins(c)] + c.pin)
            && Transact(Begun(c), [b]) == (after.(out := []), [Ins(c)] + c.pin + after.out)
  {
    hide Receive;
    var none: seq<bv8> := [];
    TransactOne(Begun(c), none, b);
    assert none + [b] == [b];
  }

  /** The rest of the blocks, each sent when the one before it has come back. */
  lemma {:induction false} BlocksSent(c: Command, bytes: seq<bv8>, sent: seq<bv8>, done: seq<bv8>, rest: seq<bv8>)
    requires CommandOk(c) && c.Crypt? && |done| % 16 == 0 && rest != [] && |done| + |rest| == |c.data|
    requires |done| + 16 <= |c.data|
    requires Transact(Begun(c), bytes) == (Begun(c).(stage := AwaitBlock(c, done), out := []), sent)
    ensures Transact(Begun(c), bytes + rest)
         == (Finish(Begun(c).(out := []), Blocks(done + rest)), sent + c.data[|done| + 16..])
    decreases |rest|
  {
    hide Transact, CommandOk, Begun;
    BegunState(c);
    SizesOf(c);
    var block, more, none := rest[..16], rest[16..], rest[..0];
    TransactBlock(Begun(c), bytes, block);
    assert none + block == block && rest == block + more;
    assert bytes + rest == bytes + block + more && done + rest == done + block + more;
    if more == [] {
      assert bytes + block + more == bytes + block && done + block + more == done + block;
      assert c.data[|done| + 16..] == [] && sent + [] == sent;
    } else {
      RoomForNext(|done + block|, |c.data|);
      var next := c.data[|done| + 16..|done| + 32];
      BlocksSent(c, bytes + block, sent + next, done + block, more);
      assert next + c.data[|done| + 32..] == c.data[|done| + 16..];
      assert sent + next + c.data[|done| + 32..] == sent + (next + c.data[|done| + 32..]);
    }
  }

  /** Every command from the side of the main processor: what it has sent, and what it
      tells the client, for each reply. */
  lemma CommandSent(c: Command, ins: bv8, k: bv8, n: bv8, reply: seq<bv8>)
    requires |c.pin| == 8 && ins == (if c.VerifyPin? then 1 else if c.encrypt then 2 else 3)
    requires c.Crypt? ==> c.key < 8 && k as nat == c.key && 0 < |c.data| <= 256 && |c.data| == 16 * (n as nat)
    ensures CommandOk(c) && Transact(Begun(c), []).1 == [ins] + c.pin
    ensures c.VerifyPin? ==> forall b :: Transact(Begun(c), [b]).0.answers == [if b == 1 then PinValid else PinInvalid]
    ensures c.Crypt? ==>
              && Transact(Begun(c), [2]).0.answers == [PinInvalid]
              && Transact(Begun(c), [1]).1 == [ins] + c.pin + [k]
              && Transact(Begun(c), [1, 3]).0.answers == [KeyIsLocked]
              && Transact(Begun(c), [1, 1]).1 == [ins] + c.pin + [k] + [n] + c.data[..16]
    ensures c.Crypt? && |reply| == |c.data| ==>
              && Transact(Begun(c), [1, 1] + reply).0.answers == [Blocks(reply)]
              && Transact(Begun(c), [1, 1] + reply).1 == [ins] + c.pin + [k] + [n] + c.data
  {
    hide Transact, ToByte;
    FirstSent(c, 1);
    FirstSent(c, 2);
    BegunState(c);
    if c.VerifyPin? {
      forall b: bv8
        ensures Transact(Begun(c), [b]).0.answers == [if b == 1 then PinValid else PinInvalid]
      {
        FirstSent(c, b);
      }
    } else {
      ByteOf(c.key, k);
      ByteOf(|c.data| / 16, n);
      KeySent(c, ins, k, n, 3);
      KeySent(c, ins, k, n, 1);
      if |reply| == |c.data| {
        AllSent(c, [ins] + c.pin + [k] + [n], reply);
      }
    }
  }

  lemma AllSent(c: Command, head: seq<bv8>, reply: seq<bv8>)
    requires CommandOk(c) && c.Crypt? && |reply| == |c.data|
    requires Transact(Begun(c), [1, 1]) == (Begun(c).(stage := AwaitBlock(c, []), out := []), head + c.data[..16])
    ensures Transact(Begun(c), [1, 1] + reply) == (Finish(Begun(c).(out := []), Blocks(reply)), head + c.data)
  {
    hide Transact, CommandOk, Begun;
    SizesOf(c);
    BlocksSent(c, [1, 1], head + c.data[..16], [], reply);
    assert [] + reply == reply;
    assert head + c.data[..16] + c.data[16..] == head + (c.data[..16] + c.data[16..]);
    assert c.data[..16] + c.data[16..] == c.data;
  }

  lemma KeySent(c: Command, ins: bv8, k: bv8, n: bv8, b: bv8)
    requires CommandOk(c) && c.Crypt? && ins == Ins(c) && k == ToByte(c.key) && n == ToByte(|c.data| / 16)
    requires b == 1 || b == 3
    ensures var m := Begun(c).(out := []);
            Transact(Begun(c), [1, b])
              == if b == 1 then (m.(stage := AwaitBlock(c, [])), [ins] + c.pin + [k] + [n] + c.data[..16])
                 else (Finish(m, KeyIsLocked), [ins] + c.pin + [k])
  {
    hide Transact, ToByte;
    SizesOf(c);
    BegunState(c);
    FirstSent(c, 1);
    TransactOne(Begun(c), [1], b);
    assert [1 as bv8] + [b] == [1, b];
    var sent := [ins] + c.pin + [k];
    assert sent + ([n] + c.data[..16]) == sent + [n] + c.data[..16] && sent + [] == sent;
  }
}
