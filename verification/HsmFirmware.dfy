/** The programs of the two processors, and that each makes the steps of its side of the
    protocol. A line delivers the bytes that the other side sends, in order. */
module HsmFirmware {
  import opened Aes
  import opened AesKey
  import opened AesModes
  import opened Hsm

  /** The bytes that a line delivers from one position to another. */
  function Taken(line: nat -> bv8, from: nat, to: nat): (s: seq<bv8>)
    requires from <= to
    ensures |s| == to - from
  {
    seq(to - from, i requires 0 <= i < to - from => line(from + i))
  }

  lemma TakenMore(line: nat -> bv8, from: nat, to: nat)
    requires from <= to
    ensures Taken(line, from, to + 1) == Taken(line, from, to) + [line(to)]
  {
  }

  // ---- The security processor ----------------------------------------------------------------

  /** The phase reached, and the bytes sent, when a stream of bytes is read. */
  function Absorb(d: Device, p: Phase, bytes: seq<bv8>): (r: (Phase, seq<bv8>))
    requires d.Valid() && PhaseOk(p)
    ensures PhaseOk(r.0)
    decreases |bytes|
  {
    if bytes == [] then (p, [])
    else
      var (before, sent) := Absorb(d, p, bytes[..|bytes| - 1]);
      var (after, out) := Read(d, before, bytes[|bytes| - 1]);
      (after, sent + out)
  }

  lemma AbsorbOne(d: Device, p: Phase, bytes: seq<bv8>, b: bv8)
    requires d.Valid() && PhaseOk(p)
    ensures var (before, sent) := Absorb(d, p, bytes);
            var (after, out) := Read(d, before, b);
            Absorb(d, p, bytes + [b]) == (after, sent + out)
  {
    hide Read;
    assert (bytes + [b])[..|bytes|] == bytes;
  }

  /** A message that feeds the processor takes it to the phase given, with the reply sent. */
  lemma {:induction false} AbsorbMessage(d: Device, p: Phase, bytes: seq<bv8>, message: seq<bv8>, phase: Phase,
                                         reply: seq<bv8>)
    requires d.Valid() && PhaseOk(p) && message != []
    requires FeedsTo(d, Absorb(d, p, bytes).0, message, phase, reply)
    ensures Absorb(d, p, bytes + message) == (phase, Absorb(d, p, bytes).1 + reply)
    decreases |message|
  {
    hide Read, Absorb;
    AbsorbOne(d, p, bytes, message[0]);
    if |message| == 1 {
      assert bytes + message == bytes + [message[0]];
    } else {
      assert bytes + message == (bytes + [message[0]]) + message[1..];
      var sent := Absorb(d, p, bytes).1;
      assert sent + [] == sent;
      AbsorbMessage(d, p, bytes + [message[0]], message[1..], phase, reply);
    }
  }

  class SecurityMcu {
    const pin: seq<bv8>
    const aesKeys: seq<seq<bv8>>
    const line: nat -> bv8
    var taken: nat
    var sent: seq<bv8>

    ghost predicate Valid() {
      |pin| == PIN_LENGTH && |aesKeys| == KEY_COUNT
      && forall k :: 0 <= k < KEY_COUNT ==> |aesKeys[k]| == 4 * KEY_WORDS
    }

    function Stored(): (d: Device)
      requires Valid()
      ensures d.Valid()
    {
      Device(pin, seq(KEY_COUNT, k requires 0 <= k < KEY_COUNT => KeySchedule(aesKeys[k])))
    }

    method ReadU8() returns (b: bv8)
      modifies this`taken
      ensures b == line(old(taken)) && taken == old(taken) + 1
    {
      b := line(taken);
      taken := taken + 1;
    }

    method WriteU8(b: bv8)
      modifies this`sent
      ensures sent == old(sent) + [b]
    {
      sent := sent + [b];
    }

    /** verify_pin: reads eight bytes, then compares up to the first difference. */
    method VerifyPin() returns (good: bool)
      requires Valid()
      modifies this`taken
      ensures taken == old(taken) + PIN_LENGTH
      ensures good <==> Taken(line, old(taken), taken) == pin
    {
      var buffer := new bv8[PIN_LENGTH];
      ghost var start := taken;
      var i := 0;
      while i < PIN_LENGTH
        invariant 0 <= i <= PIN_LENGTH && taken == start + i
        invariant forall j :: 0 <= j < i ==> buffer[j] == line(start + j)
      {
        var b := ReadU8();
        buffer[i] := b;
        i := i + 1;
      }
      ghost var entered := Taken(line, start, taken);
      good := true;
      i := 0;
      while i < PIN_LENGTH
        invariant 0 <= i <= PIN_LENGTH && good
        invariant forall j :: 0 <= j < i ==> buffer[j] == pin[j]
      {
        if pin[i] != buffer[i] {
          good := false;
          assert entered[i] != pin[i];
          break;
        }
        i := i + 1;
      }
      if good {
        assert entered == pin;
      }
    }

    method ReadBuf(buf: array<bv8>)
      modifies this`taken, buf
      ensures taken == old(taken) + buf.Length && buf[..] == Taken(line, old(taken), taken)
    {
      ghost var start := taken;
      var i := 0;
      while i < buf.Length
        invariant 0 <= i <= buf.Length && taken == start + i
        invariant buf[..i] == Taken(line, start, start + i)
      {
        var b := ReadU8();
        buf[i] := b;
        TakenMore(line, start, start + i);
        assert buf[..i + 1] == buf[..i] + [b];
        i := i + 1;
      }
      assert buf[..] == buf[..i];
    }

    method WriteBuf(buf: array<bv8>)
      modifies this`sent
      ensures sent == old(sent) + buf[..]
    {
      ghost var before := sent;
      var i := 0;
      while i < buf.Length
        invariant 0 <= i <= buf.Length && sent == before + buf[..i]
      {
        WriteU8(buf[i]);
        assert buf[..i + 1] == buf[..i] + [buf[i]];
        i := i + 1;
      }
      assert buf[..] == buf[..i];
    }

    /** One turn of the endless loop, from the wait for an opcode to the next one. */
    method Serve()
      requires Valid()
      modifies this`taken, this`sent
      ensures taken > old(taken) && old(sent) <= sent
      ensures Absorb(Stored(), Opcode, Taken(line, old(taken), taken)) == (Opcode, sent[|old(sent)|..])
    {
      hide Read, Absorb, FeedsTo, CipherBlock, KeySchedule;
      ghost var d, start, sent0 := Stored(), taken, sent;
      var ins := ReadU8();
      FirstByte(d, line, start);
      assert sent[|sent0|..] == [];
      if ins == INS_VERIFY_PIN || ins == INS_ENCRYPT || ins == INS_DECRYPT {
        var good := VerifyPin();
        PinAbsorbed(d, ins, line, start);
        SentMore(sent0, sent, [STATUS_BAD_PIN]);
        SentMore(sent0, sent, [STATUS_OK]);
        if !good {
          WriteU8(STATUS_BAD_PIN);
        } else {
          WriteU8(STATUS_OK);
          if ins != INS_VERIFY_PIN {
            Crypt(ins, start, sent0);
          }
        }
      }
    }

    /** The part of a command that follows the acceptance of its PIN. */
    method Crypt(ins: bv8, ghost start: nat, ghost sent0: seq<bv8>)
      requires Valid() && start <= taken && sent0 <= sent && (ins == INS_ENCRYPT || ins == INS_DECRYPT)
      requires Absorb(Stored(), Opcode, Taken(line, start, taken)) == (KeyId(ins, pin), sent[|sent0|..])
      modifies this`taken, this`sent
      ensures taken >= old(taken) && sent0 <= sent
      ensures Absorb(Stored(), Opcode, Taken(line, start, taken)) == (Opcode, sent[|sent0|..])
    {
      hide Read, Absorb, FeedsTo, CipherBlock, KeySchedule;
      ghost var d := Stored();
      KeyAbsorbed(d, ins, pin, line, start, taken);
      var b := ReadU8();
      var key := KeyNumber(b);
      SentMore(sent0, sent, [STATUS_KEY_LOCKED]);
      SentMore(sent0, sent, [STATUS_OK]);
      if Locked(key) {
        WriteU8(STATUS_KEY_LOCKED);
      } else {
        WriteU8(STATUS_OK);
        CountAbsorbed(d, ins, pin, key, line, start, taken);
        b := ReadU8();
        CryptBlocks(ins, key, ToNat(b), start, sent0);
      }
    }

    method CryptBlocks(ins: bv8, key: nat, blockCount: nat, ghost start: nat, ghost sent0: seq<bv8>)
      requires Valid() && start <= taken && sent0 <= sent
      requires (ins == INS_ENCRYPT || ins == INS_DECRYPT) && key < KEY_COUNT
      requires Absorb(Stored(), Opcode, Taken(line, start, taken))
            == (if blockCount == 0 then Opcode else BlockBytes(ins, pin, key, ZERO_IV, blockCount, []), sent[|sent0|..])
      modifies this`taken, this`sent
      ensures taken >= old(taken) && sent0 <= sent
      ensures Absorb(Stored(), Opcode, Taken(line, start, taken)) == (Opcode, sent[|sent0|..])
    {
      hide Read, Absorb, FeedsTo, KeySchedule, CbcEncrypt, CbcDecrypt, NextIv;
      ghost var d := Stored();
      var keyBytes := new bv8[4 * KEY_WORDS](j requires 0 <= j < 4 * KEY_WORDS => aesKeys[key][j]);
      assert keyBytes[..] == aesKeys[key];
      var zero := new bv8[BLOCK](_ => 0);
      assert zero[..] == ZERO_IV;
      var ctx := new AesCtx(keyBytes, zero);
      var i := 0;
      while i < blockCount
        invariant 0 <= i <= blockCount && taken >= old(taken) && sent0 <= sent
        invariant ctx.Valid() && ctx.roundKey[..] == d.keys[key]
        invariant fresh(ctx.roundKey) && fresh(ctx.iv)
        invariant Absorb(d, Opcode, Taken(line, start, taken))
               == (if i == blockCount then Opcode else BlockBytes(ins, pin, key, ctx.iv[..], blockCount - i, []),
                   sent[|sent0|..])
      {
        var buf := new bv8[BLOCK];
        ghost var iv: Block := ctx.iv[..];
        ReadBuf(buf);
        BlockAbsorbed(d, BlockBytes(ins, pin, key, iv, blockCount - i, []), line, start, taken - BLOCK);
        CryptBlock(ctx, ins, buf);
        SentMore(sent0, sent, buf[..]);
        WriteBuf(buf);
        i := i + 1;
      }
    }

    method CryptBlock(ctx: AesCtx, ins: bv8, buf: array<bv8>)
      requires ctx.Valid() && buf != ctx.roundKey && buf != ctx.iv && buf.Length == BLOCK
      modifies buf, ctx.iv
      ensures var (result, next) :=
                if ins == INS_ENCRYPT then
                  var c := CbcEncrypt(ctx.roundKey[..], old(ctx.iv[..]), old(buf[..]));
                  (c, NextIv(old(ctx.iv[..]), c))
                else (CbcDecrypt(ctx.roundKey[..], old(ctx.iv[..]), old(buf[..])),
                      NextIv(old(ctx.iv[..]), old(buf[..])));
              buf[..] == result && ctx.iv[..] == next
    {
      hide CbcEncrypt, CbcDecrypt, NextIv;
      assert buf[0..0 + BLOCK] == buf[..];
      if ins == INS_ENCRYPT {
        ctx.CbcEncryptBuffer(buf, 0, BLOCK);
      } else {
        ctx.CbcDecryptBuffer(buf, 0, BLOCK);
      }
    }
  }

  lemma SentMore(before: seq<bv8>, sent: seq<bv8>, more: seq<bv8>)
    requires before <= sent
    ensures before <= sent + more && (sent + more)[|before|..] == sent[|before|..] + more
  {
  }

  lemma FirstByte(d: Device, line: nat -> bv8, start: nat)
    requires d.Valid()
    ensures var ins := line(start);
            Absorb(d, Opcode, Taken(line, start, start + 1))
              == (if ins == INS_VERIFY_PIN || ins == INS_ENCRYPT || ins == INS_DECRYPT then PinBytes(ins, [])
                  else Opcode, [])
  {
    hide CipherBlock;
    assert Taken(line, start, start + 1) == [line(start)];
    var none: seq<bv8> := [];
    AbsorbOne(d, Opcode, none, line(start));
    assert none + [line(start)] == [line(start)] && none + none == none;
  }

  lemma TakenSplit(line: nat -> bv8, from: nat, mid: nat, to: nat)
    requires from <= mid <= to
    ensures Taken(line, from, to) == Taken(line, from, mid) + Taken(line, mid, to)
  {
  }

  lemma PinAbsorbed(d: Device, ins: bv8, line: nat -> bv8, start: nat)
    requires d.Valid() && line(start) == ins && (ins == INS_VERIFY_PIN || ins == INS_ENCRYPT || ins == INS_DECRYPT)
    ensures var entered := Taken(line, start + 1, start + 1 + PIN_LENGTH);
            Absorb(d, Opcode, Taken(line, start, start + 1 + PIN_LENGTH))
              == (if entered == d.pin && ins != INS_VERIFY_PIN then KeyId(ins, entered) else Opcode,
                  [PinStatus(d, entered)])
  {
    hide Absorb, FeedsTo, Taken, CipherBlock;
    var entered := Taken(line, start + 1, start + 1 + PIN_LENGTH);
    FirstByte(d, line, start);
    TakenSplit(line, start, start + 1, start + 1 + PIN_LENGTH);
    PinFeeds(d, ins, [], entered);
    assert [] + entered == entered;
    var bytes := Taken(line, start, start + 1);
    assert Absorb(d, Opcode, bytes) == (PinBytes(ins, []), []);
    AbsorbMessage(d, Opcode, bytes, entered,
                  if entered == d.pin && ins != INS_VERIFY_PIN then KeyId(ins, entered) else Opcode,
                  [PinStatus(d, entered)]);
    assert [] + [PinStatus(d, entered)] == [PinStatus(d, entered)];
  }

  lemma KeyAbsorbed(d: Device, ins: bv8, pin: seq<bv8>, line: nat -> bv8, start: nat, at: nat)
    requires d.Valid() && start <= at && Absorb(d, Opcode, Taken(line, start, at)).0 == KeyId(ins, pin)
    ensures var key := KeyNumber(line(at));
            var sent := Absorb(d, Opcode, Taken(line, start, at)).1;
            Absorb(d, Opcode, Taken(line, start, at + 1))
              == if Locked(key) then (Opcode, sent + [STATUS_KEY_LOCKED])
                 else (BlockCount(ins, pin, key), sent + [STATUS_OK])
  {
    hide Absorb, Taken, CipherBlock, KeyNumber, Locked;
    TakenMore(line, start, at);
    AbsorbOne(d, Opcode, Taken(line, start, at), line(at));
  }

  lemma CountAbsorbed(d: Device, ins: bv8, pin: seq<bv8>, key: nat, line: nat -> bv8, start: nat, at: nat)
    requires d.Valid() && start <= at && key < KEY_COUNT
    requires Absorb(d, Opcode, Taken(line, start, at)).0 == BlockCount(ins, pin, key)
    ensures var n := ToNat(line(at));
            Absorb(d, Opcode, Taken(line, start, at + 1))
              == (if n == 0 then Opcode else BlockBytes(ins, pin, key, ZERO_IV, n, []),
                  Absorb(d, Opcode, Taken(line, start, at)).1)
  {
    hide Absorb, Taken, CipherBlock, KeyNumber, ToNat;
    TakenMore(line, start, at);
    AbsorbOne(d, Opcode, Taken(line, start, at), line(at));
    var sent := Absorb(d, Opcode, Taken(line, start, at)).1;
    assert sent + [] == sent;
  }

  lemma BlockAbsorbed(d: Device, p: Phase, line: nat -> bv8, start: nat, at: nat)
    requires d.Valid() && start <= at && PhaseOk(p) && p.BlockBytes? && p.got == []
    requires Absorb(d, Opcode, Taken(line, start, at)).0 == p
    ensures var (result, next) := CipherBlock(d, p.ins, p.key, p.iv, Taken(line, at, at + BLOCK));
            Absorb(d, Opcode, Taken(line, start, at + BLOCK))
              == (if p.left == 1 then Opcode else BlockBytes(p.ins, p.pin, p.key, next, p.left - 1, []),
                  Absorb(d, Opcode, Taken(line, start, at)).1 + result)
  {
    hide Absorb, FeedsTo, Taken, CipherBlock;
    var block: Block := Taken(line, at, at + BLOCK);
    var (result, next) := CipherBlock(d, p.ins, p.key, p.iv, block);
    TakenSplit(line, start, at, at + BLOCK);
    assert [] + block == block;
    BlockFeeds(d, p, block);
    AbsorbMessage(d, Opcode, Taken(line, start, at), block,
                  if p.left == 1 then Opcode else BlockBytes(p.ins, p.pin, p.key, next, p.left - 1, []), result);
  }

  // ---- The main processor ------------------------------------------------------------------------

  lemma ReceiveOk(m: Mcu, b: bv8)
    requires McuOk(m) && !m.stage.Idle?
    ensures McuOk(Receive(m, b))
  {
    hide ToByte;
    if m.stage.AwaitBlock? && |m.got| + 1 == BLOCK {
      assert |m.stage.done + (m.got + [b])| == |m.stage.done| + BLOCK;
    }
  }

  /** The state reached when a stream of bytes is received, and all that is sent. */
  function Transact(m: Mcu, bytes: seq<bv8>): (r: (Mcu, seq<bv8>))
    requires McuOk(m)
    ensures McuOk(r.0)
    decreases |bytes|
  {
    if bytes == [] then (m.(out := []), m.out)
    else
      var (before, sent) := Transact(m, bytes[..|bytes| - 1]);
      if before.stage.Idle? then (before, sent)
      else
        ReceiveOk(before, bytes[|bytes| - 1]);
        var after := Receive(before, bytes[|bytes| - 1]);
        (after.(out := []), sent + after.out)
  }

  lemma TransactOne(m: Mcu, bytes: seq<bv8>, b: bv8)
    requires McuOk(m) && !Transact(m, bytes).0.stage.Idle?
    ensures var (before, sent) := Transact(m, bytes);
            var after := Receive(before, b);
            Transact(m, bytes + [b]) == (after.(out := []), sent + after.out)
  {
    hide Receive, McuOk;
    assert (bytes + [b])[..|bytes|] == bytes;
  }

  /** The main processor at the beginning of a command. */
  function Begun(c: Command): (m: Mcu)
    requires CommandOk(c)
    ensures McuOk(m)
  {
    Begin(Mcu([c], 0, Idle, [], [], []))
  }

  /** What the sixteenth byte of a block leads to. */
  function BlockDone(m: Mcu, block: seq<bv8>): (r: (Mcu, seq<bv8>))
    requires McuOk(m) && m.stage.AwaitBlock? && |block| == BLOCK
  {
    var all := m.stage.done + block;
    if |all| >= |m.stage.c.data| then (Finish(m, Blocks(all)).(out := []), [])
    else
      RoomForNext(|all|, |m.stage.c.data|);
      (m.(stage := AwaitBlock(m.stage.c, all), out := [], got := []), m.stage.c.data[|all|..|all| + BLOCK])
  }

  lemma {:induction false} TransactBlock(m: Mcu, bytes: seq<bv8>, rest: seq<bv8>)
    requires McuOk(m) && rest != []
    requires Transact(m, bytes).0.stage.AwaitBlock? && |Transact(m, bytes).0.got| + |rest| == BLOCK
    ensures var (before, sent) := Transact(m, bytes);
            var (after, out) := BlockDone(before.(got := []), before.got + rest);
            Transact(m, bytes + rest) == (after, sent + out)
    decreases |rest|
  {
    hide Transact, CommandOk;
    var (before, sent) := Transact(m, bytes);
    TransactOne(m, bytes, rest[0]);
    OutIsSent(m, bytes);
    if |rest| == 1 {
      assert bytes + rest == bytes + [rest[0]];
      assert before.got + rest == before.got + [rest[0]];
      assert sent + [] == sent;
    } else {
      assert bytes + rest == (bytes + [rest[0]]) + rest[1..];
      assert before.got + rest == (before.got + [rest[0]]) + rest[1..];
      assert sent + [] == sent;
      TransactBlock(m, bytes + [rest[0]], rest[1..]);
    }
  }

  lemma OutIsSent(m: Mcu, bytes: seq<bv8>)
    requires McuOk(m)
    ensures Transact(m, bytes).0.out == []
    decreases |bytes|
  {
    hide Receive, McuOk;
    if bytes != [] {
      OutIsSent(m, bytes[..|bytes| - 1]);
    }
  }

  class MainMcu {
    const line: nat -> bv8
    var taken: nat
    var sent: seq<bv8>

    method Tx(b: bv8)
      modifies this`sent
      ensures sent == old(sent) + [b]
    {
      sent := sent + [b];
    }

    method TxBuf(buf: array<bv8>, from: nat, length: nat)
      requires from + length <= buf.Length
      modifies this`sent
      ensures sent == old(sent) + buf[from..from + length]
    {
      ghost var before := sent;
      var i := 0;
      while i < length
        invariant 0 <= i <= length && sent == before + buf[from..from + i]
      {
        Tx(buf[from + i]);
        assert buf[from..from + (i + 1)] == buf[from..from + i] + [buf[from + i]];
        i := i + 1;
      }
    }

    method Rx() returns (b: bv8)
      modifies this`taken
      ensures b == line(old(taken)) && taken == old(taken) + 1
    {
      b := line(taken);
      taken := taken + 1;
    }

    method RxBuf(buf: array<bv8>)
      modifies this`taken, buf
      ensures taken == old(taken) + buf.Length && buf[..] == Taken(line, old(taken), taken)
    {
      ghost var start := taken;
      var i := 0;
      while i < buf.Length
        invariant 0 <= i <= buf.Length && taken == start + i
        invariant buf[..i] == Taken(line, start, start + i)
      {
        var b := Rx();
        buf[i] := b;
        TakenMore(line, start, start + i);
        assert buf[..i + 1] == buf[..i] + [b];
        i := i + 1;
      }
      assert buf[..] == buf[..i];
    }

    /** Drops the bytes received so far; arrived says how many the line has delivered. */
    method Flush(arrived: nat)
      modifies this`taken
      ensures taken == if arrived > old(taken) then arrived else old(taken)
    {
      if arrived > taken {
        taken := arrived;
      }
    }

    method VerifyPin(pin: array<bv8>, arrived: nat) returns (valid: bool)
      requires pin.Length == PIN_LENGTH
      modifies this`taken, this`sent
      ensures var c := Hsm.VerifyPin(pin[..]);
              var start := if arrived > old(taken) then arrived else old(taken);
              && taken == start + 1 && old(sent) <= sent
              && Transact(Begun(c), Taken(line, start, taken))
                   == (Finish(Begun(c).(out := []), if valid then PinValid else PinInvalid), sent[|old(sent)|..])
    {
      Flush(arrived);
      ghost var c, start, sent0 := Hsm.VerifyPin(pin[..]), taken, sent;
      Tx(INS_VERIFY_PIN);
      TxBuf(pin, 0, PIN_LENGTH);
      ghost var message := [INS_VERIFY_PIN] + pin[..];
      assert sent == sent0 + message by {
        assert pin[0..0 + PIN_LENGTH] == pin[..];
      }
      assert sent[|sent0|..] == message + [];
      var result := Rx();
      valid := result == STATUS_OK;
      AfterFirst(c, line, start);
    }

    /** From the transmission of the opcode to the answer for the client. The client is
        shown the blocks as they arrive; the answer Blocks holds all of them. */
    method EncryptDecrypt(enc: bool, pin: array<bv8>, keyId: nat, buf: array<bv8>, byteCount: nat)
      returns (answer: Answer)
      requires pin.Length == PIN_LENGTH && byteCount <= buf.Length
      requires CommandOk(Hsm.Crypt(enc, pin[..], keyId, buf[..byteCount]))
      modifies this`taken, this`sent
      ensures taken > old(taken) && old(sent) <= sent
      ensures var c := Hsm.Crypt(enc, pin[..], keyId, buf[..byteCount]);
              Transact(Begun(c), Taken(line, old(taken), taken))
                == (Finish(Begun(c).(out := []), answer), sent[|old(sent)|..])
    {
      hide ToByte, Transact, CommandOk, Begun;
      ghost var c, start, sent0 := Hsm.Crypt(enc, pin[..], keyId, buf[..byteCount]), taken, sent;
      ghost var m := Begun(c).(out := []);
      BegunState(c);
      SizesOf(c);
      Tx(if enc then INS_ENCRYPT else INS_DECRYPT);
      TxBuf(pin, 0, PIN_LENGTH);
      assert pin[0..0 + PIN_LENGTH] == pin[..];
      assert sent[|sent0|..] == [Ins(c)] + c.pin;
      var ack := Rx();
      AfterFirst(c, line, start);
      assert [Ins(c)] + c.pin + [] == [Ins(c)] + c.pin;
      if ack != STATUS_OK {
        return if ack == STATUS_BAD_PIN then PinInvalid else UnexpectedError;
      }
      SentMore(sent0, sent, [ToByte(keyId)]);
      Tx(ToByte(keyId));
      ack := Rx();
      AfterKeyAck(c, line, start);
      if ack != STATUS_OK {
        assert sent[|sent0|..] + [] == sent[|sent0|..];
        return if ack == STATUS_KEY_LOCKED then KeyIsLocked else UnexpectedError;
      }
      SentMore(sent0, sent, [ToByte(byteCount / BLOCK)]);
      Tx(ToByte(byteCount / BLOCK));
      answer := ExchangeBlocks(c, buf, byteCount, start, sent0);
    }

    method ExchangeBlocks(ghost c: Command, buf: array<bv8>, byteCount: nat, ghost start: nat, ghost sent0: seq<bv8>)
        returns (answer: Answer)
      requires byteCount <= buf.Length && CommandOk(c) && c.Crypt? && c.data == buf[..byteCount]
      requires start <= taken && sent0 <= sent
      requires Transact(Begun(c), Taken(line, start, taken))
            == (Begun(c).(stage := AwaitBlock(c, []), out := []), sent[|sent0|..] + NextBlock(c, 0))
      modifies this`taken, this`sent
      ensures taken > old(taken) && sent0 <= sent
      ensures Transact(Begun(c), Taken(line, start, taken)) == (Finish(Begun(c).(out := []), answer), sent[|sent0|..])
    {
      hide Transact, CommandOk, Begun, BlockDone;
      SizesOf(c);
      var i := 0;
      var shown: seq<bv8> := [];
      while i < byteCount
        invariant 0 <= i <= byteCount && i % BLOCK == 0 && |shown| == i
        invariant taken >= old(taken) && sent0 <= sent && (i > 0 ==> taken > old(taken))
        invariant Transact(Begun(c), Taken(line, start, taken))
               == (if i == byteCount then Finish(Begun(c).(out := []), Blocks(shown))
                   else Begun(c).(stage := AwaitBlock(c, shown), out := []), sent[|sent0|..] + NextBlock(c, i))
      {
        RoomForNext(i, byteCount);
        assert buf[i..i + BLOCK] == NextBlock(c, i);
        SentMore(sent0, sent, NextBlock(c, i));
        TxBuf(buf, i, BLOCK);
        var response := new bv8[BLOCK];
        RxBuf(response);
        BlockExchanged(c, shown, line, start, taken - BLOCK);
        shown := shown + response[..];
        i := i + BLOCK;
      }
      answer := Blocks(shown);
      assert sent[|sent0|..] + [] == sent[|sent0|..];
    }
  }

  /** The reply to the opcode and the PIN. */
  lemma AfterFirst(c: Command, line: nat -> bv8, start: nat)
    requires CommandOk(c)
    ensures var after := Receive(Begun(c).(out := []), line(start));
            Transact(Begun(c), Taken(line, start, start + 1)) == (after.(out := []), [Ins(c)] + c.pin + after.out)
  {
    hide Receive;
    assert Taken(line, start, start + 1) == [line(start)];
    var none: seq<bv8> := [];
    TransactOne(Begun(c), none, line(start));
    assert none + [line(start)] == [line(start)];
  }

  /** The block that is sent from position n of the data; none at the end. */
  function NextBlock(c: Command, n: nat): seq<bv8>
    requires c.Crypt?
  {
    if n + BLOCK <= |c.data| then c.data[n..n + BLOCK] else []
  }

  lemma SizesOf(c: Command)
    requires CommandOk(c) && c.Crypt?
    ensures |c.pin| == PIN_LENGTH && c.key < KEY_COUNT && BLOCK <= |c.data| <= 256 && |c.data| % BLOCK == 0
    ensures |c.data| / BLOCK < 256
  {
  }

  lemma BegunState(c: Command)
    requires CommandOk(c)
    ensures Begun(c) == Mcu([c], 1, if c.VerifyPin? then AwaitResult(c) else AwaitPinAck(c), [Ins(c)] + c.pin, [], [])
  {
  }

  lemma AfterKeyAck(c: Command, line: nat -> bv8, start: nat)
    requires CommandOk(c) && c.Crypt? && line(start) == STATUS_OK
    ensures c.key < 256 && |c.data| / BLOCK < 256 && BLOCK <= |c.data|
    ensures var m := Begun(c).(out := []);
            Transact(Begun(c), Taken(line, start, start + 2))
              == if line(start + 1) == STATUS_OK
                 then (m.(stage := AwaitBlock(c, [])),
                       [Ins(c)] + c.pin + [ToByte(c.key)] + [ToByte(|c.data| / BLOCK)] + NextBlock(c, 0))
                 else (Finish(m, if line(start + 1) == STATUS_KEY_LOCKED then KeyIsLocked else UnexpectedError),
                       [Ins(c)] + c.pin + [ToByte(c.key)] + [])
  {
    hide Transact, ToByte, CommandOk, Taken;
    SizesOf(c);
    BegunState(c);
    AfterFirst(c, line, start);
    TakenMore(line, start, start + 1);
    TransactOne(Begun(c), Taken(line, start, start + 1), line(start + 1));
    var sent := [Ins(c)] + c.pin + [ToByte(c.key)];
    assert sent + ([ToByte(|c.data| / BLOCK)] + c.data[..BLOCK]) == sent + [ToByte(|c.data| / BLOCK)] + c.data[..BLOCK];
  }

  lemma BlockExchanged(c: Command, done: seq<bv8>, line: nat -> bv8, start: nat, at: nat)
    requires CommandOk(c) && c.Crypt? && start <= at && |done| % BLOCK == 0 && |done| < |c.data|
    requires Transact(Begun(c), Taken(line, start, at)).0 == Begun(c).(stage := AwaitBlock(c, done), out := [])
    ensures var all := done + Taken(line, at, at + BLOCK);
            && |all| <= |c.data|
            && Transact(Begun(c), Taken(line, start, at + BLOCK))
                 == (if |all| == |c.data| then Finish(Begun(c).(out := []), Blocks(all))
                     else Begun(c).(stage := AwaitBlock(c, all), out := []),
                     Transact(Begun(c), Taken(line, start, at)).1 + NextBlock(c, |all|))
  {
    hide Transact, CommandOk, Taken;
    SizesOf(c);
    BegunState(c);
    RoomForNext(|done|, |c.data|);
    var block := Taken(line, at, at + BLOCK);
    TakenSplit(line, start, at, at + BLOCK);
    TransactBlock(Begun(c), Taken(line, start, at), block);
    var none: seq<bv8> := [];
    assert none + block == block;
    if |done + block| < |c.data| {
      RoomForNext(|done + block|, |c.data|);
    }
  }
}
