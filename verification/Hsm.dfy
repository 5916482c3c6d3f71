/** The protocol between the two processors of the HSM, byte by byte: the main one sends
    opcode, PIN, key number and blocks; the security one checks and ciphers. */
module Hsm {
  import opened Aes
  import opened AesModes

  const PIN_LENGTH := 8
  const KEY_COUNT := 8

  /** One byte less than the sizes of the two receive buffers. */
  const SEC_CAPACITY := 63
  const MCU_CAPACITY := 255

  const INS_VERIFY_PIN: bv8 := 1
  const INS_ENCRYPT: bv8 := 2
  const INS_DECRYPT: bv8 := 3

  const STATUS_OK: bv8 := 1
  const STATUS_BAD_PIN: bv8 := 2
  const STATUS_KEY_LOCKED: bv8 := 3

  const ZERO_IV: Block := [0, 0, 0, 0, 0, 0, 0, 0, 0, 0, 0, 0, 0, 0, 0, 0]

  /** The byte of value n. */
  function ToByte(n: nat): bv8
    requires n < 256
  {
    if n == 0 then 0 else ToByte(n - 1) + 1
  }

  function ToNat(b: bv8): nat {
    b as nat
  }

  lemma SuccessorByte(b: bv8)
    ensures ToNat(b) < 256 && (b == 255 <==> ToNat(b) == 255)
    ensures b != 255 ==> ToNat(b + 1) == ToNat(b) + 1
  {
  }

  lemma {:induction false} ByteOfNat(n: nat)
    requires n < 256
    ensures ToNat(ToByte(n)) == n
  {
    hide ToNat;
    if n == 0 {
      ZeroByte();
    } else {
      ByteOfNat(n - 1);
      SuccessorByte(ToByte(n - 1));
    }
  }

  lemma ZeroByte()
    ensures ToNat(0) == 0
  {
  }

  function KeyNumber(b: bv8): (key: nat)
    ensures key < KEY_COUNT
  {
    ToNat(b) % KEY_COUNT
  }

  predicate Locked(key: nat) {
    key == 2
  }

  /** What is stored in the security processor. */
  datatype Device = Device(pin: seq<bv8>, keys: seq<RoundKeys>) {
    predicate Valid() {
      |pin| == PIN_LENGTH && |keys| == KEY_COUNT
    }
  }

  // ---- The security processor --------------------------------------------------------------

  /** Where its program waits for a byte. pin is the PIN that the client has entered. */
  datatype Phase =
    | Opcode
    | PinBytes(ins: bv8, got: seq<bv8>)
    | KeyId(ins: bv8, pin: seq<bv8>)
    | BlockCount(ins: bv8, pin: seq<bv8>, key: nat)
    | BlockBytes(ins: bv8, pin: seq<bv8>, key: nat, iv: Block, left: nat, got: seq<bv8>)

  ghost predicate PhaseOk(p: Phase) {
    match p
    case Opcode => true
    case PinBytes(_, got) => |got| < PIN_LENGTH
    case KeyId(_, _) => true
    case BlockCount(_, _, key) => key < KEY_COUNT
    case BlockBytes(_, _, key, _, left, got) => key < KEY_COUNT && left > 0 && |got| < BLOCK
  }

  /** One block through the context. */
  function CipherBlock(d: Device, ins: bv8, key: nat, iv: Block, block: Block): (r: (Block, Block))
    requires d.Valid() && key < KEY_COUNT
  {
    if ins == INS_ENCRYPT then
      var c := CbcEncrypt(d.keys[key], iv, block);
      (c, NextIv(iv, c))
    else (CbcDecrypt(d.keys[key], iv, block), NextIv(iv, block))
  }

  function PinStatus(d: Device, pin: seq<bv8>): bv8 {
    if pin == d.pin then STATUS_OK else STATUS_BAD_PIN
  }

  /** What the program does between reading a byte and waiting for the next: where it
      waits then, and the bytes that it sends. */
  function Read(d: Device, p: Phase, b: bv8): (r: (Phase, seq<bv8>))
    requires d.Valid() && PhaseOk(p)
    ensures PhaseOk(r.0)
  {
    match p
    case Opcode =>
      (if b == INS_VERIFY_PIN || b == INS_ENCRYPT || b == INS_DECRYPT then PinBytes(b, []) else Opcode, [])
    case PinBytes(ins, got) =>
      var pin := got + [b];
      if |pin| < PIN_LENGTH then (PinBytes(ins, pin), [])
      else (if pin == d.pin && ins != INS_VERIFY_PIN then KeyId(ins, pin) else Opcode, [PinStatus(d, pin)])
    case KeyId(ins, pin) =>
      var key := KeyNumber(b);
      if Locked(key) then (Opcode, [STATUS_KEY_LOCKED]) else (BlockCount(ins, pin, key), [STATUS_OK])
    case BlockCount(ins, pin, key) =>
      (if ToNat(b) == 0 then Opcode else BlockBytes(ins, pin, key, ZERO_IV, ToNat(b), []), [])
    case BlockBytes(_, _, _, _, _, _) => ReadBlockByte(d, p, b)
  }

  function ReadBlockByte(d: Device, p: Phase, b: bv8): (r: (Phase, seq<bv8>))
    requires d.Valid() && PhaseOk(p) && p.BlockBytes?
    ensures PhaseOk(r.0)
  {
    var got := p.got + [b];
    if |got| < BLOCK then (BlockBytes(p.ins, p.pin, p.key, p.iv, p.left, got), [])
    else
      var (result, next) := CipherBlock(d, p.ins, p.key, p.iv, got);
      (if p.left == 1 then Opcode else BlockBytes(p.ins, p.pin, p.key, next, p.left - 1, []), result)
  }

  /** Whether reading a byte in this phase runs the cipher. */
  predicate Ciphers(p: Phase) {
    p.BlockBytes? && |p.got| + 1 == BLOCK
  }

  /** The phase after a stream of bytes. */
  function PhaseAfter(d: Device, bytes: seq<bv8>): (p: Phase)
    requires d.Valid()
    ensures PhaseOk(p)
  {
    if bytes == [] then Opcode else Read(d, PhaseAfter(d, bytes[..|bytes| - 1]), bytes[|bytes| - 1]).0
  }

  ghost predicate Authorised(d: Device, p: Phase) {
    match p
    case Opcode => true
    case PinBytes(_, _) => true
    case KeyId(_, pin) => pin == d.pin
    case BlockCount(_, pin, key) => pin == d.pin && !Locked(key)
    case BlockBytes(_, pin, key, _, _, _) => pin == d.pin && !Locked(key)
  }

  /** Whatever bytes arrive, the cipher runs only after the right PIN, and never with
      a locked key. */
  lemma {:induction false} NoCipherWithoutPin(d: Device, bytes: seq<bv8>)
    requires d.Valid()
    ensures Authorised(d, PhaseAfter(d, bytes))
    ensures Ciphers(PhaseAfter(d, bytes)) ==>
              PhaseAfter(d, bytes).pin == d.pin && PhaseAfter(d, bytes).key != 2
  {
    hide CipherBlock;
    if bytes != [] {
      NoCipherWithoutPin(d, bytes[..|bytes| - 1]);
    }
  }

  // ---- The main processor --------------------------------------------------------------------

  /** A command whose arguments have passed the checks of the command line. */
  datatype Command =
    | VerifyPin(pin: seq<bv8>)
    | Crypt(encrypt: bool, pin: seq<bv8>, key: nat, data: seq<bv8>)

  predicate CommandOk(c: Command) {
    && |c.pin| == PIN_LENGTH
    && (c.Crypt? ==> c.key < KEY_COUNT && 0 < |c.data| <= 256 && |c.data| % BLOCK == 0)
  }

  /** What the client is told. */
  datatype Answer = PinValid | PinInvalid | KeyIsLocked | UnexpectedError | Blocks(bytes: seq<bv8>)

  /** Which byte the program waits for. done are the bytes of the blocks received. */
  datatype Stage =
    | Idle
    | AwaitResult(c: Command)
    | AwaitPinAck(c: Command)
    | AwaitKeyAck(c: Command)
    | AwaitBlock(c: Command, done: seq<bv8>)

  datatype Mcu = Mcu(commands: seq<Command>, next: nat, stage: Stage, out: seq<bv8>, got: seq<bv8>,
                     answers: seq<Answer>)

  function Ins(c: Command): bv8 {
    match c
    case VerifyPin(_) => INS_VERIFY_PIN
    case Crypt(encrypt, _, _, _) => if encrypt then INS_ENCRYPT else INS_DECRYPT
  }

  ghost predicate StageOk(s: Stage) {
    match s
    case Idle => true
    case AwaitResult(c) => CommandOk(c) && c.VerifyPin?
    case AwaitPinAck(c) => CommandOk(c) && c.Crypt?
    case AwaitKeyAck(c) => CommandOk(c) && c.Crypt?
    case AwaitBlock(c, done) => CommandOk(c) && c.Crypt? && |done| % BLOCK == 0 && |done| < |c.data|
  }

  ghost predicate McuOk(m: Mcu) {
    && m.next <= |m.commands| && StageOk(m.stage)
    && (forall i :: 0 <= i < |m.commands| ==> CommandOk(m.commands[i]))
    && |m.got| < BLOCK
  }

  function Begin(m: Mcu): Mcu
    requires m.stage.Idle? && m.next < |m.commands|
  {
    var c := m.commands[m.next];
    m.(next := m.next + 1, stage := if c.VerifyPin? then AwaitResult(c) else AwaitPinAck(c),
       out := [Ins(c)] + c.pin, got := [])
  }

  function Finish(m: Mcu, a: Answer): Mcu {
    m.(stage := Idle, got := [], answers := m.answers + [a])
  }

  lemma RoomForNext(done: nat, length: nat)
    requires done < length && done % BLOCK == 0 && length % BLOCK == 0
    ensures done + BLOCK <= length
  {
  }

  /** What the program does with a byte that it has waited for. */
  function Receive(m: Mcu, b: bv8): Mcu
    requires McuOk(m) && !m.stage.Idle?
  {
    match m.stage
    case AwaitResult(c) => Finish(m, if b == STATUS_OK then PinValid else PinInvalid)
    case AwaitPinAck(c) =>
      if b == STATUS_OK then m.(stage := AwaitKeyAck(c), out := [ToByte(c.key)])
      else Finish(m, if b == STATUS_BAD_PIN then PinInvalid else UnexpectedError)
    case AwaitKeyAck(c) =>
      if b == STATUS_OK then
        m.(stage := AwaitBlock(c, []), out := [ToByte(|c.data| / BLOCK)] + c.data[..BLOCK], got := [])
      else Finish(m, if b == STATUS_KEY_LOCKED then KeyIsLocked else UnexpectedError)
    case AwaitBlock(c, done) =>
      var got := m.got + [b];
      if |got| < BLOCK then m.(got := got)
      else
        var all := done + got;
        if |all| >= |c.data| then Finish(m, Blocks(all))
        else
          RoomForNext(|all|, |c.data|);
          m.(stage := AwaitBlock(c, all), out := c.data[|all|..|all| + BLOCK], got := [])
  }

  // ---- Both, and the lines between them ----------------------------------------------------

  /** toSec and toMcu: bytes on the line; secRing and mcuRing: bytes received and not yet
      read; secOut: bytes that the security processor is about to send. */
  datatype System = System(mcu: Mcu, toSec: seq<bv8>, secRing: seq<bv8>, phase: Phase, secOut: seq<bv8>,
                           toMcu: seq<bv8>, mcuRing: seq<bv8>)

  /** A byte arrives; it is dropped if the buffer is full. */
  function Arrive(ring: seq<bv8>, capacity: nat, b: bv8): seq<bv8> {
    if |ring| < capacity then ring + [b] else ring
  }

  datatype Event = McuBegins | McuSends | SecArrives | SecReads | SecSends | McuArrives | McuReads

  ghost predicate SystemOk(s: System) {
    McuOk(s.mcu) && PhaseOk(s.phase)
  }

  predicate Enabled(s: System, e: Event) {
    match e
    case McuBegins => s.mcu.stage.Idle? && s.mcu.out == [] && s.mcu.next < |s.mcu.commands|
    case McuSends => s.mcu.out != []
    case SecArrives => s.toSec != []
    case SecReads => s.secOut == [] && s.secRing != []
    case SecSends => s.secOut != []
    case McuArrives => s.toMcu != []
    case McuReads => s.mcu.out == [] && !s.mcu.stage.Idle? && s.mcuRing != []
  }

  function Step(d: Device, s: System, e: Event): System
    requires d.Valid() && SystemOk(s) && Enabled(s, e)
  {
    match e
    case McuBegins =>
      // verifying a PIN first flushes the receive buffer
      s.(mcu := Begin(s.mcu), mcuRing := if s.mcu.commands[s.mcu.next].VerifyPin? then [] else s.mcuRing)
    case McuSends => s.(mcu := s.mcu.(out := s.mcu.out[1..]), toSec := s.toSec + [s.mcu.out[0]])
    case SecArrives => s.(toSec := s.toSec[1..], secRing := Arrive(s.secRing, SEC_CAPACITY, s.toSec[0]))
    case SecReads =>
      var (phase, out) := Read(d, s.phase, s.secRing[0]);
      s.(secRing := s.secRing[1..], phase := phase, secOut := out)
    case SecSends => s.(secOut := s.secOut[1..], toMcu := s.toMcu + [s.secOut[0]])
    case McuArrives => s.(toMcu := s.toMcu[1..], mcuRing := Arrive(s.mcuRing, MCU_CAPACITY, s.toMcu[0]))
    case McuReads => s.(mcu := Receive(s.mcu, s.mcuRing[0]), mcuRing := s.mcuRing[1..])
  }

  // ---- What every answer is ---------------------------------------------------------------------

  function Ciphered(d: Device, c: Command): (r: seq<bv8>)
    requires d.Valid() && CommandOk(c) && c.Crypt?
    ensures |r| == |c.data|
  {
    if c.encrypt then CbcEncrypt(d.keys[c.key], ZERO_IV, c.data) else CbcDecrypt(d.keys[c.key], ZERO_IV, c.data)
  }

  function Expected(d: Device, c: Command): Answer
    requires d.Valid() && CommandOk(c)
  {
    if c.pin != d.pin then PinInvalid
    else if c.VerifyPin? then PinValid
    else if Locked(c.key) then KeyIsLocked
    else Blocks(Ciphered(d, c))
  }

  /** What an answer tells the client, command by command: the key with number 2 is the
      locked one, and blocks are those of CBC from a vector of zeros. */
  ghost predicate Told(d: Device, c: Command, a: Answer)
    requires d.Valid() && CommandOk(c)
  {
    var zeros: Block := [0, 0, 0, 0, 0, 0, 0, 0, 0, 0, 0, 0, 0, 0, 0, 0];
    && (a == PinInvalid <==> c.pin != d.pin)
    && (a == PinValid <==> c.pin == d.pin && c.VerifyPin?)
    && (a == KeyIsLocked <==> c.pin == d.pin && c.Crypt? && c.key == 2)
    && (a.Blocks? <==> c.pin == d.pin && c.Crypt? && c.key != 2)
    && (a.Blocks? ==> if c.encrypt then CbcBytes(d.keys[c.key], zeros, c.data, a.bytes)
                      else CbcBytes(d.keys[c.key], zeros, a.bytes, c.data))
  }

  lemma ExpectedIsTold(d: Device, c: Command)
    requires d.Valid() && CommandOk(c)
    ensures Told(d, c, Expected(d, c))
  {
    hide CbcEncrypt, CbcDecrypt, CbcBytes;
    if c.Crypt? {
      CbcExactly(d.keys[c.key], ZERO_IV, c.data, CbcEncrypt(d.keys[c.key], ZERO_IV, c.data));
      CbcExactly(d.keys[c.key], ZERO_IV, CbcDecrypt(d.keys[c.key], ZERO_IV, c.data), c.data);
    }
  }

  ghost predicate AllTold(d: Device, commands: seq<Command>, answers: seq<Answer>)
    requires d.Valid() && CommandsOk(commands) && |answers| <= |commands|
  {
    forall i :: 0 <= i < |answers| ==> Told(d, commands[i], answers[i])
  }

  lemma RightIsTold(d: Device, commands: seq<Command>, answers: seq<Answer>)
    requires d.Valid() && CommandsOk(commands) && AllRight(d, commands, answers)
    ensures AllTold(d, commands, answers)
  {
    hide Told, Expected, CommandOk;
    forall i | 0 <= i < |answers|
      ensures Told(d, commands[i], answers[i])
    {
      ExpectedIsTold(d, commands[i]);
    }
  }

  /** The vector that the security processor holds after some blocks of the data. */
  function VectorAfter(d: Device, c: Command, n: nat): Block
    requires d.Valid() && CommandOk(c) && c.Crypt? && n % BLOCK == 0 && n <= |c.data|
  {
    if c.encrypt then NextIv(ZERO_IV, CbcEncrypt(d.keys[c.key], ZERO_IV, c.data[..n])) else NextIv(ZERO_IV, c.data[..n])
  }

  function BlockAt(c: Command, n: nat): Block
    requires CommandOk(c) && c.Crypt? && n % BLOCK == 0 && n < |c.data|
  {
    RoomForNext(n, |c.data|);
    c.data[n..n + BLOCK]
  }

  /** What the main processor has been told or knows while it waits. */
  ghost predicate Knows(d: Device, s: Stage)
    requires d.Valid() && StageOk(s)
  {
    match s
    case Idle => true
    case AwaitResult(_) => true
    case AwaitPinAck(_) => true
    case AwaitKeyAck(c) => c.pin == d.pin
    case AwaitBlock(c, done) => c.pin == d.pin && !Locked(c.key) && done == Ciphered(d, c)[..|done|]
  }

  /** The bytes that answer the message on which the main processor waits. */
  function Reply(d: Device, s: Stage): seq<bv8>
    requires d.Valid() && StageOk(s)
  {
    match s
    case Idle => []
    case AwaitResult(c) => [PinStatus(d, c.pin)]
    case AwaitPinAck(c) => [PinStatus(d, c.pin)]
    case AwaitKeyAck(c) => [if Locked(c.key) then STATUS_KEY_LOCKED else STATUS_OK]
    case AwaitBlock(c, done) =>
      CipherBlock(d, Ins(c), c.key, VectorAfter(d, c, |done|), BlockAt(c, |done|)).0
  }

  /** Where the security processor waits once it has read that message. */
  function Then(d: Device, s: Stage): Phase
    requires d.Valid() && StageOk(s)
  {
    match s
    case Idle => Opcode
    case AwaitResult(c) => Opcode
    case AwaitPinAck(c) => if c.pin == d.pin then KeyId(Ins(c), c.pin) else Opcode
    case AwaitKeyAck(c) => if Locked(c.key) then Opcode else BlockCount(Ins(c), c.pin, c.key)
    case AwaitBlock(c, done) => PhaseAt(d, c, |done| + BLOCK)
  }

  /** Where it waits after n bytes of the data. */
  function PhaseAt(d: Device, c: Command, n: nat): Phase
    requires d.Valid() && CommandOk(c) && c.Crypt?
  {
    if n >= |c.data| || n % BLOCK != 0 then Opcode
    else BlockBytes(Ins(c), c.pin, c.key, VectorAfter(d, c, n), (|c.data| - n) / BLOCK, [])
  }

  // ---- Messages ------------------------------------------------------------------------------

  /** The security processor reads the whole message before it sends anything; then it
      sends the reply and waits in the given phase. */
  ghost predicate FeedsTo(d: Device, p: Phase, message: seq<bv8>, phase: Phase, reply: seq<bv8>)
    requires d.Valid() && PhaseOk(p) && message != []
    decreases |message|
  {
    var (next, out) := Read(d, p, message[0]);
    if |message| == 1 then next == phase && out == reply
    else out == [] && FeedsTo(d, next, message[1..], phase, reply)
  }

  lemma {:induction false} PinFeeds(d: Device, ins: bv8, got: seq<bv8>, rest: seq<bv8>)
    requires d.Valid() && |got| + |rest| == PIN_LENGTH && rest != []
    ensures FeedsTo(d, PinBytes(ins, got), rest,
                    if got + rest == d.pin && ins != INS_VERIFY_PIN then KeyId(ins, got + rest) else Opcode,
                    [PinStatus(d, got + rest)])
    decreases |rest|
  {
    hide CipherBlock, KeyNumber, ToNat, PinStatus;
    if |rest| == 1 {
      assert got + rest == got + [rest[0]];
    } else {
      assert (got + [rest[0]]) + rest[1..] == got + rest;
      PinFeeds(d, ins, got + [rest[0]], rest[1..]);
    }
  }

  lemma {:induction false} BlockFeeds(d: Device, p: Phase, rest: seq<bv8>)
    requires d.Valid() && PhaseOk(p) && p.BlockBytes? && |p.got| + |rest| == BLOCK
    ensures var (result, next) := CipherBlock(d, p.ins, p.key, p.iv, p.got + rest);
            FeedsTo(d, p, rest, if p.left == 1 then Opcode else BlockBytes(p.ins, p.pin, p.key, next, p.left - 1, []),
                    result)
    decreases |rest|
  {
    hide CipherBlock, KeyNumber, ToNat, PinStatus;
    if |rest| == 1 {
      assert p.got + rest == p.got + [rest[0]];
    } else {
      assert (p.got + [rest[0]]) + rest[1..] == p.got + rest;
      BlockFeeds(d, BlockBytes(p.ins, p.pin, p.key, p.iv, p.left, p.got + [rest[0]]), rest[1..]);
    }
  }

  lemma PrependFeeds(d: Device, p: Phase, b: bv8, message: seq<bv8>, phase: Phase, reply: seq<bv8>)
    requires d.Valid() && PhaseOk(p) && message != []
    requires Read(d, p, b).1 == [] && FeedsTo(d, Read(d, p, b).0, message, phase, reply)
    ensures FeedsTo(d, p, [b] + message, phase, reply)
  {
    hide Read;
    assert ([b] + message)[1..] == message;
  }

  // ---- The cipher, block by block ------------------------------------------------------------

  lemma PrefixExtends(data: seq<bv8>, n: nat)
    requires n + BLOCK <= |data|
    ensures data[..n + BLOCK] == data[..n] + data[n..n + BLOCK]
  {
  }

  lemma OneBlockCipher(d: Device, c: Command, n: nat)
    requires d.Valid() && CommandOk(c) && c.Crypt? && n % BLOCK == 0 && n < |c.data|
    ensures n + BLOCK <= |c.data| && (n + BLOCK) % BLOCK == 0
    ensures var (result, next) := CipherBlock(d, Ins(c), c.key, VectorAfter(d, c, n), BlockAt(c, n));
            && Ciphered(d, c)[..n + BLOCK] == Ciphered(d, c)[..n] + result
            && next == VectorAfter(d, c, n + BLOCK)
  {
    hide CbcEncrypt, CbcDecrypt, NextIv;
    RoomForNext(n, |c.data|);
    assert (n + BLOCK) % BLOCK == 0;
    if c.encrypt {
      OneBlockEncrypted(d.keys[c.key], c.data, n);
    } else {
      OneBlockDecrypted(d.keys[c.key], c.data, n);
    }
  }

  lemma VectorAfterBlock(iv: Block, before: seq<bv8>, block: Block)
    requires |before| % BLOCK == 0
    ensures |before + block| % BLOCK == 0
    ensures NextIv(NextIv(iv, before), block) == NextIv(iv, before + block)
  {
    assert (before + block)[|before + block| - BLOCK..] == block;
  }

  lemma OneBlockEncrypted(rk: RoundKeys, data: seq<bv8>, n: nat)
    requires |data| % BLOCK == 0 && n % BLOCK == 0 && n + BLOCK <= |data|
    ensures var before := CbcEncrypt(rk, ZERO_IV, data[..n]);
            var c := CbcEncrypt(rk, NextIv(ZERO_IV, before), data[n..n + BLOCK]);
            var whole := CbcEncrypt(rk, ZERO_IV, data);
            && whole[..n] == before && whole[..n + BLOCK] == before + c
            && NextIv(NextIv(ZERO_IV, before), c) == NextIv(ZERO_IV, CbcEncrypt(rk, ZERO_IV, data[..n + BLOCK]))
  {
    hide CbcEncrypt, NextIv;
    PrefixExtends(data, n);
    CbcEncryptSplit(rk, ZERO_IV, data[..n], data[n..n + BLOCK]);
    assert data == data[..n + BLOCK] + data[n + BLOCK..];
    CbcEncryptSplit(rk, ZERO_IV, data[..n + BLOCK], data[n + BLOCK..]);
    var before := CbcEncrypt(rk, ZERO_IV, data[..n]);
    var c := CbcEncrypt(rk, NextIv(ZERO_IV, before), data[n..n + BLOCK]);
    VectorAfterBlock(ZERO_IV, before, c);
  }

  lemma OneBlockDecrypted(rk: RoundKeys, data: seq<bv8>, n: nat)
    requires |data| % BLOCK == 0 && n % BLOCK == 0 && n + BLOCK <= |data|
    ensures var before := CbcDecrypt(rk, ZERO_IV, data[..n]);
            var p := CbcDecrypt(rk, NextIv(ZERO_IV, data[..n]), data[n..n + BLOCK]);
            var whole := CbcDecrypt(rk, ZERO_IV, data);
            && whole[..n] == before && whole[..n + BLOCK] == before + p
            && NextIv(NextIv(ZERO_IV, data[..n]), data[n..n + BLOCK]) == NextIv(ZERO_IV, data[..n + BLOCK])
  {
    hide CbcDecrypt, NextIv;
    PrefixExtends(data, n);
    CbcDecryptSplit(rk, ZERO_IV, data[..n], data[n..n + BLOCK]);
    assert data == data[..n + BLOCK] + data[n + BLOCK..];
    CbcDecryptSplit(rk, ZERO_IV, data[..n + BLOCK], data[n + BLOCK..]);
    VectorAfterBlock(ZERO_IV, data[..n], data[n..n + BLOCK]);
  }

  // ---- What every step keeps -------------------------------------------------------------------

  /** What the security processor has still to read, and the main one to receive. */
  function Pending(s: System): seq<bv8> {
    s.secRing + s.toSec + s.mcu.out
  }

  function Returning(s: System): seq<bv8> {
    s.mcu.got + s.mcuRing + s.toMcu + s.secOut
  }

  ghost predicate AnswersRight(d: Device, m: Mcu)
    requires d.Valid() && McuOk(m)
  {
    && |m.answers| + (if m.stage.Idle? then 0 else 1) == m.next
    && (forall i :: 0 <= i < |m.answers| ==> m.answers[i] == Expected(d, m.commands[i]))
    && (!m.stage.Idle? ==> m.stage.c == m.commands[m.next - 1])
  }

  ghost predicate InStep(d: Device, s: System)
    requires d.Valid() && SystemOk(s)
  {
    if s.mcu.stage.Idle? then Pending(s) == [] && Returning(s) == [] && s.phase == Opcode
    else if Pending(s) != [] then
      && Returning(s) == [] && |Pending(s)| <= 1 + BLOCK
      && FeedsTo(d, s.phase, Pending(s), Then(d, s.mcu.stage), Reply(d, s.mcu.stage))
    else
      && s.phase == Then(d, s.mcu.stage)
      && Returning(s) == Reply(d, s.mcu.stage) && |s.mcu.got| < |Returning(s)|
  }

  ghost predicate Inv(d: Device, s: System)
    requires d.Valid()
  {
    SystemOk(s) && Knows(d, s.mcu.stage) && AnswersRight(d, s.mcu) && InStep(d, s)
  }

  lemma ReplySize(d: Device, s: Stage)
    requires d.Valid() && StageOk(s) && !s.Idle?
    ensures |Reply(d, s)| == if s.AwaitBlock? then BLOCK else 1
  {
  }

  lemma BeginsInStep(d: Device, s: System)
    requires d.Valid() && Inv(d, s) && Enabled(s, McuBegins)
    ensures Inv(d, Step(d, s, McuBegins))
  {
    hide CipherBlock, Ciphered, Expected, VectorAfter, PinStatus;
    var s' := Step(d, s, McuBegins);
    var c := s.mcu.commands[s.mcu.next];
    assert Pending(s') == [Ins(c)] + c.pin;
    PinFeeds(d, Ins(c), [], c.pin);
    assert [] + c.pin == c.pin;
    PrependFeeds(d, Opcode, Ins(c), c.pin, Then(d, s'.mcu.stage), Reply(d, s'.mcu.stage));
  }

  lemma SendsInStep(d: Device, s: System)
    requires d.Valid() && Inv(d, s) && Enabled(s, McuSends)
    ensures Inv(d, Step(d, s, McuSends))
  {
    hide FeedsTo, Then, Reply, Knows, AnswersRight, PhaseOk;
    var s' := Step(d, s, McuSends);
    assert Pending(s') == Pending(s);
    assert Returning(s') == Returning(s);
    KeepsAnswers(d, s.mcu, s'.mcu);
  }

  lemma KeepsAnswers(d: Device, m: Mcu, m': Mcu)
    requires d.Valid() && McuOk(m) && McuOk(m') && AnswersRight(d, m)
    requires m' == m.(out := m'.out, got := m'.got)
    ensures AnswersRight(d, m')
  {
  }

  /** At most 17 bytes are ever on their way to the security processor. */
  lemma SecArrivesInStep(d: Device, s: System)
    requires d.Valid() && Inv(d, s) && Enabled(s, SecArrives)
    ensures Inv(d, Step(d, s, SecArrives)) && |s.secRing| < SEC_CAPACITY
  {
    hide FeedsTo, Then, Reply, Knows, AnswersRight, PhaseOk, StageOk, McuOk;
    var s' := Step(d, s, SecArrives);
    assert |Pending(s)| <= 1 + BLOCK;
    assert s.toSec == [s.toSec[0]] + s.toSec[1..];
    assert Pending(s') == Pending(s);
    assert Returning(s') == Returning(s);
  }

  lemma SecReadsInStep(d: Device, s: System)
    requires d.Valid() && Inv(d, s) && Enabled(s, SecReads)
    ensures Inv(d, Step(d, s, SecReads))
  {
    hide Read, Then, Reply, Knows, AnswersRight, PhaseOk, StageOk;
    var s' := Step(d, s, SecReads);
    var p := Pending(s);
    assert p[0] == s.secRing[0];
    assert Pending(s') == p[1..];
    assert Returning(s) == [];
    assert Returning(s') == s'.secOut;
    ReplySize(d, s.mcu.stage);
  }

  lemma SecSendsInStep(d: Device, s: System)
    requires d.Valid() && Inv(d, s) && Enabled(s, SecSends)
    ensures Inv(d, Step(d, s, SecSends))
  {
    hide FeedsTo, Then, Reply, Knows, AnswersRight, PhaseOk, StageOk, McuOk;
    var s' := Step(d, s, SecSends);
    assert s.secOut == [s.secOut[0]] + s.secOut[1..];
    assert Returning(s') == Returning(s);
    assert Pending(s') == Pending(s);
  }

  /** At most 16 bytes are ever on their way to the main processor. */
  lemma McuArrivesInStep(d: Device, s: System)
    requires d.Valid() && Inv(d, s) && Enabled(s, McuArrives)
    ensures Inv(d, Step(d, s, McuArrives)) && |s.mcuRing| < MCU_CAPACITY
  {
    hide FeedsTo, Then, Reply, Knows, AnswersRight, PhaseOk, StageOk;
    var s' := Step(d, s, McuArrives);
    assert s.toMcu == [s.toMcu[0]] + s.toMcu[1..];
    assert Returning(s)[|s.mcu.got + s.mcuRing|] == s.toMcu[0];
    ReplySize(d, s.mcu.stage);
    assert |Returning(s)| <= BLOCK;
    assert Returning(s') == Returning(s);
    assert Pending(s') == Pending(s);
  }

  // ---- The main processor receives -------------------------------------------------------------

  /** When the last byte of a reply is read, nothing is on its way in either direction. */
  lemma LastOfReply(s: System)
    requires Pending(s) == [] && s.mcuRing != [] && |Returning(s)| == |s.mcu.got| + 1
    ensures s.secRing == s.toSec == s.mcu.out == []
    ensures s.mcuRing[1..] == s.toMcu == s.secOut == []
    ensures Returning(s) == s.mcu.got + [s.mcuRing[0]]
  {
  }

  lemma KeyFeeds(d: Device, c: Command)
    requires d.Valid() && CommandOk(c) && c.Crypt?
    ensures FeedsTo(d, KeyId(Ins(c), c.pin), [ToByte(c.key)], Then(d, AwaitKeyAck(c)), Reply(d, AwaitKeyAck(c)))
  {
    hide ToNat, ToByte;
    ByteOfNat(c.key);
  }

  lemma PhaseAfterBlock(d: Device, c: Command, n: nat)
    requires d.Valid() && CommandOk(c) && c.Crypt? && n % BLOCK == 0 && n < |c.data|
    ensures n + BLOCK <= |c.data| && (n + BLOCK) % BLOCK == 0 && (|c.data| - n) / BLOCK >= 1
    ensures PhaseAt(d, c, n + BLOCK) == if (|c.data| - n) / BLOCK == 1 then Opcode
                                        else BlockBytes(Ins(c), c.pin, c.key, VectorAfter(d, c, n + BLOCK),
                                                        (|c.data| - n) / BLOCK - 1, [])
  {
    hide VectorAfter, Ins;
    RoomForNext(n, |c.data|);
    BlocksLeft(|c.data| - n);
  }

  lemma WhileAwaitingBlock(d: Device, c: Command, done: seq<bv8>)
    requires d.Valid() && StageOk(AwaitBlock(c, done))
    ensures PhaseAt(d, c, |done|)
         == BlockBytes(Ins(c), c.pin, c.key, VectorAfter(d, c, |done|), (|c.data| - |done|) / BLOCK, [])
    ensures Then(d, AwaitBlock(c, done)) == PhaseAt(d, c, |done| + BLOCK)
    ensures Reply(d, AwaitBlock(c, done))
         == CipherBlock(d, Ins(c), c.key, VectorAfter(d, c, |done|), BlockAt(c, |done|)).0
  {
  }

  lemma BlockMessageFeeds(d: Device, c: Command, done: seq<bv8>)
    requires d.Valid() && StageOk(AwaitBlock(c, done))
    ensures PhaseOk(PhaseAt(d, c, |done|))
    ensures FeedsTo(d, PhaseAt(d, c, |done|), BlockAt(c, |done|),
                    Then(d, AwaitBlock(c, done)), Reply(d, AwaitBlock(c, done)))
  {
    hide CipherBlock, VectorAfter, Ciphered, FeedsTo, Ins, PhaseAt, Then, Reply, BlockAt;
    var block: Block := BlockAt(c, |done|);
    WhileAwaitingBlock(d, c, done);
    PhaseAfterBlock(d, c, |done|);
    OneBlockCipher(d, c, |done|);
    assert [] + block == block;
    BlockFeeds(d, PhaseAt(d, c, |done|), block);
  }

  lemma BlocksLeft(length: nat)
    requires length >= BLOCK && length % BLOCK == 0
    ensures length / BLOCK >= 1 && (length / BLOCK == 1 <==> length == BLOCK)
    ensures (length - BLOCK) / BLOCK == length / BLOCK - 1
  {
  }

  lemma StartOfBlocks(d: Device, c: Command)
    requires d.Valid() && CommandOk(c) && c.Crypt?
    ensures 1 <= |c.data| / BLOCK <= 16
    ensures PhaseAt(d, c, 0) == BlockBytes(Ins(c), c.pin, c.key, ZERO_IV, |c.data| / BLOCK, [])
    ensures BlockAt(c, 0) == c.data[..BLOCK]
  {
    BlocksLeft(|c.data|);
    assert c.data[..0] == [];
  }

  lemma CountFeeds(d: Device, c: Command)
    requires d.Valid() && CommandOk(c) && c.Crypt?
    ensures |c.data| / BLOCK < 256 && BLOCK <= |c.data|
    ensures FeedsTo(d, BlockCount(Ins(c), c.pin, c.key), [ToByte(|c.data| / BLOCK)] + c.data[..BLOCK],
                    Then(d, AwaitBlock(c, [])), Reply(d, AwaitBlock(c, [])))
  {
    hide ToNat, ToByte, Then, Reply, FeedsTo, PhaseAt, Ins, BlockAt, KeyNumber, CipherBlock;
    StartOfBlocks(d, c);
    BlockMessageFeeds(d, c, []);
    ByteOfNat(|c.data| / BLOCK);
    PrependFeeds(d, BlockCount(Ins(c), c.pin, c.key), ToByte(|c.data| / BLOCK), c.data[..BLOCK],
                 Then(d, AwaitBlock(c, [])), Reply(d, AwaitBlock(c, [])));
  }

  lemma AnsweredRight(d: Device, m: Mcu, a: Answer)
    requires d.Valid() && McuOk(m) && AnswersRight(d, m) && !m.stage.Idle? && a == Expected(d, m.stage.c)
    ensures McuOk(Finish(m, a)) && AnswersRight(d, Finish(m, a))
  {
    hide Expected, CommandOk;
  }

  /** Between two stages nothing is on its way, and the next message, if there is one,
      feeds the security processor. */
  lemma NewMessage(d: Device, s: System)
    requires d.Valid() && SystemOk(s) && !s.mcu.stage.Idle?
    requires s.secRing == s.toSec == s.mcuRing == s.toMcu == s.secOut == s.mcu.got == []
    requires s.mcu.out != [] && |s.mcu.out| <= 1 + BLOCK
    requires FeedsTo(d, s.phase, s.mcu.out, Then(d, s.mcu.stage), Reply(d, s.mcu.stage))
    ensures InStep(d, s)
  {
    hide FeedsTo, Then, Reply;
    assert Pending(s) == s.mcu.out;
    assert Returning(s) == [];
  }

  lemma ResultReceived(d: Device, s: System)
    requires d.Valid() && Inv(d, s) && Enabled(s, McuReads) && s.mcu.stage.AwaitResult?
    ensures Inv(d, Step(d, s, McuReads))
  {
    hide FeedsTo, Ciphered;
    LastOfReply(s);
    assert Returning(s)[0] == s.mcuRing[0];
    AnsweredRight(d, s.mcu, Expected(d, s.mcu.stage.c));
  }

  lemma PinAckReceived(d: Device, s: System)
    requires d.Valid() && Inv(d, s) && Enabled(s, McuReads) && s.mcu.stage.AwaitPinAck?
    ensures Inv(d, Step(d, s, McuReads))
  {
    hide FeedsTo, Ciphered, ToByte, Ins;
    LastOfReply(s);
    assert Returning(s)[0] == s.mcuRing[0];
    var c := s.mcu.stage.c;
    if c.pin == d.pin {
      KeyFeeds(d, c);
      NewMessage(d, Step(d, s, McuReads));
    } else {
      AnsweredRight(d, s.mcu, PinInvalid);
    }
  }

  lemma KeyAckReceived(d: Device, s: System)
    requires d.Valid() && Inv(d, s) && Enabled(s, McuReads) && s.mcu.stage.AwaitKeyAck?
    ensures Inv(d, Step(d, s, McuReads))
  {
    hide FeedsTo, Ciphered, ToByte, Ins, CipherBlock, Locked;
    LastOfReply(s);
    assert Returning(s)[0] == s.mcuRing[0];
    var c := s.mcu.stage.c;
    if Locked(c.key) {
      AnsweredRight(d, s.mcu, KeyIsLocked);
    } else {
      CountFeeds(d, c);
      NewMessage(d, Step(d, s, McuReads));
    }
  }

  lemma BlockReceived(d: Device, s: System)
    requires d.Valid() && Inv(d, s) && Enabled(s, McuReads) && s.mcu.stage.AwaitBlock? && |s.mcu.got| + 1 == BLOCK
    ensures Inv(d, Step(d, s, McuReads))
  {
    hide FeedsTo, Ciphered, ToByte, Ins, CipherBlock, Locked, VectorAfter, Then;
    var c, done := s.mcu.stage.c, s.mcu.stage.done;
    ReplySize(d, s.mcu.stage);
    LastOfReply(s);
    WhileAwaitingBlock(d, c, done);
    OneBlockCipher(d, c, |done|);
    var all := done + (s.mcu.got + [s.mcuRing[0]]);
    assert all == Ciphered(d, c)[..|all|];
    if |all| >= |c.data| {
      assert all == Ciphered(d, c);
      AnsweredRight(d, s.mcu, Blocks(all));
    } else {
      BlockMessageFeeds(d, c, all);
      NewMessage(d, Step(d, s, McuReads));
    }
  }

  lemma PartReceived(m: Mcu, b: bv8)
    requires McuOk(m) && m.stage.AwaitBlock? && |m.got| + 1 < BLOCK
    ensures Receive(m, b) == m.(got := m.got + [b]) && McuOk(Receive(m, b))
  {
    hide ToByte, CommandOk;
  }

  lemma MovedByte(got: seq<bv8>, ring: seq<bv8>, line: seq<bv8>, out: seq<bv8>)
    requires ring != []
    ensures (got + [ring[0]]) + ring[1..] + line + out == got + ring + line + out
  {
  }

  lemma PartOfBlockReceived(d: Device, s: System)
    requires d.Valid() && Inv(d, s) && Enabled(s, McuReads) && s.mcu.stage.AwaitBlock? && |s.mcu.got| + 1 < BLOCK
    ensures Inv(d, Step(d, s, McuReads))
    ensures Pending(Step(d, s, McuReads)) == Pending(s) == []
  {
    hide FeedsTo, Ciphered, Then, Reply, Expected, AnswersRight, PhaseOk, StageOk, Receive, Knows;
    PartReceived(s.mcu, s.mcuRing[0]);
    var s' := Step(d, s, McuReads);
    assert s'.mcu.out == s.mcu.out && s'.mcu.got == s.mcu.got + [s.mcuRing[0]];
    MovedByte(s.mcu.got, s.mcuRing, s.toMcu, s.secOut);
    assert Returning(s') == Returning(s);
    assert Pending(s') == Pending(s);
    assert |Returning(s)| > 0;
    ReplySize(d, s.mcu.stage);
    KeepsAnswers(d, s.mcu, s'.mcu);
  }

  // ---- Runs ----------------------------------------------------------------------------------

  lemma StepKeepsInv(d: Device, s: System, e: Event)
    requires d.Valid() && Inv(d, s) && Enabled(s, e)
    ensures Inv(d, Step(d, s, e))
  {
    hide Inv, Step, SystemOk;
    match e {
      case McuBegins => BeginsInStep(d, s);
      case McuSends => SendsInStep(d, s);
      case SecArrives => SecArrivesInStep(d, s);
      case SecReads => SecReadsInStep(d, s);
      case SecSends => SecSendsInStep(d, s);
      case McuArrives => McuArrivesInStep(d, s);
      case McuReads => ReadsInStep(d, s);
    }
  }

  lemma ReadsInStep(d: Device, s: System)
    requires d.Valid() && Inv(d, s) && Enabled(s, McuReads)
    ensures Inv(d, Step(d, s, McuReads))
  {
    hide Step, Knows, AnswersRight, InStep;
    match s.mcu.stage {
      case AwaitResult(_) => ResultReceived(d, s);
      case AwaitPinAck(_) => PinAckReceived(d, s);
      case AwaitKeyAck(_) => KeyAckReceived(d, s);
      case AwaitBlock(_, _) =>
        if |s.mcu.got| + 1 == BLOCK {
          BlockReceived(d, s);
        } else {
          PartOfBlockReceived(d, s);
        }
    }
  }

  ghost predicate CommandsOk(commands: seq<Command>) {
    forall i :: 0 <= i < |commands| ==> CommandOk(commands[i])
  }

  function Start(commands: seq<Command>): System {
    System(Mcu(commands, 0, Idle, [], [], []), [], [], Opcode, [], [], [])
  }

  ghost predicate Run(d: Device, commands: seq<Command>, run: seq<System>)
    requires d.Valid()
  {
    && run != [] && run[0] == Start(commands)
    && forall n :: 0 <= n < |run| - 1 ==>
         exists e :: SystemOk(run[n]) && Enabled(run[n], e) && run[n + 1] == Step(d, run[n], e)
  }

  /** Safety over every run, whatever the order of the steps. */
  lemma {:induction false} EveryRunKeepsInv(d: Device, commands: seq<Command>, run: seq<System>, n: nat)
    requires d.Valid() && CommandsOk(commands) && Run(d, commands, run) && n < |run|
    ensures Inv(d, run[n]) && run[n].mcu.commands == commands
    decreases n
  {
    hide Inv, Step, SystemOk;
    if n == 0 {
      StartInv(d, commands);
    } else {
      EveryRunKeepsInv(d, commands, run, n - 1);
      var i := n - 1;
      var e :| SystemOk(run[i]) && Enabled(run[i], e) && run[i + 1] == Step(d, run[i], e);
      StepKeepsInv(d, run[i], e);
      SameCommands(d, run[i], e);
    }
  }

  lemma StartInv(d: Device, commands: seq<Command>)
    requires d.Valid() && CommandsOk(commands)
    ensures Inv(d, Start(commands))
  {
  }

  lemma SameCommands(d: Device, s: System, e: Event)
    requires d.Valid() && SystemOk(s) && Enabled(s, e)
    ensures Step(d, s, e).mcu.commands == s.mcu.commands
  {
    hide Read, Ciphered;
  }

  // ---- Progress --------------------------------------------------------------------------------

  /** The steps from sending a key number to the end of the command. */
  function KeyWork(c: Command): nat
    requires c.Crypt?
  {
    3 + 3 + AfterKey(c)
  }

  function AfterKey(c: Command): nat
    requires c.Crypt?
  {
    if Locked(c.key) then 0 else 3 * (1 + BLOCK) + 3 * BLOCK + AfterBlocks(|c.data| - BLOCK)
  }

  /** The steps that remain of a command once the reply that is awaited is received. */
  function After(d: Device, s: Stage): nat
    requires d.Valid() && StageOk(s)
  {
    match s
    case Idle => 0
    case AwaitResult(_) => 0
    case AwaitPinAck(c) => if c.pin == d.pin then KeyWork(c) else 0
    case AwaitKeyAck(c) => AfterKey(c)
    case AwaitBlock(c, done) => AfterBlocks(|c.data| - |done| - BLOCK)
  }

  function AfterBlocks(length: int): nat {
    if length < BLOCK then 0 else 6 * BLOCK * (length / BLOCK)
  }

  /** All the steps of one command. */
  function CommandWork(d: Device, c: Command): nat
    requires d.Valid() && CommandOk(c)
  {
    1 + 3 * (1 + PIN_LENGTH) + 3 + After(d, if c.VerifyPin? then AwaitResult(c) else AwaitPinAck(c))
  }

  function CommandsWork(d: Device, commands: seq<Command>, next: nat): nat
    requires d.Valid() && next <= |commands| && (forall i :: 0 <= i < |commands| ==> CommandOk(commands[i]))
    decreases |commands| - next
  {
    if next == |commands| then 0 else CommandWork(d, commands[next]) + CommandsWork(d, commands, next + 1)
  }

  /** The steps that remain: three for every byte that is still to travel. */
  function Work(d: Device, s: System): nat
    requires d.Valid() && SystemOk(s)
  {
    3 * |s.mcu.out| + 2 * |s.toSec| + |s.secRing|
    + (if Pending(s) != [] then 3 * |Reply(d, s.mcu.stage)| else 3 * |s.secOut| + 2 * |s.toMcu| + |s.mcuRing|)
    + After(d, s.mcu.stage) + CommandsWork(d, s.mcu.commands, s.mcu.next)
  }

  lemma BeginWork(d: Device, s: System)
    requires d.Valid() && Inv(d, s) && Enabled(s, McuBegins)
    ensures SystemOk(Step(d, s, McuBegins)) && Work(d, Step(d, s, McuBegins)) == Work(d, s) - 1
  {
    hide CipherBlock, Ciphered, Expected, VectorAfter, PinStatus, FeedsTo, After, CommandOk;
    BeginsInStep(d, s);
    var s' := Step(d, s, McuBegins);
    assert |Pending(s')| == |[Ins(s.mcu.commands[s.mcu.next])] + s.mcu.commands[s.mcu.next].pin|;
    PinLengthOf(s.mcu.commands[s.mcu.next]);
    ReplySize(d, s'.mcu.stage);
    AfterIdle(d);
  }

  lemma PinLengthOf(c: Command)
    requires CommandOk(c)
    ensures |c.pin| == PIN_LENGTH
  {
  }

  lemma AfterIdle(d: Device)
    requires d.Valid()
    ensures After(d, Idle) == 0 && Reply(d, Idle) == []
  {
  }

  /** Moving a byte one place further is one step less. */
  lemma RequestWork(d: Device, s: System, e: Event)
    requires d.Valid() && Inv(d, s) && Enabled(s, e) && (e.McuSends? || e.SecArrives?)
    ensures SystemOk(Step(d, s, e)) && Work(d, Step(d, s, e)) == Work(d, s) - 1
  {
    hide FeedsTo, Then, Reply, Knows, AnswersRight, PhaseOk, StageOk, After, CommandsWork;
    var s' := Step(d, s, e);
    if e.SecArrives? {
      SecArrivesInStep(d, s);
      assert Pending(s')[|s.secRing|] == s.toSec[0];
    } else {
      assert Pending(s')[|s.secRing + s.toSec|] == s.mcu.out[0];
    }
  }

  lemma ReplyWork(d: Device, s: System, e: Event)
    requires d.Valid() && Inv(d, s) && Enabled(s, e) && (e.SecSends? || e.McuArrives?)
    ensures SystemOk(Step(d, s, e)) && Work(d, Step(d, s, e)) == Work(d, s) - 1
  {
    hide FeedsTo, Then, Reply, Knows, AnswersRight, PhaseOk, StageOk, After, CommandsWork;
    var s' := Step(d, s, e);
    if e.McuArrives? {
      McuArrivesInStep(d, s);
      assert Returning(s)[|s.mcu.got + s.mcuRing|] == s.toMcu[0];
    } else {
      assert Returning(s)[|s.mcu.got + s.mcuRing + s.toMcu|] == s.secOut[0];
    }
    assert Pending(s) == [] && Pending(s') == [];
  }

  lemma SecReadsWork(d: Device, s: System)
    requires d.Valid() && Inv(d, s) && Enabled(s, SecReads)
    ensures SystemOk(Step(d, s, SecReads)) && Work(d, Step(d, s, SecReads)) == Work(d, s) - 1
  {
    hide Read, Then, Reply, Knows, AnswersRight, PhaseOk, StageOk, After, CommandsWork;
    SecReadsInStep(d, s);
    var s' := Step(d, s, SecReads);
    assert Pending(s)[0] == s.secRing[0];
    assert Pending(s') == Pending(s)[1..];
    assert Returning(s) == [] && Returning(s') == s'.secOut;
  }

  lemma PartOfBlockWork(d: Device, s: System)
    requires d.Valid() && Inv(d, s) && Enabled(s, McuReads) && s.mcu.stage.AwaitBlock? && |s.mcu.got| + 1 < BLOCK
    ensures SystemOk(Step(d, s, McuReads)) && Work(d, Step(d, s, McuReads)) == Work(d, s) - 1
  {
    hide Inv, Reply, After, CommandsWork, Receive, StageOk, PhaseOk, Pending;
    PartOfBlockReceived(d, s);
    InvOk(d, s);
    InvOk(d, Step(d, s, McuReads));
    PartReceived(s.mcu, s.mcuRing[0]);
  }

  lemma AfterBlocksStep(length: nat)
    requires length >= BLOCK && length % BLOCK == 0
    ensures AfterBlocks(length) == 6 * BLOCK + AfterBlocks(length - BLOCK)
  {
    BlocksLeft(length);
  }

  lemma QuietWork(d: Device, s: System)
    requires d.Valid() && SystemOk(s)
    requires s.secRing == s.toSec == s.toMcu == s.secOut == []
    ensures Work(d, s) == 3 * |s.mcu.out| + (if s.mcu.out != [] then 3 * |Reply(d, s.mcu.stage)| else |s.mcuRing|)
                          + After(d, s.mcu.stage) + CommandsWork(d, s.mcu.commands, s.mcu.next)
  {
    hide Reply, After, CommandsWork, SystemOk;
    assert Pending(s) == s.mcu.out;
  }

  /** Sending the next message and receiving its reply is what remains. */
  lemma ReceiveWork(d: Device, m: Mcu, b: bv8)
    requires d.Valid() && McuOk(m) && m.out == [] && !m.stage.Idle?
    requires m.stage.AwaitBlock? ==> |m.got| + 1 == BLOCK
    requires Knows(d, m.stage) && Reply(d, m.stage) == m.got + [b]
    ensures var m' := Receive(m, b);
            && StageOk(m'.stage)
            && 3 * |m'.out| + (if m'.out != [] then 3 * |Reply(d, m'.stage)| else 0) + After(d, m'.stage)
               == After(d, m.stage)
  {
    hide Ciphered, CipherBlock, VectorAfter, Expected, ToByte, AfterBlocks;
    var m' := Receive(m, b);
    ReplySize(d, m.stage);
    if m.stage.AwaitBlock? {
      var left := |m.stage.c.data| - |m.stage.done| - BLOCK;
      RoomForNext(|m.stage.done|, |m.stage.c.data|);
      assert |m.stage.done + (m.got + [b])| == |m.stage.done| + BLOCK;
      if left > 0 {
        RoomForNext(|m.stage.done| + BLOCK, |m.stage.c.data|);
        AfterBlocksStep(left);
      } else {
        NoBlocksLeft();
      }
    } else {
      assert b == Reply(d, m.stage)[0];
    }
    if !m'.stage.Idle? {
      ReplySize(d, m'.stage);
    }
  }

  lemma NoBlocksLeft()
    ensures AfterBlocks(0) == 0
  {
  }

  lemma WholeReplyWork(d: Device, s: System)
    requires d.Valid() && Inv(d, s) && Enabled(s, McuReads)
    requires s.mcu.stage.AwaitBlock? ==> |s.mcu.got| + 1 == BLOCK
    ensures SystemOk(Step(d, s, McuReads)) && Work(d, Step(d, s, McuReads)) == Work(d, s) - 1
  {
    hide FeedsTo, Reply, After, CommandsWork, Work, Receive, Then, Knows, AnswersRight;
    ReadsInStep(d, s);
    ReplySize(d, s.mcu.stage);
    assert Returning(s)[|s.mcu.got|] == s.mcuRing[0];
    LastOfReply(s);
    ReceiveWork(d, s.mcu, s.mcuRing[0]);
    ReceiveKeepsCommands(s.mcu, s.mcuRing[0]);
    QuietWork(d, s);
    QuietWork(d, Step(d, s, McuReads));
  }

  lemma ReceiveKeepsCommands(m: Mcu, b: bv8)
    requires McuOk(m) && !m.stage.Idle?
    ensures Receive(m, b).commands == m.commands && Receive(m, b).next == m.next
  {
  }

  lemma StepWork(d: Device, s: System, e: Event)
    requires d.Valid() && Inv(d, s) && Enabled(s, e)
    ensures SystemOk(Step(d, s, e)) && Work(d, Step(d, s, e)) == Work(d, s) - 1
  {
    hide Step, Work, Knows, AnswersRight, InStep;
    match e {
      case McuBegins => BeginWork(d, s);
      case SecReads => SecReadsWork(d, s);
      case McuReads =>
        if s.mcu.stage.AwaitBlock? && |s.mcu.got| + 1 < BLOCK {
          PartOfBlockWork(d, s);
        } else {
          WholeReplyWork(d, s);
        }
      case McuSends => RequestWork(d, s, e);
      case SecArrives => RequestWork(d, s, e);
      case SecSends => ReplyWork(d, s, e);
      case McuArrives => ReplyWork(d, s, e);
    }
  }

  ghost predicate Finished(s: System) {
    s.mcu.stage.Idle? && s.mcu.next == |s.mcu.commands|
  }

  /** No deadlock: until all commands are answered, one side can make a step. */
  lemma CanStep(d: Device, s: System) returns (e: Event)
    requires d.Valid() && Inv(d, s) && !Finished(s)
    ensures Enabled(s, e)
  {
    hide FeedsTo, Then, Reply, Knows, AnswersRight;
    if s.mcu.stage.Idle? {
      assert Pending(s) == [];
      e := McuBegins;
    } else if Pending(s) != [] {
      e := if s.mcu.out != [] then McuSends else if s.toSec != [] then SecArrives else SecReads;
    } else {
      e := if s.secOut != [] then SecSends else if s.toMcu != [] then McuArrives else McuReads;
    }
  }

  lemma IdleIsQuiet(d: Device, s: System)
    requires d.Valid() && Inv(d, s) && s.mcu.stage.Idle?
    ensures Quiet(s)
  {
    hide Knows, AnswersRight, McuOk;
    assert |Pending(s)| == 0 && |Returning(s)| == 0;
  }

  ghost predicate AllRight(d: Device, commands: seq<Command>, answers: seq<Answer>)
    requires d.Valid() && CommandsOk(commands)
  {
    |answers| <= |commands| && forall i :: 0 <= i < |answers| ==> answers[i] == Expected(d, commands[i])
  }

  lemma IdleAnswers(d: Device, s: System)
    requires d.Valid() && Inv(d, s) && s.mcu.stage.Idle?
    ensures CommandsOk(s.mcu.commands) && |s.mcu.answers| == s.mcu.next && AllRight(d, s.mcu.commands, s.mcu.answers)
  {
    hide Knows, InStep, Expected, PhaseOk, CommandOk;
    assert SystemOk(s) && McuOk(s.mcu);
  }

  /** The security processor waits for an opcode and no byte is on its way. */
  predicate Quiet(s: System) {
    && s.phase == Opcode
    && s.mcu.out == s.toSec == s.secRing == s.secOut == s.toMcu == s.mcuRing == []
  }

  /** Whenever the main processor is between two commands, the security processor waits
      for an opcode and no byte is on its way: so the flush discards nothing. */
  lemma BetweenCommands(d: Device, commands: seq<Command>, run: seq<System>, n: nat)
    requires d.Valid() && CommandsOk(commands) && Run(d, commands, run) && n < |run|
    requires run[n].mcu.stage.Idle?
    ensures Quiet(run[n])
    ensures |run[n].mcu.answers| == run[n].mcu.next && AllRight(d, commands, run[n].mcu.answers)
  {
    hide Run, Inv, Quiet, AllRight;
    EveryRunKeepsInv(d, commands, run, n);
    IdleIsQuiet(d, run[n]);
    IdleAnswers(d, run[n]);
  }

  /** Neither receive buffer ever fills: at most 17 bytes are on their way one way and at
      most 16 the other, in every state of every run. */
  lemma NothingDropped(d: Device, commands: seq<Command>, run: seq<System>, n: nat)
    requires d.Valid() && CommandsOk(commands) && Run(d, commands, run) && n < |run|
    ensures |run[n].secRing| + |run[n].toSec| <= 1 + BLOCK < SEC_CAPACITY
    ensures |run[n].mcuRing| + |run[n].toMcu| <= BLOCK < MCU_CAPACITY
  {
    hide Run, FeedsTo, Then, Reply, Knows, AnswersRight;
    EveryRunKeepsInv(d, commands, run, n);
    var s := run[n];
    assert |Pending(s)| == |s.secRing| + |s.toSec| + |s.mcu.out|;
    assert |Returning(s)| == |s.mcu.got| + |s.mcuRing| + |s.toMcu| + |s.secOut|;
    if !s.mcu.stage.Idle? {
      ReplySize(d, s.mcu.stage);
    }
  }

  lemma {:induction false} EveryRunWork(d: Device, commands: seq<Command>, run: seq<System>, n: nat)
    requires d.Valid() && CommandsOk(commands) && Run(d, commands, run) && n < |run|
    ensures SystemOk(run[n]) && SystemOk(Start(commands))
    ensures Work(d, run[n]) == Work(d, Start(commands)) - n
    decreases n
  {
    hide Inv, Step, SystemOk, Work, Start;
    EveryRunKeepsInv(d, commands, run, n);
    InvOk(d, run[n]);
    StartInv(d, commands);
    InvOk(d, Start(commands));
    if n > 0 {
      EveryRunWork(d, commands, run, n - 1);
      EveryRunKeepsInv(d, commands, run, n - 1);
      var i := n - 1;
      var e :| SystemOk(run[i]) && Enabled(run[i], e) && run[i + 1] == Step(d, run[i], e);
      StepWork(d, run[i], e);
    }
  }

  lemma InvOk(d: Device, s: System)
    requires d.Valid() && Inv(d, s)
    ensures SystemOk(s)
  {
  }

  lemma {:induction false} NoCommandsNoWork(d: Device, s: System)
    requires d.Valid() && Inv(d, s) && Finished(s)
    ensures Work(d, s) == 0
  {
    hide Knows, AnswersRight;
    assert |Pending(s)| == 0 && |Returning(s)| == 0;
  }

  /** Main result: however the steps of the two processors and of the lines interleave,
      a run that cannot be continued has made a number of steps that depends on the
      commands alone, has answered every command as expected, and has left the security
      processor waiting for an opcode with nothing on its way. */
  lemma EveryRunAnswers(d: Device, commands: seq<Command>, run: seq<System>)
    requires d.Valid() && CommandsOk(commands) && Run(d, commands, run)
    ensures SystemOk(Start(commands)) && |run| <= Work(d, Start(commands)) + 1
    ensures var last := run[|run| - 1];
            (forall e :: !Enabled(last, e)) ==>
              && |run| == Work(d, Start(commands)) + 1
              && |last.mcu.answers| == |commands| && AllRight(d, commands, last.mcu.answers)
              && AllTold(d, commands, last.mcu.answers)
              && Quiet(last)
  {
    hide Run, Inv, Enabled, Work, Start, SystemOk, Quiet, AllRight, CommandsOk, AllTold;
    var n := |run| - 1;
    RunNotEmpty(d, commands, run);
    EveryRunWork(d, commands, run, n);
    EveryRunKeepsInv(d, commands, run, n);
    if forall e :: !Enabled(run[n], e) {
      StuckIsFinished(d, run[n]);
      BetweenCommands(d, commands, run, n);
      NoCommandsNoWork(d, run[n]);
      RightIsTold(d, commands, run[n].mcu.answers);
    }
  }

  lemma StuckIsFinished(d: Device, s: System)
    requires d.Valid() && Inv(d, s) && forall e :: !Enabled(s, e)
    ensures Finished(s)
  {
    hide Inv, Enabled;
    if !Finished(s) {
      var e := CanStep(d, s);
      assert false;
    }
  }

  lemma RunNotEmpty(d: Device, commands: seq<Command>, run: seq<System>)
    requires d.Valid() && Run(d, commands, run)
    ensures run != []
  {
  }

  // ---- What the client gets ------------------------------------------------------------------------

  /** Decrypting what an encryption returned gives the data back, and conversely. */
  lemma DecryptUndoesEncrypt(d: Device, c: Command, c': Command)
    requires d.Valid() && CommandOk(c) && c.Crypt? && c.pin == d.pin && !Locked(c.key)
    requires c' == Crypt(!c.encrypt, c.pin, c.key, Ciphered(d, c))
    ensures CommandOk(c') && Expected(d, c) == Blocks(c'.data) && Expected(d, c') == Blocks(c.data)
  {
    hide CbcEncrypt, CbcDecrypt;
    if c.encrypt {
      CbcRoundTrip(d.keys[c.key], ZERO_IV, c.data);
    } else {
      CbcRoundTripBack(d.keys[c.key], ZERO_IV, c.data);
    }
  }
}
