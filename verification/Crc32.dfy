/** The CRC-32 of the modified node (the polynomial of section 8 of RFC 1952), and the
    contract that inverts it one byte at a time. */
module Crc32 {

  // ---- Words --------------------------------------------------------------------------

  function Flip(v: bv32): bv32 {
    !v
  }

  function Mix(v: bv32, w: bv32): bv32 {
    v ^ w
  }

  function Half(v: bv32): bv32 {
    v >> 1
  }

  predicate Odd(v: bv32) {
    v & 1 == 1
  }

  lemma FlipTwice(v: bv32)
    ensures Flip(Flip(v)) == v
  {
  }

  lemma MixTwice(v: bv32, w: bv32)
    ensures Mix(v, Mix(v, w)) == w
  {
  }

  // ---- One bit ------------------------------------------------------------------------

  function Step(v: bv32): bv32 {
    (v >> 1) ^ (0xEDB88320 & (0 - (v & 1)))
  }

  /** The state before a step: the top bit tells whether the polynomial was added. */
  function Unstep(w: bv32): bv32 {
    if w & 0x80000000 != 0 then ((w ^ 0xEDB88320) << 1) | 1 else w << 1
  }

  lemma StepBijective(v: bv32)
    ensures Unstep(Step(v)) == v && Step(Unstep(v)) == v
  {
    UnstepOfStep(v);
    StepOfUnstep(v);
  }

  lemma UnstepOfStep(v: bv32)
    ensures Unstep(Step(v)) == v
  {
    hide Unstep, Step, Half, Odd, Mix;
    StepByCase(v);
    Halved(v);
    if Odd(v) {
      UnstepOfMixed(Half(v));
    } else {
      UnstepOfShifted(Half(v));
    }
  }

  lemma StepByCase(v: bv32)
    ensures Step(v) == if Odd(v) then Mix(Half(v), 0xEDB88320) else Half(v)
  {
    if v & 1 == 1 {
      assert 0 - (v & 1) == 0xFFFFFFFF;
    } else {
      assert v & 1 == 0;
    }
  }

  lemma Halved(v: bv32)
    ensures Half(v) < 0x80000000
    ensures (Half(v) << 1) | (if Odd(v) then 1 else 0) == v
  {
  }

  lemma UnstepOfMixed(x: bv32)
    requires x < 0x80000000
    ensures Unstep(Mix(x, 0xEDB88320)) == (x << 1) | 1
  {
    assert (x ^ 0xEDB88320) & 0x80000000 != 0;
    assert (x ^ 0xEDB88320) ^ 0xEDB88320 == x;
  }

  lemma UnstepOfShifted(x: bv32)
    requires x < 0x80000000
    ensures Unstep(x) == (x << 1) | 0
  {
    assert x & 0x80000000 == 0;
  }

  lemma Doubled(x: bv32)
    requires x < 0x80000000
    ensures Half((x << 1) | 1) == x && Odd((x << 1) | 1)
    ensures Half(x << 1) == x && !Odd(x << 1)
  {
  }

  lemma TopBitOut(w: bv32)
    ensures w & 0x80000000 != 0 ==> w ^ 0xEDB88320 < 0x80000000 && Mix(w ^ 0xEDB88320, 0xEDB88320) == w
    ensures w & 0x80000000 == 0 ==> w < 0x80000000
  {
  }

  lemma StepOfUnstep(w: bv32)
    ensures Step(Unstep(w)) == w
  {
    hide Step, Half, Odd, Mix;
    TopBitOut(w);
    StepByCase(Unstep(w));
    if w & 0x80000000 != 0 {
      Doubled(w ^ 0xEDB88320);
    } else {
      Doubled(w);
    }
  }

  function Steps(v: bv32, n: nat): bv32 {
    if n == 0 then v else Step(Steps(v, n - 1))
  }

  function Unsteps(w: bv32, n: nat): bv32
    decreases n
  {
    if n == 0 then w else Unsteps(Unstep(w), n - 1)
  }

  /** Any number of steps is a bijection on the 32-bit states. */
  lemma {:induction false} StepsBijective(v: bv32, n: nat)
    ensures Unsteps(Steps(v, n), n) == v && Steps(Unsteps(v, n), n) == v
    decreases n
  {
    hide Step, Unstep;
    if n > 0 {
      StepsBijective(v, n - 1);
      StepBijective(Steps(v, n - 1));
      StepsBijective(Unstep(v), n - 1);
      StepBijective(v);
    }
  }

  // ---- Bytes --------------------------------------------------------------------------

  /** A plain char of the host, widened to 32 bits: its sign is kept. */
  function Widened(b: bv8): bv32 {
    if b >= 0x80 then 0xFFFFFF00 | (b as bv32) else b as bv32
  }

  /** The register after the bytes of data. */
  function Register(data: seq<bv8>, v: bv32): bv32 {
    if data == [] then v
    else Steps(Mix(Register(data[..|data| - 1], v), Widened(data[|data| - 1])), 8)
  }

  function CrcOf(data: seq<bv8>, value: bv32): bv32 {
    Flip(Register(data, Flip(value)))
  }

  lemma {:induction false} RegisterAppend(a: seq<bv8>, b: seq<bv8>, v: bv32)
    ensures Register(a + b, v) == Register(b, Register(a, v))
  {
    hide Steps, Widened, Mix;
    if b == [] {
      assert a + b == a;
    } else {
      assert (a + b)[..|a + b| - 1] == a + b[..|b| - 1];
      RegisterAppend(a, b[..|b| - 1], v);
    }
  }

  /** The CRC of a whole continues the CRC of its first part. */
  lemma CrcChains(a: seq<bv8>, b: seq<bv8>, value: bv32)
    ensures CrcOf(a + b, value) == CrcOf(b, CrcOf(a, value))
  {
    hide Register, Flip;
    RegisterAppend(a, b, Flip(value));
    FlipTwice(Register(a, Flip(value)));
  }

  /** The node's crc32. */
  method Crc32Intrinsic(data: seq<bv8>, value: bv32) returns (crc: bv32)
    ensures crc == CrcOf(data, value)
  {
    hide Steps, Widened, Flip, Mix;
    var v := Flip(value);
    var i := 0;
    assert data[..0] == [];
    while i < |data|
      invariant 0 <= i <= |data| && v == Register(data[..i], Flip(value))
    {
      v := Mix(v, Widened(data[i]));
      v := EightSteps(v);
      assert data[..i + 1][..i] == data[..i];
      i := i + 1;
    }
    assert data[..i] == data;
    crc := Flip(v);
  }

  method EightSteps(v0: bv32) returns (v: bv32)
    ensures v == Steps(v0, 8)
  {
    hide Step;
    v := v0;
    var bitpos := 0;
    while bitpos < 8
      invariant 0 <= bitpos <= 8 && v == Steps(v0, bitpos)
    {
      v := Step(v);
      bitpos := bitpos + 1;
    }
  }

  // ---- The standard's routine -----------------------------------------------------------

  /** Section 8 of RFC 1952: the entry of its table for n. */
  function TableEntry(c: bv32, n: nat): bv32
    decreases n
  {
    if n == 0 then c
    else TableEntry(if Odd(c) then Mix(0xEDB88320, Half(c)) else Half(c), n - 1)
  }

  /** One byte at a time through the table. */
  function UpdateCrc(data: seq<bv8>, c: bv32): bv32
    decreases |data|
  {
    if data == [] then c
    else UpdateCrc(data[1..], Mix(TableEntry(LowByte(Mix(c, data[0] as bv32)), 8), c >> 8))
  }

  function StandardCrc(data: seq<bv8>): bv32 {
    Flip(UpdateCrc(data, 0xFFFFFFFF))
  }

  function LowByte(v: bv32): bv32 {
    v & 0xFF
  }

  function HighBytes(v: bv32): bv32 {
    v & 0xFFFFFF00
  }

  lemma {:induction false} TableEntryIsSteps(c: bv32, n: nat)
    ensures TableEntry(c, n) == Steps(c, n)
    decreases n
  {
    hide Step, Half, Odd, Mix;
    if n > 0 {
      StepByCase(c);
      MixCommutes(Half(c), 0xEDB88320);
      TableEntryIsSteps(Step(c), n - 1);
      StepFirst(c, n - 1);
    }
  }

  lemma {:induction false} StepFirst(c: bv32, n: nat)
    ensures Steps(Step(c), n) == Steps(c, n + 1)
  {
    hide Step;
    if n > 0 {
      StepFirst(c, n - 1);
    }
  }

  lemma MixCommutes(v: bv32, w: bv32)
    ensures Mix(v, w) == Mix(w, v)
  {
  }

  lemma StepLinear(v: bv32, w: bv32)
    ensures Step(Mix(v, w)) == Mix(Step(v), Step(w))
  {
    hide Step, Half, Odd, Mix;
    StepByCase(v);
    StepByCase(w);
    StepByCase(Mix(v, w));
    HalfLinear(v, w);
    OddLinear(v, w);
    MixRegroup(Half(v), Half(w), 0xEDB88320);
  }

  lemma HalfLinear(v: bv32, w: bv32)
    ensures Half(Mix(v, w)) == Mix(Half(v), Half(w))
  {
    assert (v ^ w) >> 1 == (v >> 1) ^ (w >> 1);
  }

  lemma OddLinear(v: bv32, w: bv32)
    ensures Odd(Mix(v, w)) <==> Odd(v) != Odd(w)
  {
  }

  lemma MixRegroup(x: bv32, y: bv32, p: bv32)
    ensures Mix(Mix(x, p), y) == Mix(Mix(x, y), p) == Mix(x, Mix(y, p))
    ensures Mix(Mix(x, p), Mix(y, p)) == Mix(x, y)
  {
  }

  lemma {:induction false} StepsLinear(v: bv32, w: bv32, n: nat)
    ensures Steps(Mix(v, w), n) == Mix(Steps(v, n), Steps(w, n))
    decreases n
  {
    hide Step, Mix;
    if n > 0 {
      StepsLinear(v, w, n - 1);
      StepLinear(Steps(v, n - 1), Steps(w, n - 1));
    }
  }

  /** Eight steps only shift a state whose low byte is clear. */
  lemma StepsOfHighBytes(v: bv32)
    ensures Steps(HighBytes(v), 8) == v >> 8
  {
    hide Step, HighBytes, Half, Odd, Mix;
    var w := HighBytes(v);
    LowByteClear(v);
    StepByCase(w);
    StepByCase(Half(w));
    StepByCase(Half(Half(w)));
    StepByCase(Half(Half(Half(w))));
    StepByCase(Half(Half(Half(Half(w)))));
    StepByCase(Half(Half(Half(Half(Half(w))))));
    StepByCase(Half(Half(Half(Half(Half(Half(w)))))));
    StepByCase(Half(Half(Half(Half(Half(Half(Half(w))))))));
    EightUnrolled(w);
  }

  lemma EightUnrolled(v: bv32)
    ensures Steps(v, 8) == Step(Step(Step(Step(Step(Step(Step(Step(v))))))))
  {
    hide Step;
    assert Steps(v, 1) == Step(v);
    assert Steps(v, 2) == Step(Step(v));
    assert Steps(v, 3) == Step(Step(Step(v)));
    assert Steps(v, 4) == Step(Step(Step(Step(v))));
    assert Steps(v, 5) == Step(Step(Step(Step(Step(v)))));
    assert Steps(v, 6) == Step(Step(Step(Step(Step(Step(v))))));
  }

  lemma LowByteClear(v: bv32)
    ensures var w := HighBytes(v);
            && !Odd(w) && !Odd(Half(w)) && !Odd(Half(Half(w))) && !Odd(Half(Half(Half(w))))
            && !Odd(Half(Half(Half(Half(w))))) && !Odd(Half(Half(Half(Half(Half(w))))))
            && !Odd(Half(Half(Half(Half(Half(Half(w)))))))
            && !Odd(Half(Half(Half(Half(Half(Half(Half(w))))))))
            && Half(Half(Half(Half(Half(Half(Half(Half(w)))))))) == v >> 8
  {
  }

  lemma Halves(v: bv32)
    ensures Mix(LowByte(v), HighBytes(v)) == v
  {
  }

  lemma ByteOnlyLow(v: bv32, b: bv8)
    ensures Mix(v, b as bv32) >> 8 == v >> 8
  {
  }

  /** One step through the table. */
  function TableStep(v: bv32): bv32 {
    Mix(TableEntry(LowByte(v), 8), v >> 8)
  }

  /** Eight bit steps are one step through the table. */
  lemma EightStepsAreTableStep(v: bv32)
    ensures Steps(v, 8) == TableStep(v)
  {
    hide Steps, TableEntry, Mix, LowByte, HighBytes;
    Halves(v);
    StepsLinear(LowByte(v), HighBytes(v), 8);
    StepsOfHighBytes(v);
    TableEntryIsSteps(LowByte(v), 8);
  }

  /** The standard shifts before it adds the byte, which makes no difference. */
  lemma UpdateByte(c: bv32, b: bv8)
    ensures UpdateCrc([b], c) == Steps(Mix(c, b as bv32), 8)
  {
    hide Steps, TableEntry, Mix, LowByte;
    var v := Mix(c, b as bv32);
    EightStepsAreTableStep(v);
    ByteOnlyLow(c, b);
    assert [b][1..] == [];
    assert UpdateCrc([b][1..], Mix(TableEntry(LowByte(v), 8), c >> 8)) == Mix(TableEntry(LowByte(v), 8), c >> 8);
  }

  lemma {:induction false} UpdateSnoc(data: seq<bv8>, b: bv8, c: bv32)
    ensures UpdateCrc(data + [b], c) == Steps(Mix(UpdateCrc(data, c), b as bv32), 8)
    decreases |data|
  {
    hide Steps, TableEntry, Mix, LowByte;
    if data == [] {
      assert data + [b] == [b];
      UpdateByte(c, b);
    } else {
      assert (data + [b])[1..] == data[1..] + [b];
      UpdateSnoc(data[1..], b, Mix(TableEntry(LowByte(Mix(c, data[0] as bv32)), 8), c >> 8));
    }
  }

  // ---- Where the node leaves the standard ---------------------------------------------------

  /** What the sign of a char adds to the byte. */
  function Excess(b: bv8): bv32 {
    if b >= 0x80 then 0xFFFFFF00 else 0
  }

  /** By how much the node's register is off after a string. */
  function Deviation(data: seq<bv8>): bv32 {
    if data == [] then 0
    else Steps(Mix(Deviation(data[..|data| - 1]), Excess(data[|data| - 1])), 8)
  }

  lemma WidenedIsExcess(b: bv8)
    ensures Widened(b) == Mix(b as bv32, Excess(b))
  {
    if b >= 0x80 {
      HighBitsApart(b as bv32, b);
    }
  }

  lemma HighBitsApart(v: bv32, b: bv8)
    requires v == b as bv32
    ensures 0xFFFFFF00 | v == v ^ 0xFFFFFF00
  {
  }

  lemma MixPairs(u: bv32, d: bv32, b: bv32, e: bv32)
    ensures Mix(Mix(u, d), Mix(b, e)) == Mix(Mix(u, b), Mix(d, e))
  {
    hide Mix;
    MixRegroup(u, Mix(b, e), d);
    MixRegroup(u, b, e);
    MixRegroup(Mix(u, b), e, d);
    MixCommutes(d, e);
  }

  /** The node's register is the standard's, mixed with the deviation. */
  lemma {:induction false} RegisterDeviates(data: seq<bv8>, c: bv32)
    ensures Register(data, c) == Mix(UpdateCrc(data, c), Deviation(data))
    decreases |data|
  {
    hide Mix, Widened, Excess, Steps, UpdateCrc;
    if data == [] {
      NothingRead(c);
    } else {
      var front, b := data[..|data| - 1], data[|data| - 1];
      assert data == front + [b];
      RegisterDeviates(front, c);
      UpdateSnoc(front, b, c);
      WidenedIsExcess(b);
      MixPairs(UpdateCrc(front, c), Deviation(front), b as bv32, Excess(b));
      StepsLinear(Mix(UpdateCrc(front, c), b as bv32), Mix(Deviation(front), Excess(b)), 8);
    }
  }

  lemma NothingRead(c: bv32)
    ensures UpdateCrc([], c) == c == Mix(c, 0)
  {
  }

  lemma MixZero(u: bv32, d: bv32)
    ensures Mix(u, d) == u <==> d == 0
  {
  }

  /** The node computes the CRC of section 8 of RFC 1952 on exactly those strings whose
      deviation vanishes. */
  lemma StandardExactly(data: seq<bv8>)
    ensures CrcOf(data, 0) == StandardCrc(data) <==> Deviation(data) == 0
  {
    hide Register, UpdateCrc, Deviation, Flip, Mix;
    FlipZero();
    RegisterDeviates(data, Flip(0));
    var u := UpdateCrc(data, Flip(0));
    FlipTwice(u);
    FlipTwice(Mix(u, Deviation(data)));
    MixZero(u, Deviation(data));
  }

  lemma FlipZero()
    ensures Flip(0) == 0xFFFFFFFF
  {
  }

  lemma ZeroSteps(v: bv32)
    ensures Steps(v, 8) == 0 <==> v == 0
  {
    hide Steps, Unsteps;
    ZeroStays(8);
    StepsBijective(v, 8);
    StepsBijective(0, 8);
  }

  lemma {:induction false} ZeroStays(n: nat)
    ensures Steps(0, n) == 0
  {
    if n > 0 {
      ZeroStays(n - 1);
    }
  }

  /** A byte below 128 neither brings about a deviation nor removes one. */
  lemma {:induction false} DeviationOfSevenBits(data: seq<bv8>, more: seq<bv8>)
    requires forall i :: 0 <= i < |more| ==> more[i] < 0x80
    ensures Deviation(data + more) == 0 <==> Deviation(data) == 0
    decreases |more|
  {
    hide Steps, Mix;
    if more == [] {
      assert data + more == data;
    } else {
      var front := more[..|more| - 1];
      DeviationOfSevenBits(data, front);
      assert (data + more)[..|data + more| - 1] == data + front;
      MixZeroRight(Deviation(data + front));
      ZeroSteps(Deviation(data + front));
    }
  }

  lemma MixZeroRight(v: bv32)
    ensures Mix(v, 0) == v
  {
  }

  /** On bytes below 128 the node computes the standard's CRC. */
  lemma StandardOnSevenBits(data: seq<bv8>)
    requires forall i :: 0 <= i < |data| ==> data[i] < 0x80
    ensures CrcOf(data, 0) == StandardCrc(data)
  {
    hide CrcOf, StandardCrc;
    DeviationOfSevenBits([], data);
    assert [] + data == data;
    StandardExactly(data);
  }

  /** With exactly one byte from 128 on, it does not. */
  lemma OneHighByteDiffers(front: seq<bv8>, b: bv8, back: seq<bv8>)
    requires forall i :: 0 <= i < |front| ==> front[i] < 0x80
    requires b >= 0x80 && forall i :: 0 <= i < |back| ==> back[i] < 0x80
    ensures CrcOf(front + [b] + back, 0) != StandardCrc(front + [b] + back)
  {
    hide CrcOf, StandardCrc, Steps;
    DeviationOfSevenBits([], front);
    assert [] + front == front;
    assert (front + [b])[..|front + [b]| - 1] == front;
    ZeroSteps(Mix(0, Excess(b)));
    DeviationOfSevenBits(front + [b], back);
    StandardExactly(front + [b] + back);
  }

  /** The bytes of 128 in a string of 33 bytes whose deviations cancel. */
  predicate HighAt(n: nat) {
    n == 0 || n == 6 || n == 9 || n == 10 || n == 16 || n == 20 || n == 21 || n == 22 || n == 24
    || n == 25 || n == 27 || n == 28 || n == 30 || n == 31 || n == 32
  }

  const CANCELLING: seq<bv8> := seq(33, (n: nat) => if HighAt(n) then 0x80 else 0)

  lemma DeviationStep(data: seq<bv8>, n: nat, d: bv32, d': bv32)
    requires n < |data| && Deviation(data[..n]) == d
    requires Step(Step(Step(Step(Step(Step(Step(Step(Mix(d, Excess(data[n])))))))))) == d'
    ensures Deviation(data[..n + 1]) == d'
  {
    hide Step, Mix, Excess, Steps;
    assert data[..n + 1][..n] == data[..n];
    EightUnrolled(Mix(d, Excess(data[n])));
  }

  lemma CancelUpTo6()
    requires Deviation(CANCELLING[..0]) == 0x00000000
    ensures Deviation(CANCELLING[..6]) == 0xAAF9F590
  {
    hide Deviation;
    var data := CANCELLING;
    DeviationStep(data, 0, 0x00000000, 0x00FFFFFF);
    DeviationStep(data, 1, 0x00FFFFFF, 0x2D021072);
    DeviationStep(data, 2, 0x2D021072, 0xBE261200);
    DeviationStep(data, 3, 0xBE261200, 0x00BE2612);
    DeviationStep(data, 4, 0x00BE2612, 0xF3B9CF6E);
    DeviationStep(data, 5, 0xF3B9CF6E, 0xAAF9F590);
  }

  lemma CancelUpTo12()
    requires Deviation(CANCELLING[..6]) == 0xAAF9F590
    ensures Deviation(CANCELLING[..12]) == 0x8BEEBF17
  {
    hide Deviation;
    var data := CANCELLING;
    DeviationStep(data, 6, 0xAAF9F590, 0xF05A954E);
    DeviationStep(data, 7, 0xF05A954E, 0x91943602);
    DeviationStep(data, 8, 0x91943602, 0xEE9FF51A);
    DeviationStep(data, 9, 0xEE9FF51A, 0xFD739970);
    DeviationStep(data, 10, 0xFD739970, 0x5007FD5A);
    DeviationStep(data, 11, 0x5007FD5A, 0x8BEEBF17);
  }

  lemma CancelUpTo18()
    requires Deviation(CANCELLING[..12]) == 0x8BEEBF17
    ensures Deviation(CANCELLING[..18]) == 0x7A867FFE
  {
    hide Deviation;
    var data := CANCELLING;
    DeviationStep(data, 12, 0x8BEEBF17, 0x83586B78);
    DeviationStep(data, 13, 0x83586B78, 0x5E5DA165);
    DeviationStep(data, 14, 0x5E5DA165, 0x3D86C876);
    DeviationStep(data, 15, 0x3D86C876, 0xB95B52C1);
    DeviationStep(data, 16, 0xB95B52C1, 0xEC25568B);
    DeviationStep(data, 17, 0xEC25568B, 0x7A867FFE);
  }

  lemma CancelUpTo24()
    requires Deviation(CANCELLING[..18]) == 0x7A867FFE
    ensures Deviation(CANCELLING[..24]) == 0x56D42F76
  {
    hide Deviation;
    var data := CANCELLING;
    DeviationStep(data, 18, 0x7A867FFE, 0x5A7F5964);
    DeviationStep(data, 19, 0x5A7F5964, 0x4A85DA18);
    DeviationStep(data, 20, 0x4A85DA18, 0x13D9E273);
    DeviationStep(data, 21, 0x13D9E273, 0xC9E0069B);
    DeviationStep(data, 22, 0xC9E0069B, 0x67EB5535);
    DeviationStep(data, 23, 0x67EB5535, 0x56D42F76);
  }

  lemma CancelUpTo30()
    requires Deviation(CANCELLING[..24]) == 0x56D42F76
    ensures Deviation(CANCELLING[..30]) == 0x95891249
  {
    hide Deviation;
    var data := CANCELLING;
    DeviationStep(data, 24, 0x56D42F76, 0xB9CFFFD9);
    DeviationStep(data, 25, 0xB9CFFFD9, 0xFF495A70);
    DeviationStep(data, 26, 0xFF495A70, 0x50FA3866);
    DeviationStep(data, 27, 0x50FA3866, 0xA47EC1AA);
    DeviationStep(data, 28, 0xA47EC1AA, 0x3658CBC8);
    DeviationStep(data, 29, 0x3658CBC8, 0x95891249);
  }

  lemma CancelUpTo33()
    requires Deviation(CANCELLING[..30]) == 0x95891249
    ensures Deviation(CANCELLING[..33]) == 0x00000000
  {
    hide Deviation;
    var data := CANCELLING;
    DeviationStep(data, 30, 0x95891249, 0x0F6A8FD9);
    DeviationStep(data, 31, 0x0F6A8FD9, 0xFFFFFF00);
    DeviationStep(data, 32, 0xFFFFFF00, 0x00000000);
  }

  /** With several bytes from 128 on, the deviations can cancel. */
  lemma DeviationsCancel()
    ensures CrcOf(CANCELLING, 0) == StandardCrc(CANCELLING) && CANCELLING[0] >= 0x80
  {
    hide Deviation, CrcOf, StandardCrc;
    NoDeviation(CANCELLING);
    CancelUpTo6();
    CancelUpTo12();
    CancelUpTo18();
    CancelUpTo24();
    CancelUpTo30();
    CancelUpTo33();
    assert CANCELLING[..33] == CANCELLING;
    StandardExactly(CANCELLING);
  }

  lemma NoDeviation(data: seq<bv8>)
    ensures Deviation(data[..0]) == 0
  {
  }

  // ---- The check value --------------------------------------------------------------------

  /** The digits from 1 to 9. */
  const CHECK: seq<bv8> := [0x31, 0x32, 0x33, 0x34, 0x35, 0x36, 0x37, 0x38, 0x39]

  lemma RegisterStep(data: seq<bv8>, n: nat, v: bv32, v': bv32)
    requires n < |data| && data[n] < 0x80 && Register(data[..n], 0xFFFFFFFF) == v
    requires Step(Step(Step(Step(Step(Step(Step(Step(Mix(v, data[n] as bv32))))))))) == v'
    ensures Register(data[..n + 1], 0xFFFFFFFF) == v'
  {
    hide Step, Mix, Steps;
    assert data[..n + 1][..n] == data[..n];
    EightUnrolled(Mix(v, data[n] as bv32));
  }

  /** The value by which implementations of this CRC are known, in the node and by the
      standard's routine. */
  lemma CheckValue()
    ensures CrcOf(CHECK, 0) == 0xCBF43926 && StandardCrc(CHECK) == 0xCBF43926
  {
    hide Register, StandardCrc;
    assert CHECK[..0] == [];
    EmptyRegister();
    RegisterStep(CHECK, 0, 0xFFFFFFFF, 0x7C231048);
    RegisterStep(CHECK, 1, 0x7C231048, 0xB0ACBB32);
    RegisterStep(CHECK, 2, 0xB0ACBB32, 0x77B79C2D);
    RegisterStep(CHECK, 3, 0x77B79C2D, 0x641C1F5C);
    RegisterStep(CHECK, 4, 0x641C1F5C, 0x340AC5E3);
    RegisterStep(CHECK, 5, 0x340AC5E3, 0xF68D2C9E);
    RegisterStep(CHECK, 6, 0xF68D2C9E, 0xAFFC9660);
    RegisterStep(CHECK, 7, 0xAFFC9660, 0x651F2550);
    RegisterStep(CHECK, 8, 0x651F2550, 0x340BC6D9);
    assert CHECK[..9] == CHECK;
    FlipOfCheck();
    StandardOnSevenBits(CHECK);
  }

  lemma EmptyRegister()
    ensures Register([], 0xFFFFFFFF) == 0xFFFFFFFF && Flip(0) == 0xFFFFFFFF
  {
  }

  lemma FlipOfCheck()
    ensures Flip(0x340BC6D9) == 0xCBF43926
  {
  }

  // ---- The contract's update ---------------------------------------------------------------

  /** The contract's update by one byte, as one step through the standard's table. */
  function ByteCrc(data: bv32, value: bv32): bv32 {
    Flip(TableStep(Mix(Flip(value), data)))
  }

  method Crc32Byte(data: bv32, value: bv32) returns (crc: bv32)
    ensures crc == ByteCrc(data, value)
  {
    hide Steps, TableStep, Flip, Mix;
    EightStepsAreTableStep(Mix(Flip(value), data));
    var v := Flip(value);
    v := Mix(v, data);
    v := EightSteps(v);
    crc := Flip(v);
  }

  /** Different data give different updates. */
  lemma ByteCrcInjective(a: bv32, b: bv32, value: bv32)
    ensures ByteCrc(a, value) == ByteCrc(b, value) <==> a == b
  {
    hide Steps, Unsteps, TableStep, Flip, Mix;
    if ByteCrc(a, value) == ByteCrc(b, value) {
      var v := Flip(value);
      EightStepsAreTableStep(Mix(v, a));
      EightStepsAreTableStep(Mix(v, b));
      FlipTwice(TableStep(Mix(v, a)));
      FlipTwice(TableStep(Mix(v, b)));
      StepsBijective(Mix(v, a), 8);
      StepsBijective(Mix(v, b), 8);
      MixTwice(v, a);
      MixTwice(v, b);
    }
  }

  lemma OneByte(b: bv8, value: bv32)
    ensures CrcOf([b], value) == ByteCrc(Widened(b), value)
  {
    hide Steps, TableStep, Widened, Flip, Mix;
    EightStepsAreTableStep(Mix(Flip(value), Widened(b)));
    assert [b][..0] == [];
    assert Register([], Flip(value)) == Flip(value);
  }

  lemma WidenedSmall(b: bv8)
    ensures b < 0x80 ==> Widened(b) == b as bv32 && Widened(b) < 0x100
    ensures b >= 0x80 ==> Widened(b) >= 0x100
  {
  }

  /** A byte below 128 is the one value below 256 that the contract's update matches;
      a byte from 128 on, which the host widens with its sign, matches none. */
  lemma UniqueMatch(b: bv8, value: bv32, test: bv32)
    requires test < 0x100
    ensures ByteCrc(test, value) == CrcOf([b], value) <==> b < 0x80 && test == b as bv32
  {
    hide ByteCrc, CrcOf, Widened;
    OneByte(b, value);
    ByteCrcInjective(test, Widened(b), value);
    WidenedSmall(b);
  }

  /** So the two routines agree on a byte exactly when it is below 128. */
  lemma AgreeExactlyOnSevenBits(b: bv8, value: bv32)
    ensures CrcOf([b], value) == ByteCrc(b as bv32, value) <==> b < 0x80
  {
    hide ByteCrc, CrcOf;
    ByteWidth(b);
    UniqueMatch(b, value, b as bv32);
  }

  lemma ByteWidth(b: bv8)
    ensures b as bv32 < 0x100
  {
  }

  // ---- The contract ---------------------------------------------------------------------

  /** The values below n, in order, whose update of from gives to. */
  function Matches(n: bv32, from: bv32, to: bv32): seq<bv32>
    decreases n
  {
    if n == 0 then []
    else Matches(n - 1, from, to) + if ByteCrc(n - 1, from) == to then [n - 1] else []
  }

  /** What the search over the 256 test bytes prints. */
  method ReverseCrc32Byte(from: bv32, to: bv32) returns (printed: seq<bv32>)
    ensures printed == Matches(0x100, from, to)
  {
    hide ByteCrc;
    printed := [];
    var test: bv32 := 0;
    while test < 0x100
      invariant test <= 0x100 && printed == Matches(test, from, to)
      decreases 0x100 - test
    {
      var crc := Crc32Byte(test, from);
      if crc == to {
        printed := printed + [test];
      }
      test := test + 1;
    }
  }

  lemma {:induction false} MatchesOnlyByte(n: bv32, b: bv8, value: bv32)
    requires n <= 0x100
    ensures Matches(n, value, CrcOf([b], value)) == if b < 0x80 && (b as bv32) < n then [b as bv32] else []
    decreases n
  {
    hide ByteCrc, CrcOf;
    if n > 0 {
      MatchesOnlyByte(n - 1, b, value);
      UniqueMatch(b, value, n - 1);
    }
  }

  /** The contract's action on the memory that the node reads: at every index it
      prints the byte there, if it is below 128, and nothing otherwise. */
  method Solve(memory: seq<bv8>) returns (printed: seq<seq<bv32>>)
    requires |memory| >= 59
    ensures |printed| == 59
    ensures forall i :: 0 <= i < 59 ==> printed[i] == if memory[i] < 0x80 then [memory[i] as bv32] else []
  {
    hide CrcOf, Matches;
    var lastValue: bv32 := 0;
    var index := 1;
    printed := [];
    NoBytes();
    assert memory[..0] == [];
    while index < 60
      invariant 1 <= index <= 60 && |printed| == index - 1
      invariant lastValue == CrcOf(memory[..index - 1], 0)
      invariant forall i :: 0 <= i < index - 1 ==> printed[i] == if memory[i] < 0x80 then [memory[i] as bv32] else []
    {
      var value := Crc32Intrinsic(memory[..index], 0);
      var matches := ReverseCrc32Byte(lastValue, value);
      PrintedByte(memory, index - 1);
      printed := printed + [matches];
      lastValue := value;
      index := index + 1;
    }
  }

  lemma NoBytes()
    ensures CrcOf([], 0) == 0
  {
  }

  lemma PrintedByte(memory: seq<bv8>, i: nat)
    requires i < |memory|
    ensures var last := CrcOf(memory[..i], 0);
            Matches(0x100, last, CrcOf(memory[..i + 1], 0)) == if memory[i] < 0x80 then [memory[i] as bv32] else []
  {
    hide CrcOf, Matches;
    assert memory[..i + 1] == memory[..i] + [memory[i]];
    CrcChains(memory[..i], [memory[i]], 0);
    MatchesOnlyByte(0x100, memory[i], CrcOf(memory[..i], 0));
    ByteWidth(memory[i]);
  }
}
