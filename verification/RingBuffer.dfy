/** The receive buffers of both processors: a circular buffer that holds one byte less
    than its size, filled by an interrupt and emptied by the program. */
module RingBuffer {

  datatype Ring = Ring(cells: seq<bv8>, read: nat, write: nat) {
    ghost predicate Valid() {
      read < |cells| && write < |cells|
    }

    /** Where the byte at an offset lies, counted from the oldest. */
    function Slot(offset: nat): nat {
      if read + offset < |cells| then read + offset else read + offset - |cells|
    }

    function Count(): nat
      requires Valid()
    {
      if write >= read then write - read else (|cells| - read) + write
    }

    /** The bytes held, the oldest first. */
    function Contents(): (s: seq<bv8>)
      requires Valid()
      ensures |s| == Count()
    {
      seq(Count(), i requires 0 <= i < Count() => cells[Slot(i)])
    }
  }

  function Next(current: nat, size: nat): nat
    requires size > 0
  {
    (current + 1) % size
  }

  /** The next index for writing, which the code keeps in eight bits. */
  function NextWrite(current: nat, size: nat): nat
    requires size > 0
  {
    Next(current, size) % 256
  }

  function Put(r: Ring, data: bv8): (Ring, bool)
    requires r.Valid()
  {
    var next := NextWrite(r.write, |r.cells|);
    if next == r.read then (r, false)
    else (r.(cells := r.cells[r.write := data], write := next), true)
  }

  function Advance(r: Ring): Ring
    requires r.Valid()
  {
    r.(read := Next(r.read, |r.cells|))
  }

  // ---- A bounded queue -------------------------------------------------------------------

  lemma SlotIsModulo(read: nat, offset: nat, size: nat)
    requires read < size && offset < size
    ensures (read + offset) % size == if read + offset < size then read + offset else read + offset - size
  {
    if read + offset >= size {
      assert (read + offset) % size == (read + offset - size) % size;
    }
  }

  lemma NextByCase(current: nat, size: nat)
    requires current < size
    ensures Next(current, size) == if current + 1 == size then 0 else current + 1
  {
  }

  /** Eight bits are enough for the index exactly when the buffer has at most 256 cells. */
  lemma EightBitsEnough(size: nat)
    requires size > 0
    ensures size <= 256 <==> forall current :: 0 <= current < size ==> NextWrite(current, size) == Next(current, size)
  {
    if size > 256 {
      assert Next(255, size) == 256;
      assert NextWrite(255, size) == 0;
    }
  }

  /** A put appends, unless one byte less than the size is held already. */
  ghost predicate PutRight(r: Ring, data: bv8)
    requires r.Valid()
  {
    var (after, ok) := Put(r, data);
    && after.Valid() && |after.cells| == |r.cells|
    && (ok <==> r.Count() < |r.cells| - 1)
    && after.Contents() == if ok then r.Contents() + [data] else r.Contents()
  }

  lemma PutAppends(r: Ring, data: bv8)
    requires r.Valid() && |r.cells| <= 256
    ensures PutRight(r, data)
  {
    NextByCase(r.write, |r.cells|);
    var (after, ok) := Put(r, data);
    if ok {
      assert after.Count() == r.Count() + 1;
      assert r.Slot(r.Count()) == r.write;
      assert after.Contents() == r.Contents() + [data];
    }
  }

  /** A buffer of a given size is a bounded queue exactly if it has at most 256 cells. */
  lemma PutRightExactly(size: nat)
    requires size > 0
    ensures size <= 256 <==> forall r: Ring, data :: r.Valid() && |r.cells| == size ==> PutRight(r, data)
  {
    if size <= 256 {
      forall r: Ring, data | r.Valid() && |r.cells| == size
        ensures PutRight(r, data)
      {
        PutAppends(r, data);
      }
    } else {
      var r := Ring(seq(size, (i: nat) => 0), 255, 255);
      NextByCase(255, size);
      assert Put(r, 0).1 && Put(r, 0).0.Count() == size - 255 != r.Count() + 1;
      assert r.Valid() && !PutRight(r, 0);
    }
  }

  /** Advancing the read index removes the oldest byte. */
  lemma AdvanceRemoves(r: Ring)
    requires r.Valid() && r.Contents() != []
    ensures Advance(r).Valid() && Advance(r).Contents() == r.Contents()[1..]
    ensures r.cells[r.read] == r.Contents()[0]
  {
    NextByCase(r.read, |r.cells|);
    var after := Advance(r);
    assert after.Count() == r.Count() - 1;
    forall i | 0 <= i < after.Count()
      ensures after.Contents()[i] == r.Contents()[i + 1]
    {
      assert after.Slot(i) == r.Slot(i + 1);
    }
  }

  class Buffer {
    const size: nat
    const buffer: array<bv8>
    var write: nat
    var read: nat

    function State(): Ring
      reads this, buffer
    {
      Ring(buffer[..], read, write)
    }

    ghost predicate Valid()
      reads this, buffer
    {
      0 < size <= 256 && buffer.Length == size && State().Valid()
    }

    constructor (size: nat)
      requires 0 < size <= 256
      ensures Valid() && this.size == size && State().Contents() == [] && fresh(buffer)
    {
      this.size := size;
      buffer := new bv8[size];
      write := 0;
      read := 0;
    }

    method TryPut(data: bv8) returns (ok: bool)
      requires Valid()
      modifies this`write, buffer
      ensures Valid() && (State(), ok) == Put(old(State()), data)
      ensures ok <==> |old(State().Contents())| < size - 1
      ensures State().Contents() == old(State().Contents()) + if ok then [data] else []
    {
      PutAppends(State(), data);
      var writeNext := Next(write, size) % 256;
      if writeNext == read {
        ok := false;
      } else {
        buffer[write] := data;
        write := writeNext;
        ok := true;
      }
    }

    method HasData() returns (r: bool)
      requires Valid()
      ensures r <==> State().Contents() != []
    {
      r := read != write;
    }

    /** One turn of the wait in pop: nothing while no byte is held, else the oldest. */
    method TryPop() returns (ready: bool, value: bv8)
      requires Valid()
      modifies this`read
      ensures Valid() && (ready <==> old(State().Contents()) != [])
      ensures if ready then old(State().Contents()) == [value] + State().Contents() else State() == old(State())
    {
      ready := HasData();
      if !ready {
        return false, 0;
      }
      AdvanceRemoves(State());
      value := buffer[read];
      read := Next(read, size);
    }

    method Flush()
      requires Valid()
      modifies this`read, this`write
      ensures Valid() && State().Contents() == []
    {
      write := 0;
      read := 0;
    }

    method Size() returns (n: nat)
      requires Valid()
      ensures n == |State().Contents()| < size
    {
      if write >= read {
        n := write - read;
      } else {
        n := (size - read) + write;
      }
    }

    method At(offset: nat) returns (b: bv8)
      requires Valid()
      ensures b == if offset < |State().Contents()| then State().Contents()[offset] else 0
    {
      var n := Size();
      if offset >= n {
        return 0;
      }
      var index := (read + offset) % size;
      SlotIsModulo(read, offset, size);
      assert index == State().Slot(offset);
      b := buffer[index];
    }
  }

  // ---- The interrupt between the steps of a pop ---------------------------------------------

  /** Where the program is in pop. */
  datatype Phase =
    | Waiting
    | Loading
    | Computing(value: bv8)
    | Storing(value: bv8, next: nat)

  /** offered: the bytes the line has delivered; accepted: those that a put has kept;
      popped: those that pop has returned. */
  datatype Reception = Reception(ring: Ring, phase: Phase, offered: seq<bv8>, accepted: seq<bv8>, popped: seq<bv8>)

  ghost predicate Start(s: Reception) {
    s.ring.Valid() && s.ring.read == s.ring.write && s.phase == Waiting
    && s.offered == s.accepted == s.popped == []
  }

  function Interrupt(s: Reception, data: bv8): Reception
    requires s.ring.Valid()
  {
    var (ring, ok) := Put(s.ring, data);
    s.(ring := ring, offered := s.offered + [data], accepted := if ok then s.accepted + [data] else s.accepted)
  }

  /** One access of pop to the shared fields. */
  function PopStep(s: Reception): Reception
    requires s.ring.Valid()
  {
    match s.phase
    case Waiting => if s.ring.read == s.ring.write then s else s.(phase := Loading)
    case Loading => s.(phase := Computing(s.ring.cells[s.ring.read]))
    case Computing(value) => s.(phase := Storing(value, Next(s.ring.read, |s.ring.cells|)))
    case Storing(value, next) => s.(ring := s.ring.(read := next), phase := Waiting, popped := s.popped + [value])
  }

  ghost predicate Happens(s: Reception, s': Reception)
    requires s.ring.Valid()
  {
    s' == PopStep(s) || exists data :: s' == Interrupt(s, data)
  }

  ghost predicate Sound(s: Reception) {
    && s.ring.Valid() && |s.ring.cells| <= 256
    && s.accepted == s.popped + s.ring.Contents()
    && (s.phase != Waiting ==> s.ring.Contents() != [])
    && (s.phase.Computing? || s.phase.Storing? ==> s.phase.value == s.ring.Contents()[0])
    && (s.phase.Storing? ==> s.phase.next == Next(s.ring.read, |s.ring.cells|))
  }

  lemma InterruptSound(s: Reception, data: bv8)
    requires Sound(s)
    ensures Sound(Interrupt(s, data))
  {
    hide Put;
    PutAppends(s.ring, data);
    PutKeepsRead(s.ring, data);
    var s' := Interrupt(s, data);
    assert s'.accepted == s'.popped + s'.ring.Contents();
  }

  lemma PutKeepsRead(r: Ring, data: bv8)
    requires r.Valid()
    ensures Put(r, data).0.read == r.read
  {
  }

  lemma PopStepSound(s: Reception)
    requires Sound(s)
    ensures Sound(PopStep(s))
  {
    hide Next;
    if s.phase != Waiting {
      AdvanceRemoves(s.ring);
      if s.phase.Storing? {
        var s' := PopStep(s);
        assert s'.ring == Advance(s.ring);
        assert s.ring.Contents() == [s.phase.value] + s'.ring.Contents();
        assert s'.accepted == s'.popped + s'.ring.Contents();
      }
    } else if s.ring.read != s.ring.write {
      assert s.ring.Count() > 0;
    }
  }

  ghost predicate Interleaving(run: seq<Reception>) {
    && run != [] && Start(run[0]) && |run[0].ring.cells| <= 256
    && forall n :: 0 <= n < |run| - 1 ==> run[n].ring.Valid() && Happens(run[n], run[n + 1])
  }

  /** Main result: wherever the interrupts fall between the steps of pop, the bytes
      popped are a prefix of the bytes accepted and the buffer holds the rest. */
  lemma {:induction false} PoppedInOrder(run: seq<Reception>, n: nat)
    requires Interleaving(run) && n < |run|
    ensures Sound(run[n]) && |run[n].ring.cells| == |run[0].ring.cells|
    ensures run[n].accepted == run[n].popped + run[n].ring.Contents()
    decreases n
  {
    hide Put;
    if n > 0 {
      PoppedInOrder(run, n - 1);
      var s, s' := run[n - 1], run[n];
      assert Happens(run[n - 1], run[n - 1 + 1]);
      if s' == PopStep(s) {
        PopStepSound(s);
      } else {
        var data :| s' == Interrupt(s, data);
        InterruptSound(s, data);
        PutAppends(s.ring, data);
      }
    } else {
      assert run[0].ring.Contents() == [];
    }
  }

  /** A byte is lost only when the buffer is full: as long as at most one byte less than
      the size is outstanding, all that the line delivers is accepted. */
  lemma {:induction false} NothingLost(run: seq<Reception>, n: nat)
    requires Interleaving(run) && n < |run|
    requires forall i :: 0 <= i <= n ==> |run[i].offered| - |run[i].popped| <= |run[0].ring.cells| - 1
    ensures run[n].accepted == run[n].offered
    decreases n
  {
    hide Put;
    if n > 0 {
      NothingLost(run, n - 1);
      PoppedInOrder(run, n - 1);
      var s, s' := run[n - 1], run[n];
      assert Happens(run[n - 1], run[n - 1 + 1]);
      if s' != PopStep(s) {
        var data :| s' == Interrupt(s, data);
        PutAppends(s.ring, data);
        assert |s'.offered| - |s'.popped| <= |run[0].ring.cells| - 1;
      }
    }
  }
}
