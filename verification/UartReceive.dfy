/** Reception: the receive interrupt fills the ring at any point of a read by one consumer. */
module UartReceive {
  import opened Prelude
  import opened UartRing

  /** Where the consumer is in a read: outside, past the emptiness test, or holding the byte. */
  datatype Consumer = Idle | NotEmpty(newTail: nat) | Holding(newTail: nat, data: Byte)

  datatype State = State(ring: Ring, consumer: Consumer)

  datatype Action =
    | Receive(data: Byte) // RX interrupt
    | Test                // compare tail and head; an empty ring ends the read
    | Load                // read the byte
    | Commit              // store the new tail; the read returns the byte

  predicate Enabled(s: State, a: Action) {
    match a
    case Receive(_) => true
    case Test => s.consumer.Idle?
    case Load => s.consumer.NotEmpty?
    case Commit => s.consumer.Holding?
  }

  /** The RX interrupt: moves head and stores the byte, or drops it when head would reach tail. */
  function ReceiveByte(r: Ring, b: Byte): Ring
    requires r.Valid()
  {
    IncWraps(r.head, |r.buffer|);
    var head := Inc(r.head, |r.buffer|);
    if r.tail != head then Ring(r.buffer[head := b], head, r.tail) else r
  }

  function Step(s: State, a: Action): State
    requires s.ring.Valid() && Enabled(s, a)
  {
    match a
    case Receive(b) => s.(ring := ReceiveByte(s.ring, b))
    case Test =>
      if s.ring.tail == s.ring.head then s
      else s.(consumer := NotEmpty(Inc(s.ring.tail, |s.ring.buffer|)))
    case Load =>
      var i := s.consumer.newTail;
      s.(consumer := if i < |s.ring.buffer| then Holding(i, s.ring.buffer[i]) else Idle)
    case Commit => State(s.ring.(tail := s.consumer.newTail), Idle)
  }

  ghost predicate Inv(s: State) {
    && s.ring.Valid()
    && (!s.consumer.Idle? ==>
          && s.ring.head != s.ring.tail
          && s.consumer.newTail == Inc(s.ring.tail, |s.ring.buffer|))
    && (s.consumer.Holding? ==>
          s.consumer.newTail < |s.ring.buffer| && s.consumer.data == s.ring.buffer[s.consumer.newTail])
  }

  /** The byte an action returns to the caller of the read. */
  function ReadBy(s: State, a: Action): seq<Byte>
    requires Enabled(s, a)
  {
    if a.Commit? then [s.consumer.data] else []
  }

  /** The byte an action adds: a received byte counts unless size-1 bytes are already held. */
  function AcceptedBy(s: State, a: Action): seq<Byte>
    requires s.ring.Valid()
  {
    if a.Receive? && |Content(s.ring)| < |s.ring.buffer| - 1 then [a.data] else []
  }

  lemma ReceiveAppendsOrDrops(r: Ring, b: Byte)
    requires r.Valid()
    ensures ReceiveByte(r, b).Valid()
    ensures |Content(r)| == |r.buffer| - 1 ==> ReceiveByte(r, b) == r
    ensures |Content(r)| < |r.buffer| - 1 ==> Content(ReceiveByte(r, b)) == Content(r) + [b]
    ensures ReceiveByte(r, b).tail == r.tail
    ensures r.head != r.tail ==>
              && ReceiveByte(r, b).head != r.tail
              && var t := MoveTail(r).tail; t < |r.buffer| && ReceiveByte(r, b).buffer[t] == r.buffer[t]
  {
    FullMeansSizeMinusOne(r);
    IncWraps(r.head, |r.buffer|);
    IncWraps(r.tail, |r.buffer|);
    if !IsFull(r) {
      WriteAheadKeepsContent(r, b);
      MoveHeadAppends(WriteAhead(r, b));
      assert ReceiveByte(r, b) == MoveHead(WriteAhead(r, b));
    }
  }

  lemma StepKeepsInv(s: State, a: Action)
    requires Inv(s) && Enabled(s, a)
    ensures Inv(Step(s, a))
    ensures Content(s.ring) + AcceptedBy(s, a) == ReadBy(s, a) + Content(Step(s, a).ring)
  {
    IncWraps(s.ring.tail, |s.ring.buffer|);
    match a
    case Receive(b) => ReceiveAppendsOrDrops(s.ring, b);
    case Commit => MoveTailRemovesOldest(s.ring);
    case _ =>
  }

  ghost predicate EnabledRun(s: State, run: seq<Action>)
    decreases |run|
  {
    run != [] ==> Inv(s) && Enabled(s, run[0]) && EnabledRun(Step(s, run[0]), run[1..])
  }

  ghost function After(s: State, run: seq<Action>): State
    requires EnabledRun(s, run)
    decreases |run|
  {
    if run == [] then s else After(Step(s, run[0]), run[1..])
  }

  ghost function Reads(s: State, run: seq<Action>): seq<Byte>
    requires EnabledRun(s, run)
    decreases |run|
  {
    if run == [] then [] else ReadBy(s, run[0]) + Reads(Step(s, run[0]), run[1..])
  }

  ghost function Accepted(s: State, run: seq<Action>): seq<Byte>
    requires EnabledRun(s, run)
    decreases |run|
  {
    if run == [] then [] else AcceptedBy(s, run[0]) + Accepted(Step(s, run[0]), run[1..])
  }

  /** Over every interleaving: the bytes read followed by those still held are the bytes received,
      in order, minus exactly those that arrived while size-1 bytes were held; and in every state
      uart0_AvailableBytes is the number of bytes held. */
  lemma {:induction false} ReadsAreReceivedBytesInOrder(s: State, run: seq<Action>)
    requires Inv(s) && EnabledRun(s, run)
    ensures
      var f := After(s, run);
      && Inv(f)
      && Content(s.ring) + Accepted(s, run) == Reads(s, run) + Content(f.ring)
      && AvailableBytes(f.ring) == |Content(f.ring)|
    decreases |run|
  {
    if run == [] {
      AvailableBytesIsLength(s.ring);
    } else {
      var a, s' := run[0], Step(s, run[0]);
      StepKeepsInv(s, a);
      ReadsAreReceivedBytesInOrder(s', run[1..]);
      Telescope(Content(s.ring), AcceptedBy(s, a), ReadBy(s, a), Content(s'.ring),
                Accepted(s', run[1..]), Reads(s', run[1..]), Content(After(s, run).ring));
    }
  }

  /** The receive interrupt is never held up; the consumer's steps wait for its place in the code alone. */
  lemma EnabledExactlyWhen(s: State, b: Byte)
    ensures Enabled(s, Receive(b))
    ensures Enabled(s, Test) <==> s.consumer.Idle?
    ensures Enabled(s, Load) <==> s.consumer.NotEmpty?
    ensures Enabled(s, Commit) <==> s.consumer.Holding?
  {
  }

  /** A read: from a non-empty ring it returns the oldest byte and removes it, from an empty one it ends at
      the test and changes nothing. */
  lemma ReadReturnsOldest(s: State)
    requires Inv(s) && s.consumer.Idle?
    ensures Content(s.ring) == [] ==> Step(s, Test) == s
    ensures Content(s.ring) != [] ==>
              var s1 := Step(s, Test);
              && Inv(s1) && Enabled(s1, Load)
              && var s2 := Step(s1, Load);
              && Inv(s2) && Enabled(s2, Commit)
              && Step(s2, Commit).consumer.Idle?
              && Content(s.ring) == ReadBy(s2, Commit) + Content(Step(s2, Commit).ring)
  {
    FullMeansSizeMinusOne(s.ring);
    if Content(s.ring) != [] {
      var s1 := Step(s, Test);
      StepKeepsInv(s, Test);
      LoadThenCommit(s1);
    }
  }

  lemma LoadThenCommit(s: State)
    requires Inv(s) && s.consumer.NotEmpty?
    ensures
      var s' := Step(s, Load);
      && Inv(s') && Enabled(s', Commit) && Step(s', Commit).consumer.Idle?
      && Step(s', Commit).ring.Valid()
      && Content(s.ring) == ReadBy(s', Commit) + Content(Step(s', Commit).ring)
  {
    IncWraps(s.ring.tail, |s.ring.buffer|);
    StepKeepsInv(s, Load);
    StepKeepsInv(Step(s, Load), Commit);
  }

  /** A run is never cut short by the ring: whatever the consumer's place in its code or the interrupt
      allows next leads to an invariant state again. */
  lemma {:induction false} RunExtends(s: State, run: seq<Action>, a: Action)
    requires Inv(s) && EnabledRun(s, run) && Enabled(After(s, run), a)
    ensures EnabledRun(s, run + [a])
    decreases |run|
  {
    if run == [] {
      assert [a][1..] == [];
      assert run + [a] == [a];
    } else {
      StepKeepsInv(s, run[0]);
      RunExtends(Step(s, run[0]), run[1..], a);
      assert (run + [a])[1..] == run[1..] + [a];
    }
  }

  /** The driver as an object. */
  class Receiver {
    const buffer: array<Byte>
    var rxHead: nat
    var rxTail: nat

    ghost predicate Valid()
      reads this, buffer
    {
      SizeOk(buffer.Length) && rxHead < buffer.Length && rxTail < buffer.Length
    }

    ghost function Value(): Ring
      reads this, buffer
    {
      Ring(buffer[..], rxHead, rxTail)
    }

    constructor (size: nat)
      requires SizeOk(size)
      ensures Valid() && fresh(buffer) && Content(Value()) == []
    {
      buffer := new Byte[size](_ => 0);
      rxHead, rxTail := 0, 0;
    }

    method RxInterrupt(udr: Byte)
      requires Valid()
      modifies this`rxHead, buffer
      ensures Valid() && Value() == ReceiveByte(old(Value()), udr)
    {
      IncWraps(rxHead, buffer.Length);
      var head := (rxHead + 1) % 0x100 % buffer.Length;
      if rxTail != head {
        rxHead := head;
        buffer[head] := udr;
      }
    }

    /** uart0_getData: the oldest byte, or -1 from an empty ring. */
    method GetData() returns (r: int)
      requires Valid()
      modifies this`rxTail
      ensures Valid()
      ensures r == -1 <==> old(Content(Value())) == []
      ensures r == -1 ==> Content(Value()) == []
      ensures r != -1 ==> 0 <= r < 0x100 && old(Content(Value())) == [r] + Content(Value())
    {
      FullMeansSizeMinusOne(Value());
      if rxTail == rxHead {
        return -1;
      }
      MoveTailRemovesOldest(Value());
      IncWraps(rxTail, buffer.Length);
      rxTail := (rxTail + 1) % 0x100 % buffer.Length;
      return buffer[rxTail];
    }

    /** uart0_getc: like getData, but an empty ring reads as a zero byte. */
    method Getc() returns (c: Byte)
      requires Valid()
      modifies this`rxTail
      ensures Valid()
      ensures old(Content(Value())) == [] ==> c == 0 && Content(Value()) == []
      ensures old(Content(Value())) != [] ==> old(Content(Value())) == [c] + Content(Value())
    {
      var r := GetData();
      c := if r == -1 then 0 else r;
    }
  }
}
