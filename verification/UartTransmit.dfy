/** Transmission: one producer calling putc, interrupted at any point by the data-register-empty
    interrupt, which does not test for an empty ring. */
module UartTransmit {
  import opened Prelude
  import opened UartRing

  /** Where the producer is in putc, with its register copy of the new head. */
  datatype Producer =
    | Idle
    | Waiting(data: Byte, newHead: nat)
    | HasSpace(data: Byte, newHead: nat)
    | Written(data: Byte, newHead: nat)

  datatype State = State(ring: Ring, udrie: bool, producer: Producer)

  datatype Action =
    | Begin(data: Byte)        // uart0_putc computes the new head
    | BeginNoblock(data: Byte) // uart0_putc_noblock computes it and gives up when full
    | Poll                     // one round of the wait for free space
    | Write                    // the byte goes into its slot
    | Publish                  // head and UDRIE change together, interrupts off
    | Interrupt                // UDRE: sends one byte

  predicate Enabled(s: State, a: Action) {
    match a
    case Begin(_) => s.producer.Idle?
    case BeginNoblock(_) => s.producer.Idle?
    case Poll => s.producer.Waiting?
    case Write => s.producer.HasSpace?
    case Publish => s.producer.Written?
    case Interrupt => s.udrie
  }

  function Step(s: State, a: Action): State
    requires s.ring.Valid() && Enabled(s, a)
  {
    var n := |s.ring.buffer|;
    match a
    case Begin(b) => s.(producer := Waiting(b, Inc(s.ring.head, n)))
    case BeginNoblock(b) =>
      var newHead := Inc(s.ring.head, n);
      if s.ring.tail == newHead then s else s.(producer := HasSpace(b, newHead))
    case Poll =>
      if s.ring.tail == s.producer.newHead then s
      else s.(producer := HasSpace(s.producer.data, s.producer.newHead))
    case Write =>
      if s.producer.newHead >= n then s
      else s.(ring := s.ring.(buffer := s.ring.buffer[s.producer.newHead := s.producer.data]),
              producer := Written(s.producer.data, s.producer.newHead))
    case Publish => State(s.ring.(head := s.producer.newHead), true, Idle)
    case Interrupt =>
      var tail := Inc(s.ring.tail, n);
      State(s.ring.(tail := tail), s.udrie && tail != s.ring.head, s.producer)
  }

  /** The byte the interrupt writes to UDR. */
  function SentBy(s: State, a: Action): seq<Byte>
    requires s.ring.Valid() && Enabled(s, a)
  {
    if a.Interrupt? then
      IncWraps(s.ring.tail, |s.ring.buffer|);
      [s.ring.buffer[Inc(s.ring.tail, |s.ring.buffer|)]]
    else []
  }

  /** The byte handed to putc, at the moment Publish makes it visible. */
  function PublishedBy(s: State, a: Action): seq<Byte>
    requires Enabled(s, a)
  {
    if a.Publish? then [s.producer.data] else []
  }

  /** The byte a caller hands over: to putc always, to putc_noblock when fewer than size-1 bytes are held. */
  function HandedBy(s: State, a: Action): seq<Byte>
    requires s.ring.Valid()
  {
    match a
    case Begin(b) => [b]
    case BeginNoblock(b) => if |Content(s.ring)| < |s.ring.buffer| - 1 then [b] else []
    case _ => []
  }

  /** The byte handed over and not yet published, if any. */
  function InHand(s: State): seq<Byte> { if s.producer.Idle? then [] else [s.producer.data] }

  /** UDRIE is set exactly when the ring is non-empty; a producer past its wait owns the free slot
      after head. */
  ghost predicate Inv(s: State) {
    && s.ring.Valid()
    && (s.udrie <==> s.ring.head != s.ring.tail)
    && (!s.producer.Idle? ==> s.producer.newHead == Inc(s.ring.head, |s.ring.buffer|))
    && (s.producer.HasSpace? || s.producer.Written? ==> !IsFull(s.ring))
    && (s.producer.Written? ==>
          s.producer.newHead < |s.ring.buffer| && s.ring.buffer[s.producer.newHead] == s.producer.data)
  }

  lemma WriteKeepsInv(s: State)
    requires Inv(s) && s.producer.HasSpace?
    ensures Inv(Step(s, Write)) && Content(Step(s, Write).ring) == Content(s.ring)
  {
    IncWraps(s.ring.head, |s.ring.buffer|);
    WriteAheadKeepsContent(s.ring, s.producer.data);
    assert Step(s, Write).ring == WriteAhead(s.ring, s.producer.data);
  }

  lemma PublishKeepsInv(s: State)
    requires Inv(s) && s.producer.Written?
    ensures Inv(Step(s, Publish)) && Content(Step(s, Publish).ring) == Content(s.ring) + [s.producer.data]
  {
    IncWraps(s.ring.head, |s.ring.buffer|);
    MoveHeadAppends(s.ring);
    assert Step(s, Publish).ring == MoveHead(s.ring);
  }

  lemma InterruptKeepsInv(s: State)
    requires Inv(s) && s.udrie
    ensures Inv(Step(s, Interrupt)) && Content(s.ring) == SentBy(s, Interrupt) + Content(Step(s, Interrupt).ring)
  {
    IncWraps(s.ring.head, |s.ring.buffer|);
    IncWraps(s.ring.tail, |s.ring.buffer|);
    MoveTailRemovesOldest(s.ring);
    assert Step(s, Interrupt).ring == MoveTail(s.ring);
  }

  lemma StepKeepsInv(s: State, a: Action)
    requires Inv(s) && Enabled(s, a)
    ensures Inv(Step(s, a))
    ensures Content(s.ring) + PublishedBy(s, a) == SentBy(s, a) + Content(Step(s, a).ring)
    ensures InHand(s) + HandedBy(s, a) == PublishedBy(s, a) + InHand(Step(s, a))
  {
    FullMeansSizeMinusOne(s.ring);
    match a
    case Write => WriteKeepsInv(s);
    case Publish => PublishKeepsInv(s);
    case Interrupt => InterruptKeepsInv(s);
    case _ =>
  }

  ghost predicate EnabledRun(s: State, run: seq<Action>)
    decreases |run|
  {
    run != [] ==> Inv(s) && Enabled(s, run[0]) && EnabledRun(Step(s, run[0]), run[1..])
  }

  ghost function After(s: State, run: seq<Action>): State
    requires EnabledRun(s, run)
    decreases |run|
  {
    if run == [] then s else After(Step(s, run[0]), run[1..])
  }

  ghost function Sent(s: State, run: seq<Action>): seq<Byte>
    requires EnabledRun(s, run)
    decreases |run|
  {
    if run == [] then [] else SentBy(s, run[0]) + Sent(Step(s, run[0]), run[1..])
  }

  ghost function Published(s: State, run: seq<Action>): seq<Byte>
    requires EnabledRun(s, run)
    decreases |run|
  {
    if run == [] then [] else PublishedBy(s, run[0]) + Published(Step(s, run[0]), run[1..])
  }

  /** The bytes handed to putc and, when there was room, to putc_noblock, in order. */
  ghost function Handed(s: State, run: seq<Action>): seq<Byte>
    requires EnabledRun(s, run)
    decreases |run|
  {
    if run == [] then [] else HandedBy(s, run[0]) + Handed(Step(s, run[0]), run[1..])
  }

  /** Over every interleaving the bytes handed over are, in order, those published, followed by the one
      in hand. */
  lemma {:induction false} HandedIsPublished(s: State, run: seq<Action>)
    requires Inv(s) && EnabledRun(s, run)
    ensures InHand(s) + Handed(s, run) == Published(s, run) + InHand(After(s, run))
    decreases |run|
  {
    if run != [] {
      var a, s' := run[0], Step(s, run[0]);
      StepKeepsInv(s, a);
      HandedIsPublished(s', run[1..]);
      Telescope(InHand(s), HandedBy(s, a), PublishedBy(s, a), InHand(s'),
                Handed(s', run[1..]), Published(s', run[1..]), InHand(After(s, run)));
    }
  }

  /** Over every interleaving: what was sent followed by what is still in the ring is what was in the
      ring followed by what was published. */
  lemma {:induction false} PublishedIsSent(s: State, run: seq<Action>)
    requires Inv(s) && EnabledRun(s, run)
    ensures
      var f := After(s, run);
      && Inv(f)
      && Content(s.ring) + Published(s, run) == Sent(s, run) + Content(f.ring)
    decreases |run|
  {
    if run != [] {
      var a, s' := run[0], Step(s, run[0]);
      StepKeepsInv(s, a);
      PublishedIsSent(s', run[1..]);
      Telescope(Content(s.ring), PublishedBy(s, a), SentBy(s, a), Content(s'.ring),
                Published(s', run[1..]), Sent(s', run[1..]), Content(After(s, run).ring));
    }
  }

  /** Over every interleaving, from callers to UDR: the bytes that were in the ring and in hand, followed
      by the bytes handed to putc and putc_noblock, are the bytes sent, followed by those still in the
      ring and in hand, in order; so no byte is lost, duplicated, altered or reordered. The interrupt is
      armed exactly when the ring is non-empty. */
  lemma NothingLostOrReordered(s: State, run: seq<Action>)
    requires Inv(s) && EnabledRun(s, run)
    ensures
      var f := After(s, run);
      && Inv(f) && (f.udrie <==> Content(f.ring) != [])
      && Content(s.ring) + InHand(s) + Handed(s, run) == Sent(s, run) + Content(f.ring) + InHand(f)
  {
    var f := After(s, run);
    PublishedIsSent(s, run);
    HandedIsPublished(s, run);
    FullMeansSizeMinusOne(f.ring);
    EndToEnd(Content(s.ring), InHand(s), Handed(s, run), Published(s, run), Sent(s, run), Content(f.ring), InHand(f));
  }

  lemma EndToEnd(c: seq<Byte>, h: seq<Byte>, hs: seq<Byte>, p: seq<Byte>, x: seq<Byte>, c': seq<Byte>, h': seq<Byte>)
    requires c + p == x + c' && h + hs == p + h'
    ensures c + h + hs == x + c' + h'
  {
    assert c + h + hs == c + (h + hs);
    assert c + (p + h') == (c + p) + h';
  }

  /** Each action's guard is only the producer's place in the code, so a run is never cut short by
      the ring: an enabled action leads to an invariant state again. */
  lemma {:induction false} RunExtends(s: State, run: seq<Action>, a: Action)
    requires Inv(s) && EnabledRun(s, run) && Enabled(After(s, run), a)
    ensures EnabledRun(s, run + [a])
    decreases |run|
  {
    if run == [] {
      assert [a][1..] == [];
      assert run + [a] == [a];
    } else {
      StepKeepsInv(s, run[0]);
      RunExtends(Step(s, run[0]), run[1..], a);
      assert (run + [a])[1..] == run[1..] + [a];
    }
  }

  /** What each action waits for: callers for the producer's place in the code, the interrupt for a byte
      in the ring. */
  lemma EnabledExactlyWhen(s: State, b: Byte)
    requires Inv(s)
    ensures Enabled(s, Begin(b)) <==> s.producer.Idle?
    ensures Enabled(s, BeginNoblock(b)) <==> s.producer.Idle?
    ensures Enabled(s, Poll) <==> s.producer.Waiting?
    ensures Enabled(s, Write) <==> s.producer.HasSpace?
    ensures Enabled(s, Publish) <==> s.producer.Written?
    ensures Enabled(s, Interrupt) <==> Content(s.ring) != []
  {
    FullMeansSizeMinusOne(s.ring);
  }

  /** A call goes through: with room in the ring, putc passes its wait, putc_noblock is let in, and the two
      steps behind that append the byte and end the call, wherever interrupts fall in between. */
  lemma CallGoesThrough(s: State, b: Byte)
    requires Inv(s)
    ensures s.producer.Idle? ==> Step(s, Begin(b)).producer.Waiting? && Step(s, Begin(b)).producer.data == b
    ensures s.producer.Idle? && |Content(s.ring)| < |s.ring.buffer| - 1 ==>
              Step(s, BeginNoblock(b)).producer.HasSpace? && Step(s, BeginNoblock(b)).producer.data == b
    ensures s.producer.Waiting? && |Content(s.ring)| < |s.ring.buffer| - 1 ==>
              Step(s, Poll) == s.(producer := HasSpace(s.producer.data, s.producer.newHead))
    ensures s.producer.HasSpace? ==>
              Step(s, Write).producer == Written(s.producer.data, s.producer.newHead)
    ensures s.producer.Written? ==>
              && Step(s, Publish).producer.Idle? && Step(s, Publish).ring.Valid()
              && Content(Step(s, Publish).ring) == Content(s.ring) + [s.producer.data]
  {
    FullMeansSizeMinusOne(s.ring);
    IncWraps(s.ring.head, |s.ring.buffer|);
    if s.producer.Written? {
      PublishKeepsInv(s);
    }
  }

  /** A putc that waits has the interrupt armed, and one firing ends the wait. */
  lemma WaitEndsAfterOneInterrupt(s: State)
    requires Inv(s) && s.producer.Waiting? && Step(s, Poll) == s
    ensures Enabled(s, Interrupt) && Step(Step(s, Interrupt), Poll).producer.HasSpace?
    ensures Length(Step(s, Interrupt).ring) == Length(s.ring) - 1
  {
    IncWraps(s.ring.head, |s.ring.buffer|);
    IncWraps(s.ring.tail, |s.ring.buffer|);
  }

  /** k firings of the interrupt. */
  function Firings(k: nat): seq<Action> { seq(k, _ => Interrupt) }

  /** k firings are possible, send the content in order, and leave the ring empty and disarmed. */
  ghost predicate EmptiedBy(s: State, k: nat) {
    && s.ring.Valid() && EnabledRun(s, Firings(k))
    && Sent(s, Firings(k)) == Content(s.ring)
    && var f := After(s, Firings(k));
       f.ring.head == f.ring.tail && !f.udrie
  }

  /** A flush ends: with nothing published meanwhile, exactly as many firings as bytes held are
      possible, they send the content in order, and then the ring is empty and disarmed. */
  lemma {:induction false} FlushEnds(s: State)
    requires Inv(s)
    ensures EmptiedBy(s, Length(s.ring))
    decreases Length(s.ring)
  {
    FullMeansSizeMinusOne(s.ring);
    if Length(s.ring) > 0 {
      FiringShortens(s);
      FlushEnds(Step(s, Interrupt));
      OneFiringMore(s, Length(s.ring) - 1);
    }
  }

  lemma FiringShortens(s: State)
    requires Inv(s) && s.udrie
    ensures Inv(Step(s, Interrupt)) && Length(Step(s, Interrupt).ring) == Length(s.ring) - 1
    ensures Content(s.ring) == SentBy(s, Interrupt) + Content(Step(s, Interrupt).ring)
  {
    InterruptKeepsInv(s);
  }

  lemma OneFiringMore(s: State, k: nat)
    requires Inv(s) && s.udrie && EmptiedBy(Step(s, Interrupt), k)
    requires Content(s.ring) == SentBy(s, Interrupt) + Content(Step(s, Interrupt).ring)
    ensures EmptiedBy(s, k + 1)
  {
    assert Firings(k + 1)[0] == Interrupt && Firings(k + 1)[1..] == Firings(k);
  }

  /** The driver as an object. */
  class Transmitter {
    const buffer: array<Byte>
    var txHead: nat
    var txTail: nat
    var udrie: bool
    ghost var sent: seq<Byte>

    ghost predicate Valid()
      reads this, buffer
    {
      SizeOk(buffer.Length) && txHead < buffer.Length && txTail < buffer.Length && (udrie <==> txHead != txTail)
    }

    ghost function Value(): Ring
      reads this, buffer
    {
      Ring(buffer[..], txHead, txTail)
    }

    constructor (size: nat)
      requires SizeOk(size)
      ensures Valid() && fresh(buffer) && Content(Value()) == [] && sent == []
    {
      buffer := new Byte[size](_ => 0);
      txHead, txTail, udrie, sent := 0, 0, false, [];
    }

    /** The UDRE interrupt: sends the oldest byte, and disarms itself when that was the last. */
    method UdreInterrupt() returns (udr: Byte)
      requires Valid() && udrie
      modifies this`txTail, this`udrie, this`sent
      ensures Valid() && sent == old(sent) + [udr]
      ensures old(Content(Value())) == [udr] + Content(Value())
      ensures sent + Content(Value()) == old(sent) + old(Content(Value()))
    {
      MoveTailRemovesOldest(Value());
      IncWraps(txTail, buffer.Length);
      ghost var after := MoveTail(Value());
      var tail := (txTail + 1) % 0x100 % buffer.Length;
      if tail == txHead {
        udrie := false;
      }
      txTail := tail;
      assert Value() == after;
      udr := buffer[tail];
      sent := sent + [udr];
    }

    /** The byte goes into the free slot, then head and UDRIE change together. */
    method Insert(data: Byte, newHead: nat)
      requires Valid() && !IsFull(Value()) && newHead == Inc(txHead, buffer.Length)
      modifies this`txHead, this`udrie, buffer
      ensures Valid() && Content(Value()) == old(Content(Value())) + [data]
    {
      WriteAheadKeepsContent(Value(), data);
      ghost var ahead := WriteAhead(Value(), data);
      MoveHeadAppends(ahead);
      IncWraps(txHead, buffer.Length);
      buffer[newHead] := data;
      assert Value() == ahead;
      txHead := newHead;
      udrie := true;
      assert Value() == MoveHead(ahead);
    }

    /** The wait for free space, whatever finite number of polls passes before an interrupt: it ends
        because the interrupt is armed whenever the ring is full, and frees a slot. */
    method WaitForSpace(newHead: nat, polls: nat)
      requires Valid() && newHead == Inc(txHead, buffer.Length)
      modifies this`txTail, this`udrie, this`sent
      ensures Valid() && txTail != newHead
      ensures sent + Content(Value()) == old(sent) + old(Content(Value()))
    {
      IncWraps(txHead, buffer.Length);
      var idle := polls;
      while txTail == newHead
        invariant Valid()
        invariant sent + Content(Value()) == old(sent) + old(Content(Value()))
        decreases Length(Value()), idle
      {
        if idle > 0 {
          idle := idle - 1;
        } else {
          var udr := UdreInterrupt();
        }
      }
    }

    /** uart0_putc: the byte joins the end of the stream. */
    method Putc(data: Byte, polls: nat)
      requires Valid()
      modifies this, buffer
      ensures Valid()
      ensures sent + Content(Value()) == old(sent) + old(Content(Value())) + [data]
    {
      var newHead := (txHead + 1) % 0x100 % buffer.Length;
      WaitForSpace(newHead, polls);
      ghost var before := Content(Value());
      Insert(data, newHead);
      assert sent + (before + [data]) == (sent + before) + [data];
    }

    /** uart0_putc_noblock: refuses exactly when size-1 bytes are held. */
    method PutcNoblock(data: Byte) returns (completed: bool)
      requires Valid()
      modifies this`txHead, this`udrie, buffer
      ensures Valid()
      ensures completed <==> old(Length(Value())) < buffer.Length - 1
      ensures Content(Value()) == old(Content(Value())) + if completed then [data] else []
    {
      FullMeansSizeMinusOne(Value());
      IncWraps(txHead, buffer.Length);
      var newHead := (txHead + 1) % 0x100 % buffer.Length;
      if txTail == newHead {
        return false;
      }
      Insert(data, newHead);
      return true;
    }

    /** uart_putchar: a line feed is sent as carriage return and line feed. */
    method Putchar(data: Byte, polls: nat)
      requires Valid()
      modifies this, buffer
      ensures Valid()
      ensures sent + Content(Value()) == old(sent) + old(Content(Value())) + if data == 10 then [13, 10] else [data]
    {
      ghost var stream := sent + Content(Value());
      if data == 10 {
        Putc(13, polls);
        assert stream + [13] + [10] == stream + [13, 10];
      }
      Putc(data, polls);
    }

    /** uart0_flush: everything held on entry is sent, in order. */
    method Flush(polls: nat)
      requires Valid()
      modifies this`txTail, this`udrie, this`sent
      ensures Valid() && Content(Value()) == [] && sent == old(sent) + old(Content(Value()))
    {
      var idle := polls;
      while txTail != txHead
        invariant Valid() && sent + Content(Value()) == old(sent) + old(Content(Value()))
        decreases Length(Value()), idle
      {
        if idle > 0 {
          idle := idle - 1;
        } else {
          var udr := UdreInterrupt();
        }
      }
    }
  }
}
