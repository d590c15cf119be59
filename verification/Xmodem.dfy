/** The XMODEM receiver: a state machine fed one byte at a time, proved equal to a block-by-block
    reading of the whole byte stream. */
module Xmodem {
  import opened Prelude
  import opened Modular

  /** _crc_xmodem_update of the C library. */
  type CrcUpdate = (Word, Byte) -> Word

  const SOH: Byte := 0x01
  const EOT: Byte := 0x04
  const ACK: Byte := 0x06
  const NACK: Byte := 0x15
  const CAN: Byte := 0x18
  const BUFF_SIZE := 133
  const PAYLOAD := 128
  const FILE_SIZE := 1024

  type Buffer = s: seq<Byte> | |s| == BUFF_SIZE witness seq(BUFF_SIZE, _ => 0)
  type File = s: seq<Byte> | |s| == FILE_SIZE witness seq(FILE_SIZE, _ => 0)

  datatype Status = InProgress | Completed | Aborted

  datatype Verdict = BadPacket | GoodPacket | Duplicate

  /** The packet state and the example file buffer. */
  datatype Receiver = Receiver(
    buff: Buffer, position: nat, lastPacket: Byte, fallback: bool, file: File, filePosition: nat) {
    ghost predicate Valid() { position < BlockLength(fallback) && filePosition < FILE_SIZE }
  }

  /** 133 bytes with a CRC, 132 with a checksum. */
  function BlockLength(fallback: bool): nat { if fallback then BUFF_SIZE - 1 else BUFF_SIZE }

  function Sum(bytes: seq<Byte>): nat {
    if bytes == [] then 0 else Sum(bytes[..|bytes| - 1]) + bytes[|bytes| - 1]
  }

  function Crc(u: CrcUpdate, bytes: seq<Byte>): Word {
    if bytes == [] then 0 else u(Crc(u, bytes[..|bytes| - 1]), bytes[|bytes| - 1])
  }

  /** The check value that ends a block matches its payload. */
  predicate CheckMatches(u: CrcUpdate, fallback: bool, block: seq<Byte>)
    requires |block| >= BlockLength(fallback)
  {
    var payload := block[3..131];
    if fallback then block[131] == Sum(payload) % 0x100
    else block[131] == Crc(u, payload) / 0x100 && block[132] == Crc(u, payload) % 0x100
  }

  function Judge(u: CrcUpdate, fallback: bool, last: Byte, block: seq<Byte>): Verdict
    requires |block| >= BlockLength(fallback)
  {
    var complement: int := 0xff - block[1];
    if block[0] != SOH then BadPacket
    else if block[2] != complement then BadPacket
    else if block[1] == last then Duplicate
    else if block[1] != (last + 1) % 0x100 then BadPacket
    else if CheckMatches(u, fallback, block) then GoodPacket
    else BadPacket
  }

  /** MoveData, byte by byte around the file ring. */
  function Stored(file: File, pos: nat, bytes: seq<Byte>): (File, nat)
    requires pos < FILE_SIZE
  {
    if bytes == [] then (file, pos)
    else
      var (f, p) := Stored(file, pos, bytes[..|bytes| - 1]);
      if p < FILE_SIZE then (f[p := bytes[|bytes| - 1]], (p + 1) % FILE_SIZE) else (f, p)
  }

  /** A complete block has been received. */
  function Finish(u: CrcUpdate, s: Receiver): (Receiver, seq<Byte>)
    requires s.filePosition < FILE_SIZE
  {
    match Judge(u, s.fallback, s.lastPacket, s.buff)
    case GoodPacket =>
      var (file, pos) := Stored(s.file, s.filePosition, s.buff[3..131]);
      (s.(position := 0, lastPacket := (s.lastPacket + 1) % 0x100, file := file, filePosition := pos), [ACK])
    case Duplicate => (s.(position := 0), [ACK])
    case BadPacket => (s.(position := 0), [NACK])
  }

  /** HandleIncomingData: the new state, the status and the bytes sent back. */
  function Handle(u: CrcUpdate, s: Receiver, dat: Byte): (Receiver, Status, seq<Byte>)
    requires s.Valid()
  {
    if dat == EOT && s.position == 0 then (s, Completed, [ACK, ACK])
    else if s.position == 1 && dat == CAN && s.buff[0] == CAN then (s, Aborted, [])
    else
      var s' := s.(buff := s.buff[s.position := dat], position := s.position + 1);
      if s'.position == BlockLength(s.fallback) then
        var (f, replies) := Finish(u, s');
        (f, InProgress, replies)
      else (s', InProgress, [])
  }

  lemma {:induction false} StoredInRange(file: File, pos: nat, bytes: seq<Byte>)
    requires pos < FILE_SIZE
    ensures Stored(file, pos, bytes).1 < FILE_SIZE
  {
    if bytes != [] {
      StoredInRange(file, pos, bytes[..|bytes| - 1]);
    }
  }

  /** The buffer index and the file index stay in range for every byte. */
  lemma HandleKeepsValid(u: CrcUpdate, s: Receiver, dat: Byte)
    requires s.Valid()
    ensures Handle(u, s, dat).0.Valid() && Handle(u, s, dat).0.fallback == s.fallback
  {
    var s' := s.(buff := s.buff[s.position := dat], position := s.position + 1);
    StoredInRange(s'.file, s'.filePosition, s'.buff[3..131]);
  }

  datatype Outcome = Outcome(final: Receiver, status: Status, replies: seq<Byte>)

  /** The loop that drains the receive ring: every byte goes to HandleIncomingData, and each status
      overwrites the one before. */
  ghost function Feed(u: CrcUpdate, s: Receiver, stream: seq<Byte>): Outcome
    requires s.Valid()
    decreases |stream|
  {
    if stream == [] then Outcome(s, InProgress, [])
    else
      HandleKeepsValid(u, s, stream[0]);
      var (s', status, replies) := Handle(u, s, stream[0]);
      Before(status, replies, stream[1..], Feed(u, s', stream[1..]))
  }

  /** A byte's own status and replies, followed by the outcome of the rest. */
  ghost function Before(status: Status, replies: seq<Byte>, rest: seq<Byte>, o: Outcome): Outcome {
    o.(status := if rest == [] then status else o.status, replies := replies + o.replies)
  }

  // The block-by-block reading

  datatype Packet = Packet(number: Byte, payload: seq<Byte>, block: seq<Byte>)

  /** pending is the number of bytes of a block that is not complete yet. */
  datatype Transfer = Transfer(accepted: seq<Packet>, status: Status, replies: seq<Byte>, pending: nat)

  /** What a drained stream means: blocks of fixed length, each judged on its own. An end of
      transmission at a block boundary is acknowledged, but it ends the transfer only if nothing
      follows; the second of two cancels at a boundary aborts only if nothing follows, and the first
      one stays in the buffer as the start of a block. */
  ghost function ReadBlocks(u: CrcUpdate, fallback: bool, last: Byte, stream: seq<Byte>): Transfer
    decreases |stream|
  {
    var n := BlockLength(fallback);
    if stream == [] then Transfer([], InProgress, [], 0)
    else if stream[0] == EOT then
      var rest := ReadBlocks(u, fallback, last, stream[1..]);
      rest.(status := if |stream| == 1 then Completed else rest.status, replies := [ACK, ACK] + rest.replies)
    else if CancelsAtStart(stream) then
      if |stream| == 2 then Transfer([], Aborted, [], 1) else ReadBlocks(u, fallback, last, stream[1..])
    else if |stream| < n then Transfer([], InProgress, [], |stream|)
    else
      var block := stream[..n];
      var v := Judge(u, fallback, last, block);
      var rest := ReadBlocks(u, fallback, NumberAfter(v, last), stream[n..]);
      rest.(accepted := AcceptedFrom(v, block) + rest.accepted, replies := [ReplyTo(v)] + rest.replies)
  }

  /** Only a good packet is accepted and moves the number on; only a bad one is refused. */
  function AcceptedFrom(v: Verdict, block: seq<Byte>): seq<Packet>
    requires |block| >= 131
  {
    if v.GoodPacket? then [Packet(block[1], block[3..131], block)] else []
  }

  function NumberAfter(v: Verdict, last: Byte): Byte { if v.GoodPacket? then (last + 1) % 0x100 else last }

  function ReplyTo(v: Verdict): Byte { if v.BadPacket? then NACK else ACK }

  predicate CancelsAtStart(stream: seq<Byte>) { |stream| >= 2 && stream[0] == CAN && stream[1] == CAN }

  function Payloads(ps: seq<Packet>): seq<Byte> {
    if ps == [] then [] else ps[0].payload + Payloads(ps[1..])
  }

  /** A block of section 7 of the XMODEM reference: start byte, packet number, its complement. */
  predicate HasHeader(block: seq<Byte>, number: int)
    requires |block| >= 3
  {
    block[0] == SOH && block[1] == number && block[1] as int + block[2] as int == 0xff
  }

  /** A packet taken from a well-formed block of the right length whose check value matches. */
  ghost predicate Sound(u: CrcUpdate, fallback: bool, p: Packet, number: int) {
    && p.number == number
    && |p.block| == BlockLength(fallback) && p.payload == p.block[3..131]
    && HasHeader(p.block, number) && CheckMatches(u, fallback, p.block)
  }

  /** The three verdicts, each exactly characterised: only a packet with the next number is checked
      against its check value, and a repeated number is a duplicate whatever its payload. */
  lemma VerdictExactlyWhen(u: CrcUpdate, fallback: bool, last: Byte, block: seq<Byte>)
    requires |block| >= BlockLength(fallback)
    ensures Judge(u, fallback, last, block) == GoodPacket <==>
              HasHeader(block, (last + 1) % 0x100) && CheckMatches(u, fallback, block)
    ensures Judge(u, fallback, last, block) == Duplicate <==> HasHeader(block, last)
  {
  }

  ghost predicate AllSound(u: CrcUpdate, fallback: bool, last: Byte, ps: seq<Packet>) {
    forall i | 0 <= i < |ps| :: Sound(u, fallback, ps[i], (last + 1 + i) % 0x100)
  }

  /** Accepted packets are numbered consecutively modulo 256 and carry a matching check value. */
  lemma {:induction false} AcceptedAreConsecutive(u: CrcUpdate, fallback: bool, last: Byte, stream: seq<Byte>)
    ensures AllSound(u, fallback, last, ReadBlocks(u, fallback, last, stream).accepted)
    decreases |stream|
  {
    var n := BlockLength(fallback);
    if stream != [] && !Continues(stream) {
      AcceptedAreConsecutive(u, fallback, last, stream[1..]);
    } else if |stream| >= n {
      var block := stream[..n];
      var v := Judge(u, fallback, last, block);
      var next := NumberAfter(v, last);
      AcceptedAreConsecutive(u, fallback, next, stream[n..]);
      AcceptedWithBlock(u, fallback, last, v, block, ReadBlocks(u, fallback, last, stream).accepted,
                        ReadBlocks(u, fallback, next, stream[n..]).accepted);
    }
  }

  lemma AcceptedWithBlock(
    u: CrcUpdate, fallback: bool, last: Byte, v: Verdict, block: seq<Byte>, ps: seq<Packet>, rest: seq<Packet>)
    requires |block| == BlockLength(fallback) && v == Judge(u, fallback, last, block)
    requires AllSound(u, fallback, NumberAfter(v, last), rest)
    requires ps == AcceptedFrom(v, block) + rest
    ensures AllSound(u, fallback, last, ps)
  {
    if v.GoodPacket? {
      VerdictExactlyWhen(u, fallback, last, block);
      AllSoundCons(u, fallback, last, ps[0], rest);
    } else {
      assert ps == rest;
    }
  }

  lemma AllSoundCons(u: CrcUpdate, fallback: bool, last: Byte, p: Packet, rest: seq<Packet>)
    requires Sound(u, fallback, p, (last + 1) % 0x100) && AllSound(u, fallback, (last + 1) % 0x100, rest)
    ensures AllSound(u, fallback, last, [p] + rest)
  {
    var ps := [p] + rest;
    forall i | 0 <= i < |ps| ensures Sound(u, fallback, ps[i], (last + 1 + i) % 0x100) {
      if i > 0 {
        NumberStep(last, i);
        assert ps[i] == rest[i - 1];
      }
    }
  }

  lemma NumberStep(last: Byte, i: nat)
    requires i > 0
    ensures ((last + 1) % 0x100 + 1 + (i - 1)) % 0x100 == (last + 1 + i) % 0x100
  {
    AddWraps(last + 1, i, 0x100);
  }

  // The file ring

  /** The ring holds the last 1024 bytes of a history; byte i of the history is in slot
      (start + i) mod 1024. */
  ghost predicate Holds(file: File, pos: nat, start: nat, history: seq<Byte>) {
    && |history| >= FILE_SIZE
    && pos == (start + |history|) % FILE_SIZE
    && forall i | |history| - FILE_SIZE <= i < |history| :: file[(start + i) % FILE_SIZE] == history[i]
  }

  /** The history before a transfer: the file as found, from the write position around. */
  function AsFound(file: File, pos: nat): seq<Byte>
    requires pos < FILE_SIZE
  {
    file[pos..] + file[..pos]
  }

  lemma AsFoundHolds(file: File, pos: nat)
    requires pos < FILE_SIZE
    ensures Holds(file, pos, pos, AsFound(file, pos))
  {
  }

  lemma {:induction false} StoredHolds(file: File, pos: nat, start: nat, history: seq<Byte>, bytes: seq<Byte>)
    requires pos < FILE_SIZE && Holds(file, pos, start, history)
    ensures var (f, p) := Stored(file, pos, bytes); p < FILE_SIZE && Holds(f, p, start, history + bytes)
  {
    if bytes == [] {
      assert history + bytes == history;
    } else {
      var n := |bytes| - 1;
      StoredHolds(file, pos, start, history, bytes[..n]);
      var (f, p) := Stored(file, pos, bytes[..n]);
      StoreOne(f, p, start, history + bytes[..n], bytes[n]);
      assert history + bytes == history + bytes[..n] + [bytes[n]];
    }
  }

  lemma StoreOne(f: File, p: nat, start: nat, history: seq<Byte>, b: Byte)
    requires p < FILE_SIZE && Holds(f, p, start, history)
    ensures Holds(f[p := b], (p + 1) % FILE_SIZE, start, history + [b])
  {
    var h := history + [b];
    forall i | |h| - FILE_SIZE <= i < |h| ensures f[p := b][(start + i) % FILE_SIZE] == h[i] {
      if i < |history| {
        assert (start + i) % FILE_SIZE != (start + |history|) % FILE_SIZE;
      }
    }
  }

  // The byte machine equals the block reading

  /** The state after the first k bytes of a block have been buffered. */
  function Filled(s: Receiver, stream: seq<Byte>, k: nat): Receiver
    requires k <= |stream| && k < BUFF_SIZE
  {
    s.(buff := stream[..k] + s.buff[k..], position := k)
  }

  /** Neither an end of transmission nor a double cancel at the start of the block. */
  predicate Continues(stream: seq<Byte>) { stream != [] && stream[0] != EOT && !CancelsAtStart(stream) }

  lemma {:induction false} Filling(u: CrcUpdate, s: Receiver, stream: seq<Byte>, k: nat)
    requires s.Valid() && s.position == 0 && Continues(stream)
    requires k <= |stream| && k < BlockLength(s.fallback)
    ensures Filled(s, stream, k).Valid()
    ensures Feed(u, s, stream) == Feed(u, Filled(s, stream, k), stream[k..])
  {
    if k == 0 {
      assert Filled(s, stream, 0) == s;
      assert stream[0..] == stream;
    } else {
      Filling(u, s, stream, k - 1);
      BufferOne(u, s, stream, k);
      FeedQuiet(u, Filled(s, stream, k - 1), Filled(s, stream, k), stream[k - 1..]);
      assert stream[k - 1..][1..] == stream[k..];
    }
  }

  /** A byte that is only buffered leaves the outcome to the rest of the stream. */
  lemma FeedQuiet(u: CrcUpdate, a: Receiver, b: Receiver, stream: seq<Byte>)
    requires a.Valid() && b.Valid() && stream != [] && Handle(u, a, stream[0]) == (b, InProgress, [])
    ensures Feed(u, a, stream) == Feed(u, b, stream[1..])
  {
    var o := Feed(u, b, stream[1..]);
    assert [] + o.replies == o.replies;
  }

  lemma BufferOne(u: CrcUpdate, s: Receiver, stream: seq<Byte>, k: nat)
    requires s.Valid() && Continues(stream) && 1 <= k <= |stream| && k < BlockLength(s.fallback)
    ensures Filled(s, stream, k - 1).Valid()
    ensures Handle(u, Filled(s, stream, k - 1), stream[k - 1]) == (Filled(s, stream, k), InProgress, [])
  {
    var a := Filled(s, stream, k - 1);
    assert a.buff[k - 1 := stream[k - 1]] == stream[..k] + s.buff[k..];
    if k == 2 {
      assert a.buff[0] == stream[0];
    }
  }

  /** The last byte of a block hands the whole block to the judge. */
  lemma LastByte(u: CrcUpdate, s: Receiver, stream: seq<Byte>)
    requires s.Valid() && Continues(stream) && |stream| >= BlockLength(s.fallback)
    ensures
      var n := BlockLength(s.fallback);
      var full := s.(buff := stream[..n] + s.buff[n..], position := n);
      var (f, replies) := Finish(u, full);
      && Filled(s, stream, n - 1).Valid()
      && Handle(u, Filled(s, stream, n - 1), stream[n - 1]) == (f, InProgress, replies)
  {
    var n := BlockLength(s.fallback);
    var a := Filled(s, stream, n - 1);
    assert a.buff[n - 1 := stream[n - 1]] == stream[..n] + s.buff[n..];
  }

  lemma JudgeIgnoresSpare(u: CrcUpdate, fallback: bool, last: Byte, block: seq<Byte>, spare: seq<Byte>)
    requires |block| == BlockLength(fallback)
    ensures Judge(u, fallback, last, block + spare) == Judge(u, fallback, last, block)
  {
    assert (block + spare)[3..131] == block[3..131];
  }

  /** The receiver after the first whole block of a stream. */
  function AfterBlock(u: CrcUpdate, s: Receiver, stream: seq<Byte>): Receiver
    requires s.filePosition < FILE_SIZE && |stream| >= BlockLength(s.fallback)
  {
    var n := BlockLength(s.fallback);
    Finish(u, s.(buff := stream[..n] + s.buff[n..], position := n)).0
  }

  function FirstVerdict(u: CrcUpdate, s: Receiver, stream: seq<Byte>): Verdict
    requires |stream| >= BlockLength(s.fallback)
  {
    Judge(u, s.fallback, s.lastPacket, stream[..BlockLength(s.fallback)])
  }

  /** The payload bytes a block contributes. */
  function Contribution(v: Verdict, stream: seq<Byte>): seq<Byte>
    requires |stream| >= 131
  {
    if v.GoodPacket? then stream[3..131] else []
  }

  lemma FinishBlock(u: CrcUpdate, s: Receiver, stream: seq<Byte>)
    requires s.Valid() && |stream| >= BlockLength(s.fallback)
    ensures
      var n := BlockLength(s.fallback);
      Finish(u, s.(buff := stream[..n] + s.buff[n..], position := n))
      == (AfterBlock(u, s, stream), [ReplyTo(FirstVerdict(u, s, stream))])
  {
    var n := BlockLength(s.fallback);
    JudgeIgnoresSpare(u, s.fallback, s.lastPacket, stream[..n], s.buff[n..]);
  }

  lemma OneBlock(u: CrcUpdate, s: Receiver, stream: seq<Byte>)
    requires s.Valid() && s.position == 0 && Continues(stream) && |stream| >= BlockLength(s.fallback)
    ensures AfterBlock(u, s, stream).Valid()
    ensures
      var rest := Feed(u, AfterBlock(u, s, stream), stream[BlockLength(s.fallback)..]);
      Feed(u, s, stream) == rest.(replies := [ReplyTo(FirstVerdict(u, s, stream))] + rest.replies)
  {
    var n := BlockLength(s.fallback);
    Filling(u, s, stream, n - 1);
    LastByte(u, s, stream);
    FinishBlock(u, s, stream);
    FeedReply(u, Filled(s, stream, n - 1), AfterBlock(u, s, stream), stream[n - 1..],
              ReplyTo(FirstVerdict(u, s, stream)));
    assert stream[n - 1..][1..] == stream[n..];
  }

  /** A byte that completes a block sends its reply before the rest of the stream. */
  lemma FeedReply(u: CrcUpdate, a: Receiver, b: Receiver, stream: seq<Byte>, reply: Byte)
    requires a.Valid() && stream != [] && Handle(u, a, stream[0]) == (b, InProgress, [reply])
    ensures b.Valid()
    ensures
      var rest := Feed(u, b, stream[1..]);
      Feed(u, a, stream) == rest.(replies := [reply] + rest.replies)
  {
    HandleKeepsValid(u, a, stream[0]);
  }

  /** What the receiver's outcome must be, given the block reading t of its stream. */
  ghost predicate Realises(o: Outcome, t: Transfer, last: Byte, start: nat, history: seq<Byte>) {
    && o.status == t.status && o.replies == t.replies && o.final.position == t.pending
    && o.final.lastPacket == (last + |t.accepted|) % 0x100
    && Holds(o.final.file, o.final.filePosition, start, history + Payloads(t.accepted))
  }

  /** Feeding bytes one at a time from position 0 sends the replies, reaches the status, and leaves
      in the file ring exactly the accepted payloads in order, as the block reading says. */
  lemma {:induction false} ReceiverRealisesBlocks(
    u: CrcUpdate, s: Receiver, stream: seq<Byte>, start: nat, history: seq<Byte>)
    requires s.Valid() && s.position == 0 && Holds(s.file, s.filePosition, start, history)
    ensures Realises(Feed(u, s, stream), ReadBlocks(u, s.fallback, s.lastPacket, stream), s.lastPacket, start, history)
    decreases |stream|
  {
    if stream == [] {
      NothingAccepted(Outcome(s, InProgress, []), Transfer([], InProgress, [], 0), start, history);
    } else if stream[0] == EOT {
      ReceiverRealisesBlocks(u, s, stream[1..], start, history);
      EndOfTransmission(u, s, stream, start, history);
    } else if CancelsAtStart(stream) {
      CancelTwice(u, s, stream);
      if |stream| == 2 {
        NothingAccepted(Feed(u, s, stream), Transfer([], Aborted, [], 1), start, history);
      } else {
        ReceiverRealisesBlocks(u, s, stream[1..], start, history);
      }
    } else if |stream| < BlockLength(s.fallback) {
      Filling(u, s, stream, |stream|);
      NothingAccepted(Outcome(Filled(s, stream, |stream|), InProgress, []), Transfer([], InProgress, [], |stream|),
                      start, history);
    } else {
      WholeBlock(u, s, stream, start, history);
      ReceiverRealisesBlocks(u, AfterBlock(u, s, stream), stream[BlockLength(s.fallback)..], start,
                             history + Contribution(FirstVerdict(u, s, stream), stream));
      BlockAndRest(u, s, stream, start, history);
    }
  }

  lemma NothingAccepted(o: Outcome, t: Transfer, start: nat, history: seq<Byte>)
    requires t.accepted == [] && o.status == t.status && o.replies == t.replies && o.final.position == t.pending
    requires Holds(o.final.file, o.final.filePosition, start, history)
    ensures Realises(o, t, o.final.lastPacket, start, history)
  {
    assert history + Payloads([]) == history;
    SmallNumber(o.final.lastPacket);
  }

  lemma SmallNumber(x: Byte)
    ensures (x + 0) % 0x100 == x
  {
  }

  /** An end of transmission at a block boundary changes nothing but replies and status. */
  lemma EndOfTransmission(u: CrcUpdate, s: Receiver, stream: seq<Byte>, start: nat, history: seq<Byte>)
    requires s.Valid() && s.position == 0 && stream != [] && stream[0] == EOT
    requires Realises(Feed(u, s, stream[1..]), ReadBlocks(u, s.fallback, s.lastPacket, stream[1..]), s.lastPacket,
                      start, history)
    ensures Realises(Feed(u, s, stream), ReadBlocks(u, s.fallback, s.lastPacket, stream), s.lastPacket, start, history)
  {
    EotFeed(u, s, stream);
    EotRead(u, s.fallback, s.lastPacket, stream);
    EotTogether(|stream| == 1, Feed(u, s, stream), Feed(u, s, stream[1..]),
                ReadBlocks(u, s.fallback, s.lastPacket, stream),
                ReadBlocks(u, s.fallback, s.lastPacket, stream[1..]), s.lastPacket, start, history);
  }

  lemma EotFeed(u: CrcUpdate, s: Receiver, stream: seq<Byte>)
    requires s.Valid() && s.position == 0 && stream != [] && stream[0] == EOT
    ensures
      var rest := Feed(u, s, stream[1..]);
      Feed(u, s, stream)
      == rest.(status := if |stream| == 1 then Completed else rest.status, replies := [ACK, ACK] + rest.replies)
  {
  }

  lemma EotRead(u: CrcUpdate, fallback: bool, last: Byte, stream: seq<Byte>)
    requires stream != [] && stream[0] == EOT
    ensures
      var rest := ReadBlocks(u, fallback, last, stream[1..]);
      ReadBlocks(u, fallback, last, stream)
      == rest.(status := if |stream| == 1 then Completed else rest.status, replies := [ACK, ACK] + rest.replies)
  {
  }

  lemma EotTogether(
    alone: bool, o: Outcome, rest: Outcome, t: Transfer, tail: Transfer, last: Byte, start: nat, history: seq<Byte>)
    requires Realises(rest, tail, last, start, history)
    requires o == rest.(status := if alone then Completed else rest.status, replies := [ACK, ACK] + rest.replies)
    requires t == tail.(status := if alone then Completed else tail.status, replies := [ACK, ACK] + tail.replies)
    ensures Realises(o, t, last, start, history)
  {
  }

  /** The second cancel is not stored: the receiver is where the first one alone would have put it. */
  lemma CancelTwice(u: CrcUpdate, s: Receiver, stream: seq<Byte>)
    requires s.Valid() && s.position == 0 && stream != [] && stream[0] != EOT && CancelsAtStart(stream)
    ensures |stream| == 2 ==> Feed(u, s, stream) == Outcome(Filled(s, stream, 1), Aborted, [])
    ensures |stream| > 2 ==> Feed(u, s, stream) == Feed(u, s, stream[1..])
  {
    var s1 := Filled(s, stream, 1);
    assert s.buff[0 := CAN] == stream[..1] + s.buff[1..];
    assert Handle(u, s, CAN) == (s1, InProgress, []);
    assert s1.buff[0] == CAN;
    assert Handle(u, s1, CAN) == (s1, Aborted, []);
    FeedQuiet(u, s, s1, stream);
    var o := Feed(u, s1, stream[1..][1..]);
    assert [] + o.replies == o.replies;
    assert Feed(u, s1, stream[1..]) == Before(Aborted, [], stream[1..][1..], o);
    if |stream| > 2 {
      FeedQuiet(u, s, s1, stream[1..]);
    }
  }

  lemma BlockAndRest(u: CrcUpdate, s: Receiver, stream: seq<Byte>, start: nat, history: seq<Byte>)
    requires s.Valid() && s.position == 0 && Continues(stream) && |stream| >= BlockLength(s.fallback)
    requires AfterBlock(u, s, stream).Valid()
    requires
      var rest, last := stream[BlockLength(s.fallback)..], NumberAfter(FirstVerdict(u, s, stream), s.lastPacket);
      Realises(Feed(u, AfterBlock(u, s, stream), rest), ReadBlocks(u, s.fallback, last, rest), last, start,
               history + Contribution(FirstVerdict(u, s, stream), stream))
    ensures Realises(Feed(u, s, stream), ReadBlocks(u, s.fallback, s.lastPacket, stream), s.lastPacket, start, history)
  {
    var rest, v := stream[BlockLength(s.fallback)..], FirstVerdict(u, s, stream);
    OneBlock(u, s, stream);
    ReadBlocksStep(u, s, stream);
    Assemble(Feed(u, s, stream), Feed(u, AfterBlock(u, s, stream), rest),
             ReadBlocks(u, s.fallback, s.lastPacket, stream),
             ReadBlocks(u, s.fallback, NumberAfter(v, s.lastPacket), rest),
             s.lastPacket, v, Contribution(v, stream), start, history);
  }

  /** The state after one whole block, by verdict: a good packet moves the number on and adds its
      payload to the file, any other packet changes neither. */
  lemma WholeBlock(u: CrcUpdate, s: Receiver, stream: seq<Byte>, start: nat, history: seq<Byte>)
    requires s.Valid() && |stream| >= BlockLength(s.fallback)
    requires Holds(s.file, s.filePosition, start, history)
    ensures
      var f, v := AfterBlock(u, s, stream), FirstVerdict(u, s, stream);
      && f.Valid() && f.position == 0 && f.fallback == s.fallback
      && f.lastPacket == NumberAfter(v, s.lastPacket)
      && Holds(f.file, f.filePosition, start, history + Contribution(v, stream))
  {
    var n := BlockLength(s.fallback);
    var buff := stream[..n] + s.buff[n..];
    JudgeIgnoresSpare(u, s.fallback, s.lastPacket, stream[..n], s.buff[n..]);
    assert buff[3..131] == stream[3..131];
    assert history + [] == history;
    StoredHolds(s.file, s.filePosition, start, history, stream[3..131]);
  }

  /** A transfer t is a block with verdict v and payload bytes more, followed by a transfer rest. */
  ghost predicate BlockThen(t: Transfer, v: Verdict, more: seq<Byte>, rest: Transfer) {
    && t.status == rest.status && t.pending == rest.pending
    && t.replies == [ReplyTo(v)] + rest.replies
    && |t.accepted| == |rest.accepted| + (if v.GoodPacket? then 1 else 0)
    && Payloads(t.accepted) == more + Payloads(rest.accepted)
  }

  /** One block's contribution to the block reading. */
  lemma ReadBlocksStep(u: CrcUpdate, s: Receiver, stream: seq<Byte>)
    requires Continues(stream) && |stream| >= BlockLength(s.fallback)
    ensures
      var v := FirstVerdict(u, s, stream);
      var rest := ReadBlocks(u, s.fallback, NumberAfter(v, s.lastPacket), stream[BlockLength(s.fallback)..]);
      BlockThen(ReadBlocks(u, s.fallback, s.lastPacket, stream), v, Contribution(v, stream), rest)
  {
    var n, v := BlockLength(s.fallback), FirstVerdict(u, s, stream);
    BlockReadAs(u, s.fallback, s.lastPacket, stream);
    BlockThenIs(ReadBlocks(u, s.fallback, s.lastPacket, stream), v, stream, n,
                ReadBlocks(u, s.fallback, NumberAfter(v, s.lastPacket), stream[n..]));
  }

  lemma BlockReadAs(u: CrcUpdate, fallback: bool, last: Byte, stream: seq<Byte>)
    requires Continues(stream) && |stream| >= BlockLength(fallback)
    ensures
      var n := BlockLength(fallback);
      var v := Judge(u, fallback, last, stream[..n]);
      var rest := ReadBlocks(u, fallback, NumberAfter(v, last), stream[n..]);
      ReadBlocks(u, fallback, last, stream)
      == rest.(accepted := AcceptedFrom(v, stream[..n]) + rest.accepted, replies := [ReplyTo(v)] + rest.replies)
  {
  }

  lemma BlockThenIs(t: Transfer, v: Verdict, stream: seq<Byte>, n: nat, rest: Transfer)
    requires 131 <= n <= |stream|
    requires t == rest.(accepted := AcceptedFrom(v, stream[..n]) + rest.accepted,
                        replies := [ReplyTo(v)] + rest.replies)
    ensures BlockThen(t, v, Contribution(v, stream), rest)
  {
    assert stream[..n][3..131] == stream[3..131];
    PayloadsOfBlock(v, stream[..n], rest.accepted);
  }

  lemma PayloadsOfBlock(v: Verdict, block: seq<Byte>, rest: seq<Packet>)
    requires |block| >= 131
    ensures Payloads(AcceptedFrom(v, block) + rest) == Contribution(v, block) + Payloads(rest)
  {
    var ps := AcceptedFrom(v, block) + rest;
    if v.GoodPacket? {
      assert ps[1..] == rest;
    } else {
      assert ps == rest;
    }
  }

  /** An outcome realised for the rest of the stream is realised for block and rest together. */
  lemma Assemble(
    o: Outcome, rest: Outcome, t: Transfer, tail: Transfer, last: Byte, v: Verdict, more: seq<Byte>,
    start: nat, history: seq<Byte>)
    requires Realises(rest, tail, NumberAfter(v, last), start, history + more)
    requires o == rest.(replies := [ReplyTo(v)] + rest.replies) && BlockThen(t, v, more, tail)
    ensures Realises(o, t, last, start, history)
  {
    assert history + more + Payloads(tail.accepted) == history + (more + Payloads(tail.accepted));
    AddWraps(last + 1, |tail.accepted|, 0x100);
  }

  /** Whatever is drained in one transfer from position 0 with no packet received yet: the accepted
      packets are 1, 2, 3, ... modulo 256, each with a matching check value, and the file ring holds
      what it held before followed by exactly their payloads. */
  lemma OneTransfer(u: CrcUpdate, s: Receiver, stream: seq<Byte>)
    requires s.Valid() && s.position == 0 && s.lastPacket == 0
    ensures
      var t := ReadBlocks(u, s.fallback, 0, stream);
      && AllSound(u, s.fallback, 0, t.accepted)
      && Realises(Feed(u, s, stream), t, 0, s.filePosition, AsFound(s.file, s.filePosition))
  {
    AcceptedAreConsecutive(u, s.fallback, 0, stream);
    AsFoundHolds(s.file, s.filePosition);
    ReceiverRealisesBlocks(u, s, stream, s.filePosition, AsFound(s.file, s.filePosition));
  }

  // The sender

  /** The sum of a payload's bytes, as a sender adds them up from the first on. */
  function SenderSum(payload: seq<Byte>): nat {
    if payload == [] then 0 else payload[0] + SenderSum(payload[1..])
  }

  /** The CRC register as a sender shifts the bytes in, from the first on. */
  function SenderCrc(u: CrcUpdate, register: Word, payload: seq<Byte>): Word
    decreases |payload|
  {
    if payload == [] then register else SenderCrc(u, u(register, payload[0]), payload[1..])
  }

  /** The bytes that end a block: one checksum byte, or the CRC with its high byte first. */
  function SenderCheck(u: CrcUpdate, fallback: bool, payload: seq<Byte>): seq<Byte> {
    if fallback then [SenderSum(payload) % 0x100]
    else [SenderCrc(u, 0, payload) / 0x100, SenderCrc(u, 0, payload) % 0x100]
  }

  /** A block of section 7 of the XMODEM reference, as a sender builds it, starting with byte 1. */
  function SenderBlock(u: CrcUpdate, fallback: bool, number: Byte, payload: seq<Byte>): seq<Byte> {
    [0x01, number, 0xff - number] + payload + SenderCheck(u, fallback, payload)
  }

  lemma {:induction false} SumIsSenderSum(bytes: seq<Byte>, b: Byte)
    ensures Sum(bytes) == SenderSum(bytes)
    ensures SenderSum(bytes + [b]) == SenderSum(bytes) + b
    decreases |bytes|, 1
  {
    SenderSumSnoc(bytes, b);
    if bytes != [] {
      var n := |bytes| - 1;
      SumIsSenderSum(bytes[..n], bytes[n]);
      assert bytes == bytes[..n] + [bytes[n]];
    }
  }

  lemma {:induction false} SenderSumSnoc(bytes: seq<Byte>, b: Byte)
    ensures SenderSum(bytes + [b]) == SenderSum(bytes) + b
    decreases |bytes|, 0
  {
    if bytes != [] {
      SenderSumSnoc(bytes[1..], b);
      assert (bytes + [b])[1..] == bytes[1..] + [b];
    }
  }

  lemma {:induction false} SenderCrcSnoc(u: CrcUpdate, register: Word, bytes: seq<Byte>, b: Byte)
    ensures SenderCrc(u, register, bytes + [b]) == u(SenderCrc(u, register, bytes), b)
    decreases |bytes|
  {
    if bytes != [] {
      SenderCrcSnoc(u, u(register, bytes[0]), bytes[1..], b);
      assert (bytes + [b])[1..] == bytes[1..] + [b];
    } else {
      assert ([] + [b])[1..] == [];
    }
  }

  lemma {:induction false} CrcIsSenderCrc(u: CrcUpdate, bytes: seq<Byte>)
    ensures Crc(u, bytes) == SenderCrc(u, 0, bytes)
  {
    if bytes != [] {
      var n := |bytes| - 1;
      CrcIsSenderCrc(u, bytes[..n]);
      SenderCrcSnoc(u, 0, bytes[..n], bytes[n]);
      assert bytes == bytes[..n] + [bytes[n]];
    }
  }

  /** The receiver accepts exactly what a sender sends next: a packet is good if and only if it is the
      sender's block with the next number and some payload of 128 bytes, in either mode. */
  lemma GoodExactlyForSenderBlocks(u: CrcUpdate, fallback: bool, last: Byte, block: seq<Byte>)
    requires |block| == BlockLength(fallback)
    ensures Judge(u, fallback, last, block) == GoodPacket <==>
              exists payload: seq<Byte> ::
                |payload| == 128 && block == SenderBlock(u, fallback, (last + 1) % 0x100, payload)
  {
    VerdictExactlyWhen(u, fallback, last, block);
    if Judge(u, fallback, last, block) == GoodPacket {
      GoodIsSenderBlock(u, fallback, (last + 1) % 0x100, block);
    }
    forall payload: seq<Byte> |
      |payload| == 128 && block == SenderBlock(u, fallback, (last + 1) % 0x100, payload)
      ensures Judge(u, fallback, last, block) == GoodPacket
    {
      SenderBlockIsGood(u, fallback, last, payload);
    }
  }

  lemma GoodIsSenderBlock(u: CrcUpdate, fallback: bool, number: Byte, block: seq<Byte>)
    requires |block| == BlockLength(fallback) && HasHeader(block, number) && CheckMatches(u, fallback, block)
    ensures |block[3..131]| == 128 && block == SenderBlock(u, fallback, number, block[3..131])
  {
    var payload := block[3..131];
    SumIsSenderSum(payload, 0);
    CrcIsSenderCrc(u, payload);
    assert block == block[..3] + payload + block[131..];
    assert block[..3] == [SOH, number, 0xff - number];
    assert block[131..] == SenderCheck(u, fallback, payload);
  }

  lemma SenderBlockIsGood(u: CrcUpdate, fallback: bool, last: Byte, payload: seq<Byte>)
    requires |payload| == 128
    ensures
      var block := SenderBlock(u, fallback, (last + 1) % 0x100, payload);
      |block| == BlockLength(fallback) && block[3..131] == payload && Judge(u, fallback, last, block) == GoodPacket
  {
    var block := SenderBlock(u, fallback, (last + 1) % 0x100, payload);
    assert block[3..131] == payload;
    assert block[131..] == SenderCheck(u, fallback, payload);
    SumIsSenderSum(payload, 0);
    CrcIsSenderCrc(u, payload);
    VerdictExactlyWhen(u, fallback, last, block);
  }

  /** The sender's blocks for a sequence of payloads, numbered after last. */
  function SenderBlocks(u: CrcUpdate, fallback: bool, last: Byte, payloads: seq<seq<Byte>>): seq<Byte>
    decreases |payloads|
  {
    if payloads == [] then []
    else SenderBlock(u, fallback, (last + 1) % 0x100, payloads[0])
         + SenderBlocks(u, fallback, (last + 1) % 0x100, payloads[1..])
  }

  function Concatenated(payloads: seq<seq<Byte>>): seq<Byte> {
    if payloads == [] then [] else payloads[0] + Concatenated(payloads[1..])
  }

  /** k acknowledgements, byte 6 each. */
  function Acks(k: nat): seq<Byte> { seq(k, _ => 0x06) }

  /** The end of transmission, byte 4, if it is sent. */
  function Ending(finish: bool): seq<Byte> { if finish then [0x04] else [] }

  ghost predicate WholePayloads(payloads: seq<seq<Byte>>) {
    forall i | 0 <= i < |payloads| :: |payloads[i]| == 128
  }

  /** What k blocks and perhaps an end of transmission are read as. */
  ghost predicate ReadAsSent(t: Transfer, payloads: seq<seq<Byte>>, finish: bool) {
    && t.status == (if finish then Completed else InProgress) && t.pending == 0
    && t.replies == Acks(|payloads|) + (if finish then [ACK, ACK] else [])
    && |t.accepted| == |payloads| && Payloads(t.accepted) == Concatenated(payloads)
  }

  lemma {:induction false} SenderIsRead(
    u: CrcUpdate, fallback: bool, last: Byte, payloads: seq<seq<Byte>>, finish: bool)
    requires WholePayloads(payloads)
    ensures ReadAsSent(ReadBlocks(u, fallback, last, SenderBlocks(u, fallback, last, payloads) + Ending(finish)),
                       payloads, finish)
    decreases |payloads|
  {
    if payloads == [] {
      EndingIsRead(u, fallback, last, finish);
      assert [] + Ending(finish) == Ending(finish);
    } else {
      var next := (last + 1) % 0x100;
      SenderIsRead(u, fallback, next, payloads[1..], finish);
      var rest := SenderBlocks(u, fallback, next, payloads[1..]) + Ending(finish);
      var block := SenderBlock(u, fallback, next, payloads[0]);
      assert SenderBlocks(u, fallback, last, payloads) + Ending(finish) == block + rest;
      BlockIsRead(u, fallback, last, payloads[0], rest);
      OneMoreSent(ReadBlocks(u, fallback, last, block + rest), ReadBlocks(u, fallback, next, rest), payloads, finish);
    }
  }

  lemma EndingIsRead(u: CrcUpdate, fallback: bool, last: Byte, finish: bool)
    ensures ReadAsSent(ReadBlocks(u, fallback, last, Ending(finish)), [], finish)
  {
    if finish {
      assert [EOT][1..] == [];
      EotRead(u, fallback, last, [EOT]);
    }
  }

  lemma BlockIsRead(u: CrcUpdate, fallback: bool, last: Byte, payload: seq<Byte>, rest: seq<Byte>)
    requires |payload| == 128
    ensures
      var next: Byte := (last + 1) % 0x100;
      var t := ReadBlocks(u, fallback, next, rest);
      BlockThen(ReadBlocks(u, fallback, last, SenderBlock(u, fallback, next, payload) + rest), GoodPacket, payload, t)
  {
    var next: Byte := (last + 1) % 0x100;
    var block := SenderBlock(u, fallback, next, payload);
    var n := BlockLength(fallback);
    SenderBlockIsGood(u, fallback, last, payload);
    assert (block + rest)[..n] == block && (block + rest)[n..] == rest;
    assert (block + rest)[3..131] == block[3..131];
    BlockReadAs(u, fallback, last, block + rest);
    BlockThenIs(ReadBlocks(u, fallback, last, block + rest), GoodPacket, block + rest, n,
                ReadBlocks(u, fallback, next, rest));
  }

  lemma OneMoreSent(t: Transfer, rest: Transfer, payloads: seq<seq<Byte>>, finish: bool)
    requires payloads != [] && BlockThen(t, GoodPacket, payloads[0], rest) && ReadAsSent(rest, payloads[1..], finish)
    ensures ReadAsSent(t, payloads, finish)
  {
    assert [ACK] + (Acks(|payloads| - 1) + if finish then [ACK, ACK] else [])
        == Acks(|payloads|) + if finish then [ACK, ACK] else [];
  }

  /** k acknowledgements, the number moved on by k, exactly the payloads in the file ring, and the
      transfer completed if an end of transmission was sent. */
  ghost predicate Arrived(
    o: Outcome, last: Byte, payloads: seq<seq<Byte>>, finish: bool, start: nat, history: seq<Byte>)
  {
    && o.status == (if finish then Completed else InProgress) && o.final.position == 0
    && o.replies == Acks(|payloads|) + (if finish then [ACK, ACK] else [])
    && o.final.lastPacket == (last + |payloads|) % 0x100
    && Holds(o.final.file, o.final.filePosition, start, history + Concatenated(payloads))
  }

  /** The round trip: what a sender sends arrives. The blocks of k payloads, fed from position 0 after
      packet last, are answered with k acknowledgements and leave exactly those payloads in the file
      ring; an end of transmission behind them completes the transfer. */
  lemma TransferRoundTrip(
    u: CrcUpdate, s: Receiver, payloads: seq<seq<Byte>>, finish: bool, start: nat, history: seq<Byte>)
    requires s.Valid() && s.position == 0 && Holds(s.file, s.filePosition, start, history) && WholePayloads(payloads)
    ensures Arrived(Feed(u, s, SenderBlocks(u, s.fallback, s.lastPacket, payloads) + Ending(finish)),
                    s.lastPacket, payloads, finish, start, history)
  {
    var stream := SenderBlocks(u, s.fallback, s.lastPacket, payloads) + Ending(finish);
    SenderIsRead(u, s.fallback, s.lastPacket, payloads, finish);
    ReceiverRealisesBlocks(u, s, stream, start, history);
    ArrivesAsSent(Feed(u, s, stream), ReadBlocks(u, s.fallback, s.lastPacket, stream), s.lastPacket,
                  payloads, finish, start, history);
  }

  lemma ArrivesAsSent(
    o: Outcome, t: Transfer, last: Byte, payloads: seq<seq<Byte>>, finish: bool, start: nat, history: seq<Byte>)
    requires Realises(o, t, last, start, history) && ReadAsSent(t, payloads, finish)
    ensures Arrived(o, last, payloads, finish, start, history)
  {
    assert history + Payloads(t.accepted) == history + Concatenated(payloads);
  }

  // The main loop

  lemma {:induction false} FeedKeepsValid(u: CrcUpdate, s: Receiver, stream: seq<Byte>)
    requires s.Valid()
    ensures Feed(u, s, stream).final.Valid() && Feed(u, s, stream).final.fallback == s.fallback
    decreases |stream|
  {
    if stream != [] {
      HandleKeepsValid(u, s, stream[0]);
      FeedKeepsValid(u, Handle(u, s, stream[0]).0, stream[1..]);
    }
  }

  /** Draining in two parts is draining the whole; the status is that of the last byte. */
  lemma {:induction false} FeedConcat(u: CrcUpdate, s: Receiver, a: seq<Byte>, b: seq<Byte>)
    requires s.Valid()
    ensures Feed(u, s, a).final.Valid()
    ensures
      var first := Feed(u, s, a);
      Feed(u, s, a + b) == Before(first.status, first.replies, b, Feed(u, first.final, b))
    decreases |a|
  {
    FeedKeepsValid(u, s, a);
    if a == [] {
      assert a + b == b;
      var o := Feed(u, s, b);
      assert [] + o.replies == o.replies;
    } else {
      HandleKeepsValid(u, s, a[0]);
      var (s', status, replies) := Handle(u, s, a[0]);
      FeedConcat(u, s', a[1..], b);
      assert (a + b)[1..] == a[1..] + b;
      BeforeConcat(status, replies, a[1..], b, Feed(u, s', a[1..]), Feed(u, Feed(u, s', a[1..]).final, b));
    }
  }

  lemma BeforeConcat(status: Status, replies: seq<Byte>, a: seq<Byte>, b: seq<Byte>, first: Outcome, second: Outcome)
    requires a == [] ==> first.status == InProgress
    ensures
      var whole := Before(status, replies, a, first);
      Before(status, replies, a + b, Before(first.status, first.replies, b, second))
      == Before(whole.status, whole.replies, b, second)
  {
    assert replies + (first.replies + second.replies) == (replies + first.replies) + second.replies;
  }

  /** When a drained transfer ends as completed: exactly when the last byte drained is an end of
      transmission at a block boundary. A byte queued behind it puts the transfer back in progress. */
  lemma CompletesExactlyWhen(u: CrcUpdate, s: Receiver, stream: seq<Byte>)
    requires s.Valid() && s.position == 0
    ensures Feed(u, s, stream).status == Completed <==>
              && stream != [] && stream[|stream| - 1] == EOT
              && ReadBlocks(u, s.fallback, s.lastPacket, stream[..|stream| - 1]).pending == 0
  {
    if stream != [] {
      var n := |stream| - 1;
      AsFoundHolds(s.file, s.filePosition);
      ReceiverRealisesBlocks(u, s, stream[..n], s.filePosition, AsFound(s.file, s.filePosition));
      LastByteDecides(u, s, stream[..n], stream[n]);
      assert stream == stream[..n] + [stream[n]];
    }
  }

  /** One byte queued behind the end of transmission: both are acknowledged as far as they go, and the
      transfer is in progress again. */
  lemma QueuedByteHidesCompletion(u: CrcUpdate, s: Receiver, b: Byte)
    requires s.Valid() && s.position == 0 && b != EOT
    ensures Feed(u, s, [EOT, b]).status == InProgress && Feed(u, s, [EOT, b]).replies == [ACK, ACK]
  {
    assert [EOT, b][1..] == [b] && [b][1..] == [];
    var s' := Handle(u, s, b).0;
    assert Handle(u, s, b) == (s', InProgress, []);
    FeedQuiet(u, s, s', [b]);
    EotFeed(u, s, [EOT, b]);
  }

  /** The last byte alone: what draining one more byte adds. */
  lemma FeedOneMore(u: CrcUpdate, s: Receiver, front: seq<Byte>, b: Byte)
    requires s.Valid()
    ensures Feed(u, s, front).final.Valid()
    ensures
      var o := Feed(u, s, front);
      var (s', status, replies) := Handle(u, o.final, b);
      Feed(u, s, front + [b]) == Outcome(s', status, o.replies + replies)
  {
    FeedConcat(u, s, front, [b]);
    var o := Feed(u, s, front);
    var (s', status, replies) := Handle(u, o.final, b);
    HandleKeepsValid(u, o.final, b);
    assert [b][1..] == [];
    assert Feed(u, o.final, [b]) == Before(status, replies, [], Outcome(s', InProgress, []));
    assert replies + [] == replies;
  }

  lemma LastByteDecides(u: CrcUpdate, s: Receiver, front: seq<Byte>, b: Byte)
    requires s.Valid()
    ensures Feed(u, s, front + [b]).status == Completed <==> b == EOT && Feed(u, s, front).final.position == 0
  {
    FeedOneMore(u, s, front, b);
  }

  /** The main loop: the ring is drained again and again while the transfer is in progress. */
  ghost function Session(u: CrcUpdate, s: Receiver, chunks: seq<seq<Byte>>): Outcome
    requires s.Valid()
    decreases |chunks|
  {
    if chunks == [] then Outcome(s, InProgress, [])
    else
      FeedKeepsValid(u, s, chunks[0]);
      var o := Feed(u, s, chunks[0]);
      if o.status != InProgress then o
      else
        var rest := Session(u, o.final, chunks[1..]);
        rest.(replies := o.replies + rest.replies)
  }

  /** The bytes drained before the transfer ends. */
  ghost function Drained(u: CrcUpdate, s: Receiver, chunks: seq<seq<Byte>>): seq<Byte>
    requires s.Valid()
    decreases |chunks|
  {
    if chunks == [] then []
    else
      FeedKeepsValid(u, s, chunks[0]);
      var o := Feed(u, s, chunks[0]);
      chunks[0] + if o.status != InProgress then [] else Drained(u, o.final, chunks[1..])
  }

  /** How the bytes are spread over the rounds of the loop does not matter beyond where it stops. */
  lemma {:induction false} SessionIsFeed(u: CrcUpdate, s: Receiver, chunks: seq<seq<Byte>>)
    requires s.Valid()
    ensures Session(u, s, chunks) == Feed(u, s, Drained(u, s, chunks))
    decreases |chunks|
  {
    if chunks != [] {
      FeedKeepsValid(u, s, chunks[0]);
      var o := Feed(u, s, chunks[0]);
      if o.status != InProgress {
        assert chunks[0] + [] == chunks[0];
      } else {
        SessionIsFeed(u, o.final, chunks[1..]);
        FeedConcat(u, s, chunks[0], Drained(u, o.final, chunks[1..]));
      }
    }
  }

  method CalcChecksum(buff: array<Byte>, at: nat, size: nat) returns (cksum: Byte)
    requires at + size <= buff.Length
    ensures cksum == Sum(buff[at..at + size]) % 0x100
  {
    cksum := 0;
    for i := 0 to size
      invariant cksum == Sum(buff[at..at + i]) % 0x100
    {
      assert buff[at..at + i + 1][..i] == buff[at..at + i];
      AddWraps(Sum(buff[at..at + i]), buff[at + i], 0x100);
      cksum := (cksum + buff[at + i]) % 0x100;
    }
  }

  method CalcCrc(u: CrcUpdate, buff: array<Byte>, at: nat, size: nat) returns (crc: Word)
    requires at + size <= buff.Length
    ensures crc == Crc(u, buff[at..at + size])
  {
    crc := 0;
    for i := 0 to size
      invariant crc == Crc(u, buff[at..at + i])
    {
      assert buff[at..at + i + 1][..i] == buff[at..at + i];
      crc := u(crc, buff[at + i]);
    }
  }

  /** The receiver's globals. */
  class XmodemReceiver {
    const buff: array<Byte>
    const file: array<Byte>
    var position: nat
    var lastPacket: Byte
    var fallback: bool
    var filePosition: nat

    ghost predicate Valid()
      reads this, buff, file
    {
      && buff.Length == BUFF_SIZE && file.Length == FILE_SIZE && buff != file
      && Value().Valid()
    }

    ghost function Value(): Receiver
      requires buff.Length == BUFF_SIZE && file.Length == FILE_SIZE
      reads this, buff, file
    {
      Receiver(buff[..], position, lastPacket, fallback, file[..], filePosition)
    }

    constructor (useChecksum: bool)
      ensures Valid() && position == 0 && lastPacket == 0 && fallback == useChecksum && filePosition == 0
      ensures fresh(buff) && fresh(file)
    {
      buff := new Byte[BUFF_SIZE](_ => 0);
      file := new Byte[FILE_SIZE](_ => 0);
      position, lastPacket, fallback, filePosition := 0, 0, useChecksum, 0;
    }

    method MoveData(at: nat, count: nat)
      requires buff.Length == BUFF_SIZE && file.Length == FILE_SIZE && buff != file && filePosition < FILE_SIZE
      requires at + count <= buff.Length
      modifies this`filePosition, file
      ensures (file[..], filePosition) == Stored(old(file[..]), old(filePosition), buff[at..at + count])
      ensures filePosition < FILE_SIZE
    {
      for i := 0 to count
        invariant filePosition < FILE_SIZE && buff[..] == old(buff[..])
        invariant (file[..], filePosition) == Stored(old(file[..]), old(filePosition), buff[at..at + i])
      {
        assert buff[at..at + i + 1][..i] == buff[at..at + i];
        file[filePosition] := buff[at + i];
        filePosition := (filePosition + 1) % FILE_SIZE;
      }
    }

    method ValidatePacket(u: CrcUpdate) returns (v: Verdict)
      requires buff.Length == BUFF_SIZE
      modifies this`lastPacket
      ensures v == Judge(u, fallback, old(lastPacket), buff[..])
      ensures lastPacket == if v.GoodPacket? then (old(lastPacket) + 1) % 0x100 else old(lastPacket)
    {
      var complement: int := 0xff - buff[1];
      if buff[0] != SOH || buff[2] != complement {
        return BadPacket;
      }
      if buff[1] == lastPacket {
        return Duplicate;
      }
      if buff[1] != (lastPacket + 1) % 0x100 {
        return BadPacket;
      }
      assert buff[..][3..131] == buff[3..131];
      if fallback {
        var cksum := CalcChecksum(buff, 3, PAYLOAD);
        if buff[131] != cksum {
          return BadPacket;
        }
      } else {
        var crc := CalcCrc(u, buff, 3, PAYLOAD);
        if buff[131] != crc / 0x100 || buff[132] != crc % 0x100 {
          return BadPacket;
        }
      }
      lastPacket := (lastPacket + 1) % 0x100;
      return GoodPacket;
    }

    method HandleIncomingData(u: CrcUpdate, dat: Byte) returns (status: Status, replies: seq<Byte>)
      requires Valid()
      modifies this, buff, file
      ensures Valid() && (Value(), status, replies) == Handle(u, old(Value()), dat)
    {
      HandleKeepsValid(u, Value(), dat);
      if dat == EOT && position == 0 {
        return Completed, [ACK, ACK];
      }
      if position == 1 && dat == CAN && buff[0] == CAN {
        return Aborted, [];
      }
      buff[position] := dat;
      position := position + 1;
      if position == BlockLength(fallback) {
        position := 0;
        var v := ValidatePacket(u);
        match v
        case GoodPacket =>
          MoveData(3, PAYLOAD);
          assert buff[..][3..131] == buff[3..131];
          return InProgress, [ACK];
        case Duplicate => return InProgress, [ACK];
        case BadPacket => return InProgress, [NACK];
      }
      return InProgress, [];
    }

    /** The loop of the main program that empties the receive ring, given the bytes it finds there. */
    method Drain(u: CrcUpdate, stream: seq<Byte>) returns (status: Status, replies: seq<Byte>)
      requires Valid()
      modifies this, buff, file
      ensures Valid() && Outcome(Value(), status, replies) == Feed(u, old(Value()), stream)
    {
      status, replies := InProgress, [];
      for i := 0 to |stream|
        invariant Valid() && Outcome(Value(), status, replies) == Feed(u, old(Value()), stream[..i])
      {
        FeedOneMore(u, old(Value()), stream[..i], stream[i]);
        assert stream[..i + 1] == stream[..i] + [stream[i]];
        var more;
        status, more := HandleIncomingData(u, stream[i]);
        replies := replies + more;
      }
      assert stream[..|stream|] == stream;
    }
  }
}
