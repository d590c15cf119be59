/** The byte rings of the UART driver. Indices are bytes reduced by a mask, and they are advanced
    before use: the content lies at tail+1 .. head, so at most size-1 bytes are held. */
module UartRing {
  import opened Prelude
  import opened Modular

  datatype Ring = Ring(buffer: seq<Byte>, head: nat, tail: nat) {
    ghost predicate Valid() {
      SizeOk(|buffer|) && head < |buffer| && tail < |buffer|
    }
  }

  /** Powers of two up to the range of a byte index. */
  predicate SizeOk(n: nat) { n in {2, 4, 8, 16, 32, 64, 128, 256} }

  /** inc and andi on a byte register; masking with size-1 is reduction by a power of two. */
  function Inc(i: nat, n: nat): nat
    requires n > 0
  {
    (i + 1) % 0x100 % n
  }

  lemma IncWraps(i: nat, n: nat)
    requires SizeOk(n) && i < n
    ensures Inc(i, n) == if i + 1 < n then i + 1 else 0
  {
    if i + 1 < n {
      assert (i + 1) % 0x100 == i + 1;
    } else if n < 256 {
      assert (i + 1) % 0x100 == n;
    }
  }

  /** Bytes held. */
  function Length(r: Ring): nat
    requires r.head < |r.buffer| && r.tail < |r.buffer|
  {
    if r.tail <= r.head then r.head - r.tail else |r.buffer| - r.tail + r.head
  }

  /** Slot of the k-th held byte. */
  function Slot(r: Ring, k: nat): nat
    requires r.tail < |r.buffer| && k < |r.buffer|
  {
    var i := r.tail + 1 + k;
    if i < |r.buffer| then i else i - |r.buffer|
  }

  /** The bytes held, oldest first. */
  function Content(r: Ring): (c: seq<Byte>)
    requires r.head < |r.buffer| && r.tail < |r.buffer|
    ensures |c| == Length(r)
  {
    seq(Length(r), k requires 0 <= k < Length(r) => r.buffer[Slot(r, k)])
  }

  /** uart0_AvailableBytes: a byte subtraction and a mask. */
  function AvailableBytes(r: Ring): nat
    requires |r.buffer| > 0
  {
    (r.head - r.tail) % 0x100 % |r.buffer|
  }

  /** The byte arithmetic gives the number of bytes held, for every size and every wrap. */
  lemma AvailableBytesIsLength(r: Ring)
    requires r.Valid()
    ensures AvailableBytes(r) == Length(r)
  {
    var n := |r.buffer|;
    if r.tail <= r.head {
      SmallRemainder(r.head - r.tail, n);
    } else {
      var k := 0x100 / n - 1;
      SizeDividesByte(n);
      assert 0x100 + r.head - r.tail == n * k + Length(r);
      QuotientRemainder(0x100 + r.head - r.tail, n, k, Length(r));
    }
  }

  lemma SizeDividesByte(n: nat)
    requires SizeOk(n)
    ensures n * (0x100 / n) == 0x100 && n * (0x100 / n - 1) == 0x100 - n && 0x100 / n >= 1
  {
  }

  predicate IsFull(r: Ring)
    requires |r.buffer| > 0
  {
    Inc(r.head, |r.buffer|) == r.tail
  }

  lemma FullMeansSizeMinusOne(r: Ring)
    requires r.Valid()
    ensures IsFull(r) <==> Length(r) == |r.buffer| - 1
    ensures r.head == r.tail <==> Length(r) == 0
  {
    IncWraps(r.head, |r.buffer|);
  }

  /** Writing the slot after head, while it is free, is invisible until head moves. */
  function WriteAhead(r: Ring, b: Byte): Ring
    requires r.Valid()
  {
    IncWraps(r.head, |r.buffer|);
    r.(buffer := r.buffer[Inc(r.head, |r.buffer|) := b])
  }

  function MoveHead(r: Ring): Ring
    requires |r.buffer| > 0
  {
    r.(head := Inc(r.head, |r.buffer|))
  }

  function MoveTail(r: Ring): Ring
    requires |r.buffer| > 0
  {
    r.(tail := Inc(r.tail, |r.buffer|))
  }

  lemma WriteAheadKeepsContent(r: Ring, b: Byte)
    requires r.Valid() && !IsFull(r)
    ensures WriteAhead(r, b).Valid() && Content(WriteAhead(r, b)) == Content(r)
  {
    IncWraps(r.head, |r.buffer|);
  }

  lemma MoveHeadAppends(r: Ring)
    requires r.Valid() && !IsFull(r)
    ensures MoveHead(r).Valid()
    ensures Content(MoveHead(r)) == Content(r) + [r.buffer[MoveHead(r).head]]
  {
    IncWraps(r.head, |r.buffer|);
    var r' := MoveHead(r);
    assert Length(r') == Length(r) + 1;
    assert forall k | 0 <= k < Length(r) :: Slot(r', k) == Slot(r, k);
  }

  lemma MoveTailRemovesOldest(r: Ring)
    requires r.Valid() && r.head != r.tail
    ensures MoveTail(r).Valid()
    ensures Content(r) == [r.buffer[MoveTail(r).tail]] + Content(MoveTail(r))
  {
    IncWraps(r.tail, |r.buffer|);
    var r' := MoveTail(r);
    assert Length(r') == Length(r) - 1;
    assert forall k | 0 <= k < Length(r') :: Slot(r', k) == Slot(r, k + 1);
  }

  /** One step of a stream argument: what goes in at one end comes out at the other. */
  lemma Telescope(c0: seq<Byte>, p: seq<Byte>, x: seq<Byte>, c1: seq<Byte>, ps: seq<Byte>, xs: seq<Byte>, c2: seq<Byte>)
    requires c0 + p == x + c1 && c1 + ps == xs + c2
    ensures c0 + (p + ps) == (x + xs) + c2
  {
    assert c0 + (p + ps) == (c0 + p) + ps;
    assert (x + c1) + ps == x + (c1 + ps);
    assert x + (xs + c2) == (x + xs) + c2;
  }
}
