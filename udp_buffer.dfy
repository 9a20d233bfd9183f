/**
 * A packet reorder buffer for an unreliable network (src/udp_buffer.cc). Packets carry a
 * sequence number and a fixed number of bytes; they may arrive in any order. Each is written
 * into the byte buffer at the slot of its number relative to the start of the window, and the
 * run of consecutive numbers received from the window start on is handed to the listener in
 * one piece, after which the window moves past it.
 */
module UdpBuffer {
  /** packet_byte_size. */
  const PacketByteSize: nat := 2

  /** The size InitBuffer gives the byte buffer. */
  const BufferSize: nat := 256

  /** data_type, uint8_t. */
  newtype Byte = b: int | 0 <= b < 256

  datatype Packet = Packet(sequenceNumber: nat, data: seq<Byte>)

  /** The number of consecutive received sequence numbers from `from` on, none beyond `latest`. */
  function Run(received: set<nat>, from: nat, latest: nat): nat
    decreases latest + 1 - from
  {
    if from <= latest && from in received then 1 + Run(received, from + 1, latest) else 0
  }

  /** Every number of the run is received and at most latest. */
  lemma {:induction false} RunMember(received: set<nat>, from: nat, latest: nat, n: nat)
    requires from <= n < from + Run(received, from, latest)
    ensures n in received && n <= latest
    decreases n - from
  {
    assert from <= latest && from in received;
    if n > from {
      RunMember(received, from + 1, latest, n);
    }
  }

  /** The run ends at a gap or past latest. */
  lemma {:induction false} RunEnd(received: set<nat>, from: nat, latest: nat)
    ensures from + Run(received, from, latest) > latest || from + Run(received, from, latest) !in received
    decreases latest + 1 - from
  {
    if from <= latest && from in received {
      RunEnd(received, from + 1, latest);
    }
  }

  /** A missing number stops the run: the run never reaches past a gap. */
  lemma {:induction false} RunStopsAtGap(received: set<nat>, from: nat, latest: nat, gap: nat)
    requires from <= gap && gap !in received
    ensures from + Run(received, from, latest) <= gap
    decreases latest + 1 - from
  {
    if from <= latest && from in received {
      RunStopsAtGap(received, from + 1, latest, gap);
    }
  }

  /** A run that is received throughout, within latest, and stopped by a gap or by latest is the run. */
  lemma {:induction false} RunIs(received: set<nat>, from: nat, latest: nat, count: nat)
    requires forall n :: from <= n < from + count ==> n in received
    requires from + count <= latest + 1
    requires from + count > latest || from + count !in received
    ensures Run(received, from, latest) == count
    decreases count
  {
    if count > 0 {
      RunIs(received, from + 1, latest, count - 1);
    }
  }

  /** The sequence-number bookkeeping of the buffer: everything but the bytes. */
  datatype Window = Window(windowStart: nat, latestReceived: nat, contiguousCount: nat, received: set<nat>)

  /** The window start plus the contiguous count: the first number not known to be contiguous. */
  function NextOf(w: Window): nat
  {
    w.windowStart + w.contiguousCount
  }

  /**
   * The bookkeeping invariant: every number of the contiguous run has been received, the run
   * stays within the latest number, and it stops at a gap or past the latest number.
   */
  ghost predicate WindowValid(w: Window)
  {
    (forall n :: w.windowStart <= n < NextOf(w) ==> n in w.received)
    && NextOf(w) <= w.latestReceived + 1
    && (NextOf(w) > w.latestReceived || NextOf(w) !in w.received)
  }

  /** The bookkeeping after receiving number n: record it, raise the latest number, extend the run. */
  function Received(w: Window, n: nat): Window
  {
    var latest := if n > w.latestReceived then n else w.latestReceived;
    var received := w.received + {n};
    Window(w.windowStart, latest, w.contiguousCount + Run(received, NextOf(w), latest), received)
  }

  /** The bookkeeping after a delivery: move the window past a non-empty run and empty it. */
  function Sent(w: Window): Window
  {
    if w.contiguousCount == 0 then w
    else Window(w.windowStart + w.contiguousCount, w.latestReceived, 0, w.received)
  }

  /** The count of a valid window is the run of received numbers from its start. */
  lemma CountIsRun(w: Window)
    requires WindowValid(w)
    ensures w.contiguousCount == Run(w.received, w.windowStart, w.latestReceived)
  {
    RunIs(w.received, w.windowStart, w.latestReceived, w.contiguousCount);
  }

  /** A receive keeps the bookkeeping valid and never shortens the run. */
  lemma ReceivedValid(w: Window, n: nat)
    requires WindowValid(w)
    ensures WindowValid(Received(w, n))
    ensures Received(w, n).contiguousCount >= w.contiguousCount
  {
    var w' := Received(w, n);
    RunEnd(w'.received, NextOf(w), w'.latestReceived);
    forall m | NextOf(w) <= m < NextOf(w')
      ensures m in w'.received
    {
      RunMember(w'.received, NextOf(w), w'.latestReceived, m);
    }
    if NextOf(w') > NextOf(w) {
      RunMember(w'.received, NextOf(w), w'.latestReceived, NextOf(w') - 1);
    }
  }

  /** A delivery keeps the bookkeeping valid and leaves an empty run. */
  lemma SentValid(w: Window)
    requires WindowValid(w)
    ensures WindowValid(Sent(w)) && Sent(w).contiguousCount == 0
    ensures NextOf(Sent(w)) == NextOf(w) && Sent(w).received == w.received
  {
  }

  /**
   * A gap holds the run back: as long as the packet with a missing number past the run has not
   * arrived, receiving others never extends the run past it.
   */
  lemma GapHoldsBack(w: Window, n: nat, gap: nat)
    requires NextOf(w) <= gap && gap !in w.received && n != gap
    ensures NextOf(Received(w, n)) <= gap
  {
    var w' := Received(w, n);
    RunStopsAtGap(w'.received, NextOf(w), w'.latestReceived, gap);
  }

  /** The payloads of the numbers from `from`, `count` of them, one after the other. */
  function Payloads(payloads: map<nat, seq<Byte>>, from: nat, count: nat): seq<Byte>
    requires forall n :: from <= n < from + count ==> n in payloads
    decreases count
  {
    if count == 0 then [] else Payloads(payloads, from, count - 1) + payloads[from + count - 1]
  }

  /** std::vector::resize: cut to n bytes, or pad with zero bytes up to n. */
  function Resize(v: seq<Byte>, n: nat): (r: seq<Byte>)
    ensures |r| == n
    ensures forall k :: 0 <= k < n ==> r[k] == if k < |v| then v[k] else 0
  {
    if |v| >= n then v[..n] else v + seq(n - |v|, _ => 0)
  }

  /** The bytes of slot k of a buffer: where the packet k numbers after the window start goes. */
  function Slot(buffer: seq<Byte>, k: nat): seq<Byte>
    requires (k + 1) * PacketByteSize <= |buffer|
  {
    buffer[k * PacketByteSize..(k + 1) * PacketByteSize]
  }

  /** Every received number at or after the window start finds the bytes of its last packet in its slot. */
  ghost predicate StoredIn(received: set<nat>, payloads: map<nat, seq<Byte>>, windowStart: nat, buffer: seq<Byte>)
  {
    forall n :: n in received && n >= windowStart ==>
      n in payloads && (n - windowStart + 1) * PacketByteSize <= |buffer| && Slot(buffer, n - windowStart) == payloads[n]
  }

  /** Writing one slot leaves every other slot as it was. */
  lemma SlotKept(before: seq<Byte>, slot: nat, data: seq<Byte>, k: nat)
    requires |data| == PacketByteSize && (slot + 1) * PacketByteSize <= |before|
    requires k != slot && (k + 1) * PacketByteSize <= |before|
    ensures var after := before[..slot * PacketByteSize] + data + before[(slot + 1) * PacketByteSize..];
      |after| == |before| && Slot(after, k) == Slot(before, k)
  {
    var index := slot * PacketByteSize;
    var after := before[..index] + data + before[index + PacketByteSize..];
    forall i | k * PacketByteSize <= i < (k + 1) * PacketByteSize
      ensures after[i] == before[i]
    {
      if k < slot {
        assert i < index;
      } else {
        assert i >= index + PacketByteSize;
      }
    }
  }

  /** Writing a packet into its slot stores it and keeps every other slot. */
  lemma WriteKeepsStored(received: set<nat>, payloads: map<nat, seq<Byte>>, windowStart: nat, before: seq<Byte>, n: nat, data: seq<Byte>)
    requires StoredIn(received, payloads, windowStart, before)
    requires n >= windowStart && |data| == PacketByteSize && (n - windowStart + 1) * PacketByteSize <= |before|
    ensures var index := (n - windowStart) * PacketByteSize;
      StoredIn(received + {n}, payloads[n := data], windowStart, before[..index] + data + before[index + PacketByteSize..])
  {
    var index := (n - windowStart) * PacketByteSize;
    var after := before[..index] + data + before[index + PacketByteSize..];
    forall m | m in received + {n} && m >= windowStart
      ensures (m - windowStart + 1) * PacketByteSize <= |after| && Slot(after, m - windowStart) == payloads[n := data][m]
    {
      var k := m - windowStart;
      if m == n {
        assert Slot(after, k) == data;
      } else {
        SlotKept(before, n - windowStart, data, k);
      }
    }
  }

  /** Erasing the first c slots and moving the window c further keeps every slot. */
  lemma EraseKeepsStored(received: set<nat>, payloads: map<nat, seq<Byte>>, windowStart: nat, buffer: seq<Byte>, c: nat)
    requires StoredIn(received, payloads, windowStart, buffer) && c * PacketByteSize <= |buffer|
    ensures StoredIn(received, payloads, windowStart + c, buffer[c * PacketByteSize..])
  {
    var after := buffer[c * PacketByteSize..];
    forall m | m in received && m >= windowStart + c
      ensures (m - windowStart - c + 1) * PacketByteSize <= |after| && Slot(after, m - windowStart - c) == payloads[m]
    {
      assert Slot(after, m - windowStart - c) == Slot(buffer, m - windowStart);
    }
  }

  /** Growing the buffer keeps every slot. */
  lemma GrowKeepsStored(received: set<nat>, payloads: map<nat, seq<Byte>>, windowStart: nat, buffer: seq<Byte>, size: nat)
    requires StoredIn(received, payloads, windowStart, buffer) && |buffer| <= size
    ensures StoredIn(received, payloads, windowStart, Resize(buffer, size))
  {
    var after := Resize(buffer, size);
    forall m | m in received && m >= windowStart
      ensures Slot(after, m - windowStart) == Slot(buffer, m - windowStart)
    {
    }
  }

  /** The first `count` slots hold, one after the other, the payloads of the numbers from the window start. */
  lemma {:induction false} PrefixIsPayloads(received: set<nat>, payloads: map<nat, seq<Byte>>, windowStart: nat, buffer: seq<Byte>, count: nat)
    requires StoredIn(received, payloads, windowStart, buffer)
    requires forall n :: windowStart <= n < windowStart + count ==> n in received
    ensures forall n :: windowStart <= n < windowStart + count ==> n in payloads
    ensures count * PacketByteSize <= |buffer|
    ensures buffer[..count * PacketByteSize] == Payloads(payloads, windowStart, count)
  {
    if count > 0 {
      PrefixIsPayloads(received, payloads, windowStart, buffer, count - 1);
      var n := windowStart + count - 1;
      assert n in received;
      var lo := (count - 1) * PacketByteSize;
      assert buffer[..count * PacketByteSize] == buffer[..lo] + Slot(buffer, count - 1);
    } else {
      assert buffer[..0] == [];
    }
  }

  /** The state of a packet reorder buffer: the globals of udp_buffer.cc. */
  class ReorderBuffer {
    var windowStart: nat
    var latestReceived: nat
    var contiguousCount: nat
    var dataBuffer: seq<Byte>
    var received: set<nat>
    /** The bytes of the last packet received with each number. */
    ghost var payloads: map<nat, seq<Byte>>

    /** The bookkeeping part of the state. */
    function State(): Window
      reads this
    {
      Window(windowStart, latestReceived, contiguousCount, received)
    }

    /** The window start plus the contiguous count: the first number not yet known to be contiguous. */
    function Next(): nat
      reads this
    {
      windowStart + contiguousCount
    }

    /** Every number of the contiguous run has been received, and the run stays within latest. */
    ghost predicate Contiguous()
      reads this
    {
      (forall n :: windowStart <= n < Next() ==> n in received) && Next() <= latestReceived + 1
    }

    /** The bytes of every received number at or after the window start sit in its slot. */
    ghost predicate Stored()
      reads this
    {
      StoredIn(received, payloads, windowStart, dataBuffer)
    }

    /** The invariant: valid bookkeeping, and the received bytes in place. */
    ghost predicate Valid()
      reads this
    {
      WindowValid(State()) && Stored() && contiguousCount * PacketByteSize <= |dataBuffer|
    }

    /** The initial values of the globals. */
    constructor ()
      ensures State() == Window(0, 0, 0, {}) && dataBuffer == [] && payloads == map[]
      ensures Valid()
    {
      windowStart, latestReceived, contiguousCount := 0, 0, 0;
      dataBuffer, received, payloads := [], {}, map[];
    }

    /** InitBuffer: resize the byte buffer to BufferSize bytes. */
    method InitBuffer()
      modifies this
      ensures dataBuffer == Resize(old(dataBuffer), BufferSize)
      ensures State() == old(State()) && payloads == old(payloads)
      ensures old(Valid()) && old(|dataBuffer|) <= BufferSize ==> Valid()
    {
      if Valid() && |dataBuffer| <= BufferSize {
        GrowKeepsStored(received, payloads, windowStart, dataBuffer, BufferSize);
      }
      dataBuffer := Resize(dataBuffer, BufferSize);
    }

    /**
     * UpdateWindowContiguousSequenceNumbers: extend the contiguous count through the received
     * numbers that follow it, stopping at the first gap or past the latest number.
     */
    method UpdateWindowContiguousSequenceNumbers()
      requires Contiguous()
      modifies this
      ensures contiguousCount == old(contiguousCount) + Run(received, old(Next()), latestReceived)
      ensures windowStart == old(windowStart) && latestReceived == old(latestReceived)
      ensures dataBuffer == old(dataBuffer) && received == old(received) && payloads == old(payloads)
    {
      var next := Next();
      while next <= latestReceived
        invariant next == Next() && Contiguous()
        invariant contiguousCount + Run(received, next, latestReceived) == old(contiguousCount) + Run(received, old(Next()), latestReceived)
        invariant windowStart == old(windowStart) && latestReceived == old(latestReceived)
        invariant dataBuffer == old(dataBuffer) && received == old(received) && payloads == old(payloads)
        decreases latestReceived + 1 - next
      {
        if next !in received {
          return;
        }
        contiguousCount := contiguousCount + 1;
        next := next + 1;
      }
    }

    /** The copying loop of ReceiveFromNetwork: write `data` into the buffer from `index` on. */
    method WriteSlot(index: nat, data: seq<Byte>)
      requires index + |data| <= |dataBuffer|
      modifies this
      ensures dataBuffer == old(dataBuffer[..index]) + data + old(dataBuffer[index + |data|..])
      ensures windowStart == old(windowStart) && latestReceived == old(latestReceived)
      ensures contiguousCount == old(contiguousCount) && received == old(received) && payloads == old(payloads)
    {
      ghost var before := dataBuffer;
      for i := 0 to |data|
        invariant |dataBuffer| == |before|
        invariant dataBuffer == before[..index] + data[..i] + before[index + i..]
        invariant windowStart == old(windowStart) && latestReceived == old(latestReceived)
        invariant contiguousCount == old(contiguousCount) && received == old(received) && payloads == old(payloads)
      {
        dataBuffer := dataBuffer[index + i := data[i]];
      }
      assert data[..|data|] == data;
    }

    /**
     * ReceiveFromNetwork: copy the packet's bytes into its slot, record its number, raise the
     * latest number, and extend the contiguous run.
     */
    method ReceiveFromNetwork(p: Packet)
      requires Valid() && |p.data| == PacketByteSize && p.sequenceNumber >= windowStart
      requires (p.sequenceNumber - windowStart + 1) * PacketByteSize <= |dataBuffer|
      modifies this
      ensures var index := (p.sequenceNumber - old(windowStart)) * PacketByteSize;
        dataBuffer == old(dataBuffer[..index]) + p.data + old(dataBuffer[index + PacketByteSize..])
      ensures State() == Received(old(State()), p.sequenceNumber)
      ensures payloads == old(payloads)[p.sequenceNumber := p.data]
      ensures Valid()
    {
      ghost var w := State();
      ghost var w' := Received(w, p.sequenceNumber);
      ReceivedValid(w, p.sequenceNumber);
      var dataIndex := (p.sequenceNumber - windowStart) * PacketByteSize;
      WriteKeepsStored(received, payloads, windowStart, dataBuffer, p.sequenceNumber, p.data);
      WriteSlot(dataIndex, p.data);
      received := received + {p.sequenceNumber};
      payloads := payloads[p.sequenceNumber := p.data];
      if p.sequenceNumber > latestReceived {
        latestReceived := p.sequenceNumber;
      }
      assert received == w'.received && latestReceived == w'.latestReceived && Next() == NextOf(w);
      assert Contiguous();
      UpdateWindowContiguousSequenceNumbers();
      assert State() == w';
      CountFits();
    }

    /** The contiguous run's bytes lie within the buffer. */
    lemma CountFits()
      requires Contiguous() && Stored()
      ensures contiguousCount * PacketByteSize <= |dataBuffer|
    {
      if contiguousCount > 0 {
        assert Next() - 1 in received;
      }
    }

    /**
     * SendToListener: when the contiguous run is not empty, hand its bytes to the listener,
     * erase them from the front of the buffer, move the window past the run and empty it;
     * otherwise change nothing.
     */
    method SendToListener(data: seq<Byte>) returns (out: seq<Byte>)
      requires Valid()
      modifies this
      ensures State() == Sent(old(State())) && payloads == old(payloads)
      ensures old(contiguousCount) == 0 ==> out == data && dataBuffer == old(dataBuffer)
      ensures old(contiguousCount) > 0 ==>
        var bytesToRead := old(contiguousCount) * PacketByteSize;
        out == old(dataBuffer[..bytesToRead]) && dataBuffer == old(dataBuffer[bytesToRead..])
      ensures old(contiguousCount) > 0 ==> out == Payloads(payloads, old(windowStart), old(contiguousCount))
      ensures Valid()
    {
      if contiguousCount == 0 {
        return data;
      }
      SentValid(State());
      PrefixIsPayloads(received, payloads, windowStart, dataBuffer, contiguousCount);
      EraseKeepsStored(received, payloads, windowStart, dataBuffer, contiguousCount);
      var bytesToRead := contiguousCount * PacketByteSize;
      out := dataBuffer[..bytesToRead];
      dataBuffer := dataBuffer[bytesToRead..];
      windowStart := windowStart + contiguousCount;
      contiguousCount := 0;
    }

    /**
     * SendToListener with the erased bytes given back at the end of the buffer: the delivery as
     * SendToListener makes it, with the buffer keeping its size.
     */
    method SendToListenerKeepingSize(data: seq<Byte>) returns (out: seq<Byte>)
      requires Valid()
      modifies this
      ensures State() == Sent(old(State())) && payloads == old(payloads)
      ensures out == if old(contiguousCount) == 0 then data else Payloads(payloads, old(windowStart), old(contiguousCount))
      ensures |dataBuffer| == old(|dataBuffer|)
      ensures Valid()
    {
      var size := |dataBuffer|;
      out := SendToListener(data);
      GrowKeepsStored(received, payloads, windowStart, dataBuffer, size);
      dataBuffer := Resize(dataBuffer, size);
    }
  }

  /** ReceiveTestPacketFromNetwork: a test packet carries its number, cut to a byte, in every byte. */
  function TestPacket(sequenceNumber: nat): (p: Packet)
    ensures p.sequenceNumber == sequenceNumber && |p.data| == PacketByteSize
    ensures forall k :: 0 <= k < PacketByteSize ==> p.data[k] as int == sequenceNumber % 256
  {
    Packet(sequenceNumber, seq(PacketByteSize, _ => (sequenceNumber % 256) as Byte))
  }

  /** base_test, packet 0 into the fresh buffer: the run is one packet long. */
  lemma FirstPacket()
    ensures Received(Window(0, 0, 0, {}), 0) == Window(0, 0, 1, {0})
  {
  }

  /** base_test, packets 1, 2 and 3: each extends the run, which ends four long. */
  lemma NextThreeInOrder()
    ensures Received(Window(0, 0, 1, {0}), 1) == Window(0, 1, 2, {0, 1})
    ensures Received(Window(0, 1, 2, {0, 1}), 2) == Window(0, 2, 3, {0, 1, 2})
    ensures Received(Window(0, 2, 3, {0, 1, 2}), 3) == Window(0, 3, 4, {0, 1, 2, 3})
  {
  }

  /** base_test, first delivery: the window moves to 4 and the run empties. */
  lemma FirstDelivery()
    ensures Sent(Window(0, 3, 4, {0, 1, 2, 3})) == Window(4, 3, 0, {0, 1, 2, 3})
  {
  }

  /** base_test, packets 4, 6, 8 and 7: the missing 5 holds the run at one packet. */
  lemma GapAtFive()
    ensures Received(Window(4, 3, 0, {0, 1, 2, 3}), 4) == Window(4, 4, 1, {0, 1, 2, 3, 4})
    ensures Received(Window(4, 4, 1, {0, 1, 2, 3, 4}), 6) == Window(4, 6, 1, {0, 1, 2, 3, 4, 6})
    ensures Received(Window(4, 6, 1, {0, 1, 2, 3, 4, 6}), 8) == Window(4, 8, 1, {0, 1, 2, 3, 4, 6, 8})
    ensures Received(Window(4, 8, 1, {0, 1, 2, 3, 4, 6, 8}), 7) == Window(4, 8, 1, {0, 1, 2, 3, 4, 6, 7, 8})
  {
  }

  /** base_test, packet 5 fills the gap: the run grows to five packets. */
  lemma GapFilled()
    ensures Received(Window(4, 8, 1, {0, 1, 2, 3, 4, 6, 7, 8}), 5) == Window(4, 8, 5, {0, 1, 2, 3, 4, 5, 6, 7, 8})
  {
    var r := {0, 1, 2, 3, 4, 5, 6, 7, 8};
    assert Run(r, 5, 8) == 4;
  }

  /** base_test, second delivery and packet 10: the window moves to 9, and 9 missing keeps the run empty. */
  lemma SecondDelivery()
    ensures Sent(Window(4, 8, 5, {0, 1, 2, 3, 4, 5, 6, 7, 8})) == Window(9, 8, 0, {0, 1, 2, 3, 4, 5, 6, 7, 8})
    ensures Received(Window(9, 8, 0, {0, 1, 2, 3, 4, 5, 6, 7, 8}), 10) == Window(9, 10, 0, {0, 1, 2, 3, 4, 5, 6, 7, 8, 10})
  {
  }

  /** Receiving the packet at the window start and delivering it at once moves the window one on. */
  lemma InOrderStep(w: Window)
    requires w.contiguousCount == 0 && w.latestReceived <= w.windowStart
    ensures Sent(Received(w, w.windowStart)) == Window(w.windowStart + 1, w.windowStart, 0, w.received + {w.windowStart})
  {
    var n := w.windowStart;
    assert Run(w.received + {n}, n + 1, n) == 0;
  }

  /**
   * The buffer as written runs out: after InitBuffer, 128 packets received in order and each
   * delivered at once have erased all 256 bytes, so the slot of packet 128 lies past the end.
   */
  method InOrderAsWritten() returns (b: ReorderBuffer)
    ensures b.Valid() && b.windowStart == 128 && |b.dataBuffer| == 0
    ensures (128 - b.windowStart + 1) * PacketByteSize > |b.dataBuffer|
  {
    b := new ReorderBuffer();
    b.InitBuffer();
    for i := 0 to 128
      invariant b.Valid() && b.windowStart == i && b.contiguousCount == 0 && b.latestReceived <= i
      invariant |b.dataBuffer| == BufferSize - i * PacketByteSize
    {
      InOrderStep(b.State());
      b.ReceiveFromNetwork(TestPacket(i));
      var out := b.SendToListener([]);
    }
  }

  /**
   * With the buffer kept at its size, any number of packets received in order and each delivered
   * at once fit: every one lands in the first slot.
   */
  method InOrderKeepingSize(count: nat) returns (b: ReorderBuffer)
    ensures b.Valid() && b.windowStart == count && |b.dataBuffer| == BufferSize
  {
    b := new ReorderBuffer();
    b.InitBuffer();
    for i := 0 to count
      invariant b.Valid() && b.windowStart == i && b.contiguousCount == 0 && b.latestReceived <= i
      invariant |b.dataBuffer| == BufferSize
    {
      InOrderStep(b.State());
      b.ReceiveFromNetwork(TestPacket(i));
      var out := b.SendToListenerKeepingSize([]);
    }
  }
}
