// The transmit side of the virtio network queue: a split virtqueue of 256 descriptors with 16-bit
// ring indices that wrap around (sections 2.6.5, 2.6.6 and 2.6.8 of VIRTIO 1.1).
module TxRing {
  import opened Bytes
  import opened Collections

  const QUEUE_SIZE: nat := 256
  const TWO_16: nat := 0x1_0000
  const HEADER: nat := 10
  const PACKET_BUF_SIZE: nat := 1514 + 12

  function WrappingAdd1(x: nat): nat {
    (x + 1) % TWO_16
  }

  // What goes out for a packet: an empty header and as much of the data as the buffer holds.
  function Frame(data: seq<byte>): (f: seq<byte>)
    ensures HEADER <= |f| <= PACKET_BUF_SIZE
  {
    Zeros(HEADER) + data[..Min(|data|, PACKET_BUF_SIZE - HEADER)]
  }

  // In plain terms: ten zero bytes and then the data, cut to what the buffer holds.
  lemma FrameBytes(data: seq<byte>)
    ensures |Frame(data)| == 10 + Min(|data|, 1516)
    ensures forall i :: 0 <= i < 10 ==> Frame(data)[i] == 0
    ensures Frame(data)[10..] == data[..Min(|data|, 1516)]
    ensures |data| <= 1516 ==> Frame(data)[10..] == data
  {
  }

  // Fewer than 256 apart, two packets do not share a descriptor.
  lemma SlotsDiffer(i: nat, j: nat)
    requires i < j < i + QUEUE_SIZE
    ensures i % QUEUE_SIZE != j % QUEUE_SIZE
  {
  }

  // The 16-bit index still selects the right slot, because 256 divides 65536.
  lemma SlotAcrossWrap(i: nat)
    ensures (i % TWO_16) % QUEUE_SIZE == i % QUEUE_SIZE && WrappingAdd1(i % TWO_16) == (i + 1) % TWO_16
  {
    var q, r := i / TWO_16, i % TWO_16;
    assert i == QUEUE_SIZE * (QUEUE_SIZE * q) + r;
    MultiplesVanish(QUEUE_SIZE * q, r);
    WrapsOnce(q, r);
  }

  lemma MultiplesVanish(k: nat, r: nat)
    ensures (QUEUE_SIZE * k + r) % QUEUE_SIZE == r % QUEUE_SIZE
  {
  }

  lemma WrapsOnce(q: nat, r: nat)
    requires r < TWO_16
    ensures (TWO_16 * q + r + 1) % TWO_16 == (r + 1) % TWO_16
  {
  }

  lemma NextSlot(i: nat)
    ensures (i % QUEUE_SIZE + 1) % QUEUE_SIZE == (i + 1) % QUEUE_SIZE
  {
  }

  // Indices fewer than 65536 apart are equal only if they count the same packets.
  lemma IndexDetects(i: nat, j: nat)
    requires i <= j < i + TWO_16
    ensures i % TWO_16 == j % TWO_16 <==> i == j
  {
  }

  // The memory shared with the device, apart from the indices.
  datatype Ring = Ring(lens: seq<nat>, buffers: seq<seq<byte>>, avail: seq<nat>)

  ghost predicate Shape(r: Ring) {
    && |r.lens| == |r.buffers| == |r.avail| == QUEUE_SIZE
    && forall d :: 0 <= d < QUEUE_SIZE ==>
      |r.buffers[d]| == PACKET_BUF_SIZE && r.lens[d] <= PACKET_BUF_SIZE && r.avail[d] < QUEUE_SIZE
  }

  // The ring slot of packet i names its descriptor, and that one's buffer holds the packet's frame.
  ghost predicate Carries(r: Ring, i: nat, data: seq<byte>)
    requires Shape(r)
  {
    var d := i % QUEUE_SIZE;
    r.avail[d] == d && r.lens[d] == |Frame(data)| && r.buffers[d][..r.lens[d]] == Frame(data)
  }

  // Every packet the device is not done with still has its descriptor to itself and lies there
  // untouched.
  ghost predicate Keeps(r: Ring, packets: seq<seq<byte>>, done: set<nat>) {
    && Shape(r)
    && forall i :: 0 <= i < |packets| && i !in done ==> i + QUEUE_SIZE >= |packets| && Carries(r, i, packets[i])
  }

  function Put(r: Ring, d: nat, data: seq<byte>): Ring
    requires d < |r.lens| && d < |r.buffers| && d < |r.avail| && |r.buffers[d]| == PACKET_BUF_SIZE
  {
    Ring(r.lens[d := |Frame(data)|],
         r.buffers[d := Frame(data) + r.buffers[d][|Frame(data)|..]],
         r.avail[d := d])
  }

  // The ring slot and the descriptor of the same number have the packet, with its header; the other slots and
  // descriptors are as they were.
  ghost predicate Queued(r: Ring, q: Ring, d: nat, data: seq<byte>) {
    && Shape(r) && Shape(q) && d < QUEUE_SIZE
    && q.avail[d] == d && Wraps(q.buffers[d][..q.lens[d]], data)
    && forall k :: 0 <= k < QUEUE_SIZE && k != d ==>
      q.lens[k] == r.lens[k] && q.buffers[k] == r.buffers[k] && q.avail[k] == r.avail[k]
  }

  lemma PutQueues(r: Ring, d: nat, data: seq<byte>)
    requires Shape(r) && d < QUEUE_SIZE
    ensures Queued(r, Put(r, d, data), d, data)
  {
    WrapsFrame(data);
    hide Frame, Wraps;
    assert Put(r, d, data).buffers[d][..|Frame(data)|] == Frame(data);
  }

  // Queueing a packet keeps the others if and only if the one before it in its descriptor is done.
  lemma PutKeepsIff(r: Ring, packets: seq<seq<byte>>, done: set<nat>, data: seq<byte>)
    requires Keeps(r, packets, done)
    ensures Keeps(Put(r, |packets| % QUEUE_SIZE, data), packets + [data], done) <==>
      |packets| < QUEUE_SIZE || |packets| - QUEUE_SIZE in done
  {
    hide Frame;
    var d, more := |packets| % QUEUE_SIZE, packets + [data];
    var q := Put(r, d, data);
    assert Shape(q);
    assert q.buffers[d][..|Frame(data)|] == Frame(data);
    if |packets| < QUEUE_SIZE || |packets| - QUEUE_SIZE in done {
      forall i | 0 <= i < |more| && i !in done ensures i + QUEUE_SIZE >= |more| && Carries(q, i, more[i]) {
        if i < |packets| {
          assert Carries(r, i, packets[i]);
          SlotsDiffer(i, |packets|);
        }
      }
    } else {
      assert more[|packets| - QUEUE_SIZE] == packets[|packets| - QUEUE_SIZE];
    }
  }

  lemma {:induction false} DoneSize(done: set<nat>, n: nat)
    requires forall i :: i in done ==> i < n
    ensures |done| <= n
  {
    if n > 0 {
      DoneSize(done - {n - 1}, n - 1);
      AddOne(done - {n - 1}, n - 1);
      assert n - 1 in done ==> done == done - {n - 1} + {n - 1};
      assert n - 1 !in done ==> done == done - {n - 1};
    }
  }

  ghost predicate InOrderDone(done: set<nat>) {
    forall i :: i in done <==> 0 <= i < |done|
  }

  ghost predicate SlotInFlight(packets: seq<seq<byte>>, done: set<nat>, d: nat) {
    exists i :: 0 <= i < |packets| && i !in done && i % QUEUE_SIZE == d
  }

  // The frame is a header of ten zero bytes followed by the data, cut to 1516 bytes.
  ghost predicate Wraps(frame: seq<byte>, data: seq<byte>) {
    && |frame| >= 10 && (forall i :: 0 <= i < 10 ==> frame[i] == 0)
    && frame[10..] == if |data| <= 1516 then data else data[..1516]
  }

  lemma WrapsFrame(data: seq<byte>)
    ensures Wraps(Frame(data), data)
  {
    FrameBytes(data);
  }

  class TxQueue {
    // shared with the device
    var lens: seq<nat>
    var buffers: seq<seq<byte>>
    var availRing: seq<nat>
    var availIdx: nat
    var usedIdx: nat
    // the driver's own
    var numFree: nat
    var freeHead: nat
    var lastUsedIdx: nat

    // Everything ever queued, which packets the device is done with, and how many of those the driver
    // has counted.
    ghost var packets: seq<seq<byte>>
    ghost var done: set<nat>
    ghost var reclaimed: nat

    constructor ()
      ensures Valid() && Safe() && InOrder() && packets == [] && numFree == QUEUE_SIZE
    {
      lens := seq(QUEUE_SIZE, _ => PACKET_BUF_SIZE);
      buffers := seq(QUEUE_SIZE, _ => Zeros(PACKET_BUF_SIZE));
      availRing := seq(QUEUE_SIZE, _ => 0);
      availIdx, usedIdx, lastUsedIdx := 0, 0, 0;
      numFree, freeHead := QUEUE_SIZE, 0;
      packets, done, reclaimed := [], {}, 0;
    }

    // What holds whatever order the device completes packets in: free, completed but not reclaimed,
    // and in flight make up the queue, and the 16-bit indices follow the counts.
    ghost predicate Valid()
      reads this
    {
      && Shape(Ring(lens, buffers, availRing))
      && (forall i :: i in done ==> i < |packets|) && reclaimed <= |done| <= |packets|
      && numFree + (|done| - reclaimed) + (|packets| - |done|) == QUEUE_SIZE
      && freeHead == |packets| % QUEUE_SIZE
      && availIdx == |packets| % TWO_16 && usedIdx == |done| % TWO_16 && lastUsedIdx == reclaimed % TWO_16
    }

    // No packet in flight has been overwritten.
    ghost predicate Safe()
      reads this
    {
      Keeps(Ring(lens, buffers, availRing), packets, done)
    }

    // The device has completed packets in the order in which they were queued.
    ghost predicate InOrder()
      reads this
    {
      InOrderDone(done)
    }

    // A descriptor the device may still read.
    ghost predicate InFlight(d: nat)
      reads this
    {
      SlotInFlight(packets, done, d)
    }

    // The device's step: it sends some packet in flight and says so in the used ring. As long as the
    // queue is safe, what it sends is that packet's frame.
    method DeviceSends(slot: nat, ghost i: nat) returns (frame: seq<byte>)
      requires Valid() && i < |packets| && i !in done && slot == i % QUEUE_SIZE
      modifies this`usedIdx, this`done
      ensures Valid() && done == old(done) + {i}
      ensures old(Safe()) ==> Safe() && frame == Frame(packets[i])
      ensures old(Safe()) ==> Wraps(frame, packets[i])
    {
      WrapsFrame(packets[i]);
      hide Frame, Wraps;
      DoneSize(done + {i}, |packets|);
      SlotAcrossWrap(|done|);
      if Safe() { assert Carries(Ring(lens, buffers, availRing), i, packets[i]); }
      var d := availRing[slot];
      frame := buffers[d][..lens[d]];
      hide Carries, Shape;
      usedIdx := WrappingAdd1(usedIdx);
      done := done + {i};
    }

    // A device that keeps the order: the next packet is the one at the slot of its own 16-bit index.
    method DeviceSendsNext() returns (frame: seq<byte>)
      requires Valid() && Safe() && InOrder() && |done| < |packets|
      modifies this`usedIdx, this`done
      ensures Valid() && Safe() && InOrder() && |done| == old(|done|) + 1
      ensures frame == Frame(packets[old(|done|)]) && Wraps(frame, packets[old(|done|)])
    {
      hide Frame, Keeps, Shape, Wraps;
      SlotAcrossWrap(|done|);
      frame := DeviceSends(usedIdx % QUEUE_SIZE, |done|);
    }

    // Counts the descriptors the device is done with.
    method ReclaimTx()
      requires Valid()
      modifies this`numFree, this`lastUsedIdx, this`reclaimed
      ensures Valid() && reclaimed == |done|
    {
      hide Shape;
      IndexDetects(reclaimed, |done|);
      while lastUsedIdx != usedIdx
        invariant Valid() && (lastUsedIdx == usedIdx <==> reclaimed == |done|)
        decreases |done| - reclaimed
      {
        SlotAcrossWrap(reclaimed);
        numFree := numFree + 1;
        lastUsedIdx := WrappingAdd1(lastUsedIdx);
        reclaimed := reclaimed + 1;
        IndexDetects(reclaimed, |done|);
      }
    }

    // Queues a packet unless 256 are in flight. The driver counts completions without looking which
    // they are, so the queue stays safe if and only if the packet before it in the descriptor it takes
    // is done; that is so with a device that keeps the order.
    method Transmit(data: seq<byte>) returns (ok: bool)
      requires Valid()
      modifies this
      ensures Valid() && done == old(done)
      ensures ok <==> old(|packets| - |done|) < 256
      ensures packets == if ok then old(packets) + [data] else old(packets)
      ensures ok ==> Queued(old(Ring(lens, buffers, availRing)), Ring(lens, buffers, availRing), old(|packets|) % 256, data)
      ensures ok && old(Safe()) ==> (Safe() <==> old(|packets|) < QUEUE_SIZE || old(|packets|) - QUEUE_SIZE in done)
      ensures ok && old(Safe()) ==> (Safe() <==> !old(InFlight(|packets| % QUEUE_SIZE)))
      ensures old(Safe()) && (!ok || InOrder()) ==> Safe()
    {
      hide Shape, Keeps, SlotInFlight, InOrderDone, Put, Queued;
      if numFree == 0 {
        ReclaimTx();
        if numFree == 0 { return false; }
      }
      ghost var r := Ring(lens, buffers, availRing);
      if Safe() { PutSafe(r, packets, done, data); }
      Enqueue(data);
      PutQueues(r, old(|packets|) % QUEUE_SIZE, data);
      ok := true;
    }

    method Enqueue(data: seq<byte>)
      requires Valid() && numFree > 0
      modifies this
      ensures Valid() && done == old(done) && packets == old(packets) + [data]
      ensures Shape(old(Ring(lens, buffers, availRing)))
      ensures Ring(lens, buffers, availRing) == Put(old(Ring(lens, buffers, availRing)), old(|packets|) % QUEUE_SIZE, data)
    {
      hide Put, Shape, WrappingAdd1;
      SlotAcrossWrap(|packets|);
      NextSlot(|packets|);
      PutPacket(freeHead, data);
      numFree := numFree - 1;
      availIdx := WrappingAdd1(availIdx);
      freeHead := (freeHead + 1) % QUEUE_SIZE;
      packets := packets + [data];
    }

    method PutPacket(d: nat, data: seq<byte>)
      requires Valid() && d == |packets| % QUEUE_SIZE
      modifies this`buffers, this`lens, this`availRing
      ensures Shape(old(Ring(lens, buffers, availRing))) && Shape(Ring(lens, buffers, availRing))
      ensures Ring(lens, buffers, availRing) == Put(old(Ring(lens, buffers, availRing)), d, data)
    {
      SlotAcrossWrap(|packets|);
      var buf := buffers[d];
      buf := Zeros(HEADER) + buf[HEADER..];
      var n := Min(|data|, |buf| - HEADER);
      buf := buf[..HEADER] + data[..n] + buf[HEADER + n..];
      assert buf == Frame(data) + buffers[d][HEADER + n..];
      buffers := buffers[d := buf];
      lens := lens[d := HEADER + n];
      availRing := availRing[availIdx % QUEUE_SIZE := d];
    }
  }

  // The descriptor taken next is in flight just when the oldest packet it can have held is.
  lemma OldestInFlight(r: Ring, packets: seq<seq<byte>>, done: set<nat>)
    requires Keeps(r, packets, done)
    ensures SlotInFlight(packets, done, |packets| % QUEUE_SIZE) <==>
            |packets| >= QUEUE_SIZE && |packets| - QUEUE_SIZE !in done
  {
    var n := |packets|;
    forall i: nat | i < n && i + QUEUE_SIZE > n ensures i % QUEUE_SIZE != n % QUEUE_SIZE { SlotsDiffer(i, n); }
    if n >= QUEUE_SIZE { assert (n - QUEUE_SIZE) % QUEUE_SIZE == n % QUEUE_SIZE; }
  }

  lemma PutSafe(r: Ring, packets: seq<seq<byte>>, done: set<nat>, data: seq<byte>)
    requires Keeps(r, packets, done)
    ensures Shape(r)
    ensures var n, kept := |packets|, Keeps(Put(r, |packets| % QUEUE_SIZE, data), packets + [data], done);
      && (kept <==> n < QUEUE_SIZE || n - QUEUE_SIZE in done)
      && (kept <==> !SlotInFlight(packets, done, n % QUEUE_SIZE))
      && (InOrderDone(done) && n < |done| + QUEUE_SIZE ==> kept)
  {
    PutKeepsIff(r, packets, done, data);
    OldestInFlight(r, packets, done);
    hide Keeps, SlotInFlight, Put;
  }

  // A device that completes the second of 256 packets first has the first one overwritten.
  method OutOfOrderOverwrites() returns (q: TxQueue)
    ensures fresh(q) && q.Valid() && q.done == {1} && !q.Safe()
  {
    hide Shape, Keeps, SlotInFlight, InOrderDone, Put, Frame;
    q := new TxQueue();
    var ok;
    for i := 0 to QUEUE_SIZE
      invariant fresh(q) && q.Valid() && q.Safe() && q.done == {} && |q.packets| == i
    {
      ok := q.Transmit([]);
    }
    var _ := q.DeviceSends(1, 1);
    ok := q.Transmit([]);
  }
}
