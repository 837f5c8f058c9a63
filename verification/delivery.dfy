/** Terminal input end to end: chunked, framed, decoded, queued and drained. */
module Delivery {
  import opened Bytes
  import opened Ring
  import opened Hdlc
  import opened Memory
  import Host
  import Monitor

  const CAPACITY: nat := SIZE - 1

  /** data in pieces of at most 64 bytes, as send_linux_input slices it. */
  function Chunks(data: seq<byte>): (cs: seq<seq<byte>>)
    decreases |data|
  {
    if data == [] then []
    else
      var n := Min(|data|, PACKET_LIMIT);
      [data[..n]] + Chunks(data[n..])
  }

  function Payload(chunk: seq<byte>): seq<byte> {
    [0x1C, 0x0E] + chunk
  }

  /** What the sender puts on the line for these chunks. */
  function Wire(chunks: seq<seq<byte>>): seq<byte> {
    if chunks == [] then [] else Frame(Payload(chunks[0])) + Wire(chunks[1..])
  }

  lemma {:induction false} ChunksCover(data: seq<byte>)
    ensures Concat(Chunks(data)) == data
    ensures forall i | 0 <= i < |Chunks(data)| :: 1 <= |Chunks(data)[i]| <= PACKET_LIMIT
    ensures forall i | 0 <= i < |Chunks(data)| - 1 :: |Chunks(data)[i]| == 64
    decreases |data|
  {
    if data != [] {
      var n := Min(|data|, PACKET_LIMIT);
      ChunksCover(data[n..]);
      assert data == data[..n] + data[n..];
    }
  }

  /** send_linux_input */
  method SendLinuxInput(port: Port, data: seq<byte>)
    modifies port`tx
    ensures port.tx == old(port.tx) + Wire(Chunks(data))
  {
    var offset := 0;
    ghost var t0 := port.tx;
    assert data[0..] == data && t0 + Wire(Chunks(data)) == port.tx + Wire(Chunks(data[0..]));
    while offset < |data|
      invariant 0 <= offset
      invariant offset <= |data| ==> port.tx + Wire(Chunks(data[offset..])) == t0 + Wire(Chunks(data))
      invariant offset > |data| ==> port.tx == t0 + Wire(Chunks(data))
    {
      var end := Min(offset + 64, |data|);
      SendStep(port.tx, data, offset);
      var frame := HdlcFrame([0x1C, 0x0E] + data[offset..end]);
      port.Write(frame);
      offset := offset + 64;
    }
    if offset <= |data| {
      assert data[offset..] == [];
    }
  }

  lemma SendStep(tx: seq<byte>, data: seq<byte>, offset: nat)
    requires offset < |data|
    ensures var end := Min(offset + 64, |data|);
            var sent := tx + Frame([0x1C, 0x0E] + data[offset..end]);
            sent + Wire(Chunks(data[end..])) == tx + Wire(Chunks(data[offset..]))
    ensures offset + 64 > |data| ==> Wire(Chunks(data[|data|..])) == []
  {
    var end := Min(offset + 64, |data|);
    ChunkAt(data, offset, end);
    WireFirst(data[offset..end], Chunks(data[end..]));
  }

  lemma ChunkAt(data: seq<byte>, offset: nat, end: nat)
    requires offset < |data| && end == Min(offset + 64, |data|)
    ensures Chunks(data[offset..]) == [data[offset..end]] + Chunks(data[end..])
  {
    var rest := data[offset..];
    var n := Min(|rest|, PACKET_LIMIT);
    assert rest[..n] == data[offset..end] && rest[n..] == data[end..];
  }

  lemma WireFirst(chunk: seq<byte>, chunks: seq<seq<byte>>)
    ensures Wire([chunk] + chunks) == Frame([0x1C, 0x0E] + chunk) + Wire(chunks)
  {
    assert ([chunk] + chunks)[1..] == chunks;
  }

  function Items(chunks: seq<seq<byte>>): (items: seq<Item>)
    ensures |items| == |chunks|
  {
    seq(|chunks|, i requires 0 <= i < |chunks| => Item([], 0, Payload(chunks[i])))
  }

  lemma {:induction false} WireIsStream(chunks: seq<seq<byte>>)
    ensures Wire(chunks) == Stream(Items(chunks))
    decreases |chunks|
  {
    if chunks != [] {
      WireIsStream(chunks[1..]);
      assert Items(chunks)[1..] == Items(chunks[1..]);
      assert Items(chunks)[0] == Item([], 0, Payload(chunks[0]));
      assert [] + Flags(0) + Frame(Payload(chunks[0])) == Frame(Payload(chunks[0]));
    }
  }

  /** The far end decodes exactly the chunks that were sent, in order, whatever follows. */
  lemma WireDecodes(chunks: seq<seq<byte>>, rest: seq<byte>)
    ensures var (replies, left) := ReadMany(Wire(chunks) + rest, |chunks|);
            left == rest && |replies| == |chunks|
            && forall i | 0 <= i < |chunks| :: replies[i] == Data([0x1C, 0x0E] + chunks[i])
  {
    WireIsStream(chunks);
    StreamRoundTrip(Items(chunks), rest);
  }

  /** A decoded input payload in memory is, to the handler, an input packet with that chunk. */
  lemma PayloadIsInput(mem: seq<byte>, packet: nat, system: Monitor.SystemRegisters, sp: word,
                       chunk: seq<byte>)
    requires Host.Placed(mem, packet, Payload(chunk))
    ensures Monitor.Decide(mem, packet, system, sp) == Monitor.Input
    ensures Monitor.Args(mem, packet) == chunk
  {
    var payload := Payload(chunk);
    Host.PlacedByte(mem, packet, payload, 0);
    Host.PlacedByte(mem, packet, payload, 1);
    SubSlice(mem, packet + 6, packet + 6 + |payload|, 2, |payload|);
    assert payload[2..] == chunk && payload[2..|payload|] == payload[2..];
  }

  /** The mailbox after these chunks have been enqueued with no receive in between. */
  function Enqueue(m: Mailbox, chunks: seq<seq<byte>>): (m': Mailbox)
    requires Sound(m)
    ensures Sound(m')
    decreases |chunks|
  {
    if chunks == [] then m
    else
      PushAppends(m, chunks[0]);
      Enqueue(Push(m, chunks[0]), chunks[1..])
  }

  predicate Packets(chunks: seq<seq<byte>>) {
    forall i | 0 <= i < |chunks| :: |chunks[i]| <= PACKET_LIMIT
  }

  lemma {:induction false} EnqueueAppends(m: Mailbox, chunks: seq<seq<byte>>)
    requires Sound(m) && Packets(chunks)
    ensures var free := CAPACITY - |Queue(m)|;
            Queue(Enqueue(m, chunks)) == Queue(m) + Concat(chunks)[..Min(|Concat(chunks)|, free)]
    decreases |chunks|
  {
    if chunks != [] {
      var m' := Push(m, chunks[0]);
      PushAppends(m, chunks[0]);
      EnqueueAppends(m', chunks[1..]);
      PrefixOfTwo(Queue(m), chunks[0], Concat(chunks[1..]), CAPACITY - |Queue(m)|);
    }
  }

  lemma PrefixOfTwo(q: seq<byte>, a: seq<byte>, b: seq<byte>, free: nat)
    ensures var k := Min(|a|, free);
            (q + a[..k]) + b[..Min(|b|, free - k)] == q + (a + b)[..Min(|a + b|, free)]
  {
    var k := Min(|a|, free);
    if k == |a| {
      assert a[..k] == a;
      assert (a + b)[..Min(|a + b|, free)] == a + b[..Min(|b|, free - k)];
    } else {
      assert (a + b)[..Min(|a + b|, free)] == a[..k];
      assert b[..Min(|b|, free - k)] == [];
    }
  }

  /** Successive receives with these limits. */
  function Drains(m: Mailbox, limits: seq<nat>): (r: (Mailbox, seq<byte>))
    requires Sound(m)
    ensures Sound(r.0)
    decreases |limits|
  {
    if limits == [] then (m, [])
    else
      PullTakes(m, limits[0]);
      var (m', out) := Pull(m, limits[0]);
      var (end, more) := Drains(m', limits[1..]);
      (end, out + more)
  }

  function Sum(ns: seq<nat>): nat {
    if ns == [] then 0 else ns[0] + Sum(ns[1..])
  }

  lemma {:induction false} DrainsTake(m: Mailbox, limits: seq<nat>)
    requires Sound(m)
    ensures var k := Min(Sum(limits), |Queue(m)|);
            var (end, out) := Drains(m, limits);
            out == Queue(m)[..k] && Queue(end) == Queue(m)[k..]
    decreases |limits|
  {
    if limits != [] {
      PullTakes(m, limits[0]);
      var (m', out) := Pull(m, limits[0]);
      DrainsTake(m', limits[1..]);
      TakeTwice(Queue(m), limits[0], Sum(limits[1..]), out, Queue(m'));
    }
  }

  lemma TakeTwice(q: seq<byte>, a: nat, b: nat, out: seq<byte>, left: seq<byte>)
    requires out == q[..Min(a, |q|)] && left == q[Min(a, |q|)..]
    ensures out + left[..Min(b, |left|)] == q[..Min(a + b, |q|)]
    ensures left[Min(b, |left|)..] == q[Min(a + b, |q|)..]
  {
  }

  /**
   Reads that ask for total bytes in all, after data has met room bytes of free space: out is the
   front of what was queued followed by the part of data that fits, left is the rest of it;
   nothing is lost if and only if data fits, and all of it is out if and only if, besides, the
   reads ask for enough.
   */
  predicate Delivered(queued: seq<byte>, data: seq<byte>, room: nat, total: nat,
                      out: seq<byte>, left: seq<byte>) {
    var all := queued + data[..Min(|data|, room)];
    var k := Min(total, |all|);
    && out == all[..k] && left == all[k..]
    && (out + left == queued + data <==> |data| <= room)
    && (out == queued + data <==> |data| <= room && total >= |queued| + |data|)
  }

  lemma ChunksEnqueued(m: Mailbox, data: seq<byte>, chunks: seq<seq<byte>>) returns (queued: Mailbox)
    requires Sound(m) && chunks == Chunks(data)
    ensures queued == Enqueue(m, chunks) && Sound(queued)
    ensures Queue(queued) == Queue(m) + data[..Min(|data|, CAPACITY - |Queue(m)|)]
  {
    ChunksCover(data);
    EnqueueAppends(m, chunks);
    queued := Enqueue(m, chunks);
  }

  /** Data enqueued in 64-byte pieces and then drained by any number of reads of any sizes. */
  lemma InputDelivered(m: Mailbox, data: seq<byte>, chunks: seq<seq<byte>>, limits: seq<nat>)
    requires Sound(m) && chunks == Chunks(data)
    ensures var (end, out) := Drains(Enqueue(m, chunks), limits);
            Delivered(Queue(m), data, 255 - |Queue(m)|, Sum(limits), out, Queue(end))
  {
    var queued := ChunksEnqueued(m, data, chunks);
    var (end, out) := Drains(queued, limits);
    DrainsTake(queued, limits);
    DeliveredParts(Queue(m), data, 255 - |Queue(m)|, Sum(limits), Queue(queued), out, Queue(end));
  }

  lemma DeliveredParts(queued: seq<byte>, data: seq<byte>, room: nat, total: nat, all: seq<byte>,
                       out: seq<byte>, left: seq<byte>)
    requires all == queued + data[..Min(|data|, room)]
    requires out == all[..Min(total, |all|)] && left == all[Min(total, |all|)..]
    ensures Delivered(queued, data, room, total, out, left)
  {
    assert out + left == all;
    if |data| <= room {
      assert data[..|data|] == data;
      if total >= |all| { assert all[..|all|] == all; }
    } else {
      assert |all| < |queued + data|;
    }
    if total < |queued| + |data| { assert |out| < |queued + data|; }
  }

  /** The chunks the handler enqueues for these decoded frames; other replies enqueue nothing. */
  function Inputs(replies: seq<Reply>): seq<seq<byte>> {
    if replies == [] then []
    else
      var r := replies[0];
      (if r.Data? && [0x1C, 0x0E] <= r.payload then [r.payload[2..]] else []) + Inputs(replies[1..])
  }

  lemma {:induction false} InputsOfWire(chunks: seq<seq<byte>>, replies: seq<Reply>)
    requires |replies| == |chunks|
    requires forall i | 0 <= i < |chunks| :: replies[i] == Data(Payload(chunks[i]))
    ensures Inputs(replies) == chunks
    decreases |chunks|
  {
    if chunks != [] {
      assert Payload(chunks[0])[2..] == chunks[0];
      InputsOfWire(chunks[1..], replies[1..]);
      assert chunks == [chunks[0]] + chunks[1..];
    }
  }

  /** The same from the line: what the sender wrote, followed by anything, read frame by frame. */
  lemma LineDelivered(m: Mailbox, data: seq<byte>, rest: seq<byte>, limits: seq<nat>)
    requires Sound(m)
    ensures var (replies, left) := ReadMany(Wire(Chunks(data)) + rest, |Chunks(data)|);
            var (end, out) := Drains(Enqueue(m, Inputs(replies)), limits);
            left == rest
            && Delivered(Queue(m), data, 255 - |Queue(m)|, Sum(limits), out, Queue(end))
  {
    var chunks := Chunks(data);
    WireDecodes(chunks, rest);
    InputsOfWire(chunks, ReadMany(Wire(chunks) + rest, |chunks|).0);
    InputDelivered(m, data, chunks, limits);
  }

  /** The driver polling: each receive dispatches one packet and then drains up to its limit. */
  function Poll(m: Mailbox, chunks: seq<seq<byte>>, limits: seq<nat>): (r: (Mailbox, seq<byte>))
    requires Sound(m) && |chunks| == |limits|
    ensures Sound(r.0)
    decreases |chunks|
  {
    if chunks == [] then (m, [])
    else
      PushAppends(m, chunks[0]);
      var pushed := Push(m, chunks[0]);
      PullTakes(pushed, limits[0]);
      var (m', out) := Pull(pushed, limits[0]);
      var (end, more) := Poll(m', chunks[1..], limits[1..]);
      (end, out + more)
  }

  /** With n bytes queued, every chunk finds room when its turn comes. */
  predicate Fits(n: nat, chunks: seq<seq<byte>>, limits: seq<nat>)
    requires |chunks| == |limits|
    decreases |chunks|
  {
    chunks == []
    || (n + |chunks[0]| <= CAPACITY
        && Fits(n + |chunks[0]| - Min(limits[0], n + |chunks[0]|), chunks[1..], limits[1..]))
  }

  /** Polling gives out and keeps no more bytes in all than were queued and came in. */
  lemma {:induction false} PollBounded(m: Mailbox, chunks: seq<seq<byte>>, limits: seq<nat>)
    requires Sound(m) && |chunks| == |limits|
    ensures var (end, out) := Poll(m, chunks, limits);
            |out| + |Queue(end)| <= |Queue(m)| + |Concat(chunks)|
    decreases |chunks|
  {
    if chunks != [] {
      var pushed := Push(m, chunks[0]);
      PushAppends(m, chunks[0]);
      PullTakes(pushed, limits[0]);
      PollBounded(Pull(pushed, limits[0]).0, chunks[1..], limits[1..]);
    }
  }

  /** Polling loses nothing exactly when every chunk fits as it arrives. */
  lemma {:induction false} PollLosslessIffFits(m: Mailbox, chunks: seq<seq<byte>>, limits: seq<nat>)
    requires Sound(m) && |chunks| == |limits| && Packets(chunks)
    ensures var (end, out) := Poll(m, chunks, limits);
            out + Queue(end) == Queue(m) + Concat(chunks) <==> Fits(|Queue(m)|, chunks, limits)
    decreases |chunks|
  {
    if chunks == [] {
      assert [] + Queue(m) == Queue(m) + Concat(chunks);
    } else if |Queue(m)| + |chunks[0]| <= CAPACITY {
      var m', taken := PollFirst(m, chunks, limits);
      var (end, more) := Poll(m', chunks[1..], limits[1..]);
      PollLosslessIffFits(m', chunks[1..], limits[1..]);
      FirstPart(Queue(m), chunks[0], Concat(chunks[1..]), taken, Queue(m'), more, Queue(end));
    } else {
      PollOverflows(m, chunks, limits);
    }
  }

  /** A chunk that fits is queued whole before the receive takes its part. */
  lemma PollFirst(m: Mailbox, chunks: seq<seq<byte>>, limits: seq<nat>)
    returns (m': Mailbox, taken: seq<byte>)
    requires Sound(m) && |chunks| == |limits| && Packets(chunks) && chunks != []
    requires |Queue(m)| + |chunks[0]| <= CAPACITY
    ensures Sound(m') && taken + Queue(m') == Queue(m) + chunks[0]
    ensures |Queue(m')| == |Queue(m)| + |chunks[0]| - Min(limits[0], |Queue(m)| + |chunks[0]|)
    ensures Poll(m, chunks, limits).0 == Poll(m', chunks[1..], limits[1..]).0
    ensures Poll(m, chunks, limits).1 == taken + Poll(m', chunks[1..], limits[1..]).1
  {
    var pushed := Push(m, chunks[0]);
    PushAppends(m, chunks[0]);
    PullTakes(pushed, limits[0]);
    assert chunks[0][..|chunks[0]|] == chunks[0];
    m', taken := Pull(pushed, limits[0]).0, Pull(pushed, limits[0]).1;
    SplitQueue(Queue(pushed), Min(limits[0], |Queue(pushed)|), taken, Queue(m'));
  }

  lemma SplitQueue(q: seq<byte>, k: nat, front: seq<byte>, back: seq<byte>)
    requires k <= |q| && front == q[..k] && back == q[k..]
    ensures front + back == q && |back| == |q| - k
  {
  }

  /** A chunk that does not fit is cut short, and nothing later makes up for it. */
  lemma PollOverflows(m: Mailbox, chunks: seq<seq<byte>>, limits: seq<nat>)
    requires Sound(m) && |chunks| == |limits| && Packets(chunks) && chunks != []
    requires |Queue(m)| + |chunks[0]| > CAPACITY
    ensures var (end, out) := Poll(m, chunks, limits);
            |out + Queue(end)| < |Queue(m) + Concat(chunks)|
  {
    var pushed := Push(m, chunks[0]);
    PushAppends(m, chunks[0]);
    PullTakes(pushed, limits[0]);
    PollBounded(Pull(pushed, limits[0]).0, chunks[1..], limits[1..]);
  }

  lemma FirstPart(q: seq<byte>, c: seq<byte>, rest: seq<byte>, taken: seq<byte>, left: seq<byte>,
                  more: seq<byte>, end: seq<byte>)
    requires taken + left == q + c
    ensures more + end == left + rest <==> (taken + more) + end == q + (c + rest)
  {
    assert (taken + more) + end == taken + (more + end);
    assert q + (c + rest) == (q + c) + rest == (taken + left) + rest == taken + (left + rest);
    assert (taken + (more + end))[|taken|..] == more + end;
    assert (taken + (left + rest))[|taken|..] == left + rest;
  }

  /** A reader that always has room for a full packet never loses input of any length. */
  lemma {:induction false} FullPacketsFit(n: nat, chunks: seq<seq<byte>>, limits: seq<nat>)
    requires |chunks| == |limits| && Packets(chunks) && n + PACKET_LIMIT <= CAPACITY
    requires forall i | 0 <= i < |limits| :: limits[i] >= PACKET_LIMIT
    ensures Fits(n, chunks, limits)
    decreases |chunks|
  {
    if chunks != [] {
      FullPacketsFit(n + |chunks[0]| - Min(limits[0], n + |chunks[0]|), chunks[1..], limits[1..]);
    }
  }

  /** With reads below a full packet, the ring fills by at least a byte a packet and overflows. */
  lemma {:induction false} SlowReaderOverflows(n: nat, chunks: seq<seq<byte>>, limits: seq<nat>)
    requires |chunks| == |limits| && n + |chunks| + PACKET_LIMIT > CAPACITY + 1 && chunks != []
    requires forall i | 0 <= i < |chunks| :: |chunks[i]| == PACKET_LIMIT && limits[i] < PACKET_LIMIT
    ensures !Fits(n, chunks, limits)
    decreases |chunks|
  {
    if n + PACKET_LIMIT <= CAPACITY {
      var n' := n + PACKET_LIMIT - limits[0];
      assert Min(limits[0], n + |chunks[0]|) == limits[0];
      SlowReaderOverflows(n', chunks[1..], limits[1..]);
    }
  }

  /** So any reader whose limits stay below 64 loses input: 193 full packets always overflow it. */
  lemma SlowReaderLoses(m: Mailbox, chunks: seq<seq<byte>>, limits: seq<nat>)
    requires Sound(m) && |chunks| == |limits| && |chunks| + PACKET_LIMIT > CAPACITY + 1
    requires forall i | 0 <= i < |chunks| :: |chunks[i]| == PACKET_LIMIT && limits[i] < PACKET_LIMIT
    ensures var (end, out) := Poll(m, chunks, limits);
            out + Queue(end) != Queue(m) + Concat(chunks)
  {
    SlowReaderOverflows(|Queue(m)|, chunks, limits);
    PollLosslessIffFits(m, chunks, limits);
  }

  /** Five full packets, read one byte at a time from an empty ring, lose input. */
  lemma OneByteReadsLose(m: Mailbox, chunks: seq<seq<byte>>, limits: seq<nat>)
    requires Sound(m) && Queue(m) == [] && |chunks| == 5 && limits == [1, 1, 1, 1, 1]
    requires forall i | 0 <= i < 5 :: |chunks[i]| == PACKET_LIMIT
    ensures var (end, out) := Poll(m, chunks, limits);
            out + Queue(end) != Queue(m) + Concat(chunks)
  {
    assert !Fits(252, chunks[4..], limits[4..]);
    assert chunks[3..][1..] == chunks[4..] && limits[3..][1..] == limits[4..];
    assert !Fits(189, chunks[3..], limits[3..]);
    assert chunks[2..][1..] == chunks[3..] && limits[2..][1..] == limits[3..];
    assert !Fits(126, chunks[2..], limits[2..]);
    assert chunks[1..][1..] == chunks[2..] && limits[1..][1..] == limits[2..];
    assert !Fits(63, chunks[1..], limits[1..]);
    PollLosslessIffFits(m, chunks, limits);
  }
}
