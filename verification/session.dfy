/**
 Terminal input through the real pieces: the sender's frames on the line, read one by one, placed
 in memory for the monitor's handler, and drained by the driver's receives.
 */
module Session {
  import opened Bytes
  import opened Memory
  import opened SharedMailbox
  import opened Ring
  import D = Delivery
  import Hdlc
  import Host
  import Kernel
  import Monitor

  const PACKET_ROOM: nat := 96

  /** mem with a decoded payload where the handler expects it: its length, then its bytes. */
  function Placing(mem: seq<byte>, packet: nat, payload: seq<byte>): (m: seq<byte>)
    requires packet + 6 + |payload| <= |mem|
    ensures |m| == |mem|
  {
    Store(mem, packet + 4, Le(|payload|, 2) + payload)
  }

  /** The packet buffer and the stack keep clear of each other and of the handler's areas. */
  predicate Roomy(packet: nat, sp: nat) {
    && packet + PACKET_ROOM < U32 && 16 <= sp < U32
    && (packet + PACKET_ROOM <= MAILBOX || MAILBOX_END <= packet)
    && !Monitor.Overlap(sp - 16, 16, packet, PACKET_ROOM)
    && !Monitor.Overlap(sp - 16, 16, Monitor.MESSAGE, 9)
    && !Monitor.Overlap(sp - 16, 16, MAILBOX, MAILBOX_END - MAILBOX)
  }

  lemma PlacingPlaces(mem: seq<byte>, packet: nat, payload: seq<byte>)
    requires |mem| == U32 && packet + PACKET_ROOM < U32 && |payload| <= 66
    ensures Host.Placed(Placing(mem, packet, payload), packet, payload)
    ensures Only(mem, Placing(mem, packet, payload), packet, packet + PACKET_ROOM)
  {
    var bytes := Le(|payload|, 2) + payload;
    var m := Placing(mem, packet, payload);
    StoreOnly(mem, packet + 4, bytes);
    SubSlice(m, packet + 4, packet + 4 + |bytes|, 0, 2);
    SubSlice(m, packet + 4, packet + 4 + |bytes|, 2, |bytes|);
    assert bytes[0..2] == Le(|payload|, 2) && bytes[2..] == payload && bytes[2..|bytes|] == payload;
    OctetPowers();
    LeRoundTrip(|payload|, 2);
  }

  lemma PlacedSame(before: seq<byte>, after: seq<byte>, packet: nat, payload: seq<byte>)
    requires Host.Placed(before, packet, payload) && |payload| <= 66 && packet + PACKET_ROOM < U32
    requires Same(before, after, packet, packet + PACKET_ROOM)
    ensures Host.Placed(after, packet, payload)
  {
    SameSlice(before, after, packet + 4, packet + 6);
    SameSlice(before, after, packet + 6, packet + 6 + |payload|);
  }

  /** The turn in which the stock receive code has put this payload in the packet buffer. */
  function TurnWith(mem: seq<byte>, packet: word, payload: seq<byte>,
                    system: Monitor.SystemRegisters): Kernel.Turn
    requires packet + 6 + |payload| <= |mem|
  {
    var received := Placing(mem, packet, payload);
    Kernel.Turn(received, true, packet, system, Monitor.Return(0, received))
  }

  lemma TurnPossible(mem: seq<byte>, packet: word, payload: seq<byte>,
                     system: Monitor.SystemRegisters, sp: nat)
    requires |mem| == U32 && Roomy(packet, sp) && |payload| <= 66 && Sound(MailboxAt(mem))
    ensures Kernel.Possible(TurnWith(mem, packet, payload, system), mem, sp)
  {
    PlacingPlaces(mem, packet, payload);
    MailboxSame(mem, Placing(mem, packet, payload));
  }

  /** The handler hears an input payload as the packet of its chunk. */
  lemma TurnHeard(h: History, t: Kernel.Turn, e: Monitor.Entry, mem: seq<byte>, packet: word,
                  chunk: seq<byte>, system: Monitor.SystemRegisters)
    requires |mem| == U32 && Roomy(packet, e.sp) && |chunk| <= 64 && Sound(h.m)
    requires t == TurnWith(mem, packet, D.Payload(chunk), system)
    requires e.memory == t.received && e.packet == packet && Monitor.PacketClear(e.memory, packet)
    ensures Kernel.Heard(h, t, e) == Step(h, Packet(chunk))
  {
    var payload := D.Payload(chunk);
    PlacingPlaces(mem, packet, payload);
    D.PayloadIsInput(e.memory, packet, system, e.sp - 16, chunk);
    PushedPlaced(e, packet, payload);
    D.PayloadIsInput(Monitor.Pushed(e), packet, system, e.sp - 16, chunk);
  }

  /** Pushing the registers leaves the payload in place. */
  lemma PushedPlaced(e: Monitor.Entry, packet: nat, payload: seq<byte>)
    requires Host.Placed(e.memory, packet, payload) && |payload| <= 66 && Roomy(packet, e.sp)
    ensures Host.Placed(Monitor.Pushed(e), packet, payload)
  {
    StoreOnly(e.memory, e.sp - 16, Monitor.Frame(e));
    PlacedSame(e.memory, Monitor.Pushed(e), packet, payload);
  }

  /** One poll: a payload arrives and the driver receives. */
  method Poll(driver: Kernel.Driver, buffer: array<byte>, limit: nat, packet: word,
              payload: seq<byte>, system: Monitor.SystemRegisters, ghost chunk: seq<byte>,
              ghost m: Mailbox)
    returns (got: seq<byte>)
    requires driver.Valid() && Roomy(packet, driver.cpu.sp) && buffer != driver.cpu.mem
    requires limit <= buffer.Length && payload == D.Payload(chunk) && |chunk| <= 64
    requires m == driver.history.m
    modifies driver, driver.cpu, driver.cpu.mem, buffer
    ensures driver.Valid() && driver.cpu.sp == old(driver.cpu.sp) && driver.ttbr == old(driver.ttbr)
    ensures Sound(m) && HeadInRange(m)
    ensures |Push(m, chunk).data| == SIZE && (driver.history.m, got) == Pull(Push(m, chunk), limit)
  {
    var t := TurnWith(driver.cpu.mem[..], packet, payload, system);
    ghost var h, mem := driver.history, driver.cpu.mem[..];
    TurnPossible(mem, packet, payload, system, driver.cpu.sp);
    var count, out, e := driver.Receive(buffer, limit, t);
    TurnHeard(h, t, e, mem, packet, chunk, system);
    PushAppends(m, chunk);
    got := buffer[..count];
    assert got == out;
  }

  lemma WireFirst(chunks: seq<seq<byte>>)
    requires chunks != []
    ensures D.Wire(chunks) == Hdlc.Frame(D.Payload(chunks[0])) + D.Wire(chunks[1..])
  {
  }

  lemma LineFirst(chunks: seq<seq<byte>>)
    requires chunks != []
    ensures Hdlc.Read(D.Wire(chunks)) == (Hdlc.Data(D.Payload(chunks[0])), D.Wire(chunks[1..]))
  {
    WireFirst(chunks);
    Hdlc.FirstFrame(D.Payload(chunks[0]), D.Wire(chunks[1..]));
  }

  /** One frame off the line and one poll for it. */
  method PollLine(line: Hdlc.Port, driver: Kernel.Driver, buffer: array<byte>, limit: nat,
                  packet: word, system: Monitor.SystemRegisters, ghost left: seq<seq<byte>>,
                  ghost m: Mailbox)
    returns (got: seq<byte>)
    requires driver.Valid() && Roomy(packet, driver.cpu.sp) && buffer != driver.cpu.mem
    requires limit <= buffer.Length && left != [] && |left[0]| <= 64
    requires line.rx == D.Wire(left) && m == driver.history.m
    modifies line`rx, driver, driver.cpu, driver.cpu.mem, buffer
    ensures driver.Valid() && driver.cpu.sp == old(driver.cpu.sp) && driver.ttbr == old(driver.ttbr)
    ensures line.rx == D.Wire(left[1..]) && HeadInRange(m)
    ensures |Push(m, left[0]).data| == SIZE
    ensures (driver.history.m, got) == Pull(Push(m, left[0]), limit)
  {
    LineFirst(left);
    var r := line.ReadFrame();
    got := Poll(driver, buffer, limit, packet, r.payload, system, left[0], m);
  }

  /** The rest of the polls, after the first: what comes out is what polling the ring gives. */
  lemma PollOne(m: Mailbox, chunks: seq<seq<byte>>, limits: seq<nat>, m': Mailbox, got: seq<byte>)
    requires Sound(m) && |chunks| == |limits| > 0 && (m', got) == Pull(Push(m, chunks[0]), limits[0])
    ensures Sound(m')
    ensures D.Poll(m, chunks, limits).0 == D.Poll(m', chunks[1..], limits[1..]).0
    ensures D.Poll(m, chunks, limits).1 == got + D.Poll(m', chunks[1..], limits[1..]).1
  {
    PushAppends(m, chunks[0]);
    PullTakes(Push(m, chunks[0]), limits[0]);
  }

  /** Where the polls stand: the chunks left, and how their output completes the whole. */
  predicate Polling(m0: Mailbox, chunks: seq<seq<byte>>, limits: seq<nat>, m: Mailbox,
                    left: seq<seq<byte>>, output: seq<byte>) {
    && Sound(m0) && Sound(m) && |left| <= |chunks| == |limits| &&
    var whole := D.Poll(m0, chunks, limits);
    var rest := D.Poll(m, left, limits[|limits| - |left|..]);
    whole == (rest.0, output + rest.1)
  }

  lemma PollingStep(m0: Mailbox, chunks: seq<seq<byte>>, limits: seq<nat>, m: Mailbox,
                    left: seq<seq<byte>>, output: seq<byte>, m': Mailbox, got: seq<byte>)
    requires Polling(m0, chunks, limits, m, left, output) && left != []
    requires (m', got) == Pull(Push(m, left[0]), limits[|limits| - |left|])
    ensures Polling(m0, chunks, limits, m', left[1..], output + got)
  {
    var here := limits[|limits| - |left|..];
    PollOne(m, left, here, m', got);
    assert here[1..] == limits[|limits| - |left[1..]|..];
    var more := D.Poll(m', left[1..], here[1..]).1;
    assert output + (got + more) == (output + got) + more;
  }

  /** The line read frame by frame, one frame a poll, each poll with its own limit. */
  method ReceiveLine(line: Hdlc.Port, driver: Kernel.Driver, buffer: array<byte>, limits: seq<nat>,
                     packet: word, system: Monitor.SystemRegisters, ghost chunks: seq<seq<byte>>)
    returns (output: seq<byte>)
    requires driver.Valid() && Roomy(packet, driver.cpu.sp) && buffer != driver.cpu.mem
    requires forall i | 0 <= i < |limits| :: limits[i] <= buffer.Length
    requires line.rx == D.Wire(chunks) && |chunks| == |limits| && D.Packets(chunks)
    modifies line`rx, driver, driver.cpu, driver.cpu.mem, buffer
    ensures driver.Valid() && driver.ttbr == old(driver.ttbr)
    ensures Sound(old(driver.history.m))
    ensures (driver.history.m, output) == D.Poll(old(driver.history.m), chunks, limits)
  {
    ghost var m0, m, left := driver.history.m, driver.history.m, chunks;
    output := [];
    PollingStarts(m0, chunks, limits);
    for i := 0 to |limits|
      invariant driver.Valid() && Roomy(packet, driver.cpu.sp) && driver.ttbr == old(driver.ttbr)
      invariant |left| == |limits| - i && D.Packets(left) && line.rx == D.Wire(left)
      invariant m == driver.history.m && Polling(m0, chunks, limits, m, left, output)
    {
      var got := PollLine(line, driver, buffer, limits[i], packet, system, left, m);
      PollingStep(m0, chunks, limits, m, left, output, driver.history.m, got);
      m, output, left := driver.history.m, output + got, left[1..];
    }
    PollingEnds(m0, chunks, limits, m, left, output);
  }

  lemma PollingStarts(m0: Mailbox, chunks: seq<seq<byte>>, limits: seq<nat>)
    requires Sound(m0) && |chunks| == |limits|
    ensures Polling(m0, chunks, limits, m0, chunks, [])
  {
    assert limits[0..] == limits;
    assert [] + D.Poll(m0, chunks, limits).1 == D.Poll(m0, chunks, limits).1;
  }

  lemma PollingEnds(m0: Mailbox, chunks: seq<seq<byte>>, limits: seq<nat>, m: Mailbox,
                    left: seq<seq<byte>>, output: seq<byte>)
    requires Polling(m0, chunks, limits, m, left, output) && left == []
    ensures D.Poll(m0, chunks, limits) == (m, output)
  {
    assert output + [] == output;
  }

  /**
   From the host's call to the tty's bytes: data is sent, every frame is received by its own
   poll, and what came out followed by what is still queued is what was queued and then data, if
   and only if every packet found room; limits of at least 64 always give it room.
   */
  method Deliver(host: Hdlc.Port, line: Hdlc.Port, driver: Kernel.Driver, buffer: array<byte>,
                 data: seq<byte>, limits: seq<nat>, packet: word, system: Monitor.SystemRegisters)
    returns (output: seq<byte>)
    requires driver.Valid() && Roomy(packet, driver.cpu.sp) && buffer != driver.cpu.mem
    requires forall i | 0 <= i < |limits| :: limits[i] <= buffer.Length
    requires host != line && host.tx == [] && |limits| == |D.Chunks(data)|
    modifies host`tx, line`rx, driver, driver.cpu, driver.cpu.mem, buffer
    ensures driver.Valid() && driver.ttbr == old(driver.ttbr) && Sound(old(driver.history.m))
    ensures output + Queue(driver.history.m) == Queue(old(driver.history.m)) + data
            <==> D.Fits(|Queue(old(driver.history.m))|, D.Chunks(data), limits)
  {
    ghost var m0 := driver.history.m;
    D.ChunksCover(data);
    D.SendLinuxInput(host, data);
    line.rx := host.tx;
    assert [] + D.Wire(D.Chunks(data)) == D.Wire(D.Chunks(data));
    output := ReceiveLine(line, driver, buffer, limits, packet, system, D.Chunks(data));
    D.PollLosslessIffFits(m0, D.Chunks(data), limits);
  }
}
