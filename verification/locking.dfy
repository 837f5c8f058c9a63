/**
 The driver's lock: receives and resets cut into single operations, where only the holder of the
 lock can go on. Every reset it lets happen is a safe one.
 */
module Locking {
  import opened Bytes
  import opened Interleaving
  import opened Resets
  import Ring

  /** The driver's lock: free, or held by a receive that runs the monitor and then copies. */
  datatype Lock = Free | Monitor(limit: nat) | Copy

  datatype Locked = Locked(s: State, lock: Lock)

  /** A call that waits while the lock is held, or one step of the call that holds it. */
  datatype Call = Receive(packet: seq<byte>, limit: nat) | InputReset | Continue

  /** While Linux runs, the handler runs only inside a receive, and the lock is free between calls. */
  predicate Exclusive(k: Locked) {
    && Inv(k.s)
    && (!k.lock.Monitor? ==> k.s.p.PIdle?)
    && (!k.lock.Copy? ==> k.s.c.CIdle?)
  }

  function LockedStep(k: Locked, call: Call): Locked
    requires Exclusive(k)
  {
    match call
    case Receive(packet, limit) =>
      if k.lock.Free? then Locked(Step(k.s, StartPacket(packet)), Monitor(limit)) else k
    case InputReset =>
      if k.lock.Free? then k.(s := ResetAt(k.s)) else k
    case Continue =>
      match k.lock
      case Free => k
      case Monitor(limit) =>
        if k.s.p.PIdle? then Locked(Step(k.s, StartReceive(limit)), Copy)
        else k.(s := Step(k.s, ProducerStep))
      case Copy =>
        if k.s.c.CIdle? then k.(lock := Free) else k.(s := Step(k.s, ConsumerStep))
  }

  lemma LockedStepKeeps(k: Locked, call: Call)
    requires Exclusive(k)
    ensures Exclusive(LockedStep(k, call))
    ensures call.InputReset? && k.lock.Free? ==> ProducerResetSafe(k.s.p) && ConsumerResetSafe(k.s.c)
    ensures !k.lock.Free? && !call.Continue? ==> LockedStep(k, call) == k
  {
    match call
    case Receive(packet, limit) => StepKeeps(k.s, StartPacket(packet));
    case InputReset =>
      if k.lock.Free? {
        SafeResetKeeps(k.s);
      }
    case Continue =>
      match k.lock
      case Free =>
      case Monitor(limit) =>
        StepKeeps(k.s, StartReceive(limit));
        StepKeeps(k.s, ProducerStep);
      case Copy => StepKeeps(k.s, ConsumerStep);
  }

  function LockedRun(k: Locked, calls: seq<Call>): (k': Locked)
    requires Exclusive(k)
    ensures Exclusive(k')
    decreases |calls|
  {
    if calls == [] then k
    else
      LockedStepKeeps(k, calls[0]);
      LockedRun(LockedStep(k, calls[0]), calls[1..])
  }

  /** With the lock, every run of receives and resets, cut into single operations, is a FIFO. */
  lemma LockedFifo(data: seq<byte>, calls: seq<Call>)
    requires |data| == Ring.SIZE
    ensures Exclusive(Locked(Start(data), Free))
    ensures Fifo(LockedRun(Locked(Start(data), Free), calls).s)
  {
    Unread(LockedRun(Locked(Start(data), Free), calls).s);
  }

  lemma LockedFirst(k: Locked, call: Call, calls: seq<Call>)
    requires Exclusive(k)
    ensures Exclusive(LockedStep(k, call))
    ensures LockedRun(k, [call] + calls) == LockedRun(LockedStep(k, call), calls)
  {
    LockedStepKeeps(k, call);
    assert ([call] + calls)[1..] == calls;
  }

  /** The monitor's part of a receive, left to run: the ring's fill. */
  lemma {:induction false} LockedFills(k: Locked) returns (calls: seq<Call>)
    requires Exclusive(k) && k.lock.Monitor? && k.s.p.PLoop? && k.s.p.r5 == k.s.tail
    ensures forall c | c in calls :: c == Continue
    ensures var k' := LockedRun(k, calls);
            var (data, head) := Ring.Fill(k.s.data, k.s.p.r3, k.s.tail, k.s.p.args[k.s.p.k..]);
            && k'.lock == k.lock && k'.s.p.PIdle? && k'.s.c.CIdle?
            && Words(k'.s) == Ring.Mailbox(Ring.MAGIC, head, k.s.tail, data)
            && k'.s.delivered == k.s.delivered
    decreases |k.s.p.args| - k.s.p.k
  {
    LockedFirst(k, Continue, []);
    if k.s.p.k == |k.s.p.args| || Ring.Next(k.s.p.r3) == k.s.p.r5 {
      calls := [Continue];
    } else {
      var rest := k.s.p.args[k.s.p.k..];
      var later := LockedFills(LockedStep(k, Continue));
      calls := [Continue] + later;
      LockedFirst(k, Continue, later);
      assert rest[0] == k.s.p.args[k.s.p.k] && rest[1..] == k.s.p.args[k.s.p.k + 1..];
    }
  }

  /** The copying part of a receive, left to run: the ring's drain, and the lock is free again. */
  lemma {:induction false} LockedDrains(k: Locked) returns (calls: seq<Call>)
    requires Exclusive(k) && k.lock.Copy? && k.s.c.CLoop? && |k.s.c.buffer| <= k.s.c.limit
    ensures forall c | c in calls :: c == Continue
    ensures var k' := LockedRun(k, calls);
            var (out, end) := Ring.Drain(k.s.data, k.s.c.hd, k.s.c.tl, k.s.c.limit - |k.s.c.buffer|);
            && k'.lock.Free? && k'.s.delivered == k.s.delivered + (k.s.c.buffer + out)
            && Words(k'.s)
               == Ring.Mailbox(Ring.MAGIC, k.s.head, if k.s.c.buffer + out == [] then k.s.tail else end, k.s.data)
    decreases k.s.c.limit - |k.s.c.buffer|
  {
    if k.s.c.tl != k.s.c.hd && |k.s.c.buffer| < k.s.c.limit {
      LockedFirst(k, Continue, []);
      var later := LockedDrains(LockedStep(k, Continue));
      calls := [Continue] + later;
      LockedFirst(k, Continue, later);
      var out := Ring.Drain(k.s.data, k.s.c.hd, Ring.Next(k.s.c.tl), k.s.c.limit - |k.s.c.buffer| - 1).0;
      assert (k.s.c.buffer + [k.s.data[k.s.c.tl]]) + out == k.s.c.buffer + ([k.s.data[k.s.c.tl]] + out);
    } else {
      calls := [Continue] + [Continue];
      LockedFirst(k, Continue, [Continue]);
      LockedFirst(LockedStep(k, Continue), Continue, []);
      assert k.s.c.buffer + [] == k.s.c.buffer && k.s.delivered + [] == k.s.delivered;
    }
  }

  /** Two runs, one after the other. */
  lemma {:induction false} LockedRuns(k: Locked, a: seq<Call>, b: seq<Call>)
    requires Exclusive(k)
    ensures LockedRun(k, a + b) == LockedRun(LockedRun(k, a), b)
    decreases |a|
  {
    if a == [] {
      assert a + b == b;
    } else {
      LockedStepKeeps(k, a[0]);
      LockedRuns(LockedStep(k, a[0]), a[1..], b);
      assert a == [a[0]] + a[1..] && a + b == [a[0]] + (a[1..] + b);
      LockedFirst(k, a[0], a[1..] + b);
    }
  }

  /** The monitor's part of a receive that finds the lock free: one push. */
  lemma LockedPush(k: Locked, packet: seq<byte>, limit: nat) returns (calls: seq<Call>)
    requires Exclusive(k) && k.lock.Free?
    ensures forall c | c in calls :: c == Continue
    ensures var k' := LockedRun(LockedStep(k, Call.Receive(packet, limit)), calls);
            && k'.lock == Monitor(limit) && k'.s.p.PIdle? && k'.s.c.CIdle?
            && Words(k'.s) == Ring.Push(Words(k.s), packet) && k'.s.delivered == k.s.delivered
  {
    var k1 := LockedStep(k, Call.Receive(packet, limit));
    LockedStepKeeps(k, Call.Receive(packet, limit));
    if packet == [] {
      calls := [];
    } else {
      calls := LockedPacket(k1);
    }
  }

  /** A packet in hand under the lock, run to its commit. */
  lemma LockedPacket(k: Locked) returns (calls: seq<Call>)
    requires Exclusive(k) && k.lock.Monitor? && k.s.p.PLoadHead?
    ensures forall c | c in calls :: c == Continue
    ensures var k' := LockedRun(k, calls);
            var (data, head) := Ring.Fill(k.s.data, k.s.head, k.s.tail, k.s.p.args);
            && k'.lock == k.lock && k'.s.p.PIdle? && k'.s.c.CIdle?
            && Words(k'.s) == Ring.Mailbox(Ring.MAGIC, head, k.s.tail, data) && k'.s.delivered == k.s.delivered
  {
    LockedFirst(k, Continue, []);
    var k1 := LockedStep(k, Continue);
    LockedFirst(k1, Continue, []);
    var k2 := LockedStep(k1, Continue);
    var later := LockedFills(k2);
    assert k2.s.p.args[0..] == k2.s.p.args;
    calls := [Continue] + ([Continue] + later);
    LockedFirst(k1, Continue, later);
    LockedFirst(k, Continue, [Continue] + later);
  }

  /** The rest of the receive: one pull. */
  lemma LockedPull(k: Locked) returns (calls: seq<Call>)
    requires Exclusive(k) && k.lock.Monitor? && k.s.p.PIdle?
    ensures forall c | c in calls :: c == Continue
    ensures var k' := LockedRun(k, calls);
            var (m, out) := Ring.Pull(Words(k.s), k.lock.limit);
            k'.lock.Free? && Words(k'.s) == m && k'.s.delivered == k.s.delivered + out
  {
    var k1 := LockedStep(k, Continue);
    LockedFirst(k, Continue, []);
    var k2 := LockedStep(k1, Continue);
    LockedFirst(k1, Continue, []);
    LockedFirst(k2, Continue, []);
    var k3 := LockedStep(k2, Continue);
    var later := LockedDrains(k3);
    calls := [Continue] + ([Continue] + ([Continue] + later));
    LockedFirst(k2, Continue, later);
    LockedFirst(k1, Continue, [Continue] + later);
    LockedFirst(k, Continue, [Continue] + ([Continue] + later));
    var out := Ring.Drain(k.s.data, k.s.head % Ring.SIZE, k.s.tail % Ring.SIZE, k.lock.limit).0;
    assert [] + out == out;
  }

  /** A receive under the lock, run to its end: the packet's push, then the pull it asked for. */
  lemma LockedReceive(k: Locked, packet: seq<byte>, limit: nat) returns (calls: seq<Call>)
    requires Exclusive(k) && k.lock.Free?
    ensures forall c | c in calls :: c == Continue
    ensures var k' := LockedRun(LockedStep(k, Call.Receive(packet, limit)), calls);
            && Ring.HeadInRange(Words(k.s)) && |Ring.Push(Words(k.s), packet).data| == Ring.SIZE
            && var (m, out) := Ring.Pull(Ring.Push(Words(k.s), packet), limit);
               k'.lock.Free? && Words(k'.s) == m && k'.s.delivered == k.s.delivered + out
  {
    var k1 := LockedStep(k, Call.Receive(packet, limit));
    LockedStepKeeps(k, Call.Receive(packet, limit));
    var first := LockedPush(k, packet, limit);
    var second := LockedPull(LockedRun(k1, first));
    calls := first + second;
    LockedRuns(k1, first, second);
  }
}
