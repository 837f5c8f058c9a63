/**
 The ring under arbitrary interleaving of single memory operations: the handler's loads of head
 and tail, its byte stores and its commit of head, against the driver's loads of head and tail,
 its byte loads and its store of tail.
 */
module Interleaving {
  import opened Bytes
  import opened Ring

  /** Where the handler stands. stop is the stream position the loaded tail forbids it to reach. */
  datatype Producer =
    | PIdle
    | PLoadHead(args: seq<byte>)
    | PLoadTail(args: seq<byte>, r3: nat)
    | PLoop(args: seq<byte>, k: nat, r3: nat, r5: nat, stop: nat)

  /** Where the driver stands. seen is the total committed when it loaded head. */
  datatype Consumer =
    | CIdle
    | CLoadHead(limit: nat)
    | CLoadTail(limit: nat, hd: nat, seen: nat)
    | CLoop(limit: nat, hd: nat, tl: nat, buffer: seq<byte>, seen: nat)

  /** The shared words, both program counters, and the bytes committed and delivered so far. */
  datatype State = State(head: nat, tail: nat, data: seq<byte>, p: Producer, c: Consumer,
                         accepted: seq<byte>, delivered: seq<byte>)

  /** A scheduler's choice. A step that is not enabled leaves the state alone. */
  datatype Label = StartPacket(args: seq<byte>) | ProducerStep | StartReceive(limit: nat) | ConsumerStep

  function Start(data: seq<byte>): State {
    State(0, 0, data, PIdle, CIdle, [], [])
  }

  /** Indices in range: all that a step needs to be defined. */
  predicate Typed(s: State) {
    && |s.data| == SIZE && s.head < SIZE && s.tail < SIZE
    && (s.p.PLoadTail? ==> s.p.r3 < SIZE)
    && (s.p.PLoop? ==> s.p.r3 < SIZE && s.p.k <= |s.p.args|)
    && (s.c.CLoop? ==> s.c.tl < SIZE)
  }

  function StepProducer(s: State): (s': State)
    requires Typed(s)
    ensures Typed(s')
  {
    match s.p
    case PIdle => s
    case PLoadHead(args) => s.(p := PLoadTail(args, s.head))
    case PLoadTail(args, r3) => s.(p := PLoop(args, 0, r3, s.tail, |s.delivered| + SIZE))
    case PLoop(args, k, r3, r5, stop) =>
      if k == |args| || Next(r3) == r5 then
        s.(head := r3, p := PIdle, accepted := s.accepted + args[..k])
      else
        s.(data := s.data[r3 := args[k]], p := PLoop(args, k + 1, Next(r3), r5, stop))
  }

  function StepConsumer(s: State): (s': State)
    requires Typed(s)
    ensures Typed(s')
  {
    match s.c
    case CIdle => s
    case CLoadHead(limit) => s.(c := CLoadTail(limit, s.head % SIZE, |s.accepted|))
    case CLoadTail(limit, hd, seen) => s.(c := CLoop(limit, hd, s.tail % SIZE, [], seen))
    case CLoop(limit, hd, tl, buffer, seen) =>
      if tl != hd && |buffer| < limit then
        s.(c := CLoop(limit, hd, Next(tl), buffer + [s.data[tl]], seen))
      else if buffer != [] then
        s.(tail := tl, c := CIdle, delivered := s.delivered + buffer)
      else s.(c := CIdle)
  }

  /** The slot that position i of the whole byte stream occupies. */
  function At(data: seq<byte>, i: nat): byte
    requires |data| == SIZE
  {
    data[i % SIZE]
  }

  predicate Placed(s: State) {
    var h, t := |s.accepted|, |s.delivered|;
    && |s.data| == SIZE
    && t <= h <= t + SIZE - 1
    && s.head == h % SIZE && s.tail == t % SIZE
    && s.delivered == s.accepted[..t]
    && (forall i | t <= i < h :: At(s.data, i) == s.accepted[i])
  }

  predicate ProducerPlaced(s: State) {
    var h, t := |s.accepted|, |s.delivered|;
    match s.p
    case PIdle => true
    case PLoadHead(args) => args != []
    case PLoadTail(args, r3) => args != [] && r3 == h % SIZE
    case PLoop(args, k, r3, r5, stop) =>
      && args != [] && k <= |args|
      && r3 == (h + k) % SIZE && r5 == stop % SIZE
      && h + k < stop <= t + SIZE
      && |s.data| == SIZE
      && (forall j | 0 <= j < k :: At(s.data, h + j) == args[j])
  }

  /** The receive has copied nothing and will copy nothing. */
  predicate Fruitless(c: Consumer, t: nat) {
    && c.CLoop? && c.buffer == [] && (c.tl == c.hd || c.limit == 0)
    && c.seen == t && c.tl < SIZE
  }

  /** What the receive has copied is the next part of the accepted stream. */
  predicate Copied(c: Consumer, accepted: seq<byte>, t: nat) {
    && c.CLoop? && c.hd == c.seen % SIZE && c.seen <= |accepted|
    && |c.buffer| <= c.limit
    && c.tl == (t + |c.buffer|) % SIZE
    && t + |c.buffer| <= c.seen
    && c.buffer == accepted[t..t + |c.buffer|]
  }

  predicate ConsumerPlaced(s: State) {
    var h, t := |s.accepted|, |s.delivered|;
    match s.c
    case CIdle => true
    case CLoadHead(limit) => true
    case CLoadTail(limit, hd, seen) =>
      t <= seen <= h && (hd == seen % SIZE || (limit == 0 && seen == t))
    case CLoop(_, _, _, _, _) => Fruitless(s.c, t) || Copied(s.c, s.accepted, t)
  }

  predicate Inv(s: State) {
    Typed(s) && Placed(s) && ProducerPlaced(s) && ConsumerPlaced(s)
  }

  function Step(s: State, l: Label): (s': State)
    requires Typed(s)
    ensures Typed(s')
  {
    match l
    case StartPacket(args) =>
      if s.p.PIdle? && args != [] then s.(p := PLoadHead(args[..Min(|args|, PACKET_LIMIT)])) else s
    case ProducerStep => StepProducer(s)
    case StartReceive(limit) => if s.c.CIdle? then s.(c := CLoadHead(limit)) else s
    case ConsumerStep => StepConsumer(s)
  }

  lemma Apart(a: nat, b: nat)
    requires a < b < a + SIZE
    ensures a % SIZE != b % SIZE
  {
  }

  lemma NextOf(a: nat)
    ensures Next(a % SIZE) == (a + 1) % SIZE
  {
  }

  /** A store at position at leaves the slots of earlier positions alone. */
  lemma StoreAhead(data: seq<byte>, at: nat, b: byte, i: nat)
    requires |data| == SIZE && i < at < i + SIZE
    ensures At(data[at % SIZE := b], i) == At(data, i)
  {
    Apart(i, at);
  }

  /** While the handler stores ahead of head, no committed unread byte moves. */
  lemma StorePlaced(s: State, b: byte, at: nat, data': seq<byte>)
    requires Placed(s) && |s.accepted| <= at < |s.delivered| + SIZE
    requires data' == s.data[at % SIZE := b]
    ensures Placed(s.(data := data'))
  {
    forall i | |s.delivered| <= i < |s.accepted| ensures At(data', i) == s.accepted[i] {
      StoreAhead(s.data, at, b, i);
    }
  }

  lemma StorePending(data: seq<byte>, data': seq<byte>, args: seq<byte>, h: nat, k: nat)
    requires |data| == SIZE && k < |args| && k < SIZE - 1
    requires forall j | 0 <= j < k :: At(data, h + j) == args[j]
    requires data' == data[(h + k) % SIZE := args[k]]
    ensures forall j | 0 <= j < k + 1 :: At(data', h + j) == args[j]
  {
    forall j | 0 <= j < k ensures At(data', h + j) == args[j] {
      StoreAhead(data, h + k, args[k], h + j);
    }
    assert At(data', h + k) == args[k];
  }

  lemma StoreKeeps(s: State)
    requires Inv(s)
    requires s.p.PLoop? && s.p.k < |s.p.args| && Next(s.p.r3) != s.p.r5
    ensures Inv(StepProducer(s))
  {
    var h := |s.accepted|;
    var PLoop(args, k, r3, r5, stop) := s.p;
    NextOf(h + k);
    var data' := s.data[r3 := args[k]];
    StorePlaced(s, args[k], h + k, data');
    StorePending(s.data, data', args, h, k);
  }

  lemma CommitPlaced(s: State, s': State)
    requires Inv(s) && s.p.PLoop? && s' == s.(head := s.p.r3, p := PIdle,
                                               accepted := s.accepted + s.p.args[..s.p.k])
    ensures Placed(s')
  {
    var h, t := |s.accepted|, |s.delivered|;
    var PLoop(args, k, r3, r5, stop) := s.p;
    assert s'.accepted[..t] == s.accepted[..t];
    forall i | t <= i < h + k ensures At(s.data, i) == s'.accepted[i] {
      if i >= h { assert At(s.data, h + (i - h)) == args[i - h]; }
    }
  }

  lemma CommitKeeps(s: State)
    requires Inv(s)
    requires s.p.PLoop? && (s.p.k == |s.p.args| || Next(s.p.r3) == s.p.r5)
    ensures Inv(StepProducer(s))
  {
    var t := |s.delivered|;
    var s' := StepProducer(s);
    CommitPlaced(s, s');
    if s.c.CLoop? {
      assert s'.accepted[t..t + |s.c.buffer|] == s.accepted[t..t + |s.c.buffer|];
    }
  }

  lemma CopyByteKeeps(s: State)
    requires Inv(s)
    requires s.c.CLoop? && s.c.tl != s.c.hd && |s.c.buffer| < s.c.limit
    ensures Inv(StepConsumer(s))
  {
    var at := |s.delivered| + |s.c.buffer|;
    NextOf(at);
    assert at < |s.accepted|;
    assert At(s.data, at) == s.accepted[at];
    assert s.accepted[|s.delivered|..at + 1] == s.c.buffer + [s.accepted[at]];
  }

  lemma FinishKeeps(s: State)
    requires Inv(s)
    requires s.c.CLoop? && !(s.c.tl != s.c.hd && |s.c.buffer| < s.c.limit)
    ensures Inv(StepConsumer(s))
  {
    var t, n := |s.delivered|, |s.c.buffer|;
    Joined(s.accepted, t, n);
  }

  lemma Joined(a: seq<byte>, t: nat, n: nat)
    requires t + n <= |a|
    ensures a[..t] + a[t..t + n] == a[..t + n]
  {
  }

  lemma StartKeeps(s: State, l: Label)
    requires Inv(s) && (l.StartPacket? || l.StartReceive?)
    ensures Inv(Step(s, l))
  {
  }

  lemma ProducerKeeps(s: State)
    requires Inv(s)
    ensures Inv(StepProducer(s))
  {
    if !s.p.PLoop? {
      LoadKeeps(s);
    } else if s.p.k == |s.p.args| || Next(s.p.r3) == s.p.r5 {
      CommitKeeps(s);
    } else {
      StoreKeeps(s);
    }
  }

  /** Loading head and then tail. */
  lemma LoadKeeps(s: State)
    requires Inv(s) && !s.p.PLoop?
    ensures Inv(StepProducer(s))
  {
  }

  /** Loading head and then tail, on the driver's side. */
  lemma FetchKeeps(s: State)
    requires Inv(s) && !s.c.CLoop?
    ensures Inv(StepConsumer(s))
  {
  }

  lemma ConsumerKeeps(s: State)
    requires Inv(s)
    ensures Inv(StepConsumer(s))
  {
    if !s.c.CLoop? {
      FetchKeeps(s);
    } else if s.c.tl != s.c.hd && |s.c.buffer| < s.c.limit {
      CopyByteKeeps(s);
    } else {
      FinishKeeps(s);
    }
  }

  lemma StepKeeps(s: State, l: Label)
    requires Inv(s)
    ensures Inv(Step(s, l))
  {
    if l.ProducerStep? {
      ProducerKeeps(s);
    } else if l.ConsumerStep? {
      ConsumerKeeps(s);
    } else {
      StartKeeps(s, l);
    }
  }

  function Run(s: State, labels: seq<Label>): (s': State)
    requires Typed(s)
    ensures Typed(s')
    decreases |labels|
  {
    if labels == [] then s else Run(Step(s, labels[0]), labels[1..])
  }

  lemma {:induction false} RunKeeps(s: State, labels: seq<Label>)
    requires Inv(s)
    ensures Inv(Run(s, labels))
    decreases |labels|
  {
    if labels != [] {
      StepKeeps(s, labels[0]);
      RunKeeps(Step(s, labels[0]), labels[1..]);
    }
  }

  /** What was delivered is a prefix of what was accepted, and the shared words hold the rest. */
  predicate Fifo(s: State) {
    && Typed(s)
    && s.accepted == s.delivered + Queue(Mailbox(MAGIC, s.head, s.tail, s.data))
  }

  /** Lock-free safety: after any interleaving whatever, the ring is a FIFO. */
  lemma InterleavedFifo(data: seq<byte>, labels: seq<Label>)
    requires |data| == SIZE
    ensures Fifo(Run(Start(data), labels))
  {
    RunKeeps(Start(data), labels);
    Unread(Run(Start(data), labels));
  }

  lemma Difference(h: nat, t: nat)
    requires t <= h < t + SIZE
    ensures Count(h % SIZE, t % SIZE) == h - t
  {
    var turns := h / SIZE - t / SIZE;
    assert h % SIZE - t % SIZE == (h - t) - SIZE * turns && 0 <= turns <= 1;
  }

  lemma Unread(s: State)
    requires Inv(s)
    ensures s.accepted == s.delivered + Queue(Mailbox(MAGIC, s.head, s.tail, s.data))
  {
    var h, t := |s.accepted|, |s.delivered|;
    Difference(h, t);
    UnreadSlots(s.data, s.accepted, t, h - t);
    SplitAt(s.accepted, t);
  }

  lemma SplitAt(a: seq<byte>, t: nat)
    requires t <= |a|
    ensures a == a[..t] + a[t..] && a[t..] == a[t..t + (|a| - t)]
  {
  }

  lemma UnreadSlots(data: seq<byte>, accepted: seq<byte>, t: nat, n: nat)
    requires |data| == SIZE && t + n == |accepted|
    requires forall i | t <= i < t + n :: At(data, i) == accepted[i]
    ensures Slots(data, t % SIZE, n) == accepted[t..t + n]
  {
    forall i | 0 <= i < n ensures Slots(data, t % SIZE, n)[i] == accepted[t..t + n][i] {
      SlotAt(t, i);
      assert At(data, t + i) == accepted[t + i];
    }
  }

  lemma SlotAt(t: nat, i: nat)
    ensures (t % SIZE + i) % SIZE == (t + i) % SIZE
  {
  }

  /**
   What one packet contributes: all of its bytes, unless the ring held 255 unread bytes as the
   handler saw it; the driver may have drained more since, never less.
   */
  lemma CommitTakes(s: State)
    requires Inv(s)
    requires s.p.PLoop? && (s.p.k == |s.p.args| || Next(s.p.r3) == s.p.r5)
    ensures StepProducer(s).accepted == s.accepted + s.p.args[..s.p.k]
    ensures s.p.k < |s.p.args| ==> |s.accepted| + s.p.k == s.p.stop - 1
  {
    if s.p.k < |s.p.args| {
      NextOf(|s.accepted| + s.p.k);
      FullAt(s.p.stop, |s.accepted| + s.p.k + 1);
    }
  }

  lemma FullAt(stop: nat, next: nat)
    requires next <= stop < next + SIZE && next % SIZE == stop % SIZE
    ensures next == stop
  {
  }

  /** What one receive returns: everything committed when it loaded head, up to its limit. */
  lemma ReceiveTakes(s: State)
    requires Inv(s)
    requires s.c.CLoop? && !(s.c.tl != s.c.hd && |s.c.buffer| < s.c.limit)
    ensures |s.delivered| + |s.c.buffer| <= |s.accepted| && s.c.seen >= |s.delivered|
    ensures StepConsumer(s).delivered == s.delivered + s.accepted[|s.delivered|..|s.delivered| + |s.c.buffer|]
    ensures |s.c.buffer| == Min(s.c.limit, s.c.seen - |s.delivered|)
  {
    if |s.c.buffer| < s.c.limit && |s.delivered| + |s.c.buffer| < s.c.seen {
      Apart(|s.delivered| + |s.c.buffer|, s.c.seen);
      assert false;
    }
  }

  /** The shared words of a state, as a claimed mailbox. */
  function Words(s: State): Mailbox
    requires Typed(s)
  {
    Mailbox(MAGIC, s.head, s.tail, s.data)
  }

  lemma RunFirst(s: State, l: Label, labels: seq<Label>)
    requires Typed(s)
    ensures Run(s, [l] + labels) == Run(Step(s, l), labels)
  {
    assert ([l] + labels)[1..] == labels;
  }
}
