/**
 The host-input ring: a bounded byte queue in shared memory. The monitor's input handler
 fills it; the Linux driver drains it. This module gives both sides as functions on the
 shared words and shows that together they refine a FIFO of at most 255 bytes.
 */
module Ring {
  import opened Bytes

  const MAGIC: word := 0x534D_494E
  const SIZE: nat := 256
  const PACKET_LIMIT: nat := 64

  /** The shared words exactly as they lie in memory. */
  datatype Mailbox = Mailbox(magic: word, head: word, tail: word, data: seq<byte>)

  /** What every mailbox the two sides have touched satisfies; before that the magic is absent. */
  predicate Sound(m: Mailbox) {
    |m.data| == SIZE && (m.magic == MAGIC ==> m.head < SIZE && m.tail < SIZE)
  }

  function Min(a: nat, b: nat): (m: nat)
    ensures m <= a && m <= b && (m == a || m == b)
  {
    if a <= b then a else b
  }

  function Next(i: nat): (j: nat)
    ensures j < SIZE
  {
    (i + 1) % SIZE
  }

  /** n slots of the ring, starting at from and wrapping round. */
  function Slots(data: seq<byte>, from: nat, n: nat): (s: seq<byte>)
    requires |data| == SIZE
    ensures |s| == n
  {
    seq(n, i requires 0 <= i < n => data[(from + i) % SIZE])
  }

  function Count(head: nat, tail: nat): (n: nat)
    requires head < SIZE && tail < SIZE
    ensures n < SIZE && head == (tail + n) % SIZE
  {
    (head - tail) % SIZE
  }

  /** The abstract queue: nothing until the magic is set. */
  function Queue(m: Mailbox): (q: seq<byte>)
    requires Sound(m)
    ensures |q| < SIZE
  {
    if m.magic == MAGIC then Slots(m.data, m.tail, Count(m.head, m.tail)) else []
  }

  /** The handler's first step: claim a mailbox that does not carry the magic. */
  function Claim(m: Mailbox): Mailbox {
    if m.magic == MAGIC then m else m.(magic := MAGIC, head := 0, tail := 0)
  }

  /** The handler's store loop, from a raw head and tail as loaded. */
  function Fill(data: seq<byte>, head: nat, tail: nat, bytes: seq<byte>): (r: (seq<byte>, nat))
    requires |data| == SIZE && head < SIZE
    ensures |r.0| == SIZE && r.1 < SIZE
    decreases |bytes|
  {
    if bytes == [] || Next(head) == tail then (data, head)
    else Fill(data[head := bytes[0]], Next(head), tail, bytes[1..])
  }

  /** All that the handler's store loop needs: a claimed mailbox has its head in range. */
  predicate HeadInRange(m: Mailbox) {
    |m.data| == SIZE && (m.magic == MAGIC ==> m.head < SIZE)
  }

  /** One input packet; args are the bytes after the two command bytes. */
  function Push(m: Mailbox, args: seq<byte>): (m': Mailbox)
    requires HeadInRange(m)
    ensures |m'.data| == SIZE
  {
    var c := Claim(m);
    var (data, head) := Fill(c.data, c.head, c.tail, args[..Min(|args|, PACKET_LIMIT)]);
    if args == [] then c else c.(data := data, head := head)
  }

  /** The driver's copy loop. */
  function Drain(data: seq<byte>, head: nat, tail: nat, limit: nat): (r: (seq<byte>, nat))
    requires |data| == SIZE && tail < SIZE
    ensures r.1 < SIZE && |r.0| <= limit
    decreases limit
  {
    if tail == head || limit == 0 then ([], tail)
    else
      var (rest, end) := Drain(data, head, Next(tail), limit - 1);
      ([data[tail]] + rest, end)
  }

  /** One receive, after the monitor has had its turn. */
  function Pull(m: Mailbox, limit: nat): (Mailbox, seq<byte>)
    requires |m.data| == SIZE
  {
    if m.magic != MAGIC then (m, [])
    else
      var (out, end) := Drain(m.data, m.head % SIZE, m.tail % SIZE, limit);
      (if out == [] then m else m.(tail := end), out)
  }

  function Reset(m: Mailbox): Mailbox {
    m.(magic := MAGIC, head := 0, tail := 0)
  }

  lemma CountIs(head: nat, tail: nat)
    requires head < SIZE && tail < SIZE
    ensures Count(head, tail) == if head >= tail then head - tail else head - tail + SIZE
  {
  }

  lemma NextIs(i: nat)
    requires i < SIZE
    ensures Next(i) == if i == SIZE - 1 then 0 else i + 1
  {
  }

  lemma CountNext(head: nat, tail: nat)
    requires head < SIZE && tail < SIZE
    ensures Next(head) == tail <==> Count(head, tail) == SIZE - 1
    ensures Next(head) != tail ==> Count(Next(head), tail) == Count(head, tail) + 1
    ensures head == tail <==> Count(head, tail) == 0
    ensures head != tail ==> Count(head, Next(tail)) == Count(head, tail) - 1
  {
    NextIs(head);
    NextIs(tail);
    CountIs(head, tail);
    CountIs(Next(head), tail);
    CountIs(head, Next(tail));
  }

  lemma SlotsFirst(data: seq<byte>, from: nat, n: nat)
    requires |data| == SIZE && from < SIZE && n > 0
    ensures Slots(data, from, n) == [data[from]] + Slots(data, Next(from), n - 1)
  {
    var all, later := Slots(data, from, n), Slots(data, Next(from), n - 1);
    forall i | 0 <= i < n - 1 ensures all[i + 1] == later[i] {
      assert (from + (i + 1)) % SIZE == (Next(from) + i) % SIZE;
    }
  }

  lemma SlotsAppend(data: seq<byte>, from: nat, n: nat, head: nat, b: byte)
    requires |data| == SIZE && from < SIZE && n < SIZE && head == (from + n) % SIZE
    ensures Slots(data[head := b], from, n + 1) == Slots(data, from, n) + [b]
  {
    forall i | 0 <= i < n
      ensures Slots(data[head := b], from, n + 1)[i] == Slots(data, from, n)[i]
    {
      assert (from + i) % SIZE != head;
    }
  }

  /** The store loop appends the longest prefix that leaves one slot free. */
  lemma {:induction false} FillAppends(data: seq<byte>, head: nat, tail: nat, bytes: seq<byte>)
    requires |data| == SIZE && head < SIZE && tail < SIZE
    ensures var (data', head') := Fill(data, head, tail, bytes);
            var n := Count(head, tail);
            var k := Min(|bytes|, SIZE - 1 - n);
            && Count(head', tail) == n + k
            && Slots(data', tail, n + k) == Slots(data, tail, n) + bytes[..k]
    decreases |bytes|
  {
    var n := Count(head, tail);
    CountNext(head, tail);
    if bytes == [] || Next(head) == tail {
      assert bytes[..0] == [];
    } else {
      SlotsAppend(data, tail, n, head, bytes[0]);
      FillAppends(data[head := bytes[0]], Next(head), tail, bytes[1..]);
      var k := Min(|bytes| - 1, SIZE - 2 - n);
      assert [bytes[0]] + bytes[1..][..k] == bytes[..k + 1];
    }
  }

  /** How much of a packet the ring takes when n bytes are already queued. */
  function Room(n: nat, args: seq<byte>): (k: nat)
    requires n < SIZE
    ensures k <= |args|
  {
    Min(Min(|args|, PACKET_LIMIT), SIZE - 1 - n)
  }

  /** A packet appends exactly the longest prefix that fits, at most 64 bytes of it. */
  lemma PushAppends(m: Mailbox, args: seq<byte>)
    requires Sound(m)
    ensures Sound(Push(m, args))
    ensures Queue(Push(m, args)) == Queue(m) + args[..Room(|Queue(m)|, args)]
    ensures Room(|Queue(m)|, args) == Min(Min(|args|, 64), 255 - |Queue(m)|)
  {
    var c := Claim(m);
    assert Queue(c) == Queue(m);
    var bytes := args[..Min(|args|, PACKET_LIMIT)];
    FillAppends(c.data, c.head, c.tail, bytes);
    var k := Room(|Queue(m)|, args);
    assert bytes[..k] == args[..k];
  }

  lemma {:induction false} DrainTakes(data: seq<byte>, head: nat, tail: nat, limit: nat)
    requires |data| == SIZE && head < SIZE && tail < SIZE
    ensures var (out, end) := Drain(data, head, tail, limit);
            var n := Count(head, tail);
            var k := Min(limit, n);
            && out == Slots(data, tail, n)[..k]
            && Count(head, end) == n - k
            && Slots(data, end, n - k) == Slots(data, tail, n)[k..]
    decreases limit
  {
    var n := Count(head, tail);
    var all := Slots(data, tail, n);
    CountNext(head, tail);
    if tail == head || limit == 0 {
      assert all[..0] == [] && all[0..] == all;
    } else {
      DrainTakes(data, head, Next(tail), limit - 1);
      var later := Slots(data, Next(tail), n - 1);
      SlotsFirst(data, tail, n);
      var k := Min(limit - 1, n - 1);
      assert all[..k + 1] == [data[tail]] + later[..k];
      assert all[k + 1..] == later[k..];
    }
  }

  /** A receive removes and returns the front of the queue, as much as the caller's limit allows. */
  lemma PullTakes(m: Mailbox, limit: nat)
    requires Sound(m)
    ensures var (m', out) := Pull(m, limit);
            && Sound(m')
            && out == Queue(m)[..Min(limit, |Queue(m)|)]
            && Queue(m') == Queue(m)[Min(limit, |Queue(m)|)..]
  {
    if m.magic == MAGIC {
      PullTakesClaimed(m, limit);
    } else {
      assert Queue(m) == [];
    }
  }

  lemma PullTakesClaimed(m: Mailbox, limit: nat)
    requires Sound(m) && m.magic == MAGIC
    ensures var (m', out) := Pull(m, limit);
            var k := Min(limit, |Queue(m)|);
            Sound(m') && out == Queue(m)[..k] && Queue(m') == Queue(m)[k..]
  {
    var head, tail, n := m.head, m.tail, Count(m.head, m.tail);
    assert m.head % SIZE == head && m.tail % SIZE == tail;
    var (out, end) := Drain(m.data, head, tail, limit);
    DrainTakes(m.data, head, tail, limit);
    Drained(m, Min(limit, n), out, end, if out == [] then m else m.(tail := end));
  }

  /** What is left in the ring once k bytes have been copied and the tail committed. */
  lemma Drained(m: Mailbox, k: nat, out: seq<byte>, end: nat, m': Mailbox)
    requires Sound(m) && m.magic == MAGIC && end < SIZE && k <= |Queue(m)|
    requires out == Queue(m)[..k] && Count(m.head, end) == |Queue(m)| - k
    requires Slots(m.data, end, |Queue(m)| - k) == Queue(m)[k..]
    requires m' == if out == [] then m else m.(tail := end)
    ensures Sound(m') && Queue(m') == Queue(m)[k..]
  {
    if out == [] {
      assert |out| == k;
    }
  }

  datatype Op = Packet(args: seq<byte>) | Receive(limit: nat) | InputReset

  /** The mailbox with what it has taken in and given out since the last reset. */
  datatype History = History(m: Mailbox, accepted: seq<byte>, consumed: seq<byte>)

  function Step(h: History, op: Op): (h': History)
    requires Sound(h.m)
    ensures Sound(h'.m)
  {
    match op
    case Packet(args) =>
      PushAppends(h.m, args);
      History(Push(h.m, args), h.accepted + args[..Room(|Queue(h.m)|, args)], h.consumed)
    case Receive(limit) =>
      PullTakes(h.m, limit);
      var (m', out) := Pull(h.m, limit);
      History(m', h.accepted, h.consumed + out)
    case InputReset => History(Reset(h.m), [], [])
  }

  function Run(h: History, ops: seq<Op>): (h': History)
    requires Sound(h.m)
    ensures Sound(h'.m)
    decreases |ops|
  {
    if ops == [] then h else Run(Step(h, ops[0]), ops[1..])
  }

  predicate Conserved(h: History)
    requires Sound(h.m)
  {
    h.consumed + Queue(h.m) == h.accepted
  }

  lemma PacketConserves(h: History, args: seq<byte>)
    requires Sound(h.m) && Conserved(h)
    ensures Conserved(Step(h, Packet(args)))
  {
    PushAppends(h.m, args);
    var more := args[..Room(|Queue(h.m)|, args)];
    assert h.consumed + (Queue(h.m) + more) == (h.consumed + Queue(h.m)) + more;
  }

  lemma ReceiveConserves(h: History, limit: nat)
    requires Sound(h.m) && Conserved(h)
    ensures Conserved(Step(h, Receive(limit)))
  {
    PullTakes(h.m, limit);
    var (m', out) := Pull(h.m, limit);
    Regroup(h.consumed, Queue(h.m), Min(limit, |Queue(h.m)|), out, Queue(m'));
  }

  lemma Regroup(c: seq<byte>, q: seq<byte>, k: nat, out: seq<byte>, left: seq<byte>)
    requires k <= |q| && out == q[..k] && left == q[k..]
    ensures (c + out) + left == c + q
  {
  }

  lemma StepConserves(h: History, op: Op)
    requires Sound(h.m) && Conserved(h)
    ensures Conserved(Step(h, op))
  {
    match op {
      case Packet(args) => PacketConserves(h, args);
      case Receive(limit) => ReceiveConserves(h, limit);
      case InputReset => assert Queue(Reset(h.m)) == [];
    }
  }

  /** Over every run: whatever was accepted since the last reset is consumed or still queued, in order. */
  lemma {:induction false} RunConserves(h: History, ops: seq<Op>)
    requires Sound(h.m) && Conserved(h)
    ensures Conserved(Run(h, ops))
    decreases |ops|
  {
    if ops != [] {
      StepConserves(h, ops[0]);
      RunConserves(Step(h, ops[0]), ops[1..]);
    }
  }
}
