/** Resets of the ring at any moment of the two sides: exactly when one keeps it a FIFO. */
module Resets {
  import opened Bytes
  import opened Interleaving
  import Ring

  /**
   A reset: the driver clears head and tail and the stream starts again. Where the two sides
   stand is untouched; only the stream positions kept beside them are counted afresh.
   */
  function ResetAt(s: State): (s': State)
    requires Typed(s)
    ensures Typed(s')
  {
    s.(head := 0, tail := 0, accepted := [], delivered := [],
       p := (match s.p
             case PLoop(args, k, r3, r5, _) => PLoop(args, k, r3, r5, if r5 == 0 then Ring.SIZE else r5)
             case _ => s.p),
       c := (match s.c
             case CLoadTail(limit, hd, _) => CLoadTail(limit, hd, 0)
             case CLoop(limit, hd, tl, buffer, _) => CLoop(limit, hd, tl, buffer, 0)
             case _ => s.c))
  }

  /** The handler holds no head from before, or one that is as good as the cleared one. */
  predicate ProducerResetSafe(p: Producer) {
    match p
    case PIdle => true
    case PLoadHead(_) => true
    case PLoadTail(_, r3) => r3 == 0
    case PLoop(_, k, r3, _, _) => r3 == k
  }

  /** The driver has copied nothing and will copy nothing from before. */
  predicate ConsumerResetSafe(c: Consumer) {
    match c
    case CIdle => true
    case CLoadHead(_) => true
    case CLoadTail(limit, hd, _) => hd == 0 || limit == 0
    case CLoop(limit, hd, tl, buffer, _) => buffer == [] && (tl == hd || limit == 0)
  }

  lemma StopAfterReset(h: nat, k: nat, r3: nat, r5: nat, stop: nat)
    requires r3 == (h + k) % Ring.SIZE == k && r5 == stop % Ring.SIZE && h + k < stop <= h + Ring.SIZE
    ensures h % Ring.SIZE == 0 && stop - h == if r5 == 0 then Ring.SIZE else r5
  {
  }

  lemma AtShift(data: seq<byte>, h: nat, j: nat)
    requires |data| == Ring.SIZE && h % Ring.SIZE == 0
    ensures At(data, h + j) == At(data, j)
  {
  }

  /** From a safe moment a reset leads to a state that satisfies the FIFO invariant. */
  lemma SafeResetKeeps(s: State)
    requires Inv(s) && ProducerResetSafe(s.p) && ConsumerResetSafe(s.c)
    ensures Inv(ResetAt(s))
  {
    if s.p.PLoop? {
      var h := |s.accepted|;
      var PLoop(args, k, r3, r5, stop) := s.p;
      StopAfterReset(h, k, r3, r5, stop);
      forall j | 0 <= j < k ensures At(s.data, 0 + j) == args[j] {
        AtShift(s.data, h, j);
      }
    }
  }

  /** Left alone, the handler stores the rest of some prefix and commits it. */
  lemma {:induction false} ProducerCompletes(s: State) returns (labels: seq<Label>, n: nat)
    requires Typed(s) && s.p.PLoop?
    ensures var s' := Run(s, labels);
            && s.p.k <= n && |s'.accepted| == |s.accepted| + n
            && s'.head == (s.p.r3 + (n - s.p.k)) % Ring.SIZE
            && s'.tail == s.tail && s'.delivered == s.delivered
    decreases |s.p.args| - s.p.k
  {
    var s1 := Step(s, ProducerStep);
    if s.p.k == |s.p.args| || Ring.Next(s.p.r3) == s.p.r5 {
      labels, n := [ProducerStep], s.p.k;
      RunFirst(s, ProducerStep, []);
    } else {
      var later;
      later, n := ProducerCompletes(s1);
      labels := [ProducerStep] + later;
      RunFirst(s, ProducerStep, later);
      NextPlus(s.p.r3, n - s.p.k - 1);
    }
  }

  lemma NextPlus(r: nat, d: nat)
    ensures (Ring.Next(r) + d) % Ring.SIZE == (r + (d + 1)) % Ring.SIZE
  {
  }

  /** Left alone, the driver copies on and commits; it never unreads. */
  lemma {:induction false} ConsumerCompletes(s: State) returns (labels: seq<Label>)
    requires Typed(s) && s.c.CLoop?
    ensures var s' := Run(s, labels);
            && s'.accepted == s.accepted
            && |s'.delivered| >= |s.delivered| + |s.c.buffer|
            && (s.c.tl != s.c.hd && |s.c.buffer| < s.c.limit ==>
                  |s'.delivered| > |s.delivered| + |s.c.buffer|)
    decreases s.c.limit - |s.c.buffer|
  {
    var s1 := Step(s, ConsumerStep);
    if s.c.tl != s.c.hd && |s.c.buffer| < s.c.limit {
      var later := ConsumerCompletes(s1);
      labels := [ConsumerStep] + later;
      RunFirst(s, ConsumerStep, later);
    } else {
      labels := [ConsumerStep];
      RunFirst(s, ConsumerStep, []);
    }
  }

  /** With nothing delivered and tail at 0, the queue is as long as head says. */
  lemma FifoLength(s: State)
    requires Fifo(s) && s.tail == 0 && s.delivered == []
    ensures |s.accepted| == s.head
  {
    Difference(s.head, 0);
  }

  lemma SameOffset(r3: nat, k: nat, n: nat)
    requires r3 < Ring.SIZE && k < Ring.SIZE && k <= n < Ring.SIZE && (r3 + (n - k)) % Ring.SIZE == n
    ensures r3 == k
  {
  }

  predicate Resumable(s: State, labels: seq<Label>)
    requires Typed(s)
  {
    Fifo(Run(s, labels))
  }

  /** An unsafe handler betrays itself: some schedule leaves the ring without FIFO order. */
  lemma UnsafeProducer(s: State)
    requires Inv(s) && forall labels :: Resumable(ResetAt(s), labels)
    ensures ProducerResetSafe(s.p)
  {
    var r := ResetAt(s);
    if s.p.PLoop? {
      var labels, n := ProducerCompletes(r);
      assert Resumable(r, labels);
      FifoLength(Run(r, labels));
      SameOffset(s.p.r3, s.p.k, n);
    } else if s.p.PLoadTail? {
      var r1 := Step(r, ProducerStep);
      var later, n := ProducerCompletes(r1);
      RunFirst(r, ProducerStep, later);
      assert Resumable(r, [ProducerStep] + later);
      FifoLength(Run(r1, later));
      SameOffset(s.p.r3, 0, n);
    }
  }

  lemma UnsafeConsumer(s: State)
    requires Inv(s) && forall labels :: Resumable(ResetAt(s), labels)
    ensures ConsumerResetSafe(s.c)
  {
    var r := ResetAt(s);
    if s.c.CLoop? {
      var labels := ConsumerCompletes(r);
      assert Resumable(r, labels);
      assert |Run(r, labels).delivered| == 0;
    } else if s.c.CLoadTail? {
      var r1 := Step(r, ConsumerStep);
      var later := ConsumerCompletes(r1);
      RunFirst(r, ConsumerStep, later);
      assert Resumable(r, [ConsumerStep] + later);
      assert |Run(r1, later).delivered| == 0;
    }
  }

  /**
   When a reset is safe: from any reachable moment, every schedule after the reset keeps the ring
   a FIFO if and only if neither side holds an index from before that it would still act on.
   */
  lemma ResetKeepsFifoIff(s: State)
    requires Inv(s)
    ensures (forall labels :: Resumable(ResetAt(s), labels))
       <==> ProducerResetSafe(s.p) && ConsumerResetSafe(s.c)
  {
    if ProducerResetSafe(s.p) && ConsumerResetSafe(s.c) {
      SafeResetKeeps(s);
      forall labels ensures Resumable(ResetAt(s), labels) {
        RunKeeps(ResetAt(s), labels);
        Unread(Run(ResetAt(s), labels));
      }
    }
    if forall labels :: Resumable(ResetAt(s), labels) {
      UnsafeProducer(s);
      UnsafeConsumer(s);
    }
  }
}
