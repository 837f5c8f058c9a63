/** What whole schedules of the two sides come to: the packets sent, and the ring's own operations. */
module Schedules {
  import opened Bytes
  import opened Interleaving
  import Ring

  /** Left alone, a handler in its loop does what the ring's fill does with the bytes it has left. */
  lemma {:induction false} ProducerFills(s: State) returns (labels: seq<Label>)
    requires Typed(s) && s.p.PLoop? && s.p.r5 == s.tail
    ensures forall l | l in labels :: l == ProducerStep
    ensures var s' := Run(s, labels);
            var (data, head) := Ring.Fill(s.data, s.p.r3, s.tail, s.p.args[s.p.k..]);
            s'.p.PIdle? && Words(s') == Ring.Mailbox(Ring.MAGIC, head, s.tail, data) && s'.c == s.c
    decreases |s.p.args| - s.p.k
  {
    if s.p.k == |s.p.args| || Ring.Next(s.p.r3) == s.p.r5 {
      labels := [ProducerStep];
      RunFirst(s, ProducerStep, []);
    } else {
      var rest := s.p.args[s.p.k..];
      var later := ProducerFills(Step(s, ProducerStep));
      labels := [ProducerStep] + later;
      RunFirst(s, ProducerStep, later);
      assert rest[0] == s.p.args[s.p.k] && rest[1..] == s.p.args[s.p.k + 1..];
    }
  }

  /** A packet that nothing interrupts is exactly one push of the ring. */
  lemma WholePacketIsPush(s: State, args: seq<byte>) returns (labels: seq<Label>)
    requires Inv(s) && s.p.PIdle? && s.c.CIdle?
    ensures forall l | l in labels :: l == ProducerStep
    ensures var s' := Run(s, [StartPacket(args)] + labels);
            s'.p.PIdle? && s'.c.CIdle? && Words(s') == Ring.Push(Words(s), args)
  {
    var s1 := Step(s, StartPacket(args));
    if args == [] {
      labels := [];
      RunFirst(s, StartPacket(args), []);
    } else {
      var s2 := Step(s1, ProducerStep);
      var s3 := Step(s2, ProducerStep);
      var later := ProducerFills(s3);
      assert s3.p.args[0..] == s3.p.args;
      labels := [ProducerStep] + ([ProducerStep] + later);
      RunFirst(s2, ProducerStep, later);
      RunFirst(s1, ProducerStep, [ProducerStep] + later);
      RunFirst(s, StartPacket(args), labels);
    }
  }

  /** Left alone, a driver in its loop does what the ring's drain does. */
  lemma {:induction false} ConsumerDrains(s: State) returns (labels: seq<Label>)
    requires Typed(s) && s.c.CLoop? && |s.c.buffer| <= s.c.limit
    ensures forall l | l in labels :: l == ConsumerStep
    ensures var s' := Run(s, labels);
            var (out, end) := Ring.Drain(s.data, s.c.hd, s.c.tl, s.c.limit - |s.c.buffer|);
            && s'.c.CIdle? && s'.p == s.p && s'.delivered == s.delivered + (s.c.buffer + out)
            && Words(s') == Ring.Mailbox(Ring.MAGIC, s.head, if s.c.buffer + out == [] then s.tail else end, s.data)
    decreases s.c.limit - |s.c.buffer|
  {
    if s.c.tl != s.c.hd && |s.c.buffer| < s.c.limit {
      var s1 := Step(s, ConsumerStep);
      var later := ConsumerDrains(s1);
      labels := [ConsumerStep] + later;
      RunFirst(s, ConsumerStep, later);
      var out := Ring.Drain(s.data, s.c.hd, Ring.Next(s.c.tl), s.c.limit - |s.c.buffer| - 1).0;
      assert (s.c.buffer + [s.data[s.c.tl]]) + out == s.c.buffer + ([s.data[s.c.tl]] + out);
    } else {
      labels := [ConsumerStep];
      RunFirst(s, ConsumerStep, []);
      assert s.c.buffer + [] == s.c.buffer && s.delivered + [] == s.delivered;
    }
  }

  /** A receive that nothing interrupts is exactly one pull of the ring. */
  lemma WholeReceiveIsPull(s: State, limit: nat) returns (labels: seq<Label>)
    requires Inv(s) && s.p.PIdle? && s.c.CIdle?
    ensures forall l | l in labels :: l == ConsumerStep
    ensures var s' := Run(s, [StartReceive(limit)] + labels);
            var (m, out) := Ring.Pull(Words(s), limit);
            s'.p.PIdle? && s'.c.CIdle? && Words(s') == m && s'.delivered == s.delivered + out
  {
    var s1 := Step(s, StartReceive(limit));
    var s2 := Step(s1, ConsumerStep);
    var s3 := Step(s2, ConsumerStep);
    var later := ConsumerDrains(s3);
    labels := [ConsumerStep] + ([ConsumerStep] + later);
    RunFirst(s2, ConsumerStep, later);
    RunFirst(s1, ConsumerStep, [ConsumerStep] + later);
    RunFirst(s, StartReceive(limit), labels);
    assert [] + Ring.Drain(s.data, s.head % Ring.SIZE, s.tail % Ring.SIZE, limit).0
        == Ring.Drain(s.data, s.head % Ring.SIZE, s.tail % Ring.SIZE, limit).0;
  }

  /** The packets a schedule starts, as they were sent: those that find the handler idle. */
  function Started(s: State, labels: seq<Label>): seq<seq<byte>>
    requires Typed(s)
    decreases |labels|
  {
    if labels == [] then []
    else
      var l := labels[0];
      (if l.StartPacket? && s.p.PIdle? && l.args != [] then [l.args] else [])
      + Started(Step(s, l), labels[1..])
  }

  /** One packet's share of the stream: its first take bytes, the tail it saw standing at seen. */
  datatype Share = Share(take: nat, seen: nat)

  function Shared(packets: seq<seq<byte>>, shares: seq<Share>): seq<byte>
    requires |packets| == |shares| && forall i | 0 <= i < |shares| :: shares[i].take <= |packets[i]|
  {
    if packets == [] then [] else packets[0][..shares[0].take] + Shared(packets[1..], shares[1..])
  }

  /**
   Each packet gives its first 64 bytes, or all of it if it is shorter; or fewer, and then the
   ring held 255 bytes beyond the tail its handler had loaded. base is the length of the stream
   before the first of them.
   */
  predicate Fair(packets: seq<seq<byte>>, shares: seq<Share>, base: nat, delivered: nat)
    decreases |shares|
  {
    && |packets| == |shares| &&
    (shares == [] ||
     var n, x := Ring.Min(|packets[0]|, 64), shares[0];
     && x.take <= n && (x.take < n ==> base + x.take == x.seen + 255 && x.seen <= delivered)
     && Fair(packets[1..], shares[1..], base + x.take, delivered))
  }

  lemma {:induction false} FairTakes(packets: seq<seq<byte>>, shares: seq<Share>, base: nat, delivered: nat)
    requires Fair(packets, shares, base, delivered)
    ensures |packets| == |shares| && forall i | 0 <= i < |shares| :: shares[i].take <= |packets[i]|
    decreases |shares|
  {
    if shares != [] {
      FairTakes(packets[1..], shares[1..], base + shares[0].take, delivered);
      forall i | 0 <= i < |shares| ensures shares[i].take <= |packets[i]| {
        if i > 0 { assert shares[1..][i - 1].take <= |packets[1..][i - 1]|; }
      }
    }
  }

  /** The handler is busy with this packet: it has loaded the packet's first 64 bytes. */
  predicate Holding(p: Producer, packet: seq<byte>) {
    match p
    case PIdle => false
    case PLoadHead(args) => args == packet[..Ring.Min(|packet|, 64)]
    case PLoadTail(args, _) => args == packet[..Ring.Min(|packet|, 64)]
    case PLoop(args, _, _, _, _) => args == packet[..Ring.Min(|packet|, 64)]
  }

  /** The stream grows by these packets' shares. */
  predicate Grows(before: seq<byte>, after: seq<byte>, packets: seq<seq<byte>>, shares: seq<Share>,
                  delivered: nat) {
    && Fair(packets, shares, |before|, delivered)
    && |packets| == |shares|
    && (forall i | 0 <= i < |shares| :: shares[i].take <= |packets[i]|)
    && after == before + Shared(packets, shares)
  }

  lemma GrowsNot(before: seq<byte>, delivered: nat)
    ensures Grows(before, before, [], [], delivered)
  {
    assert before + [] == before;
  }

  lemma GrowsFirst(before: seq<byte>, packet: seq<byte>, x: Share, middle: seq<byte>, after: seq<byte>,
                   packets: seq<seq<byte>>, shares: seq<Share>, delivered: nat)
    requires x.take <= Ring.Min(|packet|, 64) && middle == before + packet[..x.take]
    requires x.take < Ring.Min(|packet|, 64) ==> |before| + x.take == x.seen + 255 && x.seen <= delivered
    requires Grows(middle, after, packets, shares, delivered)
    ensures Grows(before, after, [packet] + packets, [x] + shares, delivered)
  {
    var ps, xs := [packet] + packets, [x] + shares;
    assert ps[1..] == packets && xs[1..] == shares && |middle| == |before| + x.take;
    FairTakes(ps, xs, |before|, delivered);
    var rest := Shared(packets, shares);
    assert before + (packet[..x.take] + rest) == (before + packet[..x.take]) + rest;
  }

  lemma {:induction false} DeliveredGrows(s: State, labels: seq<Label>)
    requires Inv(s)
    ensures |Run(s, labels).delivered| >= |s.delivered|
    decreases |labels|
  {
    if labels != [] {
      StepKeeps(s, labels[0]);
      DeliveredGrows(Step(s, labels[0]), labels[1..]);
    }
  }

  /** The packets a schedule has to account for: the one in hand, if any, and those it starts. */
  function Due(s: State, hand: seq<byte>, labels: seq<Label>): seq<seq<byte>>
    requires Typed(s)
  {
    (if s.p.PIdle? then [] else [hand]) + Started(s, labels)
  }

  /** The tail in hand, if any, was loaded since the last reset. */
  predicate Fresh(p: Producer) {
    p.PLoop? ==> p.stop >= 256
  }

  /** These shares account for all that is due, but for the packet last still in hand. */
  predicate Accounts(s: State, s': State, due: seq<seq<byte>>, shares: seq<Share>, last: seq<byte>) {
    && |shares| + (if s'.p.PIdle? then 0 else 1) == |due|
    && (s'.p.PIdle? || (Holding(s'.p, last) && due[|shares|] == last))
    && Grows(s.accepted, s'.accepted, due[..|shares|], shares, |s'.delivered|)
  }

  /** The packet in hand after one step. */
  function NextHand(s: State, hand: seq<byte>, l: Label): seq<byte> {
    if l.StartPacket? && s.p.PIdle? then l.args else hand
  }

  predicate Commits(s: State, l: Label)
    requires Typed(s)
  {
    !s.p.PIdle? && Step(s, l).p.PIdle?
  }

  lemma HandKept(s: State, hand: seq<byte>, l: Label)
    requires Inv(s) && (s.p.PIdle? || Holding(s.p, hand)) && Fresh(s.p)
    ensures var s1 := Step(s, l);
            && Inv(s1) && (s1.p.PIdle? || Holding(s1.p, NextHand(s, hand, l))) && Fresh(s1.p)
            && (!Commits(s, l) ==> s1.accepted == s.accepted)
    ensures Commits(s, l) ==> s.p.PLoop? && (s.p.k == |s.p.args| || Ring.Next(s.p.r3) == s.p.r5)
    ensures Commits(s, l) ==> Step(s, l) == StepProducer(s)
  {
    StepKeeps(s, l);
  }

  lemma DueStep(s: State, hand: seq<byte>, l: Label, labels: seq<Label>)
    requires Typed(s)
    ensures var due' := Due(Step(s, l), NextHand(s, hand, l), labels);
            Due(s, hand, [l] + labels) == if Commits(s, l) then [hand] + due' else due'
  {
    assert ([l] + labels)[1..] == labels;
  }

  lemma {:induction false} Accounted(s: State, hand: seq<byte>, labels: seq<Label>)
    returns (shares: seq<Share>, last: seq<byte>)
    requires Inv(s) && (s.p.PIdle? || Holding(s.p, hand)) && Fresh(s.p)
    ensures Accounts(s, Run(s, labels), Due(s, hand, labels), shares, last)
    decreases |labels|
  {
    if labels == [] {
      shares, last := [], hand;
      GrowsNot(s.accepted, |s.delivered|);
    } else {
      var l, rest := labels[0], labels[1..];
      var s1, hand' := Step(s, l), NextHand(s, hand, l);
      HandKept(s, hand, l);
      assert labels == [l] + rest;
      DueStep(s, hand, l, rest);
      shares, last := Accounted(s1, hand', rest);
      if Commits(s, l) {
        DeliveredGrows(s1, rest);
        var x := CommitShare(s, hand);
        CommitAccounts(s, s1, Run(s1, rest), hand, x, Due(s1, hand', rest), shares, last);
        shares := [x] + shares;
      }
    }
  }

  lemma CommitAccounts(s: State, s1: State, s': State, hand: seq<byte>, x: Share,
                       due: seq<seq<byte>>, later: seq<Share>, last: seq<byte>)
    requires Accounts(s1, s', due, later, last)
    requires x.take <= Ring.Min(|hand|, 64) && s1.accepted == s.accepted + hand[..x.take]
    requires x.take < Ring.Min(|hand|, 64) ==> |s.accepted| + x.take == x.seen + 255 && x.seen <= |s'.delivered|
    ensures Accounts(s, s', [hand] + due, [x] + later, last)
  {
    var all, n := [hand] + due, |later|;
    assert all[..n + 1] == [hand] + due[..n];
    GrowsFirst(s.accepted, hand, x, s1.accepted, s'.accepted, due[..n], later, |s'.delivered|);
  }

  lemma CommitShare(s: State, hand: seq<byte>) returns (x: Share)
    requires Inv(s) && Holding(s.p, hand) && Fresh(s.p)
    requires s.p.PLoop? && (s.p.k == |s.p.args| || Ring.Next(s.p.r3) == s.p.r5)
    ensures x.take <= Ring.Min(|hand|, 64) && StepProducer(s).accepted == s.accepted + hand[..x.take]
    ensures x.take < Ring.Min(|hand|, 64) ==> |s.accepted| + x.take == x.seen + 255 && x.seen <= |s.delivered|
  {
    x := Share(s.p.k, s.p.stop - 256);
    CommitTakes(s);
    assert hand[..Ring.Min(|hand|, 64)][..s.p.k] == hand[..s.p.k];
  }

  /**
   What is accepted, for every schedule: the packets sent, in order, each with its first 64 bytes
   or all of it, or cut short because the ring was full at the tail its handler saw. Only the
   packet still in hand, if there is one, is not yet part of the stream.
   */
  lemma AcceptedIsWhatWasSent(data: seq<byte>, labels: seq<Label>) returns (shares: seq<Share>)
    requires |data| == Ring.SIZE
    ensures var s', sent := Run(Start(data), labels), Started(Start(data), labels);
            && |shares| + (if s'.p.PIdle? then 0 else 1) == |sent|
            && Grows([], s'.accepted, sent[..|shares|], shares, |s'.delivered|)
  {
    var last;
    shares, last := Accounted(Start(data), [], labels);
    assert Due(Start(data), [], labels) == Started(Start(data), labels);
  }
}
