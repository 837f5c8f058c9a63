/** The Linux side of the diagnostic channel: TTBR borrowing, the lock and the mailbox consumer. */
module Kernel {
  import opened Bytes
  import opened Memory
  import opened SharedMailbox
  import opened Translation
  import Ring
  import Monitor

  /**
   One iteration of the resident receive and dispatch loop: the memory the stock receive code
   leaves, and the packet it hands to the handler, if one was complete.
   */
  datatype Turn = Turn(received: seq<byte>, complete: bool, packet: word,
                       system: Monitor.SystemRegisters, ret: Monitor.Return)

  /** What is assumed of the stock receive code and of any second stage it comes to call. */
  predicate Possible(t: Turn, mem: seq<byte>, sp: nat) {
    && |mem| == |t.received| == |t.ret.memory| == U32
    && MailboxAt(t.received) == MailboxAt(mem) && MailboxAt(t.ret.memory) == MailboxAt(mem)
    && (t.complete ==> Monitor.Enterable(t.received, sp, t.packet))
  }

  /** Whether the packet the handler is entered with is an input packet. */
  predicate IsInput(t: Turn, e: Monitor.Entry) {
    && |e.memory| == U32 && 16 <= e.sp < U32 && e.packet + 24 <= U32
    && Monitor.Decide(Monitor.Pushed(e), e.packet, t.system, e.sp - 16).Input?
  }

  /** History after a turn in which the handler was entered as e. */
  function Heard(h: Ring.History, t: Turn, e: Monitor.Entry): (h': Ring.History)
    requires Ring.Sound(h.m)
    requires t.complete ==> Monitor.PacketClear(e.memory, e.packet)
    ensures Ring.Sound(h'.m)
  {
    if t.complete && IsInput(t, e) then Ring.Step(h, Ring.Packet(Monitor.Args(e.memory, e.packet)))
    else h
  }

  lemma AfterSecondStage(e: Monitor.Entry, pushed: seq<byte>, t: Turn, after: seq<byte>)
    requires Monitor.Enterable(e.memory, e.sp, e.packet) && |t.ret.memory| == |pushed| == U32
    requires var m := Monitor.AfterCall(pushed, t.ret, e.sp - 16);
             after == Store(m, Monitor.MESSAGE, Monitor.Reply8(m, t.ret.r0))
    ensures MailboxAt(after) == MailboxAt(t.ret.memory)
  {
    var m := Monitor.AfterCall(pushed, t.ret, e.sp - 16);
    StoreOnly(t.ret.memory, e.sp - 16, pushed[e.sp - 16..e.sp]);
    StoreOnly(m, Monitor.MESSAGE, Monitor.Reply8(m, t.ret.r0));
    MailboxSame(t.ret.memory, after);
  }

  /** A handled packet changes the mailbox as its ring operation does. */
  lemma HandledMailbox(h: Ring.History, e: Monitor.Entry, pushed: seq<byte>, t: Turn,
                       after: seq<byte>, trace: seq<Monitor.Event>)
    requires Monitor.Handled(e, pushed, t.system, t.ret, after, trace) && t.complete
    requires Monitor.Enterable(e.memory, e.sp, e.packet)
    requires MailboxAt(t.ret.memory) == MailboxAt(e.memory) == h.m && Ring.Sound(h.m)
    ensures MailboxAt(after) == Heard(h, t, e).m
  {
    if Monitor.Decide(pushed, e.packet, t.system, e.sp - 16).Call? {
      AfterSecondStage(e, pushed, t, after);
    }
  }

  predicate Pulled(m: Ring.Mailbox, limit: nat, m': Ring.Mailbox, out: seq<byte>) {
    |m.data| == Ring.SIZE && Ring.Pull(m, limit) == (m', out)
  }

  const PRINT_ROUTINE: nat := 0x0081_6CF4
  const DISPATCH_ROUTINE: nat := 0x0081_4214

  /** One use of the resident runtime: the address, the translation base and the lock at that moment. */
  datatype Access = Access(at: nat, base: nat, held: bool)

  /** Every one of these accesses is made under this base with the lock held and interrupts off. */
  predicate Guarded(accesses: seq<Access>, base: nat) {
    forall i | 0 <= i < |accesses| :: accesses[i].base == base && accesses[i].held
  }

  /** The accesses have grown, by guarded ones only. */
  predicate Extended(before: seq<Access>, after: seq<Access>, base: nat) {
    && |before| <= |after| && after[..|before|] == before
    && Guarded(after[|before|..], base)
  }

  lemma ExtendedMore(before: seq<Access>, middle: seq<Access>, after: seq<Access>, base: nat)
    requires Extended(before, middle, base) && Extended(middle, after, base)
    ensures Extended(before, after, base)
  {
    forall i | 0 <= i < |after| - |before|
      ensures after[|before|..][i].base == base && after[|before|..][i].held
    {
      if |before| + i < |middle| {
        assert after[..|middle|][|before| + i] == middle[|before|..][i];
      } else {
        assert after[|before|..][i] == after[|middle|..][|before| + i - |middle|];
      }
    }
    assert after[..|before|] == after[..|middle|][..|before|];
  }

  lemma ExtendedOne(before: seq<Access>, a: Access, base: nat)
    requires a.base == base && a.held
    ensures Extended(before, before + [a], base)
  {
  }

  class Driver {
    const cpu: Monitor.Cpu
    const initTtbr: word
    var ttbr: word
    var irqsOn: bool
    var locked: bool
    var printed: seq<seq<byte>>
    ghost var history: Ring.History
    ghost var accesses: seq<Access>

    /** The channel over a mailbox that is sound: unclaimed, or with both indices in range. */
    constructor (cpu: Monitor.Cpu, initTtbr: word, ttbr: word)
      requires cpu.Valid() && Ring.Sound(MailboxAt(cpu.mem[..]))
      ensures Valid() && this.cpu == cpu && this.initTtbr == initTtbr && this.ttbr == ttbr
      ensures history.consumed == []
    {
      this.cpu, this.initTtbr, this.ttbr := cpu, initTtbr, ttbr;
      irqsOn, locked, printed := true, false, [];
      var m := MailboxAt(cpu.mem[..]);
      history, accesses := Ring.History(m, Ring.Queue(m), []), [];
      new;
      assert [] + Ring.Queue(history.m) == Ring.Queue(history.m);
    }

    /** Between calls: the lock is free and the mailbox is what the history says. */
    ghost predicate Valid()
      reads this, cpu.mem
    {
      && cpu.Valid() && !locked && Tracked()
    }

    ghost predicate Tracked()
      reads this`history, cpu.mem
      requires cpu.Valid()
    {
      Ring.Sound(history.m) && history.m == MailboxAt(cpu.mem[..]) && Ring.Conserved(history)
    }

    /** init_mm's identity map is active and the diagnostic lock is held. */
    predicate Borrowed()
      reads this`ttbr, this`locked, this`irqsOn
    {
      Base(ttbr) == Base(initTtbr) && locked && !irqsOn
    }

    /** An access at this address, as things stand. */
    ghost function Now(at: nat): Access
      reads this`ttbr, this`locked, this`irqsOn
    {
      Access(at, Base(ttbr), locked && !irqsOn)
    }

    /** raw_spin_lock_irqsave and the conditional switch to init_mm. */
    method Borrow() returns (flags: bool, saved: word, borrowed: bool)
      requires !locked
      modifies this`locked, this`irqsOn, this`ttbr
      ensures Borrowed() && flags == old(irqsOn) && saved == old(ttbr)
      ensures borrowed || ttbr == saved
    {
      flags, irqsOn := irqsOn, false;
      locked := true;
      saved := ttbr;
      borrowed := saved / 0x4000 != initTtbr / 0x4000;
      if borrowed {
        ttbr := initTtbr;
      }
    }

    method Restore(flags: bool, saved: word, borrowed: bool)
      requires locked && (borrowed || ttbr == saved)
      modifies this`locked, this`irqsOn, this`ttbr
      ensures !locked && irqsOn == flags && ttbr == saved
    {
      if borrowed {
        ttbr := saved;
      }
      locked := false;
      irqsOn := flags;
    }

    /** READ_ONCE of a mailbox word. */
    method ReadWord(a: nat) returns (w: word)
      requires cpu.Valid() && MAILBOX <= a && a + 4 <= DATA
      modifies this`accesses
      ensures w == Word(cpu.mem[..], a) && accesses == old(accesses) + [Now(a)]
    {
      accesses := accesses + [Now(a)];
      w := Word(cpu.mem[..], a);
    }

    /** READ_ONCE of a ring slot. */
    method ReadSlot(i: nat) returns (b: byte)
      requires cpu.Valid() && i < Ring.SIZE
      modifies this`accesses
      ensures b == MailboxAt(cpu.mem[..]).data[i] && accesses == old(accesses) + [Now(DATA + i)]
    {
      accesses := accesses + [Now(DATA + i)];
      b := cpu.mem[DATA + i];
    }

    /** WRITE_ONCE of a mailbox word. */
    method WriteWord(a: nat, w: word)
      requires cpu.Valid() && MAILBOX <= a && a + 4 <= DATA
      modifies this`accesses, cpu.mem
      ensures cpu.mem[..] == Store(old(cpu.mem[..]), a, Le(w, 4))
      ensures accesses == old(accesses) + [Now(a)]
    {
      accesses := accesses + [Now(a)];
      cpu.StoreWord(a, w);
    }

    /** The resident print routine. */
    method Print(message: seq<byte>)
      modifies this`accesses, this`printed
      ensures printed == old(printed) + [message]
      ensures accesses == old(accesses) + [Now(PRINT_ROUTINE)]
    {
      accesses := accesses + [Now(PRINT_ROUTINE)];
      printed := printed + [message];
    }

    method Emit(message: seq<byte>)
      requires Valid()
      modifies this`locked, this`irqsOn, this`ttbr, this`accesses, this`printed
      ensures Valid() && ttbr == old(ttbr) && irqsOn == old(irqsOn)
      ensures printed == old(printed) + [message]
      ensures accesses == old(accesses) + [Access(0x0081_6CF4, Base(initTtbr), true)]
    {
      var flags, saved, borrowed := Borrow();
      Print(message);
      Restore(flags, saved, borrowed);
    }

    method InputReset()
      requires Valid()
      modifies this`locked, this`irqsOn, this`ttbr, this`accesses, this`history, cpu.mem
      ensures Valid() && ttbr == old(ttbr) && irqsOn == old(irqsOn)
      ensures history == Ring.Step(old(history), Ring.InputReset)
      ensures MailboxAt(cpu.mem[..])
           == MailboxAt(old(cpu.mem[..])).(magic := 0x534D_494E, head := 0, tail := 0)
      ensures Only(old(cpu.mem[..]), cpu.mem[..], 0x008F_F800, 0x008F_F90C)
      ensures accesses == old(accesses) + [Access(0x008F_F804, Base(initTtbr), true),
                                           Access(0x008F_F808, Base(initTtbr), true),
                                           Access(0x008F_F800, Base(initTtbr), true)]
    {
      var flags, saved, borrowed := Borrow();
      ClearMailbox(cpu.mem[..], accesses);
      history := Ring.Step(history, Ring.InputReset);
      Restore(flags, saved, borrowed);
    }

    method ClearMailbox(ghost m0: seq<byte>, ghost a0: seq<Access>)
      requires cpu.Valid() && m0 == cpu.mem[..] && a0 == accesses
      modifies this`accesses, cpu.mem
      ensures MailboxAt(cpu.mem[..]) == Ring.Reset(MailboxAt(m0))
      ensures Only(m0, cpu.mem[..], MAILBOX, MAILBOX_END)
      ensures accesses == a0 + [Now(HEAD), Now(TAIL), Now(MAILBOX)]
    {
      WriteWord(HEAD, 0);
      ghost var m1 := cpu.mem[..];
      WriteWord(TAIL, 0);
      ghost var m2 := cpu.mem[..];
      WriteWord(MAILBOX, Ring.MAGIC);
      StoreHead(m0, 0);
      StoreTail(m1, 0);
      StoreMagic(m2, Ring.MAGIC);
      StoreOnly(m0, HEAD, Le(0, 4));
      StoreOnly(m1, TAIL, Le(0, 4));
      StoreOnly(m2, MAILBOX, Le(Ring.MAGIC, 4));
    }

    /** buffer[count] = READ_ONCE(mailbox->data[tail]) */
    method CopyByte(buffer: array<byte>, count: nat, tail: nat, ghost m: Ring.Mailbox,
                    ghost m0: seq<byte>, ghost b: seq<byte>, ghost a0: seq<Access>)
      requires cpu.Valid() && Borrowed() && m0 == cpu.mem[..] && m == MailboxAt(m0)
      requires count < buffer.Length && buffer != cpu.mem && b == buffer[..] && tail < Ring.SIZE
      requires Extended(a0, accesses, Base(initTtbr))
      modifies this`accesses, buffer
      ensures cpu.mem[..] == m0 && buffer[..] == b[count := m.data[tail]]
      ensures Extended(a0, accesses, Base(initTtbr))
    {
      ghost var a1 := accesses;
      var value := ReadSlot(tail);
      ExtendedOne(a1, Now(DATA + tail), Base(initTtbr));
      ExtendedMore(a0, a1, accesses, Base(initTtbr));
      buffer[count] := value;
    }

    /** The copy loop: fill the buffer from the ring. */
    method CopyLoop(buffer: array<byte>, limit: nat, head: word, tail0: word, ghost m: Ring.Mailbox,
                    ghost m0: seq<byte>, ghost b0: seq<byte>, ghost a0: seq<Access>)
      returns (count: nat, tail: word, ghost out: seq<byte>)
      requires cpu.Valid() && Borrowed() && m0 == cpu.mem[..] && m == MailboxAt(m0)
      requires limit <= buffer.Length && buffer != cpu.mem && b0 == buffer[..]
      requires head == m.head % 256 && tail0 == m.tail % 256
      requires Extended(a0, accesses, Base(initTtbr))
      modifies this`accesses, buffer
      ensures cpu.mem[..] == m0
      ensures Copying(m, limit, out, tail) && (tail == head || |out| == limit)
      ensures count == |out| <= limit && buffer[..] == out + b0[count..]
      ensures Extended(a0, accesses, Base(initTtbr))
    {
      count, tail, out := 0, tail0, [];
      ghost var b := b0;
      CopyStarts(m, limit);
      while tail != head && count < limit
        invariant cpu.mem[..] == m0 && buffer[..] == b && |b| == |b0|
        invariant count == |out| <= limit && b == out + b0[count..]
        invariant Copying(m, limit, out, tail)
        invariant Extended(a0, accesses, Base(initTtbr))
        decreases limit - count
      {
        CopyByte(buffer, count, tail, m, m0, b, a0);
        b, out := CopyStep(m, limit, out, tail, b, b0);
        count := count + 1;
        tail := (tail + 1) % 256;
      }
    }

    /** From reading the magic to committing the tail. */
    method CopyOut(buffer: array<byte>, limit: nat, ghost m: Ring.Mailbox, ghost m0: seq<byte>,
                   ghost b0: seq<byte>, ghost a0: seq<Access>)
      returns (count: nat, ghost out: seq<byte>)
      requires cpu.Valid() && Borrowed() && m0 == cpu.mem[..] && m == MailboxAt(m0)
      requires limit <= buffer.Length && buffer != cpu.mem && b0 == buffer[..]
      requires Extended(a0, accesses, Base(initTtbr))
      modifies this`accesses, cpu.mem, buffer
      ensures Pulled(m, limit, MailboxAt(cpu.mem[..]), out)
      ensures count == |out| <= limit && buffer[..] == out + b0[count..]
      ensures Only(m0, cpu.mem[..], MAILBOX, MAILBOX_END)
      ensures Extended(a0, accesses, Base(initTtbr))
    {
      count, out := 0, [];
      var magic := ReadMailbox(MAILBOX, m0, a0);
      if magic == Ring.MAGIC {
        var head := ReadMailbox(HEAD, m0, a0);
        var tail := ReadMailbox(TAIL, m0, a0);
        count, tail, out := CopyLoop(buffer, limit, head % 256, tail % 256, m, m0, b0, a0);
        CopyStops(m, limit, out, tail);
        if count > 0 {
          CommitTail(tail, m0, a0);
        }
      }
    }

    /** A guarded read of a mailbox word. */
    method ReadMailbox(a: nat, ghost m0: seq<byte>, ghost a0: seq<Access>) returns (w: word)
      requires cpu.Valid() && Borrowed() && m0 == cpu.mem[..] && MAILBOX <= a && a + 4 <= DATA
      requires Extended(a0, accesses, Base(initTtbr))
      modifies this`accesses
      ensures w == Word(m0, a) && Extended(a0, accesses, Base(initTtbr))
    {
      ghost var a1 := accesses;
      w := ReadWord(a);
      ExtendedOne(a1, Now(a), Base(initTtbr));
      ExtendedMore(a0, a1, accesses, Base(initTtbr));
    }

    method CommitTail(tail: word, ghost m0: seq<byte>, ghost a0: seq<Access>)
      requires cpu.Valid() && Borrowed() && m0 == cpu.mem[..]
      requires Extended(a0, accesses, Base(initTtbr))
      modifies this`accesses, cpu.mem
      ensures MailboxAt(cpu.mem[..]) == MailboxAt(m0).(tail := tail)
      ensures Only(m0, cpu.mem[..], MAILBOX, MAILBOX_END)
      ensures Extended(a0, accesses, Base(initTtbr))
    {
      ghost var a1 := accesses;
      StoreTail(m0, tail);
      StoreOnly(m0, TAIL, Le(tail, 4));
      WriteWord(TAIL, tail);
      ExtendedOne(a1, Now(TAIL), Base(initTtbr));
      ExtendedMore(a0, a1, accesses, Base(initTtbr));
    }

    /** The resident receive and dispatch iteration. */
    method TakeTurn(t: Turn, ghost m0: seq<byte>) returns (ghost e: Monitor.Entry)
      requires cpu.Valid() && m0 == cpu.mem[..] && Possible(t, m0, cpu.sp)
      requires Tracked()
      modifies this`accesses, this`history, cpu`r4, cpu`r5, cpu`r6, cpu`sp, cpu.mem
      ensures cpu.sp == old(cpu.sp) && Tracked()
      ensures t.complete ==> Monitor.PacketClear(e.memory, e.packet)
      ensures e.memory == t.received && e.packet == t.packet && e.sp == cpu.sp
      ensures history == Heard(old(history), t, e)
      ensures accesses == old(accesses) + [Now(DISPATCH_ROUTINE)]
    {
      accesses := accesses + [Now(DISPATCH_ROUTINE)];
      forall i | 0 <= i < U32 {
        cpu.mem[i] := t.received[i];
      }
      assert cpu.mem[..] == t.received;
      e := cpu.Snapshot(t.packet);
      if t.complete {
        Dispatch(t, e, history);
        HeardConserves(history, t, e);
      }
      history := Heard(history, t, e);
    }

    /** The call of the handler, with a complete packet. */
    method Dispatch(t: Turn, ghost e: Monitor.Entry, ghost h: Ring.History)
      requires cpu.Valid() && t.complete && |t.ret.memory| == U32 && e == cpu.Snapshot(t.packet)
      requires Monitor.Enterable(e.memory, e.sp, e.packet)
      requires MailboxAt(t.ret.memory) == MailboxAt(e.memory) == h.m && Ring.Sound(h.m)
      modifies cpu`r4, cpu`r5, cpu`r6, cpu`sp, cpu.mem
      ensures cpu.sp == e.sp && MailboxAt(cpu.mem[..]) == Heard(h, t, e).m
    {
      var result, pc, trace, pushed, after := cpu.Handler(e, t.packet, t.system, t.ret);
      HandledMailbox(h, e, pushed, t, after, trace);
    }

    /**
     One receive: the monitor has its turn, then the front of the queue is copied out. TTBR, the
     lock and the interrupt flag come back as they were, and every resident access in between,
     the call of the monitor first, is made under init_mm's base with the lock held.
     */
    method Receive(buffer: array<byte>, limit: nat, t: Turn)
      returns (count: nat, ghost out: seq<byte>, ghost e: Monitor.Entry)
      requires Valid() && Possible(t, cpu.mem[..], cpu.sp)
      requires limit <= buffer.Length && buffer != cpu.mem
      modifies this`locked, this`irqsOn, this`ttbr, this`accesses, this`history
      modifies cpu`r4, cpu`r5, cpu`r6, cpu`sp, cpu.mem, buffer
      ensures Valid() && ttbr == old(ttbr) && irqsOn == old(irqsOn) && cpu.sp == old(cpu.sp)
      ensures t.complete ==> Monitor.PacketClear(e.memory, e.packet)
      ensures e.memory == t.received && e.packet == t.packet && e.sp == cpu.sp
      ensures history == Ring.Step(Heard(old(history), t, e), Ring.Receive(limit))
      ensures out == Ring.Pull(Heard(old(history), t, e).m, limit).1
      ensures count == |out| <= limit && buffer[..] == out + old(buffer[..])[count..]
      ensures Extended(old(accesses), accesses, Base(initTtbr))
      ensures |accesses| > |old(accesses)| && accesses[|old(accesses)|].at == 0x0081_4214
    {
      ghost var b0, a0 := buffer[..], accesses;
      var flags, saved, borrowed := Borrow();
      e := TakeTurn(t, cpu.mem[..]);
      ghost var a1 := accesses;
      ExtendedOne(a0, Now(DISPATCH_ROUTINE), Base(initTtbr));
      assert buffer[..] == b0;
      ghost var h := history;
      count, out := CopyOut(buffer, limit, h.m, cpu.mem[..], b0, a1);
      ExtendedMore(a0, a1, accesses, Base(initTtbr));
      assert accesses[|a0|] == accesses[..|a1|][|a0|];
      Ring.PullTakes(h.m, limit);
      Ring.StepConserves(h, Ring.Receive(limit));
      history := Ring.Step(h, Ring.Receive(limit));
      Restore(flags, saved, borrowed);
    }
  }

  lemma HeardConserves(h: Ring.History, t: Turn, e: Monitor.Entry)
    requires Ring.Sound(h.m) && Ring.Conserved(h)
    requires t.complete ==> Monitor.PacketClear(e.memory, e.packet)
    ensures Ring.Conserved(Heard(h, t, e))
  {
    if t.complete && IsInput(t, e) {
      Ring.StepConserves(h, Ring.Packet(Monitor.Args(e.memory, e.packet)));
    }
  }

  /** The copy loop so far: out has been copied and tail and room remain. */
  predicate Copying(m: Ring.Mailbox, limit: nat, out: seq<byte>, tail: nat) {
    && |m.data| == Ring.SIZE && tail < Ring.SIZE && |out| <= limit &&
    var whole := Ring.Drain(m.data, m.head % 256, m.tail % 256, limit);
    var rest := Ring.Drain(m.data, m.head % 256, tail, limit - |out|);
    whole.0 == out + rest.0 && whole.1 == rest.1
  }

  lemma CopyStarts(m: Ring.Mailbox, limit: nat)
    requires |m.data| == Ring.SIZE
    ensures Copying(m, limit, [], m.tail % 256)
  {
  }

  lemma CopyStep(m: Ring.Mailbox, limit: nat, out: seq<byte>, tail: nat, b: seq<byte>,
                 b0: seq<byte>)
    returns (b': seq<byte>, out': seq<byte>)
    requires Copying(m, limit, out, tail) && tail != m.head % 256 && |out| < limit <= |b0|
    requires b == out + b0[|out|..]
    ensures b' == b[|out| := m.data[tail]] && |out'| == |out| + 1 && b' == out' + b0[|out'|..]
    ensures Copying(m, limit, out', (tail + 1) % 256)
  {
    var rest := Ring.Drain(m.data, m.head % 256, (tail + 1) % 256, limit - |out| - 1);
    b', out' := b[|out| := m.data[tail]], out + [m.data[tail]];
    assert out + ([m.data[tail]] + rest.0) == out' + rest.0;
  }

  lemma CopyStops(m: Ring.Mailbox, limit: nat, out: seq<byte>, tail: nat)
    requires Copying(m, limit, out, tail) && (tail == m.head % 256 || |out| == limit)
    requires m.magic == Ring.MAGIC
    ensures Ring.Pull(m, limit) == (if out == [] then m else m.(tail := tail), out)
  {
    assert out + [] == out;
  }
}
