/**
 The stage-0 monitor: the ARM handler the image builder assembles, instruction by instruction
 over the registers and memory, proved against what each packet is meant to do.
 */
module Monitor {
  import opened Bytes
  import opened Bitwise
  import opened Memory
  import opened SharedMailbox
  import Ring
  import Crc
  import Crc32
  import Polynomial
  import Hexadecimal

  const SAFE_RAM_START: word := 0x0100_0000
  const SAFE_RAM_END: word := 0x0200_0000
  const MESSAGE: nat := 0x0081_763C
  const HEX_TABLE: nat := 0x0081_75C6
  const BANNER: nat := 0x0081_1768

  /** The packet's length halfword. */
  function Length(mem: seq<byte>, packet: nat): (n: nat)
    requires packet + 6 <= |mem|
  {
    Half(mem, packet + 4)
  }

  /** The bytes after command and subcommand. */
  function Args(mem: seq<byte>, packet: nat): (args: seq<byte>)
    requires packet + 6 <= |mem| && packet + 6 + Length(mem, packet) <= |mem|
  {
    var n := Length(mem, packet);
    if n <= 2 then [] else mem[packet + 8..packet + 6 + n]
  }

  /** The packet lies in the address space, clear of the mailbox. */
  predicate PacketClear(mem: seq<byte>, packet: nat) {
    && packet + 24 <= |mem| && MAILBOX_END <= |mem|
    && packet + 6 + Length(mem, packet) < |mem|
    && (packet + 6 + Length(mem, packet) <= MAILBOX || MAILBOX_END <= packet)
  }

  /** What the monitor does with one packet. */
  datatype Action =
    | Banner
    | Reply(value: word)
    | Call(pc: word, a: word, b: word, c: word)
    | Input

  const BAD_REQUEST: word := 0xBAD0_0001
  const BAD_SUBCOMMAND: word := 0xBAD0_0000

  /** The system registers subcommands 1 to 10 read. */
  type SystemRegisters = s: seq<word> | |s| == 10 witness seq(10, i => 0)

  /** [a, a + n) lies in the safe window, in unbounded arithmetic. */
  predicate InWindow(a: nat, n: nat) {
    SAFE_RAM_START <= a && a + n <= SAFE_RAM_END
  }

  predicate Callable(pc: word) {
    pc % 4 == 0 && InWindow(pc, 1)
  }

  function CrcValue(mem: seq<byte>, a: nat, n: nat): word
    requires |mem| == U32
  {
    if InWindow(a, n) then Checksum(mem[a..a + n]) else BAD_REQUEST
  }

  function CrcAction(mem: seq<byte>, packet: nat): Action
    requires |mem| == U32 && packet + 24 <= U32
  {
    Reply(CrcValue(mem, Word(mem, packet + 8), Word(mem, packet + 12)))
  }

  function CallAction(mem: seq<byte>, packet: nat): Action
    requires |mem| == U32 && packet + 24 <= U32
  {
    var pc := Word(mem, packet + 8);
    if Callable(pc)
    then Call(pc, Word(mem, packet + 12), Word(mem, packet + 16), Word(mem, packet + 20))
    else Reply(BAD_REQUEST)
  }

  /** The meaning of a packet, with sp the stack pointer inside the handler. */
  function Decide(mem: seq<byte>, packet: nat, system: SystemRegisters, sp: word): Action
    requires |mem| == U32 && packet + 24 <= U32
  {
    var sub := mem[packet + 7];
    if Length(mem, packet) < 2 || mem[packet + 6] != 0x1C then Reply(BAD_REQUEST)
    else if sub == 0 then Banner
    else if sub <= 10 then Reply(system[sub - 1])
    else if sub == 11 then Reply(sp)
    else if sub == 12 then CrcAction(mem, packet)
    else if sub == 13 then CallAction(mem, packet)
    else if sub == 14 then Input
    else Reply(BAD_SUBCOMMAND)
  }

  /** The value of the check of section 8 of RFC 1952. */
  function Checksum(data: seq<byte>): (w: word)
    ensures Polynomial.Stages(w, 32) == Polynomial.Check(data, Crc32.Generator())
  {
    Crc32.OfIsPolynomialCheck(data);
    Crc32.Of(data)
  }

  /** What leaves the handler besides memory: calls of the print routine and of a second stage. */
  datatype Event = Printed(text: seq<byte>) | Called(pc: word, a: word, b: word, c: word)

  /** How a called second stage returns: its r0 and the memory it leaves. */
  datatype Return = Return(r0: word, memory: seq<byte>)

  function Reply8(mem: seq<byte>, value: word): (s: seq<byte>)
    requires |mem| == U32
    ensures |s| == 9
  {
    Hexadecimal.Powers();
    Hexadecimal.Numeral(mem[HEX_TABLE..HEX_TABLE + 16], value, 8) + [0]
  }

  /** Memory when a second stage returns: its own, except for the handler's stack frame. */
  function AfterCall(before: seq<byte>, ret: Return, sp: nat): (m: seq<byte>)
    requires |before| == |ret.memory| == U32 && sp + 16 <= U32
    ensures |m| == U32
  {
    Store(ret.memory, sp, before[sp..sp + 16])
  }

  /** The action has been carried out, taking memory from before to after. */
  predicate Done(before: seq<byte>, packet: nat, action: Action, ret: Return, sp: nat,
                 after: seq<byte>, trace: seq<Event>)
    requires |before| == |after| == |ret.memory| == U32 && sp + 16 <= U32
  {
    PacketClear(before, packet) && Ring.Sound(MailboxAt(before)) &&
    match action
    case Banner => after == before && trace == [Printed(Text(before, BANNER))]
    case Reply(value) =>
      && after == Store(before, MESSAGE, Reply8(before, value))
      && trace == [Printed(Text(after, MESSAGE))]
    case Call(pc, a, b, c) =>
      var m := AfterCall(before, ret, sp);
      && after == Store(m, MESSAGE, Reply8(m, ret.r0))
      && trace == [Called(pc, a, b, c), Printed(Text(after, MESSAGE))]
    case Input =>
      && trace == [] && Only(before, after, MAILBOX, MAILBOX_END)
      && MailboxAt(after) == Ring.Push(MailboxAt(before), Args(before, packet))
  }

  predicate Overlap(a: nat, m: nat, b: nat, n: nat) {
    a < b + n && b < a + m
  }

  /** Where the handler may be entered: room on the stack, and its four areas apart. */
  predicate Enterable(mem: seq<byte>, sp: nat, packet: nat) {
    && |mem| == U32 && 16 <= sp < U32 && PacketClear(mem, packet)
    && !Overlap(sp - 16, 16, packet, 24) && !Overlap(sp - 16, 16, packet, 6 + Length(mem, packet))
    && !Overlap(sp - 16, 16, MESSAGE, 9) && !Overlap(sp - 16, 16, MAILBOX, MAILBOX_END - MAILBOX)
    && Ring.Sound(MailboxAt(mem))
  }

  /** The addresses the handler itself may store to. */
  predicate Own(i: nat, sp: nat) {
    sp - 16 <= i < sp || 0x0081_763C <= i < 0x0081_7645 || 0x008F_F800 <= i < 0x008F_F90C
  }

  predicate Confined(before: seq<byte>, after: seq<byte>, sp: nat) {
    && |before| == |after|
    && forall i | 0 <= i < |before| && !Own(i, sp) :: after[i] == before[i]
  }

  /** The mailbox after the handler has dealt with a packet. */
  function Delivered(mem: seq<byte>, packet: nat, action: Action): Ring.Mailbox
    requires PacketClear(mem, packet) && Ring.Sound(MailboxAt(mem))
  {
    if action.Input? then Ring.Push(MailboxAt(mem), Args(mem, packet)) else MailboxAt(mem)
  }

  /** The processor as the handler is entered, with the packet's address in r0. */
  datatype Entry = Entry(memory: seq<byte>, sp: nat, r4: word, r5: word, r6: word, lr: word,
                         packet: nat)

  /** Memory with the registers pushed. */
  function Pushed(e: Entry): (m: seq<byte>)
    requires 16 <= e.sp <= |e.memory|
    ensures |m| == |e.memory|
  {
    Store(e.memory, e.sp - 16, Frame(e))
  }

  /** push {r4, r5, r6, lr} */
  function Frame(e: Entry): (f: seq<byte>)
    ensures |f| == 16
  {
    Le(e.r4, 4) + Le(e.r5, 4) + Le(e.r6, 4) + Le(e.lr, 4)
  }

  /**
   The handler's effect: the packet's action is done on memory with the registers pushed; and
   unless that action is a call, no byte outside the stack frame, the message buffer and the
   mailbox has changed, and the mailbox has taken the packet exactly if it is an input packet.
   */
  predicate Handled(e: Entry, pushed: seq<byte>, system: SystemRegisters, ret: Return,
                    after: seq<byte>, trace: seq<Event>) {
    && |e.memory| == |pushed| == |after| == |ret.memory| == U32 && 16 <= e.sp < U32
    && pushed == Pushed(e)
    && PacketClear(e.memory, e.packet) && Ring.Sound(MailboxAt(e.memory)) &&
    var action := Decide(pushed, e.packet, system, e.sp - 16);
    && Done(pushed, e.packet, action, ret, e.sp - 16, after, trace)
    && (action.Call? || Confined(e.memory, after, e.sp))
    && (action.Call? || MailboxAt(after) == Delivered(e.memory, e.packet, action))
  }

  /** The pushed registers are on the stack at sp. */
  predicate Saved(e: Entry, m: seq<byte>, sp: nat) {
    && sp + 16 < |m| && sp + 16 == e.sp
    && Word(m, sp) == e.r4 && Word(m, sp + 4) == e.r5
    && Word(m, sp + 8) == e.r6 && Word(m, sp + 12) == e.lr
  }

  class Cpu {
    const mem: array<byte>
    var r4: word
    var r5: word
    var r6: word
    var sp: word
    var lr: word

    constructor (mem: array<byte>)
      requires mem.Length == U32
      ensures Valid() && this.mem == mem
    {
      this.mem := mem;
      r4, r5, r6, sp, lr := 0, 0, 0, 0, 0;
    }

    ghost predicate Valid() {
      mem.Length == U32
    }

    method StoreWord(a: nat, w: word)
      requires Valid() && a + 4 <= U32
      modifies mem
      ensures mem[..] == Store(old(mem[..]), a, Le(w, 4))
    {
      StoreInto(mem, a, Le(w, 4));
    }

    method StoreByte(a: nat, b: byte)
      requires Valid() && a < U32
      modifies mem
      ensures mem[..] == Store(old(mem[..]), a, [b])
    {
      StoreInto(mem, a, [b]);
    }

    /** The input handler up to mailbox_ready: claim the mailbox. */
    method ClaimMailbox(ghost m0: seq<byte>)
      requires Valid() && m0 == mem[..]
      modifies mem
      ensures mem[..] == Claimed(m0)
    {
      var magic := Word(mem[..], MAILBOX);
      if magic != Ring.MAGIC {
        StoreWord(MAILBOX, Ring.MAGIC);
        StoreWord(MAILBOX + 4, 0);
        StoreWord(MAILBOX + 8, 0);
      }
    }

    /** ldrb r1, [r4]; add ip, r0, #12; strb r1, [ip, r3]: one byte to wherever head points. */
    method StoreRing(head: word, at: nat, ghost m: seq<byte>)
      requires Valid() && m == mem[..] && at < U32
      modifies mem
      ensures mem[..] == Store(m, SlotAddress(head), [m[at]])
    {
      var ip := MAILBOX + 12;
      StoreByte((ip + head) % U32, mem[at]);
    }

    /** add r6, r3, #1; and r6, r6, #0xff */
    method Mask(head: word) returns (next: word)
      ensures next == Ring.Next(head)
    {
      next := (head + 1) % U32 % 256;
    }

    /** mailbox_loop, with r2, r3, r4 and r5 as left, head, at and tail: any head, any tail. */
    method FillLoop(count: nat, head0: word, at0: nat, tail: word, ghost m0: seq<byte>)
      returns (head: word, ghost stores: seq<nat>)
      requires Valid() && m0 == mem[..] && at0 + count < U32
      modifies mem
      ensures (mem[..], head, stores) == RawFill(m0, head0, tail, at0, count)
    {
      var left: nat, at: nat := count, at0;
      head, stores := head0, [];
      ghost var m := m0;
      RawStarts(m0, head0, tail, at0, count);
      while left != 0
        invariant at + left == at0 + count && m == mem[..]
        invariant RawFilling(m0, head0, tail, at0, count, m, head, at, left, stores)
      {
        var next := Mask(head);
        if next == tail { break; }
        StoreRing(head, at, m);
        m, stores := RawNext(m0, head0, tail, at0, count, m, head, at, left, stores);
        at := at + 1;
        head := next;
        left := left - 1;
      }
      RawStops(m0, head0, tail, at0, count, m, head, at, left, stores);
    }

    /** The whole input handler, on any mailbox; stores are the addresses its loop stores to. */
    method MailboxInput(packet: nat, ghost m0: seq<byte>) returns (ghost stores: seq<nat>)
      requires Valid() && m0 == mem[..] && PacketClear(m0, packet)
      modifies mem
      ensures (mem[..], stores) == RawInput(m0, packet)
    {
      ClaimKeepsPacket(m0, packet);
      ClaimMailbox(m0);
      stores := [];
      ghost var m1 := mem[..];
      var count := Length(mem[..], packet);
      if count > 2 {
        count := count - 2;
        if count > 64 {
          count := 64;
        }
        var head;
        head, stores := FillLoop(count, Word(mem[..], HEAD), packet + 8, Word(mem[..], TAIL), m1);
        StoreWord(MAILBOX + 4, head);
      }
    }

    /** hex_loop with r0, r1 and r3 as r0, at and left. */
    method HexLoop(value: word, ghost table: seq<byte>, ghost goal: seq<byte>,
                   ghost m0: seq<byte>)
      requires Valid() && m0 == mem[..] && HexState(m0, m0, table, goal, value, 8, value, [])
      modifies mem
      ensures mem[..] == Store(m0, MESSAGE, goal)
    {
      ghost var v: nat := value;
      ghost var done: seq<byte> := [];
      ghost var m := m0;
      var r0: word := value;
      var at: nat, left: nat := MESSAGE, 8;
      while left != 0
        invariant at + left == MESSAGE + 8
        invariant m == mem[..] && HexState(m0, m, table, goal, v, left, r0, done)
      {
        v, done, m := HexStep(m0, m, table, goal, v, left, r0, done);
        StoreByte(at, mem[HEX_TABLE + r0 / 0x1000_0000]);
        at := at + 1;
        r0 := r0 * 16 % U32;
        left := left - 1;
      }
      HexDone(m0, m, table, goal, v, r0, done);
    }

    /** reply_hex: spell r0 into the message buffer and print it. */
    method ReplyHex(value: word) returns (text: seq<byte>)
      requires Valid()
      modifies mem
      ensures mem[..] == Store(old(mem[..]), MESSAGE, Reply8(old(mem[..]), value))
      ensures text == Text(mem[..], MESSAGE)
    {
      ghost var m0, table := mem[..], mem[HEX_TABLE..HEX_TABLE + 16];
      ghost var goal := HexStarts(m0, table, value);
      HexLoop(value, table, goal, m0);
      StoreAppend(m0, MESSAGE, goal, 0);
      StoreByte(MESSAGE + 8, 0);
      text := Text(mem[..], MESSAGE);
    }

    /** crc_byte: the loop over memory, with the generator in r6 and all ones to start and finish. */
    method CrcLoop(address: word, length: word, ones: word, r6: word) returns (r0: word)
      requires Valid() && InWindow(address, length)
      ensures r0 == Xor(Crc.Run(ones, r6, mem[address..address + length]), ones)
    {
      r0 := ones;
      var r1: nat, r2: nat := address, length;
      ghost var m := mem[..];
      ghost var rest := m[r1..r1 + r2];
      ghost var goal := Crc.Run(ones, r6, rest);
      assert rest == mem[r1..r1 + r2];
      while r2 != 0
        invariant r1 + r2 == address + length && m == mem[..]
        invariant Checking(m, r1, r2, r0, r6, rest, goal)
      {
        var next := CrcByte(r0, mem[r1], r6);
        rest := NextChecked(m, r1, r2, r0, r6, rest, goal, next);
        r0 := next;
        r1 := r1 + 1;
        r2 := r2 - 1;
      }
      WordXor(r0, ones);
      r0 := Xor(r0, ones);
    }

    /** crc32_range once the bounds are checked. */
    method CrcRange(address: word, length: word) returns (r0: word)
      requires Valid() && InWindow(address, length)
      ensures r0 == Checksum(mem[address..address + length])
    {
      r0 := CrcLoop(address, length, 0xFFFF_FFFF, 0xEDB8_8320);
    }

    /** blx r6: memory is whatever the callee leaves, except for the frame it must respect. */
    method Stage2(ret: Return)
      requires Valid() && |ret.memory| == U32 && sp + 16 <= U32
      modifies mem
      ensures mem[..] == AfterCall(old(mem[..]), ret, sp)
    {
      forall i | 0 <= i < U32 && !(sp <= i < sp + 16) {
        mem[i] := ret.memory[i];
      }
      assert mem[..sp] == ret.memory[..sp] && mem[sp + 16..] == ret.memory[sp + 16..];
      assert mem[sp..sp + 16] == old(mem[sp..sp + 16]);
      assert mem[..] == mem[..sp] + mem[sp..sp + 16] + mem[sp + 16..];
    }

    predicate Ready(packet: nat, ret: Return)
      reads this`sp, mem
    {
      && mem.Length == U32 && |ret.memory| == U32 && sp + 16 <= U32
      && PacketClear(mem[..], packet) && Ring.Sound(MailboxAt(mem[..]))
    }

    method Answer(value: word, packet: nat, ret: Return) returns (trace: seq<Event>)
      requires Ready(packet, ret)
      modifies mem
      ensures Done(old(mem[..]), packet, Reply(value), ret, sp, mem[..], trace)
    {
      var text := ReplyHex(value);
      trace := [Printed(text)];
    }

    /** crc32_range: the value to answer with. */
    method CrcCommand(packet: nat) returns (r0: word)
      requires Valid() && packet + 24 <= U32
      ensures Reply(r0) == CrcAction(mem[..], packet)
    {
      var r1, r2 := Word(mem[..], packet + 8), Word(mem[..], packet + 12);
      r0 := CrcChecked(r1, r2);
    }

    method CrcChecked(r1: word, r2: word) returns (r0: word)
      requires Valid()
      ensures r0 == CrcValue(mem[..], r1, r2)
      ensures InWindow(r1, r2) ==>
                Polynomial.Stages(r0, 32) == Polynomial.Check(mem[r1..r1 + r2], Crc32.Generator())
    {
      var carry, r3 := r1 + r2 >= U32, (r1 + r2) % U32;
      if r1 < SAFE_RAM_START || carry || r3 > SAFE_RAM_END {
        return 0xBAD0_0001;
      }
      r0 := CrcRange(r1, r2);
      assert mem[..][r1..r1 + r2] == mem[r1..r1 + r2];
    }

    method CallCommand(packet: nat, ret: Return) returns (trace: seq<Event>)
      requires Ready(packet, ret)
      modifies mem
      ensures Done(old(mem[..]), packet, CallAction(old(mem[..]), packet), ret, sp, mem[..], trace)
    {
      var r6 := Word(mem[..], packet + 8);
      if r6 % 4 != 0 || r6 < SAFE_RAM_START || r6 >= SAFE_RAM_END {
        trace := Answer(0xBAD0_0001, packet, ret);
      } else {
        var call := Called(r6, Word(mem[..], packet + 12), Word(mem[..], packet + 16),
                           Word(mem[..], packet + 20));
        Stage2(ret);
        var text := ReplyHex(ret.r0);
        trace := [call, Printed(text)];
      }
    }

    /** From the length check to the final pop. */
    method Body(packet: nat, system: SystemRegisters, ret: Return) returns (trace: seq<Event>)
      requires Ready(packet, ret)
      modifies mem
      ensures Done(old(mem[..]), packet, Decide(old(mem[..]), packet, system, sp), ret, sp,
                   mem[..], trace)
    {
      if Length(mem[..], packet) < 2 || mem[packet + 6] != 0x1C {
        trace := Answer(0xBAD0_0001, packet, ret);
        return;
      }
      var r5 := mem[packet + 7];
      if r5 == 0 {
        trace := [Printed(Text(mem[..], BANNER))];
      } else if r5 <= 10 {
        trace := Answer(system[r5 - 1], packet, ret);
      } else if r5 == 11 {
        trace := Answer(sp, packet, ret);
      } else if r5 == 12 {
        var value := CrcCommand(packet);
        trace := Answer(value, packet, ret);
      } else if r5 == 13 {
        trace := CallCommand(packet, ret);
      } else if r5 == 14 {
        ghost var before := mem[..];
        RawInputIsPush(before, packet);
        ghost var stores := MailboxInput(packet, before);
        trace := [];
      } else {
        trace := Answer(0xBAD0_0000, packet, ret);
      }
    }

    /** pop {r4, r5, r6, pc} */
    method Pop(ghost m: seq<byte>) returns (pc: word)
      requires Valid() && sp + 16 < U32 && m == mem[..]
      modifies this`r4, this`r5, this`r6, this`sp
      ensures sp == old(sp) + 16
      ensures r4 == Word(m, old(sp)) && r5 == Word(m, old(sp) + 4)
      ensures r6 == Word(m, old(sp) + 8) && pc == Word(m, old(sp) + 12)
      ensures mem[..] == m
    {
      var saved := mem[..];
      r4, r5, r6 := Word(saved, sp), Word(saved, sp + 4), Word(saved, sp + 8);
      pc := Word(saved, sp + 12);
      sp := sp + 16;
    }

    function Snapshot(packet: nat): Entry
      reads this, mem
    {
      Entry(mem[..], sp, r4, r5, r6, lr, packet)
    }

    /**
     The handler, entered with the packet's address in r0 and returning 0. Whatever the packet
     says, the saved registers and the stack pointer come back, control returns to the caller
     and the packet has been handled.
     */
    method Handler(ghost e: Entry, r0: word, system: SystemRegisters, ret: Return)
      returns (result: word, pc: word, trace: seq<Event>, ghost pushed: seq<byte>,
               ghost after: seq<byte>)
      requires Valid() && |ret.memory| == U32 && e == Snapshot(r0)
      requires Enterable(e.memory, e.sp, e.packet)
      modifies this`r4, this`r5, this`r6, this`sp, mem
      ensures sp == e.sp && r4 == e.r4 && r5 == e.r5 && r6 == e.r6
      ensures result == 0 && pc == e.lr
      ensures after == mem[..] && Handled(e, pushed, system, ret, after, trace)
    {
      trace, pushed := UpToPop(e, r0, system, ret);
      after := mem[..];
      pc := Leave(e, after);
      result := 0;
    }

    /** The body uses r4, r5 and r6 as scratch registers. */
    method Clobber(ghost m: seq<byte>)
      requires m == mem[..]
      modifies this`r4, this`r5, this`r6
      ensures mem[..] == m
    {
      r4, r5, r6 := *, *, *;
    }

    method Leave(ghost e: Entry, ghost m: seq<byte>) returns (pc: word)
      requires Valid() && m == mem[..] && Saved(e, m, sp)
      modifies this`r4, this`r5, this`r6, this`sp
      ensures sp == e.sp && r4 == e.r4 && r5 == e.r5 && r6 == e.r6 && pc == e.lr
      ensures mem[..] == m
    {
      Clobber(m);
      pc := Pop(m);
    }

    method UpToPop(ghost e: Entry, r0: word, system: SystemRegisters, ret: Return)
      returns (trace: seq<Event>, ghost pushed: seq<byte>)
      requires Valid() && |ret.memory| == U32 && e == Snapshot(r0)
      requires Enterable(e.memory, e.sp, e.packet)
      modifies this`sp, mem
      ensures Handled(e, pushed, system, ret, mem[..], trace) && Saved(e, mem[..], sp)
    {
      pushed := Enter(e, ret);
      trace := Body(r0, system, ret);
      BodyResult(e, pushed, system, ret, mem[..], trace);
    }

    /** push {r4, r5, r6, lr} */
    method Enter(ghost e: Entry, ret: Return) returns (ghost pushed: seq<byte>)
      requires Valid() && |ret.memory| == U32 && e == Snapshot(e.packet)
      requires Enterable(e.memory, e.sp, e.packet)
      modifies this`sp, mem
      ensures sp == e.sp - 16 && mem[..] == pushed && Entered(e, pushed)
      ensures Ready(e.packet, ret)
    {
      pushed := Pushed(e);
      PushKeeps(e, pushed);
      StoreInto(mem, sp - 16, Le(r4, 4) + Le(r5, 4) + Le(r6, 4) + Le(lr, 4));
      sp := sp - 16;
    }

    /** crc_bit: eight shifts. */
    method CrcByte(crc: word, b: byte, r6: word) returns (r0: word)
      ensures r0 == Crc.Fold(crc, r6, b)
    {
      WordXor(crc, b);
      r0 := Xor(crc, b);
      var r5 := 8;
      while r5 != 0
        invariant r5 <= 8
        invariant Crc.Bits(r0, r6, r5) == Crc.Fold(crc, r6, b)
      {
        WordXor(r0 / 2, r6);
        r0 := if r0 % 2 == 1 then Xor(r0 / 2, r6) else r0 / 2;
        r5 := r5 - 1;
      }
    }
  }

  /** The loop so far: what remains to be done completes the whole. */
  predicate RawFilling(m0: seq<byte>, head0: word, tail: word, at0: nat, count: nat,
                       m: seq<byte>, head: word, at: nat, left: nat, stores: seq<nat>) {
    && |m0| == |m| == U32 && at0 + count < U32 && at + left < U32 &&
    var whole := RawFill(m0, head0, tail, at0, count);
    var rest := RawFill(m, head, tail, at, left);
    whole == (rest.0, rest.1, stores + rest.2)
  }

  lemma RawStarts(m0: seq<byte>, head0: word, tail: word, at0: nat, count: nat)
    requires |m0| == U32 && at0 + count < U32
    ensures RawFilling(m0, head0, tail, at0, count, m0, head0, at0, count, [])
  {
    assert [] + RawFill(m0, head0, tail, at0, count).2 == RawFill(m0, head0, tail, at0, count).2;
  }

  lemma RawNext(m0: seq<byte>, head0: word, tail: word, at0: nat, count: nat, m: seq<byte>,
                head: word, at: nat, left: nat, stores: seq<nat>)
    returns (m': seq<byte>, stores': seq<nat>)
    requires RawFilling(m0, head0, tail, at0, count, m, head, at, left, stores)
    requires left > 0 && Ring.Next(head) != tail
    ensures m' == Store(m, SlotAddress(head), [m[at]])
    ensures RawFilling(m0, head0, tail, at0, count, m', Ring.Next(head), at + 1, left - 1, stores')
  {
    var a := SlotAddress(head);
    m', stores' := Store(m, a, [m[at]]), stores + [a];
    var later := RawFill(m', Ring.Next(head), tail, at + 1, left - 1).2;
    assert stores + ([a] + later) == stores' + later;
  }

  lemma RawStops(m0: seq<byte>, head0: word, tail: word, at0: nat, count: nat, m: seq<byte>,
                 head: word, at: nat, left: nat, stores: seq<nat>)
    requires RawFilling(m0, head0, tail, at0, count, m, head, at, left, stores)
    requires left == 0 || Ring.Next(head) == tail
    ensures RawFill(m0, head0, tail, at0, count) == (m, head, stores)
  {
    assert stores + [] == stores;
  }

  /** Memory after the mailbox has been claimed. */
  function Claimed(mem: seq<byte>): (m: seq<byte>)
    requires |mem| == U32
    ensures |m| == U32
  {
    if Word(mem, MAILBOX) == Ring.MAGIC then mem
    else Store(Store(Store(mem, MAILBOX, Le(Ring.MAGIC, 4)), HEAD, Le(0, 4)), TAIL, Le(0, 4))
  }

  lemma ClaimedIsClaim(mem: seq<byte>)
    requires |mem| == U32
    ensures MailboxAt(Claimed(mem)) == Ring.Claim(MailboxAt(mem))
    ensures MailboxAt(Claimed(mem)).magic == 0x534D_494E
    ensures MailboxAt(Claimed(mem))
         == if Word(mem, 0x008F_F800) == 0x534D_494E then MailboxAt(mem)
            else MailboxAt(mem).(magic := 0x534D_494E, head := 0, tail := 0)
    ensures Only(mem, Claimed(mem), MAILBOX, MAILBOX_END)
  {
    if Word(mem, MAILBOX) != Ring.MAGIC {
      var m1 := Store(mem, MAILBOX, Le(Ring.MAGIC, 4));
      var m2 := Store(m1, HEAD, Le(0, 4));
      StoreMagic(mem, Ring.MAGIC);
      StoreHead(m1, 0);
      StoreTail(m2, 0);
      StoreOnly(mem, MAILBOX, Le(Ring.MAGIC, 4));
      StoreOnly(m1, HEAD, Le(0, 4));
      StoreOnly(m2, TAIL, Le(0, 4));
    }
  }

  lemma ClaimKeepsPacket(mem: seq<byte>, packet: nat)
    requires |mem| == U32 && PacketClear(mem, packet)
    ensures PacketClear(Claimed(mem), packet)
    ensures Length(Claimed(mem), packet) == Length(mem, packet)
    ensures Args(Claimed(mem), packet) == Args(mem, packet)
  {
    ClaimedIsClaim(mem);
    PacketKept(mem, Claimed(mem), packet);
  }

  /** How many argument bytes the input handler goes for. */
  function Wanted(mem: seq<byte>, packet: nat): (n: nat)
    requires packet + 6 <= |mem|
    ensures n <= 64
  {
    var n := Length(mem, packet);
    if n <= 2 then 0 else Ring.Min(n - 2, 64)
  }

  /** The input handler on memory, whatever the mailbox holds: the memory it leaves, its loop's stores. */
  function RawInput(mem: seq<byte>, packet: nat): (r: (seq<byte>, seq<nat>))
    requires |mem| == U32 && PacketClear(mem, packet)
    ensures |r.0| == U32
  {
    ClaimKeepsPacket(mem, packet);
    var c, n := Claimed(mem), Wanted(mem, packet);
    if n == 0 then (c, [])
    else
      var (m, head, stores) := RawFill(c, Word(c, HEAD), Word(c, TAIL), packet + 8, n);
      (Store(m, HEAD, Le(head, 4)), stores)
  }

  /** With the head in range, one packet is one push, and nothing outside the mailbox changes. */
  lemma RawInputIsPush(mem: seq<byte>, packet: nat)
    requires |mem| == U32 && PacketClear(mem, packet) && Ring.HeadInRange(MailboxAt(mem))
    ensures MailboxAt(RawInput(mem, packet).0) == Ring.Push(MailboxAt(mem), Args(mem, packet))
    ensures Only(mem, RawInput(mem, packet).0, MAILBOX, MAILBOX_END)
  {
    ClaimedIsClaim(mem);
    ClaimKeepsPacket(mem, packet);
    if Wanted(mem, packet) > 0 {
      var c := Claimed(mem);
      var after := FillIsPush(c, packet, Wanted(mem, packet));
      PushClaimed(MailboxAt(mem), Args(mem, packet));
    }
  }

  lemma PushClaimed(m: Ring.Mailbox, args: seq<byte>)
    requires Ring.HeadInRange(m)
    ensures Ring.Push(m, args) == Ring.Push(Ring.Claim(m), args)
  {
  }

  /** The loop and the commit on a claimed mailbox. */
  lemma FillIsPush(c: seq<byte>, packet: nat, n: nat) returns (after: seq<byte>)
    requires |c| == U32 && PacketClear(c, packet) && n == Wanted(c, packet) > 0
    requires MailboxAt(c).magic == Ring.MAGIC && Word(c, HEAD) < Ring.SIZE
    ensures var (m, head, _) := RawFill(c, Word(c, HEAD), Word(c, TAIL), packet + 8, n);
            after == Store(m, HEAD, Le(head, 4))
    ensures MailboxAt(after) == Ring.Push(MailboxAt(c), Args(c, packet))
    ensures Only(c, after, MAILBOX, MAILBOX_END)
  {
    var bytes := WantedBytes(c, packet, n);
    RawFillIsFill(c, Word(c, HEAD), Word(c, TAIL), packet + 8, bytes);
    var (m, head, stores) := RawFill(c, Word(c, HEAD), Word(c, TAIL), packet + 8, n);
    after := Store(m, HEAD, Le(head, 4));
    CommitFill(c, bytes, m, head);
    PushIs(MailboxAt(c), Args(c, packet), bytes, MailboxAt(after));
  }

  lemma CommitFill(c: seq<byte>, bytes: seq<byte>, m: seq<byte>, head: word)
    requires |c| == U32 && IsFill(c, Word(c, HEAD), Word(c, TAIL), bytes, m, head)
    ensures Filled(MailboxAt(c), bytes, MailboxAt(Store(m, HEAD, Le(head, 4))))
    ensures Only(c, Store(m, HEAD, Le(head, 4)), MAILBOX, MAILBOX_END)
  {
    StoreHead(m, head);
    StoreOnly(m, HEAD, Le(head, 4));
  }

  /** m is c after the store loop over these bytes and the commit. */
  predicate Filled(c: Ring.Mailbox, bytes: seq<byte>, m: Ring.Mailbox) {
    && |c.data| == Ring.SIZE && c.head < Ring.SIZE &&
    var (data, head) := Ring.Fill(c.data, c.head, c.tail, bytes);
    m == c.(data := data, head := head)
  }

  lemma PushIs(m: Ring.Mailbox, args: seq<byte>, bytes: seq<byte>, m': Ring.Mailbox)
    requires Ring.HeadInRange(m) && args != [] && bytes == args[..Ring.Min(|args|, 64)]
    requires Filled(Ring.Claim(m), bytes, m')
    ensures m' == Ring.Push(m, args)
  {
  }

  lemma WantedBytes(m: seq<byte>, packet: nat, n: nat) returns (bytes: seq<byte>)
    requires |m| == U32 && PacketClear(m, packet) && n == Wanted(m, packet) > 0
    ensures bytes == Args(m, packet)[..Ring.Min(|Args(m, packet)|, 64)] && |bytes| == n
    ensures packet + 8 + n < U32 && m[packet + 8..packet + 8 + n] == bytes
    ensures packet + 8 + n <= MAILBOX || MAILBOX_END <= packet + 8
  {
    bytes := m[packet + 8..packet + 8 + n];
  }

  /**
   Where the input handler's loop stores: it masks the head only after storing through it, so
   every store is inside the ring if and only if the mailbox is unclaimed, or its head word is in
   range, or the packet has no arguments, or the ring is full at the first comparison.
   */
  lemma InputInRingIff(mem: seq<byte>, packet: nat)
    requires |mem| == U32 && PacketClear(mem, packet)
    ensures var m := MailboxAt(mem);
            AllInRing(RawInput(mem, packet).1)
            <==> m.magic != Ring.MAGIC || m.head < Ring.SIZE || Args(mem, packet) == []
                 || Ring.Next(m.head) == m.tail
    ensures var m, stores := MailboxAt(mem), RawInput(mem, packet).1;
            m.magic == Ring.MAGIC && stores != [] ==> stores[0] == (0x008F_F80C + m.head) % U32
  {
    var c, n := Claimed(mem), Wanted(mem, packet);
    ClaimedIsClaim(mem);
    ClaimKeepsPacket(mem, packet);
    if n > 0 {
      RawFillInRingIff(c, Word(c, HEAD), Word(c, TAIL), packet + 8, n);
    }
  }

  lemma PacketKept(before: seq<byte>, after: seq<byte>, packet: nat)
    requires PacketClear(before, packet) && Only(before, after, MAILBOX, MAILBOX_END)
    ensures PacketClear(after, packet) && Length(after, packet) == Length(before, packet)
    ensures Args(after, packet) == Args(before, packet)
  {
    SameSlice(before, after, packet + 4, packet + 6);
    if Length(before, packet) > 2 {
      SameSlice(before, after, packet + 8, packet + 6 + Length(before, packet));
    }
  }

  lemma StoreNothing(m: seq<byte>, a: nat)
    requires a <= |m|
    ensures Store(m, a, []) == m
  {
  }

  lemma StoreAppend(m: seq<byte>, a: nat, s: seq<byte>, b: byte)
    requires a + |s| < |m|
    ensures Store(Store(m, a, s), a + |s|, [b]) == Store(m, a, s + [b])
  {
  }

  /** One turn of the shift loop: the top nibble is the next digit of the numeral. */
  lemma HexNibble(table: seq<byte>, v: nat, left: nat, r0: word) returns (q: nat, r: nat)
    requires |table| == 16 && 1 <= left <= 8
    requires v < Hexadecimal.Pow16(left) && r0 == v * Hexadecimal.Pow16(8 - left)
    ensures q == r0 / 0x1000_0000 && q < 16 && r < Hexadecimal.Pow16(left - 1)
    ensures r0 * 16 % U32 == r * Hexadecimal.Pow16(8 - (left - 1))
    ensures Hexadecimal.Numeral(table, v, left)
         == [table[q]] + Hexadecimal.Numeral(table, r, left - 1)
  {
    Hexadecimal.TopNibble(v, left, r0);
    q, r := Hexadecimal.FirstDigit(table, v, left);
  }

  /** The shift loop with left digits to go: done is spelled, and v is at the top of r0. */
  predicate HexState(m0: seq<byte>, m: seq<byte>, table: seq<byte>, goal: seq<byte>, v: nat,
                     left: nat, r0: word, done: seq<byte>) {
    && |m0| == U32 && table == m0[HEX_TABLE..HEX_TABLE + 16] && left <= 8
    && v < Hexadecimal.Pow16(left) && r0 == v * Hexadecimal.Pow16(8 - left)
    && |done| == 8 - left && m == Store(m0, MESSAGE, done)
    && done + Hexadecimal.Numeral(table, v, left) == goal
  }

  lemma HexStarts(m0: seq<byte>, table: seq<byte>, value: word) returns (goal: seq<byte>)
    requires |m0| == U32 && table == m0[HEX_TABLE..HEX_TABLE + 16]
    ensures value < Hexadecimal.Pow16(8) && goal == Hexadecimal.Numeral(table, value, 8)
    ensures HexState(m0, m0, table, goal, value, 8, value, [])
  {
    Hexadecimal.Powers();
    StoreNothing(m0, MESSAGE);
    goal := Hexadecimal.Numeral(table, value, 8);
    assert [] + goal == goal;
  }

  lemma HexStep(m0: seq<byte>, m: seq<byte>, table: seq<byte>, goal: seq<byte>, v: nat, left: nat,
                r0: word, done: seq<byte>) returns (v': nat, done': seq<byte>, m': seq<byte>)
    requires HexState(m0, m, table, goal, v, left, r0, done) && left >= 1
    ensures r0 / 0x1000_0000 < 16
    ensures m' == Store(m, MESSAGE + (8 - left), [m[HEX_TABLE + r0 / 0x1000_0000]])
    ensures HexState(m0, m', table, goal, v', left - 1, r0 * 16 % U32, done')
  {
    var q, r := HexNibble(table, v, left, r0);
    v', done' := r, done + [table[q]];
    m' := Store(m0, MESSAGE, done');
    HexStore(m0, m, table, q, done);
    Reassociate(done, table[q], Hexadecimal.Numeral(table, r, left - 1));
  }

  lemma HexDone(m0: seq<byte>, m: seq<byte>, table: seq<byte>, goal: seq<byte>, v: nat, r0: word,
                done: seq<byte>)
    requires HexState(m0, m, table, goal, v, 0, r0, done)
    ensures m == Store(m0, MESSAGE, goal) && |goal| == 8
  {
    assert done + [] == done;
  }

  lemma HexStore(m0: seq<byte>, m: seq<byte>, table: seq<byte>, q: nat, done: seq<byte>)
    requires |m0| == U32 && table == m0[HEX_TABLE..HEX_TABLE + 16] && q < 16
    requires |done| < 8 && m == Store(m0, MESSAGE, done)
    ensures Store(m, MESSAGE + |done|, [m[HEX_TABLE + q]]) == Store(m0, MESSAGE, done + [table[q]])
  {
    StoreOnly(m0, MESSAGE, done);
    assert m[HEX_TABLE + q] == m0[HEX_TABLE + q] == table[q];
    StoreAppend(m0, MESSAGE, done, table[q]);
  }

  lemma WordXor(a: word, b: word)
    ensures Xor(a, b) < U32
  {
    Powers();
    XorBound(a, b, 32);
  }

  /** The check of the n bytes at a, from this register on, is what the whole range comes to. */
  predicate Checking(m: seq<byte>, a: nat, n: nat, crc: word, poly: word, rest: seq<byte>, goal: nat) {
    a + n <= |m| && rest == m[a..a + n] && Crc.Run(crc, poly, rest) == goal
  }

  lemma NextChecked(m: seq<byte>, a: nat, n: nat, crc: word, poly: word, rest: seq<byte>, goal: nat,
                    next: word) returns (rest': seq<byte>)
    requires Checking(m, a, n, crc, poly, rest, goal) && n > 0
    requires next == Crc.Fold(crc, poly, m[a])
    ensures Checking(m, a + 1, n - 1, next, poly, rest', goal)
  {
    rest' := rest[1..];
    assert rest[0] == m[a];
  }

  lemma Reassociate(a: seq<byte>, b: byte, c: seq<byte>)
    ensures (a + [b]) + c == a + ([b] + c)
  {
  }

  /** Saving the registers disturbs neither the packet nor the mailbox. */
  lemma PushKeeps(e: Entry, pushed: seq<byte>)
    requires Enterable(e.memory, e.sp, e.packet) && pushed == Pushed(e)
    ensures Entered(e, pushed)
  {
    StoreOnly(e.memory, e.sp - 16, Frame(e));
    PacketSame(e.memory, pushed, e.packet, e.sp - 16);
    MailboxSame(e.memory, pushed);
  }

  lemma PacketSame(before: seq<byte>, after: seq<byte>, packet: nat, at: nat)
    requires PacketClear(before, packet) && Only(before, after, at, at + 16)
    requires !Overlap(at, 16, packet, 24) && !Overlap(at, 16, packet, 6 + Length(before, packet))
    ensures PacketClear(after, packet) && Args(after, packet) == Args(before, packet)
  {
    SameSlice(before, after, packet + 4, packet + 6);
    if Length(before, packet) > 2 {
      SameSlice(before, after, packet + 8, packet + 6 + Length(before, packet));
    }
  }

  /** What holds between the handler's push and its pop. */
  predicate Entered(e: Entry, pushed: seq<byte>) {
    && |e.memory| == |pushed| == U32 && 16 <= e.sp < U32
    && pushed == Pushed(e)
    && !Overlap(e.sp - 16, 16, MESSAGE, 9)
    && !Overlap(e.sp - 16, 16, MAILBOX, MAILBOX_END - MAILBOX)
    && PacketClear(e.memory, e.packet) && PacketClear(pushed, e.packet)
    && MailboxAt(pushed) == MailboxAt(e.memory) && Ring.Sound(MailboxAt(e.memory))
    && Args(pushed, e.packet) == Args(e.memory, e.packet)
    && Only(e.memory, pushed, e.sp - 16, e.sp)
    && pushed[e.sp - 16..e.sp] == Frame(e)
  }

  lemma BodyResult(e: Entry, pushed: seq<byte>, system: SystemRegisters, ret: Return,
                   after: seq<byte>, trace: seq<Event>)
    requires |ret.memory| == |after| == U32 && Entered(e, pushed)
    requires Done(pushed, e.packet, Decide(pushed, e.packet, system, e.sp - 16), ret,
                  e.sp - 16, after, trace)
    ensures Handled(e, pushed, system, ret, after, trace) && Saved(e, after, e.sp - 16)
  {
    var action, sp := Decide(pushed, e.packet, system, e.sp - 16), e.sp - 16;
    BodyKeepsFrame(pushed, e.packet, action, ret, sp, after, trace, Frame(e));
    BodyDelivers(e.memory, pushed, e.packet, action, ret, sp, after, trace);
    BodyConfined(e.memory, pushed, e.packet, action, ret, sp, after, trace);
    FrameWords(after, sp, e.r4, e.r5, e.r6, e.lr);
  }

  lemma BodyKeepsFrame(before: seq<byte>, packet: nat, action: Action, ret: Return, sp: nat,
                       after: seq<byte>, trace: seq<Event>, frame: seq<byte>)
    requires |before| == |after| == |ret.memory| == U32 && sp + 16 <= U32
    requires PacketClear(before, packet) && Ring.Sound(MailboxAt(before))
    requires Done(before, packet, action, ret, sp, after, trace) && before[sp..sp + 16] == frame
    requires !Overlap(sp, 16, MESSAGE, 9) && !Overlap(sp, 16, MAILBOX, MAILBOX_END - MAILBOX)
    ensures after[sp..sp + 16] == frame
  {
    match action
    case Banner =>
    case Reply(value) =>
      StoreOnly(before, MESSAGE, Reply8(before, value));
      SameSlice(before, after, sp, sp + 16);
    case Call(pc, a, b, c) =>
      var m := AfterCall(before, ret, sp);
      StoreOnly(ret.memory, sp, frame);
      StoreOnly(m, MESSAGE, Reply8(m, ret.r0));
      SameSlice(m, after, sp, sp + 16);
    case Input =>
      SameSlice(before, after, sp, sp + 16);
  }

  lemma BodyConfined(first: seq<byte>, before: seq<byte>, packet: nat, action: Action, ret: Return,
                     sp: nat, after: seq<byte>, trace: seq<Event>)
    requires |before| == |after| == |ret.memory| == U32 && sp + 16 <= U32
    requires PacketClear(before, packet) && Ring.Sound(MailboxAt(before))
    requires Done(before, packet, action, ret, sp, after, trace)
    requires Only(first, before, sp, sp + 16)
    ensures action.Call? || Confined(first, after, sp + 16)
  {
    match action
    case Banner =>
    case Reply(value) => StoreOnly(before, MESSAGE, Reply8(before, value));
    case Call(_, _, _, _) =>
    case Input =>
  }

  /**
   The call gate: whatever the packet, the handler makes at most one indirect call, to a word-
   aligned address in the safe window, and after it stores to the message buffer only.
   */
  lemma CallsGated(e: Entry, pushed: seq<byte>, system: SystemRegisters, ret: Return,
                   after: seq<byte>, trace: seq<Event>)
    requires Handled(e, pushed, system, ret, after, trace)
    ensures forall i | 0 <= i < |trace| && trace[i].Called? ::
              i == 0 && trace[i].pc % 4 == 0 && 0x0100_0000 <= trace[i].pc < 0x0200_0000
    ensures |trace| > 0 && trace[0].Called? ==>
              forall i | 0 <= i < U32 && !(e.sp - 16 <= i < e.sp)
                         && !(0x0081_763C <= i < 0x0081_7645) :: after[i] == ret.memory[i]
  {
    var action := Decide(pushed, e.packet, system, e.sp - 16);
    DecidesGated(pushed, e.packet, system, e.sp - 16);
    if action.Call? {
      AfterReturn(pushed, ret, e.sp - 16, after);
    }
  }

  lemma DecidesGated(mem: seq<byte>, packet: nat, system: SystemRegisters, sp: word)
    requires |mem| == U32 && packet + 24 <= U32
    ensures Decide(mem, packet, system, sp).Call? ==> Callable(Decide(mem, packet, system, sp).pc)
  {
  }

  /** Between the call's return and the end, only the message buffer is stored to. */
  lemma AfterReturn(pushed: seq<byte>, ret: Return, sp: nat, after: seq<byte>)
    requires |pushed| == |ret.memory| == U32 && sp + 16 <= U32
    requires var m := AfterCall(pushed, ret, sp); after == Store(m, MESSAGE, Reply8(m, ret.r0))
    ensures forall i | 0 <= i < U32 && !(sp <= i < sp + 16) && !(MESSAGE <= i < MESSAGE + 9) ::
              after[i] == ret.memory[i]
  {
    var m := AfterCall(pushed, ret, sp);
    StoreOnly(ret.memory, sp, pushed[sp..sp + 16]);
    StoreOnly(m, MESSAGE, Reply8(m, ret.r0));
  }

  lemma BodyDelivers(first: seq<byte>, before: seq<byte>, packet: nat, action: Action, ret: Return,
                     sp: nat, after: seq<byte>, trace: seq<Event>)
    requires |before| == |after| == |ret.memory| == U32 && sp + 16 <= U32
    requires Done(before, packet, action, ret, sp, after, trace) && PacketClear(first, packet)
    requires MailboxAt(first) == MailboxAt(before) && Args(first, packet) == Args(before, packet)
    ensures action.Call? || MailboxAt(after) == Delivered(first, packet, action)
  {
    if action.Reply? {
      StoreOnly(before, MESSAGE, Reply8(before, action.value));
      MailboxSame(before, after);
    }
  }

  lemma Quarters(a: seq<byte>, b: seq<byte>, c: seq<byte>, d: seq<byte>, s: seq<byte>)
    requires |a| == |b| == |c| == |d| == 4 && s == a + b + c + d
    ensures s[0..4] == a && s[4..8] == b && s[8..12] == c && s[12..16] == d
  {
  }

  lemma FrameWords(m: seq<byte>, sp: nat, a: word, b: word, c: word, d: word)
    requires sp + 16 <= |m| && m[sp..sp + 16] == Le(a, 4) + Le(b, 4) + Le(c, 4) + Le(d, 4)
    ensures Word(m, sp) == a && Word(m, sp + 4) == b
    ensures Word(m, sp + 8) == c && Word(m, sp + 12) == d
  {
    Quarters(Le(a, 4), Le(b, 4), Le(c, 4), Le(d, 4), m[sp..sp + 16]);
    FrameWord(m, sp, 0, a);
    FrameWord(m, sp, 4, b);
    FrameWord(m, sp, 8, c);
    FrameWord(m, sp, 12, d);
  }

  lemma FrameWord(m: seq<byte>, sp: nat, i: nat, w: word)
    requires sp + 16 <= |m| && i + 4 <= 16 && m[sp..sp + 16][i..i + 4] == Le(w, 4)
    ensures Word(m, sp + i) == w
  {
    SubSlice(m, sp, sp + 16, i, i + 4);
    OctetPowers();
    LeRoundTrip(w, 4);
  }
}
