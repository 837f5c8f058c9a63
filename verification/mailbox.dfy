/** The mailbox words at their shared address, seen through single memory stores. */
module SharedMailbox {
  import opened Bytes
  import opened Memory
  import opened Ring

  const MAILBOX: nat := 0x008F_F800
  const HEAD: nat := MAILBOX + 4
  const TAIL: nat := MAILBOX + 8
  const DATA: nat := MAILBOX + 12
  const MAILBOX_END: nat := DATA + SIZE

  function MailboxAt(mem: seq<byte>): (m: Mailbox)
    requires MAILBOX_END <= |mem|
    ensures |m.data| == SIZE
  {
    Mailbox(Word(mem, MAILBOX), Word(mem, HEAD), Word(mem, TAIL), mem[DATA..MAILBOX_END])
  }

  lemma MailboxSame(before: seq<byte>, after: seq<byte>)
    requires MAILBOX_END <= |before| && Same(before, after, MAILBOX, MAILBOX_END)
    ensures MailboxAt(after) == MailboxAt(before)
  {
    WordSame(before, after, MAILBOX);
    WordSame(before, after, HEAD);
    WordSame(before, after, TAIL);
    SameSlice(before, after, DATA, MAILBOX_END);
  }

  lemma WordElsewhere(mem: seq<byte>, a: nat, bytes: seq<byte>, b: nat)
    requires a + |bytes| <= |mem| && b + 4 <= |mem| && (b + 4 <= a || a + |bytes| <= b)
    ensures Word(Store(mem, a, bytes), b) == Word(mem, b)
  {
    StoreOnly(mem, a, bytes);
    WordSame(mem, Store(mem, a, bytes), b);
  }

  lemma DataElsewhere(mem: seq<byte>, a: nat, bytes: seq<byte>)
    requires a + |bytes| <= DATA && MAILBOX_END <= |mem|
    ensures Store(mem, a, bytes)[DATA..MAILBOX_END] == mem[DATA..MAILBOX_END]
  {
    StoreOnly(mem, a, bytes);
    SameSlice(mem, Store(mem, a, bytes), DATA, MAILBOX_END);
  }

  lemma StoreMagic(mem: seq<byte>, w: word)
    requires MAILBOX_END <= |mem|
    ensures MailboxAt(Store(mem, MAILBOX, Le(w, 4))) == MailboxAt(mem).(magic := w)
  {
    WordStored(mem, MAILBOX, w);
    WordElsewhere(mem, MAILBOX, Le(w, 4), HEAD);
    WordElsewhere(mem, MAILBOX, Le(w, 4), TAIL);
    DataElsewhere(mem, MAILBOX, Le(w, 4));
  }

  lemma StoreHead(mem: seq<byte>, w: word)
    requires MAILBOX_END <= |mem|
    ensures MailboxAt(Store(mem, HEAD, Le(w, 4))) == MailboxAt(mem).(head := w)
  {
    WordStored(mem, HEAD, w);
    WordElsewhere(mem, HEAD, Le(w, 4), MAILBOX);
    WordElsewhere(mem, HEAD, Le(w, 4), TAIL);
    DataElsewhere(mem, HEAD, Le(w, 4));
  }

  lemma StoreTail(mem: seq<byte>, w: word)
    requires MAILBOX_END <= |mem|
    ensures MailboxAt(Store(mem, TAIL, Le(w, 4))) == MailboxAt(mem).(tail := w)
  {
    WordStored(mem, TAIL, w);
    WordElsewhere(mem, TAIL, Le(w, 4), MAILBOX);
    WordElsewhere(mem, TAIL, Le(w, 4), HEAD);
    DataElsewhere(mem, TAIL, Le(w, 4));
  }

  lemma StoreSlot(mem: seq<byte>, i: nat, b: byte)
    requires MAILBOX_END <= |mem| && i < SIZE
    ensures MailboxAt(Store(mem, DATA + i, [b]))
         == MailboxAt(mem).(data := MailboxAt(mem).data[i := b])
  {
    var after := Store(mem, DATA + i, [b]);
    WordElsewhere(mem, DATA + i, [b], MAILBOX);
    WordElsewhere(mem, DATA + i, [b], HEAD);
    WordElsewhere(mem, DATA + i, [b], TAIL);
    var d := mem[DATA..MAILBOX_END];
    forall k | 0 <= k < SIZE ensures after[DATA..MAILBOX_END][k] == d[i := b][k] {
      assert after[DATA..MAILBOX_END][k] == after[DATA + k] && d[k] == mem[DATA + k];
    }
    assert after[DATA..MAILBOX_END] == d[i := b];
  }

  /** Where the handler stores for a head word as it was loaded, with 32-bit wrap-around. */
  function SlotAddress(head: word): (a: nat)
    ensures a < U32
    ensures DATA <= a < MAILBOX_END <==> head < SIZE
  {
    (DATA + head) % U32
  }

  predicate InRing(a: nat) {
    DATA <= a < MAILBOX_END
  }

  /**
   The handler's store loop on memory, for any head and tail words: the memory and head it ends
   with, and the addresses it has stored to. Only the first of them uses an unmasked head.
   */
  function RawFill(mem: seq<byte>, head: word, tail: word, at: nat, left: nat)
    : (r: (seq<byte>, word, seq<nat>))
    requires |mem| == U32 && at + left < U32
    ensures |r.0| == U32
    decreases left
  {
    if left == 0 || Next(head) == tail then (mem, head, [])
    else
      var a := SlotAddress(head);
      var (m, end, stores) := RawFill(Store(mem, a, [mem[at]]), Next(head), tail, at + 1, left - 1);
      (m, end, [a] + stores)
  }

  predicate AllInRing(stores: seq<nat>) {
    forall i | 0 <= i < |stores| :: InRing(stores[i])
  }

  /** The stores stay in the ring exactly if there is none or the first one does. */
  lemma {:induction false} RawFillInRingIff(mem: seq<byte>, head: word, tail: word, at: nat, left: nat)
    requires |mem| == U32 && at + left < U32
    ensures AllInRing(RawFill(mem, head, tail, at, left).2)
       <==> left == 0 || Next(head) == tail || head < SIZE
    decreases left
  {
    if left > 0 && Next(head) != tail {
      var a := SlotAddress(head);
      var next := Store(mem, a, [mem[at]]);
      RawFillInRingIff(next, Next(head), tail, at + 1, left - 1);
      FirstInRing(a, RawFill(next, Next(head), tail, at + 1, left - 1).2);
    }
  }

  lemma FirstInRing(a: nat, stores: seq<nat>)
    ensures AllInRing([a] + stores) <==> InRing(a) && AllInRing(stores)
  {
    var all := [a] + stores;
    if AllInRing(all) {
      assert InRing(all[0]);
      forall i | 0 <= i < |stores| ensures InRing(stores[i]) { assert InRing(all[i + 1]); }
    }
  }

  /** m and end are what the ring's fill makes of the mailbox in mem, and nothing else differs. */
  predicate IsFill(mem: seq<byte>, head: nat, tail: nat, bytes: seq<byte>, m: seq<byte>, end: nat) {
    && |mem| == |m| == U32 && head < SIZE && Only(mem, m, MAILBOX, MAILBOX_END) &&
    var (data, end') := Fill(MailboxAt(mem).data, head, tail, bytes);
    end == end' && MailboxAt(m) == MailboxAt(mem).(data := data)
  }

  lemma FillOne(mem: seq<byte>, next: seq<byte>, head: nat, tail: nat, bytes: seq<byte>,
                m: seq<byte>, end: nat)
    requires head < SIZE && bytes != [] && Next(head) != tail && |mem| == U32
    requires Only(mem, next, MAILBOX, MAILBOX_END)
    requires MailboxAt(next) == MailboxAt(mem).(data := MailboxAt(mem).data[head := bytes[0]])
    requires IsFill(next, Next(head), tail, bytes[1..], m, end)
    ensures IsFill(mem, head, tail, bytes, m, end)
  {
  }

  lemma SlotOf(head: nat)
    requires head < SIZE
    ensures SlotAddress(head) == DATA + head
  {
  }

  lemma StoreOne(mem: seq<byte>, head: word, at: nat, bytes: seq<byte>) returns (next: seq<byte>)
    requires |mem| == U32 && head < SIZE && bytes != []
    requires at + |bytes| < U32 && mem[at..at + |bytes|] == bytes
    requires at + |bytes| <= MAILBOX || MAILBOX_END <= at
    ensures next == Store(mem, SlotAddress(head), [mem[at]])
    ensures Only(mem, next, MAILBOX, MAILBOX_END)
    ensures MailboxAt(next) == MailboxAt(mem).(data := MailboxAt(mem).data[head := bytes[0]])
    ensures next[at + 1..at + 1 + |bytes[1..]|] == bytes[1..]
  {
    SlotOf(head);
    assert mem[at] == bytes[0] by { assert mem[at] == mem[at..at + |bytes|][0]; }
    next := StoreAt(mem, head, bytes[0]);
    LaterBytes(mem, next, at, bytes);
  }

  lemma StoreAt(mem: seq<byte>, head: nat, b: byte) returns (next: seq<byte>)
    requires |mem| == U32 && head < SIZE
    ensures next == Store(mem, DATA + head, [b]) && Only(mem, next, MAILBOX, MAILBOX_END)
    ensures MailboxAt(next) == MailboxAt(mem).(data := MailboxAt(mem).data[head := b])
  {
    next := Store(mem, DATA + head, [b]);
    StoreSlot(mem, head, b);
    StoreOnly(mem, DATA + head, [b]);
  }

  /** With the head in range the loop is the ring's fill, and touches nothing but the mailbox. */
  lemma {:induction false} RawFillIsFill(mem: seq<byte>, head: word, tail: word, at: nat, bytes: seq<byte>)
    requires |mem| == U32 && head < SIZE && at + |bytes| < U32 && mem[at..at + |bytes|] == bytes
    requires at + |bytes| <= MAILBOX || MAILBOX_END <= at
    ensures var (m, end, _) := RawFill(mem, head, tail, at, |bytes|);
            IsFill(mem, head, tail, bytes, m, end)
    decreases |bytes|
  {
    var (m, end, stores) := RawFill(mem, head, tail, at, |bytes|);
    if bytes != [] && Next(head) != tail {
      var next := StoreOne(mem, head, at, bytes);
      RawFillIsFill(next, Next(head), tail, at + 1, bytes[1..]);
      FillOne(mem, next, head, tail, bytes, m, end);
    }
  }

  lemma LaterBytes(mem: seq<byte>, next: seq<byte>, at: nat, bytes: seq<byte>)
    requires Only(mem, next, MAILBOX, MAILBOX_END) && at + |bytes| <= |mem| && bytes != []
    requires mem[at..at + |bytes|] == bytes && (at + |bytes| <= MAILBOX || MAILBOX_END <= at)
    ensures next[at + 1..at + 1 + |bytes[1..]|] == bytes[1..]
  {
    SameSlice(mem, next, at + 1, at + |bytes|);
    SubSlice(mem, at, at + |bytes|, 1, |bytes|);
  }
}
