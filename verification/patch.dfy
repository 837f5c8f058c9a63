/** The image builder's patches: in place, over the stock programmer image. */
module Patch {
  import opened Bytes
  import opened Memory

  const STOCK_LOAD_BASE: nat := 0x0080_0000
  const SOURCE_SIZE: nat := 105_928
  const TRAMPOLINE_OFFSET: nat := 0x1_0DBC
  const HANDLER_ADDR: word := 0x0081_1374
  const HANDLER_OFFSET: nat := 0x1_1374
  const INPUT_HANDLER_ADDR: word := 0x0081_1594
  const INPUT_HANDLER_OFFSET: nat := 0x1_1594
  const BANNER_ADDR: word := 0x0081_1768
  const BANNER_OFFSET: nat := 0x1_1768
  const COMMAND_TABLE_OFFSET: nat := 0x1_9700
  const COMMAND_TABLE_ENTRIES: nat := 28
  const MESSAGE_OFFSET: nat := 0x1_763C

  /** "K3765-S0-V1" and NUL. */
  function Banner(): (b: seq<byte>)
    ensures |b| == 12
  {
    [0x4B, 0x33, 0x37, 0x36, 0x35, 0x2D, 0x53, 0x30, 0x2D, 0x56, 0x31, 0x00]
  }

  /** "Invalid Command" and NUL. */
  function OldMessage(): (m: seq<byte>)
    ensures |m| == 16
  {
    [0x49, 0x6E, 0x76, 0x61, 0x6C, 0x69, 0x64, 0x20,
     0x43, 0x6F, 0x6D, 0x6D, 0x61, 0x6E, 0x64, 0x00]
  }

  /** Eight '0' characters, zero-filled to the old length. */
  function NewMessage(): (m: seq<byte>)
    ensures |m| == 16
    ensures forall i | 0 <= i < 16 :: m[i] == if i < 8 then 0x30 else 0
  {
    seq(8, i => 0x30) + seq(8, i => 0x00)
  }

  datatype Code = Code(trampoline: seq<byte>, handler: seq<byte>, input: seq<byte>)

  /** The length guards. */
  predicate CodeFits(c: Code) {
    && HANDLER_ADDR + |c.handler| <= INPUT_HANDLER_ADDR
    && INPUT_HANDLER_ADDR + |c.input| <= BANNER_ADDR
    && |c.trampoline| == 4
  }

  /** The stock table holds only pointers into the image. */
  predicate TableVerified(stock: seq<byte>) {
    && |stock| == SOURCE_SIZE
    && forall k | 0 <= k < COMMAND_TABLE_ENTRIES :: EntryVerified(stock, k)
  }

  predicate EntryVerified(stock: seq<byte>, k: nat)
    requires |stock| == SOURCE_SIZE && k < COMMAND_TABLE_ENTRIES
  {
    STOCK_LOAD_BASE <= Word(stock, COMMAND_TABLE_OFFSET + 4 * k) < STOCK_LOAD_BASE + |stock|
  }

  function Table(n: nat): (t: seq<byte>)
    ensures |t| == 4 * n
  {
    if n == 0 then [] else Table(n - 1) + Le(HANDLER_ADDR, 4)
  }

  datatype Outcome =
    | Built
    | BadSource
    | HandlerOverlaps
    | InputOverlaps
    | BadTrampoline
    | BadTable
    | BadMessage
    | OutsideChange

  /** Offsets the builder means to change. */
  predicate Allowed(c: Code, i: int) {
    || 0x1_1374 <= i < 0x1_1374 + |c.handler|
    || 0x1_0DBC <= i < 0x1_0DBC + |c.trampoline|
    || 0x1_1594 <= i < 0x1_1594 + |c.input|
    || 0x1_1768 <= i < 0x1_1768 + 12
    || 0x1_9700 <= i < 0x1_9700 + 28 * 4
    || 0x1_763C <= i < 0x1_763C + 16
  }

  /** Nothing but the meant offsets differs from stock. */
  predicate Framed(stock: seq<byte>, image: seq<byte>, c: Code) {
    && |stock| == |image|
    && forall i | 0 <= i < |stock| && !Allowed(c, i) :: image[i] == stock[i]
  }

  predicate ReadsBack(image: seq<byte>, offset: nat, s: seq<byte>) {
    offset + |s| <= |image| && image[offset..offset + |s|] == s
  }

  /** Every patch is in the image. */
  predicate AllPatched(image: seq<byte>, c: Code) {
    && |image| == SOURCE_SIZE
    && ReadsBack(image, 0x1_0DBC, c.trampoline)
    && ReadsBack(image, 0x1_1374, c.handler)
    && ReadsBack(image, 0x1_1594, c.input)
    && ReadsBack(image, 0x1_1768, Banner())
    && ReadsBack(image, 0x1_763C, NewMessage())
    && forall k | 0 <= k < 28 :: Word(image, 0x1_9700 + 4 * k) == 0x0081_1374
  }

  /** The four code and banner slices. */
  function WithCode(stock: seq<byte>, c: Code): (m: seq<byte>)
    requires |stock| == SOURCE_SIZE && CodeFits(c)
    ensures |m| == SOURCE_SIZE
  {
    Store(Store(Store(Store(stock, TRAMPOLINE_OFFSET, c.trampoline),
                      HANDLER_OFFSET, c.handler),
                INPUT_HANDLER_OFFSET, c.input),
          BANNER_OFFSET, Banner())
  }

  method PatchCode(data: array<byte>, c: Code, ghost stock: seq<byte>)
    requires |stock| == SOURCE_SIZE && CodeFits(c) && data[..] == stock
    modifies data
    ensures data[..] == WithCode(stock, c)
  {
    StoreInto(data, TRAMPOLINE_OFFSET, c.trampoline);
    StoreInto(data, HANDLER_OFFSET, c.handler);
    StoreInto(data, INPUT_HANDLER_OFFSET, c.input);
    StoreInto(data, BANNER_OFFSET, Banner());
  }

  lemma TableNext(m: seq<byte>, k: nat)
    requires |m| == SOURCE_SIZE && k < COMMAND_TABLE_ENTRIES
    ensures Store(Store(m, COMMAND_TABLE_OFFSET, Table(k)), COMMAND_TABLE_OFFSET + 4 * k,
                  Le(HANDLER_ADDR, 4))
         == Store(m, COMMAND_TABLE_OFFSET, Table(k + 1))
  {
    StoreConcat(m, COMMAND_TABLE_OFFSET, Table(k), Le(HANDLER_ADDR, 4));
  }

  lemma StoreConcat(m: seq<byte>, a: nat, s: seq<byte>, t: seq<byte>)
    requires a + |s| + |t| <= |m|
    ensures Store(Store(m, a, s), a + |s|, t) == Store(m, a, s + t)
  {
  }

  /** The command table loop: every entry is checked in the stock image, then redirected. */
  method PatchTable(data: array<byte>, stock: seq<byte>, ghost before: seq<byte>)
    returns (ok: bool)
    requires |stock| == SOURCE_SIZE && |before| == SOURCE_SIZE && data[..] == before
    modifies data
    ensures ok <==> TableVerified(stock)
    ensures ok ==> data[..] == Store(before, COMMAND_TABLE_OFFSET, Table(COMMAND_TABLE_ENTRIES))
  {
    var index := 0;
    assert Store(before, COMMAND_TABLE_OFFSET, Table(0)) == before;
    while index < COMMAND_TABLE_ENTRIES
      invariant 0 <= index <= COMMAND_TABLE_ENTRIES
      invariant data[..] == Store(before, COMMAND_TABLE_OFFSET, Table(index))
      invariant forall k | 0 <= k < index :: EntryVerified(stock, k)
    {
      var offset := COMMAND_TABLE_OFFSET + index * 4;
      var original := Word(stock, offset);
      if !(STOCK_LOAD_BASE <= original < STOCK_LOAD_BASE + |stock|) {
        assert !EntryVerified(stock, index);
        return false;
      }
      TableNext(before, index);
      StoreInto(data, offset, Le(HANDLER_ADDR, 4));
      index := index + 1;
    }
    return true;
  }

  /** The image after every patch. */
  function Patched(stock: seq<byte>, c: Code): (m: seq<byte>)
    requires |stock| == SOURCE_SIZE && CodeFits(c)
    ensures |m| == SOURCE_SIZE
  {
    Store(WithTable(stock, c), MESSAGE_OFFSET, NewMessage())
  }

  function WithTable(stock: seq<byte>, c: Code): (m: seq<byte>)
    requires |stock| == SOURCE_SIZE && CodeFits(c)
    ensures |m| == SOURCE_SIZE
  {
    Store(WithCode(stock, c), COMMAND_TABLE_OFFSET, Table(COMMAND_TABLE_ENTRIES))
  }

  /** A later patch leaves an earlier one readable when the two do not overlap. */
  lemma ReadsStill(m: seq<byte>, offset: nat, s: seq<byte>, at: nat, t: seq<byte>)
    requires ReadsBack(m, offset, s) && at + |t| <= |m|
    requires at + |t| <= offset || offset + |s| <= at
    ensures ReadsBack(Store(m, at, t), offset, s)
  {
    StoreOnly(m, at, t);
    SameSlice(m, Store(m, at, t), offset, offset + |s|);
  }

  lemma CodeReadsBack(stock: seq<byte>, c: Code)
    requires |stock| == SOURCE_SIZE && CodeFits(c)
    ensures ReadsBack(WithCode(stock, c), TRAMPOLINE_OFFSET, c.trampoline)
    ensures ReadsBack(WithCode(stock, c), HANDLER_OFFSET, c.handler)
    ensures ReadsBack(WithCode(stock, c), INPUT_HANDLER_OFFSET, c.input)
    ensures ReadsBack(WithCode(stock, c), BANNER_OFFSET, Banner())
  {
    var m1 := Store(stock, TRAMPOLINE_OFFSET, c.trampoline);
    var m2 := Store(m1, HANDLER_OFFSET, c.handler);
    var m3 := Store(m2, INPUT_HANDLER_OFFSET, c.input);
    StoreOnly(stock, TRAMPOLINE_OFFSET, c.trampoline);
    StoreOnly(m1, HANDLER_OFFSET, c.handler);
    StoreOnly(m2, INPUT_HANDLER_OFFSET, c.input);
    StoreOnly(m3, BANNER_OFFSET, Banner());
    ReadsStill(m1, TRAMPOLINE_OFFSET, c.trampoline, HANDLER_OFFSET, c.handler);
    ReadsStill(m2, TRAMPOLINE_OFFSET, c.trampoline, INPUT_HANDLER_OFFSET, c.input);
    ReadsStill(m3, TRAMPOLINE_OFFSET, c.trampoline, BANNER_OFFSET, Banner());
    ReadsStill(m2, HANDLER_OFFSET, c.handler, INPUT_HANDLER_OFFSET, c.input);
    ReadsStill(m3, HANDLER_OFFSET, c.handler, BANNER_OFFSET, Banner());
    ReadsStill(m3, INPUT_HANDLER_OFFSET, c.input, BANNER_OFFSET, Banner());
  }

  lemma {:induction false} TableAt(n: nat, k: nat)
    requires k < n
    ensures Table(n)[4 * k..4 * k + 4] == Le(HANDLER_ADDR, 4)
    decreases n
  {
    if k < n - 1 {
      TableAt(n - 1, k);
      assert Table(n)[4 * k..4 * k + 4] == Table(n - 1)[4 * k..4 * k + 4];
    }
  }

  lemma EntryReads(m: seq<byte>, table: seq<byte>, k: nat)
    requires ReadsBack(m, COMMAND_TABLE_OFFSET, table) && 4 * k + 4 <= |table|
    requires table[4 * k..4 * k + 4] == Le(HANDLER_ADDR, 4)
    ensures Word(m, COMMAND_TABLE_OFFSET + 4 * k) == HANDLER_ADDR
  {
    SubSlice(m, COMMAND_TABLE_OFFSET, COMMAND_TABLE_OFFSET + |table|, 4 * k, 4 * k + 4);
    OctetPowers();
    LeRoundTrip(HANDLER_ADDR, 4);
  }

  /** Every patched region reads back what was written, and every table entry is the handler. */
  lemma PatchedReadsBack(stock: seq<byte>, c: Code)
    requires |stock| == SOURCE_SIZE && CodeFits(c)
    ensures AllPatched(Patched(stock, c), c)
  {
    var m4, m5, m6 := WithCode(stock, c), WithTable(stock, c), Patched(stock, c);
    var table, n := Table(COMMAND_TABLE_ENTRIES), COMMAND_TABLE_ENTRIES;
    CodeReadsBack(stock, c);
    StoreOnly(m4, COMMAND_TABLE_OFFSET, table);
    StoreOnly(m5, MESSAGE_OFFSET, NewMessage());
    BothReadsStill(m4, m5, m6, TRAMPOLINE_OFFSET, c.trampoline, table);
    BothReadsStill(m4, m5, m6, HANDLER_OFFSET, c.handler, table);
    BothReadsStill(m4, m5, m6, INPUT_HANDLER_OFFSET, c.input, table);
    BothReadsStill(m4, m5, m6, BANNER_OFFSET, Banner(), table);
    ReadsStill(m5, COMMAND_TABLE_OFFSET, table, MESSAGE_OFFSET, NewMessage());
    forall k | 0 <= k < n ensures Word(m6, COMMAND_TABLE_OFFSET + 4 * k) == HANDLER_ADDR {
      TableAt(n, k);
      EntryReads(m6, table, k);
    }
  }

  lemma BothReadsStill(m4: seq<byte>, m5: seq<byte>, m6: seq<byte>, offset: nat, s: seq<byte>,
                       table: seq<byte>)
    requires |m4| == SOURCE_SIZE && |table| == 4 * COMMAND_TABLE_ENTRIES
    requires m5 == Store(m4, COMMAND_TABLE_OFFSET, table)
    requires m6 == Store(m5, MESSAGE_OFFSET, NewMessage())
    requires ReadsBack(m4, offset, s) && offset + |s| <= MESSAGE_OFFSET
    ensures ReadsBack(m6, offset, s)
  {
    ReadsStill(m4, offset, s, COMMAND_TABLE_OFFSET, table);
    ReadsStill(m5, offset, s, MESSAGE_OFFSET, NewMessage());
  }

  lemma FramedStep(stock: seq<byte>, m: seq<byte>, c: Code, offset: nat, s: seq<byte>)
    requires Framed(stock, m, c) && offset + |s| <= |m|
    requires forall i | offset <= i < offset + |s| :: Allowed(c, i)
    ensures Framed(stock, Store(m, offset, s), c)
  {
    StoreOnly(m, offset, s);
  }

  /** Every other byte is the stock byte. */
  lemma PatchedFramed(stock: seq<byte>, c: Code)
    requires |stock| == SOURCE_SIZE && CodeFits(c)
    ensures Framed(stock, Patched(stock, c), c)
  {
    var m1 := Store(stock, TRAMPOLINE_OFFSET, c.trampoline);
    var m2 := Store(m1, HANDLER_OFFSET, c.handler);
    var m3 := Store(m2, INPUT_HANDLER_OFFSET, c.input);
    FramedStep(stock, stock, c, TRAMPOLINE_OFFSET, c.trampoline);
    FramedStep(stock, m1, c, HANDLER_OFFSET, c.handler);
    FramedStep(stock, m2, c, INPUT_HANDLER_OFFSET, c.input);
    FramedStep(stock, m3, c, BANNER_OFFSET, Banner());
    FramedStep(stock, WithCode(stock, c), c, COMMAND_TABLE_OFFSET, Table(COMMAND_TABLE_ENTRIES));
    FramedStep(stock, WithTable(stock, c), c, MESSAGE_OFFSET, NewMessage());
  }

  /** The message region is still stock when the builder checks it. */
  lemma MessageStillStock(stock: seq<byte>, c: Code)
    requires |stock| == SOURCE_SIZE && CodeFits(c)
    ensures WithTable(stock, c)[MESSAGE_OFFSET..MESSAGE_OFFSET + 16]
         == stock[MESSAGE_OFFSET..MESSAGE_OFFSET + 16]
  {
    var m1 := Store(stock, TRAMPOLINE_OFFSET, c.trampoline);
    var m2 := Store(m1, HANDLER_OFFSET, c.handler);
    var m3 := Store(m2, INPUT_HANDLER_OFFSET, c.input);
    var s := stock[MESSAGE_OFFSET..MESSAGE_OFFSET + 16];
    ReadsStill(stock, MESSAGE_OFFSET, s, TRAMPOLINE_OFFSET, c.trampoline);
    ReadsStill(m1, MESSAGE_OFFSET, s, HANDLER_OFFSET, c.handler);
    ReadsStill(m2, MESSAGE_OFFSET, s, INPUT_HANDLER_OFFSET, c.input);
    ReadsStill(m3, MESSAGE_OFFSET, s, BANNER_OFFSET, Banner());
    ReadsStill(WithCode(stock, c), MESSAGE_OFFSET, s, COMMAND_TABLE_OFFSET,
               Table(COMMAND_TABLE_ENTRIES));
  }

  /** The final comparison with the stock image. */
  method ChangedOutside(stock: seq<byte>, data: array<byte>, c: Code) returns (found: bool)
    requires |stock| == data.Length
    ensures found <==> !Framed(stock, data[..], c)
  {
    var i := 0;
    while i < |stock|
      invariant 0 <= i <= |stock|
      invariant forall j | 0 <= j < i && !Allowed(c, j) :: data[..][j] == stock[j]
    {
      if stock[i] != data[i] && !Allowed(c, i) {
        assert data[..][i] != stock[i];
        return true;
      }
      i := i + 1;
    }
    return false;
  }

  /** What the builder accepts; verified stands for its hash comparison. */
  predicate Buildable(stock: seq<byte>, c: Code, verified: bool) {
    && |stock| == SOURCE_SIZE && verified && CodeFits(c) && TableVerified(stock)
    && ReadsBack(stock, MESSAGE_OFFSET, OldMessage())
  }

  /** The table's entry k, and the message, as they lie in a stock image. */
  predicate StockReads(stock: seq<byte>) {
    && |stock| == 105_928
    && (forall k | 0 <= k < 28 :: 0x0080_0000 <= Word(stock, 0x1_9700 + 4 * k) < 0x0081_9DC8)
    && stock[0x1_763C..0x1_764C] == [0x49, 0x6E, 0x76, 0x61, 0x6C, 0x69, 0x64, 0x20,
                                     0x43, 0x6F, 0x6D, 0x6D, 0x61, 0x6E, 0x64, 0x00]
  }

  /**
   What the builder accepts: the verified stock image, whose 28 entries point into it and whose
   message is "Invalid Command", and code that fits the regions reclaimed for it.
   */
  lemma BuildableIff(stock: seq<byte>, c: Code, verified: bool)
    ensures Buildable(stock, c, verified)
       <==> verified && StockReads(stock)
            && |c.trampoline| == 4 && |c.handler| <= 0x220 && |c.input| <= 0x1D4
  {
    if |stock| == 105_928 {
      TableVerifiedIff(stock);
      MessageVerifiedIff(stock);
    }
  }

  lemma TableVerifiedIff(stock: seq<byte>)
    requires |stock| == 105_928
    ensures TableVerified(stock)
       <==> forall k | 0 <= k < 28 :: 0x0080_0000 <= Word(stock, 0x1_9700 + 4 * k) < 0x0081_9DC8
  {
    if TableVerified(stock) {
      forall k | 0 <= k < 28 ensures 0x0080_0000 <= Word(stock, 0x1_9700 + 4 * k) < 0x0081_9DC8 {
        assert EntryVerified(stock, k);
      }
    }
  }

  lemma MessageVerifiedIff(stock: seq<byte>)
    requires |stock| == 105_928
    ensures ReadsBack(stock, MESSAGE_OFFSET, OldMessage())
       <==> stock[0x1_763C..0x1_764C] == [0x49, 0x6E, 0x76, 0x61, 0x6C, 0x69, 0x64, 0x20,
                                          0x43, 0x6F, 0x6D, 0x6D, 0x61, 0x6E, 0x64, 0x00]
  {
    assert MESSAGE_OFFSET + |OldMessage()| == 0x1_764C;
  }

  method Build(stock: seq<byte>, c: Code, verified: bool) returns (outcome: Outcome, data: array<byte>)
    ensures outcome.Built? <==> Buildable(stock, c, verified)
    ensures outcome.BadSource? <==> |stock| != 105_928 || !verified
    ensures outcome.HandlerOverlaps? ==> |c.handler| > 0x220
    ensures outcome.InputOverlaps? ==> |c.handler| <= 0x220 && |c.input| > 0x1D4
    ensures outcome.BadTrampoline? ==> |c.handler| <= 0x220 && |c.input| <= 0x1D4 && |c.trampoline| != 4
    ensures outcome.BadTable? ==> CodeFits(c) && !TableVerified(stock)
    ensures outcome.BadMessage? ==> CodeFits(c) && TableVerified(stock)
                                    && !ReadsBack(stock, MESSAGE_OFFSET, OldMessage())
    ensures outcome.Built? ==> AllPatched(data[..], c) && Framed(stock, data[..], c)
    ensures !outcome.OutsideChange?
  {
    data := new byte[|stock|](i requires 0 <= i < |stock| => stock[i]);
    assert data[..] == stock;
    if |stock| != SOURCE_SIZE || !verified {
      return BadSource, data;
    }
    if HANDLER_ADDR + |c.handler| > INPUT_HANDLER_ADDR {
      return HandlerOverlaps, data;
    }
    if INPUT_HANDLER_ADDR + |c.input| > BANNER_ADDR {
      return InputOverlaps, data;
    }
    if |c.trampoline| != 4 {
      return BadTrampoline, data;
    }
    outcome := Apply(data, stock, c);
  }

  /** From the first slice assignment to the final check. */
  method Apply(data: array<byte>, stock: seq<byte>, c: Code) returns (outcome: Outcome)
    requires |stock| == SOURCE_SIZE && CodeFits(c) && data[..] == stock
    modifies data
    ensures outcome.Built? <==> TableVerified(stock) && ReadsBack(stock, MESSAGE_OFFSET, OldMessage())
    ensures outcome.Built? ==> AllPatched(data[..], c) && Framed(stock, data[..], c)
    ensures outcome in {Built, BadTable, BadMessage}
    ensures outcome.BadTable? <==> !TableVerified(stock)
  {
    PatchCode(data, c, stock);
    var tableOk := PatchTable(data, stock, data[..]);
    if !tableOk {
      return BadTable;
    }
    MessageStillStock(stock, c);
    assert data[..] == WithTable(stock, c);
    if data[..][MESSAGE_OFFSET..MESSAGE_OFFSET + 16] != OldMessage() {
      return BadMessage;
    }
    StoreInto(data, MESSAGE_OFFSET, NewMessage());
    PatchedReadsBack(stock, c);
    PatchedFramed(stock, c);
    assert data[..] == Patched(stock, c);
    var outside := ChangedOutside(stock, data, c);
    outcome := if outside then OutsideChange else Built;
  }
}
