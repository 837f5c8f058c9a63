/** The host's side of the monitor protocol: requests it lets through and replies it reads. */
module Host {
  import opened Bytes
  import opened Memory
  import Hexadecimal
  import Crc32
  import Monitor
  import Patch
  import Polynomial

  /** The bounds check of target_crc_query, on any integers. */
  predicate QueryAllowed(address: int, length: int) {
    && Monitor.SAFE_RAM_START <= address < Monitor.SAFE_RAM_END
    && length >= 0 && address + length <= Monitor.SAFE_RAM_END
  }

  function QueryPayload(address: word, length: word): (p: seq<byte>)
    ensures |p| == 10
  {
    [0x1C, 0x0C] + (Le(address, 4) + Le(length, 4))
  }

  /** The check of stage2_request. */
  predicate CallAllowed(address: int) {
    address % 4 == 0 && Monitor.SAFE_RAM_START <= address < Monitor.SAFE_RAM_END
  }

  function CallPayload(address: word, a: word, b: word, c: word): (p: seq<byte>)
    ensures |p| == 18
  {
    [0x1C, 0x0D] + (Le(address, 4) + Le(a, 4) + Le(b, 4) + Le(c, 4))
  }

  /** The decoded payload as the handler finds it: length at packet + 4, bytes from packet + 6. */
  predicate Placed(mem: seq<byte>, packet: nat, payload: seq<byte>) {
    && packet + 24 <= |mem| == U32 && packet + 6 + |payload| <= U32
    && Half(mem, packet + 4) == |payload|
    && mem[packet + 6..packet + 6 + |payload|] == payload
  }

  lemma PlacedByte(mem: seq<byte>, packet: nat, payload: seq<byte>, i: nat)
    requires Placed(mem, packet, payload) && i < |payload|
    ensures mem[packet + 6 + i] == payload[i]
  {
    assert mem[packet + 6..packet + 6 + |payload|][i] == mem[packet + 6 + i];
  }

  lemma PlacedWord(mem: seq<byte>, packet: nat, payload: seq<byte>, i: nat, w: word)
    requires Placed(mem, packet, payload) && i + 4 <= |payload| && payload[i..i + 4] == Le(w, 4)
    ensures Word(mem, packet + 6 + i) == w
  {
    SubSlice(mem, packet + 6, packet + 6 + |payload|, i, i + 4);
    OctetPowers();
    LeRoundTrip(w, 4);
  }

  lemma Blocks(a: seq<byte>, b: seq<byte>, c: seq<byte>, d: seq<byte>, head: seq<byte>, s: seq<byte>)
    requires |head| == 2 && |a| == |b| == |c| == |d| == 4 && s == head + (a + b + c + d)
    ensures s[2..6] == a && s[6..10] == b && s[10..14] == c && s[14..18] == d
  {
  }

  /** A query is 1C 0C, the address and the length, little-endian. */
  lemma QueryLayout(address: word, length: word)
    ensures var p := QueryPayload(address, length);
            p[..2] == [0x1C, 0x0C] && FromLe(p[2..6]) == address && FromLe(p[6..10]) == length
  {
    var p := QueryPayload(address, length);
    assert p[2..6] == Le(address, 4) && p[6..10] == Le(length, 4);
    OctetPowers();
    LeRoundTrip(address, 4);
    LeRoundTrip(length, 4);
  }

  /** A call is 1C 0D, the address and three argument words, little-endian. */
  lemma CallLayout(address: word, a: word, b: word, c: word)
    ensures var p := CallPayload(address, a, b, c);
            && p[..2] == [0x1C, 0x0D] && FromLe(p[2..6]) == address
            && FromLe(p[6..10]) == a && FromLe(p[10..14]) == b && FromLe(p[14..18]) == c
  {
    Blocks(Le(address, 4), Le(a, 4), Le(b, 4), Le(c, 4), [0x1C, 0x0D], CallPayload(address, a, b, c));
    OctetPowers();
    LeRoundTrip(address, 4);
    LeRoundTrip(a, 4);
    LeRoundTrip(b, 4);
    LeRoundTrip(c, 4);
  }

  /** Every query the host lets through, the target answers with the CRC-32 of that range. */
  lemma QueryAgrees(mem: seq<byte>, packet: nat, system: Monitor.SystemRegisters, sp: word,
                    address: word, length: word)
    requires QueryAllowed(address, length) && Placed(mem, packet, QueryPayload(address, length))
    ensures Monitor.InWindow(address, length)
    ensures Monitor.Decide(mem, packet, system, sp)
         == Monitor.Reply(Monitor.Checksum(mem[address..address + length]))
  {
    var payload := QueryPayload(address, length);
    PlacedByte(mem, packet, payload, 0);
    PlacedByte(mem, packet, payload, 1);
    assert payload[2..6] == Le(address, 4) && payload[6..10] == Le(length, 4);
    PlacedWord(mem, packet, payload, 2, address);
    PlacedWord(mem, packet, payload, 6, length);
    QueryDecides(mem, packet, system, sp, address, length);
  }

  lemma QueryDecides(mem: seq<byte>, packet: nat, system: Monitor.SystemRegisters, sp: word,
                     address: word, length: word)
    requires QueryAllowed(address, length) && |mem| == U32 && packet + 24 <= U32
    requires Monitor.Length(mem, packet) >= 2 && mem[packet + 6] == 0x1C && mem[packet + 7] == 0x0C
    requires Word(mem, packet + 8) == address && Word(mem, packet + 12) == length
    ensures Monitor.InWindow(address, length)
    ensures Monitor.Decide(mem, packet, system, sp)
         == Monitor.Reply(Monitor.Checksum(mem[address..address + length]))
  {
  }

  /** The target accepts one query more than the host: the empty range at the window's end. */
  lemma QueryBounds(address: word, length: word)
    ensures Monitor.InWindow(address, length)
       <==> 0x0100_0000 <= address <= 0x0200_0000 && length <= 0x0200_0000 - address
    ensures QueryAllowed(address, length)
       <==> Monitor.InWindow(address, length)
            && !(address == Monitor.SAFE_RAM_END && length == 0)
  {
  }

  /** The host's call check is the target's, and the call reaches the target as it was asked for. */
  lemma CallAgrees(mem: seq<byte>, packet: nat, system: Monitor.SystemRegisters, sp: word,
                   address: word, a: word, b: word, c: word)
    requires Placed(mem, packet, CallPayload(address, a, b, c))
    ensures CallAllowed(address) <==> address % 4 == 0 && 0x0100_0000 <= address < 0x0200_0000
    ensures Monitor.Decide(mem, packet, system, sp)
         == if CallAllowed(address) then Monitor.Call(address, a, b, c) else Monitor.Reply(0xBAD0_0001)
  {
    var payload := CallPayload(address, a, b, c);
    PlacedByte(mem, packet, payload, 0);
    PlacedByte(mem, packet, payload, 1);
    Blocks(Le(address, 4), Le(a, 4), Le(b, 4), Le(c, 4), [0x1C, 0x0D], payload);
    PlacedWord(mem, packet, payload, 2, address);
    PlacedWord(mem, packet, payload, 6, a);
    PlacedWord(mem, packet, payload, 10, b);
    PlacedWord(mem, packet, payload, 14, c);
  }

  /** rstrip(b"\x00\r\n") */
  function Strip(s: seq<byte>): (t: seq<byte>)
    ensures t <= s && (t == [] || t[|t| - 1] !in {0x00, 0x0D, 0x0A})
    ensures forall i | |t| <= i < |s| :: s[i] in {0x00, 0x0D, 0x0A}
  {
    if s != [] && s[|s| - 1] in {0x00, 0x0D, 0x0A} then Strip(s[..|s| - 1]) else s
  }

  /** extract_text without preserve_line_endings. */
  function ExtractText(payload: seq<byte>): seq<byte> {
    Strip(if payload != [] && payload[0] == 0x0E then payload[1..] else payload)
  }

  /** What stage0_command makes of one reply when it expects hex, read as int(text, 16). */
  function ReadHex(payload: seq<byte>): Option<nat> {
    var text := ExtractText(payload);
    if |text| == 8 && Hexadecimal.IsHex(text) then Some(Hexadecimal.FromHex(text)) else None
  }

  /** The frame the resident print wrapper sends for a text. */
  function PrintFrame(text: seq<byte>): seq<byte> {
    [0x0E] + text + [0x0A]
  }

  /** Memory holds the sixteen hexadecimal digits the monitor looks up. */
  predicate DigitsInPlace(mem: seq<byte>) {
    |mem| == U32 && mem[Monitor.HEX_TABLE..Monitor.HEX_TABLE + 16] == Hexadecimal.Digits()
  }

  lemma ReadNumeral(text: seq<byte>, value: nat)
    requires |text| == 8 && Hexadecimal.Reads(text, value)
    ensures ReadHex(PrintFrame(text)) == Some(value)
  {
    var s := text + [0x0A];
    assert PrintFrame(text)[1..] == s;
    assert s[..|s| - 1] == text;
    assert Hexadecimal.Value(text[7]) >= 0;
    assert Strip(text) == text;
    assert Strip(s) == Strip(text);
  }

  /** The text printed for a reply reads back as the value replied. */
  lemma ReplyReads(before: seq<byte>, value: word, after: seq<byte>)
    requires DigitsInPlace(before)
    requires after == Store(before, Monitor.MESSAGE, Monitor.Reply8(before, value))
    ensures ReadHex(PrintFrame(Text(after, Monitor.MESSAGE))) == Some(value)
  {
    Hexadecimal.Powers();
    var table := Hexadecimal.Digits();
    var text := Hexadecimal.Numeral(table, value, 8);
    Hexadecimal.NumeralReads(table, value, 8);
    StoreOnly(before, Monitor.MESSAGE, text + [0]);
    TextStored(after, text);
    ReadNumeral(text, value);
  }

  lemma TextStored(after: seq<byte>, text: seq<byte>)
    requires |after| == U32 && |text| == 8 && 0 !in text
    requires after[Monitor.MESSAGE..Monitor.MESSAGE + 9] == text + [0]
    ensures Text(after, Monitor.MESSAGE) == text
  {
    SubSlice(after, Monitor.MESSAGE, Monitor.MESSAGE + 9, 0, 8);
    assert (text + [0])[0..8] == text;
    assert after[Monitor.MESSAGE + 8] == (text + [0])[8];
    TextAt(after, Monitor.MESSAGE, text);
  }

  /** The handler printed one text, and the host reads this value from it. */
  predicate Answers(trace: seq<Monitor.Event>, value: nat) {
    |trace| == 1 && trace[0].Printed? && ReadHex(PrintFrame(trace[0].text)) == Some(value)
  }

  /** A reply of a value is read as that value. */
  lemma ReplyAnswers(before: seq<byte>, packet: nat, value: word, ret: Monitor.Return, sp: nat,
                     after: seq<byte>, trace: seq<Monitor.Event>)
    requires |before| == |after| == |ret.memory| == U32 && sp + 16 <= U32 && DigitsInPlace(before)
    requires Monitor.Done(before, packet, Monitor.Reply(value), ret, sp, after, trace)
    ensures Answers(trace, value)
  {
    ReplyReads(before, value, after);
  }

  /**
   The simple requests, on any payload whatever: the host reads 0xBAD00001 for a payload that is
   too short or foreign, the register that subcommands 1 to 10 number, the stack pointer for 11 and
   0xBAD00000 for a subcommand that does not exist; and subcommand 0 prints the text at 0x00811768.
   */
  lemma RegistersRoundTrip(e: Monitor.Entry, pushed: seq<byte>, system: Monitor.SystemRegisters,
                           ret: Monitor.Return, after: seq<byte>, trace: seq<Monitor.Event>,
                           payload: seq<byte>)
    requires Monitor.Handled(e, pushed, system, ret, after, trace)
    requires Placed(pushed, e.packet, payload) && DigitsInPlace(pushed)
    ensures |payload| < 2 || payload[0] != 0x1C ==> Answers(trace, 0xBAD0_0001)
    ensures |payload| >= 2 && payload[0] == 0x1C ==>
              && (payload[1] == 0 ==> trace == [Monitor.Printed(Text(pushed, 0x0081_1768))])
              && (1 <= payload[1] <= 10 ==> Answers(trace, system[payload[1] - 1]))
              && (payload[1] == 11 ==> Answers(trace, e.sp - 16))
              && (payload[1] > 14 ==> Answers(trace, 0xBAD0_0000))
  {
    SimpleDecides(pushed, e.packet, system, e.sp - 16, payload);
    ActionAnswers(pushed, e.packet, Monitor.Decide(pushed, e.packet, system, e.sp - 16), ret, e.sp - 16,
                  after, trace);
  }

  lemma ActionAnswers(before: seq<byte>, packet: nat, action: Monitor.Action, ret: Monitor.Return,
                      sp: nat, after: seq<byte>, trace: seq<Monitor.Event>)
    requires |before| == |after| == |ret.memory| == U32 && sp + 16 <= U32 && DigitsInPlace(before)
    requires Monitor.Done(before, packet, action, ret, sp, after, trace)
    ensures action.Reply? ==> Answers(trace, action.value)
    ensures action.Banner? ==> trace == [Monitor.Printed(Text(before, 0x0081_1768))]
  {
    if action.Reply? {
      ReplyAnswers(before, packet, action.value, ret, sp, after, trace);
    }
  }

  lemma SimpleDecides(mem: seq<byte>, packet: nat, system: Monitor.SystemRegisters, sp: word,
                      payload: seq<byte>)
    requires Placed(mem, packet, payload)
    ensures var action := Monitor.Decide(mem, packet, system, sp);
            if |payload| < 2 || payload[0] != 0x1C then action == Monitor.Reply(0xBAD0_0001)
            else
              && (payload[1] == 0 ==> action == Monitor.Banner)
              && (1 <= payload[1] <= 10 ==> action == Monitor.Reply(system[payload[1] - 1]))
              && (payload[1] == 11 ==> action == Monitor.Reply(sp))
              && (payload[1] > 14 ==> action == Monitor.Reply(0xBAD0_0000))
  {
    if |payload| >= 2 {
      PlacedByte(mem, packet, payload, 0);
      PlacedByte(mem, packet, payload, 1);
    }
  }

  /** What stage0_command makes of one reply when it expects the banner. */
  function ReadBanner(payload: seq<byte>): Option<seq<byte>> {
    var text := ExtractText(payload);
    if |text| >= 9 && text[..9] == [0x4B, 0x33, 0x37, 0x36, 0x35, 0x2D, 0x53, 0x30, 0x2D] then Some(text)
    else None
  }

  /** "K3765-S0-V1" */
  function Version(): (text: seq<byte>)
    ensures |text| == 11
  {
    [0x4B, 0x33, 0x37, 0x36, 0x35, 0x2D, 0x53, 0x30, 0x2D, 0x56, 0x31]
  }

  lemma BannerText(mem: seq<byte>, image: seq<byte>, code: Patch.Code)
    requires |mem| == U32 && Patch.AllPatched(image, code)
    requires mem[0x0080_0000..0x0080_0000 + |image|] == image
    ensures Text(mem, 0x0081_1768) == Version()
  {
    var b := Patch.Banner();
    SubSlice(mem, 0x0080_0000, 0x0080_0000 + |image|, 0x1_1768, 0x1_1768 + 12);
    assert mem[0x0081_1768..0x0081_1768 + 12] == b == Version() + [0];
    SubSlice(mem, 0x0081_1768, 0x0081_1768 + 12, 0, 11);
    assert b[0..11] == Version() && mem[0x0081_1768 + 11] == b[11];
    TextAt(mem, 0x0081_1768, Version());
  }

  lemma BannerReads()
    ensures ReadBanner(PrintFrame(Version())) == Some(Version())
  {
    var v := Version();
    var s := v + [0x0A];
    assert PrintFrame(v)[1..] == s && s[..|s| - 1] == v;
    assert Strip(v) == v && Strip(s) == Strip(v);
  }

  /** With a built image loaded, the banner request prints its banner and the host recognises it. */
  lemma BannerRoundTrip(e: Monitor.Entry, pushed: seq<byte>, system: Monitor.SystemRegisters,
                        ret: Monitor.Return, after: seq<byte>, trace: seq<Monitor.Event>,
                        image: seq<byte>, code: Patch.Code)
    requires Monitor.Handled(e, pushed, system, ret, after, trace)
    requires Placed(pushed, e.packet, [0x1C, 0x00]) && Patch.AllPatched(image, code)
    requires pushed[0x0080_0000..0x0080_0000 + |image|] == image
    ensures |trace| == 1 && trace[0] == Monitor.Printed(Version())
    ensures ReadBanner(PrintFrame(trace[0].text)) == Some(Version())
    ensures after == pushed
  {
    PlacedByte(pushed, e.packet, [0x1C, 0x00], 0);
    PlacedByte(pushed, e.packet, [0x1C, 0x00], 1);
    BannerText(pushed, image, code);
    BannerReads();
  }

  /** This call was made, and then one text printed from which the host reads this value. */
  predicate CalledBack(trace: seq<Monitor.Event>, call: Monitor.Event, value: nat) {
    |trace| == 2 && trace[0] == call && Answers(trace[1..], value)
  }

  lemma HandledDone(e: Monitor.Entry, pushed: seq<byte>, system: Monitor.SystemRegisters,
                    ret: Monitor.Return, after: seq<byte>, trace: seq<Monitor.Event>, action: Monitor.Action)
    requires Monitor.Handled(e, pushed, system, ret, after, trace)
    requires Monitor.Decide(pushed, e.packet, system, e.sp - 16) == action
    ensures Monitor.Done(pushed, e.packet, action, ret, e.sp - 16, after, trace)
  {
  }

  lemma CallAnswers(before: seq<byte>, packet: nat, action: Monitor.Action, ret: Monitor.Return,
                    sp: nat, after: seq<byte>, trace: seq<Monitor.Event>)
    requires |before| == |after| == |ret.memory| == U32 && sp + 16 <= U32 && action.Call?
    requires DigitsInPlace(Monitor.AfterCall(before, ret, sp))
    requires Monitor.Done(before, packet, action, ret, sp, after, trace)
    ensures CalledBack(trace, Monitor.Called(action.pc, action.a, action.b, action.c), ret.r0)
  {
    ReplyReads(Monitor.AfterCall(before, ret, sp), ret.r0, after);
  }

  /** A call the host lets through is made as asked, and the host reads back what it returned. */
  lemma CallRoundTrip(e: Monitor.Entry, pushed: seq<byte>, system: Monitor.SystemRegisters,
                      ret: Monitor.Return, after: seq<byte>, trace: seq<Monitor.Event>,
                      address: word, a: word, b: word, c: word)
    requires Monitor.Handled(e, pushed, system, ret, after, trace) && CallAllowed(address)
    requires Placed(pushed, e.packet, CallPayload(address, a, b, c))
    requires DigitsInPlace(Monitor.AfterCall(pushed, ret, e.sp - 16))
    ensures CalledBack(trace, Monitor.Called(address, a, b, c), ret.r0)
  {
    CallAgrees(pushed, e.packet, system, e.sp - 16, address, a, b, c);
    HandledDone(e, pushed, system, ret, after, trace, Monitor.Call(address, a, b, c));
    CallAnswers(pushed, e.packet, Monitor.Call(address, a, b, c), ret, e.sp - 16, after, trace);
  }

  /**
   The whole exchange: for every query the host lets through, whatever state the handler is
   entered in, it prints one text, and the host reads from it the CRC-32 of that memory range.
   */
  lemma QueryRoundTrip(e: Monitor.Entry, pushed: seq<byte>, system: Monitor.SystemRegisters,
                       ret: Monitor.Return, after: seq<byte>, trace: seq<Monitor.Event>,
                       address: word, length: word)
    requires Monitor.Handled(e, pushed, system, ret, after, trace)
    requires QueryAllowed(address, length)
    requires Placed(pushed, e.packet, QueryPayload(address, length)) && DigitsInPlace(pushed)
    ensures Answers(trace, Monitor.Checksum(pushed[address..address + length]))
    ensures Polynomial.Stages(ReadHex(PrintFrame(trace[0].text)).value, 32)
         == Polynomial.Check(pushed[address..address + length], Crc32.Generator())
  {
    QueryAgrees(pushed, e.packet, system, e.sp - 16, address, length);
    ReplyAnswers(pushed, e.packet, Monitor.Checksum(pushed[address..address + length]), ret, e.sp - 16,
                 after, trace);
  }
}
