/**
 The polling SD host driver. The controller is an arbitrary list of polls: what each read of the
 status register shows, what a FIFO read would give at that moment, and whether time is up.
 */
module Sdcc {
  import opened Bytes

  /** A status word, as the set of its raised bits. */
  type Status = set<nat>

  const CMD_CRC_FAIL: nat := 0
  const DATA_CRC_FAIL: nat := 1
  const CMD_TIMEOUT: nat := 2
  const DATA_TIMEOUT: nat := 3
  const TX_UNDERRUN: nat := 4
  const RX_OVERRUN: nat := 5
  const CMD_RESP_END: nat := 6
  const CMD_SENT: nat := 7
  const DATA_END: nat := 8
  const START_BIT_ERR: nat := 9
  const TX_FIFO_HALF: nat := 14
  const TX_FIFO_FULL: nat := 16
  const TX_FIFO_EMPTY: nat := 18
  const TX_DATA_AVAIL: nat := 20
  const RX_DATA_AVAIL: nat := 21

  const CMD_ERRORS: Status := {CMD_CRC_FAIL, CMD_TIMEOUT}
  const DATA_ERRORS: Status := {DATA_CRC_FAIL, DATA_TIMEOUT, TX_UNDERRUN, RX_OVERRUN, START_BIT_ERR}
  const TX_READY: Status := {TX_FIFO_HALF, TX_FIFO_EMPTY, TX_DATA_AVAIL}

  const EIO: int := 5
  const EFAULT: int := 14
  const EINVAL: int := 22
  const EILSEQ: int := 84
  const ETIMEDOUT: int := 110

  const MAX_TRANSFER: nat := 512

  datatype Poll = Poll(status: Status, fifo: word, late: bool)

  /** is_power_of_2 */
  predicate PowerOfTwo(n: nat) {
    n == 1 || (n > 0 && n % 2 == 0 && PowerOfTwo(n / 2))
  }

  /** The block sizes the driver takes on. */
  lemma {:induction false} SizesUpTo512(n: nat)
    ensures PowerOfTwo(n) && n <= 512 <==> n in {1, 2, 4, 8, 16, 32, 64, 128, 256, 512}
    decreases n
  {
    if 1 < n <= 512 && n % 2 == 0 {
      SizesUpTo512(n / 2);
    }
  }

  /** The bytes of FIFO words, each least significant byte first. */
  function Unpacked(words: seq<word>): (s: seq<byte>)
    ensures |s| == 4 * |words|
  {
    if words == [] then []
    else Unpacked(words[..|words| - 1]) + Le(words[|words| - 1], 4)
  }

  /** The words carry s: just enough of them, their bytes in order. */
  predicate Carries(words: seq<word>, s: seq<byte>) {
    |words| == (|s| + 3) / 4 && Unpacked(words)[..|s|] == s
  }

  /** What follows s in its last word is zero. */
  predicate ZeroPadded(words: seq<word>, s: seq<byte>) {
    |s| <= 4 * |words| && forall k | |s| <= k < 4 * |words| :: Unpacked(words)[k] == 0
  }

  lemma CarryWord(words: seq<word>, s: seq<byte>, w: word, n: nat)
    requires Carries(words, s) && |s| % 4 == 0 && 1 <= n <= 4
    ensures Carries(words + [w], s + Le(w, 4)[..n])
    ensures Le(w, 4)[n..] == seq(4 - n, i => 0) ==> ZeroPadded(words + [w], s + Le(w, 4)[..n])
  {
    var more := words + [w];
    assert more[..|more| - 1] == words;
    assert |Unpacked(words)| == |s| && Unpacked(words) == s;
    assert Unpacked(more) == s + Le(w, 4);
    assert (s + Le(w, 4))[..|s| + n] == s + Le(w, 4)[..n];
    if Le(w, 4)[n..] == seq(4 - n, i => 0) {
      forall k | |s| + n <= k < 4 * |more| ensures Unpacked(more)[k] == 0 {
        assert Unpacked(more)[k] == Le(w, 4)[n..][k - |s| - n];
      }
    }
  }

  /** memcpy of n bytes into a zeroed word. */
  lemma PackWord(s: seq<byte>) returns (w: word)
    requires 1 <= |s| <= 4
    ensures w == FromLe(s + seq(4 - |s|, i => 0))
    ensures Le(w, 4)[..|s|] == s && Le(w, 4)[|s|..] == seq(4 - |s|, i => 0)
  {
    OctetPowers();
    var full := s + seq(4 - |s|, i => 0);
    FromLeRoundTrip(full);
    w := FromLe(full);
  }

  /** What waiting for a status comes to: the result, the status it ends on, the polls left. */
  function Await(script: seq<Poll>, wanted: Status, errors: Status): (int, Status, seq<Poll>)
    decreases |script|
  {
    if script == [] then (-ETIMEDOUT, {}, [])
    else
      var p, rest := script[0], script[1..];
      if !(p.status !! errors) then (-EIO, p.status, rest)
      else if !(p.status !! wanted) then (0, p.status, rest)
      else if p.late then
        (-ETIMEDOUT, if rest == [] then {} else rest[0].status, if rest == [] then [] else rest[1..])
      else Await(rest, wanted, errors)
  }

  predicate Idle(p: Poll, wanted: Status, errors: Status) {
    p.status !! errors && p.status !! wanted && !p.late
  }

  /** The n-th poll is the first that does not leave the driver waiting. */
  predicate Decides(script: seq<Poll>, n: nat, wanted: Status, errors: Status) {
    n < |script| && !Idle(script[n], wanted, errors)
    && forall j | 0 <= j < n :: Idle(script[j], wanted, errors)
  }

  /** The result depends on the deciding poll alone: an error bit wins over a wanted bit. */
  lemma {:induction false} AwaitDecided(script: seq<Poll>, n: nat, wanted: Status, errors: Status)
    requires Decides(script, n, wanted, errors)
    ensures var p := script[n];
            Await(script, wanted, errors).0
            == if !(p.status !! errors) then -EIO
               else if !(p.status !! wanted) then 0
               else -ETIMEDOUT
    ensures Await(script, wanted, errors).0 != -ETIMEDOUT ==>
              Await(script, wanted, errors).1 == script[n].status
    decreases |script|
  {
    if n > 0 {
      assert Idle(script[0], wanted, errors);
      forall j | 0 <= j < n - 1 ensures Idle(script[1..][j], wanted, errors) {
        assert Idle(script[j + 1], wanted, errors);
      }
      AwaitDecided(script[1..], n - 1, wanted, errors);
    }
  }

  /** A command's result from the status that ended the wait with an error bit. */
  function CommandVerdict(status: Status, checksCrc: bool): int {
    if CMD_TIMEOUT in status then -ETIMEDOUT
    else if CMD_CRC_FAIL in status && checksCrc then -EILSEQ
    else 0
  }

  function CommandResult(script: seq<Poll>, responds: bool, checksCrc: bool): (int, seq<Poll>) {
    var terminal := if responds then CMD_RESP_END else CMD_SENT;
    var (waited, status, rest) := Await(script, {terminal}, CMD_ERRORS);
    (if waited == -EIO then CommandVerdict(status, checksCrc) else waited, rest)
  }

  /**
   A command's result is read off the deciding poll: a time-out (status bit 2) wins over a CRC
   failure (bit 0), which counts only for a command that checks its CRC and otherwise hides
   whether the response arrived (bit 6) or the command went out (bit 7).
   */
  lemma CommandDecided(script: seq<Poll>, n: nat, responds: bool, checksCrc: bool)
    requires Decides(script, n, {if responds then 6 else 7}, {0, 2})
    ensures var status := script[n].status;
            CommandResult(script, responds, checksCrc).0
            == if 2 in status then -110
               else if 0 in status then (if checksCrc then -84 else 0)
               else if (if responds then 6 else 7) in status then 0
               else -110
  {
    AwaitDecided(script, n, {if responds then 6 else 7}, {0, 2});
    assert CMD_ERRORS == {0, 2};
  }

  function DataVerdict(status: Status): int {
    if DATA_TIMEOUT in status then -ETIMEDOUT
    else if DATA_CRC_FAIL in status then -EILSEQ
    else -EIO
  }

  /** The FIFO can take or give a word. */
  predicate Ready(p: Poll, reading: bool) {
    if reading then RX_DATA_AVAIL in p.status
    else TX_FIFO_FULL !in p.status && !(p.status !! TX_READY)
  }

  /** The FIFO loop while need words are missing: the result, the FIFO values met, the polls left. */
  function Pace(script: seq<Poll>, reading: bool, need: nat): (r: (int, seq<word>, seq<Poll>))
    ensures |r.1| <= need && (r.0 == 0 <==> |r.1| == need)
    ensures r.0 in {0, -ETIMEDOUT, -EILSEQ, -EIO}
    decreases |script|
  {
    if need == 0 then (0, [], script)
    else if script == [] then (-ETIMEDOUT, [], [])
    else
      var p, rest := script[0], script[1..];
      if !(p.status !! DATA_ERRORS) then (DataVerdict(p.status), [], rest)
      else
        var got := if Ready(p, reading) then [p.fifo] else [];
        if p.late then (if |got| == need then 0 else -ETIMEDOUT, got, rest)
        else
          var (error, more, end) := Pace(rest, reading, need - |got|);
          (error, got + more, end)
  }

  /** The FIFO has a word (status bit 21), or is not full (16) and can take one (14, 18 or 20). */
  predicate Offers(p: Poll, reading: bool) {
    if reading then 21 in p.status
    else 16 !in p.status && (14 in p.status || 18 in p.status || 20 in p.status)
  }

  /** What the FIFO showed at those of these polls that found it ready. */
  function Offered(polls: seq<Poll>, reading: bool): seq<word> {
    if polls == [] then []
    else (if Offers(polls[0], reading) then [polls[0].fifo] else []) + Offered(polls[1..], reading)
  }

  /** A failed CRC, a time-out, an underrun, an overrun or a missing start bit. */
  predicate Fails(p: Poll) {
    exists bit :: bit in {1, 3, 4, 5, 9} && bit in p.status
  }

  /** No poll shows an error and only the last may find time up. */
  predicate Clean(polls: seq<Poll>) {
    && (forall j | 0 <= j < |polls| :: !Fails(polls[j]))
    && (forall j | 0 <= j < |polls| - 1 :: !polls[j].late)
  }

  lemma DriverBits(p: Poll, reading: bool)
    ensures Ready(p, reading) <==> Offers(p, reading)
    ensures p.status !! DATA_ERRORS <==> !Fails(p)
  {
    assert forall bit | bit in DATA_ERRORS && bit in p.status :: bit in {1, 3, 4, 5, 9};
  }

  lemma CleanCons(p: Poll, polls: seq<Poll>)
    ensures Clean([p] + polls) <==> !Fails(p) && (polls != [] ==> !p.late) && Clean(polls)
  {
    var all := [p] + polls;
    assert all[1..] == polls;
    if Clean(all) {
      forall j | 0 <= j < |polls| ensures !Fails(polls[j]) {
        assert !Fails(all[j + 1]);
      }
      forall j | 0 <= j < |polls| - 1 ensures !polls[j].late { assert !all[j + 1].late; }
      assert all[0] == p;
    }
  }

  /** A clean stretch of n polls in which the FIFO was ready need times. */
  predicate Stretch(script: seq<Poll>, n: nat, reading: bool, need: nat) {
    n <= |script| && Clean(script[..n]) && |Offered(script[..n], reading)| == need
  }

  /** The stretch ends with the last word it moves. */
  predicate Tight(script: seq<Poll>, n: nat, reading: bool, need: nat) {
    Stretch(script, n, reading, need) && (n > 0 ==> Offers(script[n - 1], reading))
  }

  lemma StretchCons(script: seq<Poll>, n: nat, reading: bool, need: nat)
    requires script != [] && n >= 1
    ensures Stretch(script, n, reading, need)
       <==> !Fails(script[0]) && (n > 1 ==> !script[0].late)
            && (Offers(script[0], reading) ==> need > 0)
            && Stretch(script[1..], n - 1, reading, need - if Offers(script[0], reading) then 1 else 0)
  {
    if n <= |script| {
      assert script[..n] == [script[0]] + script[1..][..n - 1];
      CleanCons(script[0], script[1..][..n - 1]);
      OfferedCons(script[0], script[1..][..n - 1], reading);
    }
  }

  lemma OfferedCons(p: Poll, polls: seq<Poll>, reading: bool)
    ensures Offered([p] + polls, reading)
         == (if Offers(p, reading) then [p.fifo] else []) + Offered(polls, reading)
  {
    assert ([p] + polls)[1..] == polls;
  }

  lemma {:induction false} OfferedLast(polls: seq<Poll>, reading: bool)
    requires polls != [] && Offers(polls[|polls| - 1], reading)
    ensures Offered(polls, reading) != []
  {
    if |polls| > 1 {
      OfferedLast(polls[1..], reading);
    }
  }

  /** What the loop makes of a stretch that ends with its last word: the words the FIFO offered. */
  lemma {:induction false} PaceAt(script: seq<Poll>, n: nat, reading: bool, need: nat)
    requires Tight(script, n, reading, need)
    ensures Pace(script, reading, need) == (0, Offered(script[..n], reading), script[n..])
    decreases n
  {
    if n == 0 {
      assert script[..0] == [] && script[0..] == script;
    } else {
      OfferedLast(script[..n], reading);
      var p, later := script[0], script[1..];
      DriverBits(p, reading);
      StretchCons(script, n, reading, need);
      assert script[..n] == [p] + later[..n - 1] && script[n..] == later[n - 1..];
      OfferedCons(p, later[..n - 1], reading);
      var got := if Offers(p, reading) then [p.fifo] else [];
      if n == 1 {
        assert later[..0] == [] && later[0..] == later && got + [] == got == [p.fifo];
      } else {
        assert later[n - 2] == script[n - 1];
        PaceAt(later, n - 1, reading, need - |got|);
      }
    }
  }

  /** A loop that completes has had such a stretch. */
  lemma {:induction false} PaceStops(script: seq<Poll>, reading: bool, need: nat) returns (n: nat)
    requires Pace(script, reading, need).0 == 0
    ensures Tight(script, n, reading, need)
    decreases |script|
  {
    n := 0;
    assert script[..0] == [];
    if need > 0 {
      var p, later := script[0], script[1..];
      DriverBits(p, reading);
      assert later[..0] == [];
      var need' := need - if Offers(p, reading) then 1 else 0;
      if need' == 0 {
        StretchCons(script, 1, reading, need);
        n := 1;
      } else {
        n := PaceStops(later, reading, need');
        StretchCons(script, n + 1, reading, need);
        n := n + 1;
      }
    }
  }

  /** The loop completes exactly if some clean stretch of polls finds the FIFO ready often enough. */
  lemma PaceCompletesIff(script: seq<Poll>, reading: bool, need: nat)
    ensures Pace(script, reading, need).0 == 0 <==> exists n: nat :: Tight(script, n, reading, need)
  {
    if Pace(script, reading, need).0 == 0 {
      var n := PaceStops(script, reading, need);
    }
    forall n: nat | Tight(script, n, reading, need) ensures Pace(script, reading, need).0 == 0 {
      PaceAt(script, n, reading, need);
    }
  }

  /** An error before the last word decides what the loop reports. */
  lemma {:induction false} PaceError(script: seq<Poll>, n: nat, reading: bool, need: nat)
    requires n < |script| && (forall j | 0 <= j < n :: !Fails(script[j]) && !script[j].late)
    requires |Offered(script[..n], reading)| < need && Fails(script[n])
    ensures var status := script[n].status;
            Pace(script, reading, need).0 == if 3 in status then -110 else if 1 in status then -84 else -5
    decreases n
  {
    var p, later := script[0], script[1..];
    DriverBits(p, reading);
    if n > 0 {
      assert script[..n] == [p] + later[..n - 1];
      OfferedCons(p, later[..n - 1], reading);
      forall j | 0 <= j < n - 1 ensures !Fails(later[j]) && !later[j].late {
        assert !Fails(script[j + 1]) && !script[j + 1].late;
      }
      PaceError(later, n - 1, reading, need - if Offers(p, reading) then 1 else 0);
    }
  }

  /** The loop's outcome: its result, as many words as were ready, and for a read those very words. */
  predicate Paced(script: seq<Poll>, reading: bool, need: nat, error: int, words: seq<word>,
                  rest: seq<Poll>) {
    var r := Pace(script, reading, need);
    error == r.0 && |words| == |r.1| && rest == r.2 && (reading ==> words == r.1)
  }

  /** The loop with these words moved so far: what remains is the pace of the rest of the script. */
  predicate Pacing(script: seq<Poll>, reading: bool, need: nat, words: seq<word>,
                   rest: seq<Poll>, late: bool) {
    && |words| <= need &&
    var r := Pace(script, reading, need);
    var more := Pace(rest, reading, need - |words|);
    if late && |words| < need then r.0 == -ETIMEDOUT && |r.1| == |words| && rest == r.2 && (reading ==> words == r.1)
    else r.0 == more.0 && |r.1| == |words| + |more.1| && r.2 == more.2 && (reading ==> r.1 == words + more.1)
  }

  lemma PaceFails(script: seq<Poll>, reading: bool, need: nat, words: seq<word>, here: seq<Poll>,
                  p: Poll, rest: seq<Poll>)
    requires Pacing(script, reading, need, words, here, false) && |words| < need
    requires here != [] && p == here[0] && rest == here[1..] && !(p.status !! DATA_ERRORS)
    ensures Paced(script, reading, need, DataVerdict(p.status), words, rest)
  {
    assert words + [] == words;
  }

  /** One look at the controller without an error: a word moves exactly if the FIFO is ready. */
  lemma PaceLook(script: seq<Poll>, reading: bool, need: nat, words: seq<word>, words': seq<word>,
                 here: seq<Poll>, p: Poll, rest: seq<Poll>)
    requires Pacing(script, reading, need, words, here, false) && |words| < need
    requires if here == [] then p == Poll({}, 0, true) && rest == []
             else p == here[0] && rest == here[1..]
    requires p.status !! DATA_ERRORS
    requires if Ready(p, reading) then |words'| == |words| + 1 && (reading ==> words' == words + [p.fifo])
             else words' == words
    ensures Pacing(script, reading, need, words', rest, p.late)
  {
    assert words + [] == words && words' + [] == words';
    if here != [] {
      var got := if Ready(p, reading) then [p.fifo] else [];
      var more := Pace(rest, reading, need - |words'|);
      assert words + (got + more.1) == (words + got) + more.1;
    }
  }

  lemma PaceEnds(script: seq<Poll>, reading: bool, need: nat, words: seq<word>,
                 rest: seq<Poll>, late: bool)
    requires Pacing(script, reading, need, words, rest, late) && (late || |words| == need)
    ensures Paced(script, reading, need, if |words| == need then 0 else -ETIMEDOUT, words, rest)
  {
    assert words + [] == words;
  }

  /** The final wait for the end of data. */
  function EndResult(script: seq<Poll>): (int, seq<Poll>) {
    var (waited, status, rest) := Await(script, {DATA_END}, DATA_ERRORS);
    (if waited == -EIO then DataVerdict(status) else waited, rest)
  }

  /** The n-th poll is the first to show an error or the end of data, and it shows no error. */
  predicate Ended(script: seq<Poll>, n: nat) {
    && n < |script| && 8 in script[n].status && !Fails(script[n])
    && forall j | 0 <= j < n :: !Fails(script[j]) && 8 !in script[j].status && !script[j].late
  }

  lemma {:induction false} EndedIff(script: seq<Poll>)
    ensures EndResult(script).0 == 0 <==> exists n: nat :: Ended(script, n)
    decreases |script|
  {
    if script != [] {
      var p, later := script[0], script[1..];
      DriverBits(p, true);
      EndedIff(later);
      if Idle(p, {DATA_END}, DATA_ERRORS) {
        if EndResult(later).0 == 0 {
          var n: nat :| Ended(later, n);
          assert Ended(script, n + 1);
        }
        if n: nat :| Ended(script, n) {
          forall j | 0 <= j < n - 1
            ensures !Fails(later[j]) && 8 !in later[j].status && !later[j].late
          {
            assert !Fails(script[j + 1]);
          }
          assert Ended(later, n - 1);
        }
      } else if EndResult(script).0 == 0 {
        assert Ended(script, 0);
      }
    }
  }

  /** All words of size bytes move in n polls, and the end of data is seen m polls later. */
  predicate Finishes(script: seq<Poll>, reading: bool, size: nat, n: nat, m: nat) {
    Tight(script, n, reading, (size + 3) / 4) && Ended(script[n..], m)
  }

  /** A transfer succeeds exactly when the list is long enough, every word moves and the end is seen. */
  lemma TransferSucceedsIff(script: seq<Poll>, reading: bool, size: nat, room: nat)
    ensures TransferResult(script, reading, size, room).0 == 0
       <==> size <= room && exists n: nat, m: nat :: Finishes(script, reading, size, n, m)
    ensures reading && room < size && (exists n: nat, m: nat :: Finishes(script, reading, size, n, m)) ==>
              TransferResult(script, reading, size, room).0 == -14
  {
    var need := (size + 3) / 4;
    var (paced, _, rest) := Pace(script, reading, need);
    EndedIff(rest);
    if paced == 0 && EndResult(rest).0 == 0 {
      var n := PaceStops(script, reading, need);
      PaceAt(script, n, reading, need);
      var m: nat :| Ended(rest, m);
      assert Finishes(script, reading, size, n, m);
    }
    forall n: nat, m: nat | Finishes(script, reading, size, n, m)
      ensures paced == 0 && EndResult(rest).0 == 0
    {
      PaceAt(script, n, reading, need);
    }
  }

  /** What is reported when the end of data does not come. */
  lemma EndDecided(script: seq<Poll>, n: nat)
    requires Decides(script, n, {8}, {1, 3, 4, 5, 9})
    ensures var status := script[n].status;
            EndResult(script).0 == if Fails(script[n]) then
                                     (if 3 in status then -110 else if 1 in status then -84 else -5)
                                   else if 8 in status then 0
                                   else -110
  {
    DriverBits(script[n], true);
    assert DATA_ERRORS == {1, 3, 4, 5, 9};
    AwaitDecided(script, n, {8}, {1, 3, 4, 5, 9});
  }

  function TransferResult(script: seq<Poll>, reading: bool, size: nat, room: nat): (int, seq<Poll>) {
    if !reading && room < size then (-EFAULT, script)
    else
      var (paced, _, rest) := Pace(script, reading, (size + 3) / 4);
      var (ended, end) := EndResult(rest);
      if paced != 0 then (paced, rest)
      else if ended != 0 then (ended, end)
      else (if room < size then -EFAULT else 0, end)
  }

  lemma {:induction false} AwaitRange(script: seq<Poll>, wanted: Status, errors: Status)
    ensures Await(script, wanted, errors).0 in {0, -EIO, -ETIMEDOUT}
    decreases |script|
  {
    if script != [] {
      AwaitRange(script[1..], wanted, errors);
    }
  }

  class Command {
    const opcode: word
    const arg: word
    const responds: bool
    const checksCrc: bool
    var resp: seq<word>
    var error: int

    constructor (opcode: word, arg: word, responds: bool, checksCrc: bool) {
      this.opcode, this.arg, this.responds, this.checksCrc := opcode, arg, responds, checksCrc;
      resp, error := [], 0;
    }
  }

  class Data {
    const blksz: word
    const blocks: word
    const reading: bool
    /** The scatter list's memory, in order. */
    const sg: array<byte>
    var bytesXfered: nat
    var error: int

    constructor (blksz: word, blocks: word, reading: bool, sg: array<byte>)
      ensures this.blksz == blksz && this.blocks == blocks && this.reading == reading && this.sg == sg
    {
      this.blksz, this.blocks, this.reading, this.sg := blksz, blocks, reading, sg;
      bytesXfered, error := 0, 0;
    }

    /** The 32-bit product the driver computes. */
    function Size(): (n: nat)
      ensures n < U32
    {
      blksz * blocks % U32
    }

    /** The literal block size, the direction bit and the enable bit. */
    function Control(): (c: nat)
      ensures c > 0
    {
      blksz * 16 + if reading then 3 else 1
    }

    /** The transfers the driver takes on. */
    predicate Supported() {
      PowerOfTwo(blksz) && Size() <= MAX_TRANSFER && blocks == 1
    }
  }

  lemma ControlStarts(data: Data?)
    ensures data != null ==> Starts(data.Control(), data.blksz, data.reading)
  {
  }

  /** One block of a power of two of at most 512 bytes: nothing else is supported. */
  lemma SupportedIff(data: Data)
    ensures data.Supported() ==> data.Size() == data.blksz
    ensures data.Supported()
       <==> data.blocks == 1 && data.blksz in {1, 2, 4, 8, 16, 32, 64, 128, 256, 512}
  {
    SizesUpTo512(data.blksz);
  }

  /** DATACTRL of a transfer: enable (bit 0), direction (bit 1) and the block size from bit 4 on. */
  predicate Starts(control: nat, blksz: nat, reading: bool) {
    control / 16 == blksz && control % 16 == if reading then 3 else 1
  }

  datatype Event = Issued(cmd: Command) | Enabled(control: nat) | Disabled

  class Host {
    const bounce: array<byte>
    var script: seq<Poll>
    var datactrl: nat
    /** Commands issued and DATACTRL writes that start or end a transfer, in order. */
    var log: seq<Event>
    var sent: seq<word>
    var taken: seq<word>
    var completed: nat

    constructor (bounce: array<byte>, script: seq<Poll>)
      requires bounce.Length == MAX_TRANSFER
      ensures Valid() && this.bounce == bounce && datactrl == 0 && completed == 0
    {
      this.bounce, this.script := bounce, script;
      datactrl, log, sent, taken, completed := 0, [], [], [], 0;
    }

    ghost predicate Valid() {
      bounce.Length == MAX_TRANSFER
    }

    /** The next look at the controller; when the list ends, nothing is raised and time is up. */
    method Look() returns (p: Poll)
      modifies this`script
      ensures old(script) != [] ==> p == old(script)[0] && script == old(script)[1..]
      ensures old(script) == [] ==> p == Poll({}, 0, true) && script == []
    {
      if script == [] {
        p := Poll({}, 0, true);
      } else {
        p, script := script[0], script[1..];
      }
    }

    /** shadow_sdcc_wait_status */
    method WaitStatus(wanted: Status, errors: Status) returns (error: int, status: Status)
      modifies this`script
      ensures (error, status, script) == Await(old(script), wanted, errors)
    {
      var late := false;
      while !late
        invariant if late then Await(old(script), wanted, errors)
                               == (-ETIMEDOUT, if script == [] then {} else script[0].status,
                                   if script == [] then [] else script[1..])
                  else Await(script, wanted, errors) == Await(old(script), wanted, errors)
        decreases !late, |script|
      {
        var p := Look();
        status := p.status;
        if !(p.status !! errors) {
          return -EIO, status;
        }
        if !(p.status !! wanted) {
          return 0, status;
        }
        late := p.late;
      }
      var last := Look();
      return -ETIMEDOUT, last.status;
    }

    /** shadow_sdcc_command; the response registers hold anything. */
    method RunCommand(cmd: Command) returns (error: int)
      modifies this`script, this`log, cmd
      ensures (error, script) == CommandResult(old(script), cmd.responds, cmd.checksCrc)
      ensures cmd.error == error && log == old(log) + [Issued(cmd)]
    {
      log := log + [Issued(cmd)];
      var terminal := if cmd.responds then CMD_RESP_END else CMD_SENT;
      var waited, status := WaitStatus({terminal}, CMD_ERRORS);
      error := waited;
      if error == -EIO {
        if CMD_TIMEOUT in status {
          error := -ETIMEDOUT;
        } else if CMD_CRC_FAIL in status && cmd.checksCrc {
          error := -EILSEQ;
        } else {
          error := 0;
        }
      }
      if error == 0 && cmd.responds {
        cmd.resp := *;
      }
      cmd.error := error;
    }

    /** shadow_sdcc_start_data */
    method StartData(data: Data) returns (error: int)
      modifies this`datactrl, this`log
      ensures error == if data.Supported() then 0 else -EINVAL
      ensures datactrl == if data.Supported() then data.Control() else old(datactrl)
      ensures log == old(log) + if data.Supported() then [Enabled(data.Control())] else []
    {
      if !PowerOfTwo(data.blksz) || data.Size() > MAX_TRANSFER || data.blocks != 1 {
        return -EINVAL;
      }
      var control := data.blksz * 16;
      if data.reading {
        control := control + 2;
      }
      datactrl := control + 1;
      log := log + [Enabled(datactrl)];
      return 0;
    }

    /** One FIFO word into the bounce buffer. */
    method ReadWord(w: word, at: nat, count: nat, ghost done: seq<byte>, ghost words: seq<word>)
      requires Valid() && 1 <= count <= 4 && at + count <= MAX_TRANSFER && at % 4 == 0
      requires at == |done| && bounce[..at] == done && Carries(words, done)
      modifies bounce
      ensures bounce[..at + count] == done + Le(w, 4)[..count]
      ensures Carries(words + [w], done + Le(w, 4)[..count])
    {
      var b := Le(w, 4);
      forall i | 0 <= i < count {
        bounce[at + i] := b[i];
      }
      assert bounce[..at + count] == bounce[..at] + bounce[at..at + count];
      assert bounce[at..at + count] == b[..count];
      CarryWord(words, done, w, count);
    }

    /** One FIFO word out of the bounce buffer. */
    method WriteWord(at: nat, count: nat, ghost done: seq<byte>, ghost words: seq<word>)
      returns (w: word)
      requires Valid() && 1 <= count <= 4 && at + count <= MAX_TRANSFER && at % 4 == 0
      requires at == |done| && bounce[..at] == done && Carries(words, done)
      ensures bounce[..at + count] == done + Le(w, 4)[..count]
      ensures Carries(words + [w], done + Le(w, 4)[..count])
      ensures ZeroPadded(words + [w], done + Le(w, 4)[..count])
    {
      var piece := bounce[at..at + count];
      ghost var packed := PackWord(piece);
      w := FromLe(piece + seq(4 - count, i => 0));
      CarryWord(words, done, w, count);
      assert bounce[..at + count] == bounce[..at] + piece;
    }

    /** Between two polls of the loop: the bounce buffer covers exactly the words moved so far. */
    ghost predicate Holding(reading: bool, size: nat, words: seq<word>, done: seq<byte>,
                            b0: seq<byte>)
      reads bounce
    {
      && Valid() && |done| <= size <= MAX_TRANSFER && (|done| % 4 == 0 || |done| == size)
      && Carries(words, done) && bounce[..|done|] == done
      && (!reading ==> bounce[..] == b0 && ZeroPadded(words, done))
    }

    /** The loop body after the error test. */
    method MoveOne(reading: bool, size: nat, p: Poll, transferred: nat, words: seq<word>,
                   ghost done: seq<byte>, ghost b0: seq<byte>)
      returns (words': seq<word>, ghost done': seq<byte>, count: nat)
      requires Holding(reading, size, words, done, b0) && transferred == |done| < size
      modifies bounce
      ensures Holding(reading, size, words', done', b0)
      ensures |done'| == |done| + count && count <= 4 && (count == 0 <==> !Ready(p, reading))
      ensures count == 0 ==> words' == words
      ensures count > 0 ==> |words'| == |words| + 1 && words'[..|words|] == words
      ensures count > 0 && reading ==> words' == words + [p.fifo]
    {
      count := if size - transferred < 4 then size - transferred else 4;
      words', done' := words, done;
      if reading {
        if RX_DATA_AVAIL !in p.status {
          count := 0;
          return;
        }
        ReadWord(p.fifo, transferred, count, done, words);
        words', done' := words + [p.fifo], done + Le(p.fifo, 4)[..count];
      } else {
        if TX_FIFO_FULL in p.status || p.status !! TX_READY {
          count := 0;
          return;
        }
        var w := WriteWord(transferred, count, done, words);
        words', done' := words + [w], done + Le(w, 4)[..count];
      }
    }

    /** The loop body, and where it leaves the pace of the whole script. */
    method MoveAtPace(reading: bool, size: nat, p: Poll, transferred: nat, words: seq<word>,
                      ghost done: seq<byte>, ghost b0: seq<byte>, ghost s0: seq<Poll>, ghost s1: seq<Poll>)
      returns (words': seq<word>, ghost done': seq<byte>, count: nat)
      requires Holding(reading, size, words, done, b0) && transferred == |done| < size
      requires Pacing(s0, reading, (size + 3) / 4, words, s1, false) && p.status !! DATA_ERRORS
      requires if s1 == [] then p == Poll({}, 0, true) && script == []
               else p == s1[0] && script == s1[1..]
      modifies bounce
      ensures Holding(reading, size, words', done', b0) && |done'| == |done| + count
      ensures Pacing(s0, reading, (size + 3) / 4, words', script, p.late)
    {
      words', done', count := MoveOne(reading, size, p, transferred, words, done, b0);
      PaceLook(s0, reading, (size + 3) / 4, words, words', s1, p, script);
    }

    /** The FIFO loop: the words moved, and the bytes of the bounce buffer they cover. */
    method MoveWords(reading: bool, size: nat, ghost b0: seq<byte>)
      returns (error: int, words: seq<word>, ghost done: seq<byte>)
      requires Valid() && size <= MAX_TRANSFER && b0 == bounce[..]
      modifies this`script, bounce
      ensures Paced(old(script), reading, (size + 3) / 4, error, words, script)
      ensures Holding(reading, size, words, done, b0)
      ensures error == 0 ==> |done| == size
    {
      var transferred, late := 0, false;
      ghost var s0, need := script, (size + 3) / 4;
      error, words, done := 0, [], [];
      while transferred < size && !late
        invariant transferred == |done| && Holding(reading, size, words, done, b0)
        invariant Pacing(s0, reading, need, words, script, late)
        decreases !late, |script|
      {
        ghost var s1 := script;
        var p := Look();
        late := p.late;
        if !(p.status !! DATA_ERRORS) {
          error := if DATA_TIMEOUT in p.status then -ETIMEDOUT
                   else if DATA_CRC_FAIL in p.status then -EILSEQ
                   else -EIO;
          PaceFails(s0, reading, need, words, s1, p, script);
          return;
        }
        var count;
        words, done, count := MoveAtPace(reading, size, p, transferred, words, done, b0, s0, s1);
        transferred := transferred + count;
      }
      PaceEnds(s0, reading, need, words, script, late);
      if transferred != size {
        error := -ETIMEDOUT;
      }
    }

    /** sg_copy_to_buffer */
    method CopyIn(data: Data, size: nat) returns (copied: nat)
      requires Valid() && size <= MAX_TRANSFER && data.sg != bounce
      modifies bounce
      ensures copied == if data.sg.Length < size then data.sg.Length else size
      ensures bounce[..copied] == data.sg[..copied]
    {
      copied := if data.sg.Length < size then data.sg.Length else size;
      forall i | 0 <= i < copied {
        bounce[i] := data.sg[i];
      }
    }

    /** sg_copy_from_buffer */
    method CopyBack(data: Data, size: nat) returns (copied: nat)
      requires Valid() && size <= MAX_TRANSFER && data.sg != bounce
      modifies data.sg
      ensures copied == if data.sg.Length < size then data.sg.Length else size
      ensures data.sg[..copied] == bounce[..copied]
      ensures data.sg[copied..] == old(data.sg[copied..])
    {
      copied := if data.sg.Length < size then data.sg.Length else size;
      forall i | 0 <= i < copied {
        data.sg[i] := bounce[i];
      }
    }

    /** The final wait for the end of data. */
    method AwaitEnd() returns (error: int)
      modifies this`script
      ensures (error, script) == EndResult(old(script))
      ensures error != -EFAULT
    {
      AwaitRange(script, {DATA_END}, DATA_ERRORS);
      var waited, status := WaitStatus({DATA_END}, DATA_ERRORS);
      error := waited;
      if error == -EIO {
        if DATA_TIMEOUT in status {
          error := -ETIMEDOUT;
        } else if DATA_CRC_FAIL in status {
          error := -EILSEQ;
        }
      }
    }

    /** A read: fill the bounce buffer, wait for the end, copy to the scatter list. */
    method TransferIn(data: Data, size: nat) returns (error: int, words: seq<word>)
      requires Valid() && size <= MAX_TRANSFER && data.sg != bounce
      modifies this`script, bounce, data.sg
      ensures (error, script) == TransferResult(old(script), true, size, data.sg.Length)
      ensures words == Pace(old(script), true, (size + 3) / 4).1
      ensures error == 0 ==> Moved(data.sg[..], size, words) && data.sg[size..] == old(data.sg[size..])
      ensures error != 0 && error != -EFAULT ==> data.sg[..] == old(data.sg[..])
    {
      ghost var done;
      error, words, done := MoveWords(true, size, bounce[..]);
      if error == 0 {
        error := AwaitEnd();
        if error == 0 {
          var copied := CopyBack(data, size);
          if copied != size {
            error := -EFAULT;
          } else {
            assert data.sg[..][..size] == done;
          }
        }
      }
    }

    /** A write: copy from the scatter list, feed the FIFO, wait for the end. */
    method TransferOut(data: Data, size: nat) returns (error: int, words: seq<word>)
      requires Valid() && size <= MAX_TRANSFER && data.sg != bounce
      modifies this`script, bounce
      ensures (error, script) == TransferResult(old(script), false, size, data.sg.Length)
      ensures error == -EFAULT <==> data.sg.Length < size
      ensures |words| == if data.sg.Length < size then 0 else |Pace(old(script), false, (size + 3) / 4).1|
      ensures error == 0 ==> Moved(data.sg[..], size, words) && ZeroPadded(words, data.sg[..size])
    {
      words := [];
      var copied := CopyIn(data, size);
      if copied != size {
        return -EFAULT, [];
      }
      ghost var b0 := bounce[..];
      ghost var done;
      error, words, done := MoveWords(false, size, b0);
      if error == 0 {
        assert done == b0[..size] == data.sg[..][..size] == data.sg[..size];
        error := AwaitEnd();
      }
    }

    /** shadow_sdcc_transfer_data */
    method Transfer(data: Data) returns (error: int, words: seq<word>)
      requires Valid() && data.Supported() && data.sg != bounce
      modifies this`script, this`datactrl, this`log, this`sent, this`taken
      modifies bounce, data`bytesXfered, data`error, data.sg
      ensures (error, script) == TransferResult(old(script), data.reading, data.Size(), data.sg.Length)
      ensures log == old(log) + if Short(data) then [] else [Disabled]
      ensures Short(data) ==> datactrl == old(datactrl) && data.error == old(data.error)
      ensures !Short(data) ==> datactrl == 0 && data.error == error
      ensures data.bytesXfered == if error == 0 then data.Size() else old(data.bytesXfered)
      ensures error == 0 ==> Faithful(data, words)
      ensures !data.reading ==> data.sg[..] == old(data.sg[..])
      ensures data.reading ==> words == Pace(old(script), true, (data.Size() + 3) / 4).1
      ensures Short(data) ==> words == []
      ensures sent == old(sent) + (if data.reading then [] else words)
      ensures taken == old(taken) + (if data.reading then words else [])
    {
      var size := data.Size();
      if data.reading {
        error, words := TransferIn(data, size);
        taken := taken + words;
      } else {
        error, words := TransferOut(data, size);
        if error == -EFAULT {
          return;
        }
        sent := sent + words;
      }
      Settle(data, size, error);
    }

    /** The end of a transfer: what the data and the controller are left with. */
    method Settle(data: Data, size: nat, error: int)
      modifies this`datactrl, this`log, data`bytesXfered, data`error
      ensures data.bytesXfered == (if error == 0 then size else old(data.bytesXfered))
      ensures data.error == error && datactrl == 0 && log == old(log) + [Disabled]
    {
      if error == 0 {
        data.bytesXfered := size;
      }
      datactrl := 0;
      log := log + [Disabled];
      data.error := error;
    }

    /** The data part of a request: from clearing the results to the end of the transfer. */
    method RunData(cmd: Command, data: Data)
      returns (error: int, words: seq<word>, proceed: bool)
      requires Valid() && datactrl == 0 && data.sg != bounce
      modifies this`script, this`datactrl, this`log, this`sent, this`taken
      modifies bounce, cmd, data`bytesXfered, data`error, data.sg
      ensures Completed(data, cmd.error == 0, words)
      ensures log == old(log) + DataSteps(cmd, data, cmd.error == 0)
      ensures proceed <==> cmd.error == 0 && data.Supported()
      ensures data.error == DataOutcome(old(script), cmd, data)
      ensures cmd.error == CommandOutcome(old(script), cmd, data)
      ensures proceed ==>
                (error, script) == TransferResult(CommandResult(old(script), cmd.responds, cmd.checksCrc).1,
                                                  data.reading, data.Size(), data.sg.Length)
      ensures proceed ==> script == AfterData(old(script), cmd, data)
      ensures !proceed ==> error == data.error != 0
      ensures sent == old(sent) + (if data.reading then [] else words)
      ensures taken == old(taken) + (if data.reading then words else [])
    {
      words, proceed := [], false;
      data.bytesXfered := 0;
      data.error := 0;
      if data.reading {
        error := StartData(data);
        if error != 0 {
          data.error := error;
          cmd.error := error;
          return;
        }
      }
      error := RunCommand(cmd);
      if error != 0 {
        data.error := error;
        datactrl := 0;
        log := log + [Disabled];
        return;
      }
      if !data.reading {
        error := StartData(data);
        if error != 0 {
          data.error := error;
          return;
        }
      }
      error, words := Transfer(data);
      proceed := true;
    }

    /**
     What a data request leaves behind. DATACTRL is 0, except after a supported write with a
     short scatter list whose command succeeded; there the early return also leaves the error
     field 0. In every other case the error field is 0 exactly when the transfer was complete,
     and then the FIFO words match the scatter list.
     */
    predicate Completed(data: Data, commandOk: bool, words: seq<word>)
      reads this`datactrl, data, data.sg
    {
      var stuck := Short(data) && data.Supported() && commandOk;
      && (datactrl == 0 <==> !stuck)
      && (stuck ==> data.error == 0 && data.bytesXfered == 0 && words == [])
      && (!stuck ==>
            if data.error == 0
            then data.Supported() && data.bytesXfered == data.Size() && Faithful(data, words)
            else data.bytesXfered == 0)
    }

    /** The request after its set-block-count command. */
    method RunRest(cmd: Command, data: Data?, stop: Command?) returns (words: seq<word>)
      requires Valid() && datactrl == 0 && (data != null ==> data.sg != bounce) && stop != cmd
      modifies this`script, this`datactrl, this`log, this`sent, this`taken
      modifies bounce, cmd, Others(stop), Buffers(data)
      ensures data == null ==> datactrl == 0 && words == []
      ensures data != null ==>
                Completed(data, cmd.error == 0, words)
                && data.error == DataOutcome(old(script), cmd, data)
      ensures cmd.error == CommandOutcome(old(script), cmd, data)
      ensures stop != null ==>
                stop.error == if Reaches(cmd.error == 0, data)
                              then CommandResult(AfterData(old(script), cmd, data), stop.responds,
                                                 stop.checksCrc).0
                              else old(stop.error)
      ensures log == old(log) + RestSteps(cmd, data, stop, cmd.error == 0)
      ensures sent == old(sent) + (if data != null && !data.reading then words else [])
      ensures taken == old(taken) + (if data != null && data.reading then words else [])
    {
      words := [];
      var error: int, proceed;
      if data != null {
        error, words, proceed := RunData(cmd, data);
      } else {
        error := RunCommand(cmd);
        proceed := error == 0;
      }
      if stop != null && proceed {
        error := RunCommand(stop);
      }
    }

    /** shadow_sdcc_request; the error it computes itself is never reported. */
    method Request(sbc: Command?, cmd: Command, data: Data?, stop: Command?)
      returns (words: seq<word>)
      requires Valid() && datactrl == 0 && (data != null ==> data.sg != bounce)
      requires sbc != cmd && stop != cmd && (sbc != null ==> sbc != stop)
      modifies this, bounce, cmd, Others(sbc), Others(stop), Buffers(data)
      ensures completed == old(completed) + 1
      ensures data == null ==> datactrl == 0 && words == []
      ensures sbc != null ==>
                sbc.error == CommandResult(old(script), sbc.responds, sbc.checksCrc).0
      ensures SbcFailed(sbc) ==> datactrl == 0 && words == []
      ensures SbcFailed(sbc) && data != null ==>
                data.error == old(data.error) && data.bytesXfered == old(data.bytesXfered)
      ensures !SbcFailed(sbc) && data != null ==>
                Completed(data, cmd.error == 0, words)
                && data.error == DataOutcome(AfterSbc(old(script), sbc), cmd, data)
      ensures !SbcFailed(sbc) ==> cmd.error == CommandOutcome(AfterSbc(old(script), sbc), cmd, data)
      ensures stop != null ==>
                stop.error == if !SbcFailed(sbc) && Reaches(cmd.error == 0, data)
                              then CommandResult(AfterData(AfterSbc(old(script), sbc), cmd, data),
                                                 stop.responds, stop.checksCrc).0
                              else old(stop.error)
      ensures log == old(log) + RequestSteps(sbc, cmd, data, stop, !SbcFailed(sbc), cmd.error == 0)
      ensures sent == old(sent) + (if data != null && !data.reading then words else [])
      ensures taken == old(taken) + (if data != null && data.reading then words else [])
    {
      words := [];
      if sbc != null {
        var error := RunCommand(sbc);
        if error != 0 {
          completed := completed + 1;
          return;
        }
      }
      words := RunRest(cmd, data, stop);
      completed := completed + 1;
    }
  }

  predicate SbcFailed(sbc: Command?)
    reads sbc
  {
    sbc != null && sbc.error != 0
  }

  /** The steps of a data request: a read is enabled before its command, a write after it. */
  function DataSteps(cmd: Command, data: Data, commandOk: bool): seq<Event> {
    if data.reading then
      if !data.Supported() then []
      else [Enabled(data.Control()), Issued(cmd), Disabled]
    else if !commandOk then [Issued(cmd), Disabled]
    else if !data.Supported() then [Issued(cmd)]
    else [Issued(cmd), Enabled(data.Control())] + if Short(data) then [] else [Disabled]
  }

  /** The steps after the set-block-count command; a stop follows every transfer that was attempted. */
  function RestSteps(cmd: Command, data: Data?, stop: Command?, commandOk: bool): seq<Event> {
    (if data == null then [Issued(cmd)] else DataSteps(cmd, data, commandOk))
    + if stop != null && Reaches(commandOk, data) then [Issued(stop)] else []
  }

  /** An enabling that is for this transfer, right before a read's command or after a write's. */
  predicate Framed(steps: seq<Event>, i: nat, cmd: Command, data: Data) {
    && i < |steps| && steps[i].Enabled? && Starts(steps[i].control, data.blksz, data.reading)
    && if data.reading then i + 1 < |steps| && steps[i + 1] == Issued(cmd)
       else i > 0 && steps[i - 1] == Issued(cmd)
  }

  /**
   How a transfer is framed: the controller is enabled exactly for a supported transfer that goes
   ahead, for its own size and direction, right before a read's command or right after a write's;
   a read that is refused issues no command; and the last step disables the controller, except
   after a refused read, and after a write's command when the write is refused or its list too short.
   */
  lemma TransferFramed(cmd: Command, data: Data, commandOk: bool)
    ensures var steps := DataSteps(cmd, data, commandOk);
            && (forall i | 0 <= i < |steps| && steps[i].Enabled? :: Framed(steps, i, cmd, data))
            && ((exists i :: 0 <= i < |steps| && steps[i].Enabled?)
                <==> data.Supported() && (data.reading || commandOk))
            && (Issued(cmd) in steps <==> data.Supported() || !data.reading)
            && (Disabled in steps <==>
                  if data.reading then data.Supported()
                  else commandOk ==> data.Supported() && !Short(data))
            && (Disabled in steps ==> steps[|steps| - 1] == Disabled)
  {
    var steps := DataSteps(cmd, data, commandOk);
    ControlStarts(data);
    if data.Supported() && (data.reading || commandOk) {
      assert steps[if data.reading then 0 else 1] == Enabled(data.Control());
    }
  }

  /** A stop command is the last step, exactly after a command that succeeded and its transfer if any. */
  lemma StopLast(cmd: Command, data: Data?, stop: Command, commandOk: bool)
    requires stop != cmd
    ensures var steps := RestSteps(cmd, data, stop, commandOk);
            && (Issued(stop) in steps <==> commandOk && (data != null ==> data.Supported()))
            && (Issued(stop) in steps ==> steps[|steps| - 1] == Issued(stop))
  {
  }

  /** All steps of a request: the set-block-count command first, and nothing else if it fails. */
  function RequestSteps(sbc: Command?, cmd: Command, data: Data?, stop: Command?, sbcOk: bool,
                        commandOk: bool): (steps: seq<Event>)
    ensures forall i | 0 <= i < |steps| && steps[i].Enabled? ::
              data != null && Starts(steps[i].control, data.blksz, data.reading)
    ensures sbc != null ==> |steps| >= 1 && steps[0] == Issued(sbc) && (!sbcOk ==> |steps| == 1)
  {
    ControlStarts(data);
    (if sbc == null then [] else [Issued(sbc)]) + if sbcOk then RestSteps(cmd, data, stop, commandOk) else []
  }

  /** The data error field after a request whose set-block-count command, if any, succeeded. */
  function DataOutcome(script: seq<Poll>, cmd: Command, data: Data): int {
    if data.reading && !data.Supported() then -EINVAL
    else
      var (commanded, rest) := CommandResult(script, cmd.responds, cmd.checksCrc);
      if commanded != 0 then commanded
      else if !data.Supported() then -EINVAL
      else if Short(data) then 0
      else TransferResult(rest, data.reading, data.Size(), data.sg.Length).0
  }

  /**
   What a data request reports: a refusal, its command's failure, or the transfer's result, which
   is success exactly when the list is long enough, every word moves and the end of data is seen.
   */
  lemma DataReported(script: seq<Poll>, cmd: Command, data: Data)
    ensures var (commanded, rest) := CommandResult(script, cmd.responds, cmd.checksCrc);
            var reported := DataOutcome(script, cmd, data);
            && (!data.Supported() && (data.reading || commanded == 0) ==> reported == -22)
            && (commanded != 0 && (data.Supported() || !data.reading) ==> reported == commanded)
            && (data.Supported() && commanded == 0 && !Short(data) ==>
                  (reported == 0
                   <==> data.blksz <= data.sg.Length
                        && exists n: nat, m: nat :: Finishes(rest, data.reading, data.blksz, n, m)))
  {
    var (commanded, rest) := CommandResult(script, cmd.responds, cmd.checksCrc);
    SupportedIff(data);
    TransferSucceedsIff(rest, data.reading, data.Size(), data.sg.Length);
  }

  /** The error field of the request's own command; a read that is refused never issues it. */
  function CommandOutcome(script: seq<Poll>, cmd: Command, data: Data?): int {
    if data != null && data.reading && !data.Supported() then -EINVAL
    else CommandResult(script, cmd.responds, cmd.checksCrc).0
  }

  /** The request gets as far as its stop command. */
  predicate Reaches(commandOk: bool, data: Data?) {
    commandOk && (data != null ==> data.Supported())
  }

  /** The polls left for the stop command. */
  function AfterData(script: seq<Poll>, cmd: Command, data: Data?): seq<Poll> {
    var rest := CommandResult(script, cmd.responds, cmd.checksCrc).1;
    if data == null then rest
    else TransferResult(rest, data.reading, data.Size(), data.sg.Length).1
  }

  /** The polls left for the request's own command. */
  function AfterSbc(script: seq<Poll>, sbc: Command?): seq<Poll> {
    if sbc == null then script else CommandResult(script, sbc.responds, sbc.checksCrc).1
  }

  function Others(c: Command?): set<object> {
    if c == null then {} else {c}
  }

  function Buffers(data: Data?): set<object> {
    if data == null then {} else {data, data.sg}
  }

  /** The words are the first size bytes of the scatter list, in order. */
  predicate Moved(sg: seq<byte>, size: nat, words: seq<word>) {
    size <= |sg| && Carries(words, sg[..size])
  }

  /** A write whose scatter list holds fewer bytes than the transfer. */
  predicate Short(data: Data) {
    !data.reading && data.sg.Length < data.Size()
  }

  /** Exactly the words of the transfer went over the FIFO, and they match the scatter list. */
  predicate Faithful(data: Data, words: seq<word>)
    reads data.sg
  {
    && |words| == (data.Size() + 3) / 4
    && Moved(data.sg[..], data.Size(), words)
    && (data.reading || ZeroPadded(words, data.sg[..data.Size()]))
  }
}
