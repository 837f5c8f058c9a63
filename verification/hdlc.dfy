/** Asynchronous HDLC-like framing (RFC 1662 section 4.2) as the host tools print and parse it. */
module Hdlc {
  import opened Bytes
  import opened Bitwise
  import opened FrameCheck
  import Bursts
  import Polynomial

  const FLAG: byte := 0x7E
  const ESC: byte := 0x7D

  /** Exclusive-or with 0x20: complements bit 5. */
  function Toggle(b: byte): (t: byte)
    ensures b == t + 32 || t == b + 32
  {
    if (b / 32) % 2 == 1 then b - 32 else b + 32
  }

  lemma ToggleIsXor(b: byte)
    ensures Toggle(b) == Xor(b, 0x20)
  {
    assert Pow2(5) == 0x20;
    DigitFive(b);
    XorPower(b, 5);
  }

  lemma DigitFive(b: byte)
    ensures Digit(b, 5) == ((b / 32) % 2 == 1)
  {
    assert Digit(b, 5) == Digit(b / 2, 4) == Digit(b / 4, 3);
    assert Digit(b / 4, 3) == Digit(b / 8, 2) == Digit(b / 16, 1);
  }

  lemma ToggleTwice(b: byte)
    ensures Toggle(Toggle(b)) == b
  {
  }

  /** Octet stuffing: no flag survives inside the result. */
  function Stuff(body: seq<byte>): (wire: seq<byte>)
    ensures FLAG !in wire
    ensures body != [] ==> wire != []
  {
    if body == [] then []
    else
      (if body[0] == FLAG || body[0] == ESC then [ESC, Toggle(body[0])] else [body[0]])
      + Stuff(body[1..])
  }

  function Body(payload: seq<byte>): (body: seq<byte>)
    ensures |body| == |payload| + 2
  {
    payload + Le(X25(payload), 2)
  }

  function Frame(payload: seq<byte>): seq<byte> {
    [FLAG] + Stuff(Body(payload)) + [FLAG]
  }

  /** Pieces of a body are stuffed one by one. */
  lemma {:induction false} StuffConcat(a: seq<byte>, b: seq<byte>)
    ensures Stuff(a + b) == Stuff(a) + Stuff(b)
    decreases |a|
  {
    if a == [] {
      assert a + b == b;
    } else {
      assert (a + b)[1..] == a[1..] + b;
      StuffConcat(a[1..], b);
    }
  }

  /** Stuffing, octet by octet (section 4.2 of RFC 1662): 7E becomes 7D 5E, 7D becomes 7D 5D. */
  lemma StuffOctet(b: byte)
    ensures Stuff([b]) == if b == 0x7E then [0x7D, 0x5E] else if b == 0x7D then [0x7D, 0x5D] else [b]
  {
    assert [b][1..] == [];
  }

  /** The frame on the wire: the payload and then its check, low octet first, between two flags. */
  lemma FrameLayout(payload: seq<byte>, low: byte, high: byte)
    requires X25(payload) == low + 256 * high
    ensures Frame(payload) == [0x7E] + (Stuff(payload) + (Stuff([low]) + Stuff([high]))) + [0x7E]
  {
    StuffedTrailer(payload, X25(payload), low, high);
  }

  lemma StuffedTrailer(payload: seq<byte>, check: nat, low: byte, high: byte)
    requires check == low + 256 * high
    ensures Stuff(payload + Le(check, 2)) == Stuff(payload) + (Stuff([low]) + Stuff([high]))
  {
    TwoOctets(low, high);
    StuffConcat(payload, [low] + [high]);
    StuffConcat([low], [high]);
  }

  lemma TwoOctets(low: byte, high: byte)
    ensures Le(low + 256 * high, 2) == [low] + [high]
  {
    LeSplit(low + 256 * high, 2);
    LeSplit(high, 1);
    assert Le(0, 0) == [];
  }

  lemma StuffNext(done: seq<byte>, body: seq<byte>, i: nat)
    requires i < |body|
    ensures var piece := if body[i] == FLAG || body[i] == ESC then [ESC, Toggle(body[i])] else [body[i]];
            done + Stuff(body[i..]) == (done + piece) + Stuff(body[i + 1..])
  {
    assert body[i..][1..] == body[i + 1..];
  }

  method HdlcFrame(payload: seq<byte>) returns (frame: seq<byte>)
    ensures frame == Frame(payload)
  {
    var crc := Compute(payload);
    var body := payload + Le(crc, 2);
    var encoded: seq<byte> := [];
    ghost var whole := Stuff(body);
    for i := 0 to |body|
      invariant encoded + Stuff(body[i..]) == whole
    {
      StuffNext(encoded, body, i);
      if body[i] == FLAG || body[i] == ESC {
        encoded := encoded + [ESC, Toggle(body[i])];
      } else {
        encoded := encoded + [body[i]];
      }
    }
    assert body[|body|..] == [];
    frame := [FLAG] + encoded + [FLAG];
  }

  /** The receiver's unescaping; an escape with nothing after it is dropped. */
  function Unstuff(wire: seq<byte>, escaped: bool): seq<byte>
    decreases |wire|
  {
    if wire == [] then []
    else if escaped then [Toggle(wire[0])] + Unstuff(wire[1..], false)
    else if wire[0] == ESC then Unstuff(wire[1..], true)
    else [wire[0]] + Unstuff(wire[1..], false)
  }

  lemma {:induction false} UnstuffStuff(body: seq<byte>)
    ensures Unstuff(Stuff(body), false) == body
  {
    if body != [] {
      UnstuffStuff(body[1..]);
      var wire, rest := Stuff(body), Stuff(body[1..]);
      if body[0] == FLAG || body[0] == ESC {
        ToggleTwice(body[0]);
        assert wire[1..][1..] == rest;
        assert wire[1] == Toggle(body[0]);
        assert Unstuff(wire, false) == Unstuff(wire[1..], true);
      } else {
        assert wire[1..] == rest;
      }
    }
  }

  datatype Reply =
    | Timeout
    | Data(payload: seq<byte>)
    | CrcMismatch(got: nat, want: nat)

  /** What the reader makes of the bytes between two flags. */
  function Decode(encoded: seq<byte>): (r: Reply)
    ensures !r.Timeout?
  {
    var raw := Unstuff(encoded, false);
    if |raw| < 3 then Data(raw)
    else
      var payload := raw[..|raw| - 2];
      var got := FromLe(raw[|raw| - 2..]);
      if got != X25(payload) then CrcMismatch(got, X25(payload)) else Data(payload)
  }

  /** The reader over a byte stream: its reply, and the bytes it leaves unread. */
  function Scan(rx: seq<byte>, started: bool, encoded: seq<byte>): (Reply, seq<byte>)
    decreases |rx|
  {
    if rx == [] then (Timeout, [])
    else if rx[0] == FLAG then
      if !started || encoded == [] then Scan(rx[1..], true, encoded)
      else (Decode(encoded), rx[1..])
    else Scan(rx[1..], started, if started then encoded + [rx[0]] else encoded)
  }

  function Read(rx: seq<byte>): (Reply, seq<byte>) {
    Scan(rx, false, [])
  }

  /** The host's end of the serial line: bytes waiting to be read, bytes written. */
  class Port {
    var rx: seq<byte>
    var tx: seq<byte>

    constructor (incoming: seq<byte>)
      ensures rx == incoming && tx == []
    {
      rx, tx := incoming, [];
    }

    method Write(data: seq<byte>)
      modifies this`tx
      ensures tx == old(tx) + data
    {
      tx := tx + data;
    }

    method ReadFrame() returns (r: Reply)
      modifies this`rx
      ensures (r, rx) == Read(old(rx))
    {
      var started := false;
      var encoded: seq<byte> := [];
      while rx != []
        invariant Scan(rx, started, encoded) == Read(old(rx))
        decreases |rx|
      {
        var b := rx[0];
        rx := rx[1..];
        if b == FLAG {
          if !started {
            started := true;
          } else if encoded != [] {
            var raw := Unescape(encoded);
            if |raw| < 3 {
              return Data(raw);
            }
            var payload := raw[..|raw| - 2];
            var got := FromLe(raw[|raw| - 2..]);
            var want := Compute(payload);
            return if got != want then CrcMismatch(got, want) else Data(payload);
          }
        } else if started {
          encoded := encoded + [b];
        }
      }
      return Timeout;
    }
  }

  method Unescape(encoded: seq<byte>) returns (raw: seq<byte>)
    ensures raw == Unstuff(encoded, false)
  {
    raw := [];
    var escaped := false;
    ghost var rest, goal := encoded, Unstuff(encoded, false);
    for i := 0 to |encoded|
      invariant rest == encoded[i..] && raw + Unstuff(rest, escaped) == goal
    {
      rest := UnstuffStep(raw, rest, escaped);
      if escaped {
        raw := raw + [Toggle(encoded[i])];
        escaped := false;
      } else if encoded[i] == ESC {
        escaped := true;
      } else {
        raw := raw + [encoded[i]];
      }
    }
  }

  lemma UnstuffStep(raw: seq<byte>, rest: seq<byte>, escaped: bool) returns (later: seq<byte>)
    requires rest != []
    ensures later == rest[1..]
    ensures raw + Unstuff(rest, escaped)
         == if escaped then (raw + [Toggle(rest[0])]) + Unstuff(later, false)
            else if rest[0] == ESC then raw + Unstuff(later, true)
            else (raw + [rest[0]]) + Unstuff(later, false)
  {
    later := rest[1..];
  }

  function Flags(n: nat): (f: seq<byte>)
    ensures |f| == n && forall i | 0 <= i < n :: f[i] == 0x7E
  {
    seq(n, i => FLAG)
  }

  lemma {:induction false} ScanNoise(noise: seq<byte>, rest: seq<byte>)
    requires FLAG !in noise
    ensures Scan(noise + rest, false, []) == Scan(rest, false, [])
    decreases |noise|
  {
    if noise == [] {
      assert noise + rest == rest;
    } else {
      assert (noise + rest)[1..] == noise[1..] + rest;
      ScanNoise(noise[1..], rest);
    }
  }

  lemma {:induction false} ScanFlags(n: nat, started: bool, rest: seq<byte>)
    ensures Scan(Flags(n) + rest, started, []) == Scan(rest, started || n > 0, [])
    decreases n
  {
    if n == 0 {
      assert Flags(0) + rest == rest;
    } else {
      assert (Flags(n) + rest)[1..] == Flags(n - 1) + rest;
      ScanFlags(n - 1, true, rest);
    }
  }

  lemma {:induction false} ScanBody(wire: seq<byte>, rest: seq<byte>, encoded: seq<byte>)
    requires FLAG !in wire && encoded + wire != []
    ensures Scan(wire + [FLAG] + rest, true, encoded) == (Decode(encoded + wire), rest)
    decreases |wire|
  {
    var rx := wire + [FLAG] + rest;
    if wire == [] {
      assert rx[1..] == rest && encoded + wire == encoded;
    } else {
      assert rx[1..] == wire[1..] + [FLAG] + rest;
      assert encoded + wire == (encoded + [wire[0]]) + wire[1..];
      ScanBody(wire[1..], rest, encoded + [wire[0]]);
    }
  }

  /** Without its closing flag, what follows an opening flag is not a frame. */
  lemma {:induction false} ScanOpen(wire: seq<byte>, encoded: seq<byte>)
    requires FLAG !in wire
    ensures Scan(wire, true, encoded) == (Timeout, [])
    decreases |wire|
  {
    if wire != [] {
      ScanOpen(wire[1..], encoded + [wire[0]]);
    }
  }

  lemma {:induction false} UpToFlag(rx: seq<byte>) returns (front: seq<byte>, rest: seq<byte>)
    ensures rx == front + rest && 0x7E !in front && (rest == [] || rest[0] == 0x7E)
  {
    if rx == [] || rx[0] == 0x7E {
      front, rest := [], rx;
    } else {
      front, rest := UpToFlag(rx[1..]);
      front := [rx[0]] + front;
    }
  }

  lemma {:induction false} PastFlags(rx: seq<byte>) returns (n: nat, rest: seq<byte>)
    ensures rx == Flags(n) + rest && (rest == [] || rest[0] != 0x7E)
    ensures rx != [] && rx[0] == 0x7E ==> n > 0
  {
    if rx == [] || rx[0] != 0x7E {
      n, rest := 0, rx;
    } else {
      n, rest := PastFlags(rx[1..]);
      assert Flags(n + 1) == [FLAG] + Flags(n);
      n := n + 1;
    }
  }

  /**
   What the reader makes of any byte stream at all: it skips what is not a flag, then flags, and
   decodes the octets up to the next flag; if that flag never comes it times out with all consumed.
   */
  lemma ReadsFirstFrame(rx: seq<byte>)
    returns (noise: seq<byte>, n: nat, wire: seq<byte>, rest: seq<byte>)
    ensures 0x7E !in noise && 0x7E !in wire && (n == 0 ==> wire == []) && (wire == [] ==> rest == [])
    ensures rx == noise + (Flags(n) + (wire + rest)) && (rest != [] ==> rest[0] == 0x7E)
    ensures Read(rx) == if rest == [] then (Timeout, []) else (Decode(wire), rest[1..])
  {
    var flagged, later;
    noise, flagged := UpToFlag(rx);
    ScanNoise(noise, flagged);
    n, later := PastFlags(flagged);
    ScanFlags(n, false, later);
    if n == 0 {
      assert flagged == [];
      wire, rest := [], [];
    } else {
      wire, rest := UpToFlag(later);
      if rest == [] {
        assert later == wire;
        ScanOpen(wire, []);
      } else {
        assert later == wire + [FLAG] + rest[1..] && [] + wire == wire;
        ScanBody(wire, rest[1..], []);
      }
    }
  }

  /** Noise without flags, any number of spare flags, then one delimited stuffed body. */
  function Burst(noise: seq<byte>, spare: nat, body: seq<byte>): seq<byte> {
    noise + Flags(spare) + ([FLAG] + Stuff(body) + [FLAG])
  }

  lemma ReadBurst(noise: seq<byte>, spare: nat, body: seq<byte>, rest: seq<byte>)
    requires FLAG !in noise && body != []
    ensures Read(Burst(noise, spare, body) + rest) == (Decode(Stuff(body)), rest)
  {
    var wire := Stuff(body);
    var framed := wire + [FLAG] + rest;
    var flagged := Flags(spare + 1) + framed;
    assert Flags(spare + 1) == Flags(spare) + [FLAG];
    assert Burst(noise, spare, body) + rest == noise + flagged;
    ScanNoise(noise, flagged);
    ScanFlags(spare + 1, false, framed);
    ScanBody(wire, rest, []);
    assert [] + wire == wire;
  }

  lemma DecodeOwnBody(payload: seq<byte>)
    requires payload != []
    ensures Decode(Stuff(Body(payload))) == Data(payload)
  {
    UnstuffStuff(Body(payload));
    OwnTrailerAccepted(payload);
    assert Body(payload)[..|payload|] == payload;
  }

  /**
   One frame, after noise and spare flags, is read back and consumed through its closing flag,
   exactly when its payload is not empty: an empty payload comes back as its two check bytes.
   */
  lemma FrameRoundTrip(noise: seq<byte>, spare: nat, payload: seq<byte>, rest: seq<byte>)
    requires FLAG !in noise
    ensures var (reply, left) := Read(noise + Flags(spare) + Frame(payload) + rest);
            && left == rest
            && (reply == Data(payload) <==> payload != [])
            && (payload == [] ==> reply == Data([0, 0]))
  {
    ReadBurst(noise, spare, Body(payload), rest);
    if payload != [] {
      DecodeOwnBody(payload);
    } else {
      EmptyCheck();
      UnstuffStuff(Body(payload));
    }
  }

  lemma EmptyCheck()
    ensures Body([]) == [0, 0]
  {
    AllOnes(16);
    Powers();
    Complement(0xFFFF, 16);
    forall i | 0 <= i < 16 ensures Digit(X25([]), i) == Digit(0, i) {
      XorDigit(0xFFFF, 0xFFFF, i);
      XorDigit(0, 0, i);
    }
    DigitsDetermine(X25([]), 0, 16);
    LeSplit(0, 2);
    LeSplit(0, 1);
  }

  datatype Item = Item(noise: seq<byte>, spare: nat, payload: seq<byte>)

  function Stream(items: seq<Item>): seq<byte> {
    if items == [] then []
    else items[0].noise + Flags(items[0].spare) + Frame(items[0].payload) + Stream(items[1..])
  }

  /** n successive calls of the reader. */
  function ReadMany(rx: seq<byte>, n: nat): (seq<Reply>, seq<byte>)
    decreases n
  {
    if n == 0 then ([], rx)
    else
      var (first, left) := Read(rx);
      var (others, rest) := ReadMany(left, n - 1);
      ([first] + others, rest)
  }

  function Replies(items: seq<Item>): (r: seq<Reply>)
    ensures |r| == |items|
  {
    seq(|items|, i requires 0 <= i < |items| => Data(items[i].payload))
  }

  lemma ReadManyStep(rx: seq<byte>, n: nat, reply: Reply, left: seq<byte>)
    requires Read(rx) == (reply, left)
    ensures ReadMany(rx, n + 1) == ([reply] + ReadMany(left, n).0, ReadMany(left, n).1)
  {
  }

  /** Every list of non-empty payloads survives the line, in order, whatever follows it. */
  lemma {:induction false} StreamRoundTrip(items: seq<Item>, rest: seq<byte>)
    requires forall i | 0 <= i < |items| :: FLAG !in items[i].noise && items[i].payload != []
    ensures ReadMany(Stream(items) + rest, |items|) == (Replies(items), rest)
    decreases |items|
  {
    if items == [] {
      assert Stream(items) + rest == rest;
    } else {
      StreamFirst(items, rest);
      StreamRoundTrip(items[1..], rest);
      ReadManyStep(Stream(items) + rest, |items| - 1, Data(items[0].payload),
                   Stream(items[1..]) + rest);
      RepliesFirst(items);
    }
  }

  lemma RepliesFirst(items: seq<Item>)
    requires items != []
    ensures Replies(items) == [Data(items[0].payload)] + Replies(items[1..])
  {
  }

  lemma StreamFirst(items: seq<Item>, rest: seq<byte>)
    requires items != [] && FLAG !in items[0].noise && items[0].payload != []
    ensures Read(Stream(items) + rest) == (Data(items[0].payload), Stream(items[1..]) + rest)
  {
    var item, tail := items[0], Stream(items[1..]) + rest;
    var front := item.noise + Flags(item.spare) + Frame(item.payload);
    assert Stream(items) + rest == front + tail;
    FrameRoundTrip(item.noise, item.spare, item.payload, tail);
  }

  /**
   A damaged body never yields its payload: if the body between the flags differs from the one
   sent within sixteen consecutive bits, the reader reports a mismatch and resumes after it.
   */
  lemma DamageReported(payload: seq<byte>, bad: seq<byte>, at: nat,
                       noise: seq<byte>, spare: nat, rest: seq<byte>)
    requires payload != [] && FLAG !in noise
    requires |bad| == |Body(payload)| && bad != Body(payload)
    requires Bursts.Burst(Polynomial.MessageBits(Body(payload)), Polynomial.MessageBits(bad), at, 16)
    ensures var (reply, left) := Read(Burst(noise, spare, bad) + rest);
            reply.CrcMismatch? && left == rest
  {
    OwnTrailerAccepted(payload);
    BurstRejected(Body(payload), bad, at);
    ReadBurst(noise, spare, bad, rest);
    UnstuffStuff(bad);
  }

  /** Two frames with n flags between the first's closing flag and the second's body. */
  function Sharing(first: seq<byte>, n: nat, second: seq<byte>): seq<byte> {
    Frame(first) + (Flags(n) + Frame(second)[1..])
  }

  /**
   RFC 1662 lets one flag close a frame and open the next. This reader consumes the closing
   flag, so it returns both frames if and only if a further flag opens the second; otherwise it
   skips the second as noise.
   */
  lemma SharedFlagIff(first: seq<byte>, n: nat, second: seq<byte>)
    requires first != [] && second != []
    ensures var (replies, left) := ReadMany(Sharing(first, n, second), 2);
            && replies[0] == Data(first) && left == []
            && (replies[1] == Data(second) <==> n >= 1)
            && (n == 0 ==> replies[1] == Timeout)
  {
    var tail := FrameTail(second);
    var later := Flags(n) + tail;
    FirstFrame(first, later);
    ReadManyStep(Sharing(first, n, second), 1, Data(first), later);
    if n == 0 {
      assert later == tail;
      LoneTail(second, tail);
      ReadManyStep(later, 0, Timeout, []);
    } else {
      OwnFlag(n, second, tail);
      FrameRoundTrip([], n - 1, second, []);
      ReadManyStep(later, 0, Data(second), []);
    }
  }

  /** The last of n flags is the opening flag of what follows. */
  lemma OwnFlag(n: nat, payload: seq<byte>, tail: seq<byte>)
    requires n >= 1 && tail == Frame(payload)[1..]
    ensures Flags(n) + tail == [] + Flags(n - 1) + Frame(payload) + []
  {
    assert Frame(payload) == [FLAG] + tail;
    assert Flags(n) == Flags(n - 1) + [FLAG];
  }

  lemma FrameTail(payload: seq<byte>) returns (tail: seq<byte>)
    ensures tail == Stuff(Body(payload)) + [FLAG] == Frame(payload)[1..]
  {
    tail := Stuff(Body(payload)) + [FLAG];
  }

  lemma FirstFrame(payload: seq<byte>, left: seq<byte>)
    requires payload != []
    ensures Read(Frame(payload) + left) == (Data(payload), left)
  {
    assert [] + Flags(0) + Frame(payload) + left == Frame(payload) + left;
    FrameRoundTrip([], 0, payload, left);
  }

  lemma LoneTail(payload: seq<byte>, left: seq<byte>)
    requires left == Stuff(Body(payload)) + [FLAG]
    ensures Read(left) == (Timeout, [])
  {
    ScanNoise(Stuff(Body(payload)), [FLAG]);
    assert [FLAG][1..] == [];
    assert Scan([FLAG], false, []) == Scan([], true, []);
  }
}
