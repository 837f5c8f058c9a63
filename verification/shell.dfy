/** The PID 1 recovery shell: its line editor and its decimal printer. */
module Shell {
  import opened Bytes
  import opened Memory

  const LINE_LENGTH: nat := 96
  const CR: byte := 0x0D
  const LF: byte := 0x0A

  predicate Printable(c: byte) {
    32 <= c <= 126
  }

  predicate Erases(c: byte) {
    c == 8 || c == 127
  }

  /** One typed character other than LF. */
  function Type(line: seq<byte>, c: byte): (l: seq<byte>)
    ensures |line| < LINE_LENGTH ==> |l| < LINE_LENGTH
  {
    if Erases(c) then (if line == [] then [] else line[..|line| - 1])
    else if Printable(c) && |line| < LINE_LENGTH - 1 then line + [c]
    else line
  }

  /** The line left after typing a whole segment. */
  function Edited(line: seq<byte>, typed: seq<byte>): (l: seq<byte>)
    ensures |line| < LINE_LENGTH ==> |l| < LINE_LENGTH
    decreases |typed|
  {
    if typed == [] then line else Edited(Type(line, typed[0]), typed[1..])
  }

  /** The editor between two bytes: the unfinished line, the commands run and the prompts shown. */
  datatype State = State(line: seq<byte>, ran: seq<seq<byte>>, prompts: nat)

  function Step(s: State, c: byte): State {
    if c == LF then State([], if s.line == [] then s.ran else s.ran + [s.line], s.prompts + 1)
    else s.(line := Type(s.line, c))
  }

  function Feed(s: State, input: seq<byte>): State
    decreases |input|
  {
    if input == [] then s else Feed(Step(s, input[0]), input[1..])
  }

  function FeedAll(s: State, chunks: seq<seq<byte>>): State
    decreases |chunks|
  {
    if chunks == [] then s else FeedAll(Feed(s, chunks[0]), chunks[1..])
  }

  lemma {:induction false} FeedConcat(s: State, a: seq<byte>, b: seq<byte>)
    ensures Feed(s, a + b) == Feed(Feed(s, a), b)
    decreases |a|
  {
    if a == [] {
      assert a + b == b;
    } else {
      assert (a + b)[1..] == a[1..] + b;
      FeedConcat(Step(s, a[0]), a[1..], b);
    }
  }

  /** How reads split the input does not matter. */
  lemma {:induction false} ChunksDoNotMatter(s: State, chunks: seq<seq<byte>>)
    ensures FeedAll(s, chunks) == Feed(s, Concat(chunks))
    decreases |chunks|
  {
    if chunks != [] {
      ChunksDoNotMatter(Feed(s, chunks[0]), chunks[1..]);
      FeedConcat(s, chunks[0], Concat(chunks[1..]));
    }
  }

  /** The input cut at its LFs: the finished segments, and what follows the last LF. */
  function Segments(input: seq<byte>): (r: (seq<seq<byte>>, seq<byte>))
    decreases |input|
  {
    if input == [] then ([], [])
    else
      var (done, open) := Segments(input[1..]);
      if input[0] == LF then ([[]] + done, open)
      else if done == [] then ([], [input[0]] + open)
      else ([[input[0]] + done[0]] + done[1..], open)
  }

  /** The commands that a list of segments runs, the first of them typed after line. */
  function Commands(line: seq<byte>, segments: seq<seq<byte>>): seq<seq<byte>>
    decreases |segments|
  {
    if segments == [] then []
    else
      var first := Edited(line, segments[0]);
      (if first == [] then [] else [first]) + Commands([], segments[1..])
  }

  /** The state after typing these finished segments and then the open one. */
  function After(s: State, done: seq<seq<byte>>, open: seq<byte>): State {
    State(Edited(if done == [] then s.line else [], open), s.ran + Commands(s.line, done),
          s.prompts + |done|)
  }

  lemma AfterLf(s: State, done: seq<seq<byte>>, open: seq<byte>)
    ensures After(Step(s, LF), done, open) == After(s, [[]] + done, open)
  {
    var all := [[]] + done;
    assert all[0] == [] && all[1..] == done && Edited(s.line, []) == s.line;
    assert Step(s, LF).ran + Commands([], done) == s.ran + Commands(s.line, all);
  }

  lemma AfterOpen(s: State, c: byte, open: seq<byte>)
    requires c != LF
    ensures After(Step(s, c), [], open) == After(s, [], [c] + open)
  {
    assert ([c] + open)[1..] == open;
  }

  lemma AfterKey(s: State, c: byte, done: seq<seq<byte>>, open: seq<byte>)
    requires c != LF && done != []
    ensures After(Step(s, c), done, open) == After(s, [[c] + done[0]] + done[1..], open)
  {
    var all := [[c] + done[0]] + done[1..];
    assert all[1..] == done[1..] && all[0][1..] == done[0];
    assert Edited(s.line, all[0]) == Edited(Type(s.line, c), done[0]);
  }

  /**
   The editor, as a whole: for any input, it runs the edited form of each LF-terminated segment
   that is not edited down to nothing, in order, and keeps the edited form of what is left.
   */
  lemma {:induction false} FeedRunsSegments(s: State, input: seq<byte>)
    ensures Feed(s, input) == After(s, Segments(input).0, Segments(input).1)
    decreases |input|
  {
    if input == [] {
      assert s.ran + [] == s.ran;
    } else {
      var (done, open) := Segments(input[1..]);
      FeedRunsSegments(Step(s, input[0]), input[1..]);
      if input[0] == LF {
        AfterLf(s, done, open);
      } else if done == [] {
        AfterOpen(s, input[0], open);
      } else {
        AfterKey(s, input[0], done, open);
      }
    }
  }

  /** These lines, each ended by an LF, and then the open one. */
  function Joined(done: seq<seq<byte>>, open: seq<byte>): seq<byte> {
    if done == [] then open else done[0] + ([0x0A] + Joined(done[1..], open))
  }

  predicate Unbroken(done: seq<seq<byte>>, open: seq<byte>) {
    0x0A !in open && forall s | s in done :: 0x0A !in s
  }

  lemma {:induction false} SegmentsFirst(first: seq<byte>, rest: seq<byte>)
    requires 0x0A !in first
    ensures Segments(first + ([0x0A] + rest)) == ([first] + Segments(rest).0, Segments(rest).1)
  {
    var input := first + ([0x0A] + rest);
    if first == [] {
      assert input[1..] == rest;
    } else {
      assert input[1..] == first[1..] + ([0x0A] + rest);
      SegmentsFirst(first[1..], rest);
      assert first == [first[0]] + first[1..];
    }
  }

  lemma {:induction false} SegmentsOpen(open: seq<byte>)
    requires 0x0A !in open
    ensures Segments(open) == ([], open)
  {
    if open != [] {
      SegmentsOpen(open[1..]);
      assert open == [open[0]] + open[1..];
    }
  }

  /** Unbroken lines joined with LFs are cut into exactly those lines. */
  lemma {:induction false} SegmentsJoined(done: seq<seq<byte>>, open: seq<byte>)
    requires Unbroken(done, open)
    ensures Segments(Joined(done, open)) == (done, open)
    decreases |done|
  {
    if done == [] {
      SegmentsOpen(open);
    } else {
      SegmentsJoined(done[1..], open);
      SegmentsFirst(done[0], Joined(done[1..], open));
      assert done == [done[0]] + done[1..];
    }
  }

  /** Every input is its unbroken segments joined with LFs. */
  lemma {:induction false} SegmentsRejoin(input: seq<byte>)
    ensures Unbroken(Segments(input).0, Segments(input).1)
    ensures Joined(Segments(input).0, Segments(input).1) == input
    decreases |input|
  {
    if input != [] {
      var (done, open) := Segments(input[1..]);
      SegmentsRejoin(input[1..]);
      assert input == [input[0]] + input[1..];
      if input[0] == LF {
        assert ([[]] + done)[1..] == done;
      } else if done != [] {
        var all := [[input[0]] + done[0]] + done[1..];
        assert all[1..] == done[1..];
        assert Joined(all, open) == [input[0]] + Joined(done, open);
      }
    }
  }

  predicate Plain(s: seq<byte>) {
    forall i | 0 <= i < |s| :: 0x20 <= s[i] <= 0x7E
  }

  /** Printable text is taken as it is, up to 95 bytes; once the line is full the rest is dropped. */
  lemma {:induction false} EditedPlain(line: seq<byte>, text: seq<byte>)
    requires Plain(text) && |line| <= 95
    ensures var all := line + text; Edited(line, text) == if |all| <= 95 then all else all[..95]
    decreases |text|
  {
    if text != [] {
      EditedPlain(Type(line, text[0]), text[1..]);
      assert text == [text[0]] + text[1..];
      if |line| < 95 {
        assert line + text == (line + [text[0]]) + text[1..];
      } else {
        assert (line + text)[..95] == line == (line + text[1..])[..95];
      }
    }
  }

  /** A byte below 0x20 other than backspace, or above 0x7F, changes nothing wherever it is typed. */
  lemma OthersIgnored(line: seq<byte>, before: seq<byte>, c: byte, after: seq<byte>)
    requires (c < 0x20 && c != 0x08) || c > 0x7F
    ensures Edited(line, before + ([c] + after)) == Edited(line, before + after)
  {
    EditedConcat(line, before, [c] + after);
    EditedConcat(line, before, after);
    assert ([c] + after)[1..] == after;
  }

  lemma {:induction false} PlainCommands(lines: seq<seq<byte>>)
    requires forall l | l in lines :: Plain(l) && 1 <= |l| <= 95
    ensures Commands([], lines) == lines
    decreases |lines|
  {
    if lines != [] {
      EditedPlain([], lines[0]);
      assert [] + lines[0] == lines[0];
      PlainCommands(lines[1..]);
    }
  }

  /** Typed lines of 1 to 95 printable bytes are run as they were typed, in order, one prompt each. */
  lemma LinesRunAsTyped(s: State, lines: seq<seq<byte>>)
    requires s.line == [] && forall l | l in lines :: Plain(l) && 1 <= |l| <= 95
    ensures Feed(s, Joined(lines, [])) == State([], s.ran + lines, s.prompts + |lines|)
  {
    forall l | l in lines ensures 0x0A !in l {
    }
    SegmentsJoined(lines, []);
    FeedRunsSegments(s, Joined(lines, []));
    PlainCommands(lines);
  }

  lemma {:induction false} EditedConcat(line: seq<byte>, a: seq<byte>, b: seq<byte>)
    ensures Edited(line, a + b) == Edited(Edited(line, a), b)
    decreases |a|
  {
    if a == [] {
      assert a + b == b;
    } else {
      assert (a + b)[1..] == a[1..] + b;
      EditedConcat(Type(line, a[0]), a[1..], b);
    }
  }

  lemma TypeErase(line: seq<byte>, c: byte, e: byte)
    requires |line| < 96 && 0x20 <= c <= 0x7E && e in {0x08, 0x7F}
    ensures Type(Type(line, c), e) == line <==> |line| < 95
    ensures |line| == 95 ==> Type(Type(line, c), e) == line[..94]
    ensures Type([], e) == []
  {
    if |line| < LINE_LENGTH - 1 {
      assert (line + [c])[..|line|] == line;
    }
  }

  lemma EditedTwo(line: seq<byte>, c: byte, e: byte)
    ensures Edited(line, [c, e]) == Type(Type(line, c), e)
  {
    assert [c, e][1..] == [e] && [e][1..] == [];
    assert Edited(Type(line, c), [e]) == Edited(Type(Type(line, c), e), []);
  }

  /**
   Erasing undoes typing a character exactly when the line was not full; a full line loses its
   last character to it, and an empty one nothing.
   */
  lemma EraseUndoesIffRoom(line: seq<byte>, typed: seq<byte>, c: byte, e: byte)
    requires |line| < 96 && 0x20 <= c <= 0x7E && e in {0x08, 0x7F}
    ensures Edited(line, typed + [c, e]) == Edited(line, typed) <==> |Edited(line, typed)| < 95
    ensures |Edited(line, typed)| == 95 ==> Edited(line, typed + [c, e]) == Edited(line, typed)[..94]
    ensures Edited(line, typed) == [] ==> Edited(line, typed + [e]) == []
  {
    EditedConcat(line, typed, [e]);
    assert [e][1..] == [] && Edited(Edited(line, typed), [e]) == Edited(Type(Edited(line, typed), e), []);
    EditedConcat(line, typed, [c, e]);
    EditedTwo(Edited(line, typed), c, e);
    TypeErase(Edited(line, typed), c, e);
  }

  class Editor {
    const line: array<byte>
    var length: nat
    /** The commands run, each as the NUL-terminated text it was handed, and the prompts shown. */
    var ran: seq<seq<byte>>
    var prompts: nat

    constructor (line: array<byte>)
      requires line.Length == LINE_LENGTH
      ensures Valid() && this.line == line && Now() == State([], [], 0)
    {
      this.line, length, ran, prompts := line, 0, [], 0;
    }

    /** The unfinished line is printable and leaves room in its buffer for the closing NUL. */
    ghost predicate Valid()
      reads this, line
    {
      && line.Length == LINE_LENGTH && length < LINE_LENGTH
      && forall i | 0 <= i < length :: Printable(line[i])
    }

    ghost function Now(): State
      reads this, line
      requires Valid()
    {
      State(line[..length], ran, prompts)
    }

    /** The loop over the bytes of one read. */
    method Consume(input: seq<byte>)
      requires Valid()
      modifies this, line
      ensures Valid() && Now() == Feed(old(Now()), input)
    {
      ghost var s0 := Now();
      assert input[0..] == input;
      for index := 0 to |input|
        invariant Valid() && Feed(Now(), input[index..]) == Feed(s0, input)
      {
        assert input[index..][1..] == input[index + 1..];
        Key(input[index]);
      }
    }

    method Key(character: byte)
      requires Valid()
      modifies this, line
      ensures Valid() && Now() == Step(old(Now()), character)
    {
      ghost var typed := line[..length];
      if character == CR {
        return;
      }
      if character == LF {
        line[length] := 0;
        if length != 0 {
          RunCommand(typed);
        }
        length := 0;
        prompts := prompts + 1;
        return;
      }
      if character == 8 || character == 127 {
        if length != 0 {
          length := length - 1;
          assert line[..length] == typed[..length];
        }
        return;
      }
      if character >= 32 && character <= 126 && length < LINE_LENGTH - 1 {
        line[length] := character;
        length := length + 1;
        assert line[..length] == typed + [character];
      }
    }

    /** shadow_run_command: it is handed the buffer and sees the text up to the first NUL. */
    method RunCommand(ghost typed: seq<byte>)
      requires Valid() && line[..length] == typed && line[length] == 0
      modifies this`ran
      ensures ran == old(ran) + [typed]
    {
      assert line[..][0..length] == typed && 0 !in typed;
      TextAt(line[..], 0, typed);
      ran := ran + [Text(line[..], 0)];
    }
  }

  function Pow10(n: nat): (p: nat)
    ensures p > 0
  {
    if n == 0 then 1 else 10 * Pow10(n - 1)
  }

  predicate IsDecimal(s: seq<byte>) {
    forall i | 0 <= i < |s| :: 0x30 <= s[i] <= 0x39
  }

  /** The number a decimal numeral denotes. */
  function FromDecimal(s: seq<byte>): (n: nat)
    requires IsDecimal(s)
  {
    if s == [] then 0 else 10 * FromDecimal(s[..|s| - 1]) + (s[|s| - 1] - 0x30)
  }

  /** A numeral of value without a superfluous leading zero. */
  predicate Canonical(s: seq<byte>, value: nat) {
    && IsDecimal(s) && s != [] && FromDecimal(s) == value
    && (|s| > 1 ==> s[0] != 0x30)
  }

  lemma {:induction false} LeadingDigit(s: seq<byte>)
    requires IsDecimal(s) && s != [] && s[0] != 0x30
    ensures FromDecimal(s) > 0
    decreases |s|
  {
    if |s| > 1 {
      LeadingDigit(s[..|s| - 1]);
    } else {
      assert s[..0] == [];
    }
  }

  /** Each number has one canonical numeral. */
  lemma {:induction false} CanonicalUnique(a: seq<byte>, b: seq<byte>, value: nat)
    requires Canonical(a, value) && Canonical(b, value)
    ensures a == b
    decreases |a|
  {
    var p, q := a[..|a| - 1], b[..|b| - 1];
    assert a == p + [a[|a| - 1]] && b == q + [b[|b| - 1]];
    FrontCanonical(a, value);
    FrontCanonical(b, value);
    if p != [] && q != [] {
      CanonicalUnique(p, q, value / 10);
    }
  }

  /** Without its last digit a canonical numeral is empty or canonical. */
  lemma FrontCanonical(s: seq<byte>, value: nat)
    requires Canonical(s, value)
    ensures s[|s| - 1] == 0x30 + value % 10
    ensures s[..|s| - 1] == [] <==> value < 10
    ensures value >= 10 ==> Canonical(s[..|s| - 1], value / 10)
  {
    var p := s[..|s| - 1];
    assert FromDecimal(s) == 10 * FromDecimal(p) + (s[|s| - 1] - 0x30);
    if p != [] {
      LeadingDigit(p);
    }
  }

  lemma AppendDigit(s: seq<byte>, d: nat, rest: nat, place: nat, value: nat, before: nat)
    requires IsDecimal(s) && d < 10 && before == d * place + rest
    requires FromDecimal(s) * (10 * place) + before == value
    ensures IsDecimal(s + [0x30 + d]) && FromDecimal(s + [0x30 + d]) == 10 * FromDecimal(s) + d
    ensures FromDecimal(s + [0x30 + d]) * place + rest == value
  {
    var t := s + [0x30 + d];
    assert t[..|t| - 1] == s;
    assert (10 * FromDecimal(s) + d) * place == FromDecimal(s) * (10 * place) + d * place;
  }

  /** The inner loop: how often the place value can be subtracted. */
  method Digit(value: nat, place: nat) returns (digit: nat, rest: nat)
    requires place > 0 && value < 10 * place
    ensures digit < 10 && rest < place && value == digit * place + rest
  {
    digit, rest := 0, value;
    while rest >= place
      invariant value == digit * place + rest
    {
      rest := rest - place;
      digit := digit + 1;
    }
    if digit >= 10 {
      AtLeast(digit, 10, place);
    }
  }

  lemma AtLeast(a: nat, b: nat, c: nat)
    requires a >= b
    ensures a * c >= b * c
  {
    assert (a - b) * c >= 0;
  }

  lemma Places()
    ensures Pow10(10) > U32
  {
    assert Pow10(5) == 100000;
  }

  /** The printer before place index: text is what has been written, left is what remains. */
  predicate Printing(value: nat, index: nat, text: seq<byte>, left: nat) {
    && index <= 10 && |text| <= index && left < Pow10(10 - index)
    && IsDecimal(text) && FromDecimal(text) * Pow10(10 - index) + left == value
    && (index < 10 && text != [] ==> text[0] != 0x30)
    && (index == 10 ==> text != [] && (|text| > 1 ==> text[0] != 0x30))
  }

  /** One place: its digit is written unless it is a leading zero before the last place. */
  lemma PrintStep(value: nat, index: nat, text: seq<byte>, left: nat, digit: nat, rest: nat)
    returns (text': seq<byte>)
    requires Printing(value, index, text, left) && index < 10
    requires digit < 10 && rest < Pow10(9 - index) && left == digit * Pow10(9 - index) + rest
    ensures text' == if digit != 0 || text != [] || index == 9 then text + [0x30 + digit] else text
    ensures Printing(value, index + 1, text', rest)
  {
    if digit != 0 || text != [] || index == 9 {
      AppendDigit(text, digit, rest, Pow10(9 - index), value, left);
      text' := text + [0x30 + digit];
    } else {
      text' := text;
    }
  }

  lemma PrintStarts(value: word)
    ensures Printing(value, 0, [], value)
  {
    Places();
  }

  /** shadow_write_unsigned: the text it writes is the canonical numeral of any 32-bit value. */
  method WriteUnsigned(value: word) returns (text: seq<byte>)
    ensures Canonical(text, value) && 1 <= |text| <= 10
  {
    var left: nat, index: nat := value, 0;
    text := [];
    PrintStarts(value);
    while index < 10
      invariant Printing(value, index, text, left)
    {
      var digit, rest := Digit(left, Pow10(9 - index));
      ghost var next := PrintStep(value, index, text, left, digit, rest);
      if digit != 0 || text != [] || index == 9 {
        text := text + [0x30 + digit];
      }
      left := rest;
      index := index + 1;
    }
  }
}
