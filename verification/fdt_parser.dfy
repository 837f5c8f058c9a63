/** parse_fdt: a cursor, a node stack and a property dictionary over an arbitrary byte string. */
module FdtParser {
  import opened Bytes
  import opened FdtFormat

  datatype Error =
    | ShortHeader | BadMagic | SizeMismatch | StructOutOfBounds | StringsOutOfBounds
    | ReserveOutOfBounds | UnterminatedString | NotAscii | UnbalancedEnd
    | TruncatedPropertyHeader | TruncatedPropertyValue | NameOutOfBounds
    | UnbalancedStack | UnknownToken(token: nat) | NoEndToken

  datatype Result<T> = Ok(value: T) | Fail(error: Error)

  /** The first NUL in data[offset..limit], as bytes.find reports it. */
  function FindNul(data: seq<byte>, offset: nat, limit: nat): (r: int)
    requires limit <= |data|
    ensures r == -1 || (offset <= r < limit && data[r] == 0 && 0 !in data[offset..r])
    decreases limit - offset
  {
    if offset >= limit then -1
    else if data[offset] == 0 then offset
    else
      var r := FindNul(data, offset + 1, limit);
      assert r != -1 ==> data[offset..r] == [data[offset]] + data[offset + 1..r];
      r
  }

  predicate Ascii(s: seq<byte>) {
    forall i | 0 <= i < |s| :: s[i] < 128
  }

  function CString(data: seq<byte>, offset: nat, limit: nat): (r: Result<Text>)
    requires limit <= |data|
    ensures r.Ok? ==> offset + |r.value| < limit && Name(r.value)
    ensures r.Ok? ==> data[offset..offset + |r.value|] == r.value
  {
    var end := FindNul(data, offset, limit);
    if end < 0 then Fail(UnterminatedString)
    else if !Ascii(data[offset..end]) then Fail(NotAscii)
    else
      var name := data[offset..end];
      assert forall i | 0 <= i < |name| :: name[i] in name;
      Ok(name)
  }

  function Be32At(data: seq<byte>, at: nat): nat
    requires at + 4 <= |data|
  {
    FromBe(data[at..at + 4])
  }

  function Be64At(data: seq<byte>, at: nat): nat
    requires at + 8 <= |data|
  {
    FromBe(data[at..at + 8])
  }

  /** The reserve map from cursor on, after the entries already found. */
  function Reserves(dtb: seq<byte>, cursor: nat, found: seq<(nat, nat)>): Result<seq<(nat, nat)>>
    decreases |dtb| - cursor
  {
    if cursor + 16 > |dtb| then Fail(ReserveOutOfBounds)
    else
      var entry := (Be64At(dtb, cursor), Be64At(dtb, cursor + 8));
      if entry == (0, 0) then Ok(found) else Reserves(dtb, cursor + 16, found + [entry])
  }

  /** The blocks the header announces; both lie inside the blob. */
  datatype Layout = Layout(structEnd: nat, stringsOffset: nat, stringsSize: nat)

  predicate Inside(dtb: seq<byte>, l: Layout) {
    l.structEnd <= |dtb| && l.stringsOffset + l.stringsSize <= |dtb|
  }

  /** One property token, its token word already read: the key, the value, the next cursor. */
  function PropertyAt(dtb: seq<byte>, l: Layout, cursor: nat): (r: Result<(Text, seq<byte>, nat)>)
    requires Inside(dtb, l)
    ensures r.Ok? ==> r.value.2 >= cursor + 8
  {
    if cursor + 8 > l.structEnd then Fail(TruncatedPropertyHeader)
    else
      var length, nameOffset := Be32At(dtb, cursor), Be32At(dtb, cursor + 4);
      if cursor + 8 + length > l.structEnd then Fail(TruncatedPropertyValue)
      else if nameOffset >= l.stringsSize then Fail(NameOutOfBounds)
      else
        match CString(dtb, l.stringsOffset + nameOffset, l.stringsOffset + l.stringsSize)
        case Fail(e) => Fail(e)
        case Ok(name) =>
          Ok((name, dtb[cursor + 8..cursor + 8 + length], Align4(cursor + 8 + length)))
  }

  datatype Token = Begin(name: Text) | End | Prop(name: Text, value: seq<byte>)

  /** What stands at a cursor: a token and the next cursor, a no-op, the end, or an error. */
  datatype Lexeme = Lexed(token: Token, next: nat) | Skip(next: nat) | Stop | Bad(error: Error)

  function Lex(dtb: seq<byte>, l: Layout, cursor: nat): (x: Lexeme)
    requires Inside(dtb, l)
    ensures x.Lexed? || x.Skip? ==> x.next > cursor && cursor + 4 <= l.structEnd
  {
    if cursor + 4 > l.structEnd then Bad(NoEndToken)
    else
      var token, at := Be32At(dtb, cursor), cursor + 4;
      if token == BEGIN_NODE then
        match CString(dtb, at, l.structEnd)
        case Fail(e) => Bad(e)
        case Ok(name) => Lexed(Begin(name), Align4(at + |name| + 1))
      else if token == END_NODE then Lexed(End, at)
      else if token == PROP then
        match PropertyAt(dtb, l, at)
        case Fail(e) => Bad(e)
        case Ok((name, value, next)) => Lexed(Prop(name, value), next)
      else if token == NOP then Skip(at)
      else if token == END then Stop
      else Bad(UnknownToken(token))
  }

  /**
   The token words: 2 ends a node, 4 is skipped, 9 ends the block; 1 begins a node with its
   NUL-terminated name behind it and 3 is a property with length, name offset and value behind it,
   both followed by padding to a multiple of four; anything else is refused.
   */
  lemma LexAt(dtb: seq<byte>, l: Layout, cursor: nat)
    requires Inside(dtb, l)
    ensures cursor + 4 > l.structEnd ==> Lex(dtb, l, cursor) == Bad(NoEndToken)
    ensures cursor + 4 <= l.structEnd ==>
            var token, x := FromBe(dtb[cursor..cursor + 4]), Lex(dtb, l, cursor);
            && (token == 2 ==> x == Lexed(End, cursor + 4))
            && (token == 4 ==> x == Skip(cursor + 4))
            && (token == 9 ==> x == Stop)
            && (token !in {1, 2, 3, 4, 9} ==> x == Bad(UnknownToken(token)))
            && (token == 1 && x.Lexed? ==> BeginsAt(dtb, l, cursor, x))
            && (token == 3 && x.Lexed? ==> PropertyStandsAt(dtb, l, cursor, x))
  {
    if cursor + 4 <= l.structEnd {
      var token, x := FromBe(dtb[cursor..cursor + 4]), Lex(dtb, l, cursor);
      if token == 1 && x.Lexed? {
        LexBegins(dtb, l, cursor);
      } else if token == 3 && x.Lexed? {
        LexProperty(dtb, l, cursor);
      }
    }
  }

  /** A name is refused for want of a NUL before the limit, or for a byte that is not ASCII before it. */
  lemma NameRefusedIff(data: seq<byte>, offset: nat, limit: nat)
    requires limit <= |data|
    ensures var r := CString(data, offset, limit);
            && (r == Fail(UnterminatedString) <==> forall i | offset <= i < limit :: data[i] != 0)
            && (r.Ok? <==> exists end :: EndsAt(data, offset, limit, end) && Ascii(data[offset..end]))
            && (r.Fail? ==> r.error in {UnterminatedString, NotAscii})
  {
    var end := FindNul(data, offset, limit);
    NulIff(data, offset, limit);
    if end != -1 {
      assert EndsAt(data, offset, limit, end) by {
        forall i | offset <= i < end ensures data[i] != 0 {
          assert data[offset..end][i - offset] == data[i];
        }
      }
      forall other | EndsAt(data, offset, limit, other) ensures other == end {
      }
    }
  }

  /** The first NUL from offset on stands at end. */
  predicate EndsAt(data: seq<byte>, offset: nat, limit: nat, end: int) {
    && offset <= end < limit <= |data| && data[end] == 0
    && forall i | offset <= i < end :: data[i] != 0
  }

  lemma {:induction false} NulIff(data: seq<byte>, offset: nat, limit: nat)
    requires limit <= |data|
    ensures FindNul(data, offset, limit) == -1 <==> forall i | offset <= i < limit :: data[i] != 0
    decreases limit - offset
  {
    if offset < limit && data[offset] != 0 {
      NulIff(data, offset + 1, limit);
    }
  }

  /** Why a property is refused: its two words, then its value, do not fit the block, or its name does not. */
  lemma PropertyRefused(dtb: seq<byte>, l: Layout, at: nat)
    requires Inside(dtb, l)
    ensures PropertyAt(dtb, l, at) == Fail(TruncatedPropertyHeader) <==> at + 8 > l.structEnd
    ensures at + 8 <= l.structEnd ==>
            var length, nameOffset := FromBe(dtb[at..at + 4]), FromBe(dtb[at + 4..at + 8]);
            && (PropertyAt(dtb, l, at) == Fail(TruncatedPropertyValue) <==> at + 8 + length > l.structEnd)
            && (PropertyAt(dtb, l, at) == Fail(NameOutOfBounds)
                <==> at + 8 + length <= l.structEnd && nameOffset >= l.stringsSize)
  {
    if at + 8 <= l.structEnd {
      NameRefusedIff(dtb, l.stringsOffset + Be32At(dtb, at + 4), l.stringsOffset + l.stringsSize);
    }
  }

  lemma LexBegins(dtb: seq<byte>, l: Layout, cursor: nat)
    requires Inside(dtb, l) && cursor + 4 <= l.structEnd
    requires FromBe(dtb[cursor..cursor + 4]) == 1 && Lex(dtb, l, cursor).Lexed?
    ensures BeginsAt(dtb, l, cursor, Lex(dtb, l, cursor))
  {
    HasName(dtb, cursor + 4, l.structEnd);
  }

  lemma LexProperty(dtb: seq<byte>, l: Layout, cursor: nat)
    requires Inside(dtb, l) && cursor + 4 <= l.structEnd
    requires FromBe(dtb[cursor..cursor + 4]) == 3 && Lex(dtb, l, cursor).Lexed?
    ensures PropertyStandsAt(dtb, l, cursor, Lex(dtb, l, cursor))
  {
    PropertyParts(dtb, l, cursor + 4);
  }

  lemma PropertyParts(dtb: seq<byte>, l: Layout, at: nat)
    requires Inside(dtb, l) && PropertyAt(dtb, l, at).Ok?
    ensures at + 8 <= l.structEnd
    ensures var (name, value, next) := PropertyAt(dtb, l, at).value;
            var length, nameOffset := FromBe(dtb[at..at + 4]), FromBe(dtb[at + 4..at + 8]);
            && at + 8 + length <= l.structEnd && value == dtb[at + 8..at + 8 + length]
            && nameOffset < l.stringsSize && next == Align4(at + 8 + length)
            && NamedAt(dtb, l.stringsOffset + nameOffset, l.stringsOffset + l.stringsSize, name)
  {
    HasName(dtb, l.stringsOffset + Be32At(dtb, at + 4), l.stringsOffset + l.stringsSize);
  }

  predicate BeginsAt(dtb: seq<byte>, l: Layout, cursor: nat, x: Lexeme) {
    && x.Lexed? && x.token.Begin?
    && NamedAt(dtb, cursor + 4, l.structEnd, x.token.name)
    && x.next % 4 == 0 && cursor + 4 + |x.token.name| + 1 <= x.next < cursor + 4 + |x.token.name| + 5
  }

  predicate PropertyStandsAt(dtb: seq<byte>, l: Layout, cursor: nat, x: Lexeme) {
    && x.Lexed? && x.token.Prop? && cursor + 12 <= l.structEnd <= |dtb| &&
    var length, nameOffset := FromBe(dtb[cursor + 4..cursor + 8]), FromBe(dtb[cursor + 8..cursor + 12]);
    && cursor + 12 + length <= l.structEnd && x.token.value == dtb[cursor + 12..cursor + 12 + length]
    && nameOffset < l.stringsSize
    && NamedAt(dtb, l.stringsOffset + nameOffset, l.stringsOffset + l.stringsSize, x.token.name)
    && x.next % 4 == 0 && cursor + 12 + length <= x.next < cursor + 12 + length + 4
  }

  /** ASCII text of this name stands there, ended by a NUL before the limit. */
  predicate NamedAt(dtb: seq<byte>, at: nat, limit: nat, name: Text) {
    && at + |name| < limit <= |dtb| && Name(name)
    && dtb[at..at + |name|] == name && dtb[at + |name|] == 0
  }

  lemma HasName(dtb: seq<byte>, at: nat, limit: nat)
    requires limit <= |dtb|
    ensures CString(dtb, at, limit).Ok? ==> NamedAt(dtb, at, limit, CString(dtb, at, limit).value)
  {
  }

  /** Bytes left in the structure block: what every step of the parser consumes. */
  function Left(l: Layout, cursor: nat): nat {
    if cursor <= l.structEnd then l.structEnd - cursor else 0
  }

  /** The structure block from cursor on. */
  function Walk(dtb: seq<byte>, l: Layout, cursor: nat, stack: seq<Text>, found: Properties)
    : Result<Properties>
    requires Inside(dtb, l)
    decreases Left(l, cursor)
  {
    match Lex(dtb, l, cursor)
    case Bad(e) => Fail(e)
    case Stop => if stack != [] then Fail(UnbalancedStack) else Ok(found)
    case Skip(next) => Walk(dtb, l, next, stack, found)
    case Lexed(Begin(name), next) => Walk(dtb, l, next, stack + [name], found)
    case Lexed(End, next) =>
      if stack == [] then Fail(UnbalancedEnd)
      else Walk(dtb, l, next, stack[..|stack| - 1], found)
    case Lexed(Prop(name, value), next) =>
      Walk(dtb, l, next, stack, found[(Path(stack), name) := value])
  }

  /** The ten header words and the checks on them. */
  function CheckHeader(dtb: seq<byte>): (r: Result<(nat, nat, Layout)>)
    ensures r.Ok? ==> Inside(dtb, r.value.2)
  {
    if |dtb| < 40 then Fail(ShortHeader)
    else
      var structOffset, stringsOffset := Be32At(dtb, 8), Be32At(dtb, 12);
      var stringsSize, structSize := Be32At(dtb, 32), Be32At(dtb, 36);
      if Be32At(dtb, 0) != FDT_MAGIC then Fail(BadMagic)
      else if Be32At(dtb, 4) != |dtb| then Fail(SizeMismatch)
      else if structOffset + structSize > |dtb| then Fail(StructOutOfBounds)
      else if stringsOffset + stringsSize > |dtb| then Fail(StringsOutOfBounds)
      else Ok((Be32At(dtb, 16), structOffset,
               Layout(structOffset + structSize, stringsOffset, stringsSize)))
  }

  lemma FromBe4(s: seq<byte>, a: nat, b: nat, c: nat, d: nat)
    requires |s| == 4 && a == s[0] && b == s[1] && c == s[2] && d == s[3]
    ensures FromBe(s) == ((a * 256 + b) * 256 + c) * 256 + d
  {
    var s3, s2, s1 := s[..3], s[..2], s[..1];
    assert s3[..2] == s2 && s2[..1] == s1 && s1[..0] == [];
    assert FromBe(s1) == a;
    assert FromBe(s2) == a * 256 + b;
    assert FromBe(s3) == (a * 256 + b) * 256 + c;
  }

  /** The blocks the header words at 8 and 36 and at 12 and 32 describe lie inside the blob. */
  predicate Fitting(dtb: seq<byte>) {
    && |dtb| >= 40
    && FromBe(dtb[8..12]) + FromBe(dtb[36..40]) <= |dtb|
    && FromBe(dtb[12..16]) + FromBe(dtb[32..36]) <= |dtb|
  }

  /** What passes the header checks: the magic D0 0D FE ED, the blob's own length, and blocks inside it. */
  lemma HeaderIff(dtb: seq<byte>)
    ensures CheckHeader(dtb).Ok?
       <==> Fitting(dtb) && dtb[..4] == [0xD0, 0x0D, 0xFE, 0xED] && FromBe(dtb[4..8]) == |dtb|
    ensures CheckHeader(dtb) == Fail(ShortHeader) <==> |dtb| < 40
    ensures CheckHeader(dtb) == Fail(BadMagic) <==> |dtb| >= 40 && dtb[..4] != [0xD0, 0x0D, 0xFE, 0xED]
    ensures CheckHeader(dtb) == Fail(SizeMismatch)
       <==> |dtb| >= 40 && dtb[..4] == [0xD0, 0x0D, 0xFE, 0xED] && FromBe(dtb[4..8]) != |dtb|
    ensures CheckHeader(dtb).Ok? ==>
              CheckHeader(dtb).value
              == (FromBe(dtb[16..20]), FromBe(dtb[8..12]),
                  Layout(FromBe(dtb[8..12]) + FromBe(dtb[36..40]), FromBe(dtb[12..16]), FromBe(dtb[32..36])))
  {
    if |dtb| >= 40 {
      var m := dtb[..4];
      assert m == dtb[0..4];
      FromBe4(m, m[0], m[1], m[2], m[3]);
      assert m == [m[0], m[1], m[2], m[3]];
    }
  }

  datatype Parsed = Parsed(reserves: seq<(nat, nat)>, properties: Properties)

  function Parse(dtb: seq<byte>): Result<Parsed> {
    match CheckHeader(dtb)
    case Fail(e) => Fail(e)
    case Ok((reserveOffset, structOffset, l)) =>
      match Reserves(dtb, reserveOffset, [])
      case Fail(e) => Fail(e)
      case Ok(reserves) =>
        match Walk(dtb, l, structOffset, [], map[])
        case Fail(e) => Fail(e)
        case Ok(properties) => Ok(Parsed(reserves, properties))
  }

  /** Entry i of the reserve map. */
  function EntryAt(dtb: seq<byte>, start: nat, i: nat): (nat, nat)
    requires start + 16 * i + 16 <= |dtb|
  {
    (FromBe(dtb[start + 16 * i..start + 16 * i + 8]), FromBe(dtb[start + 16 * i + 8..start + 16 * i + 16]))
  }

  /** The first n entries lie inside the blob and none of them is (0, 0). */
  predicate Running(dtb: seq<byte>, start: nat, n: nat) {
    start + 16 * n <= |dtb| && forall i | 0 <= i < n :: EntryAt(dtb, start, i) != (0, 0)
  }

  function Entries(dtb: seq<byte>, start: nat, n: nat): (e: seq<(nat, nat)>)
    requires start + 16 * n <= |dtb|
    ensures |e| == n
  {
    seq(n, i requires 0 <= i < n => EntryAt(dtb, start, i))
  }

  lemma {:induction false} ReservesRun(dtb: seq<byte>, start: nat, n: nat, found: seq<(nat, nat)>)
    requires Running(dtb, start, n)
    ensures Reserves(dtb, start, found) == Reserves(dtb, start + 16 * n, found + Entries(dtb, start, n))
    decreases n
  {
    if n == 0 {
      assert found + Entries(dtb, start, 0) == found;
    } else {
      var first, next := EntryAt(dtb, start, 0), start + 16;
      EntriesFirst(dtb, start, n);
      ReservesRun(dtb, next, n - 1, found + [first]);
      assert found + ([first] + Entries(dtb, next, n - 1)) == (found + [first]) + Entries(dtb, next, n - 1);
    }
  }

  lemma EntriesFirst(dtb: seq<byte>, start: nat, n: nat)
    requires Running(dtb, start, n) && n > 0
    ensures Running(dtb, start + 16, n - 1)
    ensures Entries(dtb, start, n) == [EntryAt(dtb, start, 0)] + Entries(dtb, start + 16, n - 1)
  {
    var next := start + 16;
    forall i | 0 <= i < n - 1 ensures EntryAt(dtb, next, i) == EntryAt(dtb, start, i + 1) {
    }
  }

  /**
   The reserve map, on any blob: the entries up to a first (0, 0) are returned, and it is out of
   bounds if and only if the blob ends before there is one.
   */
  lemma ReservesUpToZero(dtb: seq<byte>, start: nat, n: nat)
    requires Running(dtb, start, n)
    ensures start + 16 * n + 16 > |dtb| ==> Reserves(dtb, start, []) == Fail(ReserveOutOfBounds)
    ensures start + 16 * n + 16 <= |dtb| && EntryAt(dtb, start, n) == (0, 0) ==>
              Reserves(dtb, start, []) == Ok(Entries(dtb, start, n))
  {
    ReservesRun(dtb, start, n, []);
    assert [] + Entries(dtb, start, n) == Entries(dtb, start, n);
  }

  method ScanReserves(dtb: seq<byte>, start: nat) returns (r: Result<seq<(nat, nat)>>)
    ensures r == Reserves(dtb, start, [])
  {
    var reserves: seq<(nat, nat)> := [];
    var cursor := start;
    while true
      invariant Reserves(dtb, cursor, reserves) == Reserves(dtb, start, [])
      decreases |dtb| - cursor
    {
      if cursor + 16 > |dtb| {
        return Fail(ReserveOutOfBounds);
      }
      var address, size := Be64At(dtb, cursor), Be64At(dtb, cursor + 8);
      cursor := cursor + 16;
      if address == 0 && size == 0 {
        return Ok(reserves);
      }
      reserves := reserves + [(address, size)];
    }
  }

  method WalkStructure(dtb: seq<byte>, l: Layout, start: nat) returns (r: Result<Properties>)
    requires Inside(dtb, l)
    ensures r == Walk(dtb, l, start, [], map[])
  {
    var found: Properties := map[];
    var stack: seq<Text> := [];
    var cursor: nat := start;
    while true
      invariant Walk(dtb, l, cursor, stack, found) == Walk(dtb, l, start, [], map[])
      decreases Left(l, cursor)
    {
      match Lex(dtb, l, cursor) {
        case Bad(e) => return Fail(e);
        case Stop =>
          if stack != [] { return Fail(UnbalancedStack); }
          return Ok(found);
        case Skip(next) => cursor := next;
        case Lexed(Begin(name), next) =>
          cursor := next;
          stack := stack + [name];
        case Lexed(End, next) =>
          if stack == [] { return Fail(UnbalancedEnd); }
          stack := stack[..|stack| - 1];
          cursor := next;
        case Lexed(Prop(name, value), next) =>
          found := found[(Path(stack), name) := value];
          cursor := next;
      }
    }
  }

  method ParseFdt(dtb: seq<byte>) returns (r: Result<Parsed>)
    ensures r == Parse(dtb)
  {
    var header := CheckHeader(dtb);
    if header.Fail? { return Fail(header.error); }
    var (reserveOffset, structOffset, l) := header.value;
    var reserves := ScanReserves(dtb, reserveOffset);
    if reserves.Fail? { return Fail(reserves.error); }
    var properties := WalkStructure(dtb, l, structOffset);
    if properties.Fail? { return Fail(properties.error); }
    return Ok(Parsed(reserves.value, properties.value));
  }

  /** The tokens of a structure block, read without any stack; None if the block is malformed. */
  function Tokens(dtb: seq<byte>, l: Layout, cursor: nat): Option<seq<Token>>
    requires Inside(dtb, l)
    decreases Left(l, cursor)
  {
    match Lex(dtb, l, cursor)
    case Bad(e) => None
    case Stop => Some([])
    case Skip(next) => Tokens(dtb, l, next)
    case Lexed(t, next) =>
      match Tokens(dtb, l, next)
      case None => None
      case Some(rest) => Some([t] + rest)
  }

  /** Depth after a token list, starting from depth; -1 once an end has no begin. */
  function Depth(tokens: seq<Token>, depth: nat): (d: int)
    ensures d >= -1
    decreases |tokens|
  {
    if tokens == [] then depth
    else match tokens[0]
         case Begin(_) => Depth(tokens[1..], depth + 1)
         case End => if depth == 0 then -1 else Depth(tokens[1..], depth - 1)
         case Prop(_, _) => Depth(tokens[1..], depth)
  }

  /** How many more nodes a token list opens than it closes. */
  function Net(tokens: seq<Token>): int {
    if tokens == [] then 0
    else (match tokens[0] case Begin(_) => 1 case End => -1 case Prop(_, _) => 0) + Net(tokens[1..])
  }

  predicate Nested(tokens: seq<Token>, depth: nat, i: nat)
    requires i <= |tokens|
  {
    depth + Net(tokens[..i]) >= 0
  }

  lemma NetFirst(t: Token, tokens: seq<Token>)
    ensures Net([t] + tokens) == Net([t]) + Net(tokens)
  {
    assert ([t] + tokens)[1..] == tokens && [t][1..] == [];
  }

  /** The depth is the number of nodes left open, unless some prefix closes more than were open. */
  lemma {:induction false} DepthIsNet(tokens: seq<Token>, depth: nat)
    ensures Depth(tokens, depth) >= 0 <==> forall i: nat | i <= |tokens| :: Nested(tokens, depth, i)
    ensures Depth(tokens, depth) >= 0 ==> Depth(tokens, depth) == depth + Net(tokens)
    decreases |tokens|
  {
    assert tokens[..0] == [];
    if tokens != [] {
      var t, rest := tokens[0], tokens[1..];
      assert tokens == [t] + rest;
      assert [t][1..] == [];
      NetFirst(t, rest);
      forall i: nat | 1 <= i <= |tokens| ensures Net(tokens[..i]) == Net([t]) + Net(rest[..i - 1]) {
        assert tokens[..i] == [t] + rest[..i - 1];
        NetFirst(t, rest[..i - 1]);
      }
      var d := depth + Net([t]);
      if d >= 0 {
        DepthIsNet(rest, d);
        DeeperFrom(tokens, rest, depth, d);
      } else {
        assert rest[..0] == [] && !Nested(tokens, depth, 1);
      }
    }
  }

  lemma DeeperFrom(tokens: seq<Token>, rest: seq<Token>, depth: nat, d: nat)
    requires tokens != [] && rest == tokens[1..]
    requires forall i: nat | 1 <= i <= |tokens| :: depth + Net(tokens[..i]) == d + Net(rest[..i - 1])
    ensures (forall i: nat | i <= |tokens| :: Nested(tokens, depth, i))
       <==> forall i: nat | i <= |rest| :: Nested(rest, d, i)
  {
    assert tokens[..0] == [];
    if forall i: nat | i <= |tokens| :: Nested(tokens, depth, i) {
      forall i: nat | i <= |rest| ensures Nested(rest, d, i) {
        assert Nested(tokens, depth, i + 1);
      }
    }
    if forall i: nat | i <= |rest| :: Nested(rest, d, i) {
      forall i: nat | i <= |tokens| ensures Nested(tokens, depth, i) {
        if i > 0 { assert Nested(rest, d, i - 1); }
      }
    }
  }

  /** The dictionary a token list denotes, by the path of open nodes at each property. */
  function Meaning(tokens: seq<Token>, stack: seq<Text>, found: Properties): Properties
    decreases |tokens|
  {
    if tokens == [] then found
    else match tokens[0]
         case Begin(name) => Meaning(tokens[1..], stack + [name], found)
         case End => Meaning(tokens[1..], if stack == [] then [] else stack[..|stack| - 1], found)
         case Prop(name, value) => Meaning(tokens[1..], stack, found[(Path(stack), name) := value])
  }

  /**
   On every byte string: the walk succeeds exactly when the block is a readable token list whose
   begins and ends balance, and then the dictionary is what that list denotes.
   */
  lemma {:induction false} WalkIsMeaning(dtb: seq<byte>, l: Layout, cursor: nat, stack: seq<Text>,
                                         found: Properties)
    requires Inside(dtb, l)
    ensures var r := Walk(dtb, l, cursor, stack, found);
            var t := Tokens(dtb, l, cursor);
            && (r.Ok? <==> t.Some? && Depth(t.value, |stack|) == 0)
            && (r.Ok? ==> r.value == Meaning(t.value, stack, found))
            && (t.Some? && Depth(t.value, |stack|) < 0 ==> r == Fail(UnbalancedEnd))
            && (t.Some? && Depth(t.value, |stack|) > 0 ==> r == Fail(UnbalancedStack))
    decreases Left(l, cursor)
  {
    match Lex(dtb, l, cursor)
    case Bad(e) =>
    case Stop =>
    case Skip(next) => WalkIsMeaning(dtb, l, next, stack, found);
    case Lexed(token, next) =>
      match token {
        case Begin(name) => WalkIsMeaning(dtb, l, next, stack + [name], found);
        case End =>
          if stack != [] { WalkIsMeaning(dtb, l, next, stack[..|stack| - 1], found); }
        case Prop(name, value) =>
          WalkIsMeaning(dtb, l, next, stack, found[(Path(stack), name) := value]);
      }
  }

  /** A value is a slice of the blob between two positions. */
  predicate SliceOf(dtb: seq<byte>, low: nat, high: nat, value: seq<byte>) {
    exists a: nat, b: nat | low <= a <= b <= high && high <= |dtb| :: dtb[a..b] == value
  }

  predicate Recorded(dtb: seq<byte>, low: nat, high: nat, found: Properties) {
    forall k | k in found :: SliceOf(dtb, low, high, found[k]) && Name(k.1)
  }

  lemma PropertyIsSlice(dtb: seq<byte>, l: Layout, start: nat, cursor: nat)
    requires Inside(dtb, l) && start <= cursor && Lex(dtb, l, cursor).Lexed?
    requires Lex(dtb, l, cursor).token.Prop?
    ensures var t := Lex(dtb, l, cursor).token;
            SliceOf(dtb, start, l.structEnd, t.value) && Name(t.name)
  {
    var length := Be32At(dtb, cursor + 4);
    assert dtb[cursor + 12..cursor + 12 + length] == Lex(dtb, l, cursor).token.value;
  }

  /** Every value recorded is a slice of the structure block, and every name is ASCII text. */
  lemma {:induction false} WalkRecordsSlices(dtb: seq<byte>, l: Layout, start: nat, cursor: nat,
                                             stack: seq<Text>, found: Properties)
    requires Inside(dtb, l) && start <= cursor && Recorded(dtb, start, l.structEnd, found)
    ensures var r := Walk(dtb, l, cursor, stack, found);
            r.Ok? ==> Recorded(dtb, start, l.structEnd, r.value)
    decreases Left(l, cursor)
  {
    match Lex(dtb, l, cursor)
    case Bad(e) =>
    case Stop =>
    case Skip(next) => WalkRecordsSlices(dtb, l, start, next, stack, found);
    case Lexed(token, next) =>
      match token {
        case Begin(name) => WalkRecordsSlices(dtb, l, start, next, stack + [name], found);
        case End =>
          if stack != [] { WalkRecordsSlices(dtb, l, start, next, stack[..|stack| - 1], found); }
        case Prop(name, value) =>
          PropertyIsSlice(dtb, l, start, cursor);
          WalkRecordsSlices(dtb, l, start, next, stack, found[(Path(stack), name) := value]);
      }
  }

  /**
   Every byte string: a successful parse read a complete structure block whose tokens balance, from
   the offset the header gives, and every value returned is a slice of that block.
   */
  lemma ParseSound(dtb: seq<byte>)
    ensures Parse(dtb).Ok? ==>
              var header := CheckHeader(dtb);
              && header.Ok? && Fitting(dtb)
              && dtb[..4] == [0xD0, 0x0D, 0xFE, 0xED] && FromBe(dtb[4..8]) == |dtb|
              && var (_, start, l) := header.value;
                 var tokens := Tokens(dtb, l, start);
                 && tokens.Some? && Depth(tokens.value, 0) == 0
                 && Parse(dtb).value.properties == Meaning(tokens.value, [], map[])
                 && Recorded(dtb, start, l.structEnd, Parse(dtb).value.properties)
  {
    var header := CheckHeader(dtb);
    HeaderIff(dtb);
    if header.Ok? {
      var (_, start, l) := header.value;
      WalkIsMeaning(dtb, l, start, [], map[]);
      WalkRecordsSlices(dtb, l, start, start, [], map[]);
    }
  }
}
