/** What the parser makes of what the builder wrote. */
module FdtRoundTrip {
  import opened Bytes
  import opened FdtFormat
  import opened FdtWriter
  import P = FdtParser

  /** d holds s at offset i. */
  predicate At(d: seq<byte>, i: nat, s: seq<byte>) {
    i + |s| <= |d| && d[i..i + |s|] == s
  }

  lemma AtConcat(d: seq<byte>, i: nat, a: seq<byte>, b: seq<byte>)
    requires At(d, i, a + b)
    ensures At(d, i, a) && At(d, i + |a|, b)
  {
    var s := d[i..i + |a + b|];
    assert s[..|a|] == a && s[|a|..] == b;
  }

  lemma AtPrefix(d: seq<byte>, i: nat, s: seq<byte>, n: nat)
    requires At(d, i, s) && n <= |s|
    ensures At(d, i, s[..n])
  {
    assert s == s[..n] + s[n..];
    AtConcat(d, i, s[..n], s[n..]);
  }

  lemma WordAt(d: seq<byte>, i: nat, n: nat)
    requires At(d, i, Be(n, 4)) && n < U32
    ensures P.Be32At(d, i) == n
  {
    OctetPowers();
    BeRoundTrip(n, 4);
  }

  lemma {:induction false} FindNulAt(d: seq<byte>, i: nat, name: Text, limit: nat)
    requires At(d, i, name + [0]) && Name(name) && i + |name| < limit <= |d|
    ensures P.FindNul(d, i, limit) == i + |name|
    decreases |name|
  {
    var s := name + [0];
    assert d[i] == d[i..i + |s|][0] == s[0];
    if name != [] {
      assert s == [name[0]] + (name[1..] + [0]);
      AtConcat(d, i, [name[0]], name[1..] + [0]);
      FindNulAt(d, i + 1, name[1..], limit);
    }
  }

  lemma CStringAt(d: seq<byte>, i: nat, name: Text, limit: nat)
    requires At(d, i, name + [0]) && Name(name) && i + |name| < limit <= |d|
    ensures P.CString(d, i, limit) == P.Ok(name)
  {
    FindNulAt(d, i, name, limit);
    AtConcat(d, i, name, [0]);
  }

  lemma AlignShift(c: nat, n: nat)
    requires c % 4 == 0
    ensures Align4(c + n) == c + Align4(n)
  {
  }

  lemma LexBegin(d: seq<byte>, l: P.Layout, c: nat, name: Text)
    requires P.Inside(d, l) && c % 4 == 0 && Name(name)
    requires var s := Pad(Be(BEGIN_NODE, 4) + (name + [0]));
             At(d, c, s) && c + |s| <= l.structEnd
    ensures P.Lex(d, l, c)
         == P.Lexed(P.Begin(name), c + |Pad(Be(BEGIN_NODE, 4) + (name + [0]))|)
  {
    var s := Be(BEGIN_NODE, 4) + (name + [0]);
    AtPrefix(d, c, Pad(s), |s|);
    AtConcat(d, c, Be(BEGIN_NODE, 4), name + [0]);
    WordAt(d, c, BEGIN_NODE);
    CStringAt(d, c + 4, name, l.structEnd);
    AlignShift(c, |s|);
  }

  lemma LexEnd(d: seq<byte>, l: P.Layout, c: nat)
    requires P.Inside(d, l) && At(d, c, Be(END_NODE, 4)) && c + 4 <= l.structEnd
    ensures P.Lex(d, l, c) == P.Lexed(P.End, c + 4)
  {
    WordAt(d, c, END_NODE);
  }

  /** The strings block of the layout is in place and small enough for 32-bit offsets. */
  predicate StringsAt(d: seq<byte>, l: P.Layout, strings: seq<byte>) {
    P.Inside(d, l) && At(d, l.stringsOffset, strings) && |strings| == l.stringsSize && |d| < U32
  }

  lemma SliceOfSlice(d: seq<byte>, i: nat, s: seq<byte>, o: nat, n: nat)
    requires At(d, i, s) && o + n <= |s|
    ensures At(d, i + o, s[o..o + n])
  {
    assert s == s[..o] + s[o..];
    AtConcat(d, i, s[..o], s[o..]);
    AtPrefix(d, i + o, s[o..], n);
    assert s[o..][..n] == s[o..o + n];
  }

  lemma NameResolves(d: seq<byte>, l: P.Layout, strings: seq<byte>, o: nat, name: Text)
    requires StringsAt(d, l, strings) && HoldsName(strings, o, name) && Name(name)
    ensures P.CString(d, l.stringsOffset + o, l.stringsOffset + l.stringsSize) == P.Ok(name)
  {
    SliceOfSlice(d, l.stringsOffset, strings, o, |name| + 1);
    CStringAt(d, l.stringsOffset + o, name, l.stringsOffset + l.stringsSize);
  }

  lemma PropertyFields(d: seq<byte>, c: nat, o: nat, value: seq<byte>)
    requires At(d, c, FdtProp(o, value)) && |value| < U32 && o < U32
    ensures P.Be32At(d, c) == PROP && P.Be32At(d, c + 4) == |value| && P.Be32At(d, c + 8) == o
    ensures d[c + 12..c + 12 + |value|] == value
  {
    var s := Be(PROP, 4) + Be(|value|, 4) + Be(o, 4) + value;
    AtPrefix(d, c, Pad(s), |s|);
    AtConcat(d, c, Be(PROP, 4) + Be(|value|, 4) + Be(o, 4), value);
    AtConcat(d, c, Be(PROP, 4) + Be(|value|, 4), Be(o, 4));
    AtConcat(d, c, Be(PROP, 4), Be(|value|, 4));
    WordAt(d, c, PROP);
    WordAt(d, c + 4, |value|);
    WordAt(d, c + 8, o);
  }

  /** How the builder spells one token. */
  function Spell(t: P.Token, offsets: map<Text, nat>): (s: seq<byte>)
    requires t.Prop? ==> t.name in offsets
    ensures |s| % 4 == 0 && |s| >= 4
  {
    match t
    case Begin(name) => Pad(Be(BEGIN_NODE, 4) + (name + [0]))
    case End => Be(END_NODE, 4)
    case Prop(name, value) => FdtProp(offsets[name], value)
  }

  predicate GoodToken(t: P.Token, offsets: map<Text, nat>) {
    match t
    case Begin(name) => Name(name)
    case End => true
    case Prop(name, value) => Name(name) && name in offsets
  }

  lemma LexProperty(d: seq<byte>, l: P.Layout, c: nat, strings: seq<byte>, o: nat,
                    name: Text, value: seq<byte>)
    requires StringsAt(d, l, strings) && HoldsName(strings, o, name) && Name(name)
    requires c % 4 == 0 && At(d, c, FdtProp(o, value)) && c + |FdtProp(o, value)| <= l.structEnd
    ensures P.PropertyAt(d, l, c + 4) == P.Ok((name, value, c + |FdtProp(o, value)|))
    ensures P.Be32At(d, c) == PROP
  {
    PropertyFields(d, c, o, value);
    NameResolves(d, l, strings, o, name);
    AlignShift(c, 12 + |value|);
  }

  /** Token t stands at c and ends at next. */
  predicate LexIs(d: seq<byte>, l: P.Layout, c: nat, t: P.Token, next: nat)
    requires P.Inside(d, l)
  {
    var x := P.Lex(d, l, c);
    x.Lexed? && x.token == t && x.next == next
  }

  lemma LexSpelled(d: seq<byte>, l: P.Layout, c: nat, strings: seq<byte>,
                   offsets: map<Text, nat>, t: P.Token, next: nat)
    requires StringsAt(d, l, strings) && Resolves(offsets, strings) && GoodToken(t, offsets)
    requires c % 4 == 0 && At(d, c, Spell(t, offsets))
    requires next == c + |Spell(t, offsets)| && next <= l.structEnd
    ensures LexIs(d, l, c, t, next)
  {
    match t
    case Begin(name) => LexBegin(d, l, c, name);
    case End => LexEnd(d, l, c);
    case Prop(name, value) => LexProperty(d, l, c, strings, offsets[name], name, value);
  }

  predicate GoodTokens(tokens: seq<P.Token>, offsets: map<Text, nat>) {
    forall i | 0 <= i < |tokens| :: GoodToken(tokens[i], offsets)
  }

  function SpellAll(tokens: seq<P.Token>, offsets: map<Text, nat>): seq<byte>
    requires GoodTokens(tokens, offsets)
  {
    if tokens == [] then [] else Spell(tokens[0], offsets) + SpellAll(tokens[1..], offsets)
  }

  lemma {:induction false} SpellConcat(a: seq<P.Token>, b: seq<P.Token>, offsets: map<Text, nat>)
    requires GoodTokens(a, offsets) && GoodTokens(b, offsets)
    ensures GoodTokens(a + b, offsets)
    ensures SpellAll(a + b, offsets) == SpellAll(a, offsets) + SpellAll(b, offsets)
    decreases |a|
  {
    if a == [] {
      assert a + b == b;
    } else {
      assert a + b == [a[0]] + (a[1..] + b);
      SpellConcat(a[1..], b, offsets);
      SpellFirst(a, offsets, SpellAll(b, offsets));
      SpellFirst(a, offsets, []);
      assert (a + b)[1..] == a[1..] + b;
    }
  }

  lemma SpellOne(t: P.Token, offsets: map<Text, nat>)
    requires GoodToken(t, offsets)
    ensures GoodTokens([t], offsets) && SpellAll([t], offsets) == Spell(t, offsets)
  {
    assert SpellAll([], offsets) == [];
  }

  lemma EndStops(d: seq<byte>, l: P.Layout, c: nat)
    requires P.Inside(d, l) && At(d, c, Be(END, 4)) && c + 4 <= l.structEnd
    ensures P.Lex(d, l, c) == P.Stop
  {
    WordAt(d, c, END);
  }

  /** Reading from c to the end token yields exactly these tokens. */
  predicate TokensAre(d: seq<byte>, l: P.Layout, c: nat, tokens: seq<P.Token>)
    requires P.Inside(d, l)
  {
    P.Tokens(d, l, c).Some? && P.Tokens(d, l, c).value == tokens
  }

  lemma TokensFirst(d: seq<byte>, l: P.Layout, c: nat, t: P.Token, next: nat, rest: seq<P.Token>)
    requires P.Inside(d, l) && LexIs(d, l, c, t, next) && TokensAre(d, l, next, rest)
    ensures TokensAre(d, l, c, [t] + rest)
  {
  }

  lemma AlignedSum(a: nat, b: nat)
    requires a % 4 == 0 && b % 4 == 0
    ensures (a + b) % 4 == 0
  {
  }

  lemma SpellFirst(tokens: seq<P.Token>, offsets: map<Text, nat>, tail: seq<byte>)
    requires GoodTokens(tokens, offsets) && tokens != []
    ensures GoodToken(tokens[0], offsets) && GoodTokens(tokens[1..], offsets)
    ensures SpellAll(tokens, offsets) + tail
         == Spell(tokens[0], offsets) + (SpellAll(tokens[1..], offsets) + tail)
  {
    assert GoodToken(tokens[0], offsets);
  }

  lemma SpelledParts(d: seq<byte>, c: nat, offsets: map<Text, nat>, tokens: seq<P.Token>,
                     wire: seq<byte>) returns (next: nat, rest: seq<byte>)
    requires GoodTokens(tokens, offsets) && tokens != []
    requires wire == SpellAll(tokens, offsets) + Be(END, 4) && At(d, c, wire)
    ensures GoodToken(tokens[0], offsets) && GoodTokens(tokens[1..], offsets)
    ensures At(d, c, Spell(tokens[0], offsets)) && next == c + |Spell(tokens[0], offsets)|
    ensures rest == SpellAll(tokens[1..], offsets) + Be(END, 4) && At(d, next, rest)
    ensures next + |rest| == c + |wire|
  {
    SpellFirst(tokens, offsets, Be(END, 4));
    next := c + |Spell(tokens[0], offsets)|;
    rest := SpellAll(tokens[1..], offsets) + Be(END, 4);
    SplitWire(d, c, wire, Spell(tokens[0], offsets), rest, next);
  }

  lemma SplitWire(d: seq<byte>, c: nat, wire: seq<byte>, s: seq<byte>, rest: seq<byte>, next: nat)
    requires At(d, c, wire) && wire == s + rest && next == c + |s|
    ensures At(d, c, s) && At(d, next, rest) && next + |rest| == c + |wire|
  {
    AtConcat(d, c, s, rest);
  }

  /** A spelled token list followed by the end token reads back as that list. */
  lemma {:induction false} TokensSpelled(d: seq<byte>, l: P.Layout, c: nat, strings: seq<byte>,
      offsets: map<Text, nat>, tokens: seq<P.Token>, wire: seq<byte>)
    requires StringsAt(d, l, strings) && Resolves(offsets, strings) && GoodTokens(tokens, offsets)
    requires wire == SpellAll(tokens, offsets) + Be(END, 4)
    requires c % 4 == 0 && At(d, c, wire) && c + |wire| <= l.structEnd
    ensures TokensAre(d, l, c, tokens)
    decreases |tokens|
  {
    if tokens == [] {
      assert wire == Be(END, 4);
      EndStops(d, l, c);
    } else {
      var next, rest := SpelledParts(d, c, offsets, tokens, wire);
      AlignedSum(c, |Spell(tokens[0], offsets)|);
      TokensSpelled(d, l, next, strings, offsets, tokens[1..], rest);
      LexSpelled(d, l, c, strings, offsets, tokens[0], next);
      TokensFirst(d, l, c, tokens[0], next, tokens[1..]);
      assert tokens == [tokens[0]] + tokens[1..];
    }
  }

  /** Names throughout the tree are ASCII and NUL-free. */
  predicate GoodNames(n: Node)
    decreases n
  {
    Name(n.name) && (forall p | p in n.properties :: Name(p.name)) && AllGoodNames(n.children)
  }

  predicate AllGoodNames(ns: seq<Node>)
    decreases ns
  {
    ns == [] || (GoodNames(ns[0]) && AllGoodNames(ns[1..]))
  }

  /** The dictionary entries of a property list, later ones overwriting earlier ones. */
  function AddProperties(stack: seq<Text>, properties: seq<Property>, found: Properties): Properties
    decreases |properties|
  {
    if properties == [] then found
    else
      var p := properties[0];
      AddProperties(stack, properties[1..], found[(Path(stack), p.name) := p.value])
  }

  /** The dictionary entries of a whole tree, in the order the builder writes them. */
  function AddNode(stack: seq<Text>, n: Node, found: Properties): Properties
    decreases n, 1
  {
    var inner := stack + [n.name];
    AddNodes(inner, n.children, AddProperties(inner, n.properties, found))
  }

  function AddNodes(stack: seq<Text>, ns: seq<Node>, found: Properties): Properties
    decreases ns, 0
  {
    if ns == [] then found else AddNodes(stack, ns[1..], AddNode(stack, ns[0], found))
  }

  /** The token list a tree is written as. */
  function PropertyTokens(properties: seq<Property>): seq<P.Token> {
    if properties == [] then []
    else [P.Prop(properties[0].name, properties[0].value)] + PropertyTokens(properties[1..])
  }

  function NodeTokens(n: Node): seq<P.Token>
    decreases n, 1
  {
    [P.Begin(n.name)] + (PropertyTokens(n.properties) + ChildTokens(n.children)) + [P.End]
  }

  function ChildTokens(ns: seq<Node>): seq<P.Token>
    decreases ns, 0
  {
    if ns == [] then [] else NodeTokens(ns[0]) + ChildTokens(ns[1..])
  }

  /** A node is spelled with all its properties, in order, before the first of its children. */
  lemma {:induction false} PropertiesFirst(n: Node, i: nat)
    requires i < |n.properties|
    ensures |NodeTokens(n)| >= i + 2 && NodeTokens(n)[0] == P.Begin(n.name)
    ensures NodeTokens(n)[i + 1] == P.Prop(n.properties[i].name, n.properties[i].value)
  {
    PropertyTokenAt(n.properties, i);
  }

  lemma {:induction false} PropertyTokenAt(properties: seq<Property>, i: nat)
    requires i < |properties|
    ensures |PropertyTokens(properties)| == |properties|
    ensures PropertyTokens(properties)[i] == P.Prop(properties[i].name, properties[i].value)
    decreases |properties|
  {
    if |properties| > 1 {
      PropertyTokenAt(properties[1..], if i > 0 then i - 1 else 0);
    } else {
      assert properties[1..] == [];
    }
  }

  lemma {:induction false} PropertiesSpelled(properties: seq<Property>, offsets: map<Text, nat>)
    requires forall p | p in properties :: p.name in offsets && Name(p.name)
    ensures GoodTokens(PropertyTokens(properties), offsets)
    ensures FlattenProperties(properties, offsets) == SpellAll(PropertyTokens(properties), offsets)
    decreases |properties|
  {
    if properties != [] {
      var t := P.Prop(properties[0].name, properties[0].value);
      PropertiesSpelled(properties[1..], offsets);
      SpellOne(t, offsets);
      SpellConcat([t], PropertyTokens(properties[1..]), offsets);
    }
  }

  /** Flattening a tree is spelling its tokens. */
  lemma {:induction false} NodeSpelled(n: Node, offsets: map<Text, nat>)
    requires Named(n, offsets.Keys) && GoodNames(n)
    ensures GoodTokens(NodeTokens(n), offsets)
    ensures Flatten(n, offsets) == SpellAll(NodeTokens(n), offsets)
    decreases n, 1
  {
    var props, kids := PropertyTokens(n.properties), ChildTokens(n.children);
    PropertiesSpelled(n.properties, offsets);
    ChildrenSpelled(n.children, offsets);
    SpellConcat(props, kids, offsets);
    SpellOne(P.Begin(n.name), offsets);
    SpellOne(P.End, offsets);
    SpellConcat([P.Begin(n.name)], props + kids, offsets);
    SpellConcat([P.Begin(n.name)] + (props + kids), [P.End], offsets);
  }

  lemma {:induction false} ChildrenSpelled(ns: seq<Node>, offsets: map<Text, nat>)
    requires AllNamed(ns, offsets.Keys) && AllGoodNames(ns)
    ensures GoodTokens(ChildTokens(ns), offsets)
    ensures FlattenAll(ns, offsets) == SpellAll(ChildTokens(ns), offsets)
    decreases ns, 0
  {
    if ns != [] {
      NodeSpelled(ns[0], offsets);
      ChildrenSpelled(ns[1..], offsets);
      SpellConcat(NodeTokens(ns[0]), ChildTokens(ns[1..]), offsets);
    }
  }

  lemma {:induction false} PropertyMeaning(properties: seq<Property>, rest: seq<P.Token>,
                                           stack: seq<Text>, found: Properties, depth: nat)
    ensures var tokens := PropertyTokens(properties) + rest;
            && P.Meaning(tokens, stack, found)
               == P.Meaning(rest, stack, AddProperties(stack, properties, found))
            && P.Depth(tokens, depth) == P.Depth(rest, depth)
    decreases |properties|
  {
    var tokens := PropertyTokens(properties) + rest;
    if properties == [] {
      assert tokens == rest;
    } else {
      var p := properties[0];
      assert tokens[1..] == PropertyTokens(properties[1..]) + rest;
      PropertyMeaning(properties[1..], rest, stack, found[(Path(stack), p.name) := p.value], depth);
    }
  }

  /** A tree's tokens denote its entries and leave depth and stack as they were. */
  lemma {:induction false} NodeMeaning(n: Node, rest: seq<P.Token>, stack: seq<Text>,
                                       found: Properties, depth: nat)
    ensures var tokens := NodeTokens(n) + rest;
            && P.Meaning(tokens, stack, found) == P.Meaning(rest, stack, AddNode(stack, n, found))
            && P.Depth(tokens, depth) == P.Depth(rest, depth)
    decreases n, 1
  {
    var inner := stack + [n.name];
    var after := [P.End] + rest;
    var kids := ChildTokens(n.children) + after;
    var body := PropertyTokens(n.properties) + kids;
    var tokens := NodeTokens(n) + rest;
    assert tokens == [P.Begin(n.name)] + body;
    assert tokens[1..] == body && after[1..] == rest;
    PropertyMeaning(n.properties, kids, inner, found, depth + 1);
    ChildMeaning(n.children, after, inner, AddProperties(inner, n.properties, found), depth + 1);
    assert inner[..|inner| - 1] == stack;
  }

  lemma {:induction false} ChildMeaning(ns: seq<Node>, rest: seq<P.Token>, stack: seq<Text>,
                                        found: Properties, depth: nat)
    ensures var tokens := ChildTokens(ns) + rest;
            && P.Meaning(tokens, stack, found) == P.Meaning(rest, stack, AddNodes(stack, ns, found))
            && P.Depth(tokens, depth) == P.Depth(rest, depth)
    decreases ns, 0
  {
    var tokens := ChildTokens(ns) + rest;
    if ns == [] {
      assert tokens == rest;
    } else {
      assert tokens == NodeTokens(ns[0]) + (ChildTokens(ns[1..]) + rest);
      NodeMeaning(ns[0], ChildTokens(ns[1..]) + rest, stack, found, depth);
      ChildMeaning(ns[1..], rest, stack, AddNode(stack, ns[0], found), depth);
    }
  }

  /** The reservations before the first (0, 0) pair, which ends the list. */
  function UpToZero(reserves: seq<Reservation>): seq<(nat, nat)> {
    if reserves == [] || reserves[0] == Reservation(0, 0) then []
    else [(reserves[0].address, reserves[0].size)] + UpToZero(reserves[1..])
  }

  lemma DoubleAt(d: seq<byte>, i: nat, n: nat)
    requires At(d, i, Be(n, 8)) && n < Pow256(8)
    ensures P.Be64At(d, i) == n
  {
    BeRoundTrip(n, 8);
  }

  lemma {:induction false} ReservesAt(d: seq<byte>, c: nat, reserves: seq<Reservation>,
                                      found: seq<(nat, nat)>)
    requires At(d, c, ReserveMap(reserves))
    requires forall r | r in reserves :: r.address < Pow256(8) && r.size < Pow256(8)
    ensures P.Reserves(d, c, found) == P.Ok(found + UpToZero(reserves))
    decreases |reserves|
  {
    if reserves == [] {
      assert ReserveMap(reserves) == Be(0, 8) + Be(0, 8);
      AtConcat(d, c, Be(0, 8), Be(0, 8));
      DoubleAt(d, c, 0);
      DoubleAt(d, c + 8, 0);
      assert found + UpToZero(reserves) == found;
    } else {
      var r := reserves[0];
      assert ReserveMap(reserves) == (Be(r.address, 8) + Be(r.size, 8)) + ReserveMap(reserves[1..]);
      AtConcat(d, c, Be(r.address, 8) + Be(r.size, 8), ReserveMap(reserves[1..]));
      AtConcat(d, c, Be(r.address, 8), Be(r.size, 8));
      DoubleAt(d, c, r.address);
      DoubleAt(d, c + 8, r.size);
      var entry := (r.address, r.size);
      if r == Reservation(0, 0) {
        assert found + UpToZero(reserves) == found;
      } else {
        ReservesAt(d, c + 16, reserves[1..], found + [entry]);
        assert found + ([entry] + UpToZero(reserves[1..])) == (found + [entry]) + UpToZero(reserves[1..]);
      }
    }
  }

  /** Every reservation the builder was given, as the parser's pairs. */
  function Pairs(reserves: seq<Reservation>): (p: seq<(nat, nat)>) {
    seq(|reserves|, i requires 0 <= i < |reserves| => (reserves[i].address, reserves[i].size))
  }

  lemma PairsFirst(reserves: seq<Reservation>)
    requires reserves != []
    ensures Pairs(reserves) == [(reserves[0].address, reserves[0].size)] + Pairs(reserves[1..])
  {
    var p, q := Pairs(reserves), [(reserves[0].address, reserves[0].size)] + Pairs(reserves[1..]);
    assert |p| == |q|;
    forall i | 0 <= i < |p| ensures p[i] == q[i] {
      if i > 0 { assert reserves[1..][i - 1] == reserves[i]; }
    }
  }

  /** The parser returns all reservations exactly when none of them is the (0, 0) terminator. */
  lemma {:induction false} UpToZeroComplete(reserves: seq<Reservation>)
    ensures UpToZero(reserves) <= Pairs(reserves)
    ensures UpToZero(reserves) == Pairs(reserves) <==> Reservation(0, 0) !in reserves
  {
    if reserves != [] {
      PairsFirst(reserves);
      UpToZeroComplete(reserves[1..]);
      assert reserves == [reserves[0]] + reserves[1..];
      if reserves[0] != Reservation(0, 0) {
        PrefixCons((reserves[0].address, reserves[0].size), UpToZero(reserves[1..]), Pairs(reserves[1..]));
      }
    }
  }

  lemma PrefixCons(x: (nat, nat), a: seq<(nat, nat)>, b: seq<(nat, nat)>)
    requires a <= b
    ensures [x] + a <= [x] + b
    ensures [x] + a == [x] + b <==> a == b
  {
    assert ([x] + a)[1..] == a && ([x] + b)[1..] == b;
  }

  lemma {:induction false} PackedWordAt(d: seq<byte>, c: nat, words: seq<nat>, k: nat)
    requires k < |words| && At(d, c, PackWords(words)) && words[k] < U32
    ensures P.Be32At(d, c + 4 * k) == words[k]
    decreases k
  {
    AtConcat(d, c, Be(words[0], 4), PackWords(words[1..]));
    if k == 0 {
      WordAt(d, c, words[0]);
    } else {
      PackedWordAt(d, c + 4, words[1..], k - 1);
    }
  }

  /** The header passes the parser's checks and announces this layout. */
  predicate HeaderIs(d: seq<byte>, reserveOffset: nat, structOffset: nat, l: P.Layout) {
    var h := P.CheckHeader(d);
    h.Ok? && h.value.0 == reserveOffset && h.value.1 == structOffset && h.value.2 == l
  }

  /** The blob the builder writes: the header passes the parser's checks and points at the blocks. */
  lemma BlobHeader(reserves: seq<Reservation>, structure: seq<byte>, strings: seq<byte>,
                   blob: seq<byte>, structOffset: nat, l: P.Layout)
    requires Packable(reserves, structure, strings) && blob == Blob(reserves, structure, strings)
    requires structOffset == 40 + 16 * (|reserves| + 1)
    requires l == P.Layout(structOffset + |structure|, structOffset + |structure|, |strings|)
    ensures HeaderIs(blob, 40, structOffset, l)
    ensures At(blob, 40, ReserveMap(reserves))
    ensures At(blob, structOffset, structure)
    ensures StringsAt(blob, l, strings)
  {
    var words := BlobWords(reserves, structure, strings, blob, structOffset, l.structEnd);
    FourBlocks(blob, PackWords(words), ReserveMap(reserves), structure, strings);
    WordsFit(words, |blob|);
    HeaderReads(blob, words);
  }

  lemma BlobWords(reserves: seq<Reservation>, structure: seq<byte>, strings: seq<byte>,
                  blob: seq<byte>, structOffset: nat, stringsOffset: nat) returns (words: seq<nat>)
    requires blob == Blob(reserves, structure, strings)
    requires structOffset == 40 + 16 * (|reserves| + 1)
    requires stringsOffset == structOffset + |structure|
    ensures blob == PackWords(words) + ReserveMap(reserves) + structure + strings
    ensures |words| == 10 && |PackWords(words)| == 40 && words[0] == FDT_MAGIC && words[1] == |blob|
    ensures words[2] == structOffset && words[3] == stringsOffset && words[4] == 40
    ensures words[5] == 17 && words[6] == 16 && words[7] == 0
    ensures words[8] == |strings| && words[9] == |structure|
  {
    words := [FDT_MAGIC, stringsOffset + |strings|, structOffset, stringsOffset, 40, 17, 16, 0,
              |strings|, |structure|];
  }

  lemma WordsFit(words: seq<nat>, total: nat)
    requires |words| == 10 && total < U32 && words[0] == FDT_MAGIC && words[1] == total
    requires words[2] <= total && words[3] <= total && words[4] == 40 && words[5] == 17
    requires words[6] == 16 && words[7] == 0 && words[8] <= total && words[9] <= total
    ensures forall k | 0 <= k < 10 :: words[k] < U32
  {
  }

  lemma FourBlocks(d: seq<byte>, a: seq<byte>, b: seq<byte>, s: seq<byte>, t: seq<byte>)
    requires d == a + b + s + t
    ensures At(d, 0, a) && At(d, |a|, b) && At(d, |a| + |b|, s) && At(d, |a| + |b| + |s|, t)
  {
    assert At(d, 0, a + b + s + t);
    AtConcat(d, 0, a + b + s, t);
    AtConcat(d, 0, a + b, s);
    AtConcat(d, 0, a, b);
  }

  /** The parser's header checks on any blob that starts with ten consistent words. */
  lemma HeaderReads(d: seq<byte>, words: seq<nat>)
    requires |words| == 10 && At(d, 0, PackWords(words)) && |d| < U32
    requires forall k | 0 <= k < 10 :: words[k] < U32
    requires words[0] == FDT_MAGIC && words[1] == |d|
    requires words[2] + words[9] <= |d| && words[3] + words[8] <= |d|
    ensures HeaderIs(d, words[4], words[2], P.Layout(words[2] + words[9], words[3], words[8]))
  {
    PackedWordAt(d, 0, words, 0);
    PackedWordAt(d, 0, words, 1);
    PackedWordAt(d, 0, words, 2);
    PackedWordAt(d, 0, words, 3);
    PackedWordAt(d, 0, words, 4);
    PackedWordAt(d, 0, words, 8);
    PackedWordAt(d, 0, words, 9);
  }

  /**
   The round trip: for every tree with ASCII NUL-free names, the parser accepts what the builder
   wrote and returns the reservations up to the first (0, 0) pair and the tree's entries.
   */
  lemma BlobRoundTrip(root: Node, reserves: seq<Reservation>, strings: seq<byte>,
                      offsets: map<Text, nat>, structure: seq<byte>, blob: seq<byte>)
    requires Named(root, offsets.Keys) && GoodNames(root) && Resolves(offsets, strings)
    requires structure == Structure(root, offsets) && Packable(reserves, structure, strings)
    requires blob == Blob(reserves, structure, strings)
    ensures P.Parse(blob) == P.Ok(P.Parsed(UpToZero(reserves), AddNode([], root, map[])))
  {
    var structOffset, l := BlobLayout(reserves, structure, strings, blob);
    StructAligned(|reserves|);
    LaidOut(blob, l, structOffset, root, reserves, strings, offsets, structure);
  }

  lemma StructAligned(n: nat)
    ensures (40 + 16 * (n + 1)) % 4 == 0
  {
  }

  lemma BlobLayout(reserves: seq<Reservation>, structure: seq<byte>, strings: seq<byte>,
                   blob: seq<byte>) returns (structOffset: nat, l: P.Layout)
    requires Packable(reserves, structure, strings) && blob == Blob(reserves, structure, strings)
    ensures HeaderIs(blob, 40, structOffset, l) && StringsAt(blob, l, strings)
    ensures At(blob, 40, ReserveMap(reserves)) && At(blob, structOffset, structure)
    ensures structOffset == 40 + 16 * (|reserves| + 1) && structOffset + |structure| == l.structEnd
  {
    structOffset := 40 + 16 * (|reserves| + 1);
    l := P.Layout(structOffset + |structure|, structOffset + |structure|, |strings|);
    BlobHeader(reserves, structure, strings, blob, structOffset, l);
  }

  lemma LaidOut(blob: seq<byte>, l: P.Layout, structOffset: nat, root: Node,
                reserves: seq<Reservation>, strings: seq<byte>, offsets: map<Text, nat>,
                structure: seq<byte>)
    requires Named(root, offsets.Keys) && GoodNames(root) && Resolves(offsets, strings)
    requires structure == Structure(root, offsets)
    requires forall r | r in reserves :: r.address < Pow256(8) && r.size < Pow256(8)
    requires HeaderIs(blob, 40, structOffset, l) && StringsAt(blob, l, strings)
    requires At(blob, 40, ReserveMap(reserves)) && At(blob, structOffset, structure)
    requires structOffset % 4 == 0 && structOffset + |structure| == l.structEnd
    ensures P.Parse(blob) == P.Ok(P.Parsed(UpToZero(reserves), AddNode([], root, map[])))
  {
    ReservesAt(blob, 40, reserves, []);
    assert [] + UpToZero(reserves) == UpToZero(reserves);
    WalkTree(blob, l, structOffset, strings, offsets, root, structure);
    ParseParts(blob, 40, structOffset, l, UpToZero(reserves), AddNode([], root, map[]));
  }

  lemma WalkTree(d: seq<byte>, l: P.Layout, c: nat, strings: seq<byte>,
                 offsets: map<Text, nat>, root: Node, structure: seq<byte>)
    requires Named(root, offsets.Keys) && GoodNames(root)
    requires StringsAt(d, l, strings) && Resolves(offsets, strings) && c % 4 == 0
    requires structure == Structure(root, offsets)
    requires At(d, c, structure) && c + |structure| <= l.structEnd
    ensures P.Walk(d, l, c, [], map[]) == P.Ok(AddNode([], root, map[]))
  {
    var tokens := NodeTokens(root);
    NodeSpelled(root, offsets);
    TokensSpelled(d, l, c, strings, offsets, tokens, structure);
    P.WalkIsMeaning(d, l, c, [], map[]);
    assert tokens + [] == tokens;
    NodeMeaning(root, [], [], map[], 0);
  }

  lemma ParseParts(d: seq<byte>, reserveOffset: nat, structOffset: nat, l: P.Layout,
                   reserves: seq<(nat, nat)>, properties: Properties)
    requires HeaderIs(d, reserveOffset, structOffset, l)
    requires P.Reserves(d, reserveOffset, []) == P.Ok(reserves)
    requires P.Walk(d, l, structOffset, [], map[]) == P.Ok(properties)
    ensures P.Parse(d) == P.Ok(P.Parsed(reserves, properties))
  {
  }
}
