/** Which (path, property) values the parser's dictionary holds for a tree. */
module FdtLookup {
  import opened Bytes
  import opened FdtFormat
  import opened FdtWriter
  import opened FdtRoundTrip
  import P = FdtParser

  /** A node name that can stand between slashes. */
  predicate Part(name: Text) {
    name != [] && SLASH !in name
  }

  predicate Parts(parts: seq<Text>) {
    parts == [] || (Part(parts[0]) && Parts(parts[1..]))
  }

  /** Every node below this one has a name that can stand between slashes. */
  predicate Tidy(n: Node)
    decreases n, 1
  {
    AllTidy(n.children)
  }

  predicate AllTidy(ns: seq<Node>)
    decreases ns, 0
  {
    ns == [] || (Part(ns[0].name) && Tidy(ns[0]) && AllTidy(ns[1..]))
  }

  /** The tree has, at the node reached from n by these names, this property with this value. */
  predicate Holds(n: Node, parts: seq<Text>, name: Text, value: seq<byte>)
    decreases n, 1
  {
    if parts == [] then Property(name, value) in n.properties
    else ChildHolds(n.children, parts, name, value)
  }

  predicate ChildHolds(ns: seq<Node>, parts: seq<Text>, name: Text, value: seq<byte>)
    requires parts != []
    decreases ns, 0
  {
    && ns != []
    && ((ns[0].name == parts[0] && Holds(ns[0], parts[1..], name, value))
        || ChildHolds(ns[1..], parts, name, value))
  }

  predicate Has(m: Properties, path: Text, name: Text, value: seq<byte>) {
    (path, name) in m && m[(path, name)] == value
  }

  /** "/name" for each part. */
  function Slashed(parts: seq<Text>): Text {
    if parts == [] then [] else [SLASH] + parts[0] + Slashed(parts[1..])
  }

  lemma {:induction false} SlashedConcat(a: seq<Text>, b: seq<Text>)
    ensures Slashed(a + b) == Slashed(a) + Slashed(b)
    decreases |a|
  {
    if a == [] {
      assert a + b == b;
    } else {
      SlashedConcat(a[1..], b);
      assert (a + b)[1..] == a[1..] + b;
    }
  }

  lemma {:induction false} JoinIsSlashed(parts: seq<Text>)
    requires parts != []
    ensures [SLASH] + Join(parts) == Slashed(parts)
    decreases |parts|
  {
    if |parts| > 1 {
      JoinIsSlashed(parts[1..]);
    } else {
      assert parts[1..] == [];
    }
  }

  lemma {:induction false} NothingDropped(parts: seq<Text>)
    requires Parts(parts)
    ensures NonEmpty(parts) == parts
    decreases |parts|
  {
    if parts != [] {
      NothingDropped(parts[1..]);
    }
  }

  lemma {:induction false} NonEmptyConcat(a: seq<Text>, b: seq<Text>)
    requires Parts(b)
    ensures NonEmpty(a + b) == NonEmpty(a) + b
    decreases |a|
  {
    if a == [] {
      NothingDropped(b);
      assert a + b == b;
    } else {
      NonEmptyConcat(a[1..], b);
      assert (a + b)[1..] == a[1..] + b;
    }
  }

  lemma PathIsSlashed(stack: seq<Text>, parts: seq<Text>)
    requires Parts(parts)
    ensures Path(stack + parts)
         == if NonEmpty(stack) + parts == [] then [SLASH] else Slashed(NonEmpty(stack)) + Slashed(parts)
  {
    NonEmptyConcat(stack, parts);
    SlashedConcat(NonEmpty(stack), parts);
    if NonEmpty(stack) + parts != [] {
      JoinIsSlashed(NonEmpty(stack) + parts);
    }
  }

  /** A path: "/" for the root, one more slash and name for each named node, an unnamed one left out. */
  lemma PathGrows(stack: seq<Text>, name: Text)
    ensures Path([]) == [0x2F] && Path([name]) == [0x2F] + name
    ensures name == [] ==> Path(stack + [name]) == Path(stack)
    ensures name != [] && NonEmpty(stack) != [] ==> Path(stack + [name]) == Path(stack) + ([0x2F] + name)
    ensures name != [] && NonEmpty(stack) == [] ==> Path(stack + [name]) == [0x2F] + name
    ensures NonEmpty(stack) == [] <==> forall i | 0 <= i < |stack| :: stack[i] == []
  {
    PathOne(name);
    Unnamed(stack);
    KeptLast(stack, name);
    if name == [] {
      assert NonEmpty(stack) + [] == NonEmpty(stack);
    } else {
      JoinGrows(NonEmpty(stack), name);
    }
  }

  lemma JoinGrows(front: seq<Text>, name: Text)
    ensures [SLASH] + Join(front + [name])
         == if front == [] then [SLASH] + name else ([SLASH] + Join(front)) + ([SLASH] + name)
  {
    SlashedConcat(front, [name]);
    JoinIsSlashed(front + [name]);
    SlashedOne(name);
    if front != [] {
      JoinIsSlashed(front);
    }
  }

  lemma SlashedOne(name: Text)
    ensures Slashed([name]) == [SLASH] + name
  {
    assert [name][1..] == [];
  }

  lemma PathOne(name: Text)
    ensures Path([name]) == [0x2F] + name
  {
    assert [name][1..] == [];
    assert NonEmpty([name]) == if name == [] then [] else [name];
  }

  lemma {:induction false} Unnamed(stack: seq<Text>)
    ensures NonEmpty(stack) == [] <==> forall i | 0 <= i < |stack| :: stack[i] == []
  {
    if stack != [] {
      var rest := stack[1..];
      Unnamed(rest);
      assert forall i | 1 <= i < |stack| :: stack[i] == rest[i - 1];
      assert (forall i | 0 <= i < |stack| :: stack[i] == []) ==> forall i | 0 <= i < |rest| :: rest[i] == [];
    }
  }

  lemma {:induction false} KeptLast(stack: seq<Text>, name: Text)
    ensures NonEmpty(stack + [name]) == NonEmpty(stack) + if name == [] then [] else [name]
    decreases |stack|
  {
    var all := stack + [name];
    var last := if name == [] then [] else [name];
    if stack == [] {
      assert all[1..] == [] && [] + last == last;
    } else {
      var rest := stack[1..];
      KeptLast(rest, name);
      assert all[1..] == rest + [name] && all[0] == stack[0];
      var first := if stack[0] == [] then [] else [stack[0]];
      assert first + (NonEmpty(rest) + last) == (first + NonEmpty(rest)) + last;
    }
  }

  lemma LongerHasSlash(x: Text, s: Text, y: Text, t: Text)
    requires x + s == y + t && |x| < |y| && (s == [] || s[0] == SLASH)
    ensures SLASH in y
  {
    assert |x + s| == |y + t|;
    assert s[0] == (x + s)[|x|] == (y + t)[|x|] == y[|x|];
  }

  lemma FirstSlash(x: Text, s: Text, y: Text, t: Text)
    requires SLASH !in x && SLASH !in y && x + s == y + t
    requires (s == [] || s[0] == SLASH) && (t == [] || t[0] == SLASH)
    ensures x == y && s == t
  {
    if |x| < |y| {
      LongerHasSlash(x, s, y, t);
    } else if |y| < |x| {
      LongerHasSlash(y, t, x, s);
    } else {
      assert x == (x + s)[..|x|] && y == (y + t)[..|x|];
      assert s == (x + s)[|x|..] && t == (y + t)[|x|..];
    }
  }

  lemma {:induction false} SlashedInjective(a: seq<Text>, b: seq<Text>)
    requires Parts(a) && Parts(b) && Slashed(a) == Slashed(b)
    ensures a == b
    decreases |a|
  {
    if a != [] && b != [] {
      assert Slashed(a)[1..] == a[0] + Slashed(a[1..]);
      assert Slashed(b)[1..] == b[0] + Slashed(b[1..]);
      FirstSlash(a[0], Slashed(a[1..]), b[0], Slashed(b[1..]));
      SlashedInjective(a[1..], b[1..]);
      assert a == [a[0]] + a[1..] && b == [b[0]] + b[1..];
    }
  }

  /** Different nodes under the same stack have different paths. */
  lemma PathInjective(stack: seq<Text>, a: seq<Text>, b: seq<Text>)
    requires Parts(a) && Parts(b) && Path(stack + a) == Path(stack + b)
    ensures a == b
  {
    PathIsSlashed(stack, a);
    PathIsSlashed(stack, b);
    var front := Slashed(NonEmpty(stack));
    if NonEmpty(stack) != [] || (a != [] && b != []) {
      assert (front + Slashed(a))[|front|..] == Slashed(a);
      assert (front + Slashed(b))[|front|..] == Slashed(b);
      SlashedInjective(a, b);
    }
  }

  lemma {:induction false} PropertiesSound(stack: seq<Text>, properties: seq<Property>,
                                           found: Properties, path: Text, name: Text, value: seq<byte>)
    requires Has(AddProperties(stack, properties, found), path, name, value)
    ensures Has(found, path, name, value)
            || (path == Path(stack) && Property(name, value) in properties)
    decreases |properties|
  {
    if properties != [] {
      var p := properties[0];
      PropertiesSound(stack, properties[1..], found[(Path(stack), p.name) := p.value], path, name, value);
    }
  }

  /** Every entry a tree adds is a value the tree holds at that path. */
  lemma {:induction false} NodeSound(stack: seq<Text>, n: Node, found: Properties,
                                     path: Text, name: Text, value: seq<byte>)
    returns (parts: seq<Text>)
    requires Tidy(n) && Has(AddNode(stack, n, found), path, name, value)
    ensures Has(found, path, name, value)
            || (Parts(parts) && path == Path(stack + [n.name] + parts) && Holds(n, parts, name, value))
    decreases n, 1
  {
    var inner := stack + [n.name];
    var own := AddProperties(inner, n.properties, found);
    parts := ChildSound(inner, n.children, own, path, name, value);
    if Has(own, path, name, value) {
      PropertiesSound(inner, n.properties, found, path, name, value);
      parts := [];
      assert inner + parts == inner;
    }
  }

  lemma {:induction false} ChildSound(stack: seq<Text>, ns: seq<Node>, found: Properties,
                                      path: Text, name: Text, value: seq<byte>)
    returns (parts: seq<Text>)
    requires AllTidy(ns) && Has(AddNodes(stack, ns, found), path, name, value)
    ensures Has(found, path, name, value)
            || (parts != [] && Parts(parts) && path == Path(stack + parts)
                && ChildHolds(ns, parts, name, value))
    decreases ns, 0
  {
    parts := [];
    if ns != [] {
      var first := AddNode(stack, ns[0], found);
      parts := ChildSound(stack, ns[1..], first, path, name, value);
      if Has(first, path, name, value) && !Has(found, path, name, value) {
        var below := NodeSound(stack, ns[0], found, path, name, value);
        parts := [ns[0].name] + below;
        assert stack + parts == stack + [ns[0].name] + below;
        assert parts[1..] == below;
      }
    }
  }

  lemma {:induction false} PropertiesComplete(stack: seq<Text>, properties: seq<Property>,
                                              found: Properties, key: (Text, Text))
    requires key in found || (key.0 == Path(stack) && exists v :: Property(key.1, v) in properties)
    ensures key in AddProperties(stack, properties, found)
    decreases |properties|
  {
    if properties != [] {
      var p := properties[0];
      assert properties == [p] + properties[1..];
      PropertiesComplete(stack, properties[1..], found[(Path(stack), p.name) := p.value], key);
    }
  }

  /** Every value a tree holds has an entry at its path. */
  lemma {:induction false} NodeComplete(stack: seq<Text>, n: Node, found: Properties, parts: seq<Text>,
                                        name: Text, value: seq<byte>, path: Text)
    requires (path, name) in found
             || (path == Path(stack + [n.name] + parts) && Holds(n, parts, name, value))
    ensures (path, name) in AddNode(stack, n, found)
    decreases n, 1
  {
    var inner := stack + [n.name];
    var own := AddProperties(inner, n.properties, found);
    if (path, name) in found || parts == [] {
      assert inner + [] == inner;
      PropertiesComplete(inner, n.properties, found, (path, name));
    }
    ChildComplete(inner, n.children, own, parts, name, value, path);
  }

  lemma {:induction false} ChildComplete(stack: seq<Text>, ns: seq<Node>, found: Properties,
                                         parts: seq<Text>, name: Text, value: seq<byte>, path: Text)
    requires (path, name) in found
             || (parts != [] && path == Path(stack + parts) && ChildHolds(ns, parts, name, value))
    ensures (path, name) in AddNodes(stack, ns, found)
    decreases ns, 0
  {
    if ns != [] {
      var first := AddNode(stack, ns[0], found);
      if (path, name) in found {
        NodeComplete(stack, ns[0], found, parts, name, value, path);
      } else if ns[0].name == parts[0] && Holds(ns[0], parts[1..], name, value) {
        assert stack + [ns[0].name] + parts[1..] == stack + parts;
        NodeComplete(stack, ns[0], found, parts[1..], name, value, path);
      }
      ChildComplete(stack, ns[1..], first, parts, name, value, path);
    }
  }

  /** No node of the tree has two different values for one property at one path. */
  ghost predicate Consistent(root: Node) {
    forall parts, name, v, w ::
      Parts(parts) && Holds(root, parts, name, v) && Holds(root, parts, name, w) ==> v == w
  }

  /** The dictionary holds exactly the tree's (path, property) values. */
  ghost predicate Exact(root: Node, m: Properties) {
    && (forall parts, name, v | Parts(parts) ::
          Has(m, Path([root.name] + parts), name, v) <==> Holds(root, parts, name, v))
    && (forall k | k in m :: exists parts :: Parts(parts) && k.0 == Path([root.name] + parts))
  }

  lemma RootSound(root: Node, m: Properties, parts: seq<Text>, name: Text, v: seq<byte>)
    requires Tidy(root) && Parts(parts) && m == AddNode([], root, map[])
    requires Has(m, Path([root.name] + parts), name, v)
    ensures Holds(root, parts, name, v)
  {
    var other := NodeSound([], root, map[], Path([root.name] + parts), name, v);
    assert [] + [root.name] == [root.name];
    PathInjective([root.name], parts, other);
  }

  lemma RootComplete(root: Node, m: Properties, parts: seq<Text>, name: Text, v: seq<byte>)
    requires m == AddNode([], root, map[]) && Holds(root, parts, name, v)
    ensures (Path([root.name] + parts), name) in m
  {
    assert [] + [root.name] == [root.name];
    NodeComplete([], root, map[], parts, name, v, Path([root.name] + parts));
  }

  /** The dictionary is exact precisely for trees that never hold two values at one place. */
  lemma ExactIffConsistent(root: Node, m: Properties)
    requires Tidy(root) && m == AddNode([], root, map[])
    ensures Exact(root, m) <==> Consistent(root)
  {
    if Exact(root, m) {
      forall parts, name, v, w | Parts(parts) && Holds(root, parts, name, v) && Holds(root, parts, name, w)
        ensures v == w
      {
        assert Has(m, Path([root.name] + parts), name, v);
        assert Has(m, Path([root.name] + parts), name, w);
      }
    }
    if Consistent(root) {
      ConsistentIsExact(root, m);
    }
  }

  lemma ConsistentIsExact(root: Node, m: Properties)
    requires Tidy(root) && m == AddNode([], root, map[]) && Consistent(root)
    ensures Exact(root, m)
  {
    forall parts, name, v | Parts(parts)
      ensures Has(m, Path([root.name] + parts), name, v) <==> Holds(root, parts, name, v)
    {
      if Has(m, Path([root.name] + parts), name, v) {
        RootSound(root, m, parts, name, v);
      }
      if Holds(root, parts, name, v) {
        RootComplete(root, m, parts, name, v);
        RootSound(root, m, parts, name, m[(Path([root.name] + parts), name)]);
      }
    }
    forall k | k in m ensures exists parts :: Parts(parts) && k.0 == Path([root.name] + parts) {
      var parts := NodeSound([], root, map[], k.0, k.1, m[k]);
      assert [] + [root.name] == [root.name];
      assert Parts(parts) && k.0 == Path([root.name] + parts);
    }
  }

  /** Property names are distinct within a node and names are distinct among siblings. */
  predicate Distinct(n: Node)
    decreases n, 1
  {
    && (forall i, j | 0 <= i < j < |n.properties| :: n.properties[i].name != n.properties[j].name)
    && AllDistinct(n.children)
  }

  predicate AllDistinct(ns: seq<Node>)
    decreases ns, 0
  {
    ns == []
    || (Distinct(ns[0]) && AllDistinct(ns[1..])
        && forall i | 1 <= i < |ns| :: ns[i].name != ns[0].name)
  }

  lemma {:induction false} NotNamed(ns: seq<Node>, parts: seq<Text>, name: Text, v: seq<byte>)
    requires parts != [] && forall i | 0 <= i < |ns| :: ns[i].name != parts[0]
    ensures !ChildHolds(ns, parts, name, v)
    decreases |ns|
  {
    if ns != [] {
      NotNamed(ns[1..], parts, name, v);
    }
  }

  lemma {:induction false} DistinctIsFunctional(n: Node, parts: seq<Text>, name: Text,
                                                v: seq<byte>, w: seq<byte>)
    requires Distinct(n) && Holds(n, parts, name, v) && Holds(n, parts, name, w)
    ensures v == w
    decreases n, 1
  {
    if parts != [] {
      ChildrenFunctional(n.children, parts, name, v, w);
    }
  }

  lemma {:induction false} ChildrenFunctional(ns: seq<Node>, parts: seq<Text>, name: Text,
                                              v: seq<byte>, w: seq<byte>)
    requires AllDistinct(ns) && parts != []
    requires ChildHolds(ns, parts, name, v) && ChildHolds(ns, parts, name, w)
    ensures v == w
    decreases ns, 0
  {
    if ns[0].name == parts[0] {
      NotNamed(ns[1..], parts, name, v);
      NotNamed(ns[1..], parts, name, w);
      DistinctIsFunctional(ns[0], parts[1..], name, v, w);
    } else {
      ChildrenFunctional(ns[1..], parts, name, v, w);
    }
  }

  /** The builder's blob parses back to the reservations and to exactly the tree's values. */
  lemma TreeRoundTrip(root: Node, reserves: seq<Reservation>, strings: seq<byte>,
                      offsets: map<Text, nat>, blob: seq<byte>)
    requires Named(root, offsets.Keys) && GoodNames(root) && Tidy(root) && Distinct(root)
    requires Resolves(offsets, strings) && Packable(reserves, Structure(root, offsets), strings)
    requires blob == Blob(reserves, Structure(root, offsets), strings)
    requires Reservation(0, 0) !in reserves
    ensures P.Parse(blob).Ok?
    ensures P.Parse(blob).value.reserves == Pairs(reserves)
    ensures Exact(root, P.Parse(blob).value.properties)
  {
    BlobRoundTrip(root, reserves, strings, offsets, Structure(root, offsets), blob);
    UpToZeroComplete(reserves);
    forall parts, name, v, w | Parts(parts) && Holds(root, parts, name, v) && Holds(root, parts, name, w)
      ensures v == w
    {
      DistinctIsFunctional(root, parts, name, v, w);
    }
    ConsistentIsExact(root, AddNode([], root, map[]));
  }

  /** Two siblings with one name: the parser keeps only the second one's value. */
  lemma TwinsLoseValue(name: Text, p: Text, v: seq<byte>, w: seq<byte>, root: Node)
    requires Part(name) && v != w
    requires root == Node([], [], [Node(name, [Property(p, v)], []), Node(name, [Property(p, w)], [])])
    ensures Tidy(root) && Holds(root, [name], p, v)
    ensures !Has(AddNode([], root, map[]), Path([[]] + [name]), p, v)
  {
    var first, second := root.children[0], root.children[1];
    assert first.children == [] && second.children == [];
    assert Tidy(first) && Tidy(second);
    assert root.children[1..] == [second] && root.children[1..][1..] == [];
    assert AllTidy([second]);
    assert [name][1..] == [];
    assert Holds(first, [], p, v);
    var top: seq<Text> := [[]];
    var inner := top + [name];
    var m1 := AddNode(top, first, map[]);
    assert first.properties[1..] == [] && second.properties[1..] == [];
    assert AddProperties(inner, second.properties, m1) == m1[(Path(inner), p) := w];
    assert AddNode(top, second, m1) == m1[(Path(inner), p) := w];
    assert [] + [root.name] == top;
    assert AddNodes(top, [second], m1) == AddNode(top, second, m1);
    assert AddNode([], root, map[]) == AddNodes(top, root.children, map[]);
  }
}
