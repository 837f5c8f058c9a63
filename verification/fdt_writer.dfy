/** fdt_prop, fdt_node and build_dtb, for any tree instead of the one constant tree. */
module FdtWriter {
  import opened Bytes
  import opened FdtFormat
  import M = Memory

  datatype Property = Property(name: Text, value: seq<byte>)
  datatype Node = Node(name: Text, properties: seq<Property>, children: seq<Node>)

  function FdtProp(nameOffset: nat, value: seq<byte>): (s: seq<byte>)
    ensures |s| % 4 == 0
  {
    Pad(Be(PROP, 4) + Be(|value|, 4) + Be(nameOffset, 4) + value)
  }

  function FdtNode(name: Text, body: seq<byte>): (s: seq<byte>)
    ensures |body| % 4 == 0 ==> |s| % 4 == 0
  {
    Pad(Be(BEGIN_NODE, 4) + (name + [0])) + body + Be(END_NODE, 4)
  }

  function FlattenProperties(properties: seq<Property>, offsets: map<Text, nat>): (s: seq<byte>)
    requires forall p | p in properties :: p.name in offsets
    ensures |s| % 4 == 0
  {
    if properties == [] then []
    else
      FdtProp(offsets[properties[0].name], properties[0].value)
      + FlattenProperties(properties[1..], offsets)
  }

  /** Every property name in the tree is one of the given names. */
  predicate Named(n: Node, names: set<Text>)
    decreases n
  {
    && (forall p | p in n.properties :: p.name in names)
    && AllNamed(n.children, names)
  }

  predicate AllNamed(ns: seq<Node>, names: set<Text>)
    decreases ns
  {
    ns == [] || (Named(ns[0], names) && AllNamed(ns[1..], names))
  }

  function Flatten(n: Node, offsets: map<Text, nat>): (s: seq<byte>)
    requires Named(n, offsets.Keys)
    ensures |s| % 4 == 0
    decreases n, 1
  {
    FdtNode(n.name, FlattenProperties(n.properties, offsets) + FlattenAll(n.children, offsets))
  }

  function FlattenAll(ns: seq<Node>, offsets: map<Text, nat>): (s: seq<byte>)
    requires AllNamed(ns, offsets.Keys)
    ensures |s| % 4 == 0
    decreases ns, 0
  {
    if ns == [] then [] else Flatten(ns[0], offsets) + FlattenAll(ns[1..], offsets)
  }

  /** The strings block: each name followed by NUL. */
  function Strings(names: seq<Text>): seq<byte> {
    if names == [] then [] else names[0] + [0] + Strings(names[1..])
  }

  /** The block holds name, NUL-terminated, at offset o. */
  predicate HoldsName(strings: seq<byte>, o: nat, name: Text) {
    o + |name| < |strings| && strings[o..o + |name| + 1] == name + [0]
  }

  /** An offset table points every name at its own text in the block. */
  predicate Resolves(offsets: map<Text, nat>, strings: seq<byte>) {
    forall name | name in offsets :: HoldsName(strings, offsets[name], name)
  }

  function NameSet(names: seq<Text>): set<Text> {
    set name | name in names
  }

  lemma StringsNext(done: seq<byte>, names: seq<Text>, i: nat)
    requires i < |names|
    ensures done + Strings(names[i..]) == (done + (names[i] + [0])) + Strings(names[i + 1..])
    ensures NameSet(names[..i + 1]) == NameSet(names[..i]) + {names[i]}
  {
    assert names[i..][1..] == names[i + 1..];
    assert names[..i + 1] == names[..i] + [names[i]];
  }

  method BuildStrings(names: seq<Text>) returns (strings: seq<byte>, offsets: map<Text, nat>)
    ensures strings == Strings(names)
    ensures Resolves(offsets, strings)
    ensures offsets.Keys == NameSet(names)
  {
    strings, offsets := [], map[];
    ghost var whole := Strings(names);
    for i := 0 to |names|
      invariant strings + Strings(names[i..]) == whole
      invariant Resolves(offsets, strings)
      invariant offsets.Keys == NameSet(names[..i])
    {
      StringsNext(strings, names, i);
      StillResolves(offsets, strings, names[i]);
      offsets := offsets[names[i] := |strings|];
      strings := strings + (names[i] + [0]);
    }
    assert names[..|names|] == names && names[|names|..] == [];
  }

  lemma StillHolds(strings: seq<byte>, more: seq<byte>, o: nat, name: Text)
    requires HoldsName(strings, o, name)
    ensures HoldsName(strings + more, o, name)
  {
    assert (strings + more)[o..o + |name| + 1] == strings[o..o + |name| + 1];
  }

  lemma StillResolves(offsets: map<Text, nat>, strings: seq<byte>, name: Text)
    requires Resolves(offsets, strings)
    ensures Resolves(offsets[name := |strings|], strings + (name + [0]))
  {
    var offsets', strings' := offsets[name := |strings|], strings + (name + [0]);
    forall n | n in offsets' ensures HoldsName(strings', offsets'[n], n) {
      if n == name {
        assert strings'[|strings|..] == name + [0];
      } else {
        StillHolds(strings, name + [0], offsets[n], n);
      }
    }
  }

  datatype Reservation = Reservation(address: nat, size: nat)

  function ReserveEntries(reserves: seq<Reservation>): (s: seq<byte>)
    ensures |s| == 16 * |reserves|
  {
    if reserves == [] then []
    else Be(reserves[0].address, 8) + Be(reserves[0].size, 8) + ReserveEntries(reserves[1..])
  }

  function ReserveMap(reserves: seq<Reservation>): (s: seq<byte>)
    ensures |s| == 16 * (|reserves| + 1)
  {
    ReserveEntries(reserves) + (Be(0, 8) + Be(0, 8))
  }

  /** Ten big-endian words: struct.pack(">10I", ...). */
  function PackWords(words: seq<nat>): (s: seq<byte>)
    ensures |s| == 4 * |words|
  {
    if words == [] then [] else Be(words[0], 4) + PackWords(words[1..])
  }

  function Header(total: nat, structOffset: nat, stringsOffset: nat, reserveOffset: nat,
                  stringsSize: nat, structSize: nat): (h: seq<byte>)
    ensures |h| == 40
  {
    PackWords([FDT_MAGIC, total, structOffset, stringsOffset, reserveOffset, 17, 16, 0,
               stringsSize, structSize])
  }

  /** The blob as one concatenation; the alignment the builder asks for leaves no gap. */
  function Blob(reserves: seq<Reservation>, structure: seq<byte>, strings: seq<byte>): seq<byte> {
    var structOffset := 40 + 16 * (|reserves| + 1);
    var stringsOffset := structOffset + |structure|;
    Header(stringsOffset + |strings|, structOffset, stringsOffset, 40, |strings|, |structure|)
    + ReserveMap(reserves) + structure + strings
  }

  function Structure(root: Node, offsets: map<Text, nat>): (s: seq<byte>)
    requires Named(root, offsets.Keys)
    ensures |s| % 4 == 0
  {
    Flatten(root, offsets) + Be(END, 4)
  }

  /** What struct.pack demands of the integers it is given. */
  predicate Packable(reserves: seq<Reservation>, structure: seq<byte>, strings: seq<byte>) {
    && 40 + 16 * (|reserves| + 1) + |structure| + |strings| < U32
    && forall r | r in reserves :: r.address < Pow256(8) && r.size < Pow256(8)
  }

  lemma NoGaps(reserveMap: seq<byte>, structure: seq<byte>)
    requires |reserveMap| % 16 == 0 && |structure| % 4 == 0
    ensures Align4(40 + |reserveMap|) == 40 + |reserveMap|
    ensures Align4(40 + |reserveMap| + |structure|) == 40 + |reserveMap| + |structure|
  {
  }

  /** The four slice assignments into a fresh zeroed image. */
  method FillImage(header: seq<byte>, reserveMap: seq<byte>, structure: seq<byte>, strings: seq<byte>)
    returns (image: array<byte>)
    requires |header| == 40 && |reserveMap| % 16 == 0 && |structure| % 4 == 0
    ensures fresh(image)
    ensures image[..] == header + reserveMap + structure + strings
  {
    NoGaps(reserveMap, structure);
    var structOffset := Align4(40 + |reserveMap|);
    var stringsOffset := Align4(structOffset + |structure|);
    image := new byte[stringsOffset + |strings|](i => 0);
    ghost var blank := image[..];
    M.StoreInto(image, 0, header);
    M.StoreInto(image, 40, reserveMap);
    M.StoreInto(image, structOffset, structure);
    M.StoreInto(image, stringsOffset, strings);
    FourStores(blank, header, reserveMap, structure, strings);
  }

  /** Four adjoining stores that cover an image leave nothing of what it held. */
  lemma FourStores(blank: seq<byte>, a: seq<byte>, b: seq<byte>, c: seq<byte>, d: seq<byte>)
    requires |blank| == |a| + |b| + |c| + |d|
    ensures var m1 := M.Store(M.Store(blank, 0, a), |a|, b);
            M.Store(M.Store(m1, |a| + |b|, c), |a| + |b| + |c|, d) == a + b + c + d
  {
    var m1 := M.Store(blank, 0, a);
    var m2 := M.Store(m1, |a|, b);
    var m3 := M.Store(m2, |a| + |b|, c);
    assert m1[..|a|] == a;
    assert m2[..|a| + |b|] == a + b;
    assert m3[..|a| + |b| + |c|] == a + b + c;
  }

  method PackImage(reserves: seq<Reservation>, structure: seq<byte>, strings: seq<byte>)
    returns (image: array<byte>)
    requires |structure| % 4 == 0
    ensures fresh(image)
    ensures image[..] == Blob(reserves, structure, strings)
  {
    var reserveMap := ReserveMap(reserves);
    NoGaps(reserveMap, structure);
    var structOffset := Align4(40 + |reserveMap|);
    var stringsOffset := Align4(structOffset + |structure|);
    var header := Header(stringsOffset + |strings|, structOffset, stringsOffset, 40,
                         |strings|, |structure|);
    image := FillImage(header, reserveMap, structure, strings);
  }

  /** build_dtb; ok is false where struct.pack refuses an integer that does not fit its field. */
  method BuildDtb(root: Node, reserves: seq<Reservation>, names: seq<Text>)
    returns (ok: bool, image: array<byte>, offsets: map<Text, nat>)
    requires Named(root, NameSet(names))
    ensures offsets.Keys == NameSet(names) && Resolves(offsets, Strings(names))
    ensures ok <==> Packable(reserves, Structure(root, offsets), Strings(names))
    ensures ok ==> image[..] == Blob(reserves, Structure(root, offsets), Strings(names))
  {
    var strings, table := BuildStrings(names);
    offsets := table;
    var structure := Structure(root, offsets);
    ok := Packable(reserves, structure, strings);
    if ok {
      image := PackImage(reserves, structure, strings);
    } else {
      image := new byte[0];
    }
  }
}
