/** The flattened device tree format (section 5 of the Devicetree Specification), written and parsed. */
module FdtFormat {
  import opened Bytes

  const FDT_MAGIC: nat := 0xD00D_FEED
  const BEGIN_NODE: nat := 1
  const END_NODE: nat := 2
  const PROP: nat := 3
  const NOP: nat := 4
  const END: nat := 9

  type Text = seq<byte>
  type Properties = map<(Text, Text), seq<byte>>

  function Align4(n: nat): (a: nat)
    ensures n <= a < n + 4 && a % 4 == 0
  {
    (n + 3) / 4 * 4
  }

  /** ljust to a multiple of four with zero bytes. */
  function Pad(s: seq<byte>): (p: seq<byte>)
    ensures |p| == Align4(|s|) && p[..|s|] == s && forall i | |s| <= i < |p| :: p[i] == 0
  {
    s + seq(Align4(|s|) - |s|, i => 0)
  }

  /** Names the format can carry: ASCII without NUL. */
  predicate Name(s: Text) {
    forall i | 0 <= i < |s| :: 0 < s[i] < 128
  }

  const SLASH: byte := 0x2F

  /** Python's "/".join(parts). */
  function Join(parts: seq<Text>): Text {
    if parts == [] then []
    else if |parts| == 1 then parts[0]
    else parts[0] + [SLASH] + Join(parts[1..])
  }

  function NonEmpty(parts: seq<Text>): seq<Text> {
    if parts == [] then []
    else (if parts[0] == [] then [] else [parts[0]]) + NonEmpty(parts[1..])
  }

  /** The parser's path for a stack of node names. */
  function Path(stack: seq<Text>): Text {
    [SLASH] + Join(NonEmpty(stack))
  }
}
