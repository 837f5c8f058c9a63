/** The RAM bundle loader: range and overlap checks, then chunked uploads with retries. */
module Bundle {
  import opened Bytes
  import opened Memory
  import Hdlc

  const MONITOR_BASE: nat := 0x0080_0000
  const MONITOR_SIZE: nat := 105_928
  const SAFE_EXTRA_START: int := 0x0100_0000
  const SAFE_RAM_END: int := 0x0200_0000
  const DIRECT_IMAGE_START: int := 0x0020_8000
  const DIRECT_IMAGE_END: int := 0x0078_0000
  const MAX_CHUNK: nat := 0x3F9

  datatype Image = Image(address: int, data: seq<byte>) {
    function End(): int {
      address + |data|
    }
  }

  predicate RangeIsAllowed(address: int, length: nat) {
    || (DIRECT_IMAGE_START <= address && address + length <= DIRECT_IMAGE_END)
    || (SAFE_EXTRA_START <= address && address + length <= SAFE_RAM_END)
  }

  /** Every address of the image lies in [from, to). */
  ghost predicate Within(im: Image, from: int, to: int) {
    forall a: int {:trigger Holds(im, a)} | im.address <= a < im.address + |im.data| :: from <= a < to
  }

  /** The image lies in one of the windows; an empty one may also stand at a window's end. */
  ghost predicate InWindows(im: Image) {
    if im.data == [] then
      0x0020_8000 <= im.address <= 0x0078_0000 || 0x0100_0000 <= im.address <= 0x0200_0000
    else
      Within(im, 0x0020_8000, 0x0078_0000) || Within(im, 0x0100_0000, 0x0200_0000)
  }

  /** What is allowed: the images all of whose addresses lie in one of the two windows, and no others. */
  lemma AllowedIffInWindow(im: Image)
    ensures RangeIsAllowed(im.address, |im.data|) <==> InWindows(im)
  {
    var first, last := im.address, im.address + |im.data| - 1;
    assert im.data != [] ==> Holds(im, first) && Holds(im, last);
  }

  /** The two spans share a byte, or one is empty and lies strictly inside the other. */
  predicate Clash(a: Image, b: Image) {
    a.address < b.End() && b.address < a.End()
  }

  predicate NoClash(images: seq<Image>) {
    forall i, j | 0 <= i < j < |images| :: !Clash(images[i], images[j])
  }

  predicate Holds(im: Image, a: int) {
    im.address <= a < im.End()
  }

  predicate Shares(a: Image, b: Image) {
    a.data != [] && b.data != [] && a.address < b.End() && b.address < a.End()
  }

  /** The first image is empty and its address is strictly inside the second. */
  predicate EmptyInside(a: Image, b: Image) {
    a.data == [] && b.address < a.address < b.End()
  }

  lemma SharesIsCommonByte(a: Image, b: Image)
    ensures Shares(a, b) <==> exists x :: Holds(a, x) && Holds(b, x)
  {
    if Shares(a, b) {
      var x := if a.address < b.address then b.address else a.address;
      assert Holds(a, x) && Holds(b, x);
    }
  }

  /** A clash is a shared byte, or an empty image strictly inside another; the two exclude each other. */
  lemma ClashIff(a: Image, b: Image)
    ensures Clash(a, b) <==> Shares(a, b) || EmptyInside(a, b) || EmptyInside(b, a)
    ensures Shares(a, b) ==> !EmptyInside(a, b) && !EmptyInside(b, a)
  {
  }

  ghost predicate Disjoint(images: seq<Image>) {
    forall i, j | 0 <= i < j < |images| ::
      !exists x :: Holds(images[i], x) && Holds(images[j], x)
  }

  predicate NoEmptyInside(images: seq<Image>) {
    forall i, j | 0 <= i < j < |images| ::
      !EmptyInside(images[i], images[j]) && !EmptyInside(images[j], images[i])
  }

  /**
   What the check asks for: that images share no byte, and that no empty image lies strictly
   inside another. So it refuses exactly the bundles that share a byte if and only if no such
   empty image decides it.
   */
  lemma CheckIsDisjointnessIff(images: seq<Image>)
    ensures NoClash(images) <==> Disjoint(images) && NoEmptyInside(images)
    ensures (NoClash(images) <==> Disjoint(images)) <==> (Disjoint(images) ==> NoEmptyInside(images))
  {
    if NoClash(images) {
      forall i, j | 0 <= i < j < |images|
        ensures !exists x :: Holds(images[i], x) && Holds(images[j], x)
        ensures !EmptyInside(images[i], images[j]) && !EmptyInside(images[j], images[i])
      {
        ClashIff(images[i], images[j]);
        SharesIsCommonByte(images[i], images[j]);
      }
    }
    if Disjoint(images) && NoEmptyInside(images) {
      forall i, j | 0 <= i < j < |images| ensures !Clash(images[i], images[j]) {
        ClashIff(images[i], images[j]);
        SharesIsCommonByte(images[i], images[j]);
      }
    }
  }

  /** An empty image at p strictly inside another makes the check refuse a bundle that shares no byte. */
  lemma EmptyInsideRefused(a: Image, p: int)
    requires a.address < p < a.End()
    ensures Disjoint([a, Image(p, [])]) && !NoClash([a, Image(p, [])])
  {
    var b := [a, Image(p, [])];
    assert Clash(b[0], b[1]);
    SharesIsCommonByte(b[0], b[1]);
  }

  /** Python's order on (start, end) pairs. */
  predicate Before(a: Image, b: Image) {
    a.address < b.address || (a.address == b.address && a.End() <= b.End())
  }

  predicate Ordered(s: seq<Image>) {
    forall i | 0 <= i < |s| - 1 :: Before(s[i], s[i + 1])
  }

  function Insert(s: seq<Image>, x: Image): (r: seq<Image>)
    ensures multiset(r) == multiset(s) + multiset{x}
  {
    if s == [] then [x]
    else if Before(x, s[0]) then [x] + s
    else
      assert s == [s[0]] + s[1..];
      [s[0]] + Insert(s[1..], x)
  }

  function Sort(s: seq<Image>): (r: seq<Image>)
    ensures multiset(r) == multiset(s)
  {
    if s == [] then []
    else
      assert s == [s[0]] + s[1..];
      Insert(Sort(s[1..]), s[0])
  }

  lemma {:induction false} InsertOrdered(s: seq<Image>, x: Image)
    requires Ordered(s)
    ensures Ordered(Insert(s, x))
    ensures Insert(s, x)[0] == x || (s != [] && Insert(s, x)[0] == s[0])
    decreases |s|
  {
    if s != [] && !Before(x, s[0]) {
      var tail := s[1..];
      forall i | 0 <= i < |tail| - 1 ensures Before(tail[i], tail[i + 1]) {
        assert Before(s[i + 1], s[i + 2]);
      }
      InsertOrdered(tail, x);
      var r, t := Insert(s, x), Insert(tail, x);
      assert t[0] == x || Before(s[0], t[0]);
      forall i | 0 <= i < |r| - 1 ensures Before(r[i], r[i + 1]) {
        if i > 0 { assert Before(t[i - 1], t[i]); }
      }
    }
  }

  lemma {:induction false} SortOrdered(s: seq<Image>)
    ensures Ordered(Sort(s))
  {
    if s != [] {
      SortOrdered(s[1..]);
      InsertOrdered(Sort(s[1..]), s[0]);
    }
  }

  /** The comparison of each image with its successor only. */
  predicate NeighboursClear(s: seq<Image>) {
    forall i | 0 <= i < |s| - 1 :: s[i].End() <= s[i + 1].address
  }

  lemma {:induction false} ClearFurther(s: seq<Image>, i: nat, j: nat)
    requires NeighboursClear(s) && i < j < |s|
    ensures s[i].End() <= s[j].address
    decreases j
  {
    if i + 1 < j {
      ClearFurther(s, i, j - 1);
      assert s[j - 1].End() <= s[j].address;
    }
  }

  /** In an ordered list, comparing neighbours is as good as comparing every pair. */
  lemma NeighboursSuffice(s: seq<Image>)
    requires Ordered(s)
    ensures NeighboursClear(s) <==> NoClash(s)
  {
    if NeighboursClear(s) {
      forall i, j | 0 <= i < j < |s| ensures !Clash(s[i], s[j]) {
        ClearFurther(s, i, j);
      }
    }
    if NoClash(s) {
      forall i | 0 <= i < |s| - 1 ensures s[i].End() <= s[i + 1].address {
        assert Before(s[i], s[i + 1]) && !Clash(s[i], s[i + 1]);
      }
    }
  }

  predicate Apart(x: Image, s: seq<Image>) {
    forall i | 0 <= i < |s| :: !Clash(x, s[i])
  }

  lemma NoClashCons(x: Image, s: seq<Image>)
    ensures NoClash([x] + s) <==> Apart(x, s) && NoClash(s)
  {
    var t := [x] + s;
    if NoClash(t) {
      forall i | 0 <= i < |s| ensures !Clash(x, s[i]) { assert !Clash(t[0], t[i + 1]); }
      forall i, j | 0 <= i < j < |s| ensures !Clash(s[i], s[j]) { assert !Clash(t[i + 1], t[j + 1]); }
    }
    if Apart(x, s) && NoClash(s) {
      forall i, j | 0 <= i < j < |t| ensures !Clash(t[i], t[j]) {
        if i == 0 { assert !Clash(x, s[j - 1]); } else { assert !Clash(s[i - 1], s[j - 1]); }
      }
    }
  }

  lemma ApartCons(y: Image, x: Image, s: seq<Image>)
    ensures Apart(y, [x] + s) <==> !Clash(y, x) && Apart(y, s)
  {
    var t := [x] + s;
    if Apart(y, t) {
      assert !Clash(y, t[0]);
      forall i | 0 <= i < |s| ensures !Clash(y, s[i]) { assert !Clash(y, t[i + 1]); }
    }
  }

  lemma {:induction false} ApartInsert(y: Image, s: seq<Image>, x: Image)
    ensures Apart(y, Insert(s, x)) <==> !Clash(y, x) && Apart(y, s)
    decreases |s|
  {
    if s == [] || Before(x, s[0]) {
      ApartCons(y, x, s);
    } else {
      ApartInsert(y, s[1..], x);
      ApartCons(y, s[0], Insert(s[1..], x));
      assert s == [s[0]] + s[1..];
      ApartCons(y, s[0], s[1..]);
    }
  }

  lemma {:induction false} NoClashInsert(s: seq<Image>, x: Image)
    ensures NoClash(Insert(s, x)) <==> Apart(x, s) && NoClash(s)
    decreases |s|
  {
    if s == [] || Before(x, s[0]) {
      NoClashCons(x, s);
    } else {
      NoClashInsert(s[1..], x);
      ApartInsert(s[0], s[1..], x);
      assert s == [s[0]] + s[1..];
      NoClashDeeper(s[0], s[1..], x, Insert(s[1..], x));
    }
  }

  lemma NoClashDeeper(h: Image, tail: seq<Image>, x: Image, r: seq<Image>)
    requires NoClash(r) <==> Apart(x, tail) && NoClash(tail)
    requires Apart(h, r) <==> !Clash(h, x) && Apart(h, tail)
    ensures NoClash([h] + r) <==> Apart(x, [h] + tail) && NoClash([h] + tail)
  {
    NoClashCons(h, r);
    NoClashCons(h, tail);
    ApartCons(x, h, tail);
  }

  lemma {:induction false} ApartSort(y: Image, s: seq<Image>)
    ensures Apart(y, Sort(s)) <==> Apart(y, s)
    decreases |s|
  {
    if s != [] {
      ApartSort(y, s[1..]);
      ApartInsert(y, Sort(s[1..]), s[0]);
      ApartFirst(y, s);
    }
  }

  lemma ApartFirst(y: Image, s: seq<Image>)
    requires s != []
    ensures Apart(y, s) <==> !Clash(y, s[0]) && Apart(y, s[1..])
  {
    assert s == [s[0]] + s[1..];
    ApartCons(y, s[0], s[1..]);
  }

  lemma NoClashFirst(s: seq<Image>)
    requires s != []
    ensures NoClash(s) <==> Apart(s[0], s[1..]) && NoClash(s[1..])
  {
    assert s == [s[0]] + s[1..];
    NoClashCons(s[0], s[1..]);
  }

  lemma {:induction false} NoClashSort(s: seq<Image>)
    ensures NoClash(Sort(s)) <==> NoClash(s)
    decreases |s|
  {
    if s != [] {
      NoClashSort(s[1..]);
      NoClashInsert(Sort(s[1..]), s[0]);
      ApartSort(s[0], s[1..]);
      NoClashFirst(s);
    }
  }

  predicate ClearBefore(s: seq<Image>, n: int) {
    forall i | 0 <= i < |s| - 1 && i + 1 < n :: s[i].End() <= s[i + 1].address
  }

  /** The loop in main over the sorted spans. */
  method CheckNeighbours(occupied: seq<Image>) returns (ok: bool)
    ensures ok <==> NeighboursClear(occupied)
  {
    var i := 1;
    while i < |occupied|
      invariant 1 <= i && ClearBefore(occupied, i)
    {
      if occupied[i].address < occupied[i - 1].End() {
        return false;
      }
      i := i + 1;
    }
    return true;
  }

  /** Sort, then compare neighbours: exactly the bundles without any clash pass. */
  method CheckOverlap(bundle: seq<Image>) returns (ok: bool)
    ensures ok <==> NoClash(bundle)
  {
    SortOrdered(bundle);
    NoClashSort(bundle);
    NeighboursSuffice(Sort(bundle));
    ok := CheckNeighbours(Sort(bundle));
  }

  /** What became of one transmitted write command: whether RAM took it, and what came back. */
  datatype Attempt = Attempt(stored: bool, reply: Hdlc.Reply)

  /** The three attempts a chunk may be given. */
  type Attempts = s: seq<Attempt> | |s| == 3 witness seq(3, i => Attempt(false, Hdlc.Timeout))

  /** The replies write_ram takes for an acknowledgement. */
  predicate Accepted(r: Hdlc.Reply) {
    r.Data? && (r.payload == [0x02] || (r.payload != [] && r.payload[0] == 0x0F))
  }

  /** The replies after which it tries again: none, or an empty one. */
  predicate Silent(r: Hdlc.Reply) {
    r.Timeout? || (r.Data? && r.payload == [])
  }

  /** The assumption about the boot loader: it acknowledges a chunk only if it has stored it. */
  predicate Honest(attempts: Attempts) {
    forall k | 0 <= k < 3 && Accepted(attempts[k].reply) ::
      exists j :: 0 <= j <= k && attempts[j].stored
  }

  /** The chunk is acknowledged: some attempt is, and every one before it was met with silence. */
  predicate Acked(attempts: Attempts) {
    exists k :: 0 <= k < 3 && AckedAt(attempts, k)
  }

  predicate AckedAt(attempts: Attempts, k: nat)
    requires k < 3
  {
    Accepted(attempts[k].reply) && forall j | 0 <= j < k :: Silent(attempts[j].reply)
  }

  /** The chunk is acknowledged by a reply of the one byte 0x02, or one that begins with 0x0F. */
  lemma AcceptedIff(r: Hdlc.Reply)
    ensures Accepted(r) <==> exists rest :: r == Hdlc.Data([0x02]) || r == Hdlc.Data([0x0F] + rest)
    ensures Silent(r) <==> r == Hdlc.Timeout || r == Hdlc.Data([])
  {
    if Accepted(r) {
      var rest := r.payload[1..];
      assert r == Hdlc.Data([0x02]) || r == Hdlc.Data([0x0F] + rest);
    }
  }

  /** How many chunks an image of n bytes takes. */
  function Chunks(n: nat): nat {
    (n + MAX_CHUNK - 1) / MAX_CHUNK
  }

  /** As few chunks of at most 1017 bytes as carry the image. */
  lemma ChunkCount(n: nat)
    ensures n <= 1017 * Chunks(n) < n + 1017
  {
  }

  function TotalChunks(images: seq<Image>): nat {
    if images == [] then 0 else TotalChunks(images[..|images| - 1]) + Chunks(|images[|images| - 1].data|)
  }

  datatype Outcome = Loaded | BadMonitor | BadRange | Overlap | Failed

  predicate Present(mem: seq<byte>, im: Image) {
    && 0 <= im.address && im.End() <= |mem|
    && mem[im.address..im.End()] == im.data
  }

  predicate Covered(images: seq<Image>, a: int) {
    exists i :: 0 <= i < |images| && Holds(images[i], a)
  }

  /** No byte outside the images has changed. */
  predicate Untouched(images: seq<Image>, before: seq<byte>, after: seq<byte>) {
    && |before| == |after|
    && forall a | 0 <= a < |before| && !Covered(images, a) :: after[a] == before[a]
  }

  predicate Fits(im: Image) {
    0 <= im.address && im.End() <= U32
  }

  predicate AllAllowed(images: seq<Image>) {
    forall i | 0 <= i < |images| :: RangeIsAllowed(images[i].address, |images[i].data|)
  }

  function Bundle(monitor: seq<byte>, images: seq<Image>): (b: seq<Image>)
    ensures |b| == |images| + 1
  {
    [Image(MONITOR_BASE, monitor)] + images
  }

  lemma BundleFits(monitor: seq<byte>, images: seq<Image>)
    requires |monitor| == MONITOR_SIZE && AllAllowed(images)
    ensures forall i | 0 <= i <= |images| :: Fits(Bundle(monitor, images)[i])
  {
    forall i | 1 <= i <= |images| ensures Fits(Bundle(monitor, images)[i]) {
      assert RangeIsAllowed(images[i - 1].address, |images[i - 1].data|);
    }
  }

  lemma BundlePresent(m: seq<byte>, monitor: seq<byte>, images: seq<Image>)
    requires |m| == U32 && |monitor| == MONITOR_SIZE
    requires forall i | 0 <= i <= |images| :: Present(m, Bundle(monitor, images)[i])
    ensures m[0x0080_0000..0x0080_0000 + 105_928] == monitor
    ensures forall i | 0 <= i < |images| :: Present(m, images[i])
  {
    assert Present(m, Bundle(monitor, images)[0]);
    forall i | 0 <= i < |images| ensures Present(m, images[i]) {
      assert Present(m, Bundle(monitor, images)[i + 1]);
    }
  }

  /** Where a load may write: the monitor image and the two windows. */
  predicate Writable(a: int) {
    || 0x0080_0000 <= a < 0x0080_0000 + 105_928
    || 0x0020_8000 <= a < 0x0078_0000
    || 0x0100_0000 <= a < 0x0200_0000
  }

  /** Whatever the loader does not touch includes everything outside the writable areas. */
  lemma OutsideUntouched(monitor: seq<byte>, images: seq<Image>, before: seq<byte>,
                         after: seq<byte>, a: nat)
    requires Untouched(Bundle(monitor, images), before, after) && a < |before|
    requires |monitor| == MONITOR_SIZE && AllAllowed(images) && !Writable(a)
    ensures after[a] == before[a]
  {
    var b := Bundle(monitor, images);
    forall i | 0 <= i < |b| ensures !Holds(b[i], a) {
      if i > 0 { assert RangeIsAllowed(images[i - 1].address, |images[i - 1].data|); }
    }
  }

  lemma StillUntouched(images: seq<Image>, i: nat, first: seq<byte>, before: seq<byte>,
                       after: seq<byte>)
    requires i < |images| && 0 <= images[i].address
    requires Untouched(images, first, before)
    requires Only(before, after, images[i].address, images[i].End())
    ensures Untouched(images, first, after)
  {
    forall a | 0 <= a < |first| && !Covered(images, a) ensures after[a] == first[a] {
      assert !Holds(images[i], a);
    }
  }

  lemma StillPresent(images: seq<Image>, i: nat, before: seq<byte>, after: seq<byte>)
    requires i < |images| && NoClash(images) && Fits(images[i]) && |before| == U32
    requires after == Store(before, images[i].address, images[i].data)
    requires forall k | 0 <= k < i :: Present(before, images[k])
    ensures forall k | 0 <= k <= i :: Present(after, images[k])
  {
    StoreOnly(before, images[i].address, images[i].data);
    forall k | 0 <= k < i ensures Present(after, images[k]) {
      PresentElsewhere(images[k], images[i], before, after);
    }
  }

  lemma PresentElsewhere(a: Image, b: Image, before: seq<byte>, after: seq<byte>)
    requires Present(before, a) && !Clash(a, b) && 0 <= b.address
    requires Only(before, after, b.address, b.End())
    ensures Present(after, a)
  {
    SameSlice(before, after, a.address, a.End());
  }

  ghost predicate AllInWindows(images: seq<Image>) {
    forall i | 0 <= i < |images| :: InWindows(images[i])
  }

  /** The range checks of main. */
  method CheckRanges(images: seq<Image>) returns (ok: bool)
    ensures ok <==> AllInWindows(images)
    ensures ok ==> AllAllowed(images)
  {
    for i := 0 to |images|
      invariant forall k | 0 <= k < i :: InWindows(images[k])
      invariant forall k | 0 <= k < i :: RangeIsAllowed(images[k].address, |images[k].data|)
    {
      AllowedIffInWindow(images[i]);
      if !RangeIsAllowed(images[i].address, |images[i].data|) {
        return false;
      }
    }
    return true;
  }

  class Loader {
    const ram: array<byte>
    /** How the far end will treat the n-th chunk. */
    const line: nat -> Attempts
    var sent: nat

    constructor (ram: array<byte>, line: nat -> Attempts)
      requires ram.Length == U32 && forall n: nat :: Honest(line(n))
      ensures Valid() && this.ram == ram && this.line == line
    {
      this.ram, this.line, sent := ram, line, 0;
    }

    ghost predicate Valid() {
      ram.Length == U32 && forall n: nat :: Honest(line(n))
    }

    /** Every chunk of this range of numbers is acknowledged. */
    ghost predicate AllAcked(from: nat, to: nat) {
      forall n: nat | from <= n < to :: Acked(line(n))
    }

    /** write_ram */
    method WriteRam(address: nat, data: seq<byte>) returns (ok: bool)
      requires Valid() && address + |data| <= U32
      modifies this`sent, ram
      ensures Only(old(ram[..]), ram[..], address, address + |data|)
      ensures ok ==> ram[..] == Store(old(ram[..]), address, data)
      ensures sent == old(sent) + 1 && (ok <==> Acked(line(old(sent))))
    {
      var attempts := line(sent);
      sent := sent + 1;
      ghost var before := ram[..];
      var k, stored := 0, false;
      while k < 3
        invariant 0 <= k <= 3
        invariant ram[..] == if stored then Store(before, address, data) else before
        invariant sent == old(sent) + 1
        invariant stored <==> exists j :: 0 <= j < k && attempts[j].stored
        invariant forall j | 0 <= j < k :: Silent(attempts[j].reply) && !Accepted(attempts[j].reply)
      {
        var attempt := attempts[k];
        if attempt.stored {
          StoreTwice(before, address, data);
          StoreInto(ram, address, data);
          stored := true;
        }
        StoreOnly(before, address, data);
        if Accepted(attempt.reply) {
          assert Honest(attempts) && AckedAt(attempts, k);
          return true;
        }
        if !Silent(attempt.reply) {
          return false;
        }
        k := k + 1;
      }
      StoreOnly(before, address, data);
      return false;
    }

    /** upload: chunks of at most 0x3F9 bytes. */
    method Upload(address: nat, data: seq<byte>) returns (ok: bool)
      requires Valid() && address + |data| <= U32
      modifies this`sent, ram
      ensures Only(old(ram[..]), ram[..], address, address + |data|)
      ensures ok ==> ram[..] == Store(old(ram[..]), address, data)
      ensures ok ==> sent == old(sent) + Chunks(|data|) && AllAcked(old(sent), sent)
      ensures !ok ==> exists n: nat :: old(sent) <= n < old(sent) + Chunks(|data|) && !Acked(line(n))
    {
      ghost var before := ram[..];
      ghost var first, count := sent, 0;
      var written := 0;
      assert Store(before, address, data[..0]) == before;
      while written < |data|
        invariant 0 <= written <= |data|
        invariant ram[..] == Store(before, address, data[..written])
        invariant sent == first + count && AllAcked(first, sent)
        invariant Progress(|data|, count, written)
      {
        var end := if written + MAX_CHUNK < |data| then written + MAX_CHUNK else |data|;
        ghost var middle := ram[..];
        var sentOk := WriteRam(address + written, data[written..end]);
        ProgressStep(|data|, count, written, end);
        if !sentOk {
          StoppedOnly(before, middle, ram[..], address, data, written, end);
          assert !Acked(line(first + count));
          return false;
        }
        count := count + 1;
        StoreNext(before, address, data, written, end);
        written := end;
      }
      assert data[..written] == data;
      StoreOnly(before, address, data);
      return true;
    }

    /** The upload loop of main. */
    method UploadAll(bundle: seq<Image>) returns (ok: bool)
      requires Valid() && NoClash(bundle) && forall i | 0 <= i < |bundle| :: Fits(bundle[i])
      modifies this`sent, ram
      ensures Untouched(bundle, old(ram[..]), ram[..])
      ensures ok ==> forall i | 0 <= i < |bundle| :: Present(ram[..], bundle[i])
      ensures ok <==> AllAcked(old(sent), old(sent) + TotalChunks(bundle))
    {
      ghost var first, start := ram[..], sent;
      for i := 0 to |bundle|
        invariant Untouched(bundle, first, ram[..])
        invariant forall k | 0 <= k < i :: Present(ram[..], bundle[k])
        invariant sent == start + TotalChunks(bundle[..i]) && AllAcked(start, sent)
      {
        ghost var before := ram[..];
        ChunksSoFar(bundle, i);
        var uploaded := Upload(bundle[i].address, bundle[i].data);
        StillUntouched(bundle, i, first, before, ram[..]);
        if !uploaded {
          return false;
        }
        StillPresent(bundle, i, before, ram[..]);
      }
      assert bundle[..|bundle|] == bundle;
      return true;
    }

    /** main, from the size check to the last upload. */
    method Load(monitor: seq<byte>, images: seq<Image>) returns (outcome: Outcome)
      requires Valid()
      modifies this`sent, ram
      ensures outcome.BadMonitor? <==> |monitor| != 105_928
      ensures outcome.BadRange? <==> |monitor| == 105_928 && !AllInWindows(images)
      ensures outcome.Overlap? <==> |monitor| == 105_928 && AllInWindows(images)
                                    && !NoClash(Bundle(monitor, images))
      ensures outcome.Loaded? ==> AllAcked(old(sent), old(sent) + TotalChunks(Bundle(monitor, images)))
      ensures outcome.Failed? ==> !AllAcked(old(sent), old(sent) + TotalChunks(Bundle(monitor, images)))
      ensures !outcome.Loaded? && !outcome.Failed? ==> ram[..] == old(ram[..])
      ensures outcome.Loaded? ==>
                && ram[0x0080_0000..0x0080_0000 + 105_928] == monitor
                && (forall i | 0 <= i < |images| :: Present(ram[..], images[i]))
      ensures Untouched(Bundle(monitor, images), old(ram[..]), ram[..])
    {
      if |monitor| != MONITOR_SIZE {
        return BadMonitor;
      }
      var allowed := CheckRanges(images);
      if !allowed {
        return BadRange;
      }
      var bundle := [Image(MONITOR_BASE, monitor)] + images;
      var clear := CheckOverlap(bundle);
      if !clear {
        return Overlap;
      }
      BundleFits(monitor, images);
      var ok := UploadAll(bundle);
      if ok {
        BundlePresent(ram[..], monitor, images);
      }
      outcome := if ok then Loaded else Failed;
    }
  }

  lemma ChunksSoFar(images: seq<Image>, i: nat)
    requires i < |images|
    ensures TotalChunks(images[..i + 1]) == TotalChunks(images[..i]) + Chunks(|images[i].data|)
    ensures TotalChunks(images[..i + 1]) <= TotalChunks(images)
  {
    assert images[..i + 1][..i] == images[..i];
    MoreImages(images, i + 1);
  }

  lemma {:induction false} MoreImages(images: seq<Image>, i: nat)
    requires i <= |images|
    ensures TotalChunks(images[..i]) <= TotalChunks(images)
    decreases |images|
  {
    if i < |images| {
      var front := images[..|images| - 1];
      MoreImages(front, i);
      assert front[..i] == images[..i];
    } else {
      assert images[..i] == images;
    }
  }

  /** count chunks have carried the first written of n bytes. */
  predicate Progress(n: nat, count: nat, written: nat) {
    && written == (if count * MAX_CHUNK < n then count * MAX_CHUNK else n)
    && count <= Chunks(n) && (written == n ==> count == Chunks(n))
  }

  lemma ProgressStep(n: nat, count: nat, written: nat, end: nat)
    requires Progress(n, count, written) && written < n
    requires end == if written + MAX_CHUNK < n then written + MAX_CHUNK else n
    ensures count < Chunks(n) && Progress(n, count + 1, end)
  {
  }

  /** A load that stops inside an image has touched only that image. */
  lemma StoppedOnly(before: seq<byte>, middle: seq<byte>, after: seq<byte>, a: nat, s: seq<byte>,
                    i: nat, j: nat)
    requires i <= j <= |s| && a + |s| <= |before| && middle == Store(before, a, s[..i])
    requires Only(middle, after, a + i, a + j)
    ensures Only(before, after, a, a + |s|)
  {
    StoreOnly(before, a, s[..i]);
  }

  lemma StoreTwice(m: seq<byte>, a: nat, s: seq<byte>)
    requires a + |s| <= |m|
    ensures Store(Store(m, a, s), a, s) == Store(m, a, s)
  {
  }

  lemma StoreNext(m: seq<byte>, a: nat, s: seq<byte>, i: nat, j: nat)
    requires i <= j <= |s| && a + |s| <= |m|
    ensures Store(Store(m, a, s[..i]), a + i, s[i..j]) == Store(m, a, s[..j])
  {
    assert s[..i] + s[i..j] == s[..j];
  }
}
