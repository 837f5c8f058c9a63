/** Which damage a division check notices: a burst no longer than the generator, anywhere. */
module Bursts {
  import opened Bytes
  import opened Polynomial

  /** The register fed one coefficient at a time. */
  function Feed(r: bits, m: bits, g: bits): (s: bits)
    requires |r| == |g| > 0
    ensures |s| == |g|
    decreases |m|
  {
    if m == [] then r else Feed(Shift(XorFront([m[0]], r), g), m[1..], g)
  }

  lemma {:induction false} FeedConcat(r: bits, a: bits, b: bits, g: bits)
    requires |r| == |g| > 0
    ensures Feed(r, a + b, g) == Feed(Feed(r, a, g), b, g)
    decreases |a|
  {
    if a == [] {
      assert a + b == b;
    } else {
      assert (a + b)[1..] == a[1..] + b;
      FeedConcat(Shift(XorFront([a[0]], r), g), a[1..], b, g);
    }
  }

  lemma LoadCommutes(r: bits, m: bits, g: bits)
    requires 0 < |m| <= |r| == |g|
    ensures Shift(XorFront(m, r), g) == XorFront(m[1..], Shift(XorFront([m[0]], r), g))
  {
    var whole, one := XorFront(m, r), XorFront([m[0]], r);
    forall i | 0 <= i < |g|
      ensures Shift(whole, g)[i] == XorFront(m[1..], Shift(one, g))[i]
    {
      ShiftAt(whole, g, i);
      ShiftAt(one, g, i);
      XorFrontAt(m[1..], Shift(one, g), i);
    }
  }

  /** Coefficients fed singly, or loaded together and then shifted through: the same register. */
  lemma {:induction false} FeedLoad(r: bits, m: bits, g: bits)
    requires |m| <= |r| == |g| && |g| > 0
    ensures Feed(r, m, g) == ShiftMany(XorFront(m, r), g, |m|)
    decreases |m|
  {
    if m == [] {
      assert XorFront(m, r) == r;
    } else {
      LoadCommutes(r, m, g);
      FeedLoad(Shift(XorFront([m[0]], r), g), m[1..], g);
    }
  }

  lemma {:induction false} RegisterFeeds(r: bits, data: seq<byte>, g: bits)
    requires |r| == |g| >= 8
    ensures Register(r, data, g) == Feed(r, MessageBits(data), g)
    decreases |data|
  {
    if data != [] {
      var first := ByteBits(data[0]);
      FeedLoad(r, first, g);
      FeedConcat(r, first, MessageBits(data[1..]), g);
      RegisterFeeds(ShiftMany(XorFront(first, r), g, 8), data[1..], g);
    }
  }

  /** A generator with a constant term loses no information in a shift. */
  lemma ShiftInjective(r: bits, s: bits, g: bits)
    requires |r| == |s| == |g| > 0 && g[|g| - 1]
    requires Shift(r, g) == Shift(s, g)
    ensures r == s
  {
    var n := |g|;
    ShiftAt(r, g, n - 1);
    ShiftAt(s, g, n - 1);
    forall i | 0 < i < n ensures r[i] == s[i] {
      ShiftAt(r, g, i - 1);
      ShiftAt(s, g, i - 1);
    }
  }

  lemma {:induction false} ShiftManyInjective(r: bits, s: bits, g: bits, n: nat)
    requires |r| == |s| == |g| > 0 && g[|g| - 1]
    requires ShiftMany(r, g, n) == ShiftMany(s, g, n)
    ensures r == s
    decreases n
  {
    if n > 0 {
      ShiftManyInjective(Shift(r, g), Shift(s, g), g, n - 1);
      ShiftInjective(r, s, g);
    }
  }

  lemma XorFrontInjective(a: bits, b: bits, r: bits, s: bits)
    requires |a| == |b| <= |r| == |s|
    ensures XorFront(a, r) == XorFront(b, r) ==> a == b
    ensures XorFront(a, r) == XorFront(a, s) ==> r == s
  {
    if XorFront(a, r) == XorFront(b, r) {
      forall i | 0 <= i < |a| ensures a[i] == b[i] {
        XorFrontAt(a, r, i);
        XorFrontAt(b, r, i);
      }
    }
    if XorFront(a, r) == XorFront(a, s) {
      forall i | 0 <= i < |r| ensures r[i] == s[i] {
        XorFrontAt(a, r, i);
        XorFrontAt(a, s, i);
      }
    }
  }

  lemma {:induction false} FeedInjective(r: bits, s: bits, m: bits, g: bits)
    requires |r| == |s| == |g| > 0 && g[|g| - 1]
    requires Feed(r, m, g) == Feed(s, m, g)
    ensures r == s
    decreases |m|
  {
    if m != [] {
      var r', s' := XorFront([m[0]], r), XorFront([m[0]], s);
      FeedInjective(Shift(r', g), Shift(s', g), m[1..], g);
      ShiftInjective(r', s', g);
      XorFrontInjective([m[0]], [m[0]], r, s);
    }
  }

  /** Equal-length messages that differ only inside one window as wide as the generator. */
  predicate Burst(x: bits, y: bits, at: nat, width: nat) {
    && |x| == |y|
    && at + width <= |x|
    && x[..at] == y[..at]
    && x[at + width..] == y[at + width..]
  }

  lemma BurstDetected(r: bits, x: bits, y: bits, at: nat, width: nat, g: bits)
    requires |r| == |g| > 0 && g[|g| - 1]
    requires Burst(x, y, at, width) && width <= |g| && x != y
    ensures Feed(r, x, g) != Feed(r, y, g)
  {
    if Feed(r, x, g) == Feed(r, y, g) {
      BurstUndone(r, x, y, at, width, g);
    }
  }

  /** Inputs that differ at most within the register's length and leave it equal are equal. */
  lemma BurstUndone(r: bits, x: bits, y: bits, at: nat, width: nat, g: bits)
    requires |r| == |g| > 0 && g[|g| - 1]
    requires Burst(x, y, at, width) && width <= |g| && Feed(r, x, g) == Feed(r, y, g)
    ensures x == y
  {
    var pre, a, post := Cut(x, at, width);
    var pre', b, post' := Cut(y, at, width);
    SameThroughWindow(r, pre, a, b, post, g);
    WindowLoads(Feed(r, pre, g), a, b, g);
  }

  lemma Cut(x: bits, at: nat, width: nat) returns (pre: bits, window: bits, post: bits)
    requires at + width <= |x|
    ensures pre == x[..at] && post == x[at + width..] && |window| == width
    ensures x == pre + (window + post)
  {
    pre, window, post := x[..at], x[at..at + width], x[at + width..];
  }

  lemma SameThroughWindow(r: bits, pre: bits, a: bits, b: bits, post: bits, g: bits)
    requires |r| == |g| > 0 && g[|g| - 1]
    requires Feed(r, pre + (a + post), g) == Feed(r, pre + (b + post), g)
    ensures Feed(Feed(r, pre, g), a, g) == Feed(Feed(r, pre, g), b, g)
  {
    var s := Feed(r, pre, g);
    FeedConcat(r, pre, a + post, g);
    FeedConcat(r, pre, b + post, g);
    FeedConcat(s, a, post, g);
    FeedConcat(s, b, post, g);
    FeedInjective(Feed(s, a, g), Feed(s, b, g), post, g);
  }

  /** At most a register's length of input is recovered from the register it leaves. */
  lemma WindowLoads(s: bits, a: bits, b: bits, g: bits)
    requires |s| == |g| > 0 && g[|g| - 1] && |a| == |b| <= |g|
    requires Feed(s, a, g) == Feed(s, b, g)
    ensures a == b
  {
    FeedLoad(s, a, g);
    FeedLoad(s, b, g);
    ShiftManyInjective(XorFront(a, s), XorFront(b, s), g, |a|);
    XorFrontInjective(a, b, s, s);
  }
}
