/**
 The byte encodings behind the digests. Every encoder writes one value in front of what follows it
 (`tail`), so that injectivity of an encoder says: from the bytes, both the value and the rest of
 the stream are determined.
 */
module Encoding {

  const U32_LIMIT: nat := 0x1_0000_0000
  const U64_LIMIT: nat := 0x1_0000_0000_0000_0000

  type U64 = n: nat | n < U64_LIMIT
  type I64 = n: int | -0x8000_0000_0000_0000 <= n < 0x8000_0000_0000_0000
  /** Bytes whose length fits the four length bytes. */
  type Sized = s: seq<int> | |s| < U32_LIMIT

  // ---------------------------------------------------------------- fixed width integers

  function Power(width: nat): (p: nat)
    ensures p >= 1
  {
    if width == 0 then 1 else 256 * Power(width - 1)
  }

  /** Big-endian bytes of `n`. */
  function BigEndian(width: nat, n: nat): (bytes: seq<int>)
    ensures |bytes| == width
  {
    if width == 0 then [] else BigEndian(width - 1, n / 256) + [n % 256]
  }

  lemma {:induction false} BigEndianInjective(width: nat, a: nat, b: nat)
    requires a < Power(width) && b < Power(width) && BigEndian(width, a) == BigEndian(width, b)
    ensures a == b
  {
    if width > 0 {
      var x, y := BigEndian(width - 1, a / 256), BigEndian(width - 1, b / 256);
      assert BigEndian(width, a)[..width - 1] == x && BigEndian(width, b)[..width - 1] == y;
      assert BigEndian(width, a)[width - 1] == a % 256 && BigEndian(width, b)[width - 1] == b % 256;
      BigEndianInjective(width - 1, a / 256, b / 256);
    }
  }

  lemma PowerValues()
    ensures Power(4) == U32_LIMIT && Power(8) == U64_LIMIT
  {
    assert Power(2) == 65_536;
    assert Power(4) == U32_LIMIT;
    assert Power(6) == 0x1_0000_0000_0000;
  }

  lemma Cancel(a: seq<int>, b: seq<int>, x: seq<int>, y: seq<int>)
    requires |a| == |b| && a + x == b + y
    ensures a == b && x == y
  {
    assert a == (a + x)[..|a|] && b == (b + y)[..|b|];
    assert x == (a + x)[|a|..] && y == (b + y)[|b|..];
  }

  function Count(n: nat, tail: seq<int>): seq<int> {
    BigEndian(4, n) + tail
  }

  lemma CountInjective(a: nat, b: nat, x: seq<int>, y: seq<int>)
    requires a < U32_LIMIT && b < U32_LIMIT && Count(a, x) == Count(b, y)
    ensures a == b && x == y
  {
    Cancel(BigEndian(4, a), BigEndian(4, b), x, y);
    PowerValues();
    BigEndianInjective(4, a, b);
  }

  function Word(n: U64, tail: seq<int>): seq<int> {
    BigEndian(8, n) + tail
  }

  lemma WordInjective(a: U64, b: U64, x: seq<int>, y: seq<int>)
    requires Word(a, x) == Word(b, y)
    ensures a == b && x == y
  {
    Cancel(BigEndian(8, a), BigEndian(8, b), x, y);
    PowerValues();
    BigEndianInjective(8, a, b);
  }

  /** Two's complement. */
  function Unsigned(n: I64): U64 {
    if n < 0 then n + U64_LIMIT else n
  }

  function Signed(n: I64, tail: seq<int>): seq<int> {
    Word(Unsigned(n), tail)
  }

  lemma SignedInjective(a: I64, b: I64, x: seq<int>, y: seq<int>)
    requires Signed(a, x) == Signed(b, y)
    ensures a == b && x == y
  {
    WordInjective(Unsigned(a), Unsigned(b), x, y);
  }

  // ---------------------------------------------------------------- length-prefixed bytes

  function Prefixed(s: Sized, tail: seq<int>): seq<int> {
    Count(|s|, s + tail)
  }

  lemma PrefixedInjective(a: Sized, b: Sized, x: seq<int>, y: seq<int>)
    requires Prefixed(a, x) == Prefixed(b, y)
    ensures a == b && x == y
  {
    CountInjective(|a|, |b|, a + x, b + y);
    Cancel(a, b, x, y);
  }

  // ---------------------------------------------------------------- tags and options

  function Tag(n: int, tail: seq<int>): seq<int> {
    [n] + tail
  }

  lemma TagInjective(a: int, b: int, x: seq<int>, y: seq<int>)
    requires Tag(a, x) == Tag(b, y)
    ensures a == b && x == y
  {
    Cancel([a], [b], x, y);
  }

  // ---------------------------------------------------------------- lists

  ghost predicate Injective<T(!new)>(f: (T, seq<int>) -> seq<int>) {
    forall a, b, x, y {:trigger f(a, x), f(b, y)} :: f(a, x) == f(b, y) ==> a == b && x == y
  }

  /** The encoder writes its value and then the tail unchanged. */
  ghost predicate Appends<T(!new)>(f: (T, seq<int>) -> seq<int>) {
    forall a, tail {:trigger f(a, tail)} :: f(a, tail) == f(a, []) + tail
  }

  function Items<T>(f: (T, seq<int>) -> seq<int>, xs: seq<T>, tail: seq<int>): seq<int> {
    if xs == [] then tail else f(xs[0], Items(f, xs[1..], tail))
  }

  function Listed<T>(f: (T, seq<int>) -> seq<int>, xs: seq<T>, tail: seq<int>): seq<int> {
    Count(|xs|, Items(f, xs, tail))
  }

  lemma {:induction false} ItemsInjective<T(!new)>(f: (T, seq<int>) -> seq<int>, xs: seq<T>, ys: seq<T>, x: seq<int>,
      y: seq<int>)
    requires Injective(f) && |xs| == |ys| && Items(f, xs, x) == Items(f, ys, y)
    ensures xs == ys && x == y
  {
    if xs != [] {
      ItemsInjective(f, xs[1..], ys[1..], x, y);
      assert xs == [xs[0]] + xs[1..] && ys == [ys[0]] + ys[1..];
    }
  }

  lemma ListedInjective<T(!new)>(f: (T, seq<int>) -> seq<int>, xs: seq<T>, ys: seq<T>, x: seq<int>, y: seq<int>)
    requires Injective(f) && |xs| < U32_LIMIT && |ys| < U32_LIMIT && Listed(f, xs, x) == Listed(f, ys, y)
    ensures xs == ys && x == y
  {
    CountInjective(|xs|, |ys|, Items(f, xs, x), Items(f, ys, y));
    ItemsInjective(f, xs, ys, x, y);
  }

  lemma PrefixedAppend(s: Sized, t: seq<int>, tail: seq<int>)
    ensures Prefixed(s, t + tail) == Prefixed(s, t) + tail
  {
    var count := BigEndian(4, |s|);
    assert count + (s + (t + tail)) == count + (s + t) + tail;
  }

  lemma WordAppend(n: U64, t: seq<int>, tail: seq<int>)
    ensures Word(n, t + tail) == Word(n, t) + tail
  {
    assert BigEndian(8, n) + (t + tail) == BigEndian(8, n) + t + tail;
  }

  lemma TagAppend(n: int, t: seq<int>, tail: seq<int>)
    ensures Tag(n, t + tail) == Tag(n, t) + tail
  {
    assert [n] + (t + tail) == [n] + t + tail;
  }

  /** Feeds length-prefixed bytes to a running hash; `tail` is whatever will be fed afterwards. */
  method HashBytes(s: Sized, fed: seq<int>, ghost tail: seq<int>) returns (hash: seq<int>)
    ensures hash + tail == fed + Prefixed(s, tail)
  {
    hash := fed + BigEndian(4, |s|);
    hash := hash + s;
    assert hash + tail == fed + (BigEndian(4, |s|) + (s + tail));
  }

  /** Feeds a counted list to a running hash; `tail` is whatever will be fed afterwards. */
  method HashList<T(!new)>(f: (T, seq<int>) -> seq<int>, xs: seq<T>, fed: seq<int>, ghost tail: seq<int>)
    returns (hash: seq<int>)
    requires Appends(f)
    ensures hash + tail == fed + Listed(f, xs, tail)
  {
    hash := fed + BigEndian(4, |xs|);
    ghost var all := Items(f, xs, tail);
    assert hash + all == fed + (BigEndian(4, |xs|) + all);
    for i := 0 to |xs|
      invariant hash + Items(f, xs[i..], tail) == fed + Listed(f, xs, tail)
    {
      ghost var rest := Items(f, xs[i + 1..], tail);
      assert xs[i..][1..] == xs[i + 1..];
      assert f(xs[i], rest) == f(xs[i], []) + rest;
      assert hash + (f(xs[i], []) + rest) == hash + f(xs[i], []) + rest;
      hash := hash + f(xs[i], []);
    }
  }
}
