/** Fixed-width integers as byte strings, in both byte orders, and the order of byte strings. */
module Bytes {
  import opened Common

  /** 256 to the n. */
  function Span(n: nat): (r: nat)
    ensures r > 0
  {
    if n == 0 then 1 else 256 * Span(n - 1)
  }

  lemma Spans()
    ensures Span(1) == 0x100 && Span(4) == 0x1_0000_0000 && Span(8) == 0x1_0000_0000_0000_0000
  {
    assert Span(2) == 0x1_0000 && Span(3) == 0x100_0000;
    assert Span(5) == 0x100_0000_0000 && Span(6) == 0x1_0000_0000_0000 && Span(7) == 0x100_0000_0000_0000;
  }

  /** Two's complement. */
  function Word(t: int64): uint64 { if t < 0 then t + 0x1_0000_0000_0000_0000 else t }

  function Signed(w: uint64): int64 { if w < 0x8000_0000_0000_0000 then w else w - 0x1_0000_0000_0000_0000 }

  /** The low `n` bytes of a value, lowest first: how the host keeps its integers in memory. */
  function Little(v: nat, n: nat): (r: seq<byte>)
    ensures |r| == n
    decreases n
  {
    if n == 0 then [] else [v % 256] + Little(v / 256, n - 1)
  }

  function FromLittle(b: seq<byte>): nat
  {
    if b == [] then 0 else b[0] + 256 * FromLittle(b[1..])
  }

  lemma {:induction false} LittleRoundTrip(v: nat, n: nat)
    requires v < Span(n)
    ensures FromLittle(Little(v, n)) == v
    decreases n
  {
    if n > 0 {
      LittleRoundTrip(v / 256, n - 1);
      assert Little(v, n)[1..] == Little(v / 256, n - 1);
    }
  }

  lemma {:induction false} LittleBound(b: seq<byte>)
    ensures FromLittle(b) < Span(|b|)
  {
    if b != [] { LittleBound(b[1..]); }
  }

  /** Highest byte first: numbers then sort as byte strings. */
  function Big(v: nat, n: nat): (r: seq<byte>)
    ensures |r| == n
    decreases n
  {
    if n == 0 then [] else Big(v / 256, n - 1) + [v % 256]
  }

  function FromBig(b: seq<byte>): nat
    decreases |b|
  {
    if b == [] then 0 else 256 * FromBig(b[..|b| - 1]) + b[|b| - 1]
  }

  lemma {:induction false} BigRoundTrip(v: nat, n: nat)
    requires v < Span(n)
    ensures FromBig(Big(v, n)) == v
    decreases n
  {
    if n > 0 {
      BigRoundTrip(v / 256, n - 1);
      assert Big(v, n)[..n - 1] == Big(v / 256, n - 1);
    }
  }

  lemma {:induction false} BigBound(b: seq<byte>)
    ensures FromBig(b) < Span(|b|)
    decreases |b|
  {
    if b != [] { BigBound(b[..|b| - 1]); }
  }

  /** The order of `std::string` and of the database: byte by byte, a proper prefix first. */
  predicate Before(a: seq<byte>, b: seq<byte>)
  {
    b != [] && (a == [] || a[0] < b[0] || (a[0] == b[0] && Before(a[1..], b[1..])))
  }

  lemma {:induction false} BeforeIrreflexive(a: seq<byte>)
    ensures !Before(a, a)
  {
    if a != [] { BeforeIrreflexive(a[1..]); }
  }

  lemma {:induction false} BeforeTransitive(a: seq<byte>, b: seq<byte>, c: seq<byte>)
    requires Before(a, b) && Before(b, c)
    ensures Before(a, c)
  {
    if a != [] && a[0] == b[0] == c[0] { BeforeTransitive(a[1..], b[1..], c[1..]); }
  }

  lemma {:induction false} BeforeTotal(a: seq<byte>, b: seq<byte>)
    ensures a == b || Before(a, b) || Before(b, a)
  {
    if a != [] && b != [] && a[0] == b[0] {
      BeforeTotal(a[1..], b[1..]);
      assert a == [a[0]] + a[1..] && b == [b[0]] + b[1..];
    }
  }

  /** A shared prefix does not matter; a difference within the prefix decides. */
  lemma {:induction false} BeforeConcat(a: seq<byte>, x: seq<byte>, b: seq<byte>, y: seq<byte>)
    requires |a| == |b|
    ensures Before(a + x, b + y) <==> Before(a, b) || (a == b && Before(x, y))
    decreases |a|
  {
    if a == [] {
      assert a + x == x && b + y == y;
    } else {
      assert (a + x)[1..] == a[1..] + x && (b + y)[1..] == b[1..] + y;
      assert a == [a[0]] + a[1..] && b == [b[0]] + b[1..];
      BeforeConcat(a[1..], x, b[1..], y);
      if a[0] == b[0] { assert a == b <==> a[1..] == b[1..]; }
    }
  }

  /** A proper prefix sorts first. */
  lemma PrefixIsBefore(a: seq<byte>, b: seq<byte>)
    requires a < b
    ensures Before(a, b)
  {
    assert b == a + b[|a|..] && a + [] == a;
    BeforeConcat(a, [], a, b[|a|..]);
  }

  lemma {:induction false} BigOrder(v: nat, w: nat, n: nat)
    requires v < Span(n) && w < Span(n)
    ensures Before(Big(v, n), Big(w, n)) <==> v < w
    decreases n
  {
    if n > 0 {
      BigOrder(v / 256, w / 256, n - 1);
      BeforeConcat(Big(v / 256, n - 1), [v % 256], Big(w / 256, n - 1), [w % 256]);
      BigRoundTrip(v / 256, n - 1);
      BigRoundTrip(w / 256, n - 1);
    }
  }
}
