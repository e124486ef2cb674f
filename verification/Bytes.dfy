/** Octets, fixed-width integers and the primitive parsers.

    A parser is a function from the octets still unread to a value and the
    octets that remain. The stateful readers of the other modules (`Buffer`,
    `StringReader`) are specified by these functions.
 */
module Bytes {
  import opened Results

  type Byte = b: int | 0 <= b < 256

  /** What a parser returns: the value and the octets left over. */
  type Parsed<+T> = Result<(T, seq<Byte>)>

  const U16: nat := 0x1_0000
  const U24: nat := 0x100_0000
  const U32: nat := 0x1_0000_0000
  const U48: nat := 0x1_0000_0000_0000
  const U64: nat := 0x1_0000_0000_0000_0000

  function Pow256(n: nat): (p: nat)
    ensures p > 0
  {
    if n == 0 then 1 else 256 * Pow256(n - 1)
  }

  lemma Pow256Values()
    ensures Pow256(1) == 256 && Pow256(2) == U16 && Pow256(3) == U24
    ensures Pow256(4) == U32 && Pow256(5) == 256 * U32 && Pow256(6) == U48 && Pow256(8) == U64
  {
    assert Pow256(3) == 256 * Pow256(2);
    assert Pow256(5) == 256 * Pow256(4);
    assert Pow256(7) == 256 * Pow256(6);
  }

  function Pow2(n: nat): (p: nat)
    ensures p > 0
  {
    if n == 0 then 1 else 2 * Pow2(n - 1)
  }

  lemma Pow2Of8()
    ensures Pow2(8) == 256
  {
    assert Pow2(4) == 2 * Pow2(3);
    assert Pow2(6) == 2 * Pow2(5);
  }

  /** The `n` low-order octets of `v`, least significant first. */
  function ToLE(v: nat, n: nat): (s: seq<Byte>)
    ensures |s| == n
  {
    if n == 0 then [] else [v % 256] + ToLE(v / 256, n - 1)
  }

  function FromLE(s: seq<Byte>): nat {
    if s == [] then 0 else s[0] + 256 * FromLE(s[1..])
  }

  /** The `n` low-order octets of `v`, most significant first. */
  function ToBE(v: nat, n: nat): (s: seq<Byte>)
    ensures |s| == n
  {
    if n == 0 then [] else ToBE(v / 256, n - 1) + [v % 256]
  }

  function FromBE(s: seq<Byte>): nat {
    if s == [] then 0 else 256 * FromBE(s[..|s| - 1]) + s[|s| - 1]
  }

  lemma {:induction false} LERoundTrip(v: nat, n: nat)
    requires v < Pow256(n)
    ensures FromLE(ToLE(v, n)) == v
  {
    if n > 0 {
      LERoundTrip(v / 256, n - 1);
      assert ToLE(v, n)[1..] == ToLE(v / 256, n - 1);
    }
  }

  /** What is written into too few octets loses its upper part. */
  lemma {:induction false} LETruncates(v: nat, n: nat)
    ensures FromLE(ToLE(v, n)) == v % Pow256(n)
  {
    if n > 0 {
      LETruncates(v / 256, n - 1);
      assert ToLE(v, n)[1..] == ToLE(v / 256, n - 1);
      RemainderTwice(v, Pow256(n - 1));
    }
  }

  lemma RemainderTwice(v: nat, p: nat)
    requires p > 0
    ensures v % 256 + 256 * (v / 256 % p) == v % (256 * p)
  {
    var q := v / 256;
    assert 256 * (p * (q / p)) == (256 * p) * (q / p);
    assert q == p * (q / p) + q % p;
    Remainder(v, 256 * p, q / p, 256 * (q % p) + v % 256);
  }

  lemma Remainder(v: nat, d: nat, q: nat, r: nat)
    requires v == d * q + r && r < d
    ensures v % d == r
  {
    Quotient(v, d, q, r);
  }

  lemma {:induction false} BERoundTrip(v: nat, n: nat)
    requires v < Pow256(n)
    ensures FromBE(ToBE(v, n)) == v
  {
    if n > 0 {
      BERoundTrip(v / 256, n - 1);
      assert ToBE(v, n)[..n - 1] == ToBE(v / 256, n - 1);
    }
  }

  /** Reading and printing again gives the same octets, and the value fits. */
  lemma {:induction false} LEInverse(s: seq<Byte>)
    ensures FromLE(s) < Pow256(|s|)
    ensures ToLE(FromLE(s), |s|) == s
  {
    if s != [] {
      LEInverse(s[1..]);
      assert FromLE(s) / 256 == FromLE(s[1..]);
      assert s == [s[0]] + s[1..];
    }
  }

  lemma {:induction false} BEInverse(s: seq<Byte>)
    ensures FromBE(s) < Pow256(|s|)
    ensures ToBE(FromBE(s), |s|) == s
  {
    if s != [] {
      var init := s[..|s| - 1];
      BEInverse(init);
      assert FromBE(s) / 256 == FromBE(init);
      assert s == init + [s[|s| - 1]];
    }
  }

  lemma DivideTwice(v: nat, b: nat)
    requires b > 0
    ensures v / 256 / b == v / (256 * b)
  {
    var q := v / 256;
    var r := q / b;
    assert v == 256 * (b * r + q % b) + v % 256;
    assert v == 256 * b * r + (256 * (q % b) + v % 256);
    Quotient(v, 256 * b, r, 256 * (q % b) + v % 256);
  }

  lemma Quotient(v: nat, d: nat, q: nat, r: nat)
    requires v == d * q + r && r < d
    ensures v / d == q
  {
    var k := q - v / d;
    assert d * k == d * q - d * (v / d) == v % d - r;
    assert k >= 1 ==> d * k >= d;
    assert k <= -1 ==> d * k + d <= 0;
  }

  /** Octet by octet: least significant first. */
  lemma {:induction false} LEOctet(v: nat, n: nat, i: nat)
    requires i < n
    ensures ToLE(v, n)[i] == v / Pow256(i) % 256
  {
    if i > 0 {
      LEOctet(v / 256, n - 1, i - 1);
      DivideTwice(v, Pow256(i - 1));
    }
  }

  /** Octet by octet: most significant first. */
  lemma {:induction false} BEOctet(v: nat, n: nat, i: nat)
    requires i < n
    ensures ToBE(v, n)[i] == v / Pow256(n - 1 - i) % 256
  {
    if i < n - 1 {
      BEOctet(v / 256, n - 1, i);
      DivideTwice(v, Pow256(n - 2 - i));
    }
  }

  // ----- primitive parsers

  function Take(s: seq<Byte>, n: nat): Parsed<seq<Byte>> {
    if n <= |s| then Ok((s[..n], s[n..])) else Err(NotEnoughData)
  }

  function TakeU8(s: seq<Byte>): Parsed<Byte> {
    if s != [] then Ok((s[0], s[1..])) else Err(NotEnoughData)
  }

  function TakeLE(s: seq<Byte>, n: nat): Parsed<nat> {
    var (octets, rest) :- Take(s, n);
    Ok((FromLE(octets), rest))
  }

  function TakeBE(s: seq<Byte>, n: nat): Parsed<nat> {
    var (octets, rest) :- Take(s, n);
    Ok((FromBE(octets), rest))
  }

  lemma TakeOfConcat(a: seq<Byte>, rest: seq<Byte>)
    ensures Take(a + rest, |a|) == Ok((a, rest))
  {
    assert (a + rest)[..|a|] == a;
    assert (a + rest)[|a|..] == rest;
  }

  lemma TakeLEOfToLE(v: nat, n: nat, rest: seq<Byte>)
    requires v < Pow256(n)
    ensures TakeLE(ToLE(v, n) + rest, n) == Ok((v, rest))
  {
    TakeOfConcat(ToLE(v, n), rest);
    LERoundTrip(v, n);
  }

  lemma TakeBEOfToBE(v: nat, n: nat, rest: seq<Byte>)
    requires v < Pow256(n)
    ensures TakeBE(ToBE(v, n) + rest, n) == Ok((v, rest))
  {
    TakeOfConcat(ToBE(v, n), rest);
    BERoundTrip(v, n);
  }

  /** What a stateful reader did (`result` and the octets `rest` it left) is
      what the parser says: the same value and rest, or the same error. */
  ghost predicate Follows<T>(spec: Parsed<T>, result: Result<T>, rest: seq<Byte>) {
    match spec
    case Ok((v, r)) => result == Ok(v) && rest == r
    case Err(e) => result == Err(e)
  }
}
