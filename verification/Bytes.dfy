/** Bytes, fixed-width big-endian integers and the result of reading from a byte string. */
module Bytes {
  type byte = x: int | 0 <= x < 256
  type bytes = seq<byte>

  const TWO16: int := 0x1_0000
  const TWO32: int := 0x1_0000_0000
  const TWO64: int := 0x1_0000_0000_0000_0000

  type uint8 = x: int | 0 <= x < 256
  type uint16 = x: int | 0 <= x < TWO16
  type uint32 = x: int | 0 <= x < TWO32
  type uint64 = x: int | 0 <= x < TWO64
  type int8 = x: int | -0x80 <= x < 0x80
  type int16 = x: int | -0x8000 <= x < 0x8000
  type int32 = x: int | -0x8000_0000 <= x < 0x8000_0000
  type int64 = x: int | -0x8000_0000_0000_0000 <= x < 0x8000_0000_0000_0000

  /** What a reader leaves behind: a value and the bytes after it, or a thrown exception. */
  datatype Parsed<+T> = Ok(value: T, rest: bytes) | Err

  /** A sequence read in pieces: what has been read before goes in front. */
  function Prepend<T>(done: seq<T>, p: Parsed<seq<T>>): Parsed<seq<T>> {
    match p
    case Err => Err
    case Ok(more, rest) => Ok(done + more, rest)
  }

  lemma PrependIff<T>(p: Parsed<seq<T>>, a: seq<T>, b: seq<T>, r: bytes)
    ensures Prepend(a, p) == Ok(a + b, r) <==> p == Ok(b, r)
  {
    if p.Ok? && a + p.value == a + b {
      assert p.value == (a + p.value)[|a|..] == (a + b)[|a|..] == b;
    }
  }

  lemma PrependTwice<T>(a: seq<T>, b: seq<T>, p: Parsed<seq<T>>)
    ensures Prepend(a, Prepend(b, p)) == Prepend(a + b, p)
  {
    if p.Ok? {
      assert a + (b + p.value) == a + b + p.value;
    }
  }

  lemma PrependNothing<T>(p: Parsed<seq<T>>)
    ensures Prepend([], p) == p
  {
    if p.Ok? {
      assert [] + p.value == p.value;
    }
  }

  lemma Regroup<T>(a: seq<T>, b: seq<T>, c: seq<T>)
    ensures a + b + c == a + (b + c)
  {
  }

  function Pow256(k: nat): (p: int)
    ensures p > 0
  {
    if k == 0 then 1 else 256 * Pow256(k - 1)
  }

  lemma Pow256Values()
    ensures Pow256(1) == 256 && Pow256(2) == TWO16 && Pow256(4) == TWO32 && Pow256(8) == TWO64
  {
    assert Pow256(3) == 256 * Pow256(2);
    assert Pow256(5) == 256 * Pow256(4);
    assert Pow256(6) == 256 * Pow256(5);
    assert Pow256(7) == 256 * Pow256(6);
  }

  /** The k low-order bytes of n, most significant first. */
  function BE(n: nat, k: nat): (bs: bytes)
    ensures |bs| == k
  {
    if k == 0 then [] else BE(n / 256, k - 1) + [n % 256]
  }

  function FromBE(bs: bytes): nat {
    if bs == [] then 0 else 256 * FromBE(bs[..|bs| - 1]) + bs[|bs| - 1]
  }

  /** The k low-order bytes of n, least significant first: how the host stores an integer. */
  function LE(n: nat, k: nat): (bs: bytes)
    ensures |bs| == k
  {
    if k == 0 then [] else [n % 256] + LE(n / 256, k - 1)
  }

  function FromLE(bs: bytes): nat {
    if bs == [] then 0 else bs[0] + 256 * FromLE(bs[1..])
  }

  lemma {:induction false} FromBEOfBE(n: nat, k: nat)
    ensures FromBE(BE(n, k)) == n % Pow256(k)
  {
    if k != 0 {
      var q := n / 256;
      FromBEOfBE(q, k - 1);
      assert BE(n, k)[..k - 1] == BE(q, k - 1);
      DigitStep(n, Pow256(k - 1));
    }
  }

  lemma DigitStep(n: nat, p: int)
    requires p > 0
    ensures n % (256 * p) == 256 * (n / 256 % p) + n % 256
  {
    var q, r := n / 256, n % 256;
    var a, b := q / p, q % p;
    assert n == a * (256 * p) + (256 * b + r) by {
      assert q == a * p + b;
      assert 256 * (a * p) == a * (256 * p);
    }
    ModUnique(n, 256 * p, a, 256 * b + r);
  }

  lemma ModUnique(n: int, m: int, a: int, r: int)
    requires m > 0 && 0 <= r < m && n == a * m + r
    ensures n % m == r && n / m == a
  {
    var d := n / m - a;
    assert n == (n / m) * m + n % m;
    assert d * m == r - n % m;
    MulBound(d, m);
  }

  lemma MulBound(d: int, m: int)
    requires m > 0
    ensures d > 0 ==> d * m >= m
    ensures d < 0 ==> d * m <= -m
  {
  }

  lemma {:induction false} BEOfFromBE(bs: bytes)
    ensures BE(FromBE(bs), |bs|) == bs && FromBE(bs) < Pow256(|bs|)
  {
    if bs != [] {
      var init := bs[..|bs| - 1];
      BEOfFromBE(init);
      assert FromBE(bs) / 256 == FromBE(init);
      assert bs == init + [bs[|bs| - 1]];
    }
  }

  /** Reducing to k bytes first changes nothing: a cast to a narrower unsigned type keeps the low-order bytes. */
  lemma BEOfMod(n: nat, k: nat)
    ensures BE(n % Pow256(k), k) == BE(n, k)
  {
    FromBEOfBE(n, k);
    BEOfFromBE(BE(n, k));
  }

  lemma {:induction false} FromLEOfLE(n: nat, k: nat)
    ensures FromLE(LE(n, k)) == n % Pow256(k)
  {
    if k != 0 {
      FromLEOfLE(n / 256, k - 1);
      DigitStep(n, Pow256(k - 1));
      assert LE(n, k)[1..] == LE(n / 256, k - 1);
    }
  }

  lemma {:induction false} LEOfFromLE(bs: bytes)
    ensures LE(FromLE(bs), |bs|) == bs && FromLE(bs) < Pow256(|bs|)
  {
    if bs != [] {
      LEOfFromLE(bs[1..]);
      assert FromLE(bs) / 256 == FromLE(bs[1..]);
      assert bs == [bs[0]] + bs[1..];
    }
  }

  /** Taking k bytes off the front and decoding them as one unsigned integer. */
  function ReadUint(bs: bytes, k: nat): (r: Parsed<nat>)
    ensures r.Ok? ==> r.value < Pow256(k) && |bs| == k + |r.rest|
  {
    if |bs| < k then Err
    else
      BEOfFromBE(bs[..k]);
      Ok(FromBE(bs[..k]), bs[k..])
  }

  /** Reading k bytes succeeds exactly on strings that start with the big-endian bytes of the result. */
  lemma ReadUintIff(bs: bytes, k: nat, n: nat, rest: bytes)
    ensures ReadUint(bs, k) == Ok(n, rest) <==> n < Pow256(k) && bs == BE(n, k) + rest
  {
    if n < Pow256(k) && bs == BE(n, k) + rest {
      FromBEOfBE(n, k);
      assert bs[..k] == BE(n, k) && bs[k..] == rest;
      ModUnique(n, Pow256(k), 0, n);
    }
    if ReadUint(bs, k) == Ok(n, rest) {
      BEOfFromBE(bs[..k]);
      assert bs == bs[..k] + bs[k..];
    }
  }

  /** A C++ cast of a signed integer to the unsigned type of m values, and back. */
  function ToUnsigned(v: int, m: int): (u: nat)
    requires m > 0 && -m <= 2 * v < m
    ensures u < m
  {
    if v < 0 then v + m else v
  }

  function ToSigned(u: nat, m: int): (v: int)
    requires u < m
    ensures -m <= 2 * v < m
  {
    if 2 * u >= m then u - m else u
  }
}
