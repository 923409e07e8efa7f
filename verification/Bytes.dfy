/** Bytes and the few sequence facts every byte parser in this project leans on. */
module Bytes {

  type byte = b: int | 0 <= b < 256

  /** Whether the flag whose value is the power of two `mask` is set. */
  predicate HasFlag(flags: byte, mask: nat)
    requires mask > 0
  {
    flags / mask % 2 == 1
  }

  function Min(a: int, b: int): int {
    if a < b then a else b
  }

  function Max(a: int, b: int): int {
    if a < b then b else a
  }

  /** The bytes of an ASCII literal. */
  function Ascii(s: string): (r: seq<byte>)
    ensures |r| == |s|
  {
    seq(|s|, i requires 0 <= i < |s| => s[i] as int % 256)
  }

  /** The first `n` bytes, or all of them. */
  function Take<T>(s: seq<T>, n: nat): seq<T> {
    if |s| <= n then s else s[..n]
  }

  /** All pieces of a cut stream, end to end. */
  function Flatten<T>(pieces: seq<seq<T>>): seq<T> {
    if pieces == [] then [] else pieces[0] + Flatten(pieces[1..])
  }

  lemma Assoc<T>(a: seq<T>, b: seq<T>, c: seq<T>)
    ensures a + b + c == a + (b + c)
  {
  }

  /** A common front changes neither whether one sequence begins another nor whether they are equal. */
  lemma Extends<T>(p: seq<T>, a: seq<T>, b: seq<T>)
    ensures a <= b ==> p + a <= p + b
    ensures p + a == p + b <==> a == b
  {
    assert (p + a)[|p|..] == a && (p + b)[|p|..] == b;
  }

  function Pow2(n: nat): (r: nat)
    ensures r >= 1
  {
    if n == 0 then 1 else 2 * Pow2(n - 1)
  }

  /** What is left of `k * m + r` modulo `m`. */
  lemma RemainderOf(k: nat, m: nat, r: nat)
    requires r < m
    ensures (k * m + r) % m == r
  {
    var x := k * m + r;
    var q, s := x / m, x % m;
    assert x == q * m + s;
    if q < k {
      MulMonotone(q + 1, k, m);
    } else if k < q {
      MulMonotone(k + 1, q, m);
    }
  }

  lemma MulMonotone(a: nat, b: nat, m: nat)
    requires a <= b
    ensures a * m <= b * m
  {
    assert b * m == a * m + (b - a) * m;
  }

  /** The unsigned integer whose bytes, most significant first, are `s`. */
  function BigEndian(s: seq<byte>): nat {
    if s == [] then 0 else 256 * BigEndian(s[..|s| - 1]) + s[|s| - 1]
  }

  /** `n` in `width` bytes, most significant first; the high part is lost when it does not fit. */
  function ToBigEndian(n: nat, width: nat): (r: seq<byte>)
    ensures |r| == width
  {
    if width == 0 then [] else ToBigEndian(n / 256, width - 1) + [n % 256]
  }

  function Pow256(k: nat): (r: nat)
    ensures r > 0
  {
    if k == 0 then 1 else 256 * Pow256(k - 1)
  }

  lemma {:induction false} BigEndianInverts(n: nat, width: nat)
    requires n < Pow256(width)
    ensures BigEndian(ToBigEndian(n, width)) == n
  {
    if width > 0 {
      BigEndianInverts(n / 256, width - 1);
      var r := ToBigEndian(n, width);
      assert r[..|r| - 1] == ToBigEndian(n / 256, width - 1);
    }
  }
}
