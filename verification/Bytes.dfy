/** Little-endian encodings of unsigned integers. */
module Bytes {
  import opened Memory

  function Pow256(n: nat): (p: nat)
    ensures p > 0
  {
    if n == 0 then 1 else 256 * Pow256(n - 1)
  }

  /** The low `n` bytes of `v`, least significant first. */
  function ToLe(v: nat, n: nat): (bs: seq<byte>)
    ensures |bs| == n
  {
    if n == 0 then [] else [v % 256] + ToLe(v / 256, n - 1)
  }

  function FromLe(bs: seq<byte>): nat {
    if bs == [] then 0 else bs[0] + 256 * FromLe(bs[1..])
  }

  lemma {:induction false} FromToLe(v: nat, n: nat)
    requires v < Pow256(n)
    ensures FromLe(ToLe(v, n)) == v
    decreases n
  {
    if n > 0 {
      FromToLe(v / 256, n - 1);
    }
  }

  lemma {:induction false} ToFromLe(bs: seq<byte>)
    ensures FromLe(bs) < Pow256(|bs|)
    ensures ToLe(FromLe(bs), |bs|) == bs
  {
    if bs != [] {
      ToFromLe(bs[1..]);
      assert FromLe(bs) / 256 == FromLe(bs[1..]) && FromLe(bs) % 256 == bs[0];
    }
  }

  /** Byte `i` is digit `i` to the base 256, the least significant first. */
  lemma {:induction false} FromLeDigit(bs: seq<byte>, i: nat)
    requires i < |bs|
    ensures FromLe(bs) / Pow256(i) % 256 == bs[i]
    decreases i
  {
    var low, rest := bs[0], FromLe(bs[1..]);
    if i > 0 {
      FromLeDigit(bs[1..], i - 1);
      Shifted(low, rest, Pow256(i - 1));
    }
  }

  lemma Shifted(low: byte, rest: nat, p: nat)
    requires p > 0
    ensures (low + 256 * rest) / (256 * p) == rest / p
  {
    var q, r := rest / p, rest % p;
    assert low + 256 * rest == (256 * p) * q + (low + 256 * r);
    Quotient(low + 256 * rest, 256 * p, q, low + 256 * r);
  }

  lemma Quotient(n: nat, d: nat, q: nat, r: nat)
    requires d > 0 && n == d * q + r && r < d
    ensures n / d == q && n % d == r
  {
    var x := n / d - q;
    assert d * x == d * (n / d) - d * q == r - n % d;
    NoMultiple(d, x);
  }

  lemma NoMultiple(d: int, x: int)
    requires -d < d * x < d
    ensures x == 0
  {
    assert x > 0 ==> d * x >= d;
    assert x < 0 ==> d * x <= -d;
  }

  lemma Widths()
    ensures Pow256(2) == 0x1_0000
    ensures Pow256(4) == 0x1_0000_0000
    ensures Pow256(8) == 0x1_0000_0000_0000_0000
  {
  }

  /** A little-endian number of the given width, if the bytes reach that far. */
  function Read(bs: seq<byte>, off: nat, width: nat): Option<nat> {
    if off + width <= |bs| then Some(FromLe(bs[off..off + width])) else None
  }

  function Zeroes(n: nat): (s: seq<byte>)
    ensures |s| == n && forall i :: 0 <= i < n ==> s[i] == 0
  {
    seq(n, i => 0)
  }

  /** Which byte strings are text: the kernel takes valid UTF-8 only. */
  type NameTest = seq<byte> -> bool

  // ---- words as eight bytes ----

  type WordCode = nat -> seq<byte>

  function Le64(): WordCode { w => ToLe(w, 8) }

  /** Words of 64 bits are read back. */
  ghost predicate Reads64(code: WordCode) {
    forall w: nat :: |code(w)| == 8 && (w < U64_LIMIT ==> FromLe(code(w)) == w)
  }

  lemma Le64Reads()
    ensures Reads64(Le64())
  {
    forall w: nat ensures |Le64()(w)| == 8 && (w < U64_LIMIT ==> FromLe(Le64()(w)) == w) { WordRoundTrip(w, 8); }
  }

  lemma WordRoundTrip(w: nat, n: nat)
    requires n == 8
    ensures w < U64_LIMIT ==> FromLe(ToLe(w, n)) == w
  {
    Widths();
    if w < U64_LIMIT {
      FromToLe(w, n);
    }
  }
}
