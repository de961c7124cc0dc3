/** Fixed-width unsigned integers and their little-endian byte strings. */
module Bytes {

  type byte = x: int | 0 <= x < 0x100
  type u16 = x: int | 0 <= x < 0x1_0000
  type u32 = x: int | 0 <= x < 0x1_0000_0000
  type u64 = x: int | 0 <= x < 0x1_0000_0000_0000_0000

  const U32_MAX: int := 0xFFFF_FFFF

  /** 256^n: a shift by n bytes is a division or a multiplication by it. */
  function Pow256(n: nat): (p: int)
    ensures p > 0
  {
    if n == 0 then 1 else 256 * Pow256(n - 1)
  }

  lemma Pow256Values()
    ensures Pow256(2) == 0x1_0000
    ensures Pow256(4) == 0x1_0000_0000
    ensures Pow256(8) == 0x1_0000_0000_0000_0000
  {
    assert Pow256(2) == 256 * Pow256(1);
    assert Pow256(4) == 256 * Pow256(3) && Pow256(3) == 256 * Pow256(2);
    assert Pow256(6) == 256 * Pow256(5) && Pow256(5) == 256 * Pow256(4);
    assert Pow256(8) == 256 * Pow256(7) && Pow256(7) == 256 * Pow256(6);
  }

  /** The n low-order bytes of v, least significant first. */
  function ToLe(v: nat, n: nat): (s: seq<byte>)
    ensures |s| == n
    decreases n
  {
    if n == 0 then [] else [v % 256] + ToLe(v / 256, n - 1)
  }

  /** The number that a little-endian byte string denotes. */
  function FromLe(s: seq<byte>): (v: nat)
  {
    if s == [] then 0 else s[0] + 256 * FromLe(s[1..])
  }

  lemma {:induction false} FromLeBound(s: seq<byte>)
    ensures FromLe(s) < Pow256(|s|)
  {
    if s != [] {
      FromLeBound(s[1..]);
    }
  }

  lemma {:induction false} FromToLe(v: nat, n: nat)
    requires v < Pow256(n)
    ensures FromLe(ToLe(v, n)) == v
    decreases n
  {
    if n > 0 {
      FromToLe(v / 256, n - 1);
      assert ToLe(v, n)[1..] == ToLe(v / 256, n - 1);
    }
  }

  lemma {:induction false} ToFromLe(s: seq<byte>)
    ensures ToLe(FromLe(s), |s|) == s
  {
    if s != [] {
      ToFromLe(s[1..]);
    }
  }

  /** Byte i of the little-endian form is what a shift by 8*i and a mask select. */
  lemma {:induction false} ToLeAt(v: nat, n: nat, i: nat)
    requires i < n
    ensures ToLe(v, n)[i] == v / Pow256(i) % 256
    decreases n
  {
    if i > 0 {
      ToLeAt(v / 256, n - 1, i - 1);
      DivDiv(v, Pow256(i - 1));
    }
  }

  lemma DivDiv(v: nat, p: int)
    requires p > 0
    ensures v / 256 / p == v / (256 * p)
  {
    var q, r := v / 256 / p, v / 256 % p;
    assert v == 256 * (q * p + r) + v % 256;
    assert v == q * (256 * p) + (256 * r + v % 256);
    assert 0 <= 256 * r + v % 256 < 256 * p;
    QuotientUnique(v, 256 * p, q, 256 * r + v % 256);
  }

  lemma QuotientUnique(v: int, d: int, q: int, r: int)
    requires d > 0 && 0 <= r < d && v == q * d + r
    ensures v / d == q && v % d == r
  {
    var q', r' := v / d, v % d;
    assert v == q' * d + r';
    assert (q - q') * d == q * d - q' * d == r' - r;
    if q - q' >= 1 {
      ProductAtLeast(q - q', d);
      assert false;
    } else if q' - q >= 1 {
      ProductAtLeast(q' - q, d);
      assert false;
    }
  }

  lemma ProductAtLeast(k: int, d: int)
    requires k >= 1 && d > 0
    ensures k * d >= d && -k * d <= -d
  {
    assert (k - 1) * d >= 0;
  }

  /** Appending one byte adds its weight: the step of the shift-and-or reading loop. */
  lemma {:induction false} FromLeSnoc(s: seq<byte>, b: byte)
    ensures FromLe(s + [b]) == FromLe(s) + b * Pow256(|s|)
  {
    if s == [] {
      assert s + [b] == [b];
    } else {
      FromLeSnoc(s[1..], b);
      assert (s + [b])[1..] == s[1..] + [b];
      assert b * (256 * Pow256(|s| - 1)) == 256 * (b * Pow256(|s| - 1));
    }
  }
}
