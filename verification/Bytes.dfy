/** Bytes, machine widths and little-endian numbers: the vocabulary of every codec below. */
module Bytes {

  type byte = b: int | 0 <= b < 0x100

  const UINT32_MAX: nat := 0xFFFF_FFFF
  const TWO_32: nat := 0x1_0000_0000
  const TWO_64: nat := 0x1_0000_0000_0000_0000
  const TWO_128: nat := TWO_64 * TWO_64

  datatype Option<+T> = None | Some(value: T)

  /** The value of a little-endian byte string. */
  function FromLE(s: seq<byte>): nat {
    if s == [] then 0 else s[0] + 0x100 * FromLE(s[1..])
  }

  /** Exactly n little-endian bytes of v; higher bytes are dropped. */
  function FixedLE(v: nat, n: nat): (s: seq<byte>)
    ensures |s| == n
  {
    if n == 0 then [] else [v % 0x100] + FixedLE(v / 0x100, n - 1)
  }

  function Pow256(n: nat): (p: nat)
    ensures p >= 1
  {
    if n == 0 then 1 else 0x100 * Pow256(n - 1)
  }

  /** The bytes of v up to its highest non-zero one, and at least one: what a do-while on v >>= 8 writes. */
  function ShortLE(v: nat): (s: seq<byte>)
    ensures |s| >= 1
  {
    if v < 0x100 then [v] else [v % 0x100] + ShortLE(v / 0x100)
  }

  /** The same, but nothing for zero: what a plain while on v >>= 8 writes. */
  function SparseLE(v: nat): seq<byte> {
    if v == 0 then [] else ShortLE(v)
  }

  lemma {:induction false} FixedLERoundTrip(v: nat, n: nat)
    requires v < Pow256(n)
    ensures FromLE(FixedLE(v, n)) == v
  {
    if n > 0 {
      FixedLERoundTrip(v / 0x100, n - 1);
      assert FixedLE(v, n)[1..] == FixedLE(v / 0x100, n - 1);
    }
  }

  lemma {:induction false} ShortLERoundTrip(v: nat)
    ensures FromLE(ShortLE(v)) == v
  {
    if v < 0x100 {
      assert ShortLE(v)[1..] == [];
    } else {
      ShortLERoundTrip(v / 0x100);
      assert ShortLE(v)[1..] == ShortLE(v / 0x100);
    }
  }

  /** A number that fits in n bytes takes at most n bytes. */
  lemma {:induction false} ShortLELength(v: nat, n: nat)
    requires n >= 1 && v < Pow256(n)
    ensures |ShortLE(v)| <= n
  {
    if v >= 0x100 {
      ShortLELength(v / 0x100, n - 1);
    }
  }

  lemma PowersOf256()
    ensures Pow256(1) == 0x100 && Pow256(4) == TWO_32 && Pow256(8) == TWO_64
  {
    assert Pow256(2) == 0x10000;
    assert Pow256(3) == 0x1000000;
    assert Pow256(5) == 0x100 * TWO_32;
    assert Pow256(6) == 0x10000 * TWO_32;
    assert Pow256(7) == 0x1000000 * TWO_32;
  }

  lemma ShortU32(v: nat)
    requires v < TWO_32
    ensures |ShortLE(v)| <= 4 && FromLE(ShortLE(v)) == v
  {
    PowersOf256();
    ShortLELength(v, 4);
    ShortLERoundTrip(v);
  }

  lemma ShortU64(v: nat)
    requires v < TWO_64
    ensures |ShortLE(v)| <= 8 && FromLE(ShortLE(v)) == v
  {
    PowersOf256();
    ShortLELength(v, 8);
    ShortLERoundTrip(v);
  }

  lemma FixedU32(v: nat)
    requires v < TWO_32
    ensures FromLE(FixedLE(v, 4)) == v
  {
    PowersOf256();
    FixedLERoundTrip(v, 4);
  }

  lemma FixedU64(v: nat)
    requires v < TWO_64
    ensures FromLE(FixedLE(v, 8)) == v
  {
    PowersOf256();
    FixedLERoundTrip(v, 8);
  }
}
