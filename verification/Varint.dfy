/** The variable-length integer codec used for doc-id-only records and wide field masks. */
module Varint {
  import opened Bytes

  /** The leading bytes, all with the continuation bit: each step stores one less than the remaining value. */
  function Continued(x: nat): (s: seq<byte>)
    ensures |s| >= 1
  {
    if x < 128 then [128 + x] else Continued(x / 128 - 1) + [128 + x % 128]
  }

  function Encode(v: nat): (s: seq<byte>)
    ensures |s| >= 1
  {
    if v < 128 then [v] else Continued(v / 128 - 1) + [v % 128]
  }

  function Wrap(x: nat, modulus: nat): nat
    requires modulus > 0
  {
    if x < modulus then x else x % modulus
  }

  /** The reader's loop: while the last byte had its high bit, add one, shift by seven and take a byte. */
  function Loop(val: nat, more: bool, s: seq<byte>, used: nat, modulus: nat): Option<(nat, nat)>
    requires modulus > 0
    decreases |s|
  {
    if !more then Some((val, used))
    else if s == [] then None
    else Loop(Wrap((val + 1) * 128 + s[0] % 128, modulus), s[0] >= 128, s[1..], used + 1, modulus)
  }

  /** Values wrap at modulus: 2^32 for ids, 2^128 for field masks. */
  function Decode(s: seq<byte>, modulus: nat): Option<(nat, nat)>
    requires modulus > 0
  {
    if s == [] then None else Loop(s[0] % 128, s[0] >= 128, s[1..], 1, modulus)
  }

  lemma SevenBits(x: nat)
    requires x >= 128
    ensures x / 128 >= 1 && (x / 128 - 1 + 1) * 128 + x % 128 == x
    ensures (128 + x % 128) % 128 == x % 128 && (x % 128) % 128 == x % 128
  {
  }

  lemma {:induction false} ContinuedRoundTrip(x: nat, rest: seq<byte>, modulus: nat)
    requires x < modulus
    ensures Decode(Continued(x) + rest, modulus) == Loop(x, true, rest, |Continued(x)|, modulus)
  {
    if x < 128 {
      assert (Continued(x) + rest)[1..] == rest;
    } else {
      SevenBits(x);
      var y: nat, b := x / 128 - 1, 128 + x % 128;
      ContinuedRoundTrip(y, [b] + rest, modulus);
      assert Continued(x) + rest == Continued(y) + ([b] + rest);
      assert ([b] + rest)[1..] == rest;
    }
  }

  lemma RoundTrip(v: nat, rest: seq<byte>, modulus: nat)
    requires v < modulus
    ensures Decode(Encode(v) + rest, modulus) == Some((v, |Encode(v)|))
  {
    if v < 128 {
      assert (Encode(v) + rest)[1..] == rest;
    } else {
      SevenBits(v);
      var y: nat, b := v / 128 - 1, v % 128;
      ContinuedRoundTrip(y, [b] + rest, modulus);
      assert Encode(v) + rest == Continued(y) + ([b] + rest);
      assert ([b] + rest)[1..] == rest;
    }
  }
}
