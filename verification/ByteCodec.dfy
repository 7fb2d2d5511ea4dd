/** Little-endian numbers in byte sequences. */
module ByteCodec {
  import opened Journal
  import Bits

  function Pow256(n: nat): (p: nat)
    ensures p > 0
  {
    if n == 0 then 1 else 256 * Pow256(n - 1)
  }

  /** The n low-order bytes of x, least significant first. */
  function LeBytes(x: nat, n: nat): (b: seq<byte>)
    ensures |b| == n
  {
    if n == 0 then [] else [x % 256] + LeBytes(x / 256, n - 1)
  }

  function LeValue(b: seq<byte>): nat {
    if b == [] then 0 else b[0] + 256 * LeValue(b[1..])
  }

  lemma {:induction false} LeRoundTrip(x: nat, n: nat)
    ensures LeValue(LeBytes(x, n)) == x % Pow256(n)
  {
    if n > 0 {
      LeRoundTrip(x / 256, n - 1);
      assert LeBytes(x, n)[1..] == LeBytes(x / 256, n - 1);
      SplitRemainder(x, Pow256(n - 1));
    }
  }

  lemma {:induction false} SplitRemainder(x: nat, d: nat)
    requires d > 0
    ensures x % (256 * d) == x % 256 + 256 * (x / 256 % d)
  {
    var q, r := x / 256 / d, x / 256 % d;
    assert x / 256 == d * q + r;
    assert x == 256 * d * q + (x % 256 + 256 * r);
    Bits.QuotientUnique(x, 256 * d, q, x % 256 + 256 * r);
  }

  /** Byte k has weight 256^k: the least significant byte comes first. */
  lemma {:induction false} LeByteAt(x: nat, n: nat, k: nat)
    requires k < n
    ensures LeBytes(x, n)[k] == x / Pow256(k) % 256
  {
    if k > 0 {
      LeByteAt(x / 256, n - 1, k - 1);
      DivideTwice(x, Pow256(k - 1));
    }
  }

  lemma {:induction false} DivideTwice(x: nat, d: nat)
    requires d > 0
    ensures x / (256 * d) == x / 256 / d
  {
    var q, r := x / 256 / d, x / 256 % d;
    assert x / 256 == d * q + r;
    assert x == 256 * d * q + (x % 256 + 256 * r);
    Bits.QuotientUnique(x, 256 * d, q, x % 256 + 256 * r);
  }

  lemma {:induction false} LeValueRoundTrip(b: seq<byte>)
    ensures LeBytes(LeValue(b), |b|) == b
  {
    if b != [] {
      LeValueRoundTrip(b[1..]);
      assert LeValue(b) % 256 == b[0] && LeValue(b) / 256 == LeValue(b[1..]);
    }
  }

  lemma {:induction false} LeValueBound(b: seq<byte>)
    ensures LeValue(b) < Pow256(|b|)
  {
    if b != [] { LeValueBound(b[1..]); }
  }

  function Le64(x: nat): seq<byte> { LeBytes(x, 8) }

  lemma {:induction false} Le64RoundTrip(x: nat)
    requires x < 0x1_0000_0000_0000_0000
    ensures LeValue(Le64(x)) == x
  {
    LeRoundTrip(x, 8);
    assert Pow256(4) == 0x1_0000_0000;
    assert Pow256(8) == 0x1_0000_0000_0000_0000;
  }
}
