/** Octets and the network byte order of Appendix B of RFC 791. */
module Bytes {

  type Byte = b: int | 0 <= b < 256

  const UINT16_LIMIT := 0x1_0000
  const UINT64_LIMIT := 0x1_0000_0000_0000_0000

  /** The `width` low-order octets of `n`, most significant first: htons and htobe64. */
  function BigEndian(n: nat, width: nat): (s: seq<Byte>)
    ensures |s| == width
  {
    if width == 0 then [] else BigEndian(n / 256, width - 1) + [n % 256]
  }

  /** The number written by `s`, most significant octet first: ntohs and be64toh. */
  function FromBigEndian(s: seq<Byte>): nat {
    if s == [] then 0 else FromBigEndian(s[..|s| - 1]) * 256 + s[|s| - 1]
  }

  function Pow256(k: nat): (p: nat)
    ensures p > 0
  {
    if k == 0 then 1 else 256 * Pow256(k - 1)
  }

  lemma QuotientIs(n: nat, d: nat, q: nat, r: nat)
    requires r < d && n == d * q + r
    ensures n / d == q
  {
    var k := q - n / d;
    assert d * k == n % d - r;
    assert k >= 1 ==> d * k >= d;
    assert k <= -1 ==> d * k + d <= 0;
  }

  lemma DivideTwice(n: nat, p: nat)
    requires p > 0
    ensures n / 256 / p == n / (256 * p)
  {
    var q, r := n / 256, n % 256;
    var a, b := q / p, q % p;
    assert n == 256 * (p * a + b) + r == (256 * p) * a + (256 * b + r);
    assert 256 * b + r < 256 * p;
    QuotientIs(n, 256 * p, a, 256 * b + r);
  }

  /** Network order: octet `i` has the weight of the octets after it. */
  lemma {:induction false} OctetAt(n: nat, width: nat, i: nat)
    requires i < width
    ensures BigEndian(n, width)[i] == n / Pow256(width - 1 - i) % 256
  {
    if i == width - 1 {
    } else {
      OctetAt(n / 256, width - 1, i);
      DivideTwice(n, Pow256(width - 2 - i));
    }
  }

  lemma {:induction false} ZeroOctets(width: nat)
    ensures forall i: nat | i < width :: BigEndian(0, width)[i] == 0
  {
    if width == 0 {
    } else {
      ZeroOctets(width - 1);
    }
  }

  lemma DecodeLast(high: seq<Byte>, d: Byte)
    ensures FromBigEndian(high + [d]) == FromBigEndian(high) * 256 + d
  {
    var s := high + [d];
    assert s[..|s| - 1] == high;
  }

  lemma Split(n: nat, p: nat) returns (q: nat, d: Byte)
    requires n < 256 * p
    ensures q == n / 256 < p && d == n % 256 && n == q * 256 + d
  {
    q, d := n / 256, n % 256;
  }

  lemma {:induction false} DecodeEncode(n: nat, width: nat)
    requires n < Pow256(width)
    ensures FromBigEndian(BigEndian(n, width)) == n
  {
    if width == 0 {
    } else {
      var q, d := Split(n, Pow256(width - 1));
      DecodeEncode(q, width - 1);
      DecodeLast(BigEndian(q, width - 1), d);
    }
  }

  lemma {:induction false} EncodeDecode(s: seq<Byte>)
    ensures FromBigEndian(s) < Pow256(|s|)
    ensures BigEndian(FromBigEndian(s), |s|) == s
  {
    if s == [] {
    } else {
      var high, d := s[..|s| - 1], s[|s| - 1];
      EncodeDecode(high);
      DecodeLast(high, d);
      assert s == high + [d];
    }
  }

  lemma WordSizes()
    ensures Pow256(2) == UINT16_LIMIT
    ensures Pow256(8) == UINT64_LIMIT
  {
    assert Pow256(4) == 0x1_0000_0000;
    assert Pow256(6) == 256 * 256 * Pow256(4);
  }
}
