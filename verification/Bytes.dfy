/** Byte strings and the fixed-width and variable-width integers laid out in them. */
module Bytes {
  import opened Arithmetic

  type Byte = x: int | 0 <= x < 256

  type Bytes = seq<Byte>

  const UINT32_LIMIT := 0x1_0000_0000

  type Uint32 = x: nat | x < UINT32_LIMIT

  /** What storing a wider value in a `uint32` keeps. */
  function ToUint32(n: nat): (r: Uint32)
    ensures n < UINT32_LIMIT <==> r == n
  {
    n % UINT32_LIMIT
  }

  function Pow256(k: nat): (p: nat)
    ensures p > 0
  {
    if k == 0 then 1 else 256 * Pow256(k - 1)
  }

  /** The k low-order bytes of n, least significant first (a `size_t` written by an x86 host). */
  function LittleEndian(n: nat, k: nat): (bs: Bytes)
    ensures |bs| == k
  {
    if k == 0 then [] else [n % 256] + LittleEndian(n / 256, k - 1)
  }

  function FromLittleEndian(bs: Bytes): nat {
    if bs == [] then 0 else bs[0] + 256 * FromLittleEndian(bs[1..])
  }

  lemma {:induction false} LittleEndianRoundTrip(n: nat, k: nat)
    requires n < Pow256(k)
    ensures FromLittleEndian(LittleEndian(n, k)) == n
  {
    if k > 0 {
      assert n / 256 < Pow256(k - 1);
      LittleEndianRoundTrip(n / 256, k - 1);
      assert LittleEndian(n, k)[1..] == LittleEndian(n / 256, k - 1);
    }
  }

  /** Byte i, counting from the least significant, is digit i of n in base 256. */
  lemma {:induction false} LittleEndianAt(n: nat, k: nat, i: nat)
    requires i < k
    ensures LittleEndian(n, k)[i] == n / Pow256(i) % 256
  {
    if i > 0 {
      LittleEndianAt(n / 256, k - 1, i - 1);
      DivideTwice(n, 256, Pow256(i - 1));
    }
  }

  lemma Pow256Eight()
    ensures Pow256(8) == 0x1_0000_0000_0000_0000
  {
    assert Pow256(4) == 0x1_0000_0000;
    assert Pow256(6) == 0x1_0000_0000_0000;
  }

  /** The k low-order bytes of n, most significant first (network order). */
  function BigEndian(n: nat, k: nat): (bs: Bytes)
    ensures |bs| == k
  {
    if k == 0 then [] else BigEndian(n / 256, k - 1) + [n % 256]
  }

  function FromBigEndian(bs: Bytes): (n: nat)
    ensures n < Pow256(|bs|)
  {
    if bs == [] then 0 else FromBigEndian(bs[..|bs| - 1]) * 256 + bs[|bs| - 1]
  }

  lemma {:induction false} BigEndianRoundTrip(n: nat, k: nat)
    requires n < Pow256(k)
    ensures FromBigEndian(BigEndian(n, k)) == n
  {
    if k > 0 {
      assert n / 256 < Pow256(k - 1);
      BigEndianRoundTrip(n / 256, k - 1);
      assert BigEndian(n, k)[..k - 1] == BigEndian(n / 256, k - 1);
    }
  }

  /** Byte i, counting from the most significant, is digit k - 1 - i of n in base 256. */
  lemma {:induction false} BigEndianAt(n: nat, k: nat, i: nat)
    requires i < k
    ensures BigEndian(n, k)[i] == n / Pow256(k - 1 - i) % 256
  {
    if i < k - 1 {
      BigEndianAt(n / 256, k - 1, i);
      DivideTwice(n, 256, Pow256(k - 2 - i));
    }
  }

  /** Four bytes in network order. */
  lemma FourBytes(a: Byte, b: Byte, c: Byte, d: Byte)
    ensures FromBigEndian([a, b, c, d]) == a * 0x100_0000 + b * 0x1_0000 + c * 0x100 + d
  {
    assert [a, b, c, d][..3] == [a, b, c] && [a, b, c][..2] == [a, b] && [a, b][..1] == [a] && [a][..0] == [];
    assert FromBigEndian([a]) == a;
    assert FromBigEndian([a, b]) == a * 256 + b;
    assert FromBigEndian([a, b, c]) == (a * 256 + b) * 256 + c;
  }

  /** Distinct byte strings of one width denote distinct numbers. */
  lemma {:induction false} FromBigEndianInjective(a: Bytes, b: Bytes)
    requires |a| == |b|
    requires FromBigEndian(a) == FromBigEndian(b)
    ensures a == b
  {
    if |a| > 0 {
      var n := |a| - 1;
      assert FromBigEndian(a[..n]) == FromBigEndian(b[..n]) && a[n] == b[n];
      FromBigEndianInjective(a[..n], b[..n]);
      assert a == a[..n] + [a[n]];
      assert b == b[..n] + [b[n]];
    }
  }

  /** Base-128 variable-width integer, least significant group first. */
  function Varint(n: nat): (bs: Bytes)
    ensures |bs| > 0
  {
    if n < 128 then [n] else [128 + n % 128] + Varint(n / 128)
  }

  /** The number that groups of seven bits stand for, least significant first. */
  function Base128(bs: Bytes): nat {
    if bs == [] then 0 else bs[0] % 128 + 128 * Base128(bs[1..])
  }

  /** Seven bits of n a byte, the top bit set on all bytes but the last, and no byte more than needed. */
  lemma {:induction false} VarintIs(n: nat)
    ensures var bs := Varint(n);
            && Base128(bs) == n
            && (forall i :: 0 <= i < |bs| ==> (bs[i] >= 128 <==> i < |bs| - 1))
            && (|bs| > 1 ==> bs[|bs| - 1] != 0)
  {
    if n >= 128 {
      VarintIs(n / 128);
      assert Varint(n)[1..] == Varint(n / 128);
    }
  }

  datatype VarintResult = NoVarint | GotVarint(value: nat, rest: Bytes)

  function ReadVarint(bs: Bytes): (r: VarintResult)
    ensures r.GotVarint? ==> |r.rest| < |bs|
  {
    if bs == [] then NoVarint
    else if bs[0] < 128 then GotVarint(bs[0], bs[1..])
    else
      match ReadVarint(bs[1..])
      case NoVarint => NoVarint
      case GotVarint(v, rest) => GotVarint(bs[0] - 128 + 128 * v, rest)
  }

  lemma {:induction false} VarintRoundTrip(n: nat, rest: Bytes)
    ensures ReadVarint(Varint(n) + rest) == GotVarint(n, rest)
  {
    var bs := Varint(n) + rest;
    if n < 128 {
      assert bs[1..] == rest;
    } else {
      VarintRoundTrip(n / 128, rest);
      assert bs[1..] == Varint(n / 128) + rest;
    }
  }
}
