/** The Adler-32 checksum of RFC 1950, sections 2.2 and 8.2. */
module Adler32 {
  import opened Bytes

  // The largest prime below 65536.
  const BASE := 65521

  datatype Sums = Sums(a: nat, b: nat)

  function Update(s: Sums, x: Byte): Sums {
    var a := (s.a + x) % BASE;
    Sums(a, (s.b + a) % BASE)
  }

  /** The two running sums after all the bytes, in order, starting from 1 and 0. */
  function Fold(data: Bytes): Sums {
    if data == [] then Sums(1, 0) else Update(Fold(data[..|data| - 1]), data[|data| - 1])
  }

  function Checksum(data: Bytes): nat {
    Fold(data).b * 0x1_0000 + Fold(data).a
  }

  /** D1 + ... + Dk. */
  function Sum(data: Bytes, k: nat): nat
    requires k <= |data|
  {
    if k == 0 then 0 else Sum(data, k - 1) + data[k - 1]
  }

  /** n*D1 + (n-1)*D2 + ..., the first k terms. */
  function WeightedSum(data: Bytes, k: nat): nat
    requires k <= |data|
  {
    if k == 0 then 0 else WeightedSum(data, k - 1) + (|data| - (k - 1)) * data[k - 1]
  }

  lemma {:induction false} SumOfPrefix(data: Bytes, n: nat, k: nat)
    requires k <= n <= |data|
    ensures Sum(data[..n], k) == Sum(data, k)
  {
    if k > 0 {
      SumOfPrefix(data, n, k - 1);
    }
  }

  /** One byte more adds the sum so far, and the byte, to the weighted sum. */
  lemma {:induction false} WeightedGrows(data: Bytes, k: nat)
    requires k < |data|
    ensures WeightedSum(data, k) == WeightedSum(data[..|data| - 1], k) + Sum(data, k)
  {
    if k > 0 {
      WeightedGrows(data, k - 1);
      var w := |data| - (k - 1);
      assert w * data[k - 1] == (w - 1) * data[k - 1] + data[k - 1];
    }
  }

  lemma ModAdd(x: nat, y: nat)
    ensures (x % BASE + y) % BASE == (x + y) % BASE
  {
    assert x == BASE * (x / BASE) + x % BASE;
  }

  lemma UpdateReduced(a: nat, b: nat, x: Byte)
    ensures Update(Sums(a % BASE, b % BASE), x) == Sums((a + x) % BASE, (b + a + x) % BASE)
  {
    ModAdd(a, x);
    ModAdd(b, (a + x) % BASE);
    ModAdd(a + x, b);
  }

  /** The fold computes the sums of section 8.2. */
  lemma {:induction false} FoldIsClosedForm(data: Bytes)
    ensures var n := |data|;
            Fold(data) == Sums((1 + Sum(data, n)) % BASE, (n + WeightedSum(data, n)) % BASE)
  {
    hide Update;
    if data != [] {
      var n := |data| - 1;
      FoldIsClosedForm(data[..n]);
      SumOfPrefix(data, n, n);
      WeightedGrows(data, n);
      UpdateReduced(1 + Sum(data, n), n + WeightedSum(data[..n], n), data[n]);
    }
  }

  /** Section 8.2 of RFC 1950: B = n*D1 + (n-1)*D2 + ... + Dn + n and A = 1 + D1 + ... + Dn, modulo 65521. */
  lemma ChecksumIsClosedForm(data: Bytes)
    ensures var n := |data|;
            Checksum(data) == (n + WeightedSum(data, n)) % BASE * 0x1_0000 + (1 + Sum(data, n)) % BASE
    ensures Checksum(data) < 0x1_0000_0000
  {
    FoldIsClosedForm(data);
  }

  lemma {:induction false} SumAfterChange(data: Bytes, i: nat, y: Byte, k: nat)
    requires i < |data| && k <= |data|
    ensures Sum(data[i := y], k) == Sum(data, k) + if i < k then y - data[i] else 0
  {
    if k > 0 {
      SumAfterChange(data, i, y, k - 1);
    }
  }

  lemma {:induction false} WeightedAfterChange(data: Bytes, i: nat, y: Byte, k: nat)
    requires i < |data| && k <= |data|
    ensures WeightedSum(data[i := y], k) == WeightedSum(data, k) + if i < k then (|data| - i) * (y - data[i]) else 0
  {
    if k > 0 {
      WeightedAfterChange(data, i, y, k - 1);
      if i == k - 1 {
        var w := |data| - i;
        assert w * y == w * data[i] + w * (y - data[i]);
      }
    }
  }

  lemma SmallShiftChangesResidue(x: int, d: int)
    requires -BASE < d < BASE && d != 0
    ensures x % BASE != (x + d) % BASE
  {
    var q, r := x / BASE, x % BASE;
    assert x + d == BASE * q + (r + d);
  }

  /** Every change of a single byte changes the checksum. */
  lemma OneByteChangesChecksum(data: Bytes, i: nat, y: Byte)
    requires i < |data| && y != data[i]
    ensures Checksum(data[i := y]) != Checksum(data)
  {
    hide WeightedSum, Sum, Checksum;
    var n := |data|;
    ChecksumIsClosedForm(data);
    ChecksumIsClosedForm(data[i := y]);
    SumAfterChange(data, i, y, n);
    SmallShiftChangesResidue(1 + Sum(data, n), y - data[i]);
  }

  lemma NeighbouringWeights(w: int, d: int)
    ensures w * d + (w - 1) * -d == d
  {
  }

  lemma SwapShiftsWeightedSum(data: Bytes, i: nat)
    requires i + 1 < |data|
    ensures WeightedSum(data[i := data[i + 1]][i + 1 := data[i]], |data|)
         == WeightedSum(data, |data|) + data[i + 1] - data[i]
  {
    hide WeightedSum;
    var n, x: int, y: int := |data|, data[i], data[i + 1];
    WeightedAfterChange(data, i, data[i + 1], n);
    WeightedAfterChange(data[i := data[i + 1]], i + 1, data[i], n);
    NeighbouringWeights(n - i, y - x);
    assert x - y == -(y - x);
  }

  lemma PackedDiffer(b: nat, a: nat, b': nat, a': nat)
    requires a < 0x1_0000 && a' < 0x1_0000 && b != b'
    ensures b * 0x1_0000 + a != b' * 0x1_0000 + a'
  {
  }

  /** Every swap of two adjacent, different bytes changes the checksum. */
  lemma SwapChangesChecksum(data: Bytes, i: nat)
    requires i + 1 < |data| && data[i] != data[i + 1]
    ensures Checksum(data[i := data[i + 1]][i + 1 := data[i]]) != Checksum(data)
  {
    hide WeightedSum, Sum, Checksum;
    var n, swapped := |data|, data[i := data[i + 1]][i + 1 := data[i]];
    var x: int, y: int := data[i], data[i + 1];
    ChecksumIsClosedForm(data);
    ChecksumIsClosedForm(swapped);
    SwapShiftsWeightedSum(data, i);
    SmallShiftChangesResidue(n + WeightedSum(data, n), y - x);
    PackedDiffer((n + WeightedSum(data, n)) % BASE, (1 + Sum(data, n)) % BASE,
                 (n + WeightedSum(swapped, n)) % BASE, (1 + Sum(swapped, n)) % BASE);
  }
}
