/** Generated message ids (`UUIDHelper`): eight random bytes and a process-wide counter, in hexadecimal. */
module Uuid {
  import opened Arithmetic
  import opened Bytes
  import Sequences

  const COUNTER_LIMIT := 0x1_0000_0000_0000_0000
  const DASH: Bytes := [45]

  function HexDigit(n: nat): Byte
    requires n < 16
  {
    if n < 10 then 48 + n else 87 + n
  }

  function HexByte(b: Byte): Bytes {
    [HexDigit(b / 16), HexDigit(b % 16)]
  }

  /** Byte number i of the counter, the least significant being number 0. */
  function CounterByte(num: nat, i: nat): Byte {
    num / Pow256(i) % 256
  }

  /** The first k random bytes, with a dash after bytes 3, 5 and 7. */
  function RandomPart(random: Bytes, k: nat): (s: Bytes)
    requires k <= |random|
    ensures |s| >= 2 * k
  {
    if k == 0 then []
    else RandomPart(random, k - 1) + HexByte(random[k - 1]) + if k == 4 || k == 6 || k == 8 then DASH else []
  }

  /** The k most significant of the eight counter bytes, with a dash after the second. */
  function CounterPart(num: nat, k: nat): (s: Bytes)
    requires k <= 8
    ensures |s| == 2 * k + if k >= 2 then 1 else 0
  {
    if k == 0 then []
    else CounterPart(num, k - 1) + HexByte(CounterByte(num, 8 - k)) + if k == 2 then DASH else []
  }

  function Format(random: Bytes, num: nat): Bytes
    requires |random| == 8
  {
    RandomPart(random, 8) + CounterPart(num, 8)
  }

  /** The counter when the k-th id of a process, counting from 0, is made; it is 64 bits wide. */
  function CounterAt(k: nat): nat {
    (1 + k) % COUNTER_LIMIT
  }

  lemma NothingYet(random: Bytes, num: nat)
    ensures RandomPart(random, 0) == [] && CounterPart(num, 0) == []
  {
  }

  lemma RandomGrows(random: Bytes, i: nat)
    requires i < |random|
    ensures RandomPart(random, i + 1)
         == RandomPart(random, i) + HexByte(random[i]) + if i == 3 || i == 5 || i == 7 then DASH else []
  {
  }

  lemma CounterGrows(before: Bytes, num: nat, i: nat)
    requires i < 8
    ensures before + CounterPart(num, 8 - i)
         == before + CounterPart(num, 7 - i) + HexByte(CounterByte(num, i)) + if i == 6 then DASH else []
  {
    Sequences.AppendAssociative(before, CounterPart(num, 7 - i), HexByte(CounterByte(num, i)));
  }

  /** Two hexadecimal digits, in lower case. */
  function Hex(b: Byte): Bytes {
    var digits := "0123456789abcdef";
    [digits[b / 16] as int, digits[b % 16] as int]
  }

  lemma HexByteIsHex(b: Byte)
    ensures HexByte(b) == Hex(b)
  {
  }

  /** The usual five groups: 8, 4, 4, 4 and 12 digits; the counter, most significant byte first, fills the last two. */
  lemma Layout(r: Bytes, num: nat)
    requires |r| == 8
    ensures var c := BigEndian(num, 8);
            Format(r, num) == Hex(r[0]) + Hex(r[1]) + Hex(r[2]) + Hex(r[3]) + [45]
                              + Hex(r[4]) + Hex(r[5]) + [45] + Hex(r[6]) + Hex(r[7]) + [45]
                              + (Hex(c[0]) + Hex(c[1]) + [45]
                                 + Hex(c[2]) + Hex(c[3]) + Hex(c[4]) + Hex(c[5]) + Hex(c[6]) + Hex(c[7]))
  {
    hide Hex, HexByte, BigEndian, CounterByte;
    RandomLayout(r);
    CounterLayout(num);
  }

  lemma RandomLayout(r: Bytes)
    requires |r| == 8
    ensures RandomPart(r, 8) == Hex(r[0]) + Hex(r[1]) + Hex(r[2]) + Hex(r[3]) + [45]
                                + Hex(r[4]) + Hex(r[5]) + [45] + Hex(r[6]) + Hex(r[7]) + [45]
  {
    hide Hex, HexByte;
    forall i | 0 <= i < 8
      ensures HexByte(r[i]) == Hex(r[i])
    {
      HexByteIsHex(r[i]);
    }
    assert RandomPart(r, 0) == [];
    assert RandomPart(r, 1) == Hex(r[0]);
    assert RandomPart(r, 2) == Hex(r[0]) + Hex(r[1]);
    assert RandomPart(r, 3) == Hex(r[0]) + Hex(r[1]) + Hex(r[2]);
    assert RandomPart(r, 4) == Hex(r[0]) + Hex(r[1]) + Hex(r[2]) + Hex(r[3]) + [45];
    assert RandomPart(r, 5) == RandomPart(r, 4) + Hex(r[4]);
    assert RandomPart(r, 6) == RandomPart(r, 4) + Hex(r[4]) + Hex(r[5]) + [45];
    assert RandomPart(r, 7) == RandomPart(r, 6) + Hex(r[6]);
  }

  lemma CounterLayout(num: nat)
    ensures var c := BigEndian(num, 8);
            CounterPart(num, 8) == Hex(c[0]) + Hex(c[1]) + [45]
                                   + Hex(c[2]) + Hex(c[3]) + Hex(c[4]) + Hex(c[5]) + Hex(c[6]) + Hex(c[7])
  {
    hide Hex, HexByte, BigEndian, CounterByte;
    var c := BigEndian(num, 8);
    forall i: nat | i < 8
      ensures HexByte(CounterByte(num, 7 - i)) == Hex(c[i])
    {
      CounterByteIs(num, i);
      HexByteIsHex(c[i]);
    }
    assert CounterPart(num, 0) == [];
    assert CounterPart(num, 1) == Hex(c[0]);
    assert CounterPart(num, 2) == Hex(c[0]) + Hex(c[1]) + [45];
    assert CounterPart(num, 3) == CounterPart(num, 2) + Hex(c[2]);
    assert CounterPart(num, 4) == CounterPart(num, 3) + Hex(c[3]);
    assert CounterPart(num, 5) == CounterPart(num, 4) + Hex(c[4]);
    assert CounterPart(num, 6) == CounterPart(num, 5) + Hex(c[5]);
    assert CounterPart(num, 7) == CounterPart(num, 6) + Hex(c[6]);
  }

  lemma CounterByteIs(num: nat, i: nat)
    requires i < 8
    ensures CounterByte(num, 7 - i) == BigEndian(num, 8)[i]
  {
    BigEndianAt(num, 8, i);
  }

  class UuidHelper {
    var seqNum: nat
    ghost var made: nat

    ghost predicate Valid()
      reads this
    {
      seqNum == CounterAt(made)
    }

    constructor ()
      ensures Valid() && made == 0
    {
      seqNum, made := 1, 0;
    }

    method Generate(random: Bytes) returns (uuid: Bytes)
      requires Valid() && |random| == 8
      modifies this
      ensures Valid() && made == old(made) + 1
      ensures uuid == Format(random, CounterAt(old(made)))
    {
      hide HexByte, CounterByte, RandomPart, CounterPart;
      NothingYet(random, seqNum);
      uuid := [];
      for i := 0 to 8
        invariant uuid == RandomPart(random, i) && seqNum == old(seqNum) && made == old(made)
      {
        RandomGrows(random, i);
        uuid := uuid + HexByte(random[i]);
        if i == 3 || i == 5 || i == 7 {
          uuid := uuid + DASH;
        }
      }
      var num := seqNum;
      seqNum, made := (seqNum + 1) % COUNTER_LIMIT, made + 1;
      for i := 8 downto 0
        invariant uuid == RandomPart(random, 8) + CounterPart(num, 8 - i)
        invariant Valid() && made == old(made) + 1
      {
        CounterGrows(RandomPart(random, 8), num, i);
        uuid := uuid + HexByte(CounterByte(num, i));
        if i == 6 {
          uuid := uuid + DASH;
        }
      }
    }
  }

  lemma {:induction false} SameCounterBytes(m: nat, n: nat, k: nat)
    requires k <= 8 && CounterPart(m, k) == CounterPart(n, k)
    ensures forall i :: 8 - k <= i < 8 ==> CounterByte(m, i) == CounterByte(n, i)
  {
    hide CounterByte;
    if k > 0 {
      var l := |CounterPart(m, k - 1)|;
      assert CounterPart(m, k)[..l] == CounterPart(m, k - 1) && CounterPart(n, k)[..l] == CounterPart(n, k - 1);
      SameCounterBytes(m, n, k - 1);
      assert CounterPart(m, k)[l] == CounterPart(n, k)[l] && CounterPart(m, k)[l + 1] == CounterPart(n, k)[l + 1];
      SameDigits(CounterByte(m, 8 - k), CounterByte(n, 8 - k));
    }
  }

  lemma SameDigits(a: Byte, b: Byte)
    requires HexByte(a)[0] == HexByte(b)[0] && HexByte(a)[1] == HexByte(b)[1]
    ensures a == b
  {
  }

  /** Base-256 digits up to k, and the rest, make up the number. */
  lemma {:induction false} DigitsDetermine(m: nat, n: nat, k: nat)
    requires forall i :: 0 <= i < k ==> CounterByte(m, i) == CounterByte(n, i)
    ensures m % Pow256(k) == n % Pow256(k)
  {
    if k > 0 {
      DigitsDetermine(m, n, k - 1);
      OneDigitMore(m, k - 1);
      OneDigitMore(n, k - 1);
      assert CounterByte(m, k - 1) == CounterByte(n, k - 1);
    }
  }

  lemma OneDigitMore(n: nat, k: nat)
    ensures n % Pow256(k + 1) == n % Pow256(k) + Pow256(k) * CounterByte(n, k)
  {
    assert Pow256(k + 1) == 256 * Pow256(k);
    WiderRemainder(n, Pow256(k));
  }

  lemma WiderRemainder(n: nat, p: nat)
    requires p > 0
    ensures n % (256 * p) == n % p + p * (n / p % 256)
  {
    var q, r := n / p, n % p;
    var q', d := q / 256, q % 256;
    assert n == p * q + r;
    SplitProduct(p, q, q', d);
    DivisionIs(n, 256 * p, q', p * d + r);
  }

  lemma SplitProduct(p: nat, q: nat, q': nat, d: nat)
    requires q == 256 * q' + d && d < 256
    ensures p * q == 256 * p * q' + p * d && p * d <= 255 * p
  {
    calc {
      p * q;
      p * (256 * q' + d);
      p * (256 * q') + p * d;
      256 * p * q' + p * d;
    }
    assert p * d <= p * 255;
  }

  lemma {:induction false} RandomPartLength(a: Bytes, b: Bytes, k: nat)
    requires k <= |a| && k <= |b|
    ensures |RandomPart(a, k)| == |RandomPart(b, k)|
  {
    if k > 0 {
      RandomPartLength(a, b, k - 1);
    }
  }

  /** Whatever the random bytes, ids made from different counter values differ. */
  lemma DifferentCountersDiffer(a: Bytes, b: Bytes, m: nat, n: nat)
    requires |a| == |b| == 8 && m < COUNTER_LIMIT && n < COUNTER_LIMIT && m != n
    ensures Format(a, m) != Format(b, n)
  {
    hide RandomPart, CounterPart, CounterByte, Pow256;
    if Format(a, m) == Format(b, n) {
      RandomPartLength(a, b, 8);
      var l := |RandomPart(a, 8)|;
      assert Format(a, m)[l..] == CounterPart(m, 8) && Format(b, n)[l..] == CounterPart(n, 8);
      SameCounterBytes(m, n, 8);
      DigitsDetermine(m, n, 8);
      Pow256Eight();
    }
  }

  /** Two ids of one process differ, whatever their random bytes, unless 2^64 ids or more lie between them. */
  lemma GeneratedIdsDiffer(j: nat, k: nat, a: Bytes, b: Bytes)
    requires j < k < j + COUNTER_LIMIT && |a| == |b| == 8
    ensures Format(a, CounterAt(j)) != Format(b, CounterAt(k))
  {
    DifferentCountersDiffer(a, b, CounterAt(j), CounterAt(k));
  }
}
