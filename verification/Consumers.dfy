/** The consumers of one queue and the round-robin choice among them (`server/consumer.hpp`). */
module Consumers {
  import opened Arithmetic
  import opened Options

  const UINT64_LIMIT := 0x1_0000_0000_0000_0000

  datatype Consumer = Consumer(tag: string, qname: string, autoAck: bool)

  predicate DistinctTags(cs: seq<Consumer>) {
    forall i, j :: 0 <= i < j < |cs| ==> cs[i].tag != cs[j].tag
  }

  predicate HasTag(cs: seq<Consumer>, tag: string) {
    exists i :: 0 <= i < |cs| && cs[i].tag == tag
  }

  /** The list without its consumer called tag. */
  function WithoutTag(cs: seq<Consumer>, tag: string): seq<Consumer> {
    if cs == [] then [] else if cs[0].tag == tag then cs[1..] else [cs[0]] + WithoutTag(cs[1..], tag)
  }

  /** The counter after one choice; it is 64 bits wide. */
  function Next(rrSeq: nat): nat {
    (rrSeq + 1) % UINT64_LIMIT
  }

  lemma {:induction false} WithoutTagAt(cs: seq<Consumer>, tag: string, i: nat)
    requires i < |cs| && cs[i].tag == tag && forall j :: 0 <= j < i ==> cs[j].tag != tag
    ensures WithoutTag(cs, tag) == cs[..i] + cs[i + 1..]
  {
    if i > 0 {
      assert cs[0].tag != tag;
      WithoutTagAt(cs[1..], tag, i - 1);
      assert cs[1..][..i - 1] == cs[1..i] && cs[1..][i..] == cs[i + 1..];
      assert [cs[0]] + (cs[1..i] + cs[i + 1..]) == cs[..i] + cs[i + 1..];
    }
  }

  lemma {:induction false} WithoutAbsentTag(cs: seq<Consumer>, tag: string)
    requires !HasTag(cs, tag)
    ensures WithoutTag(cs, tag) == cs
  {
    if cs != [] {
      assert cs[0].tag != tag;
      assert !HasTag(cs[1..], tag) by {
        assert forall i :: 0 <= i < |cs[1..]| ==> cs[1..][i] == cs[i + 1];
      }
      WithoutAbsentTag(cs[1..], tag);
      assert cs == [cs[0]] + cs[1..];
    }
  }

  class QueueConsumer {
    var rrSeq: nat
    var consumers: seq<Consumer>

    predicate Valid()
      reads this
    {
      rrSeq < UINT64_LIMIT && DistinctTags(consumers)
    }

    constructor ()
      ensures Valid() && consumers == [] && rrSeq == 0
    {
      rrSeq, consumers := 0, [];
    }

    method Create(tag: string, qname: string, autoAck: bool) returns (r: Option<Consumer>)
      requires Valid()
      modifies `consumers
      ensures Valid()
      ensures r == if HasTag(old(consumers), tag) then None else Some(Consumer(tag, qname, autoAck))
      ensures consumers == if r.Some? then old(consumers) + [r.value] else old(consumers)
    {
      for i := 0 to |consumers|
        invariant forall j :: 0 <= j < i ==> consumers[j].tag != tag
      {
        if tag == consumers[i].tag {
          return None;
        }
      }
      var consumer := Consumer(tag, qname, autoAck);
      consumers := consumers + [consumer];
      return Some(consumer);
    }

    method Remove(tag: string)
      requires Valid()
      modifies `consumers
      ensures Valid() && !HasTag(consumers, tag)
      ensures consumers == WithoutTag(old(consumers), tag)
    {
      for i := 0 to |consumers|
        invariant consumers == old(consumers)
        invariant forall j :: 0 <= j < i ==> consumers[j].tag != tag
      {
        if consumers[i].tag == tag {
          WithoutTagAt(consumers, tag, i);
          consumers := consumers[..i] + consumers[i + 1..];
          return;
        }
      }
      WithoutAbsentTag(consumers, tag);
    }

    method Choose() returns (r: Option<Consumer>)
      requires Valid()
      modifies `rrSeq
      ensures Valid()
      ensures r == if consumers == [] then None else Some(consumers[old(rrSeq) % |consumers|])
      ensures rrSeq == if consumers == [] then old(rrSeq) else Next(old(rrSeq))
    {
      if consumers == [] {
        return None;
      }
      var index := rrSeq % |consumers|;
      rrSeq := Next(rrSeq);
      return Some(consumers[index]);
    }

    method Exists(tag: string) returns (found: bool)
      ensures found <==> HasTag(consumers, tag)
    {
      for i := 0 to |consumers|
        invariant forall j :: 0 <= j < i ==> consumers[j].tag != tag
      {
        if consumers[i].tag == tag {
          return true;
        }
      }
      return false;
    }
  }

  /** A consumer list for each queue that has one; different queues have different list objects. */
  class ConsumerManager {
    var lists: map<string, QueueConsumer>

    ghost predicate Valid()
      reads this, lists.Values
    {
      && (forall q :: q in lists ==> lists[q].Valid())
      && (forall p, q {:trigger lists[p], lists[q]} :: p in lists && q in lists && p != q ==> lists[p] != lists[q])
    }

    /** The consumers of each queue, and the counter of its next choice. */
    ghost function Abs(): map<string, (seq<Consumer>, nat)>
      reads this, lists.Values
    {
      map q | q in lists :: (lists[q].consumers, lists[q].rrSeq)
    }

    constructor ()
      ensures Valid() && lists == map[]
    {
      lists := map[];
    }

    method InitQueueConsumer(q: string)
      requires Valid()
      modifies this
      ensures Valid() && Abs() == if q in old(lists) then old(Abs()) else old(Abs())[q := ([], 0)]
      ensures forall p :: p in lists ==> p in old(lists) || fresh(lists[p])
    {
      if q in lists {
        return;
      }
      var list := new QueueConsumer();
      lists := lists[q := list];
    }

    method DestroyQueueConsumer(q: string)
      requires Valid()
      modifies this
      ensures Valid() && Abs() == old(Abs()) - {q}
    {
      lists := lists - {q};
    }

    method Create(tag: string, q: string, autoAck: bool) returns (r: Option<Consumer>)
      requires Valid()
      modifies lists.Values`consumers
      ensures Valid() && lists == old(lists)
      ensures r.Some? <==> q in lists && !HasTag(old(Abs())[q].0, tag)
      ensures r.Some? ==> r.value == Consumer(tag, q, autoAck)
      ensures Abs() == if r.Some? then old(Abs())[q := (old(Abs())[q].0 + [r.value], old(Abs())[q].1)] else old(Abs())
    {
      if q !in lists {
        return None;
      }
      r := lists[q].Create(tag, q, autoAck);
    }

    method Remove(tag: string, q: string)
      requires Valid()
      modifies lists.Values`consumers
      ensures Valid() && lists == old(lists)
      ensures Abs() == if q in lists then old(Abs())[q := (WithoutTag(old(Abs())[q].0, tag), old(Abs())[q].1)]
                       else old(Abs())
    {
      if q !in lists {
        return;
      }
      lists[q].Remove(tag);
    }

    /** Without a list for the queue the source follows a null pointer. */
    method Choose(q: string) returns (r: Option<Consumer>)
      requires Valid() && q in lists
      modifies lists.Values`rrSeq
      ensures Valid() && lists == old(lists)
      ensures var (cs, seqNum) := old(Abs())[q];
              && r == (if cs == [] then None else Some(cs[seqNum % |cs|]))
              && Abs() == if cs == [] then old(Abs()) else old(Abs())[q := (cs, Next(seqNum))]
    {
      r := lists[q].Choose();
    }

    method Exists(tag: string, q: string) returns (found: bool)
      ensures found <==> q in lists && HasTag(lists[q].consumers, tag)
    {
      if q !in lists {
        return false;
      }
      found := lists[q].Exists(tag);
    }
  }

  // Fairness of successive choices among n consumers.

  /** The counter before choice number k, when it is `start` before choice 0. */
  function Counter(start: nat, k: nat): nat {
    if k == 0 then start else Next(Counter(start, k - 1))
  }

  /** Which consumer choice number k takes. */
  function Choice(start: nat, n: nat, k: nat): nat
    requires n > 0
  {
    Counter(start, k) % n
  }

  /** How many of the first count choices take consumer i. */
  function Times(start: nat, n: nat, count: nat, i: nat): nat
    requires n > 0
  {
    if count == 0 then 0
    else Times(start, n, count - 1, i) + if Choice(start, n, count - 1) == i then 1 else 0
  }

  lemma SuccessorOfMod(x: nat, m: nat)
    requires m > 0
    ensures (x % m + 1) % m == (x + 1) % m
  {
    var q, r := x / m, x % m;
    if r + 1 < m {
      DivisionIs(x + 1, m, q, r + 1);
      DivisionIs(r + 1, m, 0, r + 1);
    } else {
      assert m * (q + 1) == m * q + m;
      DivisionIs(x + 1, m, q + 1, 0);
      DivisionIs(r + 1, m, 1, 0);
    }
  }

  lemma {:induction false} CounterValue(start: nat, k: nat)
    requires start < UINT64_LIMIT
    ensures Counter(start, k) == (start + k) % UINT64_LIMIT
  {
    if k > 0 {
      CounterValue(start, k - 1);
      SuccessorOfMod(start + k - 1, UINT64_LIMIT);
    }
  }

  /** A number more adds one to the count of residue i exactly when it has residue i. */
  lemma OneMore(x: nat, n: nat, i: nat)
    requires i < n
    ensures (x + n - i) / n - (x + n - 1 - i) / n == if x % n == i then 1 else 0
  {
    var q, r := x / n, x % n;
    assert x == n * q + r;
    if r == i {
      assert n * (q + 1) == n * q + n;
      DivisionIs(x + n - i, n, q + 1, 0);
      DivisionIs(x + n - 1 - i, n, q, n - 1);
    } else if r < i {
      DivisionIs(x + n - i, n, q, n + r - i);
      DivisionIs(x + n - 1 - i, n, q, n + r - 1 - i);
    } else {
      assert n * (q + 1) == n * q + n;
      DivisionIs(x + n - i, n, q + 1, r - i);
      DivisionIs(x + n - 1 - i, n, q + 1, r - 1 - i);
    }
  }

  /** The choices go round as if the counter were unbounded. */
  predicate Unbroken(start: nat, n: nat, count: nat)
    requires n > 0
  {
    forall k :: 0 <= k < count ==> Choice(start, n, k) == (start + k) % n
  }

  lemma {:induction false} TimesValue(start: nat, n: nat, count: nat, i: nat)
    requires i < n && Unbroken(start, n, count)
    ensures Times(start, n, count, i) == (start + count + n - 1 - i) / n - (start + n - 1 - i) / n
  {
    if count > 0 {
      TimesValue(start, n, count - 1, i);
      OneMore(start + count - 1, n, i);
      assert Choice(start, n, count - 1) == (start + (count - 1)) % n;
    }
  }

  lemma NoWrapIsUnbroken(start: nat, n: nat, count: nat)
    requires n > 0 && start + count <= UINT64_LIMIT && start < UINT64_LIMIT
    ensures Unbroken(start, n, count)
  {
    forall k | 0 <= k < count
      ensures Choice(start, n, k) == (start + k) % n
    {
      CounterValue(start, k);
      DivisionIs(start + k, UINT64_LIMIT, 0, start + k);
    }
  }

  lemma ModOfMod(x: nat, m: nat, n: nat)
    requires n > 0 && m > 0 && m % n == 0
    ensures x % m % n == x % n
  {
    var q, r, d := x / m, x % m, m / n;
    assert x == m * q + r && m == n * d;
    assert r == n * (r / n) + r % n;
    assert x == n * (d * q + r / n) + r % n by {
      assert n * d * q == n * (d * q);
    }
    DivisionIs(x, n, d * q + r / n, r % n);
  }

  lemma DivisorIsUnbroken(start: nat, n: nat, count: nat)
    requires n > 0 && start < UINT64_LIMIT && UINT64_LIMIT % n == 0
    ensures Unbroken(start, n, count)
  {
    forall k | 0 <= k < count
      ensures Choice(start, n, k) == (start + k) % n
    {
      CounterValue(start, k);
      ModOfMod(start + k, UINT64_LIMIT, n);
    }
  }

  /**
   * Over any run of choices during which the counter does not wrap, every consumer is taken the same number
   * of times, give or take one.
   */
  lemma ChoicesAreFair(start: nat, n: nat, count: nat, i: nat, j: nat)
    requires i < n && j < n && start + count <= UINT64_LIMIT && start < UINT64_LIMIT
    ensures count / n <= Times(start, n, count, i) <= count / n + 1
    ensures -1 <= Times(start, n, count, i) - Times(start, n, count, j) <= 1
  {
    NoWrapIsUnbroken(start, n, count);
    TimesValue(start, n, count, i);
    TimesValue(start, n, count, j);
    SpanCounts(start + n - 1 - i, n, count);
    SpanCounts(start + n - 1 - j, n, count);
  }

  lemma SpanCounts(x: nat, n: nat, count: nat)
    requires n > 0
    ensures count / n <= (x + count) / n - x / n <= count / n + 1
  {
    var q, r, d, e := x / n, x % n, count / n, count % n;
    assert x + count == n * q + r + n * d + e;
    assert n * (q + d) == n * q + n * d;
    if r + e < n {
      DivisionIs(x + count, n, q + d, r + e);
    } else {
      assert n * (q + d + 1) == n * q + n * d + n;
      DivisionIs(x + count, n, q + d + 1, r + e - n);
    }
  }

  lemma {:induction false} TimesAtLeastTwo(start: nat, n: nat, count: nat, i: nat, k: nat, l: nat)
    requires n > 0 && k < l < count && Choice(start, n, k) == i && Choice(start, n, l) == i
    ensures Times(start, n, count, i) >= 2
  {
    if l < count - 1 {
      TimesAtLeastTwo(start, n, count - 1, i, k, l);
    } else {
      TimesAtLeastOne(start, n, count - 1, i, k);
    }
  }

  lemma {:induction false} TimesAtLeastOne(start: nat, n: nat, count: nat, i: nat, k: nat)
    requires n > 0 && k < count && Choice(start, n, k) == i
    ensures Times(start, n, count, i) >= 1
  {
    if k < count - 1 {
      TimesAtLeastOne(start, n, count - 1, i, k);
    }
  }

  /** When the counter wraps inside a round and n does not divide 2^64, some consumer is taken twice. */
  lemma WrapRepeats(start: nat, n: nat) returns (i: nat)
    requires 0 < n <= UINT64_LIMIT && start < UINT64_LIMIT
    requires start + n > UINT64_LIMIT && UINT64_LIMIT % n != 0
    ensures i < n && Times(start, n, n, i) >= 2
  {
    hide Counter, Times;
    var t, c := UINT64_LIMIT - start, UINT64_LIMIT % n;
    var q := UINT64_LIMIT / n;
    assert UINT64_LIMIT == n * q + c;
    i := if c >= t then c - t else 0;
    var k := if c >= t then 0 else t - c;
    CounterValue(start, k);
    assert start + k == n * q + i;
    DivisionIs(start + k, n, q, i);
    DivisionIs(start + k, UINT64_LIMIT, 0, start + k);
    CounterValue(start, t + i);
    DivisionIs(start + t + i, UINT64_LIMIT, 1, i);
    DivisionIs(i, n, 0, i);
    TimesAtLeastTwo(start, n, n, i, k, t + i);
  }

  predicate EachOnce(start: nat, n: nat)
    requires n > 0
  {
    forall i :: 0 <= i < n ==> Times(start, n, n, i) == 1
  }

  lemma UnbrokenRoundTakesEach(start: nat, n: nat, i: nat)
    requires i < n && Unbroken(start, n, n)
    ensures Times(start, n, n, i) == 1
  {
    hide Times, Unbroken;
    TimesValue(start, n, n, i);
    OneRoundMore(start + n - 1 - i, n);
  }

  lemma OneRoundMore(x: nat, n: nat)
    requires n > 0
    ensures (x + n) / n == x / n + 1
  {
    assert n * (x / n + 1) == n * (x / n) + n;
    DivisionIs(x + n, n, x / n + 1, x % n);
  }

  /**
   * n successive choices among n consumers take each of them exactly once, if and only if the counter does
   * not wrap on the way or n divides 2^64.
   */
  lemma EachOnceIff(start: nat, n: nat)
    requires 0 < n <= UINT64_LIMIT && start < UINT64_LIMIT
    ensures EachOnce(start, n) <==> start + n <= UINT64_LIMIT || UINT64_LIMIT % n == 0
  {
    hide Times, Unbroken;
    if start + n <= UINT64_LIMIT || UINT64_LIMIT % n == 0 {
      if start + n <= UINT64_LIMIT {
        NoWrapIsUnbroken(start, n, n);
      } else {
        DivisorIsUnbroken(start, n, n);
      }
      forall i | 0 <= i < n
        ensures Times(start, n, n, i) == 1
      {
        UnbrokenRoundTakesEach(start, n, i);
      }
    } else {
      var i := WrapRepeats(start, n);
    }
  }
}
