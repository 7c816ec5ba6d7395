/**
 * The table of the router against topic matching as section 3.1.3.3 of AMQP 0-9-1 defines it: what the table
 * computes exactly, that it never misses a match, and for which patterns it never matches too much.
 */
module RouterProperties {
  import opened Words
  import opened Router

  /** `*` stands for one word, `#` for zero or more words, any other word for itself. */
  predicate Matches(b: seq<string>, r: seq<string>)
    decreases |b| + |r|
  {
    if b == [] then r == []
    else if b[0] == "#" then Matches(b[1..], r) || (r != [] && Matches(b, r[1..]))
    else r != [] && WordMatches(b[0], r[0]) && Matches(b[1..], r[1..])
  }

  // What the table computes.

  /** The position of the last word of b[..i] other than `#`, or -1. */
  function LastPlain(b: seq<string>, i: nat): (p: int)
    requires i <= |b|
    ensures -1 <= p < i
    ensures p >= 0 ==> b[p] != "#"
    ensures forall k :: p < k < i ==> b[k] == "#"
  {
    if i == 0 then -1 else if b[i - 1] != "#" then i - 1 else LastPlain(b, i - 1)
  }

  /** Some routing word before j matches the binding word w, or is literally `#`. */
  predicate Seen(w: string, r: seq<string>, j: nat)
    requires j <= |r|
  {
    exists q :: 0 <= q < j && (WordMatches(w, r[q]) || r[q] == "#")
  }

  predicate CellMeaning(b: seq<string>, r: seq<string>, i: nat, j: nat)
    requires 1 <= i <= |b| && 1 <= j <= |r|
  {
    var p := LastPlain(b, i);
    if p < 0 then true
    else if p == i - 1 then WordMatches(b[p], r[j - 1])
    else Seen(b[p], r, j)
  }

  lemma {:induction false} CellIsMeaning(b: seq<string>, r: seq<string>, i: nat, j: nat)
    requires 1 <= i <= |b| && 1 <= j <= |r|
    ensures Cell(b, r, i, j) <==> CellMeaning(b, r, i, j)
    decreases i + j
  {
    var p := LastPlain(b, i);
    if b[i - 1] == "#" && r[j - 1] != "#" {
      if i > 1 {
        CellIsMeaning(b, r, i - 1, j);
        if j > 1 {
          CellIsMeaning(b, r, i - 1, j - 1);
        }
      }
      if j > 1 {
        CellIsMeaning(b, r, i, j - 1);
      }
    }
  }

  predicate TableSaysYes(b: seq<string>, r: seq<string>, p: int)
    requires -1 <= p < |b| && r != []
  {
    || p == -1
    || (p == |b| - 1 && (b[p] == "*" || b[p] == r[|r| - 1]))
    || (0 <= p < |b| - 1 && (b[p] == "*" || b[p] in r || "#" in r))
  }

  /**
   * With k the number of `#` words the pattern ends in, the table says yes exactly when all pattern words are
   * `#`; or k is 0 and the last pattern word is `*` or the last routing word; or 0 < k < n and the last word
   * before the `#`s is `*` or occurs among the routing words, or some routing word is literally `#`.
   */
  lemma TableMeaning(b: seq<string>, r: seq<string>)
    requires b != [] && r != []
    ensures Cell(b, r, |b|, |r|) <==> TableSaysYes(b, r, LastPlain(b, |b|))
  {
    CellIsMeaning(b, r, |b|, |r|);
    var p := LastPlain(b, |b|);
    if 0 <= p && b[p] == "*" {
      assert WordMatches(b[p], r[0]);
    }
  }

  /** What routing says for each type of exchange; a type not known is treated like topic. */
  lemma RoutesMeaning(kind: ExchangeType, routingKey: string, bindingKey: string)
    ensures var b, r := Split(bindingKey, '.'), Split(routingKey, '.');
            Routes(kind, routingKey, bindingKey) <==>
              if kind == Direct then routingKey == bindingKey
              else if kind == Fanout then true
              else TableSaysYes(b, r, LastPlain(b, |b|))
  {
    hide Cell, LastPlain, Split;
    if kind != Direct && kind != Fanout {
      TableMeaning(Split(bindingKey, '.'), Split(routingKey, '.'));
    }
  }

  // It never misses a match.

  lemma {:induction false} MatchUsesWord(b: seq<string>, r: seq<string>, p: nat)
    requires Matches(b, r) && p < |b| && b[p] != "#"
    ensures exists q :: 0 <= q < |r| && WordMatches(b[p], r[q])
    decreases |b| + |r|
  {
    if b[0] != "#" && p == 0 {
      assert WordMatches(b[p], r[0]);
    } else if b[0] == "#" && Matches(b[1..], r) {
      MatchUsesWord(b[1..], r, p - 1);
    } else if b[0] == "#" {
      MatchUsesWord(b, r[1..], p);
      var q :| 0 <= q < |r[1..]| && WordMatches(b[p], r[1..][q]);
      assert WordMatches(b[p], r[q + 1]);
    } else {
      MatchUsesWord(b[1..], r[1..], p - 1);
      var q :| 0 <= q < |r[1..]| && WordMatches(b[p], r[1..][q]);
      assert WordMatches(b[p], r[q + 1]);
    }
  }

  lemma {:induction false} MatchUsesLast(b: seq<string>, r: seq<string>)
    requires Matches(b, r) && b != [] && b[|b| - 1] != "#"
    ensures r != [] && WordMatches(b[|b| - 1], r[|r| - 1])
    decreases |b| + |r|
  {
    if b[0] == "#" && Matches(b[1..], r) {
      MatchUsesLast(b[1..], r);
    } else if b[0] == "#" {
      MatchUsesLast(b, r[1..]);
    } else if |b| > 1 {
      MatchUsesLast(b[1..], r[1..]);
    }
  }

  /** Whenever the standard's relation matches, so does the table. */
  lemma NoFalseNegatives(b: seq<string>, r: seq<string>)
    requires b != [] && r != [] && Matches(b, r)
    ensures Cell(b, r, |b|, |r|)
  {
    var p := LastPlain(b, |b|);
    CellIsMeaning(b, r, |b|, |r|);
    if p == |b| - 1 {
      MatchUsesLast(b, r);
    } else if p >= 0 {
      MatchUsesWord(b, r, p);
    }
  }

  lemma TopicNeverMissesMatch(routingKey: string, bindingKey: string)
    requires Matches(Split(bindingKey, '.'), Split(routingKey, '.'))
    ensures Routes(Topic, routingKey, bindingKey)
  {
    NoFalseNegatives(Split(bindingKey, '.'), Split(routingKey, '.'));
  }

  // Where it matches too much, and where it does not.

  /** A key that reaches a queue bound to another topic: only the last words are compared. */
  lemma FalsePositive()
    ensures Routes(Topic, "a.b", "x.b") && !Matches(Split("x.b", '.'), Split("a.b", '.'))
  {
    SplitUndoesJoin(["a", "b"], '.');
    SplitUndoesJoin(["x", "b"], '.');
    assert Join(["a", "b"], '.') == "a.b" && Join(["x", "b"], '.') == "x.b";
    var b, r := ["x", "b"], ["a", "b"];
    assert Cell(b, r, 2, 2);
    assert !WordMatches(b[0], r[0]);
  }

  function PlainCount(b: seq<string>): nat {
    if b == [] then 0 else (if b[0] == "#" then 0 else 1) + PlainCount(b[1..])
  }

  /** The pattern shapes that the table decides right on every routing key free of `#` words. */
  predicate ExactPattern(b: seq<string>) {
    || PlainCount(b) == 0
    || (PlainCount(b) == 1 && (b[0] == "#" || (b[0] == "*" && |b| >= 2)))
  }

  predicate Agree(b: seq<string>, r: seq<string>) {
    Cell(b, r, |b|, |r|) <==> Matches(b, r)
  }

  lemma {:induction false} PlainCountZero(b: seq<string>)
    ensures PlainCount(b) == 0 <==> AllHashes(b, |b|)
  {
    if b != [] {
      PlainCountZero(b[1..]);
      assert b == [b[0]] + b[1..];
      if AllHashes(b, |b|) {
        assert forall k :: 0 <= k < |b[1..]| ==> b[1..][k] == b[k + 1];
      }
    }
  }

  /** With one plain word, the words before and after it are all `#`. */
  lemma {:induction false} OnePlain(b: seq<string>) returns (p: nat)
    requires PlainCount(b) == 1
    ensures p < |b| && b[p] != "#" && p == LastPlain(b, |b|)
    ensures forall k :: 0 <= k < |b| && k != p ==> b[k] == "#"
  {
    if b[0] != "#" {
      PlainCountZero(b[1..]);
      assert forall k :: 1 <= k < |b| ==> b[k] == b[1..][k - 1];
      p := 0;
    } else {
      var p' := OnePlain(b[1..]);
      p := p' + 1;
      assert forall k :: 1 <= k < |b| ==> b[k] == b[1..][k - 1];
    }
  }

  lemma {:induction false} MatchNeedsWords(b: seq<string>, r: seq<string>)
    requires Matches(b, r)
    ensures |r| >= PlainCount(b)
    decreases |b| + |r|
  {
    if b != [] {
      if b[0] == "#" && Matches(b[1..], r) {
        MatchNeedsWords(b[1..], r);
      } else if b[0] == "#" {
        MatchNeedsWords(b, r[1..]);
      } else {
        MatchNeedsWords(b[1..], r[1..]);
      }
    }
  }

  lemma {:induction false} HashesMatchAnything(b: seq<string>, r: seq<string>)
    requires AllHashes(b, |b|) && (b == [] ==> r == [])
    ensures Matches(b, r)
    decreases |b| + |r|
  {
    if b != [] {
      if r != [] {
        HashesMatchAnything(b, r[1..]);
      } else {
        assert forall k :: 0 <= k < |b[1..]| ==> b[1..][k] == b[k + 1];
        HashesMatchAnything(b[1..], r);
      }
    }
  }

  lemma {:induction false} LeadingHashesMayBeEmpty(b: seq<string>, r: seq<string>, p: nat)
    requires p <= |b| && AllHashes(b, p) && Matches(b[p..], r)
    ensures Matches(b, r)
  {
    if p > 0 {
      assert forall k :: 0 <= k < p - 1 ==> b[1..][k] == b[k + 1];
      assert b[1..][p - 1..] == b[p..];
      LeadingHashesMayBeEmpty(b[1..], r, p - 1);
    } else {
      assert b[0..] == b;
    }
  }

  lemma {:induction false} LeadingHashSkips(b: seq<string>, r: seq<string>, q: nat)
    requires b != [] && b[0] == "#" && q <= |r| && Matches(b, r[q..])
    ensures Matches(b, r)
  {
    if q > 0 {
      assert r[1..][q - 1..] == r[q..];
      LeadingHashSkips(b, r[1..], q - 1);
    } else {
      assert r[0..] == r;
    }
  }

  /** One plain word at p that matches routing word q, with room for the `#`s to take the other words. */
  lemma OnePlainMatches(b: seq<string>, r: seq<string>, p: nat, q: nat)
    requires p < |b| && b[p] != "#" && forall k :: 0 <= k < |b| && k != p ==> b[k] == "#"
    requires q < |r| && WordMatches(b[p], r[q])
    requires p == 0 ==> q == 0
    requires p == |b| - 1 ==> q == |r| - 1
    ensures Matches(b, r)
  {
    var after, rest := b[p + 1..], r[q + 1..];
    assert forall k :: 0 <= k < |after| ==> after[k] == b[p + 1 + k];
    HashesMatchAnything(after, rest);
    assert b[p..][1..] == after && r[q..][1..] == rest;
    assert Matches(b[p..], r[q..]);
    LeadingHashesMayBeEmpty(b, r[q..], p);
    if p > 0 {
      LeadingHashSkips(b, r, q);
    } else {
      assert r[0..] == r;
    }
  }

  lemma ExactPatternAgrees(b: seq<string>, r: seq<string>)
    requires b != [] && r != [] && ExactPattern(b) && "#" !in r
    ensures Agree(b, r)
  {
    if Matches(b, r) {
      NoFalseNegatives(b, r);
    } else if PlainCount(b) == 0 {
      PlainCountZero(b);
      HashesMatchAnything(b, r);
    } else if Cell(b, r, |b|, |r|) {
      CellIsMeaning(b, r, |b|, |r|);
      var p := OnePlain(b);
      if p == |b| - 1 {
        OnePlainMatches(b, r, p, |r| - 1);
      } else {
        var q :| 0 <= q < |r| && (WordMatches(b[p], r[q]) || r[q] == "#");
        OnePlainMatches(b, r, p, if p == 0 then 0 else q);
      }
    }
  }

  /** For any other pattern there is a routing key, free of `#` words, that the table wrongly accepts. */
  function Witness(b: seq<string>): seq<string>
    requires b != []
  {
    var p := LastPlain(b, |b|);
    if PlainCount(b) == 1 && b[0] == "*" then ["x", "y"]
    else if PlainCount(b) == 1 && p == 0 then [if b[0] == "x" then "y" else "x", b[0]]
    else if p >= 0 && b[p] != "*" then [b[p]]
    else ["x"]
  }

  lemma InexactPatternDisagrees(b: seq<string>)
    requires b != [] && !ExactPattern(b)
    ensures Witness(b) != [] && "#" !in Witness(b) && !Agree(b, Witness(b))
  {
    var r, n := Witness(b), |b|;
    PlainCountZero(b);
    var p := LastPlain(b, n);
    CellIsMeaning(b, r, n, |r|);
    if PlainCount(b) == 1 {
      var p' := OnePlain(b);
      assert p == p' == 0;
      if b[0] != "*" {
        assert WordMatches(b[0], r[1]);
      } else {
        assert n == 1 && b[1..] == [] && r[1..] == ["y"];
        assert !Matches(b[1..], r[1..]);
      }
    } else {
      if p >= 0 {
        assert WordMatches(b[p], r[0]);
      }
      if Matches(b, r) {
        MatchNeedsWords(b, r);
      }
    }
  }

  /**
   * A pattern is decided as the standard says on every routing key without `#` words exactly when it has no
   * word other than `#`, or just one that is either preceded by a `#`, or is a leading `*` followed by a `#`.
   */
  lemma ExactIffExactPattern(b: seq<string>)
    requires b != []
    ensures (forall r :: r != [] && "#" !in r ==> Agree(b, r)) <==> ExactPattern(b)
  {
    if ExactPattern(b) {
      forall r | r != [] && "#" !in r
        ensures Agree(b, r)
      {
        ExactPatternAgrees(b, r);
      }
    } else {
      InexactPatternDisagrees(b);
    }
  }

  // The same for every routing key whatever: the check on routing keys is never made before routing.

  predicate AlwaysExactPattern(b: seq<string>)
    requires b != []
  {
    var p := LastPlain(b, |b|);
    || PlainCount(b) == 0
    || (PlainCount(b) == 1 && p >= 0
        && if b[p] == "*" then |b| >= 2 else p >= 1 && p == |b| - 1)
  }

  lemma AlwaysExactAgrees(b: seq<string>, r: seq<string>)
    requires b != [] && r != [] && AlwaysExactPattern(b)
    ensures Agree(b, r)
  {
    if Matches(b, r) {
      NoFalseNegatives(b, r);
    } else if PlainCount(b) == 0 {
      PlainCountZero(b);
      HashesMatchAnything(b, r);
    } else if Cell(b, r, |b|, |r|) {
      CellIsMeaning(b, r, |b|, |r|);
      var p := OnePlain(b);
      OnePlainMatches(b, r, p, if p == |b| - 1 then |r| - 1 else 0);
    }
  }

  lemma NotAlwaysExactDisagrees(b: seq<string>)
    requires b != [] && !AlwaysExactPattern(b)
    ensures exists r :: r != [] && !Agree(b, r)
  {
    if !ExactPattern(b) {
      InexactPatternDisagrees(b);
    } else {
      PlainCountZero(b);
      var p := OnePlain(b);
      var r := ["#"];
      CellIsMeaning(b, r, |b|, 1);
      assert r[0] == "#";
      if Matches(b, r) {
        MatchUsesWord(b, r, p);
      }
      assert !Agree(b, r);
    }
  }

  /** The patterns decided as the standard says on every routing key, `#` words included. */
  lemma ExactIffAlwaysExactPattern(b: seq<string>)
    requires b != []
    ensures (forall r :: r != [] ==> Agree(b, r)) <==> AlwaysExactPattern(b)
  {
    if AlwaysExactPattern(b) {
      forall r | r != []
        ensures Agree(b, r)
      {
        AlwaysExactAgrees(b, r);
      }
    } else {
      NotAlwaysExactDisagrees(b);
    }
  }

  // In terms of the keys themselves.

  lemma {:induction false} JoinCharacters(pieces: seq<string>, sep: char)
    requires pieces != []
    ensures forall c :: c in Join(pieces, sep) ==> c == sep || exists w :: w in pieces && c in w
  {
    if |pieces| > 1 {
      JoinCharacters(pieces[1..], sep);
      assert forall w :: w in pieces[1..] ==> w in pieces;
      assert pieces[0] in pieces;
    } else {
      assert pieces[0] in pieces;
    }
  }

  lemma LegalKeyHasNoHash(routingKey: string)
    requires LegalRoutingKey(routingKey)
    ensures "#" !in Split(routingKey, '.')
  {
    SplitCharacters(routingKey, '.');
    var hash := "#";
    assert hash[0] in hash && !IsRoutingChar(hash[0]);
  }

  /** A legal binding word other than a wildcard is made of routing-key characters. */
  lemma PlainWordIsLegal(bindingKey: string, w: string)
    requires LegalBindingKey(bindingKey) && w in Split(bindingKey, '.') && w != "*" && w != "#"
    ensures forall c :: c in w ==> IsRoutingChar(c) && c != '.'
  {
    SplitCharacters(bindingKey, '.');
    JoinUndoesSplit(bindingKey, '.');
    forall c | c in w
      ensures IsRoutingChar(c) && c != '.'
    {
      assert c in bindingKey;
      if |w| == 1 {
        assert w == [c];
      }
    }
  }

  lemma WitnessKey(bindingKey: string) returns (routingKey: string)
    requires LegalBindingKey(bindingKey) && !ExactPattern(Split(bindingKey, '.'))
    ensures LegalRoutingKey(routingKey)
    ensures Routes(Topic, routingKey, bindingKey) != Matches(Split(bindingKey, '.'), Split(routingKey, '.'))
  {
    var b := Split(bindingKey, '.');
    var r := Witness(b);
    InexactPatternDisagrees(b);
    forall w, c | w in r && c in w
      ensures IsRoutingChar(c) && c != '.'
    {
      if w in b {
        PlainCountZero(b);
        PlainWordIsLegal(bindingKey, w);
      }
    }
    assert forall w :: w in r ==> '.' !in w;
    routingKey := Join(r, '.');
    SplitUndoesJoin(r, '.');
    JoinCharacters(r, '.');
  }

  /**
   * A topic binding with a legal key gets exactly the messages the standard says, for every legal routing
   * key, if and only if its pattern is one of the exact shapes.
   */
  lemma LegalBindingIsExactIff(bindingKey: string)
    requires LegalBindingKey(bindingKey)
    ensures (forall routingKey :: LegalRoutingKey(routingKey) ==>
              (Routes(Topic, routingKey, bindingKey) <==> Matches(Split(bindingKey, '.'), Split(routingKey, '.'))))
       <==> ExactPattern(Split(bindingKey, '.'))
  {
    if ExactPattern(Split(bindingKey, '.')) {
      forall routingKey | LegalRoutingKey(routingKey)
        ensures Routes(Topic, routingKey, bindingKey)
           <==> Matches(Split(bindingKey, '.'), Split(routingKey, '.'))
      {
        LegalKeyHasNoHash(routingKey);
        ExactPatternAgrees(Split(bindingKey, '.'), Split(routingKey, '.'));
      }
    } else {
      var routingKey := WitnessKey(bindingKey);
    }
  }
}
