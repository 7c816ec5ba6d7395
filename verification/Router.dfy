/** Matching a routing key against a binding key (`server/route.hpp`). */
module Router {
  import opened Words

  datatype ExchangeType = UnknownType | Direct | Fanout | Topic

  // Keys.

  predicate IsAlphaNumeric(c: char) {
    'a' <= c <= 'z' || 'A' <= c <= 'Z' || '0' <= c <= '9'
  }

  predicate IsRoutingChar(c: char) {
    IsAlphaNumeric(c) || c == '_' || c == '.'
  }

  predicate IsBindingChar(c: char) {
    IsRoutingChar(c) || c == '*' || c == '#'
  }

  /** Letters, digits, underscores and dots. */
  predicate LegalRoutingKey(key: string) {
    forall c :: c in key ==> IsRoutingChar(c)
  }

  /** Additionally `*` and `#`, each only as a word of its own. */
  predicate LegalBindingKey(key: string) {
    && (forall c :: c in key ==> IsBindingChar(c))
    && (forall w :: w in Split(key, '.') ==> |w| <= 1 || ('*' !in w && '#' !in w))
  }

  method IsLegalRoutingKey(routingKey: string) returns (legal: bool)
    ensures legal <==> LegalRoutingKey(routingKey)
    ensures legal <==> forall c :: c in routingKey ==>
              'a' <= c <= 'z' || 'A' <= c <= 'Z' || '0' <= c <= '9' || c == '_' || c == '.'
  {
    for i := 0 to |routingKey|
      invariant forall c :: c in routingKey[..i] ==> IsRoutingChar(c)
    {
      if !IsRoutingChar(routingKey[i]) {
        return false;
      }
    }
    assert routingKey[..|routingKey|] == routingKey;
    return true;
  }

  /** The last loop looks for words that the loop before it has already refused: it never finds one. */
  method IsLegalBindingKey(bindingKey: string) returns (legal: bool)
    ensures legal <==> LegalBindingKey(bindingKey)
    ensures legal <==>
      && (forall c :: c in bindingKey ==>
            'a' <= c <= 'z' || 'A' <= c <= 'Z' || '0' <= c <= '9' || c in "_.*#")
      && (forall w :: w in Split(bindingKey, '.') && ('*' in w || '#' in w) ==> |w| == 1)
  {
    for i := 0 to |bindingKey|
      invariant forall c :: c in bindingKey[..i] ==> IsBindingChar(c)
    {
      if !IsBindingChar(bindingKey[i]) {
        return false;
      }
    }
    assert bindingKey[..|bindingKey|] == bindingKey;
    var sub := Split(bindingKey, '.');
    for i := 0 to |sub|
      invariant forall j :: 0 <= j < i ==> |sub[j]| <= 1 || ('*' !in sub[j] && '#' !in sub[j])
    {
      if |sub[i]| > 1 && ('*' in sub[i] || '#' in sub[i]) {
        return false;
      }
    }
    var invalid := {"*#", "##", "#*"};
    var i := 1;
    while i < |sub|
    {
      if sub[i] in invalid {
        assert false;
      }
      i := i + 1;
    }
    return true;
  }

  // The table.

  predicate AllHashes(b: seq<string>, i: nat)
    requires i <= |b|
  {
    forall k :: 0 <= k < i ==> b[k] == "#"
  }

  /** A binding word against a routing word, as the first test of the inner loop compares them. */
  predicate WordMatches(b: string, r: string) {
    b == r || b == "*"
  }

  /** Cell (i, j) of the table. */
  predicate Cell(b: seq<string>, r: seq<string>, i: nat, j: nat)
    requires i <= |b| && j <= |r|
    decreases i + j
  {
    if i == 0 then j == 0
    else if j == 0 then AllHashes(b, i)
    else if WordMatches(b[i - 1], r[j - 1]) then true
    else if b[i - 1] == "#" then Cell(b, r, i - 1, j) || Cell(b, r, i - 1, j - 1) || Cell(b, r, i, j - 1)
    else false
  }

  predicate Routes(kind: ExchangeType, routingKey: string, bindingKey: string) {
    match kind
    case Direct => routingKey == bindingKey
    case Fanout => true
    case _ => var b, r := Split(bindingKey, '.'), Split(routingKey, '.'); Cell(b, r, |b|, |r|)
  }

  /** Row i of the table agrees with Cell in its first m columns. */
  ghost predicate RowDone(dp: array2<bool>, b: seq<string>, r: seq<string>, i: nat, m: nat)
    requires i < dp.Length0 && m <= dp.Length1 && i <= |b| && m <= |r| + 1
    reads dp
  {
    forall j :: 0 <= j < m ==> dp[i, j] == Cell(b, r, i, j)
  }

  /** The first column: true as long as the pattern starts with `#` words. */
  method FillFirstColumn(dp: array2<bool>, bkeys: seq<string>, rkeys: seq<string>)
    requires dp.Length0 == |bkeys| + 1 && dp.Length1 == |rkeys| + 1
    requires forall i, j :: 0 <= i < dp.Length0 && 0 <= j < dp.Length1 ==> !dp[i, j]
    modifies dp
    ensures forall i :: 0 <= i < dp.Length0 ==> dp[i, 0] == Cell(bkeys, rkeys, i, 0)
    ensures forall i, j :: 0 <= i < dp.Length0 && 0 < j < dp.Length1 ==> !dp[i, j]
  {
    dp[0, 0] := true;
    for i := 1 to |bkeys| + 1
      invariant AllHashes(bkeys, i - 1)
      invariant forall k :: 0 <= k < i ==> dp[k, 0]
      invariant forall k :: i <= k < dp.Length0 ==> !dp[k, 0]
      invariant forall k, j :: 0 <= k < dp.Length0 && 0 < j < dp.Length1 ==> !dp[k, j]
    {
      if bkeys[i - 1] != "#" {
        break;
      }
      dp[i, 0] := true;
    }
  }

  /** One round of the outer loop. */
  method FillRow(dp: array2<bool>, bkeys: seq<string>, rkeys: seq<string>, i: nat)
    requires dp.Length0 == |bkeys| + 1 && dp.Length1 == |rkeys| + 1 && 1 <= i <= |bkeys|
    requires RowDone(dp, bkeys, rkeys, i - 1, |rkeys| + 1) && RowDone(dp, bkeys, rkeys, i, 1)
    requires forall j :: 0 < j <= |rkeys| ==> !dp[i, j]
    modifies dp
    ensures RowDone(dp, bkeys, rkeys, i, |rkeys| + 1)
    ensures forall k, j :: 0 <= k < dp.Length0 && 0 <= j < dp.Length1 && k != i ==> dp[k, j] == old(dp[k, j])
  {
    for j := 1 to |rkeys| + 1
      invariant forall k, l :: 0 <= k < dp.Length0 && 0 <= l < dp.Length1 && k != i ==> dp[k, l] == old(dp[k, l])
      invariant RowDone(dp, bkeys, rkeys, i, j)
      invariant forall l :: j <= l <= |rkeys| ==> !dp[i, l]
    {
      if bkeys[i - 1] == rkeys[j - 1] || bkeys[i - 1] == "*" {
        dp[i, j] := true;
      } else if bkeys[i - 1] == "#" {
        assert dp[i - 1, j] == old(dp[i - 1, j]) && dp[i - 1, j - 1] == old(dp[i - 1, j - 1]);
        dp[i, j] := dp[i - 1, j] || dp[i - 1, j - 1] || dp[i, j - 1];
      }
    }
  }

  method Route(kind: ExchangeType, routingKey: string, bindingKey: string) returns (matched: bool)
    ensures matched == Routes(kind, routingKey, bindingKey)
    ensures kind == Direct ==> (matched <==> routingKey == bindingKey)
    ensures kind == Fanout ==> matched
    ensures kind == UnknownType ==> matched == Routes(Topic, routingKey, bindingKey)
  {
    hide Cell, Split;
    if kind == Direct {
      return routingKey == bindingKey;
    } else if kind == Fanout {
      return true;
    }
    var bkeys, rkeys := Split(bindingKey, '.'), Split(routingKey, '.');
    var n, m := |bkeys|, |rkeys|;
    var dp := new bool[n + 1, m + 1]((i, j) => false);
    FillFirstColumn(dp, bkeys, rkeys);
    FirstRow(bkeys, rkeys);
    for i := 1 to n + 1
      invariant RowDone(dp, bkeys, rkeys, i - 1, m + 1)
      invariant forall k :: i <= k <= n ==> dp[k, 0] == Cell(bkeys, rkeys, k, 0)
      invariant forall k, j :: i <= k <= n && 0 < j <= m ==> !dp[k, j]
    {
      FillRow(dp, bkeys, rkeys, i);
    }
    return dp[n, m];
  }

  lemma FirstRow(b: seq<string>, r: seq<string>)
    ensures forall j :: 0 <= j <= |r| ==> Cell(b, r, 0, j) == (j == 0)
  {
  }
}
