/** The arguments of a queue, printed into its table row and parsed back (`server/msgqueue.hpp`). */
module QueueArgs {
  import opened Words

  type Args = map<string, string>

  /** The position of the first `=`, or the length when there is none. */
  function FindEquals(s: string): (i: nat)
    ensures i <= |s| && '=' !in s[..i] && (i < |s| ==> s[i] == '=')
  {
    if s == [] || s[0] == '=' then 0
    else
      var i := FindEquals(s[1..]);
      assert s[..1 + i] == [s[0]] + s[1..][..i];
      1 + i
  }

  /** A piece without `=` gives itself as key and as value. */
  function EntryKey(piece: string): string {
    piece[..FindEquals(piece)]
  }

  function EntryValue(piece: string): string {
    var i := FindEquals(piece);
    if i == |piece| then piece else piece[i + 1..]
  }

  function AddEntries(args: Args, pieces: seq<string>): Args
    decreases |pieces|
  {
    if pieces == [] then args else AddEntries(args[EntryKey(pieces[0]) := EntryValue(pieces[0])], pieces[1..])
  }

  /** The arguments after parsing str on top of the given ones. */
  function ParseArgs(args: Args, str: string): Args {
    AddEntries(args, Split(str, '&'))
  }

  /** A piece without `=` is read as a key with itself as value. */
  lemma PlainPieceParses(args: Args, str: string)
    requires '=' !in str && '&' !in str
    ensures ParseArgs(args, str) == args[str := str]
  {
    SplitUndoesJoin([str], '&');
    assert Join([str], '&') == str;
    assert EntryKey(str) == str == EntryValue(str);
    assert AddEntries(args[str := str], [str][1..]) == args[str := str];
  }

  function PrintEntry(key: string, value: string): string {
    key + "=" + value
  }

  /** The entries in the given order, each followed by `&`. */
  function PrintArgs(args: Args, order: seq<string>): string
    requires forall k :: k in order ==> k in args
  {
    if order == [] then "" else PrintEntry(order[0], args[order[0]]) + "&" + PrintArgs(args, order[1..])
  }

  ghost predicate Enumerates(order: seq<string>, args: Args) {
    && (forall k :: k in order <==> k in args)
    && (forall i, j :: 0 <= i < j < |order| ==> order[i] != order[j])
  }

  class MsgQueue {
    var args: Args

    constructor ()
      ensures args == map[]
    {
      args := map[];
    }

    method SetArgs(str: string)
      modifies this
      ensures args == ParseArgs(old(args), str)
    {
      var pieces := Split(str, '&');
      for i := 0 to |pieces|
        invariant AddEntries(args, pieces[i..]) == ParseArgs(old(args), str)
      {
        var piece := pieces[i];
        assert pieces[i..][1..] == pieces[i + 1..];
        args := args[EntryKey(piece) := EntryValue(piece)];
      }
    }

    /** The map is walked in an order of its own choosing. */
    method GetArgs() returns (result: string)
      ensures exists order :: Enumerates(order, args) && result == PrintArgs(args, order)
    {
      result := "";
      ghost var order: seq<string> := [];
      var left := args.Keys;
      while left != {}
        invariant left <= args.Keys
        invariant forall k :: k in order <==> k in args && k !in left
        invariant forall i, j :: 0 <= i < j < |order| ==> order[i] != order[j]
        invariant result == PrintArgs(args, order)
      {
        var k :| k in left;
        PrintOneMore(args, order, k);
        result := result + k + "=" + args[k] + "&";
        order := order + [k];
        left := left - {k};
      }
      assert Enumerates(order, args);
    }
  }

  lemma {:induction false} PrintOneMore(args: Args, order: seq<string>, k: string)
    requires (forall l :: l in order ==> l in args) && k in args
    ensures PrintArgs(args, order + [k]) == PrintArgs(args, order) + k + "=" + args[k] + "&"
  {
    if order != [] {
      assert (order + [k])[1..] == order[1..] + [k];
      PrintOneMore(args, order[1..], k);
    } else {
      assert PrintArgs(args, []) == "";
      assert ([k])[1..] == [];
    }
  }

  function Pieces(args: Args, order: seq<string>): (ps: seq<string>)
    requires forall k :: k in order ==> k in args
    ensures |ps| == |order|
  {
    if order == [] then [] else [PrintEntry(order[0], args[order[0]])] + Pieces(args, order[1..])
  }

  /** What printing and parsing can keep apart. */
  predicate Clean(args: Args) {
    forall k :: k in args ==> '=' !in k && '&' !in k && '&' !in args[k]
  }

  lemma {:induction false} PrintIsJoin(args: Args, order: seq<string>)
    requires forall k :: k in order ==> k in args
    ensures PrintArgs(args, order) == Join(Pieces(args, order) + [""], '&')
  {
    if order != [] {
      PrintIsJoin(args, order[1..]);
      var ps := Pieces(args, order) + [""];
      assert ps[1..] == Pieces(args, order[1..]) + [""];
    }
  }

  lemma {:induction false} PiecesAreClean(args: Args, order: seq<string>)
    requires (forall k :: k in order ==> k in args) && Clean(args)
    ensures forall p :: p in Pieces(args, order) ==> '&' !in p
  {
    if order != [] {
      PiecesAreClean(args, order[1..]);
      assert order[0] in order;
    }
  }

  lemma {:induction false} FirstEqualsIs(s: string, i: nat)
    requires i < |s| && s[i] == '=' && '=' !in s[..i]
    ensures FindEquals(s) == i
  {
    if i > 0 {
      assert s[0] == s[..i][0] && s[1..][..i - 1] == s[..i][1..];
      FirstEqualsIs(s[1..], i - 1);
    }
  }

  lemma EntryParses(key: string, value: string)
    requires '=' !in key
    ensures EntryKey(PrintEntry(key, value)) == key && EntryValue(PrintEntry(key, value)) == value
  {
    var piece := PrintEntry(key, value);
    assert piece[..|key|] == key && piece[|key|] == '=' && piece[|key| + 1..] == value;
    FirstEqualsIs(piece, |key|);
  }

  function Select(args: Args, order: seq<string>): Args
    requires forall k :: k in order ==> k in args
  {
    map k | k in order :: args[k]
  }

  lemma {:induction false} AddPieces(args: Args, order: seq<string>, acc: Args)
    requires (forall k :: k in order ==> k in args) && Clean(args)
    ensures AddEntries(acc, Pieces(args, order)) == acc + Select(args, order)
    decreases |order|
  {
    if order == [] {
      assert acc + Select(args, order) == acc;
    } else {
      var k := order[0];
      SelectSplit(args, order, acc);
      EntryParses(k, args[k]);
      AddPieces(args, order[1..], acc[k := args[k]]);
      assert Pieces(args, order)[1..] == Pieces(args, order[1..]);
    }
  }

  lemma SelectSplit(args: Args, order: seq<string>, acc: Args)
    requires order != [] && forall k :: k in order ==> k in args
    ensures order[0] in args && forall k :: k in order[1..] ==> k in args
    ensures acc + Select(args, order) == acc[order[0] := args[order[0]]] + Select(args, order[1..])
  {
    assert order == [order[0]] + order[1..];
  }

  lemma {:induction false} AddEntriesAppend(acc: Args, a: seq<string>, b: seq<string>)
    ensures AddEntries(acc, a + b) == AddEntries(AddEntries(acc, a), b)
    decreases |a|
  {
    if a == [] {
      assert a + b == b;
    } else {
      assert (a + b)[1..] == a[1..] + b;
      AddEntriesAppend(acc[EntryKey(a[0]) := EntryValue(a[0])], a[1..], b);
    }
  }

  /**
   * Whatever the order of printing, parsing the printed arguments into a fresh queue gives them back, plus
   * the entry "" for the empty piece after the last `&`.
   */
  lemma ArgsRoundTrip(args: Args, order: seq<string>)
    requires Enumerates(order, args) && Clean(args)
    ensures ParseArgs(map[], PrintArgs(args, order)) == args["" := ""]
  {
    PrintIsJoin(args, order);
    PiecesAreClean(args, order);
    var ps := Pieces(args, order) + [""];
    SplitUndoesJoin(ps, '&');
    AddEntriesAppend(map[], Pieces(args, order), [""]);
    AddPieces(args, order, map[]);
    assert map[] + Select(args, order) == args;
    assert AddEntries(args, [""]) == args["" := ""];
  }

  lemma {:induction false} ParsedIsClean(acc: Args, pieces: seq<string>)
    requires Clean(acc) && forall p :: p in pieces ==> '&' !in p
    ensures Clean(AddEntries(acc, pieces))
    decreases |pieces|
  {
    if pieces != [] {
      var p := pieces[0];
      assert p in pieces;
      var i := FindEquals(p);
      assert forall c :: c in p[..i] ==> c in p;
      assert i < |p| ==> forall c :: c in p[i + 1..] ==> c in p;
      ParsedIsClean(acc[EntryKey(p) := EntryValue(p)], pieces[1..]);
    }
  }

  /** With no empty key to begin with, the round trip works exactly for clean arguments. */
  lemma ArgsRoundTripIff(args: Args, order: seq<string>)
    requires Enumerates(order, args) && "" !in args
    ensures ParseArgs(map[], PrintArgs(args, order)) == args["" := ""] <==> Clean(args)
  {
    if Clean(args) {
      ArgsRoundTrip(args, order);
    } else {
      var str := PrintArgs(args, order);
      JoinUndoesSplit(str, '&');
      ParsedIsClean(map[], Split(str, '&'));
      var k :| k in args && !('=' !in k && '&' !in k && '&' !in args[k]);
      assert k in args["" := ""] && args["" := ""][k] == args[k];
    }
  }
}
