/** Splitting a string at a separator (`StrHelper::Split`), keeping empty pieces. */
module Words {

  function Split(s: string, sep: char): (pieces: seq<string>)
    ensures pieces != []
  {
    if s == [] then [""]
    else
      var rest := Split(s[1..], sep);
      if s[0] == sep then [""] + rest else [[s[0]] + rest[0]] + rest[1..]
  }

  function Join(pieces: seq<string>, sep: char): string
    requires pieces != []
  {
    if |pieces| == 1 then pieces[0] else pieces[0] + [sep] + Join(pieces[1..], sep)
  }

  lemma JoinExtendFirst(c: char, pieces: seq<string>, sep: char)
    requires pieces != []
    ensures Join([[c] + pieces[0]] + pieces[1..], sep) == [c] + Join(pieces, sep)
  {
    var longer := [[c] + pieces[0]] + pieces[1..];
    assert longer[1..] == pieces[1..];
  }

  lemma JoinEmptyFirst(pieces: seq<string>, sep: char)
    requires pieces != []
    ensures Join([""] + pieces, sep) == [sep] + Join(pieces, sep)
  {
    assert ([""] + pieces)[1..] == pieces;
  }

  lemma {:induction false} SplitPiecesAreFree(s: string, sep: char)
    ensures forall w :: w in Split(s, sep) ==> sep !in w
  {
    if s != [] {
      SplitPiecesAreFree(s[1..], sep);
    }
  }

  /** Joining the pieces gives the string back, and no piece contains the separator. */
  lemma {:induction false} JoinUndoesSplit(s: string, sep: char)
    ensures Join(Split(s, sep), sep) == s
    ensures forall w :: w in Split(s, sep) ==> sep !in w
  {
    hide Join;
    SplitPiecesAreFree(s, sep);
    if s == [] {
      JoinSingle("", sep);
    } else {
      JoinUndoesSplit(s[1..], sep);
      var rest := Split(s[1..], sep);
      assert s == [s[0]] + s[1..];
      if s[0] == sep {
        JoinEmptyFirst(rest, sep);
      } else {
        JoinExtendFirst(s[0], rest, sep);
      }
    }
  }

  lemma JoinSingle(w: string, sep: char)
    ensures Join([w], sep) == w
  {
  }

  /** Splitting a joined list of separator-free pieces gives exactly those pieces. */
  lemma {:induction false} SplitUndoesJoin(pieces: seq<string>, sep: char)
    requires pieces != [] && forall w :: w in pieces ==> sep !in w
    ensures Split(Join(pieces, sep), sep) == pieces
    decreases |pieces|, |pieces[0]|
  {
    var s, w := Join(pieces, sep), pieces[0];
    assert pieces == [w] + pieces[1..];
    if w == [] {
      if |pieces| > 1 {
        SplitUndoesJoin(pieces[1..], sep);
        assert s[1..] == Join(pieces[1..], sep);
      }
    } else {
      var shorter := [w[1..]] + pieces[1..];
      assert w == [w[0]] + w[1..];
      assert shorter[1..] == pieces[1..];
      assert w in pieces && forall c :: c in w[1..] ==> c in w;
      assert forall v :: v in pieces[1..] ==> v in pieces;
      SplitUndoesJoin(shorter, sep);
      assert s[0] == w[0] && s[1..] == Join(shorter, sep);
    }
  }

  /** The characters of the pieces are characters of the string. */
  lemma {:induction false} SplitCharacters(s: string, sep: char)
    ensures forall w, c :: w in Split(s, sep) && c in w ==> c in s
  {
    if s != [] {
      SplitCharacters(s[1..], sep);
      assert s == [s[0]] + s[1..];
    }
  }
}
