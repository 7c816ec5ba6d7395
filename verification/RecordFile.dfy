/** An append-only file of length-prefixed records, whatever their bodies are. */
module RecordFile {
  import opened Bytes
  import FileHelper
  import Sequences

  // sizeof(size_t)
  const PREFIX_LEN := 8
  const SIZE_LIMIT := 0x1_0000_0000_0000_0000

  function Frame(body: Bytes): (r: Bytes)
    ensures |r| == PREFIX_LEN + |body|
  {
    LittleEndian(|body|, PREFIX_LEN) + body
  }

  function Encode(bodies: seq<Bytes>): Bytes {
    if bodies == [] then [] else Frame(bodies[0]) + Encode(bodies[1..])
  }

  /** The position of record i; its body starts PREFIX_LEN bytes later. */
  function Start(bodies: seq<Bytes>, i: nat): nat
    requires i <= |bodies|
  {
    |Encode(bodies[..i])|
  }

  lemma ThreeParts(a: Bytes, b: Bytes, c: Bytes)
    ensures var s := a + b + c;
            s[..|a|] == a && s[|a|..|a| + |b|] == b && s[|a| + |b|..] == c
  {
    Sequences.AppendAssociative(a, b, c);
    Sequences.TakeDropAppend(a, b + c);
    Sequences.TakeDropAppend(a + b, c);
  }

  /** Taking a file apart at its first record. */
  lemma FrameParts(body: Bytes, rest: Bytes)
    requires |body| < SIZE_LIMIT
    ensures var file := Frame(body) + rest;
            && FromLittleEndian(file[..PREFIX_LEN]) == |body|
            && file[PREFIX_LEN..PREFIX_LEN + |body|] == body
            && file[PREFIX_LEN + |body|..] == rest
  {
    hide FromLittleEndian, LittleEndian, Pow256;
    Pow256Eight();
    LittleEndianRoundTrip(|body|, PREFIX_LEN);
    ThreeParts(LittleEndian(|body|, PREFIX_LEN), body, rest);
  }

  lemma {:induction false} EncodeAppend(a: seq<Bytes>, b: seq<Bytes>)
    ensures Encode(a + b) == Encode(a) + Encode(b)
  {
    if a == [] {
      assert a + b == b;
    } else {
      assert (a + b)[1..] == a[1..] + b;
      EncodeAppend(a[1..], b);
    }
  }

  lemma EncodeSingle(body: Bytes)
    ensures Encode([body]) == Frame(body)
  {
    assert Frame(body) + [] == Frame(body);
  }

  lemma EncodeSplit(bodies: seq<Bytes>, i: nat)
    requires i < |bodies|
    ensures Encode(bodies) == Encode(bodies[..i]) + (Frame(bodies[i]) + Encode(bodies[i + 1..]))
  {
    assert bodies == bodies[..i] + bodies[i..];
    EncodeAppend(bodies[..i], bodies[i..]);
    assert bodies[i..][1..] == bodies[i + 1..];
  }

  lemma NextStart(bodies: seq<Bytes>, i: nat)
    requires i < |bodies|
    ensures Start(bodies, i + 1) == Start(bodies, i) + PREFIX_LEN + |bodies[i]|
  {
    assert bodies[..i + 1] == bodies[..i] + [bodies[i]];
    EncodeAppend(bodies[..i], [bodies[i]]);
    EncodeSingle(bodies[i]);
  }

  /** Appending leaves every record where it was and puts the new one at the old end. */
  lemma AppendRecord(bodies: seq<Bytes>, body: Bytes)
    ensures Encode(bodies + [body]) == Encode(bodies) + Frame(body)
    ensures forall i :: 0 <= i <= |bodies| ==> Start(bodies + [body], i) == Start(bodies, i)
    ensures Start(bodies, |bodies|) == |Encode(bodies)|
  {
    EncodeAppend(bodies, [body]);
    EncodeSingle(body);
    forall i | 0 <= i <= |bodies|
      ensures Start(bodies + [body], i) == Start(bodies, i)
    {
      assert (bodies + [body])[..i] == bodies[..i];
    }
    assert bodies[..|bodies|] == bodies;
  }

  /** Record i is the length of its body followed by the body, between Start(i) and Start(i + 1). */
  lemma RecordAt(bodies: seq<Bytes>, i: nat)
    requires i < |bodies| && |bodies[i]| < SIZE_LIMIT
    ensures var file, s := Encode(bodies), Start(bodies, i);
            && Start(bodies, i + 1) == s + PREFIX_LEN + |bodies[i]| <= |file|
            && FromLittleEndian(file[s..s + PREFIX_LEN]) == |bodies[i]|
            && file[s + PREFIX_LEN..s + PREFIX_LEN + |bodies[i]|] == bodies[i]
  {
    hide FromLittleEndian;
    EncodeSplit(bodies, i);
    NextStart(bodies, i);
    FrameParts(bodies[i], Encode(bodies[i + 1..]));
    SliceAfter(Encode(bodies[..i]), Frame(bodies[i]) + Encode(bodies[i + 1..]), 0, PREFIX_LEN);
    SliceAfter(Encode(bodies[..i]), Frame(bodies[i]) + Encode(bodies[i + 1..]),
               PREFIX_LEN, PREFIX_LEN + |bodies[i]|);
  }

  /** Writing a length at the end of a file and then the body after it appends one record. */
  lemma WriteRecord(file: Bytes, body: Bytes)
    ensures FileHelper.Write(FileHelper.Write(file, |file|, LittleEndian(|body|, PREFIX_LEN)),
                             |file| + PREFIX_LEN, body)
         == file + Frame(body)
  {
    var prefix := LittleEndian(|body|, PREFIX_LEN);
    FileHelper.WriteAtEnd(file, prefix);
    FileHelper.WriteAtEnd(file + prefix, body);
    Sequences.AppendAssociative(file, prefix, body);
  }

  /** What positioned reads find there. */
  lemma ReadBack(bodies: seq<Bytes>, i: nat)
    requires i < |bodies| && |bodies[i]| < SIZE_LIMIT
    ensures var file, s := Encode(bodies), Start(bodies, i);
            && (var prefix := FileHelper.Read(file, s, PREFIX_LEN);
                prefix.ReadOk? && FromLittleEndian(prefix.data) == |bodies[i]|)
            && FileHelper.Read(file, s + PREFIX_LEN, |bodies[i]|) == FileHelper.ReadOk(bodies[i])
  {
    RecordAt(bodies, i);
  }

  lemma SliceAfter(before: Bytes, tail: Bytes, lo: nat, hi: nat)
    requires lo <= hi <= |tail|
    ensures (before + tail)[|before| + lo..|before| + hi] == tail[lo..hi]
  {
  }

  /**
   * Overwriting the body of record i with one of the same length changes that record only:
   * the file becomes the encoding of the list with entry i replaced, and no record moves.
   */
  lemma OverwriteBody(bodies: seq<Bytes>, i: nat, body: Bytes)
    requires i < |bodies| && |body| == |bodies[i]|
    ensures FileHelper.Write(Encode(bodies), Start(bodies, i) + PREFIX_LEN, body) == Encode(bodies[i := body])
    ensures forall j :: 0 <= j <= |bodies| ==> Start(bodies[i := body], j) == Start(bodies, j)
  {
    hide Encode, Frame, FileHelper.Write;
    EncodeSplit(bodies, i);
    EncodeSplit(bodies[i := body], i);
    assert bodies[i := body][..i] == bodies[..i] && bodies[i := body][i + 1..] == bodies[i + 1..];
    OverwriteFramed(Encode(bodies[..i]), bodies[i], Encode(bodies[i + 1..]), body);
    forall j | 0 <= j <= |bodies|
      ensures Start(bodies[i := body], j) == Start(bodies, j)
    {
      SameLengthsSameStarts(bodies, i, body, j);
    }
  }

  lemma OverwriteFramed(before: Bytes, oldBody: Bytes, after: Bytes, body: Bytes)
    requires |body| == |oldBody|
    ensures FileHelper.Write(before + (Frame(oldBody) + after), |before| + PREFIX_LEN, body)
         == before + (Frame(body) + after)
  {
    var prefix := LittleEndian(|body|, PREFIX_LEN);
    assert before + (Frame(oldBody) + after) == before + prefix + oldBody + after;
    FileHelper.WriteInside(before + prefix, oldBody, after, body);
    assert before + (Frame(body) + after) == before + prefix + body + after;
  }

  lemma {:induction false} SameLengthsSameStarts(bodies: seq<Bytes>, i: nat, body: Bytes, j: nat)
    requires i < |bodies| && j <= |bodies| && |body| == |bodies[i]|
    ensures Start(bodies[i := body], j) == Start(bodies, j)
  {
    if j > 0 {
      SameLengthsSameStarts(bodies, i, body, j - 1);
      NextStart(bodies, j - 1);
      NextStart(bodies[i := body], j - 1);
    }
  }
}
