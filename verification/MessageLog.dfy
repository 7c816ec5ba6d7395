/** The data file of a queue as a list of stored payloads. */
module MessageLog {
  import opened Bytes
  import opened Payload
  import FileHelper
  import RecordFile

  const PREFIX_LEN := RecordFile.PREFIX_LEN

  function Bodies(log: seq<Payload>): (r: seq<Bytes>)
    ensures |r| == |log|
  {
    seq(|log|, i requires 0 <= i < |log| => Serialize(log[i]))
  }

  function Encode(log: seq<Payload>): Bytes {
    RecordFile.Encode(Bodies(log))
  }

  /** Where the payload of record i starts, just after its length prefix. */
  function BodyStart(log: seq<Payload>, i: nat): nat
    requires i <= |log|
  {
    RecordFile.Start(Bodies(log), i) + PREFIX_LEN
  }

  predicate WellFormedRecord(p: Payload) {
    |Serialize(p)| < RecordFile.SIZE_LIMIT && (p.valid == VALID || p.valid == INVALID)
  }

  /** Every record has a length that fits its prefix and one of the two flags. */
  predicate WellFormed(log: seq<Payload>) {
    log == [] || (WellFormed(log[..|log| - 1]) && WellFormedRecord(log[|log| - 1]))
  }

  lemma {:induction false} WellFormedMembers(log: seq<Payload>)
    ensures WellFormed(log) <==> forall p :: p in log ==> WellFormedRecord(p)
  {
    if log != [] {
      var n := |log| - 1;
      WellFormedMembers(log[..n]);
      assert log == log[..n] + [log[n]];
    }
  }

  lemma WellFormedAt(log: seq<Payload>, i: nat)
    requires WellFormed(log) && i < |log|
    ensures WellFormedRecord(log[i])
  {
    WellFormedMembers(log);
    assert log[i] in log;
  }

  lemma WellFormedUpdate(log: seq<Payload>, i: nat, p: Payload)
    requires WellFormed(log) && i < |log| && WellFormedRecord(p)
    ensures WellFormed(log[i := p])
  {
    WellFormedMembers(log);
    WellFormedMembers(log[i := p]);
    assert forall q :: q in log[i := p] ==> q in log || q == p;
  }

  lemma WellFormedAppend(log: seq<Payload>, p: Payload)
    ensures WellFormed(log + [p]) <==> WellFormed(log) && WellFormedRecord(p)
  {
    assert (log + [p])[..|log|] == log;
  }

  /** The valid records, in file order. */
  function Live(log: seq<Payload>): (r: seq<Payload>)
    ensures |r| <= |log|
  {
    if log == [] then []
    else if log[0].IsLive() then [log[0]] + Live(log[1..])
    else Live(log[1..])
  }

  datatype ParsedLog = BadFile | Records(log: seq<Payload>)

  /** Reads a whole file as records; any leftover or unreadable byte makes it a bad file. */
  function ParseFile(file: Bytes): ParsedLog
    decreases |file|
  {
    if file == [] then Records([])
    else if |file| < PREFIX_LEN then BadFile
    else
      var len := FromLittleEndian(file[..PREFIX_LEN]);
      if PREFIX_LEN + len > |file| then BadFile
      else
        match Parse(file[PREFIX_LEN..PREFIX_LEN + len])
        case Malformed => BadFile
        case Parsed(p) =>
          match ParseFile(file[PREFIX_LEN + len..])
          case BadFile => BadFile
          case Records(log) => Records([p] + log)
  }

  lemma ParseFileStep(p: Payload, rest: Bytes)
    requires |Serialize(p)| < RecordFile.SIZE_LIMIT
    ensures ParseFile(RecordFile.Frame(Serialize(p)) + rest)
         == match ParseFile(rest)
            case BadFile => BadFile
            case Records(log) => Records([p] + log)
  {
    RecordFile.FrameParts(Serialize(p), rest);
    ParseUndoesSerialize(p);
  }

  lemma WellFormedSize(p: Payload)
    requires WellFormedRecord(p)
    ensures |Serialize(p)| < RecordFile.SIZE_LIMIT
  {
  }

  /** The file of every well-formed log parses completely, back into that log. */
  lemma {:induction false} ParseFileUndoesEncode(log: seq<Payload>)
    requires WellFormed(log)
    ensures ParseFile(Encode(log)) == Records(log)
  {
    hide Serialize, WellFormedRecord;
    if log != [] {
      WellFormedMembers(log);
      WellFormedMembers(log[1..]);
      WellFormedAt(log, 0);
      ParseFileUndoesEncode(log[1..]);
      assert log[0] in log && log == [log[0]] + log[1..];
      assert Bodies(log)[1..] == Bodies(log[1..]);
      assert |Serialize(log[0])| < RecordFile.SIZE_LIMIT by {
        WellFormedSize(log[0]);
      }
      ParseFileStep(log[0], Encode(log[1..]));
    }
  }

  /** Appending leaves every record where it was and puts the new one at the old end. */
  lemma AppendRecord(log: seq<Payload>, p: Payload)
    ensures Encode(log + [p]) == Encode(log) + RecordFile.Frame(Serialize(p))
    ensures forall i :: 0 <= i <= |log| ==> BodyStart(log + [p], i) == BodyStart(log, i)
    ensures BodyStart(log, |log|) == |Encode(log)| + PREFIX_LEN
  {
    hide Serialize;
    assert Bodies(log + [p]) == Bodies(log) + [Serialize(p)];
    RecordFile.AppendRecord(Bodies(log), Serialize(p));
  }

  /** Overwriting the payload of record i in place replaces entry i of the log and moves no record. */
  lemma OverwriteRecord(log: seq<Payload>, i: nat, p: Payload)
    requires i < |log|
    requires |Serialize(p)| == |Serialize(log[i])|
    ensures FileHelper.Write(Encode(log), BodyStart(log, i), Serialize(p)) == Encode(log[i := p])
    ensures forall j :: 0 <= j <= |log| ==> BodyStart(log[i := p], j) == BodyStart(log, j)
  {
    hide Serialize;
    assert Bodies(log[i := p]) == Bodies(log)[i := Serialize(p)];
    RecordFile.OverwriteBody(Bodies(log), i, Serialize(p));
  }

  // Which record belongs to which message id.

  predicate LiveAt(log: seq<Payload>, id: Bytes, i: int) {
    0 <= i < |log| && log[i].IsLive() && log[i].Id() == id
  }

  predicate HasLive(log: seq<Payload>, id: Bytes) {
    exists i :: 0 <= i < |log| && LiveAt(log, id, i)
  }

  /** No two valid records carry one id. */
  ghost predicate UniqueLive(log: seq<Payload>) {
    forall i, j :: 0 <= i < j < |log| && log[i].IsLive() && log[j].IsLive() ==> log[i].Id() != log[j].Id()
  }

  function Position(log: seq<Payload>, id: Bytes): (i: nat)
    requires HasLive(log, id)
    ensures LiveAt(log, id, i)
  {
    if LiveAt(log, id, 0) then 0
    else
      assert forall i :: LiveAt(log, id, i) ==> LiveAt(log[1..], id, i - 1);
      1 + Position(log[1..], id)
  }

  lemma {:induction false} LiveAppend(a: seq<Payload>, b: seq<Payload>)
    ensures Live(a + b) == Live(a) + Live(b)
  {
    if a == [] {
      assert a + b == b;
    } else {
      assert (a + b)[1..] == a[1..] + b;
      LiveAppend(a[1..], b);
    }
  }

  lemma {:induction false} LiveMembers(log: seq<Payload>)
    ensures forall p :: p in Live(log) <==> p in log && p.IsLive()
  {
    if log != [] {
      LiveMembers(log[1..]);
      assert log == [log[0]] + log[1..];
    }
  }

  lemma LiveStaysWellFormed(log: seq<Payload>)
    requires WellFormed(log)
    ensures WellFormed(Live(log))
  {
    WellFormedMembers(log);
    WellFormedMembers(Live(log));
    LiveMembers(log);
  }

  lemma {:induction false} LiveStaysUnique(log: seq<Payload>)
    requires UniqueLive(log)
    ensures UniqueLive(Live(log))
  {
    if log != [] {
      var rest := log[1..];
      assert forall i :: 0 <= i < |rest| ==> rest[i] == log[i + 1];
      LiveStaysUnique(rest);
      LiveMembers(rest);
      assert forall p :: p in rest && p.IsLive() && log[0].IsLive() ==> p.Id() != log[0].Id();
      assert forall j :: 0 <= j < |Live(rest)| ==> Live(rest)[j] in Live(rest);
    }
  }

  lemma {:induction false} LiveOfLive(log: seq<Payload>)
    ensures Live(Live(log)) == Live(log)
  {
    if log != [] {
      LiveOfLive(log[1..]);
      if log[0].IsLive() {
        assert Live(log)[1..] == Live(log[1..]);
      }
    }
  }

  /** With distinct ids, the position of a message is the only index at which it is valid. */
  lemma PositionIs(log: seq<Payload>, id: Bytes, i: int)
    requires UniqueLive(log) && LiveAt(log, id, i)
    ensures HasLive(log, id) && Position(log, id) == i
  {
    var k := Position(log, id);
    assert LiveAt(log, id, k);
  }

  lemma {:induction false} LiveShrinks(log: seq<Payload>)
    ensures |Encode(Live(log))| <= |Encode(log)|
  {
    if log != [] {
      LiveShrinks(log[1..]);
      assert Bodies(log)[1..] == Bodies(log[1..]);
      if log[0].IsLive() {
        assert Bodies(Live(log))[1..] == Bodies(Live(log[1..]));
      }
    }
  }

  /** Compaction keeps the order of the valid records and moves each of them towards the front. */
  lemma CompactionMovesDown(log: seq<Payload>, i: nat) returns (j: nat)
    requires i < |log| && log[i].IsLive()
    ensures j < |Live(log)| && Live(log)[j] == log[i]
    ensures BodyStart(Live(log), j) <= BodyStart(log, i)
  {
    var before := log[..i];
    j := |Live(before)|;
    assert log == before + log[i..];
    LiveAppend(before, log[i..]);
    assert log[i..][0] == log[i];
    LiveShrinks(before);
    assert Live(log)[..j] == Live(before);
    assert Bodies(log)[..i] == Bodies(before);
    assert Bodies(Live(log))[..j] == Bodies(Live(before));
  }

  lemma LiveSnoc(log: seq<Payload>, i: nat)
    requires i < |log|
    ensures Live(log[..i + 1]) == Live(log[..i]) + if log[i].IsLive() then [log[i]] else []
  {
    LiveAppend(log[..i], [log[i]]);
    assert log[..i + 1] == log[..i] + [log[i]];
  }

  lemma NothingEncoded()
    ensures Encode([]) == []
  {
  }

  lemma FileEnds(log: seq<Payload>)
    ensures BodyStart(log, 0) == PREFIX_LEN
    ensures BodyStart(log, |log|) == |Encode(log)| + PREFIX_LEN
  {
    assert Bodies(log)[..0] == [];
    assert Bodies(log)[..|log|] == Bodies(log);
  }

  lemma LogEnds(log: seq<Payload>, i: nat, offset: nat)
    requires i <= |log| && WellFormed(log)
    requires offset + PREFIX_LEN == BodyStart(log, i) && offset >= |Encode(log)|
    ensures i == |log| && log[..i] == log
  {
    if i < |log| {
      WellFormedAt(log, i);
      RecordFile.RecordAt(Bodies(log), i);
    }
  }

  /** What the loader finds at the position of record i. */
  lemma ReadRecord(log: seq<Payload>, i: nat)
    requires i < |log| && WellFormedRecord(log[i])
    ensures var file, at := Encode(log), BodyStart(log, i);
            var prefix := FileHelper.Read(file, at - PREFIX_LEN, PREFIX_LEN);
            && prefix.ReadOk?
            && var size := FromLittleEndian(prefix.data);
               var body := FileHelper.Read(file, at, size);
               && at + size + PREFIX_LEN == BodyStart(log, i + 1) <= |file| + PREFIX_LEN
               && body.ReadOk? && Parse(body.data) == Parsed(log[i])
  {
    var bodies := Bodies(log);
    assert bodies[i] == Serialize(log[i]);
    ParseUndoesSerialize(log[i]);
    RecordFile.RecordAt(bodies, i);
    RecordFile.ReadBack(bodies, i);
  }

  lemma BodyStartOfPrefix(log: seq<Payload>, n: nat)
    requires n <= |log|
    ensures BodyStart(log, n) == |Encode(log[..n])| + PREFIX_LEN
  {
    assert Bodies(log)[..n] == Bodies(log[..n]);
  }

  /** The bytes that record i's place delimits are those of its payload. */
  lemma BodyAt(log: seq<Payload>, i: nat)
    requires i < |log| && WellFormedRecord(log[i])
    ensures var at, size := BodyStart(log, i), |Serialize(log[i])|;
            at + size <= |Encode(log)| && Encode(log)[at..at + size] == Serialize(log[i])
  {
    RecordFile.RecordAt(Bodies(log), i);
  }

  /** Copying record n to the end of a file that holds the first n. */
  lemma CopyRecord(log: seq<Payload>, n: nat)
    requires n < |log|
    ensures Encode(log[..n + 1]) == Encode(log[..n]) + RecordFile.Frame(Serialize(log[n]))
    ensures BodyStart(log, n) == |Encode(log[..n])| + PREFIX_LEN
  {
    AppendRecord(log[..n], log[n]);
    assert log[..n + 1] == log[..n] + [log[n]];
    assert Bodies(log)[..n] == Bodies(log[..n]);
  }
}
