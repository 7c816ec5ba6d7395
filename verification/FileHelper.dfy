/** Positioned access to the contents of one file; reads and writes succeed unless a read runs past the end. */
module FileHelper {
  import opened Bytes

  datatype ReadResult = ReadFailed | ReadOk(data: Bytes)

  function Read(file: Bytes, offset: nat, len: nat): (r: ReadResult)
    ensures r.ReadOk? <==> offset + len <= |file|
    ensures r.ReadOk? ==> r.data == file[offset..offset + len]
  {
    if offset + len <= |file| then ReadOk(file[offset..offset + len]) else ReadFailed
  }

  /** Overwrites from `offset`, extending the file (zero-filled up to `offset`) as needed. */
  function Write(file: Bytes, offset: nat, data: Bytes): (r: Bytes)
    ensures |r| == if offset + |data| > |file| then offset + |data| else |file|
    ensures r[offset..offset + |data|] == data
    ensures forall i :: 0 <= i < |file| && !(offset <= i < offset + |data|) ==> r[i] == file[i]
    ensures forall i :: |file| <= i < offset ==> r[i] == 0
  {
    var padded := if offset <= |file| then file else file + seq(offset - |file|, _ => 0);
    var end := offset + |data|;
    padded[..offset] + data + (if end <= |file| then file[end..] else [])
  }

  lemma WriteAtEnd(file: Bytes, data: Bytes)
    ensures Write(file, |file|, data) == file + data
  {
    assert file[..|file|] == file;
  }

  lemma WriteInside(before: Bytes, old_: Bytes, after: Bytes, data: Bytes)
    requires |data| == |old_|
    ensures Write(before + old_ + after, |before|, data) == before + data + after
  {
    var file := before + old_ + after;
    assert file[..|before|] == before;
    assert file[|before| + |data|..] == after;
  }
}
