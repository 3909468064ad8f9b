/** The operations of a disk segment on its directory. */
module Segments {
  import opened Base
  import opened Names
  import opened Codec
  import opened Files
  import opened IndexFile
  import opened SegmentSpec

  /** Load a segment given its file stem. */
  method LoadSegment(dir: Directory, stem: string) returns (r: SegResult<Segment>)
    modifies dir
    ensures (dir.files, r) == SegmentSpec.LoadSegment(old(dir.files), stem)
  {
    var parsed := ParseU16(stem);
    if parsed.None? {
      return Failure(BadStem);
    }
    var offset := parsed.value;
    var logFile := LogName(offset);
    dir.OpenCreating(logFile);
    var size := |dir.files[logFile]|;
    if size >= TWO_32 {
      return Failure(FileTooLong);
    }
    var index := new Index(dir, IndexName(offset));
    var total := index.LoadIndex(dir);
    assert [] + DecodeAll(dir.files[IndexName(offset)]) == DecodeAll(dir.files[IndexName(offset)]);
    if total.None? {
      return Failure(TooManyEntries);
    }
    r := Success(Segment(offset, WrapAdd16(total.value, offset), size, index.entries, logFile, index.fileName));
  }

  /** Read a record by its index in the segment. */
  method ReadAt(dir: Directory, s: Segment, offset: nat) returns (r: SegResult<Record>)
    ensures r == s.ReadAt(dir.files, offset)
  {
    if (s.start == 0 && offset >= s.next) || offset >= WrapSub16(s.next, s.start) {
      return Failure(OutOfBounds);
    }
    if offset >= |s.entries| {
      return Failure(NoEntry);
    }
    var entry := s.entries[offset];
    var log := Contents(dir.files, s.logName);
    var (_, bytes) := Cursor(log, 0).ReadAt(entry.start, entry.total);
    r := if bytes.Some? then Success(bytes.value) else Failure(ShortRead);
  }

  /** Delete the log file and the index file. */
  method Delete(dir: Directory, s: Segment) returns (ok: bool)
    modifies dir
    ensures (dir.files, ok) == s.Delete(old(dir.files))
  {
    ok := dir.Remove(s.logName);
    if !ok {
      assert dir.files == old(dir.files);
      return;
    }
    ok := dir.Remove(s.indexName);
    assert !ok ==> dir.files == old(dir.files) - {s.logName};
  }
}
