/** The segment in memory: one cursor for its bytes, moved by writes and by reads. */
module VirtualSegments {
  import opened Base
  import opened Names
  import opened Codec
  import opened Files
  import opened SegmentSpec
  import opened VirtualIndexes

  class VirtualSegment {
    var contents: Cursor
    var position: u32
    const maxBytes: nat
    const startingOffset: u16
    var nextOffset: u16
    const index: VirtualIndex
    const fullLogPath: FileName

    ghost function Value(): VSeg
      reads this, index
    {
      VSeg(contents, position, maxBytes, startingOffset, nextOffset, index.Value(), fullLogPath)
    }

    constructor (maxSegmentBytes: nat, offset: u16)
      ensures fresh(index)
      ensures Value() == NewVSeg(maxSegmentBytes, offset)
    {
      contents := Cursor([], 0);
      position := 0;
      maxBytes := maxSegmentBytes;
      startingOffset := offset;
      nextOffset := 0;
      index := new VirtualIndex(IndexName(offset));
      fullLogPath := LogName(offset);
    }

    constructor FromParts(bytes: seq<u8>, max: nat, offset: u16, next: u16, loaded: VirtualIndex)
      requires |bytes| < TWO_32
      ensures index == loaded
      ensures Value() == VSeg(Cursor(bytes, 0), |bytes|, max, offset, next, loaded.Value(), LogName(offset))
    {
      contents := Cursor(bytes, 0);
      position := |bytes|;
      maxBytes := max;
      startingOffset := offset;
      nextOffset := next;
      index := loaded;
      fullLogPath := LogName(offset);
    }

    /** Load the segment with this offset from its two files. */
    static method LoadSegment(dir: Directory, offset: u16, maxSegmentBytes: nat)
      returns (r: Result<VirtualSegment, SegmentError>)
      ensures r.Success? ==> fresh(r.value) && fresh(r.value.index)
                             && LoadVSeg(dir.files, offset, maxSegmentBytes) == Success(r.value.Value())
      ensures r.Failure? ==> LoadVSeg(dir.files, offset, maxSegmentBytes) == Failure(r.error)
    {
      if LogName(offset) !in dir.files {
        return Failure(MissingFile);
      }
      var buffer := dir.files[LogName(offset)];
      if |buffer| >= TWO_32 {
        return Failure(FileTooLong);
      }
      var loaded := new VirtualIndex(IndexName(offset));
      var total := loaded.LoadIndex(dir);
      if total.None? {
        return Failure(TooManyEntries);
      }
      ghost var file := dir.files[IndexName(offset)];
      assert [] + DecodeAll(file) == DecodeAll(file) && [] + WholeChunks(file) == WholeChunks(file);
      WholeChunksDecode(file);
      var segment := new VirtualSegment.FromParts(buffer, maxSegmentBytes, offset,
                                                  WrapAdd16(total.value, offset), loaded);
      r := Success(segment);
    }

    /** Append a record; the state and the answer are those of the value. */
    method Write(data: Record) returns (r: SegResult<u16>)
      modifies this, index
      ensures (Value(), r) == old(Value()).Write(data)
    {
      if |data| > maxBytes {
        return Failure(TooLarge);
      }
      if |contents.data| + |data| > maxBytes {
        return Failure(WouldOverflow);
      }
      contents := contents.Write(data);
      if |data| >= TWO_32 {
        return Failure(TooManyBytes);
      }
      index.AddEntry(position, |data|);
      position := WrapAdd32(position, |data|);
      var offsetWritten := nextOffset;
      nextOffset := WrapAdd16(nextOffset, 1);
      r := Success(offsetWritten);
    }

    /** Read a record by its index in the segment, moving the cursor. */
    method ReadAt(offset: nat) returns (r: SegResult<Record>)
      modifies this
      ensures (Value(), r) == old(Value()).ReadAt(offset)
    {
      if (startingOffset == 0 && offset >= nextOffset) || offset >= WrapAdd16(nextOffset, startingOffset) {
        return Failure(OutOfBounds);
      }
      var details := index.ReturnEntryDetailsByOffset(offset);
      if details.None? {
        return Failure(NoEntry);
      }
      var (start, total) := details.value;
      var (moved, bytes) := contents.ReadAt(start, total);
      contents := moved;
      r := if bytes.Some? then Success(bytes.value) else Failure(ShortRead);
    }

    /** Write the index file and the log file. */
    method Flush(dir: Directory)
      modifies dir
      ensures dir.files == Value().Flush(old(dir.files))
    {
      dir.OpenCreating(fullLogPath);
      index.Flush(dir);
      dir.Overwrite(fullLogPath, contents.data);
    }
  }

  lemma WholeChunksDecode(b: seq<u8>)
    ensures |WholeChunks(b)| / 8 == |b| / 8
    ensures DecodeAll(WholeChunks(b)) == DecodeAll(b)
  {
    DecodeTorn(b, |b| / 8 * 8);
  }
}
