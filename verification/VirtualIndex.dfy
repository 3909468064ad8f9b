/** The index of the in-memory segment: the entries, kept in step with their bytes. */
module VirtualIndexes {
  import opened Base
  import opened Names
  import opened Records
  import opened Codec
  import opened Files
  import opened SegmentSpec

  class VirtualIndex {
    var entries: seq<Entry>
    var contents: Cursor
    const fullIndexFilePath: FileName

    ghost function Value(): VIndex
      reads this
    {
      VIndex(entries, contents, fullIndexFilePath)
    }

    constructor (path: FileName)
      ensures Value() == VIndex([], Cursor([], 0), path)
    {
      entries := [];
      contents := Cursor([], 0);
      fullIndexFilePath := path;
    }

    /** Add an entry to the list and its encoding to the bytes. */
    method AddEntry(start: u32, total: u32)
      modifies this
      ensures Value() == old(Value()).AddEntry(start, total)
    {
      var entry := Entry(start, total);
      var encoded := EncodeEntry(entry);
      entries := entries + [entry];
      contents := contents.Write(encoded);
    }

    /** Start and length of the entry at `offset`, if there is one. */
    method ReturnEntryDetailsByOffset(offset: nat) returns (r: Option<(nat, nat)>)
      ensures r == if offset < |entries| then Some((entries[offset].start, entries[offset].total)) else None
    {
      if |entries| <= offset {
        return None;
      }
      var entry := entries[offset];
      r := Some((entry.start, entry.total));
    }

    method Flush(dir: Directory)
      modifies dir
      ensures dir.files == WriteFromStart(old(dir.files), fullIndexFilePath, contents.data)
    {
      dir.Overwrite(fullIndexFilePath, contents.data);
    }

    /**
     * Read the entries back from the file, chunk by chunk, keeping the bytes of the whole chunks
     * as well; fails when there is no file or the number of entries does not fit 16 bits.
     */
    method LoadIndex(dir: Directory) returns (r: Option<u16>)
      modifies this
      ensures fullIndexFilePath !in dir.files ==> r.None? && Value() == old(Value())
      ensures fullIndexFilePath in dir.files ==>
                var file := dir.files[fullIndexFilePath];
                && entries == old(entries) + DecodeAll(file)
                && (old(contents).AtEnd() ==>
                      contents == Cursor(old(contents.data) + WholeChunks(file),
                                         |old(contents.data)| + |WholeChunks(file)|))
                && r == if |entries| < TWO_16 then Some(|entries|) else None
    {
      hide DecodeAll;
      hide DecodeEntry;
      hide Cursor.Write;
      if fullIndexFilePath !in dir.files {
        return None;
      }
      var file := dir.files[fullIndexFilePath];
      var pos := 0;
      assert file[..0] == [];
      while pos + 8 <= |file|
        invariant pos <= |file| && pos % 8 == 0
        invariant entries == old(entries) + DecodeAll(file[..pos])
        invariant old(contents).AtEnd() ==>
                    contents == Cursor(old(contents.data) + file[..pos], |old(contents.data)| + pos)
      {
        var buffer := file[pos..pos + 8];
        DecodeSnoc(file, pos);
        if old(contents).AtEnd() {
          WriteAtEndAppends(contents, buffer);
          assert file[..pos] + buffer == file[..pos + 8];
          assert old(contents.data) + file[..pos] + buffer == old(contents.data) + file[..pos + 8];
        }
        contents := contents.Write(buffer);
        entries := entries + [DecodeEntry(buffer)];
        pos := pos + 8;
      }
      DecodeTorn(file, pos);
      assert pos == |file| / 8 * 8;
      r := if |entries| < TWO_16 then Some(|entries|) else None;
    }
  }
}
