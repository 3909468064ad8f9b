/** The index of a disk segment: its entries are decoded from the index file. */
module IndexFile {
  import opened Base
  import opened Names
  import opened Records
  import opened Codec
  import opened Files

  class Index {
    const fileName: FileName
    var entries: seq<Entry>

    /** Open the index file, creating it when it is missing. */
    constructor (dir: Directory, name: FileName)
      modifies dir
      ensures fileName == name && entries == []
      ensures dir.files == OpenOrCreate(old(dir.files), name)
    {
      fileName := name;
      entries := [];
      new;
      dir.OpenCreating(name);
    }

    /** Decode the file 8 bytes at a time up to the first short read; the number of entries must fit 16 bits. */
    method LoadIndex(dir: Directory) returns (r: Option<u16>)
      requires fileName in dir.files
      modifies this
      ensures entries == old(entries) + DecodeAll(dir.files[fileName])
      ensures r == if |entries| < TWO_16 then Some(|entries|) else None
    {
      var file := dir.files[fileName];
      var pos := 0;
      assert file[..0] == [];
      while pos + 8 <= |file|
        invariant pos <= |file| && pos % 8 == 0
        invariant entries == old(entries) + DecodeAll(file[..pos])
      {
        var buffer := file[pos..pos + 8];
        DecodeSnoc(file, pos);
        entries := entries + [DecodeEntry(buffer)];
        pos := pos + 8;
      }
      DecodeTorn(file, pos);
      r := if |entries| < TWO_16 then Some(|entries|) else None;
    }
  }
}
