/** The directory of a commitlog: file contents by name, and the order a listing shows them in. */
module Files {
  import opened Base
  import opened Names

  type FileMap = map<FileName, seq<u8>>

  function Contents(files: FileMap, name: FileName): seq<u8> {
    if name in files then files[name] else []
  }

  /** Opening with `create(true)` makes a missing file and leaves an existing one alone. */
  function OpenOrCreate(files: FileMap, name: FileName): FileMap {
    files[name := Contents(files, name)]
  }

  /** Writing from the start without truncating: bytes of a longer old file survive at the end. */
  function WriteFromStart(files: FileMap, name: FileName, data: seq<u8>): FileMap {
    var was := Contents(files, name);
    files[name := data + (if |data| < |was| then was[|data|..] else [])]
  }

  lemma WriteFresh(files: FileMap, name: FileName, data: seq<u8>)
    requires Contents(files, name) == []
    ensures WriteFromStart(files, name, data) == files[name := data]
  {
    assert data + [] == data;
  }

  /**
   * Writing from the start, byte by byte: the file is as long as the longer of the two, begins
   * with the new bytes and is the old file after them; no other file changes.
   */
  lemma WriteFromStartExact(files: FileMap, name: FileName, data: seq<u8>, i: nat)
    ensures var files', was := WriteFromStart(files, name, data), Contents(files, name);
            && files'.Keys == files.Keys + {name}
            && (forall f <- files :: f != name ==> files'[f] == files[f])
            && |files'[name]| == Max(|was|, |data|)
            && (i < |files'[name]| ==> files'[name][i] == if i < |data| then data[i] else was[i])
  {
  }

  ghost predicate Distinct<T>(s: seq<T>) {
    forall i, j :: 0 <= i < j < |s| ==> s[i] != s[j]
  }

  /** `l` shows every file of the directory exactly once, in whatever order. */
  ghost predicate IsListing(l: seq<FileName>, files: FileMap) {
    && Distinct(l)
    && forall f :: f in l <==> f in files
  }

  ghost function ListSet(s: set<FileName>): (l: seq<FileName>)
    ensures Distinct(l)
    ensures forall f :: f in l <==> f in s
  {
    if s == {} then
      []
    else
      var f :| f in s;
      [f] + ListSet(s - {f})
  }

  /** One listing of the directory. */
  ghost function SomeListing(files: FileMap): (l: seq<FileName>)
    ensures IsListing(l, files)
  {
    ListSet(files.Keys)
  }

  /** A directory on disk. */
  class Directory {
    var files: FileMap

    constructor ()
      ensures files == map[]
    {
      files := map[];
    }

    /** Read the directory; the operating system chooses the order. */
    method List() returns (l: seq<FileName>)
      ensures IsListing(l, files)
    {
      l := [];
      var left := files.Keys;
      while left != {}
        invariant left <= files.Keys
        invariant Distinct(l)
        invariant forall f :: f in l <==> f in files && f !in left
        decreases left
      {
        var f :| f in left;
        l := l + [f];
        left := left - {f};
      }
    }

    method Remove(name: FileName) returns (ok: bool)
      modifies this
      ensures ok <==> name in old(files)
      ensures files == old(files) - {name}
    {
      ok := name in files;
      files := files - {name};
    }

    method RemoveAll()
      modifies this
      ensures files == map[]
    {
      files := map[];
    }

    method OpenCreating(name: FileName)
      modifies this
      ensures files == OpenOrCreate(old(files), name)
    {
      if name !in files {
        files := files[name := []];
      }
    }

    method Overwrite(name: FileName, data: seq<u8>)
      modifies this
      ensures files == WriteFromStart(old(files), name, data)
    {
      var was := if name in files then files[name] else [];
      files := files[name := data + (if |data| < |was| then was[|data|..] else [])];
    }
  }
}
