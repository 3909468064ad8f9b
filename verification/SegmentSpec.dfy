/** Values of the two kinds of segment: the growing one in memory and the flushed ones on disk. */
module SegmentSpec {
  import opened Base
  import opened Names
  import opened Records
  import opened Codec
  import opened Files

  datatype SegmentError =
    | TooLarge          // "Data to write is greater than the allowed max segment size"
    | WouldOverflow     // "Write not possible. Segment log would be greater than max bytes"
    | TooManyBytes      // "unable to convert from usize to u32"
    | OutOfBounds       // "offset is out of bounds"
    | NoEntry           // "unable to get entry details from index"
    | ShortRead         // "unable to read into buffer"
    | BadStem           // "unable to parse base string into u16"
    | FileTooLong       // "unable to convert from u64 to u32"
    | TooManyEntries    // "unable to load index"
    | MissingFile       // "unable to open log file"
    | NotDeleted        // "unable to delete log file", "unable to delete index file"

  type SegResult<+T> = Result<T, SegmentError>

  /** The in-memory index: entries, and the same entries as bytes. */
  datatype VIndex = VIndex(entries: seq<Entry>, contents: Cursor, name: FileName) {

    function AddEntry(start: u32, total: u32): VIndex {
      var e := Entry(start, total);
      VIndex(entries + [e], contents.Write(EncodeEntry(e)), name)
    }
  }

  /** The segment held in memory. */
  datatype VSeg = VSeg(contents: Cursor, position: u32, maxBytes: nat, start: u16, next: u16,
                       index: VIndex, logName: FileName) {

    function Write(d: Record): (VSeg, SegResult<u16>) {
      if |d| > maxBytes then
        (this, Failure(TooLarge))
      else if |contents.data| + |d| > maxBytes then
        (this, Failure(WouldOverflow))
      else if |d| >= TWO_32 then
        (this.(contents := contents.Write(d)), Failure(TooManyBytes))
      else
        (this.(contents := contents.Write(d),
               index := index.AddEntry(position, |d|),
               position := WrapAdd32(position, |d|),
               next := WrapAdd16(next, 1)),
         Success(next))
    }

    predicate PastEnd(k: nat) {
      (start == 0 && k >= next) || k >= WrapAdd16(next, start)
    }

    function ReadAt(k: nat): (VSeg, SegResult<Record>) {
      if PastEnd(k) then
        (this, Failure(OutOfBounds))
      else if |index.entries| <= k then
        (this, Failure(NoEntry))
      else
        var e := index.entries[k];
        var (c, bytes) := contents.ReadAt(e.start, e.total);
        (this.(contents := c), if bytes.Some? then Success(bytes.value) else Failure(ShortRead))
    }

    function Flush(files: FileMap): FileMap {
      var created := OpenOrCreate(files, logName);
      WriteFromStart(WriteFromStart(created, index.name, index.contents.data), logName, contents.data)
    }
  }

  function NewVSeg(maxBytes: nat, start: u16): VSeg {
    VSeg(Cursor([], 0), 0, maxBytes, start, 0,
         VIndex([], Cursor([], 0), IndexName(start)), LogName(start))
  }

  /** The bytes of the whole 8-byte chunks of an index file. */
  function WholeChunks(b: seq<u8>): seq<u8> {
    b[..|b| / 8 * 8]
  }

  /** Read a flushed segment back into memory; its next offset becomes absolute and its cursor 0. */
  function LoadVSeg(files: FileMap, start: u16, maxBytes: nat): SegResult<VSeg> {
    if LogName(start) !in files then
      Failure(MissingFile)
    else
      var bytes := files[LogName(start)];
      if |bytes| >= TWO_32 then
        Failure(FileTooLong)
      else if IndexName(start) !in files || |files[IndexName(start)]| / 8 >= TWO_16 then
        Failure(TooManyEntries)
      else
        var encoded := WholeChunks(files[IndexName(start)]);
        Success(VSeg(Cursor(bytes, 0), |bytes|, maxBytes, start,
                     WrapAdd16(|encoded| / 8, start),
                     VIndex(DecodeAll(encoded), Cursor(encoded, |encoded|), IndexName(start)),
                     LogName(start)))
  }

  /** A segment on disk: what is kept in memory about it. */
  datatype Segment = Segment(start: u16, next: u16, position: u32, entries: seq<Entry>,
                             logName: FileName, indexName: FileName) {

    predicate PastEnd(k: nat) {
      (start == 0 && k >= next) || k >= WrapSub16(next, start)
    }

    function ReadAt(files: FileMap, k: nat): SegResult<Record> {
      if PastEnd(k) then
        Failure(OutOfBounds)
      else if |entries| <= k then
        Failure(NoEntry)
      else
        var e := entries[k];
        var (_, bytes) := Cursor(Contents(files, logName), 0).ReadAt(e.start, e.total);
        if bytes.Some? then Success(bytes.value) else Failure(ShortRead)
    }

    /** Remove the log file, then the index file. */
    function Delete(files: FileMap): (FileMap, bool) {
      var rest := files - {logName};
      if logName !in files then (files, false)
      else if indexName !in rest then (rest, false)
      else (rest - {indexName}, true)
    }
  }

  /** Load the segment with the given file stem; missing files are created. */
  function LoadSegment(files: FileMap, stem: string): (FileMap, SegResult<Segment>) {
    var parsed := ParseU16(stem);
    if parsed.None? then
      (files, Failure(BadStem))
    else
      var start := parsed.value;
      var withLog := OpenOrCreate(files, LogName(start));
      var bytes := withLog[LogName(start)];
      if |bytes| >= TWO_32 then
        (withLog, Failure(FileTooLong))
      else
        var both := OpenOrCreate(withLog, IndexName(start));
        var es := DecodeAll(both[IndexName(start)]);
        if |es| >= TWO_16 then
          (both, Failure(TooManyEntries))
        else
          (both, Success(Segment(start, WrapAdd16(|es|, start), |bytes|, es,
                                 LogName(start), IndexName(start))))
  }

  // ---- what a segment holds ----

  /** The in-memory index tiles the records, and its bytes are the encoding of its entries. */
  ghost predicate IndexHolds(ix: VIndex, rs: seq<Record>) {
    && Tiles(ix.entries, rs)
    && ix.contents == Cursor(EncodeAll(ix.entries), 8 * |rs|)
  }

  /** The in-memory segment holds the records `rs` (its cursor anywhere within them). */
  ghost predicate VHolds(v: VSeg, rs: seq<Record>) {
    && v.contents.data == Flatten(rs)
    && v.contents.pos <= |v.contents.data|
    && v.position == |Flatten(rs)| <= v.maxBytes
    && v.next == |rs|
    && IndexHolds(v.index, rs)
    && v.index.name == IndexName(v.start)
    && v.logName == LogName(v.start)
  }

  /** The segment on disk holds the records `rs`, in memory and in its two files. */
  ghost predicate SHolds(files: FileMap, s: Segment, rs: seq<Record>) {
    && s.next == s.start + |rs|
    && s.position == |Flatten(rs)|
    && Tiles(s.entries, rs)
    && s.logName == LogName(s.start)
    && s.indexName == IndexName(s.start)
    && s.logName in files && files[s.logName] == Flatten(rs)
    && s.indexName in files && files[s.indexName] == EncodeAll(s.entries)
  }

  lemma NewHoldsNothing(maxBytes: nat, start: u16)
    ensures VHolds(NewVSeg(maxBytes, start), [])
  {
  }

  lemma AddEntryHolds(ix: VIndex, rs: seq<Record>, d: Record)
    requires IndexHolds(ix, rs) && |Flatten(rs)| + |d| < TWO_32
    ensures IndexHolds(ix.AddEntry(|Flatten(rs)|, |d|), rs + [d])
  {
    var e := Entry(|Flatten(rs)|, |d|);
    TilesSnoc(ix.entries, rs, d);
    EncodeSnoc(ix.entries, e);
    EncodeLength(ix.entries);
    WriteAtEndAppends(ix.contents, EncodeEntry(e));
  }

  /** What a write that fits does, when nothing is overwritten and no counter wraps. */
  lemma WriteAppends(v: VSeg, d: Record)
    requires |v.contents.data| + |d| <= v.maxBytes < TWO_32
    requires v.contents.AtEnd() || (d == [] && v.contents.pos <= |v.contents.data|)
    requires v.position + |d| < TWO_32 && v.next + 1 < TWO_16
    ensures v.Write(d) ==
            (VSeg(Cursor(v.contents.data + d, v.contents.pos + |d|), v.position + |d|, v.maxBytes,
                  v.start, v.next + 1, v.index.AddEntry(v.position, |d|), v.logName),
             Success(v.next))
  {
    SafeWrite(v.contents, d);
  }

  /**
   * Tiling and conservation: a record that fits, written with the cursor at the end, is added
   * after the ones already there and nothing else changes; the cursor is at the end again.
   */
  lemma WriteHolds(v: VSeg, rs: seq<Record>, d: Record)
    requires VHolds(v, rs) && v.maxBytes < TWO_32
    requires v.contents.AtEnd() || d == []
    requires |Flatten(rs)| + |d| <= v.maxBytes && |rs| + 1 < TWO_16
    ensures var (v', r) := v.Write(d);
            && r == Success(|rs|)
            && VHolds(v', rs + [d])
            && v'.contents.pos == v.contents.pos + |d|
            && v'.start == v.start && v'.maxBytes == v.maxBytes
  {
    hide Flatten;
    hide IndexHolds;
    hide VSeg.Write;
    FlattenSnoc(rs, d);
    AddEntryHolds(v.index, rs, d);
    WriteAppends(v, d);
  }

  /** A write with the cursor at the end, or of no bytes, appends. */
  lemma SafeWrite(c: Cursor, d: seq<u8>)
    requires c.AtEnd() || (d == [] && c.pos <= |c.data|)
    ensures c.Write(d) == Cursor(c.data + d, c.pos + |d|)
  {
    if c.AtEnd() {
      WriteAtEndAppends(c, d);
    } else {
      assert c.data[..c.pos] + [] + c.data[c.pos..] == c.data;
    }
  }

  /** Reading a record by its index entry gives the record's bytes and leaves the cursor after it. */
  lemma {:induction false} ReadRecord(c: Cursor, es: seq<Entry>, rs: seq<Record>, k: nat)
    requires c.data == Flatten(rs) && Tiles(es, rs) && k < |rs|
    ensures Offset(rs, k + 1) <= |c.data|
    ensures c.ReadAt(es[k].start, es[k].total) == (c.(pos := Offset(rs, k + 1)), Some(rs[k]))
  {
    FlattenAt(rs, k);
  }

  /**
   * Reading the in-memory segment: exactly the records come back, each at its index. A read past
   * the end fails before the cursor moves; it is reported as out of bounds only when the index
   * also reaches past `next + start`.
   */
  lemma VReadHolds(v: VSeg, rs: seq<Record>, k: nat)
    requires VHolds(v, rs) && v.start + |rs| < TWO_16
    ensures k < |rs| ==>
              v.ReadAt(k) == (v.(contents := v.contents.(pos := Offset(rs, k + 1))), Success(rs[k]))
    ensures k >= |rs| ==>
              v.ReadAt(k) == (v, Failure(if v.start == 0 || k >= v.start + |rs| then OutOfBounds else NoEntry))
    ensures VHolds(v.ReadAt(k).0, rs)
  {
    hide Flatten;
    hide EncodeAll;
    hide Cursor.ReadAt;
    if k < |rs| {
      ReadRecord(v.contents, v.index.entries, rs, k);
    }
  }

  /** Reading a segment on disk: the records come back, and every other index is out of bounds. */
  lemma SReadHolds(files: FileMap, s: Segment, rs: seq<Record>, k: nat)
    requires SHolds(files, s, rs)
    ensures s.ReadAt(files, k) == if k < |rs| then Success(rs[k]) else Failure(OutOfBounds)
  {
    hide Flatten;
    hide EncodeAll;
    hide Cursor.ReadAt;
    if k < |rs| {
      ReadRecord(Cursor(files[s.logName], 0), s.entries, rs, k);
    }
  }

  lemma NamesDiffer(a: u16, b: u16)
    ensures LogName(a) != IndexName(b)
    ensures a != b ==> LogName(a) != LogName(b) && IndexName(a) != IndexName(b)
  {
    if a != b && Stem(a) == Stem(b) {
      StemInjective(a, b);
    }
  }

  /** Flushing under a fresh name adds exactly the two files of the segment. */
  lemma FlushFresh(v: VSeg, files: FileMap)
    requires v.index.name == IndexName(v.start) && v.logName == LogName(v.start)
    requires LogName(v.start) !in files && IndexName(v.start) !in files
    ensures v.Flush(files) ==
            files[LogName(v.start) := v.contents.data][IndexName(v.start) := v.index.contents.data]
  {
    var ln, ixn := LogName(v.start), IndexName(v.start);
    var created := OpenOrCreate(files, ln);
    var withIndex := WriteFromStart(created, ixn, v.index.contents.data);
    WriteFresh(created, ixn, v.index.contents.data);
    WriteFresh(withIndex, ln, v.contents.data);
    assert v.Flush(files) == files[ln := v.contents.data][ixn := v.index.contents.data];
  }

  /** What loading a segment gives, from the two files it finds. */
  lemma {:induction false} LoadPresent(files: FileMap, start: u16, es: seq<Entry>)
    requires LogName(start) in files && |files[LogName(start)]| < TWO_32
    requires IndexName(start) in files && files[IndexName(start)] == EncodeAll(es)
    requires |es| < TWO_16
    ensures LoadSegment(files, Stem(start)) ==
            (files, Success(Segment(start, WrapAdd16(|es|, start), |files[LogName(start)]|, es,
                                    LogName(start), IndexName(start))))
  {
    ParseStem(start);
    DecodeEncoded(es);
    assert OpenOrCreate(files, LogName(start)) == files;
    assert OpenOrCreate(files, IndexName(start)) == files;
  }

  /** What the two files of a flushed segment hold. */
  ghost predicate FilesHold(files: FileMap, start: u16, es: seq<Entry>, rs: seq<Record>) {
    && Tiles(es, rs)
    && LogName(start) in files && files[LogName(start)] == Flatten(rs)
    && IndexName(start) in files && files[IndexName(start)] == EncodeAll(es)
  }

  lemma FlushFiles(v: VSeg, rs: seq<Record>, files: FileMap)
    requires VHolds(v, rs)
    requires LogName(v.start) !in files && IndexName(v.start) !in files
    ensures FilesHold(v.Flush(files), v.start, v.index.entries, rs)
  {
    FlushFresh(v, files);
  }

  lemma LoadFiles(files: FileMap, start: u16, es: seq<Entry>, rs: seq<Record>)
    requires FilesHold(files, start, es, rs) && start + |rs| < TWO_16 && |Flatten(rs)| < TWO_32
    ensures var s := Segment(start, start + |rs|, |Flatten(rs)|, es, LogName(start), IndexName(start));
            LoadSegment(files, Stem(start)) == (files, Success(s)) && SHolds(files, s, rs)
  {
    hide Flatten;
    hide EncodeAll;
    hide LoadSegment;
    LoadPresent(files, start, es);
  }

  /**
   * Flush then load: a segment flushed under a fresh name and loaded from disk holds the same
   * records, and its next offset is absolute.
   */
  lemma FlushLoad(v: VSeg, rs: seq<Record>, files: FileMap)
    requires VHolds(v, rs) && v.start + |rs| < TWO_16
    requires LogName(v.start) !in files && IndexName(v.start) !in files
    ensures var files' := v.Flush(files);
            var s := Segment(v.start, v.start + |rs|, |Flatten(rs)|, v.index.entries,
                             LogName(v.start), IndexName(v.start));
            LoadSegment(files', Stem(v.start)) == (files', Success(s)) && SHolds(files', s, rs)
  {
    assert |Flatten(rs)| < TWO_32;
    hide *;
    FlushFiles(v, rs, files);
    LoadFiles(v.Flush(files), v.start, v.index.entries, rs);
  }

  /** A segment is determined by where it starts, what it holds and the files. */
  lemma LoadHolds(files: FileMap, s: Segment, rs: seq<Record>)
    requires SHolds(files, s, rs) && s.start + |rs| < TWO_16
    ensures LoadSegment(files, Stem(s.start)) == (files, Success(s))
  {
    assert FilesHold(files, s.start, s.entries, rs);
    assert s == Segment(s.start, s.start + |rs|, |Flatten(rs)|, s.entries, LogName(s.start), IndexName(s.start));
    assert |Flatten(rs)| < TWO_32;
    hide *;
    LoadFiles(files, s.start, s.entries, rs);
  }

  /** The same bytes are read from disk as from memory, at every index that memory has. */
  lemma FlushKeepsReads(v: VSeg, rs: seq<Record>, files: FileMap, k: nat)
    requires VHolds(v, rs) && v.start + |rs| < TWO_16
    requires LogName(v.start) !in files && IndexName(v.start) !in files
    ensures var files' := v.Flush(files);
            var loaded := LoadSegment(files', Stem(v.start)).1;
            && loaded.Success?
            && loaded.value.next == v.start + v.next
            && (k < |rs| ==> loaded.value.ReadAt(files', k) == v.ReadAt(k).1 == Success(rs[k]))
            && (k >= |rs| ==> loaded.value.ReadAt(files', k).Failure? && v.ReadAt(k).1.Failure?)
  {
    FlushLoad(v, rs, files);
    var files' := v.Flush(files);
    SReadHolds(files', LoadSegment(files', Stem(v.start)).1.value, rs, k);
    VReadHolds(v, rs, k);
  }

  /**
   * The two loaders agree on every pair of files, well-formed or not: they succeed together, with
   * the same entries, the same next offset and the same size. The in-memory index also keeps the
   * bytes of exactly those entries, ready for more; the cursor of the records is at the start.
   */
  lemma LoadersAgree(files: FileMap, start: u16, maxBytes: nat)
    requires LogName(start) in files && IndexName(start) in files
    ensures var disk, memory := LoadSegment(files, Stem(start)).1, LoadVSeg(files, start, maxBytes);
            && (disk.Success? <==> memory.Success?)
            && (disk.Success? ==>
                  && disk.value.entries == memory.value.index.entries
                  && disk.value.next == memory.value.next
                  && disk.value.position == memory.value.position == |memory.value.contents.data|
                  && memory.value.index.contents.data == EncodeAll(disk.value.entries)
                  && memory.value.index.contents.AtEnd() && memory.value.contents.pos == 0)
  {
    hide DecodeEntry;
    ParseStem(start);
    var file := files[IndexName(start)];
    assert OpenOrCreate(files, LogName(start)) == files;
    assert OpenOrCreate(files, IndexName(start)) == files;
    DecodeTorn(file, |file| / 8 * 8);
    EncodeDecoded(file, |file| / 8 * 8);
  }

  // ---- what holds of any segment ----

  /** How a write fails: for its size alone, for the room left, or for a length that is no 32-bit number. */
  lemma WriteFails(v: VSeg, d: Record)
    ensures v.Write(d).1 == Failure(TooLarge) <==> |d| > v.maxBytes
    ensures v.Write(d).1 == Failure(WouldOverflow) <==> |d| <= v.maxBytes < |v.contents.data| + |d|
    ensures v.Write(d).1 == Failure(TooManyBytes) <==> TWO_32 <= |d| && |v.contents.data| + |d| <= v.maxBytes
    ensures v.Write(d).1 == Success(v.next) <==> |d| < TWO_32 && |v.contents.data| + |d| <= v.maxBytes
    ensures |v.contents.data| + |d| > v.maxBytes ==> v.Write(d).0 == v
    ensures v.Write(d).1 == Failure(TooManyBytes) ==> v.Write(d).0 == v.(contents := v.contents.Write(d))
  {
  }

  /** The byte at `i` after new bytes are written over the start of old ones. */
  function OverlaidAt(was: seq<u8>, data: seq<u8>, i: nat): u8
    requires i < |was| || i < |data|
  {
    if i < |data| then data[i] else was[i]
  }

  /** A file after a write from its start: as long as the longer, the new bytes first, the old ones after them. */
  ghost predicate IsOverlaid(now: seq<u8>, was: seq<u8>, data: seq<u8>) {
    && |now| == Max(|was|, |data|)
    && forall i :: 0 <= i < |now| ==> now[i] == OverlaidAt(was, data, i)
  }

  /**
   * A flush, for every segment and every directory: it does not truncate. Each of the two files is
   * overlaid with the bytes in memory, and no other file changes.
   */
  lemma FlushExact(v: VSeg, files: FileMap)
    requires v.logName != v.index.name
    ensures var files' := v.Flush(files);
            && files'.Keys == files.Keys + {v.logName, v.index.name}
            && (forall f <- files :: f != v.logName && f != v.index.name ==> files'[f] == files[f])
            && IsOverlaid(files'[v.logName], Contents(files, v.logName), v.contents.data)
            && IsOverlaid(files'[v.index.name], Contents(files, v.index.name), v.index.contents.data)
  {
    var created := OpenOrCreate(files, v.logName);
    var indexed := WriteFromStart(created, v.index.name, v.index.contents.data);
    var files' := v.Flush(files);
    assert Contents(indexed, v.logName) == Contents(files, v.logName);
    forall i: nat
      ensures i < |files'[v.logName]| ==>
                files'[v.logName][i] == OverlaidAt(Contents(files, v.logName), v.contents.data, i)
      ensures i < |files'[v.index.name]| ==>
                files'[v.index.name][i] == OverlaidAt(Contents(files, v.index.name), v.index.contents.data, i)
    {
      WriteFromStartExact(created, v.index.name, v.index.contents.data, i);
      WriteFromStartExact(indexed, v.logName, v.contents.data, i);
    }
    WriteFromStartExact(created, v.index.name, v.index.contents.data, 0);
    WriteFromStartExact(indexed, v.logName, v.contents.data, 0);
  }

  /**
   * Flushing over the log file of a segment that is already loaded: a record of that segment reads
   * as the flushed bytes as far as they go, and as its own bytes after them.
   */
  lemma FlushOverReads(v: VSeg, files: FileMap, s: Segment, k: nat)
    requires v.logName != v.index.name && s.logName == v.logName
    requires !s.PastEnd(k) && k < |s.entries|
    requires s.entries[k].start + s.entries[k].total <= |Contents(files, s.logName)|
    ensures var e, r := s.entries[k], s.ReadAt(v.Flush(files), k);
            && r.Success? && |r.value| == e.total
            && forall i :: 0 <= i < e.total ==>
                 r.value[i] == OverlaidAt(Contents(files, s.logName), v.contents.data, e.start + i)
  {
    hide VSeg.Flush;
    FlushExact(v, files);
  }

  /** Loading changes no byte of any file, and can only make the two files of the segment, empty. */
  lemma LoadKeepsFiles(files: FileMap, stem: string)
    ensures var (files', r) := LoadSegment(files, stem);
            && (forall f <- files :: f in files' && files'[f] == files[f])
            && (ParseU16(stem).None? ==> files' == files && r == Failure(BadStem))
            && (ParseU16(stem).Some? ==>
                  var start := ParseU16(stem).value;
                  && (forall f <- files' :: f !in files ==> files'[f] == [] && f in {LogName(start), IndexName(start)})
                  && LogName(start) in files'
                  && (IndexName(start) in files' <==>
                        IndexName(start) in files || |Contents(files, LogName(start))| < TWO_32))
  {
    hide DecodeAll;
  }

  /** What loading answers for any stem that is a number: a missing file counts as an empty one. */
  lemma LoadAnswers(files: FileMap, stem: string)
    requires ParseU16(stem).Some?
    ensures var start, r := ParseU16(stem).value, LoadSegment(files, stem).1;
            var bytes, index := Contents(files, LogName(start)), Contents(files, IndexName(start));
            && (r.Success? <==> |bytes| < TWO_32 && |index| / 8 < TWO_16)
            && (r.Success? ==>
                  && r.value.start == start
                  && r.value.next == (start + |index| / 8) % TWO_16
                  && r.value.position == |bytes|
                  && |r.value.entries| == |index| / 8
                  && EncodeAll(r.value.entries) == index[..|index| / 8 * 8]
                  && r.value.logName == LogName(start) && r.value.indexName == IndexName(start))
  {
    hide DecodeAll;
    var start := ParseU16(stem).value;
    var index := Contents(files, IndexName(start));
    NamesDiffer(start, start);
    EncodeDecoded(index, |index| / 8 * 8);
    DecodeTorn(index, |index| / 8 * 8);
  }

  /** Loading a pair of files named by five digits leaves the directory as it was. */
  lemma LoadFiveDigits(files: FileMap, stem: string)
    requires IsFiveDigits(stem) && FileName(stem, LogExt) in files && FileName(stem, IndexExt) in files
    ensures LoadSegment(files, stem).0 == files
    ensures ParseU16(stem) == Some(DigitsValue(stem)) && Stem(DigitsValue(stem)) == stem
  {
    hide DecodeAll;
    var start := DigitsValue(stem);
    StemExact(start, stem);
    ParseStem(start);
    assert OpenOrCreate(files, LogName(start)) == files;
    assert OpenOrCreate(files, IndexName(start)) == files;
  }

  /** When the segment in memory cannot be loaded, and why. */
  lemma VLoadAnswers(files: FileMap, start: u16, maxBytes: nat)
    ensures var r := LoadVSeg(files, start, maxBytes);
            var bytes, index := Contents(files, LogName(start)), Contents(files, IndexName(start));
            && (r == Failure(MissingFile) <==> LogName(start) !in files)
            && (r == Failure(FileTooLong) <==> LogName(start) in files && |bytes| >= TWO_32)
            && (r == Failure(TooManyEntries) <==>
                  LogName(start) in files && |bytes| < TWO_32
                  && (IndexName(start) !in files || |index| / 8 >= TWO_16))
            && (r.Failure? ==> r.error in {MissingFile, FileTooLong, TooManyEntries})
            && (r.Success? ==> r.value.start == start && r.value.maxBytes == maxBytes)
  {
  }
}
