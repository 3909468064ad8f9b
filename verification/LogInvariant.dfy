/** What a log holds: the invariant that ties the layered state to the history of appended records. */
module LogInvariant {
  import opened Base
  import opened Names
  import opened Records
  import opened Files
  import opened SegmentSpec
  import opened CleanerSpec
  import opened ScanSpec
  import opened LogSpec

  /** The segment holds its own range of the history. */
  ghost predicate HoldsRange(files: FileMap, s: Segment, hist: seq<Record>) {
    && s.start < s.next <= |hist|
    && SHolds(files, s, hist[s.start..s.next])
  }

  function NextStart(segs: seq<Segment>, i: nat, end: nat): nat
    requires i < |segs|
  {
    if i + 1 < |segs| then segs[i + 1].start else end
  }

  /** The segments follow one another without gap or overlap, and the last one stops at `end`. */
  ghost predicate Linked(segs: seq<Segment>, end: nat) {
    && (forall i, j :: 0 <= i < j < |segs| ==> segs[i].next <= segs[j].start)
    && (forall i {:trigger NextStart(segs, i, end)} :: 0 <= i < |segs| ==>
          segs[i].next == NextStart(segs, i, end))
  }

  /**
   * The log holds the history: the current segment holds its tail, the disk segments tile what is
   * retained of the rest, and the directory contains their file pairs and nothing else.
   */
  ghost predicate Inv(log: Log, hist: seq<Record>) {
    && log.maxSize < TWO_32 && |hist| < TWO_16
    && log.cur.maxBytes == log.maxSize
    && log.cur.start <= |hist|
    && VHolds(log.cur, hist[log.cur.start..])
    && Linked(log.segments, log.cur.start)
    && (forall i :: 0 <= i < |log.segments| ==> HoldsRange(log.files, log.segments[i], hist))
    && (log.segments == [] ==> log.cur.start == 0)
    && log.files.Keys == AllFileNames(log.segments)
  }

  lemma NewLogHoldsNothing(maxSize: nat, retention: nat, listing: seq<FileName>)
    requires IsListing(listing, map[])
    ensures Open(map[], listing, maxSize, retention) ==
            Success(Log(map[], [], retention, maxSize, NewVSeg(maxSize, 0)))
    ensures maxSize < TWO_32 ==> Inv(Log(map[], [], retention, maxSize, NewVSeg(maxSize, 0)), [])
  {
    ListedExists(listing, map[]);
  }

  lemma ListedExists(listing: seq<FileName>, files: FileMap)
    requires IsListing(listing, files)
    ensures listing != [] ==> |files| > 0
  {
    if listing != [] {
      assert listing[0] in listing;
      assert listing[0] in files.Keys;
    }
  }

  /** What each segment needs of the others: it ends before the next ones start. */
  lemma LinkedBounds(segs: seq<Segment>, end: nat, i: nat)
    requires Linked(segs, end) && i < |segs|
    requires forall j :: 0 <= j < |segs| ==> segs[j].start < segs[j].next
    ensures segs[i].next <= end
    ensures forall j :: i < j < |segs| ==> segs[i].start < segs[j].start
  {
    var last := |segs| - 1;
    assert NextStart(segs, last, end) == end;
  }

  /** The counters of the current segment. */
  lemma CurFacts(log: Log, hist: seq<Record>)
    requires Inv(log, hist)
    ensures log.cur.position == |log.cur.contents.data| <= log.cur.maxBytes == log.maxSize < TWO_32
    ensures log.cur.start + log.cur.next == |hist| < TWO_16
    ensures |log.cur.index.entries| == log.cur.next
    ensures log.cur.contents.pos <= |log.cur.contents.data|
  {
    hide SHolds;
  }

  lemma InvLinked(log: Log, hist: seq<Record>)
    requires Inv(log, hist)
    ensures Linked(log.segments, log.cur.start)
  {
    hide SHolds;
    hide VHolds;
  }

  // ---- names and files ----

  lemma {:induction false} AllFileNamesConcat(a: seq<Segment>, b: seq<Segment>)
    ensures AllFileNames(a + b) == AllFileNames(a) + AllFileNames(b)
  {
    if a == [] {
      assert a + b == b;
    } else {
      AllFileNamesConcat(a[1..], b);
      assert (a + b)[1..] == a[1..] + b;
    }
  }

  /** In a log, every segment's files exist and no two segments share a file. */
  lemma InvFilesPresent(log: Log, hist: seq<Record>)
    requires Inv(log, hist)
    ensures FilesPresent(log.files, log.segments)
  {
    var segs := log.segments;
    forall i | 0 <= i < |segs| ensures OwnsFiles(log.files, segs[i]) {
      assert HoldsRange(log.files, segs[i], hist);
    }
    forall i, j | 0 <= i < j < |segs| ensures NoSharedFile(segs[i], segs[j]) {
      assert HoldsRange(log.files, segs[i], hist) && HoldsRange(log.files, segs[j], hist);
      NamesDiffer(segs[i].start, segs[j].start);
    }
  }

  /** The directory holds the canonically named pairs of the segments, and nothing else. */
  ghost predicate Named(files: FileMap, segs: seq<Segment>) {
    && files.Keys == AllFileNames(segs)
    && forall i :: 0 <= i < |segs| ==> FileNames(segs[i]) == {LogName(segs[i].start), IndexName(segs[i].start)}
  }

  lemma InvNamed(log: Log, hist: seq<Record>)
    requires Inv(log, hist)
    ensures Named(log.files, log.segments)
  {
    forall i | 0 <= i < |log.segments|
      ensures FileNames(log.segments[i]) == {LogName(log.segments[i].start), IndexName(log.segments[i].start)}
    {
      assert HoldsRange(log.files, log.segments[i], hist);
    }
  }

  /** The names of a segment that is not loaded are not in the directory. */
  lemma FreshName(files: FileMap, segs: seq<Segment>, start: u16)
    requires Named(files, segs)
    requires forall i :: 0 <= i < |segs| ==> segs[i].start != start
    ensures LogName(start) !in files && IndexName(start) !in files
  {
    forall f | f == LogName(start) || f == IndexName(start) ensures f !in files {
      AllFileNamesAre(segs, f);
      if i :| 0 <= i < |segs| && f in FileNames(segs[i]) {
        NamesDiffer(start, segs[i].start);
      }
    }
  }

  /** Every segment file in the directory belongs to the pair of a loaded segment. */
  lemma PairIsLoaded(files: FileMap, segs: seq<Segment>, f: FileName)
    requires Named(files, segs) && f in files
    ensures IsPair(f.stem, files) && IsSegmentFile(f)
    ensures ParseU16(f.stem).Some? && IsLoaded(segs, ParseU16(f.stem).value)
    ensures exists i :: 0 <= i < |segs| && f.stem == Stem(segs[i].start)
  {
    AllFileNamesAre(segs, f);
    var i :| 0 <= i < |segs| && f in FileNames(segs[i]);
    AllFileNamesAre(segs, LogName(segs[i].start));
    AllFileNamesAre(segs, IndexName(segs[i].start));
    ParseStem(segs[i].start);
    assert segs[i] in segs;
  }

  // ---- reloading ----

  lemma {:induction false} NewStemsNone(stems: seq<string>, segs: seq<Segment>)
    requires forall s <- stems :: ParseU16(s).Some? && IsLoaded(segs, ParseU16(s).value)
    ensures NewStems(stems, segs) == []
  {
    if stems != [] {
      assert stems[0] in stems;
      assert forall s <- stems[1..] :: s in stems;
      NewStemsNone(stems[1..], segs);
    }
  }

  lemma {:induction false} NewStemsOne(stems: seq<string>, segs: seq<Segment>, x: string)
    requires forall s <- stems :: ParseU16(s).Some?
    requires forall s <- stems :: IsLoaded(segs, ParseU16(s).value) <==> s != x
    requires Distinct(stems) && x in stems
    ensures NewStems(stems, segs) == [x]
  {
    var rest := stems[1..];
    assert stems == [stems[0]] + rest;
    assert forall s <- rest :: s in stems;
    if stems[0] == x {
      NewStemsNone(rest, segs);
    } else {
      NewStemsOne(rest, segs, x);
    }
  }

  /** Between appends, reloading changes nothing, in whatever order the directory is listed. */
  lemma ReloadChangesNothing(log: Log, hist: seq<Record>, listing: seq<FileName>)
    requires Inv(log, hist) && IsListing(listing, log.files)
    ensures Reload(log, listing) == Success(log)
  {
    var stems := ReloadStems(listing);
    ScansAgree(listing, listing, log.files);
    InvNamed(log, hist);
    forall s | s in stems ensures ParseU16(s).Some? && IsLoaded(log.segments, ParseU16(s).value) {
      PairIsLoaded(log.files, log.segments, FileName(s, LogExt));
    }
    NewStemsNone(stems, log.segments);
    assert log.segments + [] == log.segments;
  }

  // ---- splitting ----

  /** Between flushing the current segment and loading it, exactly its pair is new. */
  lemma FlushedStems(log: Log, hist: seq<Record>, listing: seq<FileName>)
    requires Inv(log, hist) && log.cur.start < |hist|
    requires IsListing(listing, log.cur.Flush(log.files))
    ensures forall s <- ReloadStems(listing) :: ParseU16(s).Some?
    ensures NewStems(ReloadStems(listing), log.segments) == [Stem(log.cur.start)]
  {
    var stems, x := ReloadStems(listing), Stem(log.cur.start);
    CurIsFresh(log, hist);
    InvNamed(log, hist);
    FlushFresh(log.cur, log.files);
    var files' := log.cur.Flush(log.files);
    ScansAgree(listing, listing, files');
    ParseStem(log.cur.start);
    assert IsPair(x, files');
    forall s | s in stems
      ensures ParseU16(s).Some? && (IsLoaded(log.segments, ParseU16(s).value) <==> s != x)
    {
      if s != x {
        assert FileName(s, LogExt) in log.files;
        PairIsLoaded(log.files, log.segments, FileName(s, LogExt));
      }
    }
    NewStemsOne(stems, log.segments, x);
  }

  lemma CurIsFresh(log: Log, hist: seq<Record>)
    requires Inv(log, hist)
    ensures LogName(log.cur.start) !in log.files && IndexName(log.cur.start) !in log.files
    ensures forall i :: 0 <= i < |log.segments| ==> log.segments[i].start < log.cur.start
    ensures !IsLoaded(log.segments, log.cur.start)
  {
    InvNamed(log, hist);
    forall i | 0 <= i < |log.segments| ensures log.segments[i].start < log.cur.start {
      SegmentsBelow(log, hist, i);
    }
    FreshName(log.files, log.segments, log.cur.start);
  }

  lemma SegmentsBelow(log: Log, hist: seq<Record>, i: nat)
    requires Inv(log, hist) && i < |log.segments|
    ensures log.segments[i].start < log.segments[i].next <= log.cur.start
    ensures forall j :: i < j < |log.segments| ==> log.segments[i].start < log.segments[j].start
  {
    forall j | 0 <= j < |log.segments| ensures log.segments[j].start < log.segments[j].next {
      assert HoldsRange(log.files, log.segments[j], hist);
    }
    LinkedBounds(log.segments, log.cur.start, i);
  }

  /** The disk segment that flushing the current segment makes. */
  function Flushed(v: VSeg): Segment {
    Segment(v.start, WrapAdd16(v.start, v.next), v.position, v.index.entries,
            LogName(v.start), IndexName(v.start))
  }

  function AfterSplit(log: Log): Log {
    Log(log.cur.Flush(log.files), log.segments + [Flushed(log.cur)], log.retention, log.maxSize,
        NewVSeg(log.maxSize, WrapAdd16(log.cur.start, log.cur.next)))
  }

  /** Splitting moves the current segment to disk, in whatever order the directory is listed. */
  lemma SplitMoves(log: Log, hist: seq<Record>, listing: seq<FileName>)
    requires Inv(log, hist) && log.cur.start < |hist|
    requires IsListing(listing, log.cur.Flush(log.files))
    ensures Reload(AfterSplit(log).(segments := log.segments), listing) == Success(AfterSplit(log))
    ensures SHolds(log.cur.Flush(log.files), Flushed(log.cur), hist[log.cur.start..])
  {
    var files' := log.cur.Flush(log.files);
    var s := Flushed(log.cur);
    CurFlushed(log, hist);
    hide VSeg.Flush;
    hide LoadSegment;
    hide Inv;
    hide SHolds;
    hide Flushed;
    FlushedStems(log, hist, listing);
    LoadOne(files', Stem(log.cur.start));
  }

  lemma FlushedIs(log: Log, hist: seq<Record>)
    requires Inv(log, hist)
    ensures var v, rs := log.cur, hist[log.cur.start..];
            && VHolds(v, rs) && v.start + |rs| < TWO_16
            && Flushed(v) == Segment(v.start, v.start + |rs|, |Flatten(rs)|, v.index.entries,
                                     LogName(v.start), IndexName(v.start))
  {
    hide SHolds;
  }

  lemma CurFlushed(log: Log, hist: seq<Record>)
    requires Inv(log, hist) && log.cur.start < |hist|
    ensures var files' := log.cur.Flush(log.files);
            && LoadSegment(files', Stem(log.cur.start)) == (files', Success(Flushed(log.cur)))
            && SHolds(files', Flushed(log.cur), hist[log.cur.start..])
  {
    hide Inv;
    hide VHolds;
    hide SHolds;
    hide VSeg.Flush;
    hide LoadSegment;
    hide Flushed;
    hide Flatten;
    CurIsFresh(log, hist);
    FlushedIs(log, hist);
    FlushLoad(log.cur, hist[log.cur.start..], log.files);
  }

  lemma LoadOne(files: FileMap, stem: string)
    requires LoadSegment(files, stem).1.Success?
    ensures LoadAll(files, [stem]) ==
            (LoadSegment(files, stem).0, Success([LoadSegment(files, stem).1.value]))
  {
    hide LoadSegment;
    var (f, r) := LoadSegment(files, stem);
    assert [stem][1..] == [];
    assert LoadAll(f, []) == (f, Success([]));
    assert [r.value] + [] == [r.value];
  }

  /** A disk segment goes on holding its range while its files stay and the history grows. */
  lemma HoldsFrame(files: FileMap, files': FileMap, s: Segment,
                   hist: seq<Record>, hist': seq<Record>)
    requires HoldsRange(files, s, hist) && hist <= hist'
    requires s.logName in files' && files'[s.logName] == files[s.logName]
    requires s.indexName in files' && files'[s.indexName] == files[s.indexName]
    ensures HoldsRange(files', s, hist')
  {
    assert hist'[s.start..s.next] == hist[s.start..s.next];
  }

  /** Flushing the current segment leaves the files of the others alone. */
  lemma FlushKeepsSegment(log: Log, hist: seq<Record>, i: nat)
    requires Inv(log, hist) && i < |log.segments|
    ensures HoldsRange(log.cur.Flush(log.files), log.segments[i], hist)
  {
    var s := log.segments[i];
    var files' := log.cur.Flush(log.files);
    assert HoldsRange(log.files, s, hist);
    CurIsFresh(log, hist);
    FlushFresh(log.cur, log.files);
    NamesDiffer(log.cur.start, s.start);
    NamesDiffer(s.start, log.cur.start);
    assert s.logName in files' && files'[s.logName] == log.files[s.logName];
    assert s.indexName in files' && files'[s.indexName] == log.files[s.indexName];
    hide *;
    HoldsFrame(log.files, files', s, hist, hist);
  }

  lemma FlushNames(log: Log, hist: seq<Record>)
    requires Inv(log, hist)
    ensures log.cur.Flush(log.files).Keys == AllFileNames(log.segments + [Flushed(log.cur)])
  {
    CurIsFresh(log, hist);
    FlushFresh(log.cur, log.files);
    AllFileNamesConcat(log.segments, [Flushed(log.cur)]);
    assert AllFileNames([Flushed(log.cur)]) == FileNames(Flushed(log.cur));
  }

  lemma SplitLinks(log: Log, hist: seq<Record>)
    requires Inv(log, hist)
    ensures Linked(log.segments + [Flushed(log.cur)], log.cur.start + log.cur.next)
    ensures log.cur.start + log.cur.next == |hist|
  {
    hide Inv;
    CurFacts(log, hist);
    InvLinked(log, hist);
    forall j | 0 <= j < |log.segments| ensures log.segments[j].start < log.segments[j].next {
      SegmentsBelow(log, hist, j);
    }
    LinkedSnoc(log.segments, log.cur.start, Flushed(log.cur));
  }

  lemma AfterSplitInv(log: Log, hist: seq<Record>)
    requires Inv(log, hist) && log.cur.start < |hist|
    ensures Inv(AfterSplit(log), hist)
  {
    hide VSeg.Flush;
    hide LoadSegment;
    hide SHolds;
    hide VHolds;
    hide Linked;
    hide AllFileNames;
    hide Flatten;
    var after := AfterSplit(log);
    var s := Flushed(log.cur);
    SplitLinks(log, hist);
    FlushNames(log, hist);
    CurFlushed(log, hist);
    assert hist[|hist|..] == [];
    NewHoldsNothing(log.maxSize, |hist|);
    assert hist[s.start..s.next] == hist[log.cur.start..];
    forall i | 0 <= i < |after.segments| ensures HoldsRange(after.files, after.segments[i], hist) {
      if i < |log.segments| {
        FlushKeepsSegment(log, hist, i);
      }
    }
  }

  lemma LinkedSnoc(segs: seq<Segment>, end: nat, s: Segment)
    requires Linked(segs, end) && s.start == end
    requires forall j :: 0 <= j < |segs| ==> segs[j].start < segs[j].next
    ensures Linked(segs + [s], s.next)
  {
    var all := segs + [s];
    forall i, j | 0 <= i < j < |all| ensures all[i].next <= all[j].start {
      LinkedBounds(segs, end, i);
    }
    forall i {:trigger NextStart(all, i, s.next)} | 0 <= i < |all|
      ensures all[i].next == NextStart(all, i, s.next)
    {
      if i < |segs| {
        assert segs[i].next == NextStart(segs, i, end);
      }
    }
  }

  /**
   * No counter wraps: on a log that holds its history with room for one more record, every sum
   * and difference of offsets, sizes and positions that the operations compute fits its type.
   */
  lemma NothingWraps(log: Log, hist: seq<Record>, d: Record)
    requires Inv(log, hist) && |hist| + 1 < TWO_16 && |d| <= log.maxSize
    ensures WrapAdd16(log.cur.start, log.cur.next) == log.cur.start + log.cur.next == |hist|
    ensures WrapAdd16(log.cur.next, 1) == log.cur.next + 1
    ensures |log.cur.contents.data| + |d| <= log.maxSize ==>
              WrapAdd32(log.cur.position, |d|) == log.cur.position + |d| <= log.maxSize
    ensures forall i :: 0 <= i < |log.segments| ==>
              var s := log.segments[i];
              && WrapSub16(s.next, s.start) == s.next - s.start == |s.entries|
              && WrapAdd16(|s.entries|, s.start) == s.next
  {
    hide Inv;
    CurFacts(log, hist);
    forall i | 0 <= i < |log.segments|
      ensures log.segments[i].next == log.segments[i].start + |log.segments[i].entries|
    {
      SegmentCount(log, hist, i);
    }
  }

  lemma SegmentCount(log: Log, hist: seq<Record>, i: nat)
    requires Inv(log, hist) && i < |log.segments|
    ensures log.segments[i].next == log.segments[i].start + |log.segments[i].entries|
  {
    hide Flatten;
    hide VHolds;
    assert HoldsRange(log.files, log.segments[i], hist);
  }
}
