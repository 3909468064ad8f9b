/** The layered log refines a plain sequence of records: one append, one read, and whole runs. */
module LogRefinement {
  import opened Base
  import opened Names
  import opened Records
  import opened Files
  import opened SegmentSpec
  import opened CleanerSpec
  import opened LogSpec
  import opened LogInvariant

  // ---- cleaning ----

  lemma LinkedSuffix(segs: seq<Segment>, end: nat, k: nat)
    requires Linked(segs, end) && k <= |segs|
    ensures Linked(segs[k..], end)
  {
    var rest := segs[k..];
    forall i {:trigger NextStart(rest, i, end)} | 0 <= i < |rest|
      ensures rest[i].next == NextStart(rest, i, end)
    {
      assert segs[i + k].next == NextStart(segs, i + k, end);
    }
  }

  /** A later segment shares no file with the segments before it. */
  lemma ApartFromPrefix(files: FileMap, segs: seq<Segment>, k: nat, i: nat)
    requires FilesPresent(files, segs) && k <= i < |segs|
    ensures FileNames(segs[i]) !! AllFileNames(segs[..k])
  {
    hide AllFileNames;
    forall f | f in AllFileNames(segs[..k]) ensures f !in FileNames(segs[i]) {
      AllFileNamesAre(segs[..k], f);
      var j :| 0 <= j < k && f in FileNames(segs[..k][j]);
      assert NoSharedFile(segs[j], segs[i]);
    }
  }

  lemma SuffixApart(files: FileMap, segs: seq<Segment>, k: nat)
    requires FilesPresent(files, segs) && k <= |segs|
    ensures AllFileNames(segs[k..]) !! AllFileNames(segs[..k])
  {
    hide AllFileNames;
    hide FileNames;
    hide FilesPresent;
    forall f | f in AllFileNames(segs[k..]) ensures f !in AllFileNames(segs[..k]) {
      AllFileNamesAre(segs[k..], f);
      var i :| 0 <= i < |segs[k..]| && f in FileNames(segs[k..][i]);
      ApartFromPrefix(files, segs, k, i + k);
    }
  }

  /** The names of a suffix are what is left when the names of the prefix are taken away. */
  lemma SuffixNames(files: FileMap, segs: seq<Segment>, k: nat)
    requires FilesPresent(files, segs) && files.Keys == AllFileNames(segs) && k <= |segs|
    ensures (files - AllFileNames(segs[..k])).Keys == AllFileNames(segs[k..])
    ensures forall i :: k <= i < |segs| ==> FileNames(segs[i]) !! AllFileNames(segs[..k])
  {
    hide AllFileNames;
    hide FileNames;
    hide FilesPresent;
    AllFileNamesConcat(segs[..k], segs[k..]);
    assert segs[..k] + segs[k..] == segs;
    SuffixApart(files, segs, k);
    forall i | k <= i < |segs| ensures FileNames(segs[i]) !! AllFileNames(segs[..k]) {
      ApartFromPrefix(files, segs, k, i);
    }
  }

  function Cleaned(log: Log): Log {
    var (files', segs', _) := CleanerSpec.Clean(log.files, log.segments, log.retention);
    log.(files := files', segments := segs')
  }

  /** Cleaning succeeds, drops a prefix of the segments, and keeps the log's promise for the rest. */
  lemma CleanKeepsInv(log: Log, hist: seq<Record>)
    requires Inv(log, hist)
    ensures CleanerSpec.Clean(log.files, log.segments, log.retention).2
    ensures Cleaned(log).segments == log.segments[KeepFrom(log.segments, log.retention)..]
    ensures Inv(Cleaned(log), hist)
  {
    hide SHolds;
    hide VHolds;
    var k := KeepFrom(log.segments, log.retention);
    var segs, after := log.segments, Cleaned(log);
    InvFilesPresent(log, hist);
    DeletePrefixExact(log.files, segs, k);
    CutUnique(segs, log.retention, k);
    LinkedSuffix(segs, log.cur.start, k);
    SuffixNames(log.files, segs, k);
    forall i | 0 <= i < |after.segments| ensures HoldsRange(after.files, after.segments[i], hist) {
      assert HoldsRange(log.files, segs[i + k], hist);
      assert OwnsFiles(log.files, segs[i + k]);
      assert FileNames(segs[i + k]) !! AllFileNames(segs[..k]);
      HoldsFrame(log.files, after.files, segs[i + k], hist, hist);
    }
  }

  // ---- appending ----

  predicate Fits(log: Log, d: Record) {
    |log.cur.contents.data| + |d| <= log.maxSize
  }

  /** The append will not overwrite: it writes nothing, at the end, or into a new segment. */
  predicate Safe(log: Log, d: Record) {
    d == [] || log.cur.contents.AtEnd() || !Fits(log, d)
  }

  lemma WriteTail(v: VSeg, tail: seq<Record>, d: Record)
    requires VHolds(v, tail) && v.maxBytes < TWO_32 && |tail| + 1 < TWO_16
    requires |v.contents.data| + |d| <= v.maxBytes && (d == [] || v.contents.AtEnd())
    ensures var (v', r) := v.Write(d);
            && r == Success(|tail|)
            && VHolds(v', tail + [d])
            && v'.start == v.start && v'.maxBytes == v.maxBytes
            && v'.contents.pos == v.contents.pos + |d|
            && |v'.contents.data| == |v.contents.data| + |d|
  {
    assert v.contents.data == Flatten(tail);
    WriteHolds(v, tail, d);
    FlattenSnoc(tail, d);
    hide VSeg.Write;
  }

  lemma WriteKeepsInv(log: Log, hist: seq<Record>, d: Record)
    requires Inv(log, hist) && Fits(log, d) && (d == [] || log.cur.contents.AtEnd())
    requires |hist| + 1 < TWO_16
    ensures var (cur', r) := log.cur.Write(d);
            && r == Success(|hist| - log.cur.start)
            && Inv(log.(cur := cur'), hist + [d])
            && cur'.start == log.cur.start
            && cur'.contents.pos == log.cur.contents.pos + |d|
            && |cur'.contents.data| == |log.cur.contents.data| + |d|
  {
    hide SHolds;
    hide VHolds;
    hide VSeg.Write;
    WriteTail(log.cur, hist[log.cur.start..], d);
    assert (hist + [d])[log.cur.start..] == hist[log.cur.start..] + [d];
    InvFilesPresent(log, hist);
    forall i | 0 <= i < |log.segments| ensures HoldsRange(log.files, log.segments[i], hist + [d]) {
      assert OwnsFiles(log.files, log.segments[i]);
      assert HoldsRange(log.files, log.segments[i], hist);
      HoldsFrame(log.files, log.files, log.segments[i], hist, hist + [d]);
    }
  }

  /** An append that fits the current segment writes there and cleans. */
  lemma AppendFits(log: Log, hist: seq<Record>, d: Record)
    requires Inv(log, hist) && Fits(log, d) && (d == [] || log.cur.contents.AtEnd())
    requires |hist| + 1 < TWO_16
    ensures Append(log, d) == (Cleaned(log.(cur := log.cur.Write(d).0)), Success(|hist|))
  {
    hide VSeg.Write;
    hide CleanerSpec.Clean;
    hide VHolds;
    hide SHolds;
    WriteKeepsInv(log, hist, d);
    CleanKeepsInv(log.(cur := log.cur.Write(d).0), hist + [d]);
  }

  /** When the write reports that the record does not fit. */
  lemma WriteOverflows(log: Log, d: Record)
    requires log.cur.maxBytes == log.maxSize
    ensures log.cur.Write(d).1 == Failure(WouldOverflow) <==> |d| <= log.maxSize && !Fits(log, d)
    ensures log.cur.Write(d).1 == Failure(WouldOverflow) ==> log.(cur := log.cur.Write(d).0) == log
  {
  }

  lemma SplitRoom(log: Log, hist: seq<Record>, d: Record)
    requires Inv(log, hist) && !Fits(log, d) && |d| <= log.maxSize
    ensures log.cur.start < |hist|
    ensures log.cur.Write(d).1 == Failure(WouldOverflow) && log.(cur := log.cur.Write(d).0) == log
    ensures Fits(AfterSplit(log), d) && AfterSplit(log).cur.contents == Cursor([], 0)
    ensures AfterSplit(log).cur.Write(d).1 != Failure(WouldOverflow)
  {
    hide Inv;
    hide VSeg.Write;
    hide VSeg.Flush;
    CurFacts(log, hist);
    NothingFits(log, hist);
    WriteOverflows(log, d);
    WriteOverflows(AfterSplit(log), d);
  }

  lemma NothingFits(log: Log, hist: seq<Record>)
    requires Inv(log, hist) && |log.cur.contents.data| > 0
    ensures log.cur.start < |hist|
  {
    hide SHolds;
  }

  /**
   * An append that does not fit splits the log and writes to the new segment, in whatever order
   * the directory is then listed; it cannot split twice.
   */
  lemma AppendSplits(log: Log, hist: seq<Record>, d: Record, listing: seq<FileName>)
    requires Inv(log, hist) && !Fits(log, d) && |d| <= log.maxSize
    requires IsListing(listing, log.cur.Flush(log.files))
    ensures log.cur.start < |hist|
    ensures AppendWith(log, d, listing) == Append(log, d) == Append(AfterSplit(log), d)
    ensures Inv(AfterSplit(log), hist)
    ensures Fits(AfterSplit(log), d) && AfterSplit(log).cur.contents == Cursor([], 0)
  {
    hide Inv;
    hide VSeg.Write;
    hide VSeg.Flush;
    hide Reload;
    hide CleanerSpec.Clean;
    hide Fits;
    hide Flushed;
    var some := SomeListing(log.cur.Flush(log.files));
    var room := AfterSplit(log);
    SplitRoom(log, hist, d);
    SplitMoves(log, hist, listing);
    SplitMoves(log, hist, some);
    AfterSplitInv(log, hist);
    assert Split(log, listing) == Success(room) == Split(log, some);
    OrderMattersToSplits(room, d, listing, SomeListing(room.cur.Flush(room.files)));
    OrderMattersToSplits(room, d, some, listing);
  }

  /** An append that does not fit splits, and then appends to what the split made. */
  lemma AppendSplitFirst(log: Log, d: Record, listing: seq<FileName>)
    requires log.cur.Write(d) == (log.cur, Failure(WouldOverflow))
    ensures var s := Split(log, listing);
            AppendWith(log, d, listing) ==
            if s.Failure? then (log, Failure(Panicked)) else AppendWith(s.value, d, listing)
  {
    hide Split;
    hide VSeg.Write;
    assert log.(cur := log.cur) == log;
  }

  /** On a log that holds its history the order of the directory does not matter, and nothing panics. */
  lemma AppendMayOnly(log: Log, hist: seq<Record>, d: Record, log': Log, r: LogResult<u16>)
    requires Inv(log, hist) && AppendMay(log, d, log', r)
    ensures (log', r) == Append(log, d) && r != Failure(Panicked)
  {
    hide Inv;
    hide VSeg.Flush;
    hide AppendWith;
    hide Fits;
    hide IsListing;
    var listing :| && IsListing(listing, log.cur.Flush(log.files))
                   && r == AppendWith(log, d, listing).1
                   && (r != Failure(Panicked) ==> log' == AppendWith(log, d, listing).0);
    CurFacts(log, hist);
    WriteOverflows(log, d);
    if log.cur.Write(d).1 == Failure(WouldOverflow) {
      AppendSplits(log, hist, d, listing);
      SplitRoom(log, hist, d);
      var room := AfterSplit(log);
      OrderMattersToSplits(room, d, SomeListing(room.cur.Flush(room.files)), listing);
    } else {
      OrderMattersToSplits(log, d, listing, SomeListing(log.cur.Flush(log.files)));
    }
  }

  /** The append that the function fixes is an allowed one. */
  lemma AppendIsAllowed(log: Log, d: Record)
    ensures AppendMay(log, d, Append(log, d).0, Append(log, d).1)
  {
    hide AppendWith;
    hide VSeg.Flush;
    assert IsListing(SomeListing(log.cur.Flush(log.files)), log.cur.Flush(log.files));
  }

  /** The log an append writes to: the log itself, or the log after a split. */
  function Room(log: Log, d: Record): Log {
    if Fits(log, d) then log else AfterSplit(log)
  }

  function Written(log: Log, d: Record): Log {
    Room(log, d).(cur := Room(log, d).cur.Write(d).0)
  }

  /** A safe append of a record within the size limit writes it where there is room, and then cleans. */
  lemma AppendIs(log: Log, hist: seq<Record>, d: Record)
    requires Inv(log, hist) && Safe(log, d) && |hist| + 1 < TWO_16 && |d| <= log.maxSize
    ensures Append(log, d) == (Cleaned(Written(log, d)), Success(|hist|))
    ensures Inv(Room(log, d), hist) && Inv(Written(log, d), hist + [d])
    ensures Room(log, d).cur.start <= |hist|
    ensures Written(log, d).cur.start == Room(log, d).cur.start
    ensures Room(log, d).cur.contents.AtEnd() ==> Written(log, d).cur.contents.AtEnd()
    ensures !Fits(log, d) ==> Room(log, d).cur.contents.AtEnd()
  {
    hide VSeg.Write;
    hide CleanerSpec.Clean;
    hide VSeg.Flush;
    hide VHolds;
    hide SHolds;
    hide Append;
    var room := Room(log, d);
    if !Fits(log, d) {
      AppendSplits(log, hist, d, SomeListing(log.cur.Flush(log.files)));
    }
    WriteKeepsInv(room, hist, d);
    AppendFits(room, hist, d);
    assert Append(log, d) == Append(room, d);
  }

  /**
   * One append on a log that holds `hist`: an oversize record is refused and changes nothing;
   * any other safe append returns the next offset and adds the record to what the log holds.
   */
  lemma AppendRefines(log: Log, hist: seq<Record>, d: Record)
    requires Inv(log, hist) && Safe(log, d)
    requires |d| <= log.maxSize ==> |hist| + 1 < TWO_16
    ensures |d| > log.maxSize ==> Append(log, d) == (log, Failure(UnknownWrite))
    ensures |d| <= log.maxSize ==>
              var (log', r) := Append(log, d);
              && r == Success(|hist|)
              && Inv(log', hist + [d])
              && log'.cur.start <= |hist|
              && (log.cur.contents.AtEnd() || !Fits(log, d) ==> log'.cur.contents.AtEnd())
              && log'.maxSize == log.maxSize && log'.retention == log.retention
  {
    if |d| > log.maxSize {
      OversizeRefused(log, d);
    } else {
      hide Append;
      hide Inv;
      hide VSeg.Write;
      hide AfterSplit;
      hide CleanerSpec.Clean;
      AppendIs(log, hist, d);
      CleanKeepsInv(Written(log, d), hist + [d]);
      RoomKeepsConfig(log, d);
    }
  }

  lemma RoomKeepsConfig(log: Log, d: Record)
    ensures Room(log, d).maxSize == log.maxSize && Room(log, d).retention == log.retention
  {
  }

  lemma OversizeRefused(log: Log, d: Record)
    requires |d| > log.maxSize && log.cur.maxBytes == log.maxSize
    ensures Append(log, d) == (log, Failure(UnknownWrite))
  {
    assert log.cur.Write(d) == (log.cur, Failure(TooLarge));
    assert log.(cur := log.cur) == log;
  }

  // ---- reading ----

  lemma {:induction false} CountIs(segs: seq<Segment>, o: nat)
    ensures var k := CountAtOrBefore(segs, o);
            && (forall i :: 0 <= i < k ==> segs[i].start <= o)
            && (k < |segs| ==> segs[k].start > o)
  {
    if segs != [] && segs[0].start <= o {
      CountIs(segs[1..], o);
    }
  }

  /** The scan of the segment list stops at the one segment whose range contains the offset. */
  lemma LookupFinds(log: Log, hist: seq<Record>, o: nat)
    requires Inv(log, hist) && o < log.cur.start
    ensures var k := CountAtOrBefore(log.segments, o);
            && (k == 0 <==> o < Oldest(log))
            && (k > 0 ==> log.segments[k - 1].start <= o < log.segments[k - 1].next)
            && forall i :: 0 <= i < |log.segments| && log.segments[i].start <= o < log.segments[i].next ==>
                 i == k - 1
  {
    hide SHolds;
    hide VHolds;
    var segs, k := log.segments, CountAtOrBefore(log.segments, o);
    CountIs(segs, o);
    if k > 0 {
      assert segs[k - 1].next == NextStart(segs, k - 1, log.cur.start);
    }
  }

  /** Every answer of a read, offset by offset. */
  function ReadAnswer(log: Log, hist: seq<Record>, o: nat): LogResult<Record> {
    if Oldest(log) <= o < |hist| then Success(hist[o])
    else if o < log.cur.start || log.cur.start == 0 || o >= |hist| + log.cur.start then Failure(DoesNotExist)
    else Failure(Unexpected)
  }

  /**
   * Reading returns exactly the record appended at that offset for every retained offset, and an
   * error for every other; only the cursor of the current segment can move.
   */
  lemma ReadRefines(log: Log, hist: seq<Record>, o: nat)
    requires Inv(log, hist)
    ensures var (log', r) := Read(log, o);
            && r == ReadAnswer(log, hist, o)
            && Inv(log', hist)
            && log' == log.(cur := log.cur.(contents := log.cur.contents.(pos := log'.cur.contents.pos)))
            && (r.Failure? || o < log.cur.start ==> log' == log)
            && (r.Success? && o >= log.cur.start ==>
                  log'.cur.contents.pos == Offset(hist[log.cur.start..], o - log.cur.start + 1))
  {
    hide SHolds;
    if log.cur.start <= o {
      ReadCurrent(log, hist, o);
    } else {
      ReadDisk(log, hist, o);
    }
  }

  lemma OldestBelow(log: Log, hist: seq<Record>)
    requires Inv(log, hist)
    ensures Oldest(log) <= log.cur.start
  {
    if log.segments != [] {
      SegmentsBelow(log, hist, 0);
    }
  }

  lemma FlushedStart(log: Log, hist: seq<Record>)
    requires Inv(log, hist)
    ensures log.cur.start <= |hist|
    ensures log.segments != [] ==> Oldest(log) < log.cur.start
    ensures log.segments == [] ==> log.cur.start == 0
  {
    if log.segments != [] {
      SegmentsBelow(log, hist, 0);
    }
    hide SHolds;
    hide VHolds;
  }

  lemma ReadCurrent(log: Log, hist: seq<Record>, o: nat)
    requires Inv(log, hist) && log.cur.start <= o
    ensures var (log', r) := Read(log, o);
            && r == ReadAnswer(log, hist, o)
            && Inv(log', hist)
            && log' == log.(cur := log.cur.(contents := log.cur.contents.(pos := log'.cur.contents.pos)))
            && (r.Failure? ==> log' == log)
            && (r.Success? ==>
                  log'.cur.contents.pos == Offset(hist[log.cur.start..], o - log.cur.start + 1))
  {
    hide SHolds;
    OldestBelow(log, hist);
    VReadHolds(log.cur, hist[log.cur.start..], o - log.cur.start);
    assert log.(cur := log.cur) == log;
    hide VHolds;
    hide VSeg.ReadAt;
  }

  lemma ReadDisk(log: Log, hist: seq<Record>, o: nat)
    requires Inv(log, hist) && o < log.cur.start
    ensures Read(log, o) == (log, ReadAnswer(log, hist, o))
  {
    hide SHolds;
    hide VHolds;
    LookupFinds(log, hist, o);
    var k := CountAtOrBefore(log.segments, o);
    if k > 0 {
      var s := log.segments[k - 1];
      assert HoldsRange(log.files, s, hist);
      SReadHolds(log.files, s, hist[s.start..s.next], o - s.start);
    }
    hide Segment.ReadAt;
  }
}
