/** Restarting: what a new commitlog on the directory of an old one reads back. */
module Recovery {
  import opened Base
  import opened Names
  import opened Records
  import opened Codec
  import opened Files
  import opened SegmentSpec
  import opened CleanerSpec
  import opened ScanSpec
  import opened LogSpec
  import opened LogInvariant
  import opened LogRefinement
  import opened Packing
  import opened LogRuns

  // ---- sorting ----

  ghost predicate Increasing(segs: seq<Segment>) {
    forall i, j :: 0 <= i < j < |segs| ==> segs[i].start < segs[j].start
  }

  lemma {:induction false} InsertMembers(s: Segment, sorted: seq<Segment>, t: Segment)
    ensures t in Insert(s, sorted) <==> t == s || t in sorted
  {
    if !(sorted == [] || s.start < sorted[0].start) {
      assert sorted == [sorted[0]] + sorted[1..];
      InsertMembers(s, sorted[1..], t);
    }
  }

  lemma {:induction false} InsertIncreasing(s: Segment, sorted: seq<Segment>)
    requires Increasing(sorted) && forall t <- sorted :: t.start != s.start
    ensures Increasing(Insert(s, sorted))
  {
    if !(sorted == [] || s.start < sorted[0].start) {
      var tail := sorted[1..];
      var rest := Insert(s, tail);
      forall t | t in tail ensures t in sorted && sorted[0].start < t.start {
        var i :| 0 <= i < |tail| && tail[i] == t;
        assert sorted[i + 1] == t;
      }
      InsertIncreasing(s, tail);
      forall j | 0 <= j < |rest| ensures sorted[0].start < rest[j].start {
        InsertMembers(s, tail, rest[j]);
      }
      ConsIncreasing(sorted[0], rest);
    }
  }

  lemma ConsIncreasing(s: Segment, rest: seq<Segment>)
    requires Increasing(rest) && forall j :: 0 <= j < |rest| ==> s.start < rest[j].start
    ensures Increasing([s] + rest)
  {
  }

  /** Sorting segments with different starts puts the same segments in increasing order. */
  lemma {:induction false} SortIncreasing(segs: seq<Segment>)
    requires forall i, j :: 0 <= i < j < |segs| ==> segs[i].start != segs[j].start
    ensures Increasing(Sort(segs))
    ensures forall t :: t in Sort(segs) <==> t in segs
  {
    if segs != [] {
      var n := |segs| - 1;
      SortIncreasing(segs[..n]);
      assert segs == segs[..n] + [segs[n]];
      InsertIncreasing(segs[n], Sort(segs[..n]));
      forall t ensures t in Sort(segs) <==> t in segs {
        InsertMembers(segs[n], Sort(segs[..n]), t);
      }
    }
  }

  /** The segments that start at this offset, in order. */
  function StartingAt(segs: seq<Segment>, start: nat): seq<Segment> {
    if segs == [] then []
    else (if segs[0].start == start then [segs[0]] else []) + StartingAt(segs[1..], start)
  }

  lemma {:induction false} StartingAtConcat(a: seq<Segment>, b: seq<Segment>, start: nat)
    ensures StartingAt(a + b, start) == StartingAt(a, start) + StartingAt(b, start)
  {
    if a == [] {
      assert a + b == b;
    } else {
      StartingAtConcat(a[1..], b, start);
      StartingAtHead(a, start);
      StartingAtHead(a + b, start);
      assert (a + b)[1..] == a[1..] + b && (a + b)[0] == a[0];
      var head, x, y := StartingAt([a[0]], start), StartingAt(a[1..], start), StartingAt(b, start);
      assert head + (x + y) == head + x + y;
    }
  }

  lemma StartingAtHead(segs: seq<Segment>, start: nat)
    requires segs != []
    ensures StartingAt(segs, start) == StartingAt([segs[0]], start) + StartingAt(segs[1..], start)
  {
    OneStartingAt(segs[0], start);
  }

  ghost predicate NonDecreasing(segs: seq<Segment>) {
    forall i, j :: 0 <= i < j < |segs| ==> segs[i].start <= segs[j].start
  }

  lemma {:induction false} InsertInOrder(s: Segment, sorted: seq<Segment>)
    requires NonDecreasing(sorted)
    ensures NonDecreasing(Insert(s, sorted))
  {
    if !(sorted == [] || s.start < sorted[0].start) {
      var rest := Insert(s, sorted[1..]);
      InsertInOrder(s, sorted[1..]);
      InsertAbove(s, sorted[1..], sorted[0].start);
      assert Insert(s, sorted) == [sorted[0]] + rest;
    }
  }

  /** A segment is inserted behind those that start where it does. */
  lemma {:induction false} InsertStable(s: Segment, sorted: seq<Segment>, start: nat)
    requires NonDecreasing(sorted)
    ensures StartingAt(Insert(s, sorted), start) == StartingAt(sorted, start) + StartingAt([s], start)
  {
    hide NonDecreasing;
    if sorted == [] || s.start < sorted[0].start {
      LaterOnes(s, sorted);
      NoneStartingAt(sorted, s.start);
      StartingAtConcat([s], sorted, start);
      OneStartingAt(s, start);
    } else {
      var head, tail := [sorted[0]], sorted[1..];
      TailInOrder(sorted);
      InsertStable(s, tail, start);
      StartingAtConcat(head, Insert(s, tail), start);
      StartingAtConcat(head, tail, start);
      assert sorted == head + tail;
    }
  }

  lemma LaterOnes(s: Segment, sorted: seq<Segment>)
    requires NonDecreasing(sorted) && (sorted != [] ==> s.start < sorted[0].start)
    ensures forall i :: 0 <= i < |sorted| ==> sorted[i].start != s.start
  {
  }

  lemma TailInOrder(sorted: seq<Segment>)
    requires NonDecreasing(sorted) && sorted != []
    ensures NonDecreasing(sorted[1..])
  {
  }

  lemma OneStartingAt(s: Segment, start: nat)
    ensures StartingAt([s], start) == if s.start == start then [s] else []
  {
    assert [s][1..] == [];
  }

  lemma {:induction false} NoneStartingAt(segs: seq<Segment>, start: nat)
    ensures (forall i :: 0 <= i < |segs| ==> segs[i].start != start) ==> StartingAt(segs, start) == []
  {
    if segs != [] {
      NoneStartingAt(segs[1..], start);
    }
  }

  lemma {:induction false} InsertAbove(s: Segment, segs: seq<Segment>, low: nat)
    requires low <= s.start && forall i :: 0 <= i < |segs| ==> low <= segs[i].start
    ensures forall i :: 0 <= i < |Insert(s, segs)| ==> low <= Insert(s, segs)[i].start
  {
    if segs != [] && s.start >= segs[0].start {
      InsertAbove(s, segs[1..], low);
    }
  }

  /**
   * Sorting any segments: the result is in order, and the segments of each starting offset, of
   * which a directory can hold several when stems are not padded, keep theirs. So it is a
   * permutation, too.
   */
  lemma {:induction false} SortStable(segs: seq<Segment>, start: nat)
    ensures NonDecreasing(Sort(segs))
    ensures StartingAt(Sort(segs), start) == StartingAt(segs, start)
  {
    if segs != [] {
      var n := |segs| - 1;
      SortStable(segs[..n], start);
      InsertInOrder(segs[n], Sort(segs[..n]));
      InsertStable(segs[n], Sort(segs[..n]), start);
      StartingAtConcat(segs[..n], [segs[n]], start);
      assert segs == segs[..n] + [segs[n]];
    }
  }

  lemma HeadIn<T>(s: seq<T>)
    ensures s != [] ==> s[0] in s
  {
  }

  lemma {:induction false} IncreasingUnique(a: seq<Segment>, b: seq<Segment>)
    requires Increasing(a) && Increasing(b)
    requires forall t :: t in a <==> t in b
    ensures a == b
  {
    if a == [] {
      HeadIn(b);
    } else {
      assert a[0] in b;
      assert b[0] in a;
      assert a[0] == b[0];
      forall t ensures t in a[1..] <==> t in b[1..] {
        assert t in a[1..] ==> t in a && t != a[0];
        assert t in b[1..] ==> t in b && t != b[0];
        assert t in a ==> t == a[0] || t in a[1..];
        assert t in b ==> t == b[0] || t in b[1..];
      }
      IncreasingUnique(a[1..], b[1..]);
    }
  }

  // ---- loading the segments back ----

  lemma LoadHeld(log: Log, hist: seq<Record>, i: nat)
    requires Inv(log, hist) && i < |log.segments|
    ensures LoadSegment(log.files, Stem(log.segments[i].start)) == (log.files, Success(log.segments[i]))
  {
    var s := log.segments[i];
    assert HoldsRange(log.files, s, hist);
    LoadHolds(log.files, s, hist[s.start..s.next]);
  }

  lemma {:induction false} LoadAllHeld(log: Log, hist: seq<Record>, stems: seq<string>)
    requires Inv(log, hist)
    requires forall s <- stems :: exists i :: 0 <= i < |log.segments| && s == Stem(log.segments[i].start)
    ensures var (files', r) := LoadAll(log.files, stems);
            && files' == log.files && r.Success? && |r.value| == |stems|
            && forall j :: 0 <= j < |stems| ==>
                 r.value[j] in log.segments && Stem(r.value[j].start) == stems[j]
  {
    hide Inv;
    hide LoadSegment;
    if stems != [] {
      assert stems[0] in stems;
      var i :| 0 <= i < |log.segments| && stems[0] == Stem(log.segments[i].start);
      LoadHeld(log, hist, i);
      assert forall s <- stems[1..] :: s in stems;
      LoadAllHeld(log, hist, stems[1..]);
    }
  }

  lemma SegmentsIncrease(log: Log, hist: seq<Record>)
    requires Inv(log, hist)
    ensures Increasing(log.segments)
  {
    hide Inv;
    forall i, j | 0 <= i < j < |log.segments|
      ensures log.segments[i].start < log.segments[j].start
    {
      SegmentsBelow(log, hist, i);
    }
  }

  /** In whatever order the directory is listed, the sorted list of what is loaded is the old list. */
  lemma SegmentsRecovered(log: Log, hist: seq<Record>, listing: seq<FileName>)
    requires Inv(log, hist) && IsListing(listing, log.files)
    ensures var (files', r) := LoadAll(log.files, LoadStems(listing, log.files));
            files' == log.files && r.Success? && Sort(r.value) == log.segments
    ensures Orphans(listing, log.files) == []
  {
    hide Inv;
    hide LoadAll;
    hide LoadSegment;
    hide LoadStems;
    hide Named;
    hide Sort;
    hide Stem;
    var stems := LoadStems(listing, log.files);
    ScansAgree(listing, listing, log.files);
    InvNamed(log, hist);
    forall s | s in stems ensures exists i :: 0 <= i < |log.segments| && s == Stem(log.segments[i].start) {
      PairIsLoaded(log.files, log.segments, FileName(s, LogExt));
    }
    LoadAllHeld(log, hist, stems);
    var loaded := LoadAll(log.files, stems).1.value;
    SortIncreasing(loaded);
    forall s | s in log.segments ensures s in loaded {
      var i :| 0 <= i < |log.segments| && s == log.segments[i];
      PairOnDisk(log.files, log.segments, i);
      var j :| 0 <= j < |stems| && stems[j] == Stem(s.start);
      StemInjective(loaded[j].start, s.start);
      SameStartSame(log, hist, loaded[j], s);
    }
    SegmentsIncrease(log, hist);
    IncreasingUnique(Sort(loaded), log.segments);
    NoOrphans(log.files, log.segments, listing);
  }

  lemma PairOnDisk(files: FileMap, segs: seq<Segment>, i: nat)
    requires Named(files, segs) && i < |segs|
    ensures IsPair(Stem(segs[i].start), files)
  {
    assert LogName(segs[i].start) in FileNames(segs[i]) && IndexName(segs[i].start) in FileNames(segs[i]);
    AllFileNamesAre(segs, LogName(segs[i].start));
    AllFileNamesAre(segs, IndexName(segs[i].start));
  }

  lemma SameStartSame(log: Log, hist: seq<Record>, s: Segment, t: Segment)
    requires Inv(log, hist) && s in log.segments && t in log.segments && s.start == t.start
    ensures s == t
  {
    hide Inv;
    SegmentsIncrease(log, hist);
  }

  lemma NoOrphans(files: FileMap, segs: seq<Segment>, listing: seq<FileName>)
    requires Named(files, segs) && IsListing(listing, files)
    ensures Orphans(listing, files) == []
  {
    ScansAgree(listing, listing, files);
    var os := Orphans(listing, files);
    forall f | f in os ensures false {
      PairIsLoaded(files, segs, f);
    }
    HeadIn(os);
  }

  // ---- the recovered log ----

  /** The last segment loaded back into memory: its next offset is absolute, its cursor at the start. */
  function Reloaded(s: Segment, bytes: seq<u8>, encoded: seq<u8>, maxSize: nat): VSeg {
    VSeg(Cursor(bytes, 0), s.position, maxSize, s.start, s.next,
         VIndex(s.entries, Cursor(encoded, |encoded|), s.indexName), s.logName)
  }

  lemma {:induction false} LoadVSegHeld(files: FileMap, s: Segment, rs: seq<Record>, maxSize: nat)
    requires SHolds(files, s, rs) && s.start + |rs| < TWO_16
    ensures LoadVSeg(files, s.start, maxSize) ==
            Success(Reloaded(s, Flatten(rs), EncodeAll(s.entries), maxSize))
  {
    hide Flatten;
    hide Tiles;
    EncodeLength(s.entries);
    TilesLength(s.entries, rs);
    DecodeEncoded(s.entries);
    var e := EncodeAll(s.entries);
    assert |e| / 8 * 8 == |e|;
    assert WholeChunks(e) == e;
  }

  lemma TilesLength(es: seq<Entry>, rs: seq<Record>)
    requires Tiles(es, rs)
    ensures |es| == |rs|
  {
  }

  /** The log that a restart makes of a log's directory. */
  function Recovered(log: Log): Log {
    var n := |log.segments|;
    log.(cur := if n > 1 then
                  var s := log.segments[n - 1];
                  Reloaded(s, Contents(log.files, s.logName), Contents(log.files, s.indexName), log.maxSize)
                else NewVSeg(log.maxSize, 0))
  }

  /** Opening a commitlog on the directory of another one, in whatever order it is listed. */
  lemma OpenRecovers(log: Log, hist: seq<Record>, listing: seq<FileName>)
    requires Inv(log, hist) && IsListing(listing, log.files)
    ensures Open(log.files, listing, log.maxSize, log.retention) == Success(Recovered(log))
  {
    SegmentsRecovered(log, hist, listing);
    assert RemoveAll(log.files, []) == log.files;
    var n := |log.segments|;
    if n > 1 {
      LastReloaded(log, hist);
    }
    hide LoadAll;
    hide Inv;
    hide LoadVSeg;
    hide Sort;
    hide Orphans;
  }

  lemma LastReloaded(log: Log, hist: seq<Record>)
    requires Inv(log, hist) && |log.segments| > 1
    ensures var s := log.segments[|log.segments| - 1];
            && LoadVSeg(log.files, s.start, log.maxSize) == Success(Recovered(log).cur)
            && Oldest(log) < s.start < s.next == log.cur.start <= |hist|
            && SHolds(log.files, s, hist[s.start..s.next])
  {
    var n := |log.segments| - 1;
    var s := log.segments[n];
    SegmentsBelow(log, hist, n);
    SegmentsBelow(log, hist, 0);
    assert s.next == NextStart(log.segments, n, log.cur.start);
    assert HoldsRange(log.files, s, hist);
    LoadVSegHeld(log.files, s, hist[s.start..s.next], log.maxSize);
  }

  /**
   * The offsets a restarted log can read. Its last segment is read through an end test that adds
   * the absolute next offset to the starting offset, in 16 bits.
   */
  predicate Readable(log: Log, o: nat) {
    var n := |log.segments|;
    && n > 1
    && Oldest(log) <= o < log.cur.start
    && (o >= log.segments[n - 1].start ==>
          o - log.segments[n - 1].start < WrapAdd16(log.segments[n - 1].next, log.segments[n - 1].start))
  }

  lemma ReloadedRead(files: FileMap, s: Segment, rs: seq<Record>, maxSize: nat, k: nat)
    requires SHolds(files, s, rs) && s.start > 0
    ensures var r := Reloaded(s, Flatten(rs), EncodeAll(s.entries), maxSize).ReadAt(k).1;
            if k < |rs| && k < WrapAdd16(s.next, s.start) then r == Success(rs[k]) else r.Failure?
  {
    hide EncodeAll;
    if k < |rs| {
      ReadRecord(Cursor(Flatten(rs), 0), s.entries, rs, k);
    }
  }

  /** With at most one segment, the restarted log reads only its empty current segment. */
  lemma RecoveredFew(log: Log, o: nat)
    requires |log.segments| <= 1
    ensures Read(Recovered(log), o).1 == Failure(DoesNotExist)
  {
  }

  /** Before the last segment, the restarted log reads the same files through the same segments. */
  lemma RecoveredDisk(log: Log, hist: seq<Record>, o: nat)
    requires Inv(log, hist) && |log.segments| > 1
    requires o < log.segments[|log.segments| - 1].start
    ensures Read(Recovered(log), o).1 == ReadAnswer(log, hist, o)
  {
    hide Inv;
    hide Segment.ReadAt;
    LastReloaded(log, hist);
    ReadDisk(log, hist, o);
  }

  /**
   * Recovery, offset by offset: a restarted log answers with the record appended there before
   * the restart at exactly the readable offsets, and with an error everywhere else.
   */
  lemma RecoveredReads(log: Log, hist: seq<Record>, o: nat)
    requires Inv(log, hist)
    ensures var r := Read(Recovered(log), o).1;
            if Readable(log, o) then o < |hist| && r == Success(hist[o]) else r.Failure?
  {
    hide Inv;
    hide Read;
    hide LoadVSeg;
    hide SHolds;
    var n := |log.segments|;
    if n <= 1 {
      RecoveredFew(log, o);
    } else {
      LastReloaded(log, hist);
      if o >= log.segments[n - 1].start {
        RecoveredTail(log, hist, o);
      } else {
        RecoveredDisk(log, hist, o);
      }
    }
  }

  lemma RecoveredTail(log: Log, hist: seq<Record>, o: nat)
    requires Inv(log, hist) && |log.segments| > 1
    requires log.segments[|log.segments| - 1].start <= o
    ensures var r := Read(Recovered(log), o).1;
            if Readable(log, o) then o < |hist| && r == Success(hist[o]) else r.Failure?
  {
    hide Inv;
    hide VSeg.ReadAt;
    hide Flatten;
    hide Tiles;
    hide EncodeAll;
    LastReloaded(log, hist);
    var s := log.segments[|log.segments| - 1];
    ReloadedRead(log.files, s, hist[s.start..s.next], log.maxSize, o - s.start);
  }

  /** A log recovers when, after a restart, everything it had flushed reads back. */
  ghost predicate Recovers(log: Log, hist: seq<Record>) {
    forall o :: Oldest(log) <= o < log.cur.start && o < |hist| ==> Read(Recovered(log), o).1 == Success(hist[o])
  }

  predicate RecoveryCondition(log: Log) {
    var n := |log.segments|;
    && n != 1
    && (n > 1 ==> var s := log.segments[n - 1]; s.start >= 0x8000 || s.start + s.next < TWO_16)
  }

  lemma RecoversIfReadable(log: Log, hist: seq<Record>)
    requires Inv(log, hist)
    ensures Recovers(log, hist) <==> forall o :: Oldest(log) <= o < log.cur.start ==> Readable(log, o)
  {
    hide Inv;
    hide Read;
    hide Readable;
    FlushedStart(log, hist);
    forall o | Oldest(log) <= o < log.cur.start
      ensures Readable(log, o) <==> o < |hist| && Read(Recovered(log), o).1 == Success(hist[o])
    {
      RecoveredReads(log, hist, o);
    }
  }

  /**
   * The exact condition for recovery: everything flushed reads back unless exactly one segment
   * was flushed (then the restarted log keeps an empty segment in front of it) or the last
   * segment starts below 32768 while its start and end add up to 65536 or more.
   */
  lemma RecoversIff(log: Log, hist: seq<Record>)
    requires Inv(log, hist)
    ensures Recovers(log, hist) <==> RecoveryCondition(log)
  {
    hide Inv;
    hide Read;
    hide Recovers;
    hide LoadVSeg;
    hide SHolds;
    var n := |log.segments|;
    FlushedStart(log, hist);
    RecoversIfReadable(log, hist);
    if n == 1 {
      assert !Readable(log, Oldest(log));
    } else if n > 1 {
      var s := log.segments[n - 1];
      LastReloaded(log, hist);
      if s.start < 0x8000 && s.start + s.next >= TWO_16 {
        assert !Readable(log, s.start + WrapAdd16(s.next, s.start));
      }
    }
  }

  /** The answer a restarted log owes to a read: the record from before the restart where it is readable. */
  ghost predicate AnswersAsBefore(log: Log, hist: seq<Record>, o: nat, r: LogResult<Record>) {
    if Readable(log, o) then o < |hist| && r == Success(hist[o]) else r.Failure?
  }

  /**
   * Restarting after any legal run: in whatever order the directory is listed, the new log opens,
   * and in every sequence of reads it answers each offset with the record accepted there exactly
   * when the offset is readable.
   */
  lemma RestartAfterRun(maxSize: nat, retention: nat, ops: seq<LogOp>, listing: seq<FileName>,
                        gets: seq<LogOp>)
    requires maxSize < TWO_32 && |Accepted(ops, maxSize)| < TWO_16
    requires Legal(EmptyLog(maxSize, retention), ops)
    requires IsListing(listing, Run(EmptyLog(maxSize, retention), ops).0.files)
    requires OnlyReads(gets)
    ensures var log, hist := Run(EmptyLog(maxSize, retention), ops).0, Accepted(ops, maxSize);
            && Open(log.files, listing, maxSize, retention) == Success(Recovered(log))
            && (Recovers(log, hist) <==> RecoveryCondition(log))
            && forall i :: 0 <= i < |gets| ==>
                 var answer := Run(Recovered(log), gets).1[i];
                 answer.Got? && AnswersAsBefore(log, hist, gets[i].offset, answer.read)
  {
    hide Inv;
    hide Packed;
    hide Retained;
    hide Run;
    hide Legal;
    hide Accepted;
    hide Read;
    hide Readable;
    hide Recovered;
    hide Recovers;
    hide RecoveryCondition;
    hide Open;
    hide IsListing;
    RunHolds(maxSize, retention, ops);
    var log, hist := Run(EmptyLog(maxSize, retention), ops).0, Accepted(ops, maxSize);
    OpenRecovers(log, hist, listing);
    RecoversIff(log, hist);
    forall i | 0 <= i < |gets|
      ensures var answer := Run(Recovered(log), gets).1[i];
              answer.Got? && AnswersAsBefore(log, hist, gets[i].offset, answer.read)
    {
      ReadsLeaveNoTrace(Recovered(log), gets, i);
      RecoveredReads(log, hist, gets[i].offset);
    }
  }
}
