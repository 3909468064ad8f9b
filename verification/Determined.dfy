/** The state of a log is a function of its history: two runs that accepted the same records agree. */
module Determined {
  import opened Base
  import opened Records
  import opened Codec
  import opened Files
  import opened SegmentSpec
  import opened CleanerSpec
  import opened LogSpec
  import opened LogInvariant
  import opened Packing

  /** A disk segment and its files are determined by the range of the history they hold. */
  lemma SegmentDetermined(f1: FileMap, f2: FileMap, s1: Segment, s2: Segment, hist: seq<Record>)
    requires HoldsRange(f1, s1, hist) && HoldsRange(f2, s2, hist)
    requires s1.start == s2.start && s1.next == s2.next
    ensures s1 == s2
    ensures FileNames(s1) <= f1.Keys * f2.Keys
    ensures f1[s1.logName] == f2[s1.logName] && f1[s1.indexName] == f2[s1.indexName]
  {
    hide Flatten;
    hide EncodeAll;
    TilesUnique(s1.entries, s2.entries, hist[s1.start..s1.next]);
  }

  lemma CurDetermined(v1: VSeg, v2: VSeg, rs: seq<Record>)
    requires VHolds(v1, rs) && VHolds(v2, rs) && v1.start == v2.start && v1.maxBytes == v2.maxBytes
    ensures v1.(contents := v1.contents.(pos := 0)) == v2.(contents := v2.contents.(pos := 0))
  {
    hide Flatten;
    hide EncodeAll;
    TilesUnique(v1.index.entries, v2.index.entries, rs);
  }

  /** The packing tells where the current segment and the retained ones start. */
  lemma StartsAre(log: Log, hist: seq<Record>)
    requires RunInv(log, hist)
    ensures var b := Starts(hist, log.maxSize);
            var at := |b| - 1 - |log.segments|;
            && 0 <= at
            && log.cur.start == b[|b| - 1]
            && (forall i :: 0 <= i < |log.segments| ==> log.segments[i].start == b[at + i])
            && Oldest(log) == b[at]
            && (at > 0 ==> Oldest(log) > 0)
  {
    hide Inv;
    NoSegmentsYet(log, hist);
    StartsIncrease(hist, log.maxSize);
    var segs, b := log.segments, Starts(hist, log.maxSize);
    var at := |b| - 1 - |segs|;
    var kept := SegmentStarts(segs) + [log.cur.start];
    assert forall i :: 0 <= i < |kept| ==> kept[i] == b[at + i];
  }

  lemma SameSegment(log1: Log, log2: Log, hist: seq<Record>, i: nat, j: nat)
    requires Inv(log1, hist) && Inv(log2, hist) && i < |log1.segments| && j < |log2.segments|
    requires log1.segments[i].start == log2.segments[j].start
    requires NextStart(log1.segments, i, log1.cur.start) == NextStart(log2.segments, j, log2.cur.start)
    ensures log1.segments[i] == log2.segments[j]
    ensures var s := log1.segments[i];
            && s.logName in log1.files && s.logName in log2.files && log1.files[s.logName] == log2.files[s.logName]
            && s.indexName in log1.files && s.indexName in log2.files
            && log1.files[s.indexName] == log2.files[s.indexName]
  {
    hide SHolds;
    hide VHolds;
    var s, t := log1.segments[i], log2.segments[j];
    assert s.next == NextStart(log1.segments, i, log1.cur.start);
    assert t.next == NextStart(log2.segments, j, log2.cur.start);
    assert HoldsRange(log1.files, s, hist) && HoldsRange(log2.files, t, hist);
    SegmentDetermined(log1.files, log2.files, s, t, hist);
  }

  /** One segment of the log that keeps fewer is the one as far from the end in the other. */
  lemma SharedAt(log1: Log, log2: Log, hist: seq<Record>, i: nat)
    requires RunInv(log1, hist) && RunInv(log2, hist) && log1.maxSize == log2.maxSize
    requires |log1.segments| <= |log2.segments| && i < |log1.segments|
    ensures log1.segments[i] == log2.segments[i + |log2.segments| - |log1.segments|]
  {
    hide Inv;
    hide Packed;
    hide Retained;
    hide Starts;
    StartsAre(log1, hist);
    StartsAre(log2, hist);
    SameSegment(log1, log2, hist, i, i + |log2.segments| - |log1.segments|);
  }

  /** When one log keeps at least as many segments, its last ones are those of the other. */
  lemma SharedSuffix(log1: Log, log2: Log, hist: seq<Record>)
    requires RunInv(log1, hist) && RunInv(log2, hist) && log1.maxSize == log2.maxSize
    requires |log1.segments| <= |log2.segments|
    ensures log1.segments == log2.segments[|log2.segments| - |log1.segments|..]
    ensures log1.cur.start == log2.cur.start
  {
    hide RunInv;
    hide Starts;
    StartsAre(log1, hist);
    StartsAre(log2, hist);
    forall i | 0 <= i < |log1.segments|
      ensures log1.segments[i] == log2.segments[i + |log2.segments| - |log1.segments|]
    {
      SharedAt(log1, log2, hist, i);
    }
  }

  /** Retention leaves no choice: with the same budget, neither log keeps more than the other. */
  lemma SameCount(log1: Log, log2: Log, hist: seq<Record>)
    requires RunInv(log1, hist) && RunInv(log2, hist)
    requires log1.maxSize == log2.maxSize && log1.retention == log2.retention
    requires |log1.segments| <= |log2.segments|
    ensures |log1.segments| == |log2.segments|
  {
    hide Inv;
    hide Packed;
    SharedSuffix(log1, log2, hist);
    StartsAre(log1, hist);
    StartsAre(log2, hist);
    var shift := |log2.segments| - |log1.segments|;
    if shift > 0 {
      BytesSuffix(log2.segments, 1, shift);
    }
  }

  /**
   * Two logs with the same limits that hold the same history agree on the oldest offset, every
   * segment, every file and every byte; only the cursors can differ. In particular the order in
   * which the directory is listed, and the reads in between, leave no trace.
   */
  lemma HistoryDetermines(log1: Log, log2: Log, hist: seq<Record>)
    requires RunInv(log1, hist) && RunInv(log2, hist)
    requires log1.maxSize == log2.maxSize && log1.retention == log2.retention
    ensures log1.segments == log2.segments && log1.files == log2.files
    ensures log1.cur.(contents := log1.cur.contents.(pos := 0)) == log2.cur.(contents := log2.cur.contents.(pos := 0))
  {
    hide Packed;
    hide Retained;
    hide Inv;
    if |log1.segments| <= |log2.segments| {
      SameCount(log1, log2, hist);
    } else {
      SameCount(log2, log1, hist);
    }
    SharedSuffix(log1, log2, hist);
    SameFiles(log1, log2, hist);
    SameCur(log1, log2, hist);
  }

  lemma SameCur(log1: Log, log2: Log, hist: seq<Record>)
    requires Inv(log1, hist) && Inv(log2, hist) && log1.maxSize == log2.maxSize
    requires log1.cur.start == log2.cur.start
    ensures log1.cur.(contents := log1.cur.contents.(pos := 0)) == log2.cur.(contents := log2.cur.contents.(pos := 0))
  {
    hide SHolds;
    hide VHolds;
    CurDetermined(log1.cur, log2.cur, hist[log1.cur.start..]);
  }

  lemma SameFiles(log1: Log, log2: Log, hist: seq<Record>)
    requires Inv(log1, hist) && Inv(log2, hist)
    requires log1.segments == log2.segments && log1.cur.start == log2.cur.start
    ensures log1.files == log2.files
  {
    hide SHolds;
    hide VHolds;
    forall f | f in log1.files ensures log1.files[f] == log2.files[f] {
      AllFileNamesAre(log1.segments, f);
      var i :| 0 <= i < |log1.segments| && f in FileNames(log1.segments[i]);
      SameSegment(log1, log2, hist, i, i);
    }
  }
}
