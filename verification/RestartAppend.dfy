/** Appending after a restart: what the first append answers, and what it does to the flushed records. */
module RestartAppend {
  import opened Base
  import opened Names
  import opened Records
  import opened Files
  import opened SegmentSpec
  import CleanerSpec
  import opened ScanSpec
  import opened LogSpec
  import opened LogInvariant
  import opened LogRefinement
  import opened LogLimits
  import opened Packing
  import opened LogRuns
  import opened Recovery
  import opened AnyDirectory

  // ---- what the first append answers ----

  lemma Rewrite(files: FileMap, name: FileName)
    requires name in files
    ensures WriteFromStart(files, name, files[name]) == files == OpenOrCreate(files, name)
  {
    assert files[name] + [] == files[name];
  }

  /** Flushing a segment that was loaded from disk writes the same bytes again. */
  lemma ReflushNothing(log: Log, hist: seq<Record>)
    requires Inv(log, hist) && |log.segments| > 1
    ensures Recovered(log).cur.Flush(log.files) == log.files
  {
    hide Inv;
    hide Flatten;
    hide LoadVSeg;
    LastReloaded(log, hist);
    var s := log.segments[|log.segments| - 1];
    Rewrite(log.files, s.logName);
    Rewrite(log.files, s.indexName);
  }

  lemma ReloadIgnoresCur(log: Log, cur: VSeg, listing: seq<FileName>)
    requires Reload(log, listing) == Success(log)
    ensures Reload(log.(cur := cur), listing) == Success(log.(cur := cur))
  {
    hide LoadAll;
    hide NewStems;
    hide ReloadStems;
  }

  /** The log a restarted log becomes when a record does not fit: only the segment in memory is new. */
  function Resplit(log: Log): Log
    requires |log.segments| > 1
  {
    var s := log.segments[|log.segments| - 1];
    log.(cur := NewVSeg(log.maxSize, WrapAdd16(s.start, s.next)))
  }

  lemma RecoveredSplits(log: Log, hist: seq<Record>, listing: seq<FileName>)
    requires Inv(log, hist) && |log.segments| > 1 && IsListing(listing, Recovered(log).cur.Flush(log.files))
    ensures Split(Recovered(log), listing) == Success(Resplit(log))
  {
    hide Inv;
    hide VSeg.Flush;
    hide Reload;
    hide IsListing;
    ReflushNothing(log, hist);
    ReloadChangesNothing(log, hist, listing);
    ReloadIgnoresCur(log, Resplit(log).cur, listing);
  }

  /** What a write that does not fail for its size answers, in any segment. */
  lemma WriteAnswers(v: VSeg, d: Record)
    requires |d| <= v.maxBytes < TWO_32
    ensures v.Write(d).1 == if |v.contents.data| + |d| <= v.maxBytes then Success(v.next) else Failure(WouldOverflow)
    ensures v.Write(d).1.Failure? ==> v.Write(d).0 == v
  {
  }

  /** An append that fits answers the start plus the next offset of the segment in memory. */
  lemma FitAnswers(log: Log, d: Record, listing: seq<FileName>)
    requires |d| <= log.cur.maxBytes < TWO_32 && |log.cur.contents.data| + |d| <= log.cur.maxBytes
    requires CleanerSpec.Clean(log.files, log.segments, log.retention).2
    ensures AppendWith(log, d, listing).1 == Success(WrapAdd16(log.cur.start, log.cur.next))
  {
    hide VSeg.Write;
    hide CleanerSpec.Clean;
    WriteAnswers(log.cur, d);
  }

  lemma RecoveredOverflows(log: Log, hist: seq<Record>, d: Record)
    requires Inv(log, hist) && |log.segments| > 1 && |d| <= log.maxSize && !Fits(Recovered(log), d)
    ensures Recovered(log).cur.Write(d) == (Recovered(log).cur, Failure(WouldOverflow))
    ensures |d| <= log.maxSize < TWO_32
  {
    hide Inv;
    hide VSeg.Write;
    CurFacts(log, hist);
    WriteAnswers(Recovered(log).cur, d);
  }

  /** An append that splits answers the start of the new segment. */
  lemma ResplitAnswers(log: Log, hist: seq<Record>, d: Record, listing: seq<FileName>)
    requires Inv(log, hist) && |log.segments| > 1 && |d| <= log.maxSize && !Fits(Recovered(log), d)
    requires IsListing(listing, Recovered(log).cur.Flush(log.files))
    ensures AppendWith(Recovered(log), d, listing).1 == Success(Resplit(log).cur.start)
  {
    hide Inv;
    hide VSeg.Write;
    hide VSeg.Flush;
    hide Split;
    hide Recovered;
    hide AppendWith;
    hide CleanerSpec.Clean;
    RecoveredOverflows(log, hist, d);
    RecoveredSplits(log, hist, listing);
    AppendSplitFirst(Recovered(log), d, listing);
    CleanKeepsInv(log, hist);
    FitAnswers(Resplit(log), d, listing);
  }

  /**
   * Numbering after a restart: the first record within the size limit is accepted at offset 0
   * when at most one segment was flushed, and otherwise at an offset that is too large by the
   * start of the last segment, modulo 65536. So the restarted log goes on where the flushed
   * records end if and only if nothing was flushed.
   */
  lemma RestartNumbers(log: Log, hist: seq<Record>, d: Record)
    requires Inv(log, hist) && |d| <= log.maxSize
    ensures var n, answer := |log.segments|, Append(Recovered(log), d).1;
            && answer == Success(if n <= 1 then 0 else WrapAdd16(log.segments[n - 1].start, log.cur.start))
            && (answer == Success(log.cur.start) <==> log.segments == [])
  {
    hide Inv;
    hide SHolds;
    hide AppendWith;
    hide VSeg.Flush;
    hide LoadVSeg;
    hide CleanerSpec.Clean;
    CurFacts(log, hist);
    CleanKeepsInv(log, hist);
    FlushedStart(log, hist);
    var listing := SomeListing(Recovered(log).cur.Flush(log.files));
    if |log.segments| > 1 {
      LastReloaded(log, hist);
    }
    if Fits(Recovered(log), d) {
      FitAnswers(Recovered(log), d, listing);
    } else {
      ResplitAnswers(log, hist, d, listing);
    }
  }

  // ---- what the first append does to the flushed records ----

  function Last(log: Log): Segment
    requires log.segments != []
  {
    log.segments[|log.segments| - 1]
  }

  /** The bytes of a file after a record is written over its start. */
  function Overlaid(data: seq<u8>, d: Record): (r: seq<u8>)
    ensures |r| >= |data| && |r| >= |d|
  {
    d + (if |d| < |data| then data[|d|..] else [])
  }

  /** Writing over the start leaves the bytes as they were exactly when one is a prefix of the other. */
  lemma OverlayKeeps(data: seq<u8>, d: Record)
    ensures Overlaid(data, d)[..|data|] == data <==> d <= data || data <= d
  {
    if |d| < |data| {
      assert Overlaid(data, d)[..|data|] == d + data[|d|..];
      assert data == data[..|d|] + data[|d|..];
      assert d + data[|d|..] == data ==> (d + data[|d|..])[..|d|] == data[..|d|];
    } else {
      assert Overlaid(data, d)[..|data|] == d[..|data|];
    }
  }

  /** What `Tiles` and the files say of the last segment. */
  lemma LastHeld(log: Log, hist: seq<Record>)
    requires Inv(log, hist) && |log.segments| > 1
    ensures var s := Last(log);
            && 0 < s.start < s.next == log.cur.start <= |hist| < TWO_16
            && Contents(log.files, s.logName) == Flatten(hist[s.start..s.next])
            && s.position == |Flatten(hist[s.start..s.next])|
            && Tiles(s.entries, hist[s.start..s.next])
  {
    hide Inv;
    hide LoadVSeg;
    hide Tiles;
    hide Flatten;
    CurFacts(log, hist);
    LastReloaded(log, hist);
  }

  /** An append that fits the loaded segment writes over its start. */
  lemma FitWritten(log: Log, hist: seq<Record>, d: Record)
    requires Inv(log, hist) && |log.segments| > 1 && Fits(Recovered(log), d)
    ensures var s, cur' := Last(log), Append(Recovered(log), d).0.cur;
            && cur'.start == s.start
            && cur'.next == (s.next + 1) % TWO_16
            && cur'.contents.data == Overlaid(Contents(log.files, s.logName), d)
            && |d| < TWO_32
            && cur'.index.entries == s.entries + [Entry(s.position, |d|)]
  {
    hide Inv;
    hide Flatten;
    hide Tiles;
    hide CleanerSpec.Clean;
    hide VSeg.Write;
    hide VSeg.Flush;
    CurFacts(log, hist);
    LastHeld(log, hist);
    var loaded := Recovered(log).cur;
    WriteShape(loaded, d);
    assert loaded.contents.data[..0] == [];
    assert loaded.contents.Write(d).data == Overlaid(loaded.contents.data, d);
  }

  /** What the k-th record of the loaded segment reads as after such an append. */
  lemma FitReads(log: Log, hist: seq<Record>, rs: seq<Record>, d: Record, k: nat)
    requires Inv(log, hist) && |log.segments| > 1 && Fits(Recovered(log), d)
    requires Last(log).start < Last(log).next <= |hist| && rs == hist[Last(log).start..Last(log).next]
    requires k < |rs|
    ensures var s := Last(log);
            var data' := Overlaid(Contents(log.files, s.logName), d);
            && Offset(rs, k) + |rs[k]| <= |data'|
            && Read(Append(Recovered(log), d).0, s.start + k).1 ==
               if k < (s.start + s.next + 1) % TWO_16 then Success(data'[Offset(rs, k)..Offset(rs, k) + |rs[k]|])
               else Failure(DoesNotExist)
  {
    hide Inv;
    hide Append;
    hide Recovered;
    hide Fits;
    hide Flatten;
    hide Overlaid;
    LastHeld(log, hist);
    FitWritten(log, hist, d);
    FlattenAt(rs, k);
    EndTest(Last(log).start, Last(log).next);
    EntryReads(Append(Recovered(log), d).0, rs, k);
  }

  /** A read in memory, through an entry that lies within the bytes. */
  lemma EntryReads(log: Log, rs: seq<Record>, k: nat)
    requires k < |rs| && k < |log.cur.index.entries| && log.cur.start > 0
    requires log.cur.index.entries[k].start == Offset(rs, k) && log.cur.index.entries[k].total == |rs[k]|
    requires Offset(rs, k) + |rs[k]| <= |log.cur.contents.data|
    ensures Read(log, log.cur.start + k).1 ==
            if k < WrapAdd16(log.cur.next, log.cur.start)
            then Success(log.cur.contents.data[Offset(rs, k)..Offset(rs, k) + |rs[k]|])
            else Failure(DoesNotExist)
  {
    hide Flatten;
    var at := Offset(rs, k);
    assert rs[k] == [] ==> log.cur.contents.data[at..at + |rs[k]|] == [];
  }

  lemma EndTest(start: u16, next: u16)
    ensures WrapAdd16((next + 1) % TWO_16, start) == (start + next + 1) % TWO_16
  {
  }

  /** The k-th record is in these bytes at its offset. */
  ghost predicate SliceIs(rs: seq<Record>, data: seq<u8>, k: nat) {
    && k < |rs| && Offset(rs, k) + |rs[k]| <= |data|
    && data[Offset(rs, k)..Offset(rs, k) + |rs[k]|] == rs[k]
  }

  /** Bytes that begin with the records hold each of them at its offset, and only such bytes do. */
  lemma SlicesDetermine(rs: seq<Record>, data: seq<u8>)
    requires |Flatten(rs)| <= |data|
    ensures (forall k :: 0 <= k < |rs| ==> SliceIs(rs, data, k)) <==> data[..|Flatten(rs)|] == Flatten(rs)
  {
    hide Flatten;
    hide SliceIs;
    if forall k :: 0 <= k < |rs| ==> SliceIs(rs, data, k) {
      SlicesMake(rs, data, |rs|);
      assert rs[..|rs|] == rs;
    }
    if data[..|Flatten(rs)|] == Flatten(rs) {
      forall k | 0 <= k < |rs| ensures SliceIs(rs, data, k) {
        SliceFrom(rs, data, k);
      }
    }
  }

  lemma PrefixSlice(data: seq<u8>, n: nat, a: nat, b: nat)
    requires a <= b <= n <= |data|
    ensures data[..n][a..b] == data[a..b]
  {
  }

  lemma SliceFrom(rs: seq<Record>, data: seq<u8>, k: nat)
    requires |Flatten(rs)| <= |data| && data[..|Flatten(rs)|] == Flatten(rs) && k < |rs|
    ensures SliceIs(rs, data, k)
  {
    hide Flatten;
    FlattenAt(rs, k);
    PrefixSlice(data, |Flatten(rs)|, Offset(rs, k), Offset(rs, k) + |rs[k]|);
  }

  lemma {:induction false} SlicesMake(rs: seq<Record>, data: seq<u8>, n: nat)
    requires n <= |rs| && |Flatten(rs)| <= |data|
    requires forall k :: 0 <= k < n ==> SliceIs(rs, data, k)
    ensures Offset(rs, n) <= |data| && data[..Offset(rs, n)] == Flatten(rs[..n])
  {
    hide Flatten;
    if n == 0 {
      FlattenNothing();
      assert rs[..0] == [];
    } else {
      SlicesMake(rs, data, n - 1);
      FlattenCut(rs, n - 1);
      assert SliceIs(rs, data, n - 1);
      assert data[..Offset(rs, n)] == data[..Offset(rs, n - 1)] + data[Offset(rs, n - 1)..Offset(rs, n)];
    }
  }

  /** With a log whose retention bound holds, cleaning has nothing to do. */
  lemma CleanNothing(log: Log)
    requires Retained(log)
    ensures CleanerSpec.Clean(log.files, log.segments, log.retention) == (log.files, log.segments, true)
  {
  }

  /** After the first append, what is read from disk is what was read from disk before. */
  lemma DiskReads(log: Log, hist: seq<Record>, log': Log, o: nat)
    requires Inv(log, hist) && Oldest(log) <= o < log.cur.start
    requires log'.files == log.files && log'.segments == log.segments && o < log'.cur.start
    ensures Read(log', o).1 == Success(hist[o])
  {
    hide Inv;
    hide Segment.ReadAt;
    CurFacts(log, hist);
    ReadDisk(log, hist, o);
  }

  /** The first append changes no file and no segment on disk, whether it splits the log or not. */
  lemma DiskKept(log: Log, hist: seq<Record>, d: Record)
    requires RunInv(log, hist) && |d| <= log.maxSize && log.segments != []
    ensures var log' := Append(Recovered(log), d).0;
            && log'.files == log.files && log'.segments == log.segments
            && (!Fits(Recovered(log), d) ==> |log.segments| > 1 && log'.cur == Resplit(log).cur.Write(d).0)
  {
    hide Inv;
    hide Packed;
    hide Retained;
    hide AppendWith;
    hide CleanerSpec.Clean;
    hide VSeg.Write;
    hide VSeg.Flush;
    var listing := SomeListing(Recovered(log).cur.Flush(log.files));
    CurFacts(log, hist);
    CleanNothing(log);
    if Fits(Recovered(log), d) {
      FitKeeps(Recovered(log), d, listing);
    } else {
      RecoveredOverflows(log, hist, d);
      RecoveredSplits(log, hist, listing);
      AppendSplitFirst(Recovered(log), d, listing);
      FitKeeps(Resplit(log), d, listing);
    }
  }

  lemma FitKeeps(log: Log, d: Record, listing: seq<FileName>)
    requires |d| <= log.cur.maxBytes < TWO_32 && |log.cur.contents.data| + |d| <= log.cur.maxBytes
    requires CleanerSpec.Clean(log.files, log.segments, log.retention) == (log.files, log.segments, true)
    ensures AppendWith(log, d, listing).0 == log.(cur := log.cur.Write(d).0)
  {
    hide VSeg.Write;
    hide CleanerSpec.Clean;
    WriteAnswers(log.cur, d);
  }

  /** The record that the history has at this offset is read there. */
  ghost predicate ReadsBack(log: Log, hist: seq<Record>, o: nat) {
    o < |hist| && Read(log, o).1 == Success(hist[o])
  }

  /** Everything flushed before a restart still reads back after the restart and one append. */
  ghost predicate Keeps(log: Log, hist: seq<Record>, d: Record) {
    forall o :: Oldest(log) <= o < log.cur.start ==> ReadsBack(Append(Recovered(log), d).0, hist, o)
  }

  /** What must be so for that, in terms of the last segment, its log file and the record. */
  predicate KeepCondition(log: Log, d: Record) {
    var n := |log.segments|;
    n == 0 ||
    var s := Last(log);
    var data := Contents(log.files, s.logName);
    if n == 1 then
      Oldest(log) == 0 && log.cur.start == 1 && d == data
    else if Fits(Recovered(log), d) then
      (d <= data || data <= d) && s.next - s.start <= (s.start + s.next + 1) % TWO_16
    else
      s.start + s.next < TWO_16
  }
  lemma KeepsFew(log: Log, hist: seq<Record>, d: Record)
    requires RunInv(log, hist) && |d| <= log.maxSize && |log.segments| <= 1
    ensures Keeps(log, hist, d) <==> KeepCondition(log, d)
  {
    hide Inv;
    hide Packed;
    hide Retained;
    hide Append;
    hide SHolds;
    FlushedStart(log, hist);
    if |log.segments| == 1 {
      OneHeld(log, hist);
      OneRead(log, hist, d);
      if Keeps(log, hist, d) {
        assert ReadsBack(Append(Recovered(log), d).0, hist, log.cur.start - 1);
      }
    }
  }

  /** With one flushed segment the restarted log writes to an empty segment in front of it. */
  lemma OneRead(log: Log, hist: seq<Record>, d: Record)
    requires RunInv(log, hist) && |d| <= log.maxSize && |log.segments| == 1
    ensures forall o: nat ::
              Read(Append(Recovered(log), d).0, o).1 == if o == 0 then Success(d) else Failure(DoesNotExist)
  {
    hide Inv;
    hide Packed;
    hide Retained;
    hide CleanerSpec.Clean;
    hide VSeg.Flush;
    CurFacts(log, hist);
    CleanNothing(log);
    var listing := SomeListing(Recovered(log).cur.Flush(log.files));
    FitKeeps(Recovered(log), d, listing);
    assert [] + d + [] == d;
    assert d[..|d|] == d;
  }

  /** The file of the only segment, when it holds one record, is that record. */
  lemma OneHeld(log: Log, hist: seq<Record>)
    requires Inv(log, hist) && |log.segments| == 1
    ensures Last(log).start == Oldest(log) < log.cur.start <= |hist|
    ensures log.cur.start == 1 ==> Oldest(log) == 0 && Contents(log.files, Last(log).logName) == hist[0]
  {
    SegmentsBelow(log, hist, 0);
    assert HoldsRange(log.files, log.segments[0], hist);
    assert log.segments[0].next == NextStart(log.segments, 0, log.cur.start);
    FlattenOne(hist[0]);
    assert log.cur.start == 1 ==> hist[0..1] == [hist[0]];
    hide VHolds;
  }

  lemma FlattenOne(r: Record)
    ensures Flatten([r]) == r
  {
    assert [r] == [] + [r];
    FlattenSnoc([], r);
  }

  lemma KeepsFit(log: Log, hist: seq<Record>, d: Record)
    requires RunInv(log, hist) && |d| <= log.maxSize && |log.segments| > 1 && Fits(Recovered(log), d)
    ensures Keeps(log, hist, d) <==> KeepCondition(log, d)
  {
    hide Inv;
    hide Packed;
    hide Retained;
    hide Append;
    hide Read;
    hide Recovered;
    hide Fits;
    hide Flatten;
    hide Overlaid;
    hide Tiles;
    LastHeld(log, hist);
    var s := Last(log);
    var rs, data := hist[s.start..s.next], Contents(log.files, s.logName);
    var log' := Append(Recovered(log), d).0;
    DiskKept(log, hist, d);
    FitWritten(log, hist, d);
    forall o | Oldest(log) <= o < s.start ensures ReadsBack(log', hist, o) {
      DiskReads(log, hist, log', o);
    }
    FlushedStart(log, hist);
    LastIsNotOldest(log, hist);
    TailKept(log, hist, rs, d);
    OverlayKeeps(data, d);
  }

  lemma LastIsNotOldest(log: Log, hist: seq<Record>)
    requires Inv(log, hist) && |log.segments| > 1
    ensures Oldest(log) < Last(log).start
  {
    hide Inv;
    hide LoadVSeg;
    hide SHolds;
    LastReloaded(log, hist);
  }

  /** Whether the k-th record of the loaded segment reads back after the append. */
  lemma TailKeptAt(log: Log, hist: seq<Record>, rs: seq<Record>, d: Record, k: nat)
    requires Inv(log, hist) && |log.segments| > 1 && Fits(Recovered(log), d)
    requires Last(log).start < Last(log).next <= |hist| && rs == hist[Last(log).start..Last(log).next]
    requires k < |rs|
    ensures var s := Last(log);
            ReadsBack(Append(Recovered(log), d).0, hist, s.start + k) <==>
            k < (s.start + s.next + 1) % TWO_16 && SliceIs(rs, Overlaid(Contents(log.files, s.logName), d), k)
  {
    hide Inv;
    hide Append;
    hide Read;
    hide Recovered;
    hide Fits;
    hide Flatten;
    hide Overlaid;
    FitReads(log, hist, rs, d, k);
  }

  /** The loaded segment keeps its records exactly when its bytes do and the end test reaches them all. */
  lemma TailKept(log: Log, hist: seq<Record>, rs: seq<Record>, d: Record)
    requires Inv(log, hist) && |log.segments| > 1 && Fits(Recovered(log), d)
    requires Last(log).start < Last(log).next <= |hist| && rs == hist[Last(log).start..Last(log).next]
    ensures var s := Last(log);
            var data := Contents(log.files, s.logName);
            (forall o :: s.start <= o < s.next ==> ReadsBack(Append(Recovered(log), d).0, hist, o)) <==>
            Overlaid(data, d)[..|data|] == data && s.next - s.start <= (s.start + s.next + 1) % TWO_16
  {
    hide Inv;
    hide Append;
    hide ReadsBack;
    hide SliceIs;
    hide Recovered;
    hide Fits;
    hide Flatten;
    hide Overlaid;
    hide Tiles;
    LastHeld(log, hist);
    var s := Last(log);
    var log', data' := Append(Recovered(log), d).0, Overlaid(Contents(log.files, s.logName), d);
    var bound := (s.start + s.next + 1) % TWO_16;
    SlicesDetermine(rs, data');
    if forall o :: s.start <= o < s.next ==> ReadsBack(log', hist, o) {
      forall k | 0 <= k < |rs| ensures SliceIs(rs, data', k) && k < bound {
        TailKeptAt(log, hist, rs, d, k);
        assert ReadsBack(log', hist, s.start + k);
      }
      assert SliceIs(rs, data', |rs| - 1);
    }
    if (forall k :: 0 <= k < |rs| ==> SliceIs(rs, data', k)) && |rs| <= bound {
      forall o | s.start <= o < s.next ensures ReadsBack(log', hist, o) {
        TailKeptAt(log, hist, rs, d, o - s.start);
      }
    }
  }

  lemma KeepsSplit(log: Log, hist: seq<Record>, d: Record)
    requires RunInv(log, hist) && |d| <= log.maxSize && |log.segments| > 1 && !Fits(Recovered(log), d)
    ensures Keeps(log, hist, d) <==> KeepCondition(log, d)
  {
    hide Inv;
    hide Packed;
    hide Retained;
    hide Append;
    hide Read;
    hide Recovered;
    hide Fits;
    hide Flatten;
    hide Tiles;
    hide VSeg.Write;
    LastHeld(log, hist);
    LastIsNotOldest(log, hist);
    DiskKept(log, hist, d);
    var s, log' := Last(log), Append(Recovered(log), d).0;
    NewSegmentReads(log, hist, d);
    if s.start + s.next < TWO_16 {
      forall o | Oldest(log) <= o < log.cur.start ensures ReadsBack(log', hist, o) {
        DiskReads(log, hist, log', o);
      }
    } else {
      assert !ReadsBack(log', hist, s.next - 1);
    }
  }

  /** The segment a restarted log starts on a split holds one record; when its start wraps, it hides older ones. */
  lemma NewSegmentReads(log: Log, hist: seq<Record>, d: Record)
    requires RunInv(log, hist) && |d| <= log.maxSize && |log.segments| > 1 && !Fits(Recovered(log), d)
    ensures var s, log' := Last(log), Append(Recovered(log), d).0;
            && log'.cur.start == (s.start + s.next) % TWO_16
            && (s.start + s.next >= TWO_16 ==> Read(log', s.next - 1).1.Failure?)
  {
    hide Inv;
    hide Packed;
    hide Retained;
    hide Append;
    hide Recovered;
    hide Fits;
    hide Flatten;
    hide Tiles;
    CurFacts(log, hist);
    LastHeld(log, hist);
    DiskKept(log, hist, d);
  }

  /**
   * The exact condition under which everything flushed survives a restart and the append after
   * it. With two or more segments, a record that fits the loaded segment overwrites its start, so
   * one of the two must be a prefix of the other and the end test must still reach every record;
   * a record that does not fit starts a segment, which must not start below the flushed records.
   * With one segment the new record takes the place of the first one.
   */
  lemma RestartKeepsIff(log: Log, hist: seq<Record>, d: Record)
    requires RunInv(log, hist) && |d| <= log.maxSize
    ensures Keeps(log, hist, d) <==> KeepCondition(log, d)
  {
    hide RunInv;
    hide Keeps;
    hide KeepCondition;
    hide Fits;
    if |log.segments| <= 1 {
      KeepsFew(log, hist, d);
    } else if Fits(Recovered(log), d) {
      KeepsFit(log, hist, d);
    } else {
      KeepsSplit(log, hist, d);
    }
  }

  /** The order in which the append after a restart finds the directory listed leaves no trace. */
  lemma RestartMayOnly(log: Log, hist: seq<Record>, d: Record, log': Log, r: LogResult<u16>)
    requires Inv(log, hist) && |d| <= log.maxSize && AppendMay(Recovered(log), d, log', r)
    ensures (log', r) == Append(Recovered(log), d) && r != Failure(Panicked)
  {
    hide Inv;
    hide AppendWith;
    hide Split;
    hide IsListing;
    hide VSeg.Write;
    hide VSeg.Flush;
    hide Fits;
    var again := Recovered(log);
    var l :| && IsListing(l, again.cur.Flush(again.files))
             && r == AppendWith(again, d, l).1
             && (r != Failure(Panicked) ==> log' == AppendWith(again, d, l).0);
    OrderAfterRestart(log, hist, d, l, SomeListing(again.cur.Flush(again.files)));
    RestartNumbers(log, hist, d);
  }

  lemma OrderAfterRestart(log: Log, hist: seq<Record>, d: Record,
                          l1: seq<FileName>, l2: seq<FileName>)
    requires Inv(log, hist) && |d| <= log.maxSize
    requires IsListing(l1, Recovered(log).cur.Flush(log.files)) && IsListing(l2, Recovered(log).cur.Flush(log.files))
    ensures AppendWith(Recovered(log), d, l1) == AppendWith(Recovered(log), d, l2)
  {
    hide Inv;
    hide AppendWith;
    hide Split;
    hide IsListing;
    hide VSeg.Write;
    hide VSeg.Flush;
    CurFacts(log, hist);
    var again := Recovered(log);
    WriteAnswers(again.cur, d);
    if |log.segments| > 1 && !Fits(again, d) {
      RecoveredOverflows(log, hist, d);
      RecoveredSplits(log, hist, l1);
      RecoveredSplits(log, hist, l2);
      AppendSplitFirst(again, d, l1);
      AppendSplitFirst(again, d, l2);
      WriteAnswers(Resplit(log).cur, d);
      OrderMattersToSplits(Resplit(log), d, l1, l2);
    } else {
      OrderMattersToSplits(again, d, l1, l2);
    }
  }

  /**
   * Restarting after any legal run and appending once, in whatever orders the directory is
   * listed: what the append answers, and when everything flushed survives it.
   */
  lemma AppendAfterRestart(maxSize: nat, retention: nat, ops: seq<LogOp>, listing: seq<FileName>,
                           d: Record, log': Log, r: LogResult<u16>)
    requires maxSize < TWO_32 && |Accepted(ops, maxSize)| < TWO_16 && |d| <= maxSize
    requires Legal(EmptyLog(maxSize, retention), ops)
    requires IsListing(listing, Run(EmptyLog(maxSize, retention), ops).0.files)
    requires var again := Open(Run(EmptyLog(maxSize, retention), ops).0.files, listing, maxSize, retention);
             again.Success? ==> AppendMay(again.value, d, log', r)
    ensures var log, hist := Run(EmptyLog(maxSize, retention), ops).0, Accepted(ops, maxSize);
            && Open(log.files, listing, maxSize, retention).Success?
            && (r == Success(log.cur.start) <==> log.segments == [])
            && ((forall o :: Oldest(log) <= o < log.cur.start ==> ReadsBack(log', hist, o)) <==> KeepCondition(log, d))
  {
    hide RunInv;
    hide Run;
    hide Legal;
    hide Accepted;
    hide Read;
    hide Append;
    hide AppendMay;
    hide Recovered;
    hide KeepCondition;
    hide Open;
    hide IsListing;
    RunHolds(maxSize, retention, ops);
    var log, hist := Run(EmptyLog(maxSize, retention), ops).0, Accepted(ops, maxSize);
    RunInvIsInv(log, hist);
    OpenRecovers(log, hist, listing);
    RestartMayOnly(log, hist, d, log', r);
    RestartNumbers(log, hist, d);
    RestartKeepsIff(log, hist, d);
  }

  /**
   * What a fitting append after a restart destroys: the first record of the last segment gets the
   * new record's bytes for as long as both last, so it is another record unless these agree.
   */
  lemma RestartOverwrites(log: Log, hist: seq<Record>, d: Record)
    requires Inv(log, hist) && |log.segments| > 1 && Fits(Recovered(log), d)
    requires (Last(log).start + Last(log).next + 1) % TWO_16 != 0
    ensures var old' := hist[Last(log).start];
            Read(Append(Recovered(log), d).0, Last(log).start).1 ==
            Success(if |old'| <= |d| then d[..|old'|] else d + old'[|d|..])
  {
    hide Inv;
    hide Append;
    hide Read;
    hide Recovered;
    hide Fits;
    hide Tiles;
    hide Flatten;
    LastHeld(log, hist);
    var s := Last(log);
    var rs, data := hist[s.start..s.next], Contents(log.files, s.logName);
    FitReads(log, hist, rs, d, 0);
    FlattenCut(rs, 0);
    FlattenNothing();
    assert rs[..0] == [];
    assert data == rs[0] + Flatten(rs[1..]);
    assert Overlaid(data, d)[..|rs[0]|] == if |rs[0]| <= |d| then d[..|rs[0]|] else d + rs[0][|d|..];
  }

  // ---- flushing over a segment ----

  /** A reload finds nothing new in the directory of a log when only the bytes of its files have changed. */
  lemma OverwrittenReloads(log: Log, hist: seq<Record>, files: FileMap, cur: VSeg, listing: seq<FileName>)
    requires Inv(log, hist) && files.Keys == log.files.Keys && IsListing(listing, files)
    ensures var over := log.(files := files, cur := cur);
            Reload(over, listing) == Success(over)
  {
    hide Inv;
    hide Reload;
    hide IsListing;
    hide LoadSegment;
    hide IsFrom;
    var over := log.(files := files, cur := cur);
    SameNames(log, hist, files, cur);
    ReloadExact(over, listing);
    var r := Reload(over, listing);
    var added := r.value.segments[|over.segments|..];
    HeadIn(added);
    assert added == [];
    assert r.value.segments == over.segments + added == over.segments;
    assert over.(segments := over.segments) == over;
  }

  lemma SameNames(log: Log, hist: seq<Record>, files: FileMap, cur: VSeg)
    requires Inv(log, hist) && files.Keys == log.files.Keys
    ensures Canonical(files)
    ensures forall stem :: !Unloaded(log.(files := files, cur := cur), stem)
  {
    hide Inv;
    InvNamed(log, hist);
    forall stem | IsPair(stem, files)
      ensures IsFiveDigits(stem) && IsLoaded(log.segments, StemValue(stem))
    {
      PairIsLoaded(log.files, log.segments, FileName(stem, LogExt));
      var i :| 0 <= i < |log.segments| && stem == Stem(log.segments[i].start);
      StemExact(log.segments[i].start, stem);
      assert log.segments[i] in log.segments;
    }
  }

  /** What the first record of a flushed segment reads as after its file was flushed over. */
  lemma FlushedOverFirst(files: FileMap, s: Segment, rs: seq<Record>, v: VSeg)
    requires SHolds(files, s, rs) && rs != [] && v.logName == s.logName && v.index.name == s.indexName
    ensures s.ReadAt(v.Flush(files), 0) ==
            Success(if |rs[0]| <= |v.contents.data| then v.contents.data[..|rs[0]|]
                    else v.contents.data + rs[0][|v.contents.data|..])
  {
    hide VSeg.Flush;
    hide Flatten;
    hide Segment.ReadAt;
    NamesDiffer(s.start, s.start);
    FirstIsThere(s, rs);
    FlushOverReads(v, files, s, 0);
    var d, r := v.contents.data, s.ReadAt(v.Flush(files), 0).value;
    forall i | 0 <= i < |rs[0]| ensures r[i] == if i < |d| then d[i] else rs[0][i] {
      assert Flatten(rs)[..|rs[0]|][i] == rs[0][i];
    }
    assert r == if |rs[0]| <= |d| then d[..|rs[0]|] else d + rs[0][|d|..];
  }

  lemma FirstIsThere(s: Segment, rs: seq<Record>)
    requires Tiles(s.entries, rs) && rs != [] && s.next == s.start + |rs|
    ensures s.entries[0] == Entry(0, |rs[0]|) && !s.PastEnd(0)
    ensures |rs[0]| <= |Flatten(rs)| && Flatten(rs)[..|rs[0]|] == rs[0]
  {
    hide Flatten;
    FlattenNothing();
    FlattenCut(rs, 0);
    assert rs[..0] == [];
    assert Flatten(rs) == rs[0] + Flatten(rs[1..]);
  }

  /**
   * After a restart with one flushed segment, which then starts at 0, two records that do not fit
   * one segment together: the second append flushes the first record over the old segment's files
   * without truncating them. Offset 0 then reads as the new bytes followed by what is left of the
   * old record, offset 1 as the second record, and nothing else can be read.
   */
  lemma RestartFlushesOver(log: Log, hist: seq<Record>, d1: Record, d2: Record, o: nat)
    requires RunInv(log, hist) && |log.segments| == 1 && Last(log).start == 0
    requires |d1| <= log.maxSize && |d2| <= log.maxSize < |d1| + |d2|
    ensures 0 < |hist|
    ensures var first := Append(Recovered(log), d1);
            var second := Append(first.0, d2);
            var r := Read(second.0, o).1;
            && first.1 == Success(0) && second.1 == Success(1)
            && if o == 0 then
                 r == Success(if |hist[0]| <= |d1| then d1[..|hist[0]|] else d1 + hist[0][|d1|..])
               else if o == 1 then r == Success(d2) else r.Failure?
  {
    hide Inv;
    hide Packed;
    hide Retained;
    hide Append;
    hide CleanerSpec.Clean;
    hide VSeg.Flush;
    hide VSeg.Write;
    hide SHolds;
    hide Flatten;
    hide Segment.ReadAt;
    var v := NewVSeg(log.maxSize, 0).Write(d1).0;
    var files := v.Flush(log.files);
    OnlySegment(log, hist);
    FirstAfterRestart(log, hist, d1);
    SecondAfterRestart(log, hist, d1, d2);
    OneRecordSegment(log.maxSize, 0, d1);
    OneRecordSegment(log.maxSize, 1, d2);
    FlushedOverFirst(log.files, Last(log), hist[0..Last(log).next], v);
    var w := NewVSeg(log.maxSize, 1).Write(d2).0;
    if o > 0 {
      OneRecordReads(log.maxSize, d2, o - 1);
    }
  }

  lemma OnlySegment(log: Log, hist: seq<Record>)
    requires Inv(log, hist) && |log.segments| == 1 && Last(log).start == 0
    ensures var s := Last(log);
            && 0 < s.next <= |hist| && SHolds(log.files, s, hist[0..s.next])
            && log.maxSize < TWO_32
            && s.logName == LogName(0) && s.indexName == IndexName(0)
            && LogName(0) in log.files && IndexName(0) in log.files
  {
    assert HoldsRange(log.files, log.segments[0], hist);
  }

  /** A new segment after one record. */
  lemma OneRecordSegment(maxSize: nat, start: u16, d: Record)
    requires |d| <= maxSize < TWO_32
    ensures var v := NewVSeg(maxSize, start).Write(d).0;
            && NewVSeg(maxSize, start).Write(d).1 == Success(0)
            && v.contents.data == d && v.start == start && v.next == 1 && v.maxBytes == maxSize
            && v.logName == LogName(start) && v.index.name == IndexName(start)
  {
  }

  lemma OneRecordReads(maxSize: nat, d: Record, k: nat)
    requires |d| <= maxSize < TWO_32
    ensures var r := NewVSeg(maxSize, 1).Write(d).0.ReadAt(k).1;
            if k == 0 then r == Success(d) else r.Failure?
  {
    assert [] + d + [] == d;
    assert d[..|d|] == d;
  }

  lemma FirstAfterRestart(log: Log, hist: seq<Record>, d: Record)
    requires RunInv(log, hist) && |log.segments| == 1 && |d| <= log.maxSize
    ensures Append(Recovered(log), d) == (log.(cur := NewVSeg(log.maxSize, 0).Write(d).0), Success(0))
  {
    hide Inv;
    hide Packed;
    hide Retained;
    hide CleanerSpec.Clean;
    hide VSeg.Write;
    hide VSeg.Flush;
    CurFacts(log, hist);
    CleanNothing(log);
    var listing := SomeListing(Recovered(log).cur.Flush(log.files));
    FitKeeps(Recovered(log), d, listing);
    FitAnswers(Recovered(log), d, listing);
  }

  lemma OneIsKept(log: Log)
    requires |log.segments| == 1
    ensures Retained(log) <==> (Oldest(log) > 0 ==> CleanerSpec.Bytes(log.segments) > log.retention)
    ensures CleanerSpec.Clean(log.files, log.segments, log.retention) == (log.files, log.segments, true)
  {
  }

  lemma SecondAfterRestart(log: Log, hist: seq<Record>, d1: Record, d2: Record)
    requires RunInv(log, hist) && |log.segments| == 1 && Last(log).start == 0
    requires |d1| <= log.maxSize && |d2| <= log.maxSize < |d1| + |d2|
    ensures var v := NewVSeg(log.maxSize, 0).Write(d1).0;
            Append(log.(cur := v), d2) ==
            (log.(files := v.Flush(log.files), cur := NewVSeg(log.maxSize, 1).Write(d2).0), Success(1))
  {
    hide Inv;
    hide Packed;
    hide Retained;
    hide AppendWith;
    hide Reload;
    hide CleanerSpec.Clean;
    hide VSeg.Write;
    hide VSeg.Flush;
    hide IsListing;
    hide SHolds;
    OnlySegment(log, hist);
    OneRecordSegment(log.maxSize, 0, d1);
    OneRecordSegment(log.maxSize, 1, d2);
    var v := NewVSeg(log.maxSize, 0).Write(d1).0;
    var full, files := log.(cur := v), v.Flush(log.files);
    var listing := SomeListing(files);
    NamesDiffer(0, 0);
    FlushExact(v, log.files);
    assert files.Keys == log.files.Keys;
    WriteFails(v, d2);
    OverwrittenReloads(log, hist, files, NewVSeg(log.maxSize, 1), listing);
    AppendSplitFirst(full, d2, listing);
    var room := log.(files := files, cur := NewVSeg(log.maxSize, 1));
    OneIsKept(room);
    FitKeeps(room, d2, listing);
    FitAnswers(room, d2, listing);
  }
}
