/** The commitlog object: a list of disk segments, the segment in memory, and the directory. */
module Commitlogs {
  import opened Base
  import opened Names
  import opened Files
  import opened SegmentSpec
  import opened CleanerSpec
  import opened ScanSpec
  import opened LogSpec
  import opened LogInvariant
  import opened LogRefinement
  import opened Packing
  import opened Cleaners
  import opened VirtualSegments
  import Segments

  class Commitlog {
    const directory: Directory
    var segments: seq<Segment>
    const cleaner: Cleaner
    const maxSegmentSize: nat
    var currentSegment: VirtualSegment

    ghost function Repr(): set<object>
      reads this
    {
      {this, directory, currentSegment, currentSegment.index}
    }

    ghost function Value(): Log
      reads Repr()
    {
      Log(directory.files, segments, cleaner.retentionBytes, maxSegmentSize, currentSegment.Value())
    }

    /** A commitlog that has not looked at its directory yet. */
    constructor (dir: Directory, maxSegmentSizeBytes: nat, cleanerBytesToRetain: nat)
      ensures directory == dir && fresh(currentSegment) && fresh(currentSegment.index)
      ensures Value() == Log(dir.files, [], cleanerBytesToRetain, maxSegmentSizeBytes, NewVSeg(maxSegmentSizeBytes, 0))
    {
      directory := dir;
      segments := [];
      cleaner := Cleaner(cleanerBytesToRetain);
      maxSegmentSize := maxSegmentSizeBytes;
      currentSegment := new VirtualSegment(maxSegmentSizeBytes, 0);
    }

    /** Open a commitlog on a directory, whatever the directory holds. */
    static method New(dir: Directory, maxSegmentSizeBytes: nat, cleanerBytesToRetain: nat)
      returns (r: LogResult<Commitlog>, ghost listing: seq<FileName>)
      modifies dir
      ensures IsListing(listing, old(dir.files))
      ensures var opened' := Open(old(dir.files), listing, maxSegmentSizeBytes, cleanerBytesToRetain);
              && (r.Success? ==> fresh(r.value.Repr() - {dir}) && r.value.directory == dir
                                 && opened' == Success(r.value.Value()))
              && (r.Failure? ==> opened' == Failure(r.error))
    {
      var commitlog := new Commitlog(dir, maxSegmentSizeBytes, cleanerBytesToRetain);
      var error;
      error, listing := commitlog.LoadSegments();
      r := if error.Some? then Failure(error.value) else Success(commitlog);
    }

    /** Pair the files of the directory by stem, and collect the ones without a partner. */
    method ScanDirectory()
      returns (validSegmentFiles: seq<string>, filesToClean: seq<FileName>, ghost listing: seq<FileName>)
      ensures IsListing(listing, directory.files)
      ensures validSegmentFiles == LoadStems(listing, directory.files)
      ensures filesToClean == Orphans(listing, directory.files)
      ensures Distinct(validSegmentFiles) && forall stem :: stem in validSegmentFiles <==> IsPair(stem, directory.files)
      ensures Distinct(filesToClean) && forall f :: f in filesToClean <==>
                f in directory.files && IsSegmentFile(f) && !IsPair(f.stem, directory.files)
    {
      var entries := directory.List();
      listing := entries;
      validSegmentFiles, filesToClean := [], [];
      for i := 0 to |entries|
        invariant validSegmentFiles == LoadStems(entries[..i], directory.files)
        invariant filesToClean == Orphans(entries[..i], directory.files)
      {
        var f := entries[i];
        assert entries[..i + 1][..i] == entries[..i];
        if f.ext == LogExt {
          if FileName(f.stem, IndexExt) !in directory.files {
            filesToClean := filesToClean + [f];
          }
        } else if f.ext == IndexExt {
          if FileName(f.stem, LogExt) in directory.files {
            validSegmentFiles := validSegmentFiles + [f.stem];
          } else {
            filesToClean := filesToClean + [f];
          }
        }
      }
      assert entries[..|entries|] == entries;
      ScansAgree(entries, entries, directory.files);
      OrphansAre(entries, directory.files, FileName("", LogExt));
    }

    /** Remove these files, all of which are there. */
    method RemoveFiles(filesToClean: seq<FileName>) returns (ok: bool)
      requires Distinct(filesToClean) && forall f <- filesToClean :: f in directory.files
      modifies directory
      ensures ok && directory.files == RemoveAll(old(directory.files), filesToClean)
    {
      ok := true;
      for i := 0 to |filesToClean|
        invariant ok && directory.files == RemoveAll(old(directory.files), filesToClean[..i])
      {
        RemoveAllSnoc(old(directory.files), filesToClean, i);
        ok := directory.Remove(filesToClean[i]);
        if !ok {
          return;
        }
      }
      assert filesToClean[..|filesToClean|] == filesToClean;
    }

    /** Find the segments in the directory, load and sort them, and remove the unpaired files. */
    method LoadSegments() returns (error: Option<LogError>, ghost listing: seq<FileName>)
      requires segments == [] && currentSegment.Value() == NewVSeg(maxSegmentSize, 0)
      modifies this, directory
      ensures IsListing(listing, old(directory.files))
      ensures fresh(Repr() - old(Repr()))
      ensures var opened' := Open(old(directory.files), listing, maxSegmentSize, cleaner.retentionBytes);
              if error.Some? then opened' == Failure(error.value) else opened' == Success(Value())
    {
      hide LoadAll;
      hide LoadVSeg;
      hide Sort;
      ghost var files0 := directory.files;
      var validSegmentFiles, filesToClean;
      validSegmentFiles, filesToClean, listing := ScanDirectory();
      OrphansPresent(listing, directory.files, validSegmentFiles);
      var ok := LoadEach(validSegmentFiles);
      assert ok == LoadAll(files0, LoadStems(listing, files0)).1.Success?;
      if !ok {
        return Some(UnableToLoad), listing;
      }
      assert segments == LoadAll(files0, LoadStems(listing, files0)).1.value;
      SortLength(segments);
      if |segments| == 0 {
        return None, listing;
      }
      segments := Sort(segments);
      if |segments| > 1 {
        var current := VirtualSegment.LoadSegment(directory, segments[|segments| - 1].start, maxSegmentSize);
        if current.Failure? {
          return Some(Panicked), listing;
        }
        currentSegment := current.value;
      }
      ok := RemoveFiles(filesToClean);
      error := if ok then None else Some(UnableToTidy);
    }

    /** Load the segments with these stems, in order, adding each to the list; stops at a failure. */
    method LoadEach(stems: seq<string>) returns (ok: bool)
      modifies this`segments, directory
      ensures var (files', r) := LoadAll(old(directory.files), stems);
              && directory.files == files'
              && ok == r.Success?
              && (ok ==> segments == old(segments) + r.value)
    {
      hide SegmentSpec.LoadSegment;
      hide LoadAll;
      ghost var added := [];
      assert stems[0..] == stems && segments + [] == segments;
      ResumeNothing(LoadAll(directory.files, stems));
      for i := 0 to |stems|
        invariant segments == old(segments) + added
        invariant LoadAll(old(directory.files), stems) ==
                  Resume(added, LoadAll(directory.files, stems[i..]))
      {
        assert stems[i..][1..] == stems[i + 1..];
        ResumeStep(added, directory.files, stems[i..]);
        var loaded := Segments.LoadSegment(directory, stems[i]);
        if loaded.Failure? {
          return false;
        }
        segments := segments + [loaded.value];
        added := added + [loaded.value];
      }
      LoadNothing(directory.files);
      assert stems[|stems|..] == [] && added + [] == added;
      return true;
    }

    /** The stems met twice among the segment files of the directory. */
    method FindPairs() returns (validSegmentsFound: seq<string>, ghost listing: seq<FileName>)
      ensures IsListing(listing, directory.files)
      ensures validSegmentsFound == ReloadStems(listing)
      ensures Distinct(validSegmentsFound)
      ensures forall stem :: stem in validSegmentsFound <==> IsPair(stem, directory.files)
    {
      var entries := directory.List();
      listing := entries;
      var segmentMap: set<string> := {};
      validSegmentsFound := [];
      for i := 0 to |entries|
        invariant validSegmentsFound == ReloadStems(entries[..i])
        invariant forall stem :: stem in segmentMap <==> SeenStem(entries[..i], stem)
      {
        var f := entries[i];
        assert entries[..i + 1][..i] == entries[..i];
        assert forall g :: g in entries[..i + 1] <==> g in entries[..i] || g == f;
        if f.ext == LogExt || f.ext == IndexExt {
          if f.stem in segmentMap {
            validSegmentsFound := validSegmentsFound + [f.stem];
          } else {
            segmentMap := segmentMap + {f.stem};
          }
        }
      }
      assert entries[..|entries|] == entries;
      ScansAgree(entries, entries, directory.files);
    }

    /** Whether a segment with this starting offset is in the list. */
    method SegmentExists(segmentOffset: u16) returns (exists': bool)
      ensures exists' == IsLoaded(segments, segmentOffset)
    {
      for j := 0 to |segments|
        invariant !IsLoaded(segments[..j], segmentOffset)
      {
        assert forall s :: s in segments[..j + 1] <==> s in segments[..j] || s == segments[j];
        if segmentOffset == segments[j].start {
          return true;
        }
      }
      assert segments[..|segments|] == segments;
      return false;
    }

    /** The stems that are not loaded yet; none when one of them is not a 16-bit number. */
    method FilterNew(stems: seq<string>) returns (r: Option<seq<string>>)
      ensures (exists s <- stems :: ParseU16(s).None?) ==> r.None?
      ensures (forall s <- stems :: ParseU16(s).Some?) ==> r == Some(NewStems(stems, segments))
    {
      var segmentsToAdd: seq<string> := [];
      for i := 0 to |stems|
        invariant forall s <- stems[..i] :: ParseU16(s).Some?
        invariant segmentsToAdd == NewStems(stems[..i], segments)
      {
        var segmentOffset := ParseU16(stems[i]);
        if segmentOffset.None? {
          return None;
        }
        var segmentExists := SegmentExists(segmentOffset.value);
        NewStemsSnoc(stems[..i], stems[i], segments);
        assert stems[..i + 1] == stems[..i] + [stems[i]];
        if !segmentExists {
          segmentsToAdd := segmentsToAdd + [stems[i]];
        }
      }
      assert stems[..|stems|] == stems;
      return Some(segmentsToAdd);
    }

    /**
     * Load the segments that appeared in the directory since the last time. The answer is false
     * where the source panics: on a stem that is not a 16-bit number or a segment that cannot load.
     */
    method ReloadSegments() returns (ok: bool, ghost listing: seq<FileName>)
      modifies this`segments, directory
      ensures IsListing(listing, old(Value()).files)
      ensures var r := Reload(old(Value()), listing);
              if ok then r == Success(Value()) else r == Failure(Panicked)
    {
      hide LoadAll;
      hide NewStems;
      hide ReloadStems;
      hide IsListing;
      ghost var log := Value();
      var found, segmentsToAdd;
      found, listing := FindPairs();
      segmentsToAdd := FilterNew(found);
      if segmentsToAdd.None? {
        return false, listing;
      }
      if segmentsToAdd.value == [] {
        LoadNothing(directory.files);
        assert segments + [] == segments;
        return true, listing;
      }
      ghost var loaded := LoadAll(directory.files, segmentsToAdd.value);
      assert Reload(log, listing) ==
             if loaded.1.Failure? then Failure(Panicked)
             else Success(log.(files := loaded.0, segments := log.segments + loaded.1.value));
      ok := LoadEach(segmentsToAdd.value);
      assert Value() == log.(files := directory.files, segments := segments);
    }

    /**
     * Flush the current segment, start a new one after it, and load the flushed one from disk. The
     * answer is false where the source panics, which never happens on a log that holds its history.
     */
    method Split() returns (ok: bool, ghost listing: seq<FileName>)
      modifies Repr()
      ensures fresh(Repr() - old(Repr()))
      ensures IsListing(listing, old(Value().cur.Flush(directory.files)))
      ensures var r := LogSpec.Split(old(Value()), listing);
              if ok then r == Success(Value()) else r == Failure(Panicked)
      ensures forall hist {:trigger Inv(old(Value()), hist)} ::
                Inv(old(Value()), hist) && old(Value()).cur.start < |hist| ==>
                  ok && Value() == AfterSplit(old(Value())) && Inv(Value(), hist)
    {
      hide Inv;
      hide VSeg.Flush;
      hide Reload;
      hide AfterSplit;
      ghost var log := Value();
      currentSegment.Flush(directory);
      var nextOffset := WrapAdd16(currentSegment.startingOffset, currentSegment.nextOffset);
      currentSegment := new VirtualSegment(maxSegmentSize, nextOffset);
      ok, listing := ReloadSegments();
      SplitIs(log, listing);
    }

    method Clean() returns (ok: bool)
      modifies this`segments, directory
      ensures var (files', segments', ok') :=
                CleanerSpec.Clean(old(directory.files), old(segments), cleaner.retentionBytes);
              directory.files == files' && segments == segments' && ok == ok'
    {
      var kept;
      kept, ok := cleaner.Clean(directory, segments);
      segments := kept;
    }

    /**
     * Append a record, on any log. A log that holds its history has only one answer and one new
     * state, those of the value; when the append is also safe it holds the longer history afterwards.
     */
    method Append(data: Record) returns (r: LogResult<u16>)
      modifies Repr()
      ensures fresh(Repr() - old(Repr()))
      ensures AppendMay(old(Value()), data, Value(), r)
      ensures forall hist {:trigger Inv(old(Value()), hist)} :: Inv(old(Value()), hist) ==>
                (Value(), r) == LogSpec.Append(old(Value()), data)
      ensures forall hist {:trigger RunInv(old(Value()), hist)} ::
                RunInv(old(Value()), hist) && Safe(old(Value()), data)
                && (|data| <= maxSegmentSize ==> |hist| + 1 < TWO_16) ==>
                  RunInv(Value(), hist + (if |data| <= maxSegmentSize then [data] else []))
      decreases |currentSegment.contents.data|
    {
      hide Inv;
      hide RunInv;
      hide VSeg.Write;
      hide VSeg.Flush;
      hide CleanerSpec.Clean;
      hide LogSpec.Append;
      hide LogSpec.Split;
      hide AppendMay;
      hide Safe;
      ghost var log := Value();
      WriteOutcomes(log, data);
      var written := currentSegment.Write(data);
      match written {
        case Success(segmentOffset) =>
          var commitlogOffset := WrapAdd16(currentSegment.startingOffset, segmentOffset);
          var cleaned := Clean();
          r := if cleaned then Success(commitlogOffset) else Failure(UnableToClean);
        case Failure(WouldOverflow) =>
          var ok, listing := Split();
          if ok {
            ghost var room := Value();
            SplitMakesRoom(log, data, listing, room);
            r := Append(data);
            AppendAfterSplit(log, data, listing, room, Value(), r);
          } else {
            r := Failure(Panicked);
            AppendPanics(log, data, listing, Value());
          }
        case Failure(_) =>
          r := Failure(UnknownWrite);
      }
      AppendMayKeeps(log, data, Value(), r);
    }

    /** Read a record by its offset in the whole log: in memory, or in the segment the scan stops at. */
    method Read(offset: nat) returns (r: LogResult<Record>)
      modifies currentSegment
      ensures (Value(), r) == LogSpec.Read(old(Value()), offset)
    {
      if currentSegment.startingOffset <= offset {
        var found := currentSegment.ReadAt(offset - currentSegment.startingOffset);
        match found
        case Success(buffer) =>
          return Success(buffer);
        case Failure(error) =>
          return Failure(if error == OutOfBounds then DoesNotExist else Unexpected);
      }
      var segmentIndex: Option<nat> := None;
      for i := 0 to |segments|
        invariant segmentIndex == if i == 0 then None else Some(i - 1)
        invariant CountAtOrBefore(segments, offset) == i + CountAtOrBefore(segments[i..], offset)
      {
        if segments[i].start <= offset {
          segmentIndex := Some(i);
          assert segments[i..][1..] == segments[i + 1..];
        } else {
          break;
        }
      }
      if segmentIndex.None? {
        return Failure(DoesNotExist);
      }
      CountedStartsBefore(segments, offset);
      var segment := segments[segmentIndex.value];
      var found := Segments.ReadAt(directory, segment, offset - segment.start);
      match found
      case Success(buffer) =>
        return Success(buffer);
      case Failure(error) =>
        return Failure(if error == OutOfBounds then DoesNotExist else Unexpected);
    }

    /**
     * The first offset of the oldest segment on disk, 0 when nothing was flushed: the least
     * readable offset of every log that holds at least one record.
     */
    method GetOldestOffset() returns (o: nat)
      ensures o == Oldest(Value())
      ensures forall hist {:trigger Inv(Value(), hist)} :: Inv(Value(), hist) && |hist| > 0 ==>
                && o < |hist|
                && LogSpec.Read(Value(), o).1 == Success(hist[o])
                && forall p: nat :: p < o ==> LogSpec.Read(Value(), p).1.Failure?
    {
      hide Inv;
      hide LogSpec.Read;
      if |segments| == 0 {
        o := 0;
      } else {
        o := segments[0].start;
      }
      forall hist | Inv(Value(), hist) && |hist| > 0
        ensures o < |hist| && LogSpec.Read(Value(), o).1 == Success(hist[o])
        ensures forall p: nat :: p < o ==> LogSpec.Read(Value(), p).1.Failure?
      {
        OldestIsLeast(Value(), hist);
      }
    }
  }

  // ---- lemmas used by the loops above ----

  /** The result of loading the rest, with what was loaded before it. */
  function Resume(added: seq<Segment>, rest: (FileMap, SegResult<seq<Segment>>)): (FileMap, SegResult<seq<Segment>>) {
    (rest.0, if rest.1.Success? then Success(added + rest.1.value) else rest.1)
  }

  lemma LoadNothing(files: FileMap)
    ensures LoadAll(files, []) == (files, Success([]))
  {
  }

  /** One more segment loaded, when the rest is resumed. */
  lemma ResumeStep(added: seq<Segment>, files: FileMap, stems: seq<string>)
    requires stems != []
    ensures var (f1, r1) := LoadSegment(files, stems[0]);
            Resume(added, LoadAll(files, stems)) ==
            if r1.Success? then Resume(added + [r1.value], LoadAll(f1, stems[1..])) else (f1, Failure(r1.error))
  {
    hide LoadSegment;
    var (f1, r1) := LoadSegment(files, stems[0]);
    if r1.Success? {
      var (f2, r2) := LoadAll(f1, stems[1..]);
      assert r2.Success? ==> added + [r1.value] + r2.value == added + ([r1.value] + r2.value);
    }
  }

  lemma ResumeNothing(rest: (FileMap, SegResult<seq<Segment>>))
    ensures Resume([], rest) == rest
  {
    assert rest.1.Success? ==> [] + rest.1.value == rest.1.value;
  }

  lemma {:induction false} NewStemsSnoc(stems: seq<string>, stem: string, segs: seq<Segment>)
    requires forall s <- stems :: ParseU16(s).Some?
    requires ParseU16(stem).Some?
    ensures forall s <- stems + [stem] :: ParseU16(s).Some?
    ensures NewStems(stems + [stem], segs) ==
            NewStems(stems, segs) + (if IsLoaded(segs, ParseU16(stem).value) then [] else [stem])
  {
    if stems != [] {
      assert stems[0] in stems;
      assert forall s <- stems[1..] :: s in stems;
      NewStemsSnoc(stems[1..], stem, segs);
      assert (stems + [stem])[1..] == stems[1..] + [stem];
    }
  }

  /** A safe append keeps everything that holds of a log between operations. */
  lemma AppendKeepsValid(log: Log, hist: seq<Record>, d: Record)
    ensures RunInv(log, hist) && Safe(log, d) && (|d| <= log.maxSize ==> |hist| + 1 < TWO_16) ==>
              RunInv(LogSpec.Append(log, d).0, hist + (if |d| <= log.maxSize then [d] else []))
  {
    hide Inv;
    hide Packed;
    hide Retained;
    hide LogSpec.Append;
    if RunInv(log, hist) && Safe(log, d) && (|d| <= log.maxSize ==> |hist| + 1 < TWO_16) {
      AppendRefines(log, hist, d);
      if |d| <= log.maxSize {
        AppendKeepsRunInv(log, hist, d);
      } else {
        assert hist + [] == hist;
      }
    }
  }

  /** What a split is on a log that holds its history, whatever the listing. */
  lemma SplitIs(log: Log, listing: seq<FileName>)
    ensures forall hist {:trigger Inv(log, hist)} ::
              Inv(log, hist) && log.cur.start < |hist| && IsListing(listing, log.cur.Flush(log.files)) ==>
                LogSpec.Split(log, listing) == Success(AfterSplit(log)) && Inv(AfterSplit(log), hist)
  {
    hide Inv;
    hide VSeg.Flush;
    hide Reload;
    hide IsListing;
    forall hist | Inv(log, hist) && log.cur.start < |hist| && IsListing(listing, log.cur.Flush(log.files))
      ensures LogSpec.Split(log, listing) == Success(AfterSplit(log)) && Inv(AfterSplit(log), hist)
    {
      SplitMoves(log, hist, listing);
      AfterSplitInv(log, hist);
    }
  }

  /** The outcomes of the write that end an append, and what the write does to make it split. */
  lemma WriteOutcomes(log: Log, d: Record)
    ensures var (cur', w) := log.cur.Write(d);
            && (w.Success? ==>
                  var (files', segs', ok) := CleanerSpec.Clean(log.files, log.segments, log.retention);
                  AppendMay(log, d, log.(cur := cur', files := files', segments := segs'),
                            if ok then Success(WrapAdd16(log.cur.start, w.value)) else Failure(UnableToClean)))
            && (w == Failure(WouldOverflow) ==> cur' == log.cur && |log.cur.contents.data| > 0)
            && (w.Failure? && w.error != WouldOverflow ==>
                  AppendMay(log, d, log.(cur := cur'), Failure(UnknownWrite)))
  {
    hide CleanerSpec.Clean;
    hide VSeg.Flush;
    hide IsListing;
    var listing := SomeListing(log.cur.Flush(log.files));
    var (cur', w) := log.cur.Write(d);
    if w.Success? {
      var (files', segs', ok) := CleanerSpec.Clean(log.files, log.segments, log.retention);
      assert AppendWith(log, d, listing) ==
             (log.(cur := cur', files := files', segments := segs'),
              if ok then Success(WrapAdd16(log.cur.start, w.value)) else Failure(UnableToClean));
    } else if w.error != WouldOverflow {
      assert AppendWith(log, d, listing) == (log.(cur := cur'), Failure(UnknownWrite));
    }
  }

  /** An append after a split is an append of the log that was split; there is no second split. */
  lemma AppendAfterSplit(log: Log, d: Record, listing: seq<FileName>, room: Log,
                         log': Log, r: LogResult<u16>)
    requires log.cur.Write(d) == (log.cur, Failure(WouldOverflow))
    requires IsListing(listing, log.cur.Flush(log.files)) && LogSpec.Split(log, listing) == Success(room)
    requires AppendMay(room, d, log', r)
    ensures AppendMay(log, d, log', r)
  {
    hide VSeg.Flush;
    hide IsListing;
    hide AppendWith;
    var l :| && IsListing(l, room.cur.Flush(room.files))
             && r == AppendWith(room, d, l).1
             && (r != Failure(Panicked) ==> log' == AppendWith(room, d, l).0);
    SplitMakesRoom(log, d, listing, room);
    OrderMattersToSplits(room, d, l, listing);
    AppendSplitFirst(log, d, listing);
  }

  lemma SplitMakesRoom(log: Log, d: Record, listing: seq<FileName>, room: Log)
    requires log.cur.Write(d) == (log.cur, Failure(WouldOverflow))
    requires LogSpec.Split(log, listing) == Success(room)
    ensures room.cur.Write(d).1 != Failure(WouldOverflow)
    ensures room.cur.contents.data == []
  {
    hide LoadAll;
    hide NewStems;
    hide ReloadStems;
    hide VSeg.Flush;
  }

  lemma AppendPanics(log: Log, d: Record, listing: seq<FileName>, log': Log)
    requires log.cur.Write(d) == (log.cur, Failure(WouldOverflow))
    requires IsListing(listing, log.cur.Flush(log.files)) && LogSpec.Split(log, listing) == Failure(Panicked)
    ensures AppendMay(log, d, log', Failure(Panicked))
  {
    hide LogSpec.Split;
    hide VSeg.Write;
    hide VSeg.Flush;
    hide IsListing;
    AppendSplitFirst(log, d, listing);
  }

  /** What an append may do on a log that holds its history. */
  lemma AppendMayKeeps(log: Log, d: Record, log': Log, r: LogResult<u16>)
    requires AppendMay(log, d, log', r)
    ensures forall hist {:trigger Inv(log, hist)} :: Inv(log, hist) ==> (log', r) == LogSpec.Append(log, d)
    ensures forall hist {:trigger RunInv(log, hist)} ::
              RunInv(log, hist) && Safe(log, d) && (|d| <= log.maxSize ==> |hist| + 1 < TWO_16) ==>
                RunInv(log', hist + (if |d| <= log.maxSize then [d] else []))
  {
    hide Inv;
    hide RunInv;
    hide AppendMay;
    hide LogSpec.Append;
    hide Safe;
    forall hist | Inv(log, hist) ensures (log', r) == LogSpec.Append(log, d) {
      AppendMayOnly(log, hist, d, log', r);
    }
    forall hist | RunInv(log, hist) && Safe(log, d) && (|d| <= log.maxSize ==> |hist| + 1 < TWO_16)
      ensures RunInv(log', hist + (if |d| <= log.maxSize then [d] else []))
    {
      RunInvIsInv(log, hist);
      AppendMayOnly(log, hist, d, log', r);
      AppendKeepsValid(log, hist, d);
    }
  }

  lemma {:induction false} SortLength(segs: seq<Segment>)
    ensures |Sort(segs)| == |segs|
  {
    if segs != [] {
      SortLength(segs[..|segs| - 1]);
      InsertLength(segs[|segs| - 1], Sort(segs[..|segs| - 1]));
    }
  }

  lemma {:induction false} InsertLength(s: Segment, sorted: seq<Segment>)
    ensures |Insert(s, sorted)| == |sorted| + 1
  {
    if !(sorted == [] || s.start < sorted[0].start) {
      InsertLength(s, sorted[1..]);
    }
  }

  /** Loading segments never removes a file. */
  lemma {:induction false} LoadAllGrows(files: FileMap, stems: seq<string>)
    ensures files.Keys <= LoadAll(files, stems).0.Keys
    decreases |stems|
  {
    if stems != [] {
      LoadAllGrows(LoadSegment(files, stems[0]).0, stems[1..]);
    }
  }

  lemma OrphansPresent(listing: seq<FileName>, files: FileMap, stems: seq<string>)
    requires IsListing(listing, files)
    ensures Distinct(Orphans(listing, files))
    ensures forall f <- Orphans(listing, files) :: f in LoadAll(files, stems).0
  {
    ScansAgree(listing, listing, files);
    LoadAllGrows(files, stems);
    OrphansAre(listing, files, FileName("", LogExt));
  }

  lemma RemoveAllSnoc(files: FileMap, names: seq<FileName>, i: nat)
    requires i < |names| && Distinct(names) && forall f <- names :: f in files
    ensures names[i] in RemoveAll(files, names[..i])
    ensures RemoveAll(files, names[..i + 1]) == RemoveAll(files, names[..i]) - {names[i]}
  {
    assert names[..i + 1] == names[..i] + [names[i]];
  }

  /** Of a log that holds a record, the oldest offset is the least one that can be read. */
  lemma OldestIsLeast(log: Log, hist: seq<Record>)
    requires Inv(log, hist) && |hist| > 0
    ensures Oldest(log) < |hist| && LogSpec.Read(log, Oldest(log)).1 == Success(hist[Oldest(log)])
    ensures forall p: nat :: p < Oldest(log) ==> LogSpec.Read(log, p).1.Failure?
  {
    hide Inv;
    hide LogSpec.Read;
    FlushedStart(log, hist);
    ReadRefines(log, hist, Oldest(log));
    forall p: nat | p < Oldest(log) ensures LogSpec.Read(log, p).1.Failure? {
      ReadRefines(log, hist, p);
    }
  }
}
