/** The commitlog as a value: append, split, clean, reload, two-level read, and start-up. */
module LogSpec {
  import opened Base
  import opened Names
  import opened Files
  import opened SegmentSpec
  import opened CleanerSpec
  import opened ScanSpec

  datatype LogError =
    | DoesNotExist      // "Offset does not exist in the commitlog"
    | Unexpected        // "Unexpected error when reading commitlog"
    | UnknownWrite      // "Unknown error when writing occured"
    | UnableToClean     // "Unable to clean commitlog"
    | UnableToLoad      // "unable to load segment"
    | UnableToTidy      // "unable to remove files during cleanup"
    | Panicked          // a failed `expect`

  type LogResult<+T> = Result<T, LogError>

  datatype Log = Log(files: FileMap, segments: seq<Segment>, retention: nat, maxSize: nat, cur: VSeg)

  // ---- loading ----

  /** Load the segments with the given stems, in that order, stopping at the first failure. */
  function LoadAll(files: FileMap, stems: seq<string>): (FileMap, SegResult<seq<Segment>>)
    decreases |stems|
  {
    if stems == [] then
      (files, Success([]))
    else
      var (f1, r1) := LoadSegment(files, stems[0]);
      if r1.Failure? then
        (f1, Failure(r1.error))
      else
        var (f2, r2) := LoadAll(f1, stems[1..]);
        (f2, if r2.Failure? then r2 else Success([r1.value] + r2.value))
  }

  predicate IsLoaded(segs: seq<Segment>, start: u16) {
    exists s <- segs :: s.start == start
  }

  /** The stems whose offset is not the start of a segment already loaded. */
  function NewStems(stems: seq<string>, segs: seq<Segment>): seq<string>
    requires forall s <- stems :: ParseU16(s).Some?
  {
    if stems == [] then
      []
    else
      (if IsLoaded(segs, ParseU16(stems[0]).value) then [] else [stems[0]])
      + NewStems(stems[1..], segs)
  }

  /** Load the segments that appeared in the directory since the last time. */
  ghost function Reload(log: Log, listing: seq<FileName>): LogResult<Log> {
    var stems := ReloadStems(listing);
    if exists s <- stems :: ParseU16(s).None? then
      Failure(Panicked)
    else
      var (files', r) := LoadAll(log.files, NewStems(stems, log.segments));
      if r.Failure? then Failure(Panicked)
      else Success(log.(files := files', segments := log.segments + r.value))
  }

  function Insert(s: Segment, sorted: seq<Segment>): seq<Segment> {
    if sorted == [] || s.start < sorted[0].start then [s] + sorted
    else [sorted[0]] + Insert(s, sorted[1..])
  }

  /** Stable sort by starting offset. */
  function Sort(segs: seq<Segment>): seq<Segment> {
    if segs == [] then [] else Insert(segs[|segs| - 1], Sort(segs[..|segs| - 1]))
  }

  function RemoveAll(files: FileMap, names: seq<FileName>): FileMap {
    files - set f <- names
  }

  /** Open a commitlog on a directory. */
  ghost function Open(files: FileMap, listing: seq<FileName>, maxSize: nat, retention: nat): LogResult<Log> {
    var (files', r) := LoadAll(files, LoadStems(listing, files));
    if r.Failure? then
      Failure(UnableToLoad)
    else
      var segs := Sort(r.value);
      if |segs| == 0 then
        Success(Log(files', [], retention, maxSize, NewVSeg(maxSize, 0)))
      else
        var cur :=
          if |segs| > 1 then LoadVSeg(files', segs[|segs| - 1].start, maxSize)
          else Success(NewVSeg(maxSize, 0));
        if cur.Failure? then
          Failure(Panicked)
        else
          Success(Log(RemoveAll(files', Orphans(listing, files)), segs, retention, maxSize, cur.value))
  }

  // ---- appending ----

  /**
   * Flush the current segment, start an empty one after it, and load the flushed one from disk,
   * the directory then being listed in the given order.
   */
  ghost function Split(log: Log, listing: seq<FileName>): LogResult<Log> {
    var flushed := log.(files := log.cur.Flush(log.files),
                        cur := NewVSeg(log.maxSize, WrapAdd16(log.cur.start, log.cur.next)));
    Reload(flushed, listing)
  }

  /** Append a record; `listing` is the order the directory is listed in if the log splits. */
  ghost function AppendWith(log: Log, d: Record, listing: seq<FileName>): (Log, LogResult<u16>)
    decreases |log.cur.contents.data|
  {
    var (cur', w) := log.cur.Write(d);
    var written := log.(cur := cur');
    match w
    case Success(k) =>
      var (files', segs', ok) := CleanerSpec.Clean(log.files, log.segments, log.retention);
      (written.(files := files', segments := segs'),
       if ok then Success(WrapAdd16(log.cur.start, k)) else Failure(UnableToClean))
    case Failure(WouldOverflow) =>
      var s := Split(written, listing);
      if s.Failure? then (written, Failure(Panicked))
      else AppendWith(s.value, d, listing)
    case Failure(_) => (written, Failure(UnknownWrite))
  }

  /** An append, for one order of the directory. */
  ghost function Append(log: Log, d: Record): (Log, LogResult<u16>) {
    AppendWith(log, d, SomeListing(log.cur.Flush(log.files)))
  }

  /**
   * What an append may do, whatever order the directory is listed in. Nothing is said of the log
   * after a panic.
   */
  ghost predicate AppendMay(log: Log, d: Record, log': Log, r: LogResult<u16>) {
    exists listing ::
      && IsListing(listing, log.cur.Flush(log.files))
      && r == AppendWith(log, d, listing).1
      && (r != Failure(Panicked) ==> log' == AppendWith(log, d, listing).0)
  }

  /** The order of the directory matters only to an append that splits. */
  lemma OrderMattersToSplits(log: Log, d: Record, l1: seq<FileName>, l2: seq<FileName>)
    requires log.cur.Write(d).1 != Failure(WouldOverflow)
    ensures AppendWith(log, d, l1) == AppendWith(log, d, l2)
    ensures AppendWith(log, d, l1).1 != Failure(Panicked)
  {
    hide VSeg.Write;
    hide CleanerSpec.Clean;
  }

  // ---- reading ----

  /** How many leading segments start at or before `o`. */
  function CountAtOrBefore(segs: seq<Segment>, o: nat): (k: nat)
    ensures k <= |segs|
  {
    if segs == [] || segs[0].start > o then 0 else 1 + CountAtOrBefore(segs[1..], o)
  }

  function ReadError(e: SegmentError): LogError {
    if e == OutOfBounds then DoesNotExist else Unexpected
  }

  function AsLogResult(r: SegResult<Record>): LogResult<Record> {
    match r
    case Success(d) => Success(d)
    case Failure(e) => Failure(ReadError(e))
  }

  /** Read one record by its offset in the whole log. */
  function Read(log: Log, o: nat): (Log, LogResult<Record>) {
    if log.cur.start <= o then
      var (cur', r) := log.cur.ReadAt(o - log.cur.start);
      (log.(cur := cur'), AsLogResult(r))
    else
      var k := CountAtOrBefore(log.segments, o);
      if k == 0 then
        (log, Failure(DoesNotExist))
      else
        CountedStartsBefore(log.segments, o);
        var s := log.segments[k - 1];
        (log, AsLogResult(s.ReadAt(log.files, o - s.start)))
  }

  lemma CountedStartsBefore(segs: seq<Segment>, o: nat)
    ensures forall i :: 0 <= i < CountAtOrBefore(segs, o) ==> segs[i].start <= o
  {
    if segs != [] && segs[0].start <= o {
      CountedStartsBefore(segs[1..], o);
    }
  }

  function Oldest(log: Log): nat {
    if |log.segments| == 0 then 0 else log.segments[0].start
  }
}
