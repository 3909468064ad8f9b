/** Polling: read from the group's offset until the log ends, then wait for more until the timeout. */
module ConsumerSpec {
  import opened Base
  import opened Names
  import opened Files
  import opened SegmentSpec
  import opened LogSpec
  import opened LogInvariant
  import opened LogRefinement

  datatype ConsumerError =
    | ReadFailed      // "Error when reading commitlong"
    | PollPanicked    // a failed `expect` while reloading

  type PollResult = Result<seq<Record>, ConsumerError>

  /** Times are in nanoseconds. */
  const MILLISECOND: nat := 1_000_000
  const PAUSE: nat := 100 * MILLISECOND

  /**
   * What the clock adds on its own: `clock(i)` passes before its i-th reading, on top of the
   * pauses of the loop.
   */
  type Clock = nat -> nat

  /** No record lies at or beyond this offset, whatever the log: both end tests are 16 bits wide. */
  const OFFSET_LIMIT: nat := 0x2_0000

  lemma ReadBelowLimit(log: Log, o: nat)
    requires Read(log, o).1.Success?
    ensures o < OFFSET_LIMIT
  {
    if o < log.cur.start {
      CountedStartsBefore(log.segments, o);
    }
  }

  /**
   * The polling loop. The clock is read again only after the log has ended; each such turn adds
   * at least the pause, and each successful read brings the offset closer to the limit, so the
   * loop ends.
   */
  ghost function PollLoop(log: Log, offset: u32, timeout: nat, elapsed: nat, clock: Clock, turn: nat,
                          records: seq<Record>): (Log, u32, PollResult)
    decreases OFFSET_LIMIT - offset, timeout - elapsed
  {
    if timeout <= elapsed then
      (log, offset, Success(records))
    else
      var (log', r) := Read(log, offset);
      match r
      case Success(record) =>
        ReadBelowLimit(log, offset);
        PollLoop(log', WrapAdd32(offset, 1), timeout, elapsed, clock, turn, records + [record])
      case Failure(DoesNotExist) =>
        var again := Reload(log', SomeListing(log'.files));
        if again.Failure? then
          (log', offset, Failure(PollPanicked))
        else
          PollLoop(again.value, offset, timeout, elapsed + PAUSE + clock(turn), clock, turn + 1, records)
      case Failure(_) =>
        (log', offset, Failure(ReadFailed))
  }

  ghost function Poll(log: Log, offset: u32, timeoutMillis: nat, clock: Clock): (Log, u32, PollResult) {
    var start := Reload(log, SomeListing(log.files));
    if start.Failure? then
      (log, offset, Failure(PollPanicked))
    else
      PollLoop(start.value, offset, timeoutMillis * MILLISECOND, clock(0), clock, 1, [])
  }

  // ---- polling in whatever order the directory is listed ----

  /**
   * What the loop may do when the directory may be listed in another order at every reload.
   * Nothing is said of the log after a panic.
   */
  ghost predicate PollLoopMay(log: Log, offset: u32, timeout: nat, elapsed: nat, clock: Clock, turn: nat,
                              records: seq<Record>, log': Log, offset': u32, r: PollResult)
    decreases OFFSET_LIMIT - offset, timeout - elapsed
  {
    if timeout <= elapsed then
      (log', offset', r) == (log, offset, Success(records))
    else
      var (next, found) := Read(log, offset);
      match found
      case Success(record) =>
        ReadBelowLimit(log, offset);
        PollLoopMay(next, WrapAdd32(offset, 1), timeout, elapsed, clock, turn, records + [record], log', offset', r)
      case Failure(DoesNotExist) =>
        exists listing ::
          && IsListing(listing, next.files)
          && var again := Reload(next, listing);
             if again.Failure? then
               offset' == offset && r == Failure(PollPanicked)
             else
               PollLoopMay(again.value, offset, timeout, elapsed + PAUSE + clock(turn), clock, turn + 1, records,
                           log', offset', r)
      case Failure(_) =>
        (log', offset', r) == (next, offset, Failure(ReadFailed))
  }

  ghost predicate PollMay(log: Log, offset: u32, timeoutMillis: nat, clock: Clock,
                          log': Log, offset': u32, r: PollResult)
  {
    exists listing ::
      && IsListing(listing, log.files)
      && var start := Reload(log, listing);
         if start.Failure? then
           offset' == offset && r == Failure(PollPanicked)
         else
           PollLoopMay(start.value, offset, timeoutMillis * MILLISECOND, clock(0), clock, 1, [], log', offset', r)
  }

  /** One turn of the loop, seen from what may come after it. */
  lemma LoopMayTurn(log: Log, offset: u32, timeout: nat, elapsed: nat, clock: Clock, turn: nat,
                    records: seq<Record>, listing: seq<FileName>,
                    log': Log, offset': u32, r: PollResult)
    requires elapsed < timeout
    ensures var (next, found) := Read(log, offset);
            if found.Success? then
              offset < OFFSET_LIMIT
              && (PollLoopMay(next, offset + 1, timeout, elapsed, clock, turn, records + [found.value],
                              log', offset', r)
                  ==> PollLoopMay(log, offset, timeout, elapsed, clock, turn, records, log', offset', r))
            else if found.error == DoesNotExist then
              IsListing(listing, next.files) ==>
                if Reload(next, listing).Failure? then
                  PollLoopMay(log, offset, timeout, elapsed, clock, turn, records, log', offset, Failure(PollPanicked))
                else
                  PollLoopMay(Reload(next, listing).value, offset, timeout, elapsed + PAUSE + clock(turn), clock,
                              turn + 1, records, log', offset', r)
                  ==> PollLoopMay(log, offset, timeout, elapsed, clock, turn, records, log', offset', r)
            else
              PollLoopMay(log, offset, timeout, elapsed, clock, turn, records, next, offset, Failure(ReadFailed))
  {
    hide Read;
    hide Reload;
    hide IsListing;
    if Read(log, offset).1.Success? {
      ReadBelowLimit(log, offset);
    }
  }

  /** On a log that holds its history the order of the directory does not matter, and nothing panics. */
  lemma {:induction false} LoopMayOnly(log: Log, hist: seq<Record>, offset: u32, timeout: nat, elapsed: nat,
                                       clock: Clock, turn: nat, records: seq<Record>,
                                       log': Log, offset': u32, r: PollResult)
    requires Inv(log, hist)
    requires PollLoopMay(log, offset, timeout, elapsed, clock, turn, records, log', offset', r)
    ensures (log', offset', r) == PollLoop(log, offset, timeout, elapsed, clock, turn, records)
    ensures r != Failure(PollPanicked)
    decreases OFFSET_LIMIT - offset, timeout - elapsed
  {
    hide Inv;
    hide Read;
    hide Reload;
    hide IsListing;
    if elapsed < timeout {
      var (next, found) := Read(log, offset);
      ReadRefines(log, hist, offset);
      match found
      case Success(record) =>
        ReadBelowLimit(log, offset);
        LoopMayOnly(next, hist, offset + 1, timeout, elapsed, clock, turn, records + [record], log', offset', r);
      case Failure(DoesNotExist) =>
        forall listing | IsListing(listing, next.files) ensures Reload(next, listing) == Success(next) {
          ReloadChangesNothing(next, hist, listing);
        }
        var later := elapsed + PAUSE + clock(turn);
        LoopMayOnly(next, hist, offset, timeout, later, clock, turn + 1, records, log', offset', r);
      case Failure(_) =>
    }
  }

  lemma PollMayOnly(log: Log, hist: seq<Record>, offset: u32, timeoutMillis: nat, clock: Clock,
                    log': Log, offset': u32, r: PollResult)
    requires Inv(log, hist) && PollMay(log, offset, timeoutMillis, clock, log', offset', r)
    ensures (log', offset', r) == Poll(log, offset, timeoutMillis, clock) && r != Failure(PollPanicked)
  {
    hide Inv;
    hide Reload;
    hide IsListing;
    hide PollLoop;
    hide PollLoopMay;
    forall listing | IsListing(listing, log.files) ensures Reload(log, listing) == Success(log) {
      ReloadChangesNothing(log, hist, listing);
    }
    LoopMayOnly(log, hist, offset, timeoutMillis * MILLISECOND, clock(0), clock, 1, [], log', offset', r);
  }

  /** A group that fell behind the oldest record starts there. */
  function Initialized(offset: u32, oldest: nat): nat {
    Max(offset, oldest)
  }

  /** The log with its cursor at the end. */
  function Drained(log: Log): Log {
    log.(cur := log.cur.(contents := log.cur.contents.(pos := |log.cur.contents.data|)))
  }

  /** A read of the last record leaves the cursor at the end, and an empty segment has it there anyway. */
  lemma LastReadDrains(log: Log, hist: seq<Record>)
    requires Inv(log, hist) && Oldest(log) < |hist|
    ensures Read(log, |hist| - 1).0.cur.contents.AtEnd()
  {
    hide SHolds;
    var o := |hist| - 1;
    var tail := hist[log.cur.start..];
    ReadRefines(log, hist, o);
    if log.cur.start <= o {
      assert tail[..|tail|] == tail;
    } else {
      assert tail == [];
    }
  }

  lemma CursorOnly(log: Log, hist: seq<Record>, o: nat)
    requires Inv(log, hist)
    ensures var log' := Read(log, o).0;
            && Drained(log') == Drained(log)
            && Oldest(log') == Oldest(log)
            && log'.cur.start == log.cur.start
  {
    hide Inv;
    hide Read;
    ReadRefines(log, hist, o);
  }

  /**
   * The loop drains the log: once entered it reads on to the last record, leaves the cursor at
   * the end, and only then looks at the clock. It answers with the records only if the log has
   * never split; otherwise the read after the last record is an unexpected error, and the
   * records read are dropped although the offset has moved past them.
   */
  lemma {:induction false} LoopDrains(log: Log, hist: seq<Record>, offset: u32, timeout: nat, elapsed: nat,
                                      clock: Clock, turn: nat, records: seq<Record>)
    requires Inv(log, hist) && Oldest(log) <= offset <= |hist| && elapsed < timeout
    requires offset == |hist| ==> log.cur.contents.AtEnd()
    ensures PollLoop(log, offset, timeout, elapsed, clock, turn, records) ==
            (Drained(log), |hist|,
             if log.cur.start == 0 then Success(records + hist[offset..]) else Failure(ReadFailed))
    decreases |hist| - offset, timeout - elapsed
  {
    hide Inv;
    hide Read;
    hide Reload;
    var (log', r) := Read(log, offset);
    ReadRefines(log, hist, offset);
    SizeBound(log, hist);
    if offset < |hist| {
      if offset == |hist| - 1 {
        LastReadDrains(log, hist);
      }
      CursorOnly(log, hist, offset);
      LoopDrains(log', hist, offset + 1, timeout, elapsed, clock, turn, records + [hist[offset]]);
      assert records + [hist[offset]] + hist[offset + 1..] == records + hist[offset..];
    } else {
      assert records + hist[offset..] == records;
      if log.cur.start == 0 {
        ReloadChangesNothing(log, hist, SomeListing(log.files));
        if elapsed + PAUSE + clock(turn) < timeout {
          LoopDrains(log, hist, offset, timeout, elapsed + PAUSE + clock(turn), clock, turn + 1, records);
        }
      }
    }
  }

  lemma SizeBound(log: Log, hist: seq<Record>)
    requires Inv(log, hist)
    ensures |hist| < TWO_16 && log.cur.start <= |hist|
  {
  }

  /**
   * A poll of a log whose cursor is at the end leaves the log exactly as it was. When the timeout
   * has already passed it reads nothing; otherwise it moves the offset to the end of the log, and
   * returns the records from the old offset on if and only if the log has never split.
   */
  lemma PollDrains(log: Log, hist: seq<Record>, offset: u32, timeoutMillis: nat, clock: Clock)
    requires Inv(log, hist) && Oldest(log) <= offset <= |hist| && log.cur.contents.AtEnd()
    ensures Poll(log, offset, timeoutMillis, clock) ==
            if timeoutMillis * MILLISECOND <= clock(0) then
              (log, offset, Success([]))
            else
              (log, |hist|, if log.cur.start == 0 then Success(hist[offset..]) else Failure(ReadFailed))
  {
    hide Inv;
    hide Read;
    hide Reload;
    SizeBound(log, hist);
    ReloadChangesNothing(log, hist, SomeListing(log.files));
    if clock(0) < timeoutMillis * MILLISECOND {
      LoopDrains(log, hist, offset, timeoutMillis * MILLISECOND, clock(0), clock, 1, []);
      assert [] + hist[offset..] == hist[offset..];
    }
  }

  // ---- the clock ----

  /**
   * On any log, a poll reads the clock once at the start and then at most once every 100
   * milliseconds of its timeout: two clocks that agree on those readings give the same poll.
   */
  lemma ClockPrefix(log: Log, offset: u32, timeoutMillis: nat, c1: Clock, c2: Clock)
    requires c1(0) == c2(0) && forall i: nat :: 100 * i < timeoutMillis ==> c1(i + 1) == c2(i + 1)
    ensures Poll(log, offset, timeoutMillis, c1) == Poll(log, offset, timeoutMillis, c2)
  {
    hide Reload;
    hide PollLoop;
    var start := Reload(log, SomeListing(log.files));
    if start.Success? {
      LoopClockPrefix(start.value, offset, timeoutMillis, c1(0), c1, c2, 0, []);
    }
  }

  lemma {:induction false} LoopClockPrefix(log: Log, offset: u32, timeoutMillis: nat, elapsed: nat,
                                           c1: Clock, c2: Clock, waits: nat, records: seq<Record>)
    requires forall i: nat :: 100 * i < timeoutMillis ==> c1(i + 1) == c2(i + 1)
    requires 100_000_000 * waits <= elapsed
    ensures PollLoop(log, offset, timeoutMillis * 1_000_000, elapsed, c1, waits + 1, records) ==
            PollLoop(log, offset, timeoutMillis * 1_000_000, elapsed, c2, waits + 1, records)
    decreases OFFSET_LIMIT - offset, timeoutMillis * 1_000_000 - elapsed
  {
    hide Read;
    hide Reload;
    if elapsed < timeoutMillis * 1_000_000 {
      assert 100 * waits < timeoutMillis;
      var (log', r) := Read(log, offset);
      match r
      case Success(record) =>
        ReadBelowLimit(log, offset);
        LoopClockPrefix(log', offset + 1, timeoutMillis, elapsed, c1, c2, waits, records + [record]);
      case Failure(DoesNotExist) =>
        var again := Reload(log', SomeListing(log'.files));
        if again.Success? {
          LoopClockPrefix(again.value, offset, timeoutMillis, elapsed + PAUSE + c1(waits + 1), c1, c2,
                          waits + 1, records);
        }
      case Failure(_) =>
    }
  }

  // ---- the poll that the functions fix is an allowed one ----

  lemma {:induction false} LoopIsAllowed(log: Log, offset: u32, timeout: nat, elapsed: nat, clock: Clock, turn: nat,
                                         records: seq<Record>)
    ensures var (log', offset', r) := PollLoop(log, offset, timeout, elapsed, clock, turn, records);
            PollLoopMay(log, offset, timeout, elapsed, clock, turn, records, log', offset', r)
    decreases OFFSET_LIMIT - offset, timeout - elapsed
  {
    hide Read;
    hide Reload;
    hide IsListing;
    if elapsed < timeout {
      var (log', r) := Read(log, offset);
      match r
      case Success(record) =>
        ReadBelowLimit(log, offset);
        LoopIsAllowed(log', offset + 1, timeout, elapsed, clock, turn, records + [record]);
      case Failure(DoesNotExist) =>
        var listing := SomeListing(log'.files);
        var again := Reload(log', listing);
        assert IsListing(listing, log'.files);
        if again.Success? {
          LoopIsAllowed(again.value, offset, timeout, elapsed + PAUSE + clock(turn), clock, turn + 1, records);
        }
      case Failure(_) =>
    }
  }

  lemma PollIsAllowed(log: Log, offset: u32, timeoutMillis: nat, clock: Clock)
    ensures var (log', offset', r) := Poll(log, offset, timeoutMillis, clock);
            PollMay(log, offset, timeoutMillis, clock, log', offset', r)
  {
    hide Reload;
    hide IsListing;
    hide PollLoop;
    hide PollLoopMay;
    var listing := SomeListing(log.files);
    assert IsListing(listing, log.files);
    var start := Reload(log, listing);
    if start.Success? {
      LoopIsAllowed(start.value, offset, timeoutMillis * MILLISECOND, clock(0), clock, 1, []);
    }
  }
}
