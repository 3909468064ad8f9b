/** Concrete inputs on which the program does not keep its promise; the exact conditions are stated elsewhere. */
module Examples {
  import opened Base
  import opened Names
  import opened Records
  import opened Files
  import opened SegmentSpec
  import CleanerSpec
  import opened LogSpec
  import opened LogInvariant
  import opened LogRefinement
  import opened LogLimits
  import opened Packing
  import opened LogRuns
  import opened Determined
  import opened Recovery
  import opened RestartAppend
  import opened ConsumerSpec
  import opened TopicSpec
  import opened Delivery

  // ---- runs that only append ----

  function Puts(rs: seq<Record>): seq<LogOp> {
    if rs == [] then [] else Puts(rs[..|rs| - 1]) + [Put(rs[|rs| - 1])]
  }

  lemma PutOne(log: Log, before: seq<Record>, r: Record, maxSize: nat)
    ensures Run(log, Puts(before + [r])).0 == Append(Run(log, Puts(before)).0, r).0
    ensures Legal(log, Puts(before + [r])) <==> Legal(log, Puts(before)) && Safe(Run(log, Puts(before)).0, r)
    ensures |r| <= maxSize ==> Accepted(Puts(before + [r]), maxSize) == Accepted(Puts(before), maxSize) + [r]
  {
    hide Append;
    hide Safe;
    var ops := Puts(before + [r]);
    assert (before + [r])[..|before|] == before;
    assert ops == Puts(before) + [Put(r)];
    assert ops[..|ops| - 1] == Puts(before);
  }

  /** A run that only appends is legal, and the log it makes holds the records with the cursor at the end. */
  lemma {:induction false} PutsHold(maxSize: nat, retention: nat, rs: seq<Record>)
    requires maxSize < TWO_32 && |rs| < TWO_16 && AllFit(rs, maxSize)
    ensures Legal(EmptyLog(maxSize, retention), Puts(rs)) && Accepted(Puts(rs), maxSize) == rs
    ensures var log := Run(EmptyLog(maxSize, retention), Puts(rs)).0;
            && RunInv(log, rs) && log.cur.contents.AtEnd()
            && log.maxSize == maxSize && log.retention == retention
    decreases |rs|, 1
  {
    hide RunInv;
    hide Append;
    if rs == [] {
      NewLogRunInv(maxSize, retention);
    } else {
      PutsHoldOne(maxSize, retention, rs);
    }
  }

  lemma {:induction false} PutsHoldOne(maxSize: nat, retention: nat, rs: seq<Record>)
    requires maxSize < TWO_32 && |rs| < TWO_16 && AllFit(rs, maxSize) && rs != []
    ensures Legal(EmptyLog(maxSize, retention), Puts(rs)) && Accepted(Puts(rs), maxSize) == rs
    ensures var log := Run(EmptyLog(maxSize, retention), Puts(rs)).0;
            && RunInv(log, rs) && log.cur.contents.AtEnd()
            && log.maxSize == maxSize && log.retention == retention
    decreases |rs|, 0
  {
    hide RunInv;
    hide Append;
    hide Run;
    hide Legal;
    hide Accepted;
    hide Puts;
    var before, r := rs[..|rs| - 1], rs[|rs| - 1];
    assert before + [r] == rs;
    PutsHold(maxSize, retention, before);
    PutOne(EmptyLog(maxSize, retention), before, r, maxSize);
    AppendReady(Run(EmptyLog(maxSize, retention), Puts(before)).0, before, r);
  }

  // ---- an append after a read ----

  /**
   * Two records are appended, the first one is read, and a third one is appended: it is accepted,
   * but it cannot be read, and reading the second record gives the third one's bytes.
   */
  lemma ReadThenAppend()
    ensures var log := Run(EmptyLog(10, 100), Puts([[1], [2]])).0;
            var after := Append(Read(log, 0).0, [3]);
            && after.1 == Success(2)
            && Read(after.0, 2).1.Failure?
            && Read(after.0, 1).1 == Success([3])
  {
    hide Inv;
    hide RunInv;
    hide Run;
    hide Append;
    hide Read;
    hide Flatten;
    var hist: seq<Record> := [[1], [2]];
    PutsHold(10, 100, hist);
    var log := Run(EmptyLog(10, 100), Puts(hist)).0;
    TwoBytes();
    LogSplitIff(log, hist);
    RunInvIsInv(log, hist);
    ReadFirst(log, hist);
    var moved := Read(log, 0).0;
    CurBytes(moved, hist);
    assert hist[0..] == hist;
    AppendCorrectIffSafe(moved, hist, [3]);
    assert [1][..|[1]|] == [1] && [3][..1] == [3];
    UnsafeAppendOverwrites(moved, hist, [3], 1);
    UnsafeAppendLosesRecord(moved, hist, [3]);
  }

  lemma TwoBytes()
    ensures Flatten([[1], [2]]) == [1, 2]
    ensures Offset([[1], [2]], 1) == 1
  {
    assert [[1], [2]][..1] == [[1]];
    assert [[1]][..0] == [];
    assert Flatten([[1]]) == Flatten([]) + [1] == [1];
  }

  lemma ReadFirst(log: Log, hist: seq<Record>)
    requires Inv(log, hist) && log.cur.start == 0 && hist == [[1], [2]]
    ensures var moved := Read(log, 0).0;
            && Inv(moved, hist) && moved.cur.start == 0 && moved.maxSize == log.maxSize
            && moved.cur.contents.pos == 1
  {
    hide Inv;
    hide Read;
    TwoBytes();
    OldestBelow(log, hist);
    ReadRefines(log, hist, 0);
    assert hist[0..] == hist;
  }

  // ---- a poll after a split ----

  /** A poll that enters its loop. */
  ghost predicate Enters(op: TopicOp) {
    op.ConsumeOp? && op.clock(0) < op.timeoutMillis * MILLISECOND
  }

  /** The topic after two messages that do not fit one segment together, and some polls. */
  ghost function AfterPolls(polls: seq<TopicOp>): Topic {
    RunTopic(NewTopic("t", 1, 100), [ProduceOp([[1], [2]])] + polls)
  }

  lemma {:induction false} PollsAddNothing(polls: seq<TopicOp>)
    requires forall i :: 0 <= i < |polls| ==> polls[i].ConsumeOp?
    ensures History([ProduceOp([[1], [2]])] + polls, 1) == [[1], [2]]
  {
    var msgs: seq<Record> := [[1], [2]];
    var ops := [ProduceOp(msgs)] + polls;
    if polls == [] {
      assert msgs[1..] == [[2]] && msgs[1..][1..] == [];
      assert Fitting(msgs[1..][1..], 1) == 0 && Fitting(msgs[1..], 1) == 1 && Fitting(msgs, 1) == 2;
      assert ops[..0] == [];
      assert History(ops[..0], 1) == [];
      assert Added(ops[0], 1) == msgs;
    } else {
      PollsAddNothing(polls[..|polls| - 1]);
      assert ops[..|ops| - 1] == [ProduceOp(msgs)] + polls[..|polls| - 1];
      assert Added(ops[|ops| - 1], 1) == [];
    }
  }

  /**
   * Two messages that do not fit one segment together: whatever polls were made before, of
   * whatever groups, every poll that enters its loop fails and leaves its group's offset past
   * both messages, so that they are never delivered.
   */
  lemma PollAfterSplit(polls: seq<TopicOp>, next: TopicOp)
    requires (forall i :: 0 <= i < |polls| ==> polls[i].ConsumeOp?) && Enters(next)
    ensures var (t, r) := Consume(AfterPolls(polls), next.group, next.timeoutMillis, next.clock);
            r.Failure? && OffsetOf(t.groups, next.group) == 2
  {
    hide TopicInv;
    hide Consume;
    hide OffsetOf;
    hide Flatten;
    hide RunTopic;
    hide History;
    PollsAddNothing(polls);
    TopicRunHolds("t", 1, 100, [ProduceOp([[1], [2]])] + polls);
    TwoBytes();
    PollDeliversIff(AfterPolls(polls), [[1], [2]], next.group, next.timeoutMillis, next.clock);
  }

  // ---- restarts ----

  lemma StartsOne(hist: seq<Record>, maxSize: nat, r: Record)
    ensures var b := Starts(hist, maxSize);
            Starts(hist + [r], maxSize) ==
            if |Flatten(hist[b[|b| - 1]..])| + |r| > maxSize then b + [|hist|] else b
  {
    hide Flatten;
    hide Starts;
    var b := Starts(hist, maxSize);
    var s := b[|b| - 1];
    StartsStep(hist + [r], maxSize);
    assert (hist + [r])[..|hist|] == hist;
    assert (hist + [r])[s..] == hist[s..] + [r];
    FlattenSnoc(hist[s..], r);
  }

  /** One flushed segment: after a restart, the record in it cannot be read. */
  lemma RestartWithOneSegment(listing: seq<FileName>)
    requires IsListing(listing, Run(EmptyLog(1, 100), Puts([[1], [2]])).0.files)
    ensures var log := Run(EmptyLog(1, 100), Puts([[1], [2]])).0;
            var again := Open(log.files, listing, 1, 100);
            && Read(log, 0).1 == Success([1])
            && again.Success? && Read(again.value, 0).1 == Failure(DoesNotExist)
  {
    hide Inv;
    hide RunInv;
    hide Run;
    hide Open;
    hide Read;
    hide Starts;
    hide Flatten;
    hide Recovered;
    hide IsListing;
    var hist: seq<Record> := [[1], [2]];
    PutsHold(1, 100, hist);
    var log := Run(EmptyLog(1, 100), Puts(hist)).0;
    RunInvIsInv(log, hist);
    TwoRecordStarts();
    StartsAre(log, hist);
    OpenRecovers(log, hist, listing);
    FlushedStart(log, hist);
    RunRetained(log, hist);
    FewBytes(log, hist);
    RecoveredFew(log, 0);
    ReadRefines(log, hist, 0);
  }

  lemma TwoRecordStarts()
    ensures Starts([[1], [2]], 1) == [0, 1]
  {
    hide Starts;
    StartsAtZero(1);
    var none: seq<Record> := [];
    assert none[0..] == none && none + [[1]] == [[1]];
    FlattenNothing();
    StartsOne(none, 1, [1]);
    assert [[1]][0..] == [[1]] && [[1]][..0] == none && [[1]] + [[2]] == [[1], [2]];
    assert Flatten([[1]]) == Flatten(none) + [1];
    StartsOne([[1]], 1, [2]);
  }

  lemma RunRetained(log: Log, hist: seq<Record>)
    requires RunInv(log, hist)
    ensures Oldest(log) > 0 ==> CleanerSpec.Bytes(log.segments) > log.retention
  {
  }

  /** What is on disk is no more than what was appended. */
  lemma FewBytes(log: Log, hist: seq<Record>)
    requires RunInv(log, hist)
    ensures CleanerSpec.Bytes(log.segments) <= log.maxSize * |log.segments|
  {
    hide Inv;
    hide Packed;
    DiskSegmentsFull(log, hist);
    BytesBound(log.segments, log.maxSize);
  }

  lemma {:induction false} BytesBound(segs: seq<Segment>, maxSize: nat)
    requires forall i :: 0 <= i < |segs| ==> segs[i].position <= maxSize
    ensures CleanerSpec.Bytes(segs) <= maxSize * |segs|
  {
    if segs != [] {
      BytesBound(segs[1..], maxSize);
      assert maxSize * |segs| == maxSize + maxSize * (|segs| - 1);
    }
  }

  // ---- many empty records ----

  function Empties(n: nat): (rs: seq<Record>)
    ensures |rs| == n && forall i :: 0 <= i < n ==> rs[i] == []
  {
    seq(n, _ => [])
  }

  /** A run of 65535 empty records, and one more: its offset is returned, and it cannot be read. */
  lemma OneRecordTooMany()
    ensures var log := Run(EmptyLog(1, 100), Puts(Empties(0xFFFF))).0;
            var after := Append(log, []);
            && after.1 == Success(0xFFFF)
            && Read(after.0, 0xFFFF).1 == Failure(DoesNotExist)
  {
    hide Inv;
    hide Run;
    hide Append;
    hide Read;
    hide Puts;
    hide Empties;
    var hist := Empties(0xFFFF);
    PutsHold(1, 100, hist);
    var log := Run(EmptyLog(1, 100), Puts(hist)).0;
    RunInvIsInv(log, hist);
    RecordLimit(log, hist, [], 0xFFFF);
  }

  /** Empty records never open a segment. */
  lemma {:induction false} StartsOfEmpties(hist: seq<Record>, maxSize: nat, n: nat)
    requires AllFit(hist, maxSize)
    ensures Starts(hist + Empties(n), maxSize) == Starts(hist, maxSize)
  {
    hide Starts;
    hide Flatten;
    if n == 0 {
      assert hist + Empties(0) == hist;
    } else {
      StartsOfEmpties(hist, maxSize, n - 1);
      var most := hist + Empties(n - 1);
      assert most + [[]] == hist + Empties(n);
      StartsOne(most, maxSize, []);
      var b := Starts(most, maxSize);
      SegmentFits(most, maxSize, |b| - 1);
      assert most[b[|b| - 1]..|most|] == most[b[|b| - 1]..];
    }
  }

  /** Two flushed segments, the second from offset 2 to 65534, and one record in memory. */
  function LongHistory(): (hist: seq<Record>)
    ensures |hist| == 0xFFFF
  {
    [[1], [], [1]] + Empties(0xFFFB) + [[1]]
  }

  lemma FirstStarts()
    ensures Starts([[1], [], [1]], 1) == [0, 2]
  {
    hide Starts;
    hide Flatten;
    var none: seq<Record> := [];
    var one: seq<Record> := [[1]];
    var two: seq<Record> := [[1], []];
    StartsAtZero(1);
    OneByte();
    assert none[0..] == none && none + [[1]] == one;
    StartsOne(none, 1, [1]);
    assert one[0..] == one && one + [[]] == two;
    StartsOne(one, 1, []);
    assert two[0..] == two && two + [[1]] == [[1], [], [1]];
    StartsOne(two, 1, [1]);
  }

  lemma LongStarts()
    ensures Starts(LongHistory(), 1) == [0, 2, 0xFFFE]
    ensures AllFit(LongHistory(), 1)
  {
    hide Starts;
    hide Flatten;
    hide Empties;
    var first: seq<Record> := [[1], [], [1]];
    var most := first + Empties(0xFFFB);
    FirstStarts();
    OneByte();
    StartsOfEmpties(first, 1, 0xFFFB);
    assert most[2..] == [[1]] + Empties(0xFFFB);
    FlattenConcat([[1]], Empties(0xFFFB));
    StartsOne(most, 1, [1]);
  }

  lemma OneByte()
    ensures Flatten([]) == [] && Flatten([[1]]) == [1] && Flatten([[1], []]) == [1]
  {
    assert [[1]][..0] == [];
    assert Flatten([[1]]) == Flatten([]) + [1];
    assert [[1], []][..1] == [[1]];
  }

  /** The last flushed segment runs from 2 to 65534: after a restart, none of it can be read. */
  lemma RestartWraps()
    ensures var log := Run(EmptyLog(1, 100), Puts(LongHistory())).0;
            && |log.segments| == 2 && Oldest(log) == 0
            && !Recovers(log, LongHistory())
  {
    hide Inv;
    hide RunInv;
    hide Run;
    hide Starts;
    hide Puts;
    hide LongHistory;
    hide Recovers;
    var hist := LongHistory();
    LongStarts();
    PutsHold(1, 100, hist);
    var log := Run(EmptyLog(1, 100), Puts(hist)).0;
    RunInvIsInv(log, hist);
    StartsAre(log, hist);
    RunRetained(log, hist);
    FewBytes(log, hist);
    assert |log.segments| == 2;
    SegmentBytes(log, hist, 1);
    RecoversIff(log, hist);
  }

  /**
   * One flushed record, and one that was in memory: the restarted log answers the next append
   * with offset 0, which the flushed record has.
   */
  lemma RestartRepeatsOffset(listing: seq<FileName>)
    requires IsListing(listing, Run(EmptyLog(1, 100), Puts([[1], [2]])).0.files)
    ensures var log := Run(EmptyLog(1, 100), Puts([[1], [2]])).0;
            var again := Open(log.files, listing, 1, 100);
            && Read(log, 0).1 == Success([1])
            && log.cur.start == 1
            && again.Success? && Append(again.value, [3]).1 == Success(0)
  {
    hide Inv;
    hide RunInv;
    hide Run;
    hide Open;
    hide Read;
    hide Append;
    hide Starts;
    hide Flatten;
    hide Recovered;
    hide IsListing;
    var hist: seq<Record> := [[1], [2]];
    PutsHold(1, 100, hist);
    var log := Run(EmptyLog(1, 100), Puts(hist)).0;
    RunInvIsInv(log, hist);
    TwoRecordStarts();
    StartsAre(log, hist);
    OpenRecovers(log, hist, listing);
    FlushedStart(log, hist);
    RunRetained(log, hist);
    FewBytes(log, hist);
    ReadRefines(log, hist, 0);
    RestartNumbers(log, hist, [3]);
  }

  /** The log after three records, when each of the first two ended up in a segment of its own. */
  ghost predicate TwoFlushed(log: Log, hist: seq<Record>) {
    && |hist| == 3 && RunInv(log, hist)
    && |log.segments| == 2 && Oldest(log) == 0 && log.cur.start == 2
    && Last(log).start == 1 && Last(log).next == 2
    && Contents(log.files, Last(log).logName) == hist[1] == Recovered(log).cur.contents.data
    && Recovered(log).maxSize == log.maxSize
  }

  lemma ThreeRecords(maxSize: nat, hist: seq<Record>)
    requires 0 < maxSize <= 10 && |hist| == 3 && AllFit(hist, maxSize) && Starts(hist, maxSize) == [0, 1, 2]
    ensures var log := Run(EmptyLog(maxSize, 100), Puts(hist)).0;
            && TwoFlushed(log, hist) && log.maxSize == maxSize && log.retention == 100
            && Legal(EmptyLog(maxSize, 100), Puts(hist)) && Accepted(Puts(hist), maxSize) == hist
  {
    hide Inv;
    hide RunInv;
    hide Run;
    hide Starts;
    hide Flatten;
    hide Puts;
    hide Recovered;
    PutsHold(maxSize, 100, hist);
    var log := Run(EmptyLog(maxSize, 100), Puts(hist)).0;
    RunInvIsInv(log, hist);
    StartsAre(log, hist);
    FlushedStart(log, hist);
    RunRetained(log, hist);
    FewBytes(log, hist);
    LastHeld(log, hist);
    FlattenOne(hist[1]);
    assert hist[1..2] == [hist[1]];
    RecoveredBytes(log);
  }

  /**
   * Two flushed records, and one that was in memory: the restarted log answers the next append
   * with offset 3 where 2 is due. The record starts a segment, and the flushed ones survive.
   */
  lemma RestartSkipsOffset(listing: seq<FileName>)
    requires IsListing(listing, Run(EmptyLog(1, 100), Puts([[1], [2], [3]])).0.files)
    ensures var log := Run(EmptyLog(1, 100), Puts([[1], [2], [3]])).0;
            var again := Open(log.files, listing, 1, 100);
            && log.cur.start == 2
            && again.Success? && Append(again.value, [4]).1 == Success(3)
            && Read(Append(again.value, [4]).0, 0).1 == Success([1])
            && Read(Append(again.value, [4]).0, 1).1 == Success([2])
  {
    hide Inv;
    hide RunInv;
    hide Run;
    hide Open;
    hide Append;
    hide Read;
    hide Puts;
    hide Starts;
    hide Recovered;
    hide IsListing;
    var hist: seq<Record> := [[1], [2], [3]];
    ThreeRecordStarts();
    ThreeRecords(1, hist);
    var log := Run(EmptyLog(1, 100), Puts(hist)).0;
    RunInvIsInv(log, hist);
    OpenRecovers(log, hist, listing);
    RestartNumbers(log, hist, [4]);
    RestartKeepsIff(log, hist, [4]);
    assert ReadsBack(Append(Recovered(log), [4]).0, hist, 0) && ReadsBack(Append(Recovered(log), [4]).0, hist, 1);
  }

  lemma RecoveredBytes(log: Log)
    requires |log.segments| > 1
    ensures Recovered(log).cur.contents.data == Contents(log.files, Last(log).logName)
    ensures Recovered(log).maxSize == log.maxSize
  {
  }

  /**
   * Two flushed records, the second of which leaves room in its segment: the restarted log still
   * reads it, but the next append fits there and overwrites it.
   */
  lemma RestartLosesRecord(listing: seq<FileName>)
    requires IsListing(listing, Run(EmptyLog(2, 100), Puts([[1, 1], [2], [3, 3]])).0.files)
    ensures var log := Run(EmptyLog(2, 100), Puts([[1, 1], [2], [3, 3]])).0;
            var again := Open(log.files, listing, 2, 100);
            && log.cur.start == 2
            && again.Success? && Read(again.value, 1).1 == Success([2])
            && Read(Append(again.value, [4]).0, 1).1 == Success([4])
            && !Keeps(log, [[1, 1], [2], [3, 3]], [4])
  {
    hide Inv;
    hide RunInv;
    hide Run;
    hide Open;
    hide Append;
    hide Read;
    hide Puts;
    hide Starts;
    hide Recovered;
    hide IsListing;
    var hist: seq<Record> := [[1, 1], [2], [3, 3]];
    RoomyStarts();
    ThreeRecords(2, hist);
    var log := Run(EmptyLog(2, 100), Puts(hist)).0;
    RunInvIsInv(log, hist);
    OpenRecovers(log, hist, listing);
    RecoveredReads(log, hist, 1);
    RestartOverwrites(log, hist, [4]);
    assert [4][..1] == [4];
    assert !ReadsBack(Append(Recovered(log), [4]).0, hist, 1);
  }

  lemma RoomyStarts()
    ensures Starts([[1, 1], [2], [3, 3]], 2) == [0, 1, 2]
  {
    hide Starts;
    hide Flatten;
    var two: seq<Record> := [[1, 1], [2]];
    RoomyStartsTwo();
    FlattenOne([2]);
    assert two[1..] == [[2]] && two + [[3, 3]] == [[1, 1], [2], [3, 3]];
    StartsOne(two, 2, [3, 3]);
  }

  lemma RoomyStartsTwo()
    ensures Starts([[1, 1], [2]], 2) == [0, 1]
  {
    hide Starts;
    hide Flatten;
    var none: seq<Record>, one: seq<Record> := [], [[1, 1]];
    StartsAtZero(2);
    FlattenNothing();
    assert none[0..] == none && none + [[1, 1]] == one;
    StartsOne(none, 2, [1, 1]);
    FlattenOne([1, 1]);
    assert one[0..] == one && one + [[2]] == [[1, 1], [2]];
    StartsOne(one, 2, [2]);
  }

  lemma ThreeRecordStarts()
    ensures Starts([[1], [2], [3]], 1) == [0, 1, 2]
  {
    hide Starts;
    hide Flatten;
    var two: seq<Record> := [[1], [2]];
    TwoRecordStarts();
    assert two[1..] == [[2]] && two + [[3]] == [[1], [2], [3]];
    FlattenSnoc([], [2]);
    assert [] + [[2]] == [[2]];
    StartsOne(two, 1, [3]);
  }

  /**
   * Three bytes flushed to 00000.log; after a restart a record of one byte is written to the
   * segment in front of them and flushed over them: offset 0 reads as that byte and the last two
   * of the old ones.
   */
  lemma RestartFlushesOverFile(listing: seq<FileName>)
    requires IsListing(listing, Run(EmptyLog(3, 100), Puts([[1, 1, 1], [2]])).0.files)
    ensures var log := Run(EmptyLog(3, 100), Puts([[1, 1, 1], [2]])).0;
            var again := Open(log.files, listing, 3, 100);
            && again.Success?
            && Read(Append(Append(again.value, [9]).0, [4, 4, 4]).0, 0).1 == Success([9, 1, 1])
  {
    hide Inv;
    hide RunInv;
    hide Run;
    hide Open;
    hide Append;
    hide Read;
    hide Puts;
    hide Starts;
    hide Recovered;
    hide IsListing;
    var hist: seq<Record> := [[1, 1, 1], [2]];
    PutsHold(3, 100, hist);
    var log := Run(EmptyLog(3, 100), Puts(hist)).0;
    RunInvIsInv(log, hist);
    TwoFullStarts();
    StartsAre(log, hist);
    FlushedStart(log, hist);
    RunRetained(log, hist);
    FewBytes(log, hist);
    OpenRecovers(log, hist, listing);
    RestartFlushesOver(log, hist, [9], [4, 4, 4], 0);
    assert [9] + [1, 1, 1][1..] == [9, 1, 1];
  }

  lemma TwoFullStarts()
    ensures Starts([[1, 1, 1], [2]], 3) == [0, 1]
  {
    hide Starts;
    hide Flatten;
    var none: seq<Record>, one: seq<Record> := [], [[1, 1, 1]];
    StartsAtZero(3);
    FlattenNothing();
    assert none[0..] == none && none + [[1, 1, 1]] == one;
    StartsOne(none, 3, [1, 1, 1]);
    FlattenOne([1, 1, 1]);
    assert one[0..] == one && one + [[2]] == [[1, 1, 1], [2]];
    StartsOne(one, 3, [2]);
  }
}
