/** Whole runs of a commitlog, from an empty directory. */
module LogRuns {
  import opened Base
  import opened Records
  import opened SegmentSpec
  import opened LogSpec
  import opened LogInvariant
  import opened LogRefinement
  import opened LogLimits
  import opened Packing

  datatype LogOp = Put(record: Record) | Get(offset: nat)

  datatype LogAnswer = Wrote(written: LogResult<u16>) | Got(read: LogResult<Record>)

  ghost function Step(log: Log, op: LogOp): (Log, LogAnswer) {
    match op
    case Put(d) => (Append(log, d).0, Wrote(Append(log, d).1))
    case Get(o) => (Read(log, o).0, Got(Read(log, o).1))
  }

  /** The log and the answers after performing the operations in order. */
  ghost function Run(log: Log, ops: seq<LogOp>): (r: (Log, seq<LogAnswer>))
    ensures |r.1| == |ops|
  {
    if ops == [] then
      (log, [])
    else
      var (before, answers) := Run(log, ops[..|ops| - 1]);
      var (after, answer) := Step(before, ops[|ops| - 1]);
      (after, answers + [answer])
  }

  /** The records put that are within the size limit, in order. */
  function Accepted(ops: seq<LogOp>, maxSize: nat): seq<Record> {
    if ops == [] then
      []
    else
      var op := ops[|ops| - 1];
      Accepted(ops[..|ops| - 1], maxSize)
      + (if op.Put? && |op.record| <= maxSize then [op.record] else [])
  }

  function EmptyLog(maxSize: nat, retention: nat): Log {
    Log(map[], [], retention, maxSize, NewVSeg(maxSize, 0))
  }

  /** Every append of the run is safe where it happens. */
  ghost predicate Legal(log: Log, ops: seq<LogOp>) {
    ops != [] ==>
      var before, op := ops[..|ops| - 1], ops[|ops| - 1];
      Legal(log, before) && (op.Put? ==> Safe(Run(log, before).0, op.record))
  }

  /** The answer a plain sequence of records would give: appends count up, reads look up. */
  ghost predicate AnswerIs(log: Log, hist: seq<Record>, op: LogOp, answer: LogAnswer) {
    match op
    case Put(d) =>
      answer.Wrote?
      && if |d| <= log.maxSize then answer.written.Success? && answer.written.value == |hist|
         else answer.written == Failure(UnknownWrite)
    case Get(o) =>
      answer == Got(ReadAnswer(log, hist, o))
  }

  lemma StepRefines(log: Log, hist: seq<Record>, op: LogOp)
    requires RunInv(log, hist)
    requires op.Put? ==> Safe(log, op.record) && (|op.record| <= log.maxSize ==> |hist| + 1 < TWO_16)
    ensures var (log', answer) := Step(log, op);
            && RunInv(log', if op.Put? && |op.record| <= log.maxSize then hist + [op.record] else hist)
            && AnswerIs(log, hist, op, answer)
            && log'.maxSize == log.maxSize && log'.retention == log.retention
  {
    hide Inv;
    hide Packed;
    hide Retained;
    hide Append;
    hide Read;
    hide ReadAnswer;
    match op
    case Put(d) =>
      AppendRefines(log, hist, d);
      if |d| <= log.maxSize {
        AppendKeepsRunInv(log, hist, d);
      }
    case Get(o) =>
      ReadRefines(log, hist, o);
      CursorIsFree(log, Read(log, o).0.cur.contents.pos, hist);
  }

  /** The packing and the retention do not depend on the cursor. */
  lemma CursorIsFree(log: Log, p: nat, hist: seq<Record>)
    requires Packed(log, hist) && Retained(log)
    ensures var log' := log.(cur := log.cur.(contents := log.cur.contents.(pos := p)));
            Packed(log', hist) && Retained(log')
  {
  }

  lemma {:induction false} RunHolds(maxSize: nat, retention: nat, ops: seq<LogOp>)
    requires maxSize < TWO_32 && |Accepted(ops, maxSize)| < TWO_16
    requires Legal(EmptyLog(maxSize, retention), ops)
    ensures var log := Run(EmptyLog(maxSize, retention), ops).0;
            RunInv(log, Accepted(ops, maxSize)) && log.maxSize == maxSize && log.retention == retention
  {
    hide RunInv;
    hide AnswerIs;
    hide Step;
    hide Safe;
    var log0 := EmptyLog(maxSize, retention);
    if ops == [] {
      NewLogRunInv(maxSize, retention);
    } else {
      var before, op := ops[..|ops| - 1], ops[|ops| - 1];
      var hist := Accepted(before, maxSize);
      RunHolds(maxSize, retention, before);
      StepRefines(Run(log0, before).0, hist, op);
      assert hist + [] == hist;
    }
  }

  /** The part of a run up to its i-th operation, and the answer to that operation. */
  lemma {:induction false} RunPrefix(log: Log, ops: seq<LogOp>, i: nat, maxSize: nat)
    requires i < |ops|
    ensures Run(log, ops).1[i] == Step(Run(log, ops[..i]).0, ops[i]).1
    ensures Legal(log, ops) ==> Legal(log, ops[..i + 1])
    ensures |Accepted(ops[..i + 1], maxSize)| <= |Accepted(ops, maxSize)|
  {
    hide Step;
    hide Safe;
    var n := |ops| - 1;
    if i == n {
      assert ops[..i + 1] == ops;
    } else {
      RunPrefix(log, ops[..n], i, maxSize);
      assert ops[..n][..i] == ops[..i] && ops[..n][..i + 1] == ops[..i + 1];
    }
  }

  lemma AnswerAt(maxSize: nat, retention: nat, ops: seq<LogOp>, i: nat)
    requires maxSize < TWO_32 && |Accepted(ops, maxSize)| < TWO_16
    requires Legal(EmptyLog(maxSize, retention), ops) && i < |ops|
    ensures var log0 := EmptyLog(maxSize, retention);
            AnswerIs(Run(log0, ops[..i]).0, Accepted(ops[..i], maxSize), ops[i], Run(log0, ops).1[i])
  {
    hide Step;
    hide AnswerIs;
    hide RunInv;
    hide Safe;
    hide Run;
    RunPrefix(EmptyLog(maxSize, retention), ops, i, maxSize);
    assert ops[..i + 1][..i] == ops[..i];
    RunHolds(maxSize, retention, ops[..i]);
    StepRefines(Run(EmptyLog(maxSize, retention), ops[..i]).0, Accepted(ops[..i], maxSize), ops[i]);
  }

  /**
   * Whole-log refinement: on every run in which each append is safe, the log holds exactly the
   * records accepted so far, the k-th of them was answered k - 1, and every read in between was
   * answered from that sequence, across all splits and cleanings.
   */
  lemma RunRefines(maxSize: nat, retention: nat, ops: seq<LogOp>)
    requires maxSize < TWO_32 && |Accepted(ops, maxSize)| < TWO_16
    requires Legal(EmptyLog(maxSize, retention), ops)
    ensures var log0 := EmptyLog(maxSize, retention);
            var (log, answers) := Run(log0, ops);
            && RunInv(log, Accepted(ops, maxSize))
            && forall i :: 0 <= i < |ops| ==>
                 AnswerIs(Run(log0, ops[..i]).0, Accepted(ops[..i], maxSize), ops[i], answers[i])
  {
    hide *;
    RunHolds(maxSize, retention, ops);
    forall i | 0 <= i < |ops|
      ensures var log0 := EmptyLog(maxSize, retention);
              AnswerIs(Run(log0, ops[..i]).0, Accepted(ops[..i], maxSize), ops[i], Run(log0, ops).1[i])
    {
      AnswerAt(maxSize, retention, ops, i);
    }
  }

  /** At the start and after every operation the log holds the records accepted so far. */
  ghost predicate HeldThroughout(log: Log, ops: seq<LogOp>) {
    && Inv(Run(log, ops).0, Accepted(ops, log.maxSize))
    && (ops != [] ==> HeldThroughout(log, ops[..|ops| - 1]))
  }

  /** One operation on a log that holds its records goes on holding them exactly when it is safe. */
  lemma StepHoldsIffSafe(log: Log, hist: seq<Record>, op: LogOp)
    requires RunInv(log, hist)
    requires op.Put? && |op.record| <= log.maxSize ==> |hist| + 1 < TWO_16
    ensures (op.Put? ==> Safe(log, op.record)) <==>
            Inv(Step(log, op).0, if op.Put? && |op.record| <= log.maxSize then hist + [op.record] else hist)
  {
    hide Inv;
    hide Step;
    if op.Get? || Safe(log, op.record) {
      StepRefines(log, hist, op);
    } else {
      UnsafeFits(log, hist, op.record);
      UnsafeStep(log, hist, op.record);
    }
  }

  /**
   * The condition is exact: a run is legal if and only if the log holds the accepted records
   * after every one of its operations.
   */
  lemma {:induction false} LegalIffHeld(maxSize: nat, retention: nat, ops: seq<LogOp>)
    requires maxSize < TWO_32 && |Accepted(ops, maxSize)| < TWO_16
    ensures Legal(EmptyLog(maxSize, retention), ops) <==> HeldThroughout(EmptyLog(maxSize, retention), ops)
  {
    hide Inv;
    hide Safe;
    hide Step;
    hide RunInv;
    var log0 := EmptyLog(maxSize, retention);
    if ops == [] {
      NewLogRunInv(maxSize, retention);
      RunInvIsInv(log0, []);
    } else {
      var before, op := ops[..|ops| - 1], ops[|ops| - 1];
      var hist := Accepted(before, maxSize);
      LegalIffHeld(maxSize, retention, before);
      if Legal(log0, before) {
        RunHolds(maxSize, retention, before);
        StepHoldsIffSafe(Run(log0, before).0, hist, op);
        assert hist + [] == hist;
      }
    }
  }

  lemma UnsafeFits(log: Log, hist: seq<Record>, d: Record)
    requires Inv(log, hist) && !Safe(log, d)
    ensures |d| <= log.maxSize
  {
  }

  lemma UnsafeStep(log: Log, hist: seq<Record>, d: Record)
    requires Inv(log, hist) && !Safe(log, d) && |hist| + 1 < TWO_16
    ensures !Inv(Step(log, Put(d)).0, hist + [d])
  {
    AppendCorrectIffSafe(log, hist, d);
  }

  // ---- runs of reads ----

  predicate OnlyReads(ops: seq<LogOp>) {
    forall i :: 0 <= i < |ops| ==> ops[i].Get?
  }

  function WithCursor(log: Log, p: nat): Log {
    log.(cur := log.cur.(contents := log.cur.contents.(pos := p)))
  }

  /** A read answers the same wherever the cursor stands, and moves nothing else. */
  lemma ReadIgnoresCursor(log: Log, p: nat, o: nat)
    ensures Read(WithCursor(log, p), o).1 == Read(log, o).1
    ensures Read(log, o).0 == WithCursor(log, Read(log, o).0.cur.contents.pos)
  {
  }

  lemma {:induction false} ReadsMoveCursor(log: Log, gets: seq<LogOp>)
    requires OnlyReads(gets)
    ensures Run(log, gets).0 == WithCursor(log, Run(log, gets).0.cur.contents.pos)
  {
    hide Read;
    if gets != [] {
      var before := gets[..|gets| - 1];
      ReadsMoveCursor(log, before);
      ReadIgnoresCursor(Run(log, before).0, 0, gets[|gets| - 1].offset);
    }
  }

  /** On any log, however broken, reads in any sequence answer as each would alone. */
  lemma ReadsLeaveNoTrace(log: Log, gets: seq<LogOp>, i: nat)
    requires OnlyReads(gets) && i < |gets|
    ensures Run(log, gets).1[i] == Got(Read(log, gets[i].offset).1)
  {
    hide Read;
    hide Run;
    var before := Run(log, gets[..i]).0;
    RunPrefix(log, gets, i, 0);
    ReadsMoveCursor(log, gets[..i]);
    ReadIgnoresCursor(log, before.cur.contents.pos, gets[i].offset);
  }

  // ---- the segments a run creates ----

  /** How many appends of the run split the log: their record does not fit the segment in memory. */
  ghost function Splits(log: Log, ops: seq<LogOp>): nat {
    if ops == [] then
      0
    else
      var before, op := ops[..|ops| - 1], ops[|ops| - 1];
      Splits(log, before)
      + (if op.Put? && Run(log, before).0.cur.Write(op.record).1 == Failure(WouldOverflow) then 1 else 0)
  }

  /** A run splits the log exactly as often as next-fit packing closes a segment. */
  lemma {:induction false} SplitsAreStarts(maxSize: nat, retention: nat, ops: seq<LogOp>)
    requires maxSize < TWO_32 && |Accepted(ops, maxSize)| < TWO_16
    requires Legal(EmptyLog(maxSize, retention), ops)
    ensures 1 + Splits(EmptyLog(maxSize, retention), ops) == |Starts(Accepted(ops, maxSize), maxSize)|
  {
    hide RunInv;
    hide Run;
    hide Safe;
    hide Fits;
    hide Starts;
    hide VSeg.Write;
    var log0 := EmptyLog(maxSize, retention);
    if ops == [] {
      StartsAtZero(maxSize);
    } else {
      var before, op := ops[..|ops| - 1], ops[|ops| - 1];
      var hist := Accepted(before, maxSize);
      SplitsAreStarts(maxSize, retention, before);
      RunHolds(maxSize, retention, before);
      if op.Put? {
        SplitOrNot(Run(log0, before).0, hist, op.record);
      }
      assert hist + [] == hist;
    }
  }

  /** One append splits the log exactly when it makes next-fit packing open a segment. */
  lemma SplitOrNot(log: Log, hist: seq<Record>, d: Record)
    requires RunInv(log, hist)
    ensures log.cur.Write(d).1 == Failure(WouldOverflow) <==> |d| <= log.maxSize && !Fits(log, d)
    ensures |d| <= log.maxSize ==>
              |Starts(hist + [d], log.maxSize)| == |Starts(hist, log.maxSize)| + (if Fits(log, d) then 0 else 1)
  {
    hide Inv;
    hide Packed;
    hide Retained;
    hide Fits;
    hide Starts;
    hide VSeg.Write;
    CurFacts(log, hist);
    WriteOverflows(log, d);
    NextStarts(log, hist, d);
  }

  /**
   * The segments a run creates, the first one and one a split: after B accepted bytes at most
   * 2 * (B / (M + 1)) + 1, whatever the cleaner has deleted since.
   */
  lemma SegmentsCreated(maxSize: nat, retention: nat, ops: seq<LogOp>)
    requires maxSize < TWO_32 && |Accepted(ops, maxSize)| < TWO_16
    requires Legal(EmptyLog(maxSize, retention), ops)
    ensures 1 + Splits(EmptyLog(maxSize, retention), ops) <=
            2 * (|Flatten(Accepted(ops, maxSize))| / (maxSize + 1)) + 1
  {
    hide Inv;
    hide Retained;
    hide Run;
    hide Legal;
    hide Splits;
    hide Starts;
    hide Flatten;
    hide Accepted;
    RunHolds(maxSize, retention, ops);
    SplitsAreStarts(maxSize, retention, ops);
    SegmentsEverCreated(Accepted(ops, maxSize), maxSize);
  }
}
