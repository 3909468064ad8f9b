/** What a consumer group gets over a whole run of a topic: at most once, in order, every gap explained. */
module Delivery {
  import opened Base
  import opened Records
  import opened LogSpec
  import opened LogInvariant
  import LogRefinement
  import CleanerSpec
  import opened Packing
  import opened ConsumerSpec
  import opened TopicSpec

  // ---- when a log splits ----

  /** A log has split exactly when more bytes were appended than fit one segment. */
  lemma {:induction false} SplitIff(hist: seq<Record>, maxSize: nat)
    requires AllFit(hist, maxSize)
    ensures var b := Starts(hist, maxSize); b[|b| - 1] == 0 <==> |Flatten(hist)| <= maxSize
  {
    hide Flatten;
    hide Starts;
    StartsAtZero(maxSize);
    if hist == [] {
      FlattenNothing();
    } else {
      var n := |hist| - 1;
      var before := Starts(hist[..n], maxSize);
      SplitIff(hist[..n], maxSize);
      StartsStep(hist, maxSize);
      LastRecord(hist);
      OffsetMonotone(hist, n, |hist|);
      assert hist[0..] == hist;
    }
  }

  lemma LogSplitIff(log: Log, hist: seq<Record>)
    requires RunInv(log, hist)
    ensures log.cur.start == 0 <==> |Flatten(hist)| <= log.maxSize
  {
    hide Inv;
    hide Flatten;
    hide Starts;
    var kept := SegmentStarts(log.segments) + [log.cur.start];
    assert kept[|kept| - 1] == log.cur.start;
    SplitIff(hist, log.maxSize);
  }

  // ---- runs of one topic ----

  datatype TopicOp =
    | ProduceOp(msgs: seq<Record>)
    | ConsumeOp(group: string, timeoutMillis: nat, clock: Clock)

  datatype TopicAnswer =
    | Produced(written: Result<u16, ProduceError>)
    | Consumed(read: PollResult)

  ghost function TopicStep(t: Topic, op: TopicOp): (Topic, TopicAnswer) {
    match op
    case ProduceOp(msgs) =>
      (Produce(t, msgs).0, Produced(Produce(t, msgs).1))
    case ConsumeOp(g, timeoutMillis, clock) =>
      (Consume(t, g, timeoutMillis, clock).0, Consumed(Consume(t, g, timeoutMillis, clock).1))
  }

  ghost function RunTopic(t: Topic, ops: seq<TopicOp>): Topic {
    if ops == [] then t else TopicStep(RunTopic(t, ops[..|ops| - 1]), ops[|ops| - 1]).0
  }

  /** The records a command adds. */
  function Added(op: TopicOp, maxSize: nat): seq<Record> {
    if op.ProduceOp? then op.msgs[..Fitting(op.msgs, maxSize)] else []
  }

  /** All records the run accepted, in order. */
  function History(ops: seq<TopicOp>, maxSize: nat): seq<Record> {
    if ops == [] then [] else History(ops[..|ops| - 1], maxSize) + Added(ops[|ops| - 1], maxSize)
  }

  lemma TopicStepHolds(t: Topic, hist: seq<Record>, op: TopicOp)
    requires TopicInv(t, hist) && |hist| + |Added(op, t.log.maxSize)| < TWO_16
    ensures var t' := TopicStep(t, op).0;
            && TopicInv(t', hist + Added(op, t.log.maxSize))
            && t'.log.maxSize == t.log.maxSize && t'.log.retention == t.log.retention
            && t'.name == t.name && t'.maxSegmentSize == t.maxSegmentSize && t'.maxTopicSize == t.maxTopicSize
  {
    hide LogReady;
    hide GroupsWithin;
    hide ProduceFrom;
    hide Consume;
    hide SetOffset;
    match op
    case ProduceOp(msgs) =>
      ProduceAppends(t.log, hist, msgs, 0);
      GroupsGrow(t.groups, |hist|, |hist + Added(op, t.log.maxSize)|);
    case ConsumeOp(g, timeoutMillis, clock) =>
      ConsumeDrains(t, hist, g, timeoutMillis, clock);
      assert hist + [] == hist;
  }

  lemma NewTopicHolds(name: string, maxSegmentSize: nat, maxTopicSize: nat)
    requires maxSegmentSize < TWO_32
    ensures TopicInv(NewTopic(name, maxSegmentSize, maxTopicSize), [])
  {
    NewLogRunInv(maxSegmentSize, maxTopicSize);
  }

  /**
   * In every interleaving of produce and consume commands on a new topic, the log holds exactly
   * the accepted records and its cursor is back at the end after each command, so that no append
   * ever overwrites a record; and no group's offset passes the end.
   */
  lemma {:induction false} TopicRunHolds(name: string, maxSize: nat, retention: nat, ops: seq<TopicOp>)
    requires maxSize < TWO_32 && |History(ops, maxSize)| < TWO_16
    ensures var t := RunTopic(NewTopic(name, maxSize, retention), ops);
            && TopicInv(t, History(ops, maxSize))
            && t.log.maxSize == maxSize && t.log.retention == retention
  {
    hide TopicInv;
    hide TopicStep;
    hide Added;
    if ops == [] {
      NewTopicHolds(name, maxSize, retention);
    } else {
      var before := ops[..|ops| - 1];
      TopicRunHolds(name, maxSize, retention, before);
      TopicStepHolds(RunTopic(NewTopic(name, maxSize, retention), before), History(before, maxSize), ops[|ops| - 1]);
    }
  }

  // ---- the ledger of one group ----

  /** The offsets from `lo` up to `hi`. */
  function Span(lo: nat, hi: nat): (s: seq<nat>)
    ensures |s| == if lo <= hi then hi - lo else 0
    ensures forall i :: 0 <= i < |s| ==> s[i] == lo + i
  {
    if lo <= hi then seq(hi - lo, i requires 0 <= i => lo + i) else []
  }

  function SpanSet(lo: nat, hi: nat): (s: set<nat>)
    ensures forall x: nat :: x in s <==> lo <= x < hi
    decreases hi - lo
  {
    if lo < hi then {lo} + SpanSet(lo + 1, hi) else {}
  }

  /**
   * What became of the offsets of one group: those returned to it, in order, with the records it
   * received; those read by a poll that then failed; and those skipped because the records were
   * no longer retained.
   */
  datatype Ledger = Ledger(delivered: seq<nat>, received: seq<Record>, lost: set<nat>, expired: set<nat>)

  ghost function Book(before: Topic, op: TopicOp, group: string, l: Ledger): Ledger {
    if op.ProduceOp? || op.group != group then
      l
    else
      var (after, r) := Consume(before, group, op.timeoutMillis, op.clock);
      var was := OffsetOf(before.groups, group);
      var from := Initialized(was, Oldest(before.log));
      var to := OffsetOf(after.groups, group);
      var expired := l.expired + SpanSet(was, from);
      if r.Success? then
        l.(delivered := l.delivered + Span(from, to), received := l.received + r.value, expired := expired)
      else
        l.(lost := l.lost + SpanSet(from, to), expired := expired)
  }

  ghost function LedgerOf(t: Topic, ops: seq<TopicOp>, group: string): Ledger {
    if ops == [] then
      Ledger([], [], {}, {})
    else
      var before := ops[..|ops| - 1];
      Book(RunTopic(t, before), ops[|ops| - 1], group, LedgerOf(t, before, group))
  }

  /**
   * The ledger accounts for every offset below the group's: each was delivered, lost or expired,
   * and only one of these; deliveries are in increasing order, so no offset is delivered twice;
   * and what was received is the record appended at each delivered offset.
   */
  ghost predicate Accounts(l: Ledger, hist: seq<Record>, offset: nat) {
    && |l.received| == |l.delivered|
    && (forall i :: 0 <= i < |l.delivered| ==>
          l.delivered[i] < offset <= |hist| && l.received[i] == hist[l.delivered[i]])
    && (forall i, j :: 0 <= i < j < |l.delivered| ==> l.delivered[i] < l.delivered[j])
    && (forall x: nat :: x < offset <==> x in l.delivered || x in l.lost || x in l.expired)
    && (forall x: nat :: x in l.delivered ==> x !in l.lost && x !in l.expired)
    && l.lost !! l.expired
  }

  lemma SpanMembers(s: seq<nat>, from: nat, to: nat)
    requires from <= to
    ensures forall x: nat :: x in s + Span(from, to) <==> x in s || from <= x < to
  {
    forall x: nat ensures x in s + Span(from, to) <==> x in s || from <= x < to {
      if from <= x < to {
        assert (s + Span(from, to))[|s| + (x - from)] == x;
      }
    }
  }

  /** Adding a delivery that starts where the ledger stopped, after some expired offsets. */
  lemma AccountDelivery(l: Ledger, hist: seq<Record>, was: nat, from: nat, to: nat)
    requires Accounts(l, hist, was) && was <= from <= to <= |hist|
    ensures Accounts(l.(delivered := l.delivered + Span(from, to), received := l.received + hist[from..to],
                        expired := l.expired + SpanSet(was, from)), hist, to)
  {
    hide Span;
    hide SpanSet;
    SpanMembers(l.delivered, from, to);
  }

  lemma AccountLoss(l: Ledger, hist: seq<Record>, was: nat, from: nat, to: nat)
    requires Accounts(l, hist, was) && was <= from <= to
    requires to <= |hist|
    ensures Accounts(l.(lost := l.lost + SpanSet(from, to), expired := l.expired + SpanSet(was, from)), hist, to)
  {
  }

  /** A longer history accounts for what the shorter one did. */
  lemma AccountsGrow(l: Ledger, hist: seq<Record>, hist': seq<Record>, offset: nat)
    requires Accounts(l, hist, offset) && hist <= hist'
    ensures Accounts(l, hist', offset)
  {
  }

  lemma OffsetGrows(t: Topic, hist: seq<Record>, op: TopicOp, group: string)
    requires TopicInv(t, hist)
    ensures OffsetOf(t.groups, group) <= OffsetOf(TopicStep(t, op).0.groups, group)
  {
    hide RunInv;
    hide ProduceFrom;
    hide Consume;
    hide SetOffset;
    hide OffsetOf;
    match op
    case ProduceOp(msgs) =>
    case ConsumeOp(g, timeoutMillis, clock) =>
      var to := if timeoutMillis * MILLISECOND > clock(0) then |hist|
                else Initialized(OffsetOf(t.groups, g), Oldest(t.log));
      ConsumeDrains(t, hist, g, timeoutMillis, clock);
      SetOffsetLocal(t.groups, g, to, group);
  }

  lemma BookKeeps(t: Topic, hist: seq<Record>, op: TopicOp, group: string, l: Ledger)
    requires TopicInv(t, hist) && |hist| + |Added(op, t.log.maxSize)| < TWO_16
    requires Accounts(l, hist, OffsetOf(t.groups, group))
    requires |Flatten(hist)| <= t.log.maxSize ==> l.lost == {} && l.expired == {}
    ensures var t', l' := TopicStep(t, op).0, Book(t, op, group, l);
            && Accounts(l', hist + Added(op, t.log.maxSize), OffsetOf(t'.groups, group))
            && (|Flatten(hist)| <= t.log.maxSize ==> l'.lost == {} && l'.expired == {})
            && OffsetOf(t.groups, group) <= OffsetOf(t'.groups, group)
  {
    hide LogReady;
    hide ProduceFrom;
    hide Consume;
    hide SetOffset;
    hide OffsetOf;
    hide Accounts;
    hide Flatten;
    match op
    case ProduceOp(msgs) =>
      AccountsGrow(l, hist, hist + Added(op, t.log.maxSize), OffsetOf(t.groups, group));
    case ConsumeOp(g, timeoutMillis, clock) =>
      assert hist + Added(op, t.log.maxSize) == hist;
      BookConsume(t, hist, g, timeoutMillis, clock, group, l);
  }

  lemma BookConsume(t: Topic, hist: seq<Record>, g: string, timeoutMillis: nat, clock: Clock,
                    group: string, l: Ledger)
    requires TopicInv(t, hist)
    requires Accounts(l, hist, OffsetOf(t.groups, group))
    requires |Flatten(hist)| <= t.log.maxSize ==> l.lost == {} && l.expired == {}
    ensures var t' := Consume(t, g, timeoutMillis, clock).0;
            var l' := Book(t, ConsumeOp(g, timeoutMillis, clock), group, l);
            && Accounts(l', hist, OffsetOf(t'.groups, group))
            && (|Flatten(hist)| <= t.log.maxSize ==> l'.lost == {} && l'.expired == {})
            && OffsetOf(t.groups, group) <= OffsetOf(t'.groups, group)
  {
    hide RunInv;
    hide Consume;
    hide SetOffset;
    hide OffsetOf;
    hide Accounts;
    hide Flatten;
    var entered := timeoutMillis * MILLISECOND > clock(0);
    var was := OffsetOf(t.groups, group);
    var from := Initialized(OffsetOf(t.groups, g), Oldest(t.log));
    var to := if entered then |hist| else from;
    ConsumeDrains(t, hist, g, timeoutMillis, clock);
    SetOffsetLocal(t.groups, g, to, group);
    LogSplitIff(t.log, hist);
    UnsplitOldest(t.log, hist);
    if g == group {
      if entered && t.log.cur.start > 0 {
        AccountLoss(l, hist, was, from, to);
      } else {
        AccountDelivery(l, hist, was, from, to);
      }
    }
  }

  lemma UnsplitOldest(log: Log, hist: seq<Record>)
    requires RunInv(log, hist)
    ensures log.cur.start == 0 ==> Oldest(log) == 0
  {
    hide Inv;
    hide Packed;
    hide Retained;
    LogRefinement.OldestBelow(log, hist);
  }

  /** Appending never brings the oldest offset down. */
  lemma AppendKeepsOldest(log: Log, hist: seq<Record>, d: Record)
    requires LogReady(log, hist) && (|d| <= log.maxSize ==> |hist| + 1 < TWO_16)
    ensures Oldest(log) <= Oldest(Append(log, d).0)
  {
    hide Inv;
    hide Packed;
    hide Retained;
    hide Append;
    if |d| <= log.maxSize {
      LogRefinement.AppendIs(log, hist, d);
      LogRefinement.CleanKeepsInv(LogRefinement.Written(log, d), hist + [d]);
      WrittenKeepsOldest(log, hist, d);
      CleanedLater(LogRefinement.Written(log, d), hist + [d]);
    } else {
      AppendReady(log, hist, d);
    }
  }

  lemma WrittenKeepsOldest(log: Log, hist: seq<Record>, d: Record)
    requires Inv(log, hist)
    ensures Oldest(log) <= Oldest(LogRefinement.Written(log, d))
  {
  }

  /** A cleaned log starts at a later segment, or at the same one. */
  lemma CleanedLater(log: Log, hist: seq<Record>)
    requires Inv(log, hist)
    ensures Oldest(log) <= Oldest(LogRefinement.Cleaned(log))
  {
    hide Inv;
    hide LogRefinement.Cleaned;
    LogRefinement.CleanKeepsInv(log, hist);
    var k := CleanerSpec.KeepFrom(log.segments, log.retention);
    CleanerSpec.CutUnique(log.segments, log.retention, k);
    if 0 < k < |log.segments| {
      SegmentsBelow(log, hist, 0);
    }
  }

  lemma {:induction false} ProduceKeepsOldest(log: Log, hist: seq<Record>, msgs: seq<Record>, last: u16)
    requires LogReady(log, hist) && |hist| + Fitting(msgs, log.maxSize) < TWO_16
    ensures Oldest(log) <= Oldest(ProduceFrom(log, msgs, last).0)
    decreases |msgs|
  {
    hide LogReady;
    hide Append;
    if msgs != [] {
      AppendReady(log, hist, msgs[0]);
      AppendKeepsOldest(log, hist, msgs[0]);
      if |msgs[0]| <= log.maxSize {
        ProduceKeepsOldest(Append(log, msgs[0]).0, hist + [msgs[0]], msgs[1..], |hist|);
      }
    }
  }

  lemma StepKeepsOldest(t: Topic, hist: seq<Record>, op: TopicOp)
    requires TopicInv(t, hist) && |hist| + |Added(op, t.log.maxSize)| < TWO_16
    ensures Oldest(t.log) <= Oldest(TopicStep(t, op).0.log)
  {
    hide LogReady;
    hide ProduceFrom;
    hide Consume;
    hide Oldest;
    match op
    case ProduceOp(msgs) =>
      ProduceKeepsOldest(t.log, hist, msgs, 0);
    case ConsumeOp(g, timeoutMillis, clock) =>
      ConsumeDrains(t, hist, g, timeoutMillis, clock);
  }

  /** What a command books as expired is below the oldest offset. */
  lemma BookExpires(t: Topic, hist: seq<Record>, op: TopicOp, group: string, l: Ledger)
    requires TopicInv(t, hist) && |hist| + |Added(op, t.log.maxSize)| < TWO_16
    requires forall x :: x in l.expired ==> x < Oldest(t.log)
    ensures forall x :: x in Book(t, op, group, l).expired ==> x < Oldest(TopicStep(t, op).0.log)
  {
    hide TopicInv;
    hide TopicStep;
    hide Consume;
    hide Oldest;
    StepKeepsOldest(t, hist, op);
  }

  /**
   * Delivery over a whole run of a new topic, for any group: at most once, in order, every gap
   * explained; and no offset expires that is still retained. As long as no more bytes were accepted
   * than one segment takes, nothing is ever lost or expired, so the group has received every record
   * below its offset.
   */
  lemma {:induction false} DeliveryAccounts(name: string, maxSize: nat, retention: nat, ops: seq<TopicOp>,
                                            group: string)
    requires maxSize < TWO_32 && |History(ops, maxSize)| < TWO_16
    ensures var t0 := NewTopic(name, maxSize, retention);
            var l := LedgerOf(t0, ops, group);
            && Accounts(l, History(ops, maxSize), OffsetOf(RunTopic(t0, ops).groups, group))
            && (forall x :: x in l.expired ==> x < Oldest(RunTopic(t0, ops).log))
            && (|Flatten(History(ops, maxSize))| <= maxSize ==> l.lost == {} && l.expired == {})
  {
    hide TopicInv;
    hide TopicStep;
    hide Added;
    hide Book;
    hide Flatten;
    var t0 := NewTopic(name, maxSize, retention);
    if ops == [] {
      FlattenNothing();
    } else {
      var before, op := ops[..|ops| - 1], ops[|ops| - 1];
      TopicRunHolds(name, maxSize, retention, before);
      DeliveryAccounts(name, maxSize, retention, before, group);
      FlattenConcat(History(before, maxSize), Added(op, maxSize));
      hide Accounts;
      BookKeeps(RunTopic(t0, before), History(before, maxSize), op, group, LedgerOf(t0, before, group));
      BookExpires(RunTopic(t0, before), History(before, maxSize), op, group, LedgerOf(t0, before, group));
    }
  }

  /** Over a whole run no group ever goes back: its offset after a part of the run is at most that after all of it. */
  lemma {:induction false} OffsetsNeverFall(name: string, maxSize: nat, retention: nat, ops: seq<TopicOp>,
                                            group: string, i: nat)
    requires maxSize < TWO_32 && |History(ops, maxSize)| < TWO_16 && i <= |ops|
    ensures var t0 := NewTopic(name, maxSize, retention);
            OffsetOf(RunTopic(t0, ops[..i]).groups, group) <= OffsetOf(RunTopic(t0, ops).groups, group)
  {
    hide TopicInv;
    hide TopicStep;
    hide Added;
    hide OffsetOf;
    hide NewTopic;
    var t0, n := NewTopic(name, maxSize, retention), |ops| - 1;
    if i == |ops| {
      assert ops[..i] == ops;
    } else {
      OffsetsNeverFall(name, maxSize, retention, ops[..n], group, i);
      assert ops[..n][..i] == ops[..i];
      TopicRunHolds(name, maxSize, retention, ops[..n]);
      OffsetGrows(RunTopic(t0, ops[..n]), History(ops[..n], maxSize), ops[n], group);
    }
  }

  /**
   * The exact condition under which polling works: a poll that enters its loop returns the
   * pending records if and only if no more bytes were ever accepted than one segment takes.
   */
  lemma PollDeliversIff(t: Topic, hist: seq<Record>, group: string, timeoutMillis: nat, clock: Clock)
    requires TopicInv(t, hist) && timeoutMillis * MILLISECOND > clock(0)
    ensures Consume(t, group, timeoutMillis, clock).1 == Success(hist[OffsetOf(t.groups, group)..]) <==>
            |Flatten(hist)| <= t.log.maxSize
    ensures Consume(t, group, timeoutMillis, clock).1.Failure? <==> |Flatten(hist)| > t.log.maxSize
    ensures OffsetOf(Consume(t, group, timeoutMillis, clock).0.groups, group) == |hist|
  {
    hide RunInv;
    hide Consume;
    hide SetOffset;
    hide OffsetOf;
    hide Flatten;
    ConsumeDrains(t, hist, group, timeoutMillis, clock);
    SetOffsetLocal(t.groups, group, |hist|, group);
    LogSplitIff(t.log, hist);
    UnsplitOldest(t.log, hist);
    OffsetWithin(t.groups, |hist|, group);
    assert hist[OffsetOf(t.groups, group)..|hist|] == hist[OffsetOf(t.groups, group)..];
  }

  // ---- the groups of a topic ----

  ghost predicate PollsFor(op: TopicOp, group: string) {
    op.ConsumeOp? && op.group == group
  }

  /** The groups that polled, each once, in the order in which they first did. */
  function PolledGroups(ops: seq<TopicOp>): seq<string> {
    if ops == [] then
      []
    else
      var before, op := PolledGroups(ops[..|ops| - 1]), ops[|ops| - 1];
      if op.ConsumeOp? && op.group !in before then before + [op.group] else before
  }

  ghost predicate Polled(ops: seq<TopicOp>, group: string) {
    exists i :: 0 <= i < |ops| && PollsFor(ops[i], group)
  }

  /** Some part of the run has a poll for one group and none for the other. */
  ghost predicate PolledBefore(ops: seq<TopicOp>, group: string, other: string) {
    exists i :: 0 <= i <= |ops| && Polled(ops[..i], group) && !Polled(ops[..i], other)
  }

  lemma PolledSnoc(ops: seq<TopicOp>, group: string)
    requires ops != []
    ensures Polled(ops, group) <==> Polled(ops[..|ops| - 1], group) || PollsFor(ops[|ops| - 1], group)
  {
    var n := |ops| - 1;
    if Polled(ops, group) {
      var i :| 0 <= i < |ops| && PollsFor(ops[i], group);
      assert i < n ==> PollsFor(ops[..n][i], group);
    }
    if Polled(ops[..n], group) {
      var i :| 0 <= i < n && PollsFor(ops[..n][i], group);
      assert PollsFor(ops[i], group);
    }
  }

  lemma {:induction false} PolledGroupsAre(ops: seq<TopicOp>)
    ensures forall g :: g in PolledGroups(ops) <==> Polled(ops, g)
  {
    hide PollsFor;
    hide Polled;
    if ops == [] {
      NothingPolled();
    } else {
      PolledGroupsAre(ops[..|ops| - 1]);
      forall g ensures g in PolledGroups(ops) <==> Polled(ops, g) {
        PolledSnoc(ops, g);
        PollsForIs(ops[|ops| - 1], g);
      }
    }
  }

  lemma NothingPolled()
    ensures forall g :: !Polled([], g)
  {
  }

  lemma PollsForIs(op: TopicOp, g: string)
    ensures PollsFor(op, g) <==> op.ConsumeOp? && op.group == g
  {
  }

  /** No group is there twice, and each is before those that first polled after it. */
  lemma {:induction false} PolledGroupsOrder(ops: seq<TopicOp>, a: nat, b: nat)
    requires a < b < |PolledGroups(ops)|
    ensures PolledGroups(ops)[a] != PolledGroups(ops)[b]
    ensures PolledBefore(ops, PolledGroups(ops)[a], PolledGroups(ops)[b])
  {
    hide Polled;
    hide PollsFor;
    if ops != [] {
      var n := |ops| - 1;
      var before, g, h := PolledGroups(ops[..n]), PolledGroups(ops)[a], PolledGroups(ops)[b];
      if b < |before| {
        PolledGroupsOrder(ops[..n], a, b);
        var i :| 0 <= i <= n && Polled(ops[..n][..i], g) && !Polled(ops[..n][..i], h);
        assert ops[..n][..i] == ops[..i];
      } else {
        PolledGroupsAre(ops[..n]);
        assert g == before[a] && h !in before;
      }
    }
  }

  /** The groups of a topic that has been run since it was new are those that polled, in that order. */
  lemma {:induction false} GroupsArePolled(name: string, maxSize: nat, retention: nat, ops: seq<TopicOp>)
    ensures var t := RunTopic(NewTopic(name, maxSize, retention), ops);
            && |t.groups| == |PolledGroups(ops)|
            && (forall i :: 0 <= i < |t.groups| ==> t.groups[i].name == PolledGroups(ops)[i])
            && t.name == name && t.maxSegmentSize == maxSize && t.maxTopicSize == retention
  {
    hide ProduceFrom;
    hide Poll;
    hide SetOffset;
    hide OffsetOf;
    hide Oldest;
    if ops != [] {
      var before, op := ops[..|ops| - 1], ops[|ops| - 1];
      GroupsArePolled(name, maxSize, retention, before);
      var t := RunTopic(NewTopic(name, maxSize, retention), before);
      if op.ConsumeOp? {
        ConsumeSetsOne(t, op.group, op.timeoutMillis, op.clock);
        var offset: u32 :| Consume(t, op.group, op.timeoutMillis, op.clock).0.groups
                           == SetOffset(t.groups, op.group, offset);
        SetOffsetNames(t.groups, op.group, offset);
        forall i | 0 <= i < |t.groups| ensures t.groups[i].name in PolledGroups(before) {
        }
        forall g | g in PolledGroups(before) ensures exists i :: 0 <= i < |t.groups| && t.groups[i].name == g {
          var i :| 0 <= i < |PolledGroups(before)| && PolledGroups(before)[i] == g;
          assert t.groups[i].name == g;
        }
      }
    }
  }

  lemma ConsumeSetsOne(t: Topic, group: string, timeoutMillis: nat, clock: Clock)
    ensures exists offset: u32 ::
              Consume(t, group, timeoutMillis, clock).0.groups == SetOffset(t.groups, group, offset)
  {
    hide Poll;
    hide SetOffset;
    OldestIsSmall(t.log);
    var from := Initialized(OffsetOf(t.groups, group), Oldest(t.log));
    var offset := Poll(t.log, from, timeoutMillis, clock).1;
    assert Consume(t, group, timeoutMillis, clock).0.groups == SetOffset(t.groups, group, offset);
  }

  /** Setting an offset keeps the names, with a new one at the end if it was not there. */
  lemma SetOffsetNames(groups: seq<Group>, name: string, offset: u32)
    ensures var groups' := SetOffset(groups, name, offset);
            && (forall i :: 0 <= i < |groups| ==> groups'[i].name == groups[i].name)
            && (if exists i :: 0 <= i < |groups| && groups[i].name == name then |groups'| == |groups|
                else |groups'| == |groups| + 1 && groups'[|groups|].name == name)
  {
    FindGroupFirst(groups, name);
    FindWithGroup(groups, name);
  }
}
