/** A topic: a commitlog and the offsets of its consumer groups; what is delivered over whole runs. */
module TopicSpec {
  import opened Base
  import opened SegmentSpec
  import opened LogSpec
  import opened LogInvariant
  import opened LogRefinement
  import opened LogRuns
  import opened Packing
  import opened ConsumerSpec

  datatype Group = Group(name: string, offset: u32)

  datatype Topic = Topic(name: string, groups: seq<Group>, maxSegmentSize: nat, maxTopicSize: nat, log: Log)

  function NewTopic(name: string, maxSegmentSize: nat, maxTopicSize: nat): Topic {
    Topic(name, [], maxSegmentSize, maxTopicSize, EmptyLog(maxSegmentSize, maxTopicSize))
  }

  // ---- consumer groups ----

  /** Position of the first group with this name; the length if there is none. */
  function FindGroup(groups: seq<Group>, name: string): (i: nat)
    ensures i <= |groups|
  {
    if groups == [] || groups[0].name == name then 0 else 1 + FindGroup(groups[1..], name)
  }

  /** The groups with the named one among them: a new group starts at offset 0, at the end. */
  function WithGroup(groups: seq<Group>, name: string): seq<Group> {
    if FindGroup(groups, name) < |groups| then groups else groups + [Group(name, 0)]
  }

  function OffsetOf(groups: seq<Group>, name: string): u32 {
    if FindGroup(groups, name) < |groups| then groups[FindGroup(groups, name)].offset else 0
  }

  /** Set the offset of the named group, which is made if it is not there. */
  function SetOffset(groups: seq<Group>, name: string, offset: u32): seq<Group> {
    FindWithGroup(groups, name);
    WithGroup(groups, name)[FindGroup(groups, name) := Group(name, offset)]
  }

  lemma {:induction false} FindGroupFirst(groups: seq<Group>, name: string)
    ensures FindGroup(groups, name) < |groups| ==> groups[FindGroup(groups, name)].name == name
    ensures forall i :: 0 <= i < FindGroup(groups, name) ==> groups[i].name != name
  {
    if groups != [] && groups[0].name != name {
      FindGroupFirst(groups[1..], name);
    }
  }

  /** `i` is where the named group is met first, or the length if it is not there. */
  ghost predicate FirstAt(groups: seq<Group>, name: string, i: nat) {
    && i <= |groups|
    && (i < |groups| ==> groups[i].name == name)
    && forall j :: 0 <= j < i ==> groups[j].name != name
  }

  lemma FirstUnique(groups: seq<Group>, name: string, i: nat)
    requires FirstAt(groups, name, i)
    ensures FindGroup(groups, name) == i
  {
    FindGroupFirst(groups, name);
    var k := FindGroup(groups, name);
    assert !(k < i) && !(i < k);
  }

  lemma FindWithGroup(groups: seq<Group>, name: string)
    ensures FindGroup(groups, name) < |WithGroup(groups, name)|
    ensures FindGroup(WithGroup(groups, name), name) == FindGroup(groups, name)
  {
    FindGroupFirst(groups, name);
    FirstUnique(WithGroup(groups, name), name, FindGroup(groups, name));
  }

  ghost predicate DistinctGroups(groups: seq<Group>) {
    forall i, j :: 0 <= i < j < |groups| ==> groups[i].name != groups[j].name
  }

  /** Setting one group's offset keeps names distinct and leaves every other group's offset alone. */
  lemma SetOffsetLocal(groups: seq<Group>, name: string, offset: u32, other: string)
    requires DistinctGroups(groups)
    ensures DistinctGroups(SetOffset(groups, name, offset))
    ensures OffsetOf(SetOffset(groups, name, offset), other) ==
            if other == name then offset else OffsetOf(groups, other)
  {
    var groups' := SetOffset(groups, name, offset);
    var i, j := FindGroup(groups, name), FindGroup(groups, other);
    FindWithGroup(groups, name);
    FindGroupFirst(groups, name);
    FindGroupFirst(groups, other);
    FirstUnique(groups', other, if other == name then i else if j < |groups| then j else |groups'|);
  }

  // ---- consuming and producing ----

  ghost function Consume(t: Topic, group: string, timeoutMillis: nat, clock: Clock): (Topic, PollResult) {
    var from := Initialized(OffsetOf(t.groups, group), Oldest(t.log));
    OldestIsSmall(t.log);
    var (log', offset', r) := Poll(t.log, from, timeoutMillis, clock);
    (t.(log := log', groups := SetOffset(t.groups, group, offset')), r)
  }

  lemma OldestIsSmall(log: Log)
    ensures Oldest(log) < TWO_16
  {
  }

  datatype ProduceError = NotProduced   // "Unable to produce message to commitlog"

  /** Append the messages in order, stopping at the first failure; the offset of the last one, or `last`. */
  ghost function ProduceFrom(log: Log, msgs: seq<Record>, last: u16): (Log, Result<u16, ProduceError>)
    decreases |msgs|
  {
    if msgs == [] then
      (log, Success(last))
    else
      var (log', r) := Append(log, msgs[0]);
      if r.Failure? then (log', Failure(NotProduced)) else ProduceFrom(log', msgs[1..], r.value)
  }

  ghost function Produce(t: Topic, msgs: seq<Record>): (Topic, Result<u16, ProduceError>) {
    var (log', r) := ProduceFrom(t.log, msgs, 0);
    (t.(log := log'), r)
  }

  /** How many leading messages are within the size limit. */
  function Fitting(msgs: seq<Record>, maxSize: nat): (k: nat)
    ensures k <= |msgs|
  {
    if msgs == [] || |msgs[0]| > maxSize then 0 else 1 + Fitting(msgs[1..], maxSize)
  }

  // ---- what holds of a topic between commands ----

  /** The log can be appended to: it holds its history and its cursor is at the end. */
  ghost predicate LogReady(log: Log, hist: seq<Record>) {
    RunInv(log, hist) && log.cur.contents.AtEnd()
  }

  ghost predicate GroupsWithin(groups: seq<Group>, total: nat) {
    DistinctGroups(groups) && forall i :: 0 <= i < |groups| ==> groups[i].offset <= total
  }

  ghost predicate TopicInv(t: Topic, hist: seq<Record>) {
    LogReady(t.log, hist) && GroupsWithin(t.groups, |hist|)
  }

  lemma OffsetWithin(groups: seq<Group>, total: nat, name: string)
    requires GroupsWithin(groups, total)
    ensures OffsetOf(groups, name) <= total
  {
  }

  lemma SetOffsetWithin(groups: seq<Group>, name: string, offset: u32, total: nat)
    requires GroupsWithin(groups, total) && offset <= total
    ensures GroupsWithin(SetOffset(groups, name, offset), total)
  {
    SetOffsetLocal(groups, name, offset, name);
    FindWithGroup(groups, name);
  }

  /** The same groups are within a longer history. */
  lemma GroupsGrow(groups: seq<Group>, total: nat, total': nat)
    requires GroupsWithin(groups, total) && total <= total'
    ensures GroupsWithin(groups, total')
  {
  }

  lemma AppendReady(log: Log, hist: seq<Record>, d: Record)
    requires LogReady(log, hist)
    requires |d| <= log.maxSize ==> |hist| + 1 < TWO_16
    ensures |d| > log.maxSize ==> Append(log, d) == (log, Failure(UnknownWrite))
    ensures |d| <= log.maxSize ==>
              var (log', r) := Append(log, d);
              && r == Success(|hist|) && LogReady(log', hist + [d])
              && log'.maxSize == log.maxSize && log'.retention == log.retention
  {
    hide Inv;
    hide Packed;
    hide Retained;
    hide Append;
    AppendRefines(log, hist, d);
    if |d| <= log.maxSize {
      AppendKeepsRunInv(log, hist, d);
    }
  }

  /**
   * Producing k messages on a topic of `hist`: the leading ones within the limit are appended, in
   * order; the answer is the last offset |hist| + k - 1 if all of them are, and a failure if not.
   */
  lemma {:induction false} ProduceAppends(log: Log, hist: seq<Record>, msgs: seq<Record>, last: u16)
    requires LogReady(log, hist) && |hist| + Fitting(msgs, log.maxSize) < TWO_16
    ensures var k := Fitting(msgs, log.maxSize);
            var (log', r) := ProduceFrom(log, msgs, last);
            && LogReady(log', hist + msgs[..k])
            && log'.maxSize == log.maxSize && log'.retention == log.retention
            && (r.Success? <==> k == |msgs|)
            && (r.Success? ==> r.value == if msgs == [] then last else |hist| + |msgs| - 1)
    decreases |msgs|
  {
    hide LogReady;
    hide Append;
    if msgs == [] {
      assert hist + msgs[..0] == hist;
    } else {
      AppendReady(log, hist, msgs[0]);
      if |msgs[0]| <= log.maxSize {
        var k := Fitting(msgs, log.maxSize);
        ProduceAppends(Append(log, msgs[0]).0, hist + [msgs[0]], msgs[1..], |hist|);
        assert hist + [msgs[0]] + msgs[1..][..k - 1] == hist + msgs[..k];
      } else {
        assert hist + msgs[..0] == hist;
      }
    }
  }

  lemma OldestInHistory(log: Log, hist: seq<Record>)
    requires Inv(log, hist)
    ensures Oldest(log) <= |hist| < TWO_16
  {
    hide SHolds;
    hide VHolds;
    OldestBelow(log, hist);
  }

  /** What a consume command does to a topic, in terms of its history. */
  ghost predicate ConsumeIs(t: Topic, hist: seq<Record>, group: string, entered: bool, t': Topic, r: PollResult) {
    var from := Initialized(OffsetOf(t.groups, group), Oldest(t.log));
    var to := if entered then |hist| else from;
    && from <= |hist| < TWO_16
    && t' == t.(groups := SetOffset(t.groups, group, to))
    && r == if entered && t.log.cur.start > 0 then Failure(ReadFailed) else Success(hist[from..to])
  }

  /**
   * Consuming leaves the log as it was, cursor at the end included, and moves only the group's
   * own offset: to the oldest record if it had fallen behind and, if the poll loop is entered at
   * all, on to the end. The answer is the records in between exactly when the log has never split.
   */
  lemma ConsumeDrains(t: Topic, hist: seq<Record>, group: string, timeoutMillis: nat, clock: Clock)
    requires TopicInv(t, hist)
    ensures var (t', r) := Consume(t, group, timeoutMillis, clock);
            && ConsumeIs(t, hist, group, timeoutMillis * MILLISECOND > clock(0), t', r)
            && TopicInv(t', hist)
  {
    hide Inv;
    hide Packed;
    hide Retained;
    hide Poll;
    hide SetOffset;
    OldestInHistory(t.log, hist);
    OffsetWithin(t.groups, |hist|, group);
    var from := Initialized(OffsetOf(t.groups, group), Oldest(t.log));
    var to := if timeoutMillis * MILLISECOND > clock(0) then |hist| else from;
    PollDrains(t.log, hist, from, timeoutMillis, clock);
    assert hist[from..from] == [] && hist[from..|hist|] == hist[from..];
    SetOffsetWithin(t.groups, group, to, |hist|);
  }

  // ---- commands in whatever order the directory is listed ----

  /** What a consume command may do to a topic. */
  ghost predicate ConsumeMay(t: Topic, group: string, timeoutMillis: nat, clock: Clock, t': Topic, r: PollResult) {
    OldestIsSmall(t.log);
    exists log', offset' ::
      && PollMay(t.log, Initialized(OffsetOf(t.groups, group), Oldest(t.log)), timeoutMillis, clock, log', offset', r)
      && t' == t.(log := log', groups := SetOffset(t.groups, group, offset'))
  }

  /** What appending messages in order may do to a log; nothing is said of the log after a panic. */
  ghost predicate AppendsMay(log: Log, msgs: seq<Record>, last: u16, log': Log, r: Result<u16, ProduceError>)
    decreases |msgs|
  {
    if msgs == [] then
      (log', r) == (log, Success(last))
    else
      exists next, w ::
        && AppendMay(log, msgs[0], next, w)
        && match w
           case Success(o) => AppendsMay(next, msgs[1..], o, log', r)
           case Failure(e) => r == Failure(NotProduced) && (e != Panicked ==> log' == next)
  }

  /** What a produce command may do to a topic. */
  ghost predicate ProduceMay(t: Topic, msgs: seq<Record>, t': Topic, r: Result<u16, ProduceError>) {
    exists log' :: AppendsMay(t.log, msgs, 0, log', r) && t' == t.(log := log')
  }

  lemma AppendsNothing(log: Log, last: u16)
    ensures AppendsMay(log, [], last, log, Success(last))
  {
  }

  /** One more message appended, seen from what may come after it. */
  lemma AppendsMayTurn(log: Log, msgs: seq<Record>, last: u16, next: Log, w: LogResult<u16>)
    requires msgs != [] && AppendMay(log, msgs[0], next, w)
    ensures w.Success? ==>
              forall log', r :: AppendsMay(next, msgs[1..], w.value, log', r) ==> AppendsMay(log, msgs, last, log', r)
    ensures w.Failure? ==> AppendsMay(log, msgs, last, next, Failure(NotProduced))
  {
    hide AppendMay;
  }

  /** On a topic whose log holds its history, consuming can do only one thing. */
  lemma ConsumeMayOnly(t: Topic, hist: seq<Record>, group: string, timeoutMillis: nat, clock: Clock,
                       t': Topic, r: PollResult)
    requires Inv(t.log, hist) && ConsumeMay(t, group, timeoutMillis, clock, t', r)
    ensures (t', r) == Consume(t, group, timeoutMillis, clock)
  {
    hide Inv;
    hide Poll;
    hide PollMay;
    hide SetOffset;
    OldestIsSmall(t.log);
    var from := Initialized(OffsetOf(t.groups, group), Oldest(t.log));
    var log', offset' :| && PollMay(t.log, from, timeoutMillis, clock, log', offset', r)
                         && t' == t.(log := log', groups := SetOffset(t.groups, group, offset'));
    PollMayOnly(t.log, hist, from, timeoutMillis, clock, log', offset', r);
  }

  /** On a log that is ready and has room, appending messages can do only one thing. */
  lemma {:induction false} AppendsMayOnly(log: Log, hist: seq<Record>, msgs: seq<Record>, last: u16,
                                          log': Log, r: Result<u16, ProduceError>)
    requires LogReady(log, hist) && |hist| + Fitting(msgs, log.maxSize) < TWO_16
    requires AppendsMay(log, msgs, last, log', r)
    ensures (log', r) == ProduceFrom(log, msgs, last)
    decreases |msgs|
  {
    hide LogReady;
    hide Append;
    hide AppendMay;
    if msgs != [] {
      var next, w :| && AppendMay(log, msgs[0], next, w)
                     && match w
                        case Success(o) => AppendsMay(next, msgs[1..], o, log', r)
                        case Failure(e) => r == Failure(NotProduced) && (e != Panicked ==> log' == next);
      ReadyIsInv(log, hist);
      AppendMayOnly(log, hist, msgs[0], next, w);
      AppendReady(log, hist, msgs[0]);
      if |msgs[0]| <= log.maxSize {
        AppendsMayOnly(next, hist + [msgs[0]], msgs[1..], |hist|, log', r);
      }
    }
  }

  lemma ReadyIsInv(log: Log, hist: seq<Record>)
    requires LogReady(log, hist)
    ensures Inv(log, hist)
  {
  }

  lemma ProduceMayOnly(t: Topic, hist: seq<Record>, msgs: seq<Record>,
                       t': Topic, r: Result<u16, ProduceError>)
    requires LogReady(t.log, hist) && |hist| + Fitting(msgs, t.log.maxSize) < TWO_16
    requires ProduceMay(t, msgs, t', r)
    ensures (t', r) == Produce(t, msgs)
  {
    hide LogReady;
    hide ProduceFrom;
    hide AppendsMay;
    hide Fitting;
    var log' :| AppendsMay(t.log, msgs, 0, log', r) && t' == t.(log := log');
    AppendsMayOnly(t.log, hist, msgs, 0, log', r);
  }

  // ---- what the functions fix is allowed ----

  lemma {:induction false} AppendsAreAllowed(log: Log, msgs: seq<Record>, last: u16)
    ensures AppendsMay(log, msgs, last, ProduceFrom(log, msgs, last).0, ProduceFrom(log, msgs, last).1)
    decreases |msgs|
  {
    hide Append;
    hide AppendMay;
    if msgs != [] {
      var (next, w) := Append(log, msgs[0]);
      AppendIsAllowed(log, msgs[0]);
      if w.Success? {
        AppendsAreAllowed(next, msgs[1..], w.value);
      }
    }
  }

  lemma ConsumeIsAllowed(t: Topic, group: string, timeoutMillis: nat, clock: Clock)
    ensures var (t', r) := Consume(t, group, timeoutMillis, clock);
            ConsumeMay(t, group, timeoutMillis, clock, t', r)
  {
    hide Poll;
    hide PollMay;
    hide SetOffset;
    OldestIsSmall(t.log);
    var from := Initialized(OffsetOf(t.groups, group), Oldest(t.log));
    PollIsAllowed(t.log, from, timeoutMillis, clock);
    var (log', offset', r) := Poll(t.log, from, timeoutMillis, clock);
    assert PollMay(t.log, from, timeoutMillis, clock, log', offset', r);
    assert Consume(t, group, timeoutMillis, clock) ==
           (t.(log := log', groups := SetOffset(t.groups, group, offset')), r);
  }

  lemma ProduceIsAllowed(t: Topic, msgs: seq<Record>)
    ensures ProduceMay(t, msgs, Produce(t, msgs).0, Produce(t, msgs).1)
  {
    hide ProduceFrom;
    hide AppendsMay;
    AppendsAreAllowed(t.log, msgs, 0);
  }
}
