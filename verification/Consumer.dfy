/** The consumer object: the polling loop over a topic's log on behalf of one group. */
module Consumers {
  import opened Base
  import opened Names
  import opened Files
  import opened LogSpec
  import opened LogInvariant
  import opened ConsumerSpec
  import opened Commitlogs
  import opened Topics

  class Consumer {
    const topic: Topic
    const consumerGroup: ConsumerGroup

    /** A consumer for a group; a group that is behind the oldest record is moved up to it. */
    constructor (consumerTopic: Topic, group: ConsumerGroup)
      modifies group
      ensures topic == consumerTopic && consumerGroup == group
      ensures group.offset == Initialized(old(group.offset), old(Oldest(consumerTopic.commitlog.Value())))
    {
      topic := consumerTopic;
      consumerGroup := group;
      new;
      ConsumerGroupInitialize();
    }

    method ConsumerGroupInitialize()
      modifies consumerGroup
      ensures consumerGroup.offset == Initialized(old(consumerGroup.offset), old(Oldest(topic.commitlog.Value())))
      ensures old(consumerGroup.offset) >= old(Oldest(topic.commitlog.Value())) ==>
                consumerGroup.offset == old(consumerGroup.offset)
      ensures old(consumerGroup.offset) < old(Oldest(topic.commitlog.Value())) ==>
                consumerGroup.offset == old(Oldest(topic.commitlog.Value()))
    {
      var oldestOffset := topic.commitlog.GetOldestOffset();
      var n := consumerGroup.offset;
      if n < oldestOffset {
        consumerGroup.offset := oldestOffset;
      }
    }

    method UpdateConsumerGroupOffset()
      modifies consumerGroup
      ensures consumerGroup.offset == WrapAdd32(old(consumerGroup.offset), 1)
    {
      consumerGroup.offset := WrapAdd32(consumerGroup.offset, 1);
    }

    /**
     * Poll the log, whatever state it is in. On a log that holds its history there is one outcome,
     * that of ConsumerSpec.Poll.
     */
    method Poll(timeout: nat, clock: Clock) returns (r: PollResult)
      modifies topic.commitlog.Repr(), consumerGroup
      ensures fresh(topic.commitlog.Repr() - old(topic.commitlog.Repr()))
      ensures PollMay(old(topic.commitlog.Value()), old(consumerGroup.offset), timeout, clock,
                      topic.commitlog.Value(), consumerGroup.offset, r)
      ensures forall hist {:trigger Inv(old(topic.commitlog.Value()), hist)} ::
                Inv(old(topic.commitlog.Value()), hist) ==>
                  (topic.commitlog.Value(), consumerGroup.offset, r) ==
                  ConsumerSpec.Poll(old(topic.commitlog.Value()), old(consumerGroup.offset), timeout, clock)
    {
      hide Inv;
      hide IsListing;
      hide LogSpec.Read;
      hide Reload;
      hide ConsumerSpec.Poll;
      hide PollMay;
      hide PollLoopMay;
      ghost var value0, offset0 := topic.commitlog.Value(), consumerGroup.offset;
      var ok, listing := topic.commitlog.ReloadSegments();
      if ok {
        r := Loop(timeout * MILLISECOND, clock);
      } else {
        r := Failure(PollPanicked);
      }
      PollStarts(value0, offset0, timeout, clock, listing, topic.commitlog.Value(), consumerGroup.offset, r);
      PollMayDoes(value0, offset0, timeout, clock, topic.commitlog.Value(), consumerGroup.offset, r);
    }

    /** Read until the log ends, then wait and look again, until the time is over. */
    method Loop(timeoutDuration: nat, clock: Clock) returns (r: PollResult)
      modifies topic.commitlog.Repr(), consumerGroup
      ensures fresh(topic.commitlog.Repr() - old(topic.commitlog.Repr()))
      ensures PollLoopMay(old(topic.commitlog.Value()), old(consumerGroup.offset), timeoutDuration, clock(0),
                          clock, 1, [], topic.commitlog.Value(), consumerGroup.offset, r)
    {
      hide IsListing;
      hide LogSpec.Read;
      hide Reload;
      hide PollLoopMay;
      hide LeadsTo;
      hide Commitlog.Value;
      var log := topic.commitlog;
      ghost var value0, offset0 := log.Value(), consumerGroup.offset;
      var records: seq<Record> := [];
      var elapsedDuration := clock(0);
      var turn := 1;
      LoopStarts(value0, offset0, timeoutDuration, clock);
      while timeoutDuration > elapsedDuration
        invariant fresh(log.Repr() - old(log.Repr()))
        invariant LeadsTo(value0, offset0, timeoutDuration, clock,
                          log.Value(), consumerGroup.offset, elapsedDuration, turn, records)
        decreases OFFSET_LIMIT - consumerGroup.offset, timeoutDuration - elapsedDuration
      {
        ghost var value := log.Value();
        var n := consumerGroup.offset;
        var found := log.Read(n);
        match found
        case Success(buffer) =>
          TurnReads(value0, offset0, timeoutDuration, clock, value, n, elapsedDuration, turn, records);
          records := records + [buffer];
          UpdateConsumerGroupOffset();
        case Failure(DoesNotExist) =>
          var ok, listing := log.ReloadSegments();
          TurnWaits(value0, offset0, timeoutDuration, clock, value, n, elapsedDuration, turn, records,
                    listing, log.Value());
          if !ok {
            return Failure(PollPanicked);
          }
          elapsedDuration := elapsedDuration + PAUSE + clock(turn);
          turn := turn + 1;
        case Failure(_) =>
          TurnFails(value0, offset0, timeoutDuration, clock, value, n, elapsedDuration, turn, records);
          return Failure(ReadFailed);
      }
      LoopEnds(value0, offset0, timeoutDuration, clock,
               log.Value(), consumerGroup.offset, elapsedDuration, turn, records);
      return Success(records);
    }
  }

  // ---- lemmas used by the loop above ----

  lemma PollStarts(log: Log, offset: u32, timeout: nat, clock: Clock, listing: seq<FileName>,
                   log': Log, offset': u32, r: PollResult)
    requires IsListing(listing, log.files)
    requires var start := Reload(log, listing);
             if start.Failure? then offset' == offset && r == Failure(PollPanicked)
             else PollLoopMay(start.value, offset, timeout * MILLISECOND, clock(0), clock, 1, [], log', offset', r)
    ensures PollMay(log, offset, timeout, clock, log', offset', r)
  {
    hide IsListing;
    hide Reload;
    hide PollLoopMay;
  }

  lemma PollMayDoes(log: Log, offset: u32, timeout: nat, clock: Clock,
                    log': Log, offset': u32, r: PollResult)
    requires PollMay(log, offset, timeout, clock, log', offset', r)
    ensures forall hist {:trigger Inv(log, hist)} :: Inv(log, hist) ==>
              (log', offset', r) == ConsumerSpec.Poll(log, offset, timeout, clock)
  {
    hide Inv;
    hide PollMay;
    hide ConsumerSpec.Poll;
    forall hist | Inv(log, hist) ensures (log', offset', r) == ConsumerSpec.Poll(log, offset, timeout, clock) {
      PollMayOnly(log, hist, offset, timeout, clock, log', offset', r);
    }
  }

  /** Whatever the loop may do from here, it may do from its start. */
  ghost predicate LeadsTo(log0: Log, offset0: u32, timeout: nat, clock: Clock,
                          log: Log, offset: u32, elapsed: nat, turn: nat, records: seq<Record>)
  {
    forall log', offset', r ::
      PollLoopMay(log, offset, timeout, elapsed, clock, turn, records, log', offset', r) ==>
      PollLoopMay(log0, offset0, timeout, clock(0), clock, 1, [], log', offset', r)
  }

  lemma LoopStarts(log: Log, offset: u32, timeout: nat, clock: Clock)
    ensures LeadsTo(log, offset, timeout, clock, log, offset, clock(0), 1, [])
  {
    hide PollLoopMay;
  }

  lemma TurnReads(log0: Log, offset0: u32, timeout: nat, clock: Clock,
                  log: Log, offset: u32, elapsed: nat, turn: nat, records: seq<Record>)
    requires LeadsTo(log0, offset0, timeout, clock, log, offset, elapsed, turn, records)
    requires elapsed < timeout && LogSpec.Read(log, offset).1.Success?
    ensures offset < OFFSET_LIMIT
    ensures LeadsTo(log0, offset0, timeout, clock, LogSpec.Read(log, offset).0, offset + 1, elapsed, turn,
                    records + [LogSpec.Read(log, offset).1.value])
  {
    hide LogSpec.Read;
    hide PollLoopMay;
    ReadBelowLimit(log, offset);
    forall log', offset', r |
      PollLoopMay(LogSpec.Read(log, offset).0, offset + 1, timeout, elapsed, clock, turn,
                  records + [LogSpec.Read(log, offset).1.value], log', offset', r)
      ensures PollLoopMay(log0, offset0, timeout, clock(0), clock, 1, [], log', offset', r)
    {
      LoopMayTurn(log, offset, timeout, elapsed, clock, turn, records, [], log', offset', r);
    }
  }

  lemma TurnWaits(log0: Log, offset0: u32, timeout: nat, clock: Clock,
                  log: Log, offset: u32, elapsed: nat, turn: nat, records: seq<Record>,
                  listing: seq<FileName>, after: Log)
    requires LeadsTo(log0, offset0, timeout, clock, log, offset, elapsed, turn, records)
    requires elapsed < timeout && LogSpec.Read(log, offset).1 == Failure(DoesNotExist)
    requires IsListing(listing, LogSpec.Read(log, offset).0.files)
    ensures var again := Reload(LogSpec.Read(log, offset).0, listing);
            if again.Failure? then
              PollLoopMay(log0, offset0, timeout, clock(0), clock, 1, [], after, offset, Failure(PollPanicked))
            else
              LeadsTo(log0, offset0, timeout, clock,
                      again.value, offset, elapsed + PAUSE + clock(turn), turn + 1, records)
  {
    hide LogSpec.Read;
    hide IsListing;
    hide Reload;
    hide PollLoopMay;
    var again := Reload(LogSpec.Read(log, offset).0, listing);
    LoopMayTurn(log, offset, timeout, elapsed, clock, turn, records, listing, after, offset, Failure(PollPanicked));
    if again.Success? {
      forall log', offset', r |
        PollLoopMay(again.value, offset, timeout, elapsed + PAUSE + clock(turn), clock, turn + 1, records,
                    log', offset', r)
        ensures PollLoopMay(log0, offset0, timeout, clock(0), clock, 1, [], log', offset', r)
      {
        LoopMayTurn(log, offset, timeout, elapsed, clock, turn, records, listing, log', offset', r);
      }
    }
  }

  lemma TurnFails(log0: Log, offset0: u32, timeout: nat, clock: Clock,
                  log: Log, offset: u32, elapsed: nat, turn: nat, records: seq<Record>)
    requires LeadsTo(log0, offset0, timeout, clock, log, offset, elapsed, turn, records)
    requires elapsed < timeout
    requires LogSpec.Read(log, offset).1.Failure? && LogSpec.Read(log, offset).1.error != DoesNotExist
    ensures PollLoopMay(log0, offset0, timeout, clock(0), clock, 1, [],
                        LogSpec.Read(log, offset).0, offset, Failure(ReadFailed))
  {
    hide LogSpec.Read;
    hide PollLoopMay;
    LoopMayTurn(log, offset, timeout, elapsed, clock, turn, records, [], log, offset, Failure(ReadFailed));
  }

  lemma LoopEnds(log0: Log, offset0: u32, timeout: nat, clock: Clock,
                 log: Log, offset: u32, elapsed: nat, turn: nat, records: seq<Record>)
    requires LeadsTo(log0, offset0, timeout, clock, log, offset, elapsed, turn, records) && timeout <= elapsed
    ensures PollLoopMay(log0, offset0, timeout, clock(0), clock, 1, [], log, offset, Success(records))
  {
    assert PollLoopMay(log, offset, timeout, elapsed, clock, turn, records, log, offset, Success(records));
  }
}
