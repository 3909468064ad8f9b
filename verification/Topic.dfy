/** The topic object, its consumer groups, and the producer that appends to it. */
module Topics {
  import opened Base
  import opened Files
  import opened LogSpec
  import opened LogInvariant
  import opened LogRefinement
  import opened Packing
  import Spec = TopicSpec
  import opened Commitlogs

  class ConsumerGroup {
    const name: string
    var offset: u32

    constructor (consumerGroupName: string)
      ensures name == consumerGroupName && offset == 0
    {
      name := consumerGroupName;
      offset := 0;
    }
  }

  ghost function GroupValues(groups: seq<ConsumerGroup>): (s: seq<Spec.Group>)
    reads groups
    ensures |s| == |groups|
    ensures forall i :: 0 <= i < |s| ==> s[i] == Spec.Group(groups[i].name, groups[i].offset)
  {
    if groups == [] then []
    else [Spec.Group(groups[0].name, groups[0].offset)] + GroupValues(groups[1..])
  }

  class Topic {
    const name: string
    const maxSegmentSize: nat
    const maxTopicSize: nat
    const commitlog: Commitlog
    var consumerGroups: seq<ConsumerGroup>

    ghost function Repr(): (repr: set<object>)
      reads this, commitlog
      ensures this in repr && commitlog in repr
    {
      {this} + commitlog.Repr() + set g | g in consumerGroups
    }

    ghost function Value(): (t: Spec.Topic)
      reads Repr()
      ensures t.name == name
    {
      Spec.Topic(name, GroupValues(consumerGroups), maxSegmentSize, maxTopicSize, commitlog.Value())
    }

    /** The groups are different objects. */
    ghost predicate Valid()
      reads this
    {
      forall i, j :: 0 <= i < j < |consumerGroups| ==> consumerGroups[i] != consumerGroups[j]
    }

    /** A topic on a new, empty directory. */
    constructor (topicName: string, segmentSize: nat, topicSize: nat)
      ensures fresh(Repr()) && Valid()
      ensures Value() == Spec.NewTopic(topicName, segmentSize, topicSize)
      ensures name == topicName && commitlog.maxSegmentSize == segmentSize
    {
      hide Open;
      var dir := new Directory();
      var opened', listing := Commitlog.New(dir, segmentSize, topicSize);
      NewLogHoldsNothing(segmentSize, topicSize, listing);
      name := topicName;
      maxSegmentSize := segmentSize;
      maxTopicSize := topicSize;
      commitlog := opened'.value;
      consumerGroups := [];
    }

    /** The group with this name, and its position; a new group at offset 0 is made when there is none. */
    method LoadConsumerGroup(consumerGroupName: string) returns (group: ConsumerGroup, ghost at: nat)
      requires Valid()
      modifies this`consumerGroups
      ensures Valid()
      ensures GroupValues(consumerGroups) == Spec.WithGroup(old(GroupValues(consumerGroups)), consumerGroupName)
      ensures at == Spec.FindGroup(old(GroupValues(consumerGroups)), consumerGroupName) < |consumerGroups|
      ensures group == consumerGroups[at]
      ensures forall g <- consumerGroups :: g in old(consumerGroups) || fresh(g)
    {
      hide Spec.FindGroup;
      hide GroupValues;
      ghost var values := GroupValues(consumerGroups);
      for j := 0 to |consumerGroups|
        invariant forall k :: 0 <= k < j ==> consumerGroups[k].name != consumerGroupName
      {
        if consumerGroups[j].name == consumerGroupName {
          Spec.FirstUnique(values, consumerGroupName, j);
          return consumerGroups[j], j;
        }
      }
      Spec.FirstUnique(values, consumerGroupName, |values|);
      at := |consumerGroups|;
      group := new ConsumerGroup(consumerGroupName);
      consumerGroups := consumerGroups + [group];
      assert GroupValues(consumerGroups) == values + [Spec.Group(consumerGroupName, 0)];
    }

    /** The names of the groups, in the order they were made. */
    method GetConsumerGroups() returns (names: seq<string>)
      ensures |names| == |consumerGroups|
      ensures forall i :: 0 <= i < |names| ==> names[i] == consumerGroups[i].name
    {
      names := seq(|consumerGroups|, i requires 0 <= i < |consumerGroups| reads this => consumerGroups[i].name);
    }
  }

  datatype ProducerError = ProducerError   // "Unable to produce message to the commitlog"

  function Produced(w: LogResult<u16>): Result<u16, ProducerError> {
    if w.Success? then Success(w.value) else Failure(ProducerError)
  }

  class Producer {
    const topic: Topic

    constructor (producerTopic: Topic)
      ensures topic == producerTopic
    {
      topic := producerTopic;
    }

    /**
     * Append one message to the topic's log, whatever state it is in. A log that is ready and has
     * room takes a message within the limit at the next offset and is ready again; an oversize
     * message is an error and changes nothing.
     */
    method ProduceBytes(bytes: Record) returns (r: Result<u16, ProducerError>, ghost w: LogResult<u16>)
      modifies topic.commitlog.Repr()
      ensures fresh(topic.commitlog.Repr() - old(topic.commitlog.Repr()))
      ensures AppendMay(old(topic.commitlog.Value()), bytes, topic.commitlog.Value(), w) && r == Produced(w)
      ensures forall hist {:trigger Spec.LogReady(old(topic.commitlog.Value()), hist)} ::
                Spec.LogReady(old(topic.commitlog.Value()), hist)
                && (|bytes| <= topic.commitlog.maxSegmentSize ==> |hist| + 1 < TWO_16) ==>
                  if |bytes| <= topic.commitlog.maxSegmentSize
                  then r.Success? && r.value == |hist| && Spec.LogReady(topic.commitlog.Value(), hist + [bytes])
                  else r == Failure(ProducerError) && topic.commitlog.Value() == old(topic.commitlog.Value())
    {
      hide Inv;
      hide RunInv;
      hide Safe;
      hide Spec.LogReady;
      hide AppendMay;
      hide LogSpec.Append;
      var written := topic.commitlog.Append(bytes);
      w := written;
      r := Produced(written);
      AppendMayReady(old(topic.commitlog.Value()), bytes, topic.commitlog.Value(), w);
    }

    /**
     * Append the messages in order; the offset of the last one. There is no answer where the
     * source panics, on the first message that is not appended; a log that is ready and has room
     * takes every vector of messages within the limit.
     */
    method ProduceBytesVector(bytesVector: seq<Record>) returns (lastOffset: Option<u16>)
      modifies topic.commitlog.Repr()
      ensures fresh(topic.commitlog.Repr() - old(topic.commitlog.Repr()))
      ensures Spec.AppendsMay(old(topic.commitlog.Value()), bytesVector, 0, topic.commitlog.Value(),
                              if lastOffset.Some? then Success(lastOffset.value) else Failure(Spec.NotProduced))
      ensures forall hist {:trigger Spec.LogReady(old(topic.commitlog.Value()), hist)} ::
                Spec.LogReady(old(topic.commitlog.Value()), hist)
                && |hist| + Spec.Fitting(bytesVector, topic.commitlog.maxSegmentSize) < TWO_16 ==>
                  var k := Spec.Fitting(bytesVector, topic.commitlog.maxSegmentSize);
                  && Spec.LogReady(topic.commitlog.Value(), hist + bytesVector[..k])
                  && (lastOffset.Some? <==> k == |bytesVector|)
                  && (lastOffset.Some? ==> lastOffset.value == if k == 0 then 0 else |hist| + k - 1)
    {
      hide Spec.LogReady;
      hide Spec.AppendsMay;
      hide Spec.Fitting;
      hide Spec.ProduceFrom;
      hide AppendMay;
      hide Inv;
      hide RunInv;
      hide LogSpec.Append;
      var commitlog := topic.commitlog;
      ghost var log := commitlog.Value();
      var last := 0;
      lastOffset := None;
      Spec.AppendsNothing(log, 0);
      assert bytesVector[0..] == bytesVector;
      for i := 0 to |bytesVector|
        invariant fresh(commitlog.Repr() - old(commitlog.Repr()))
        invariant forall log', r :: Spec.AppendsMay(commitlog.Value(), bytesVector[i..], last, log', r) ==>
                                      Spec.AppendsMay(log, bytesVector, 0, log', r)
      {
        ghost var before := commitlog.Value();
        var written := commitlog.Append(bytesVector[i]);
        assert bytesVector[i..][0] == bytesVector[i] && bytesVector[i..][1..] == bytesVector[i + 1..];
        Spec.AppendsMayTurn(before, bytesVector[i..], last, commitlog.Value(), written);
        if written.Failure? {
          AppendsMayReady(log, bytesVector, commitlog.Value(), Failure(Spec.NotProduced));
          return None;
        }
        last := written.value;
      }
      Spec.AppendsNothing(commitlog.Value(), last);
      assert bytesVector[|bytesVector|..] == [];
      AppendsMayReady(log, bytesVector, commitlog.Value(), Success(last));
      return Some(last);
    }
  }

  /** What one append may do to a log that is ready. */
  lemma AppendMayReady(log: LogSpec.Log, d: Record, log': LogSpec.Log, w: LogResult<u16>)
    requires AppendMay(log, d, log', w)
    ensures forall hist {:trigger Spec.LogReady(log, hist)} ::
              Spec.LogReady(log, hist) && (|d| <= log.maxSize ==> |hist| + 1 < TWO_16) ==>
                if |d| <= log.maxSize then w == Success(|hist|) && Spec.LogReady(log', hist + [d])
                else w.Failure? && log' == log
  {
    hide Spec.LogReady;
    hide AppendMay;
    hide LogSpec.Append;
    forall hist | Spec.LogReady(log, hist) && (|d| <= log.maxSize ==> |hist| + 1 < TWO_16)
      ensures if |d| <= log.maxSize then w == Success(|hist|) && Spec.LogReady(log', hist + [d])
              else w.Failure? && log' == log
    {
      Spec.ReadyIsInv(log, hist);
      AppendMayOnly(log, hist, d, log', w);
      Spec.AppendReady(log, hist, d);
    }
  }

  /** What several appends may do to a log that is ready. */
  lemma AppendsMayReady(log: LogSpec.Log, msgs: seq<Record>, log': LogSpec.Log,
                        r: Result<u16, Spec.ProduceError>)
    requires Spec.AppendsMay(log, msgs, 0, log', r)
    ensures forall hist {:trigger Spec.LogReady(log, hist)} ::
              Spec.LogReady(log, hist) && |hist| + Spec.Fitting(msgs, log.maxSize) < TWO_16 ==>
                var k := Spec.Fitting(msgs, log.maxSize);
                && Spec.LogReady(log', hist + msgs[..k])
                && (r.Success? <==> k == |msgs|)
                && (r.Success? ==> r.value == if k == 0 then 0 else |hist| + k - 1)
  {
    hide Spec.LogReady;
    hide Spec.AppendsMay;
    hide Spec.Fitting;
    hide Spec.ProduceFrom;
    forall hist | Spec.LogReady(log, hist) && |hist| + Spec.Fitting(msgs, log.maxSize) < TWO_16
      ensures var k := Spec.Fitting(msgs, log.maxSize);
              && Spec.LogReady(log', hist + msgs[..k])
              && (r.Success? <==> k == |msgs|)
              && (r.Success? ==> r.value == if k == 0 then 0 else |hist| + k - 1)
    {
      Spec.AppendsMayOnly(log, hist, msgs, 0, log', r);
      Spec.ProduceAppends(log, hist, msgs, 0);
    }
  }
}
