/** The broker object: it finds the topic a command names, and lets a producer or a consumer work on it. */
module Brokers {
  import opened Base
  import opened Files
  import opened LogSpec
  import opened ConsumerSpec
  import TopicSpec
  import Spec = BrokerSpec
  import opened Commitlogs
  import opened Topics
  import opened Consumers

  ghost predicate Within(t: Topic, repr: set<object>)
    reads repr
  {
    t in repr && t.commitlog in repr && t.Repr() <= repr
  }

  ghost function TopicValues(topics: seq<Topic>, repr: set<object>): (s: seq<TopicSpec.Topic>)
    requires forall i :: 0 <= i < |topics| ==> Within(topics[i], repr)
    reads repr
    ensures |s| == |topics|
    ensures forall i :: 0 <= i < |s| ==> s[i] == topics[i].Value()
  {
    if topics == [] then
      []
    else
      assert Within(topics[0], repr);
      [topics[0].Value()] + TopicValues(topics[1..], repr)
  }

  /** Produce the messages of one request, in order, up to the first that fails. */
  method ProduceMessages(topic: Topic, msgs: seq<Record>) returns (r: Result<u16, TopicSpec.ProduceError>)
    modifies topic.commitlog.Repr()
    ensures fresh(topic.commitlog.Repr() - old(topic.commitlog.Repr()))
    ensures TopicSpec.AppendsMay(old(topic.commitlog.Value()), msgs, 0, topic.commitlog.Value(), r)
  {
    hide TopicSpec.AppendsMay;
    hide TopicSpec.LogReady;
    hide AppendMay;
    var log := topic.commitlog;
    ghost var value0 := log.Value();
    var producer := new Producer(topic);
    var lastOffset := 0;
    assert msgs[0..] == msgs;
    for i := 0 to |msgs|
      invariant fresh(log.Repr() - old(log.Repr()))
      invariant forall log', r' :: TopicSpec.AppendsMay(log.Value(), msgs[i..], lastOffset, log', r') ==>
                                     TopicSpec.AppendsMay(value0, msgs, 0, log', r')
    {
      ghost var before := log.Value();
      assert msgs[i..][0] == msgs[i] && msgs[i..][1..] == msgs[i + 1..];
      var produced, w := producer.ProduceBytes(msgs[i]);
      TopicSpec.AppendsMayTurn(before, msgs[i..], lastOffset, log.Value(), w);
      if produced.Failure? {
        return Failure(TopicSpec.NotProduced);
      }
      lastOffset := produced.value;
    }
    TopicSpec.AppendsNothing(log.Value(), lastOffset);
    assert msgs[|msgs|..] == [];
    r := Success(lastOffset);
  }

  /** Produce the messages of one request on a topic. */
  method ProduceAll(topic: Topic, msgs: seq<Record>) returns (r: Result<u16, TopicSpec.ProduceError>)
    requires topic.Valid()
    modifies topic.commitlog.Repr()
    ensures topic.Valid() && fresh(topic.Repr() - old(topic.Repr()))
    ensures TopicSpec.ProduceMay(old(topic.Value()), msgs, topic.Value(), r)
  {
    hide TopicSpec.AppendsMay;
    hide GroupValues;
    ghost var groups := GroupValues(topic.consumerGroups);
    r := ProduceMessages(topic, msgs);
    assert GroupValues(topic.consumerGroups) == groups;
  }

  /** Move one group of the topic up to the oldest record, and poll for it. */
  method PollGroup(topic: Topic, group: ConsumerGroup, ghost k: nat, timeout: nat, clock: Clock) returns (r: PollResult)
    requires topic.Valid() && k < |topic.consumerGroups| && topic.consumerGroups[k] == group
    modifies topic.commitlog.Repr(), group
    ensures fresh(topic.commitlog.Repr() - old(topic.commitlog.Repr()))
    ensures PollMay(old(topic.commitlog.Value()),
                    Initialized(old(group.offset), Oldest(old(topic.commitlog.Value()))), timeout, clock,
                    topic.commitlog.Value(), group.offset, r)
    ensures GroupValues(topic.consumerGroups) ==
            old(GroupValues(topic.consumerGroups))[k := TopicSpec.Group(group.name, group.offset)]
  {
    hide GroupValues;
    hide PollMay;
    var consumer := new Consumer(topic, group);
    r := consumer.Poll(timeout, clock);
  }

  /** Find or make the group, move it up to the oldest record, and poll for it. */
  method ConsumeFor(topic: Topic, group: string, timeout: nat, clock: Clock) returns (r: PollResult)
    requires topic.Valid()
    modifies topic.Repr()
    ensures topic.Valid() && fresh(topic.Repr() - old(topic.Repr()))
    ensures TopicSpec.ConsumeMay(old(topic.Value()), group, timeout, clock, topic.Value(), r)
  {
    hide TopicSpec.FindGroup;
    hide TopicSpec.WithGroup;
    hide PollMay;
    hide GroupValues;
    ghost var before, groups0 := topic.Value(), GroupValues(topic.consumerGroups);
    TopicSpec.FindWithGroup(groups0, group);
    GroupThere(groups0, group);
    var consumerGroup, k := topic.LoadConsumerGroup(group);
    r := PollGroup(topic, consumerGroup, k, timeout, clock);
  }

  lemma GroupThere(groups: seq<TopicSpec.Group>, name: string)
    ensures var k := TopicSpec.FindGroup(groups, name);
            k < |TopicSpec.WithGroup(groups, name)|
            && TopicSpec.WithGroup(groups, name)[k] == TopicSpec.Group(name, TopicSpec.OffsetOf(groups, name))
  {
    TopicSpec.FindGroupFirst(groups, name);
  }

  class Broker {
    var topics: seq<Topic>
    ghost var Repr: set<object>

    /** The topics are parts of the broker that share no object with each other or with the broker itself. */
    ghost predicate Framed()
      reads this, Repr
    {
      && this in Repr
      && (forall i :: 0 <= i < |topics| ==> Within(topics[i], Repr) && this !in topics[i].Repr())
      && (forall i, j :: 0 <= i < j < |topics| ==> topics[i].Repr() !! topics[j].Repr())
    }

    ghost function Value(): (s: seq<TopicSpec.Topic>)
      requires Framed()
      reads this, Repr
      ensures |s| == |topics|
      ensures forall i :: 0 <= i < |s| ==> s[i] == topics[i].Value()
    {
      TopicValues(topics, Repr)
    }

    /** The objects are as the broker made them; what they hold is not restricted. */
    ghost predicate Valid()
      reads this, Repr
    {
      Framed() && forall i :: 0 <= i < |topics| ==> topics[i].Valid()
    }

    constructor ()
      ensures Valid() && fresh(Repr) && Value() == []
    {
      topics := [];
      Repr := {this};
    }

    /** Position of the topic with this name. */
    method CheckTopics(topicToFind: string) returns (found: Option<nat>)
      requires Framed()
      ensures var i := Spec.FindTopic(Value(), topicToFind);
              found == if i < |topics| then Some(i) else None
    {
      for i := 0 to |topics|
        invariant forall j :: 0 <= j < i ==> topics[j].name != topicToFind
      {
        if topics[i].name == topicToFind {
          Spec.FirstIsFound(Value(), topicToFind, i);
          return Some(i);
        }
      }
      Spec.FirstIsFound(Value(), topicToFind, |topics|);
      return None;
    }

    lemma ValidIsFramed()
      requires Valid()
      ensures Framed()
    {
    }

    /** Add a topic at the end of the vector. */
    method PushTopic(topic: Topic)
      requires Valid() && topic.Valid() && topic.Repr() !! Repr
      modifies this
      ensures Valid() && Repr == old(Repr + topic.Repr())
      ensures topics == old(topics) + [topic]
      ensures Value() == old(Value() + [topic.Value()])
    {
      hide Topic.Valid;
      hide Topic.Value;
      hide Topic.Repr;
      hide TopicValues;
      hide GroupValues;
      topics := topics + [topic];
      Repr := Repr + topic.Repr();
    }

    method HandleCreateTopic(topicName: string) returns (response: Spec.Response)
      requires Valid()
      modifies this
      ensures Valid() && fresh(Repr - old(Repr))
      ensures (Value(), response) == Spec.Serve(old(Value()), Spec.CreateTopic(topicName))
    {
      hide Valid;
      hide Framed;
      hide GroupValues;
      hide Topic.Valid;
      hide Topic.Value;
      hide TopicSpec.NewTopic;
      hide Spec.FindTopic;
      hide Topic.Repr;
      ValidIsFramed();
      var foundIndex := CheckTopics(topicName);
      if foundIndex.Some? {
        return Spec.CreateResponse(topicName, false);
      }
      var topic := new Topic(topicName, Spec.MAX_SEGMENT_SIZE, Spec.MAX_TOPIC_SIZE);
      PushTopic(topic);
      return Spec.CreateResponse(topicName, true);
    }

    /** Take the topic at this position out of the vector. */
    method RemoveTopic(i: nat)
      requires Valid() && i < |topics|
      modifies this`topics
      ensures Valid()
      ensures topics == old(topics[..i] + topics[i + 1..])
      ensures forall k :: 0 <= k < |topics| ==> topics[k].Repr() !! old(topics[i].Repr())
      ensures Value() == old(Value()[..i] + Value()[i + 1..])
    {
      hide Topic.Valid;
      hide Topic.Value;
      hide Topic.Repr;
      hide TopicValues;
      hide GroupValues;
      ghost var was := topics;
      topics := topics[..i] + topics[i + 1..];
      assert forall k :: 0 <= k < |topics| ==> topics[k] == was[if k < i then k else k + 1];
    }

    /** When no object of a topic has changed, nor the vector, the broker is as it was. */
    twostate lemma NoTopicChanged(d: Directory)
      requires old(Valid()) && topics == old(topics) && Repr == old(Repr)
      requires forall o :: o in old(Repr) && o != d ==> unchanged(o)
      requires forall i :: 0 <= i < |topics| ==> old(Within(topics[i], Repr)) && d !in old(topics[i].Repr())
      ensures Valid() && Value() == old(Value())
    {
      hide Topic.Valid;
      hide Topic.Value;
      hide Topic.Repr;
      forall i | 0 <= i < |topics|
        ensures topics[i].Repr() == old(topics[i].Repr())
        ensures topics[i].Value() == old(topics[i].Value())
        ensures topics[i].Valid()
      {
        assert forall o :: o in old(topics[i].Repr()) ==> unchanged(o);
      }
    }

    /** Empty a directory that no topic of the vector uses. */
    method RemoveDirectory(d: Directory)
      requires Valid()
      requires forall i :: 0 <= i < |topics| ==> Within(topics[i], Repr) && d !in topics[i].Repr()
      modifies d
      ensures Valid() && Value() == old(Value())
      ensures d.files == map[]
    {
      hide Valid;
      hide Framed;
      hide GroupValues;
      hide Topic.Value;
      hide Topic.Repr;
      ValidIsFramed();
      d.RemoveAll();
      NoTopicChanged(d);
    }

    lemma TopicsAreWithin()
      requires Valid()
      ensures forall i :: 0 <= i < |topics| ==>
                Within(topics[i], Repr) && topics[i].commitlog.directory in topics[i].Repr()
    {
      hide Topic.Valid;
    }

    /** The topic of this name is taken out of the vector, and its directory is emptied. */
    method HandleDeleteTopic(topicName: string) returns (response: Spec.Response)
      requires Valid()
      modifies Repr
      ensures Valid() && fresh(Repr - old(Repr))
      ensures (Value(), response) == Spec.Serve(old(Value()), Spec.DeleteTopic(topicName))
      ensures forall t <- old(topics) :: t in topics || t.commitlog.directory.files == map[]
    {
      hide TopicValues;
      hide Valid;
      hide Framed;
      hide GroupValues;
      hide Topic.Value;
      hide Topic.Repr;
      ValidIsFramed();
      TopicsAreWithin();
      var foundIndex := CheckTopics(topicName);
      if foundIndex.None? {
        return Spec.DeleteResponse(topicName, false);
      }
      var topic := topics[foundIndex.value];
      RemoveTopic(foundIndex.value);
      TopicsAreWithin();
      RemoveDirectory(topic.commitlog.directory);
      return Spec.DeleteResponse(topicName, true);
    }

    method HandleDescribeTopic(topicName: string) returns (response: Spec.Response)
      requires Framed()
      ensures Framed() && (Value(), response) == Spec.Serve(Value(), Spec.DescribeTopic(topicName))
    {
      hide GroupValues;
      hide Commitlog.Value;
      hide Commitlog.Repr;
      var foundIndex := CheckTopics(topicName);
      if foundIndex.None? {
        return Spec.DescribeResponse(topicName, false, 0, 0, []);
      }
      var topic := topics[foundIndex.value];
      var groups := topic.GetConsumerGroups();
      assert groups == Spec.GroupNames(GroupValues(topic.consumerGroups));
      return Spec.DescribeResponse(topicName, true, topic.maxTopicSize, topic.maxSegmentSize, groups);
    }

    method HandleAllTopic() returns (response: Spec.Response)
      requires Framed()
      ensures Framed() && (Value(), response) == Spec.Serve(Value(), Spec.AllTopics)
    {
      hide GroupValues;
      hide TopicValues;
      hide Commitlog.Value;
      hide Commitlog.Repr;
      if topics == [] {
        return Spec.InvalidResponse(Spec.NoTopics);
      }
      var simpleTopics: seq<(string, seq<string>)> := [];
      for i := 0 to |topics|
        invariant |simpleTopics| == i
        invariant forall j :: 0 <= j < i ==> simpleTopics[j] == Spec.Describe(topics[j].Value())
      {
        var groups := topics[i].GetConsumerGroups();
        assert groups == Spec.GroupNames(GroupValues(topics[i].consumerGroups));
        simpleTopics := simpleTopics + [(topics[i].name, groups)];
      }
      assert simpleTopics == Spec.DescribeAll(Value());
      return Spec.AllResponse(simpleTopics);
    }

    /**
     * When only objects of one topic have changed, and it is still valid, so is the broker, and
     * its value has changed at that topic alone.
     */
    twostate lemma OneTopicChanged(x: nat)
      requires old(Valid()) && topics == old(topics) && x < |topics|
      requires forall o :: o in old(Repr) && o != this && o !in old(topics[x].Repr()) ==> unchanged(o)
      requires fresh(topics[x].Repr() - old(topics[x].Repr())) && topics[x].Valid()
      requires Repr == old(Repr) + topics[x].Repr()
      ensures Valid()
      ensures Value() == old(Value())[x := topics[x].Value()]
    {
      hide Topic.Valid;
      hide Topic.Value;
      hide Topic.Repr;
      var t := topics[x];
      forall i | 0 <= i < |topics| && i != x
        ensures topics[i].Repr() == old(topics[i].Repr())
        ensures topics[i].Value() == old(topics[i].Value())
        ensures topics[i].Valid()
      {
        assert old(Within(topics[i], Repr));
        assert forall o :: o in old(topics[i].Repr()) ==> unchanged(o);
      }
    }

    /** Produce the messages to the topic at this position. */
    method ProduceAt(i: nat, msgs: seq<Record>) returns (r: Result<u16, TopicSpec.ProduceError>)
      requires Valid() && i < |topics|
      modifies Repr
      ensures Valid() && fresh(Repr - old(Repr)) && topics == old(topics)
      ensures Value() == old(Value())[i := Value()[i]]
      ensures TopicSpec.ProduceMay(old(Value())[i], msgs, Value()[i], r)
    {
      hide GroupValues;
      hide Topic.Valid;
      hide Topic.Value;
      hide Commitlog.Repr;
      hide TopicSpec.ProduceMay;
      var topic := topics[i];
      assert Within(topic, Repr);
      r := ProduceAll(topic, msgs);
      Repr := Repr + topic.Repr();
      OneTopicChanged(i);
    }

    /** Poll the topic at this position on behalf of a group. */
    method ConsumeAt(i: nat, group: string, timeout: nat, clock: Clock) returns (r: PollResult)
      requires Valid() && i < |topics|
      modifies Repr
      ensures Valid() && fresh(Repr - old(Repr)) && topics == old(topics)
      ensures Value() == old(Value())[i := Value()[i]]
      ensures TopicSpec.ConsumeMay(old(Value())[i], group, timeout, clock, Value()[i], r)
    {
      hide GroupValues;
      hide Topic.Valid;
      hide Topic.Value;
      hide Commitlog.Repr;
      hide TopicSpec.ConsumeMay;
      var topic := topics[i];
      assert Within(topic, Repr);
      r := ConsumeFor(topic, group, timeout, clock);
      Repr := Repr + topic.Repr();
      OneTopicChanged(i);
    }

    /** Produce the messages to the topic of this name. */
    method HandleProducer(topicName: string, msgs: seq<Record>) returns (response: Spec.Response)
      requires Valid()
      modifies Repr
      ensures Valid() && fresh(Repr - old(Repr)) && topics == old(topics)
      ensures Spec.ServeMay(old(Value()), Spec.ProduceTo(topicName, msgs), Value(), response)
    {
      hide Valid;
      hide Framed;
      hide GroupValues;
      hide Topic.Value;
      hide TopicSpec.ProduceMay;
      ValidIsFramed();
      ghost var before := Value();
      var foundIndex := CheckTopics(topicName);
      if foundIndex.None? {
        return Spec.ProduceResponse(topicName, 0, false);
      }
      var produced := ProduceAt(foundIndex.value, msgs);
      ValidIsFramed();
      Spec.ProduceServes(before, topicName, msgs, Value()[foundIndex.value], produced);
      if produced.Failure? {
        return Spec.InvalidResponse(Spec.ProduceFailed);
      }
      return Spec.ProduceResponse(topicName, produced.value, true);
    }

    /** Poll the topic of this name on behalf of a group. */
    method HandleConsumer(topicName: string, group: string, timeout: nat, clock: Clock)
      returns (response: Spec.Response)
      requires Valid()
      modifies Repr
      ensures Valid() && fresh(Repr - old(Repr)) && topics == old(topics)
      ensures Spec.ServeMay(old(Value()), Spec.ConsumeFrom(topicName, group, timeout, clock), Value(), response)
    {
      hide Valid;
      hide Framed;
      hide GroupValues;
      hide Topic.Value;
      hide TopicSpec.ConsumeMay;
      ValidIsFramed();
      ghost var before := Value();
      var foundIndex := CheckTopics(topicName);
      if foundIndex.None? {
        return Spec.ConsumeResponse(topicName, false, []);
      }
      var messages := ConsumeAt(foundIndex.value, group, timeout, clock);
      ValidIsFramed();
      Spec.ConsumeServes(before, topicName, group, timeout, clock, Value()[foundIndex.value], messages);
      if messages.Failure? {
        return Spec.InvalidResponse(Spec.PollFailed);
      }
      return Spec.ConsumeResponse(topicName, true, messages.value);
    }

    /** Serve one command. */
    method Handle(command: Spec.Command) returns (response: Spec.Response)
      requires Valid()
      modifies Repr
      ensures Valid() && fresh(Repr - old(Repr))
      ensures Spec.ServeMay(old(Value()), command, Value(), response)
    {
      hide GroupValues;
      hide Topic.Valid;
      hide Topic.Value;
      hide Topic.Repr;
      hide TopicSpec.ProduceMay;
      hide TopicSpec.ConsumeMay;
      match command
      case CreateTopic(name) =>
        response := HandleCreateTopic(name);
      case DeleteTopic(name) =>
        response := HandleDeleteTopic(name);
      case DescribeTopic(name) =>
        response := HandleDescribeTopic(name);
      case AllTopics =>
        response := HandleAllTopic();
      case ProduceTo(name, msgs) =>
        response := HandleProducer(name, msgs);
      case ConsumeFrom(name, group, timeoutMillis, clock) =>
        response := HandleConsumer(name, group, timeoutMillis, clock);
      case InvalidCommand(text) =>
        response := Spec.InvalidResponse(Spec.ClientError(text));
      case ResponseCommand =>
        response := Spec.InvalidResponse(Spec.ResponseIsInvalid);
    }

    /**
     * Serve the requests that arrive, one at a time, replying to the connection each came from.
     * A new broker none of whose logs gets more records than a log takes ends with exactly the
     * topics and replies of BrokerSpec.Run.
     */
    method Run(requests: seq<Spec.Request>) returns (replies: seq<Spec.Reply>)
      requires Valid()
      modifies Repr
      ensures Valid() && fresh(Repr - old(Repr))
      ensures Spec.RunMay(old(Value()), requests, Value(), replies)
      ensures old(Value()) == [] && Spec.NoLogFull(requests) ==> (Value(), replies) == Spec.Run([], requests)
    {
      hide Valid;
      hide Framed;
      hide Spec.ServeMay;
      hide Spec.NoLogFull;
      hide Spec.Run;
      ValidIsFramed();
      ghost var before := Value();
      replies := [];
      for i := 0 to |requests|
        invariant Valid() && Framed() && fresh(Repr - old(Repr))
        invariant Spec.RunMay(before, requests[..i], Value(), replies)
      {
        ghost var mid, sent := Value(), replies;
        var request := requests[i];
        var response := Handle(request.command);
        ValidIsFramed();
        replies := replies + [Spec.Reply(request.conn, response)];
        Spec.RunMayOneMore(before, requests, i, mid, sent, Value(), response);
      }
      assert requests[..|requests|] == requests;
      if before == [] && Spec.NoLogFull(requests) {
        Spec.RunMayOnly(requests, Value(), replies);
      }
    }
  }
}
