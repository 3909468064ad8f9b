/** What the broker answers, command by command, told from the requests alone. */
module BrokerReplies {
  import opened Base
  import Records
  import opened LogSpec
  import opened Packing
  import opened ConsumerSpec
  import opened TopicSpec
  import opened Delivery
  import opened BrokerSpec

  // ---- which topics there are ----

  /** The topic was created and not deleted since, by the commands that name it. */
  ghost predicate Alive(commands: seq<Command>) {
    exists j :: 0 <= j < |commands| && commands[j].CreateTopic?
                && forall k :: j < k < |commands| ==> !commands[k].DeleteTopic?
  }

  lemma AliveSnoc(commands: seq<Command>, c: Command)
    ensures Alive(commands + [c]) <==> c.CreateTopic? || (Alive(commands) && !c.DeleteTopic?)
  {
    var all, n := commands + [c], |commands|;
    if Alive(all) {
      var j :| 0 <= j < |all| && all[j].CreateTopic? && forall k :: j < k < |all| ==> !all[k].DeleteTopic?;
      if j < n {
        assert commands[j].CreateTopic? && forall k :: j < k < n ==> !commands[k].DeleteTopic? by {
          assert forall k :: 0 <= k < n ==> all[k] == commands[k];
        }
        assert all[n] == c;
      }
    }
    if c.CreateTopic? {
      assert all[n].CreateTopic?;
    } else if Alive(commands) && !c.DeleteTopic? {
      var j :| 0 <= j < n && commands[j].CreateTopic? && forall k :: j < k < n ==> !commands[k].DeleteTopic?;
      assert all[j].CreateTopic?;
    }
  }

  /** Operations since the creation are kept exactly for a topic that is alive. */
  lemma {:induction false} AliveIff(commands: seq<Command>)
    requires forall i :: 0 <= i < |commands| ==> Target(commands[i]).Some?
    ensures Operations(commands).Some? <==> Alive(commands)
    ensures Holds(commands).Some? <==> Alive(commands)
  {
    hide Alive;
    if commands == [] {
      NothingAlive();
    } else {
      var before, c := commands[..|commands| - 1], commands[|commands| - 1];
      AliveIff(before);
      AliveSnoc(before, c);
      assert before + [c] == commands;
    }
  }

  lemma NothingAlive()
    ensures !Alive([])
  {
  }

  /** The topic of a name after some requests: there is one when it is alive, and it has been run since it was new. */
  lemma TopicIs(requests: seq<Request>, name: string)
    ensures var commands, view := Project(requests, name), RunAlone(None, Project(requests, name));
            && Lookup(Run([], requests).0, name) == view
            && (view.Some? <==> Alive(commands))
            && (view.Some? <==> Operations(commands).Some?)
            && (view.Some? ==>
                  && view.value ==
                     RunTopic(NewTopic(name, MAX_SEGMENT_SIZE, MAX_TOPIC_SIZE), Operations(commands).value)
                  && view.value.name == name
                  && view.value.maxSegmentSize == MAX_SEGMENT_SIZE && view.value.maxTopicSize == MAX_TOPIC_SIZE
                  && GroupNames(view.value.groups) == PolledGroups(Operations(commands).value))
  {
    hide Run;
    hide RunAlone;
    hide Alive;
    hide Operations;
    hide Holds;
    hide NewTopic;
    hide RunTopic;
    hide PolledGroups;
    hide Lookup;
    var commands := Project(requests, name);
    NothingToFind(name);
    NoTopicsUnique();
    TopicsAreIndependent([], requests, name);
    AliveIff(commands);
    AloneIsTopicRun(commands, name);
    if Operations(commands).Some? {
      GroupsArePolled(name, MAX_SEGMENT_SIZE, MAX_TOPIC_SIZE, Operations(commands).value);
    }
  }

  // ---- the answers ----

  /**
   * The answers that depend only on which topics there are: creation and deletion say whether
   * they had an effect, a description gives the sizes and the groups in the order in which they
   * first polled, and the other commands refuse a topic that is not there.
   */
  lemma {:induction false} TopicReply(requests: seq<Request>, i: nat)
    requires i < |requests| && Target(requests[i].command).Some?
    ensures var c, name := requests[i].command, Target(requests[i].command).value;
            var earlier, response := Project(requests[..i], name), Run([], requests).1[i].response;
            && (c.CreateTopic? ==> response == CreateResponse(name, !Alive(earlier)))
            && (c.DeleteTopic? ==> response == DeleteResponse(name, Alive(earlier)))
            && (c.DescribeTopic? ==>
                  if Alive(earlier)
                  then Operations(earlier).Some?
                       && response == DescribeResponse(name, true, 1_000_000, 100_000,
                                                       PolledGroups(Operations(earlier).value))
                  else response == DescribeResponse(name, false, 0, 0, []))
            && (c.ProduceTo? && !Alive(earlier) ==> response == ProduceResponse(name, 0, false))
            && (c.ConsumeFrom? && !Alive(earlier) ==> response == ConsumeResponse(name, false, []))
  {
    hide Run;
    hide RunAlone;
    hide Alive;
    hide Operations;
    hide PolledGroups;
    hide Produce;
    hide Consume;
    hide RunTopic;
    hide NewTopic;
    var name := Target(requests[i].command).value;
    NothingToFind(name);
    NoTopicsUnique();
    RepliesAreIndependent([], requests, i);
    TopicIs(requests[..i], name);
  }

  /** The other answers, and that every answer goes where its request came from. */
  lemma {:induction false} OtherReply(requests: seq<Request>, i: nat)
    requires i < |requests|
    ensures var c, reply := requests[i].command, Run([], requests).1[i];
            && reply.conn == requests[i].conn
            && (c.InvalidCommand? ==> reply.response == InvalidResponse(ClientError(c.text)))
            && (c.ResponseCommand? ==> reply.response == InvalidResponse(ResponseIsInvalid))
  {
    hide Run;
    ReplyAt([], requests, i);
  }

  /**
   * The answer to a poll of an existing topic, on every run in which no log of the name takes
   * 65536 records: nothing when the time is over before the first read; otherwise the records from
   * the group's offset on as long as the accepted ones fit one segment, and an error from then on.
   * The group is then at the end, or where it was, or at the oldest record if it had fallen behind.
   */
  lemma ConsumeReply(requests: seq<Request>, i: nat)
    requires i < |requests| && requests[i].command.ConsumeFrom?
    requires NeverFull(Project(requests[..i], requests[i].command.name))
    requires Alive(Project(requests[..i], requests[i].command.name))
    ensures var c, response := requests[i].command, Run([], requests).1[i].response;
            var hist := Holds(Project(requests[..i], c.name));
            var before := Lookup(Run([], requests[..i]).0, c.name);
            var after := Lookup(Run([], requests[..i + 1]).0, c.name);
            && hist.Some? && before.Some? && after.Some?
            && var offset, offset' := OffsetOf(before.value.groups, c.group), OffsetOf(after.value.groups, c.group);
            && offset <= |hist.value|
            && if c.timeoutMillis * 1_000_000 <= c.clock(0) then
                 && response == ConsumeResponse(c.name, true, [])
                 && offset' == if offset < Oldest(before.value.log) then Oldest(before.value.log) else offset
               else
                 && response == (if |Records.Flatten(hist.value)| <= 100_000
                                 then ConsumeResponse(c.name, true, hist.value[offset..])
                                 else InvalidResponse(PollFailed))
                 && offset' == |hist.value|
  {
    hide Run;
    hide RunAlone;
    hide Alive;
    hide Operations;
    hide Holds;
    hide Consume;
    hide NewTopic;
    hide OffsetOf;
    hide TopicInv;
    hide Lookup;
    hide Oldest;
    hide Project;
    hide PolledGroups;
    hide RunTopic;
    var c := requests[i].command;
    var earlier := Project(requests[..i], c.name);
    NothingToFind(c.name);
    NoTopicsUnique();
    RepliesAreIndependent([], requests, i);
    TopicIs(requests[..i], c.name);
    AliveIff(earlier);
    AloneHolds(earlier);
    NextView(requests, i);
    var t, hist := RunAlone(None, earlier).value, Holds(earlier).value;
    PollAnswer(t, hist, c.group, c.timeoutMillis, c.clock);
  }

  /** The topic that a request names, after it. */
  lemma NextView(requests: seq<Request>, i: nat)
    requires i < |requests| && Target(requests[i].command).Some?
    ensures var c, name := requests[i].command, Target(requests[i].command).value;
            Lookup(Run([], requests[..i + 1]).0, name) == ServeAlone(Lookup(Run([], requests[..i]).0, name), c).0
  {
    hide ServeAlone;
    hide Lookup;
    var c, name := requests[i].command, Target(requests[i].command).value;
    var earlier := Project(requests[..i], name);
    NothingToFind(name);
    NoTopicsUnique();
    TopicsAreIndependent([], requests[..i], name);
    TopicsAreIndependent([], requests[..i + 1], name);
    assert requests[..i + 1][..i] == requests[..i] && requests[..i + 1][i] == requests[i];
    assert Project(requests[..i + 1], name) == earlier + [c];
    assert (earlier + [c])[..|earlier|] == earlier;
  }

  /** What a poll of a topic that holds its records answers, and where it leaves the group. */
  lemma PollAnswer(t: Topic, hist: seq<Record>, group: string, timeoutMillis: nat, clock: Clock)
    requires TopicInv(t, hist)
    ensures var (t', r) := Consume(t, group, timeoutMillis, clock);
            var offset := OffsetOf(t.groups, group);
            && offset <= |hist|
            && if timeoutMillis * 1_000_000 <= clock(0) then
                 && r == Success([])
                 && OffsetOf(t'.groups, group) == if offset < Oldest(t.log) then Oldest(t.log) else offset
               else
                 && r == (if |Records.Flatten(hist)| <= t.log.maxSize then Success(hist[offset..])
                          else Failure(ReadFailed))
                 && OffsetOf(t'.groups, group) == |hist|
  {
    hide RunInv;
    hide Consume;
    hide SetOffset;
    hide OffsetOf;
    hide Records.Flatten;
    OffsetWithin(t.groups, |hist|, group);
    ConsumeDrains(t, hist, group, timeoutMillis, clock);
    var from := Initialized(OffsetOf(t.groups, group), Oldest(t.log));
    LogSplitIff(t.log, hist);
    UnsplitOldest(t.log, hist);
    if timeoutMillis * MILLISECOND > clock(0) {
      PollDeliversIff(t, hist, group, timeoutMillis, clock);
      SetOffsetLocal(t.groups, group, |hist|, group);
    } else {
      SetOffsetLocal(t.groups, group, from, group);
      assert hist[from..from] == [];
    }
  }

  // ---- the list of all topics ----

  /** The names without this one. */
  function Without(names: seq<string>, name: string): seq<string> {
    if names == [] then []
    else (if names[0] == name then [] else [names[0]]) + Without(names[1..], name)
  }

  /** The names after one more command. */
  function NextNames(names: seq<string>, c: Command): seq<string> {
    if c.CreateTopic? then (if c.name in names then names else names + [c.name])
    else if c.DeleteTopic? then Without(names, c.name)
    else names
  }

  /** The names that are alive, each once, in the order in which they were last created. */
  function LiveNames(requests: seq<Request>): seq<string> {
    if requests == [] then
      []
    else
      NextNames(LiveNames(requests[..|requests| - 1]), requests[|requests| - 1].command)
  }

  ghost predicate NamesAre(topics: seq<Topic>, names: seq<string>) {
    |topics| == |names| && forall i :: 0 <= i < |names| ==> topics[i].name == names[i]
  }

  lemma {:induction false} WithoutAt(names: seq<string>, name: string, i: nat)
    requires i <= |names| && (i < |names| ==> names[i] == name)
    requires forall j :: 0 <= j < |names| && j != i ==> names[j] != name
    ensures Without(names, name) == if i < |names| then names[..i] + names[i + 1..] else names
  {
    if names != [] {
      WithoutAt(names[1..], name, if i == 0 then |names| - 1 else i - 1);
      assert names == [names[0]] + names[1..];
    }
  }

  /** The vector has the live names in their order. */
  lemma {:induction false} VectorIs(requests: seq<Request>)
    ensures NamesAre(Run([], requests).0, LiveNames(requests)) && UniqueNames(Run([], requests).0)
  {
    hide Serve;
    hide NamesAre;
    hide UniqueNames;
    if requests == [] {
      NoNames();
    } else {
      var n := |requests| - 1;
      VectorIs(requests[..n]);
      VectorStep(Run([], requests[..n]).0, LiveNames(requests[..n]), requests[n].command);
    }
  }

  lemma NoNames()
    ensures NamesAre([], []) && UniqueNames([])
  {
  }

  lemma NamesPushed(topics: seq<Topic>, names: seq<string>, t: Topic)
    requires NamesAre(topics, names)
    ensures NamesAre(topics + [t], names + [t.name])
  {
  }

  lemma NamesReplaced(topics: seq<Topic>, names: seq<string>, i: nat, t: Topic)
    requires NamesAre(topics, names) && i < |topics| && t.name == topics[i].name
    ensures NamesAre(topics[i := t], names)
  {
  }

  lemma NamesRemoved(topics: seq<Topic>, names: seq<string>, i: nat)
    requires NamesAre(topics, names) && UniqueNames(topics) && i < |topics|
    ensures NamesAre(topics[..i] + topics[i + 1..], Without(names, topics[i].name))
  {
    hide Without;
    WithoutAt(names, topics[i].name, i);
  }

  lemma NothingRemoved(names: seq<string>, name: string)
    requires name !in names
    ensures Without(names, name) == names
  {
    hide Without;
    WithoutAt(names, name, |names|);
  }

  lemma VectorStep(topics: seq<Topic>, names: seq<string>, c: Command)
    requires NamesAre(topics, names) && UniqueNames(topics)
    ensures UniqueNames(Serve(topics, c).0)
    ensures NamesAre(Serve(topics, c).0, NextNames(names, c))
  {
    hide UniqueNames;
    hide NamesAre;
    hide Without;
    hide FindTopic;
    hide Produce;
    hide Consume;
    hide NewTopic;
    hide Describe;
    hide DescribeAll;
    ServeIsLocal(topics, c, "");
    if Target(c).Some? {
      var name := Target(c).value;
      var i := FindTopic(topics, name);
      FoundIff(topics, names, name);
      match c
      case CreateTopic(_) =>
        NewName(name);
        NamesPushed(topics, names, NewTopic(name, MAX_SEGMENT_SIZE, MAX_TOPIC_SIZE));
      case DeleteTopic(_) =>
        if i < |topics| {
          NamesRemoved(topics, names, i);
        } else {
          NothingRemoved(names, name);
        }
      case ProduceTo(_, msgs) =>
        if i < |topics| {
          NamesKept(topics[i]);
          NamesReplaced(topics, names, i, Produce(topics[i], msgs).0);
        }
      case ConsumeFrom(_, g, timeoutMillis, clock) =>
        if i < |topics| {
          NamesKept(topics[i]);
          NamesReplaced(topics, names, i, Consume(topics[i], g, timeoutMillis, clock).0);
        }
      case _ =>
    }
  }

  lemma NewName(name: string)
    ensures NewTopic(name, MAX_SEGMENT_SIZE, MAX_TOPIC_SIZE).name == name
  {
  }

  lemma FoundIff(topics: seq<Topic>, names: seq<string>, name: string)
    requires NamesAre(topics, names)
    ensures FindTopic(topics, name) < |topics| <==> name in names
    ensures FindTopic(topics, name) < |topics| ==> topics[FindTopic(topics, name)].name == name
  {
    FindIsFirst(topics, name);
    if name in names {
      var i :| 0 <= i < |names| && names[i] == name;
      assert topics[i].name == name;
    }
  }

  /**
   * The answer to a request for all topics, on every run from none: each topic that is alive, once,
   * in the order of creation, with its groups in the order in which they first polled; and an error
   * exactly when there is no topic.
   */
  lemma AllTopicsReply(requests: seq<Request>, i: nat)
    requires i < |requests| && requests[i].command.AllTopics?
    ensures var names, response := LiveNames(requests[..i]), Run([], requests).1[i].response;
            if names == [] then
              response == InvalidResponse(NoTopics)
            else
              && response.AllResponse? && |response.topics| == |names|
              && forall k :: 0 <= k < |names| ==>
                   && Operations(Project(requests[..i], names[k])).Some?
                   && response.topics[k] == (names[k], PolledGroups(Operations(Project(requests[..i], names[k])).value))
  {
    hide Run;
    hide LiveNames;
    hide Operations;
    hide PolledGroups;
    hide Alive;
    hide RunAlone;
    hide RunTopic;
    hide NewTopic;
    hide Lookup;
    var topics, names := Run([], requests[..i]).0, LiveNames(requests[..i]);
    ReplyAt([], requests, i);
    VectorIs(requests[..i]);
    forall k | 0 <= k < |names|
      ensures Operations(Project(requests[..i], names[k])).Some?
      ensures Describe(topics[k]) == (names[k], PolledGroups(Operations(Project(requests[..i], names[k])).value))
    {
      LookupAt(topics, k);
      TopicIs(requests[..i], names[k]);
    }
  }

  lemma LookupAt(topics: seq<Topic>, k: nat)
    requires UniqueNames(topics) && k < |topics|
    ensures Lookup(topics, topics[k].name) == Some(topics[k])
  {
    FirstIsFound(topics, topics[k].name, k);
  }

  // ---- which names are live, and their order ----

  lemma AliveStep(requests: seq<Request>, name: string)
    requires requests != []
    ensures var before, c := requests[..|requests| - 1], requests[|requests| - 1].command;
            Alive(Project(requests, name)) <==>
            c == CreateTopic(name) || (Alive(Project(before, name)) && c != DeleteTopic(name))
  {
    hide Alive;
    var before, c := requests[..|requests| - 1], requests[|requests| - 1].command;
    AliveSnoc(Project(before, name), c);
    assert Project(before, name) + [] == Project(before, name);
  }

  /** The live names are those created and not deleted since. */
  lemma {:induction false} LiveNamesAre(requests: seq<Request>, name: string)
    ensures name in LiveNames(requests) <==> Alive(Project(requests, name))
  {
    hide Alive;
    hide Project;
    hide Without;
    if requests == [] {
      NothingProjected(name);
    } else {
      var before, c := requests[..|requests| - 1], requests[|requests| - 1].command;
      LiveNamesAre(before, name);
      AliveStep(requests, name);
      if c.DeleteTopic? {
        WithoutAre(LiveNames(before), c.name, name);
      }
    }
  }

  lemma NothingProjected(name: string)
    ensures !Alive(Project([], name))
  {
  }

  lemma {:induction false} WithoutAre(names: seq<string>, gone: string, name: string)
    ensures name in Without(names, gone) <==> name in names && name != gone
  {
    if names != [] {
      WithoutAre(names[1..], gone, name);
      assert name in names <==> name == names[0] || name in names[1..];
    }
  }

  /** `p` stands somewhere before `q`. */
  ghost predicate Precedes(names: seq<string>, p: string, q: string) {
    exists x, y :: 0 <= x < y < |names| && names[x] == p && names[y] == q
  }

  /** One topic has been there, without being deleted, since a time when the other was not there. */
  ghost predicate OlderThan(requests: seq<Request>, name: string, other: string) {
    exists i :: 0 <= i <= |requests|
                && Alive(Project(requests[..i], name))
                && (forall k :: i <= k < |requests| ==> requests[k].command != DeleteTopic(name))
                && !Alive(Project(requests[..i], other))
  }

  lemma OlderStays(requests: seq<Request>, name: string, other: string)
    requires requests != [] && OlderThan(requests[..|requests| - 1], name, other)
    requires requests[|requests| - 1].command != DeleteTopic(name)
    ensures OlderThan(requests, name, other)
  {
    hide Alive;
    hide Project;
    var n := |requests| - 1;
    var i :| 0 <= i <= n
             && Alive(Project(requests[..n][..i], name))
             && (forall k :: i <= k < n ==> requests[..n][k].command != DeleteTopic(name))
             && !Alive(Project(requests[..n][..i], other));
    assert requests[..n][..i] == requests[..i];
    forall k | i <= k < |requests| ensures requests[k].command != DeleteTopic(name) {
      assert k < n ==> requests[..n][k] == requests[k];
    }
  }

  lemma {:induction false} WithoutPrecedes(names: seq<string>, gone: string, p: string, q: string)
    requires Precedes(Without(names, gone), p, q)
    ensures Precedes(names, p, q) && p != gone && q != gone
  {
    var rest := names[1..];
    var left, tail := Without(names, gone), Without(rest, gone);
    var x, y :| 0 <= x < y < |left| && left[x] == p && left[y] == q;
    WithoutAre(names, gone, left[x]);
    WithoutAre(names, gone, left[y]);
    if names[0] == gone {
      WithoutPrecedes(rest, gone, p, q);
      PrecedesLater(names, p, q);
    } else if x > 0 {
      assert tail[x - 1] == p && tail[y - 1] == q;
      WithoutPrecedes(rest, gone, p, q);
      PrecedesLater(names, p, q);
    } else {
      assert tail[y - 1] == q && q in tail;
      WithoutAre(rest, gone, q);
      var z :| 0 <= z < |rest| && rest[z] == q;
      assert names[z + 1] == q;
    }
  }

  lemma PrecedesLater(names: seq<string>, p: string, q: string)
    requires names != [] && Precedes(names[1..], p, q)
    ensures Precedes(names, p, q)
  {
    var x, y :| 0 <= x < y < |names[1..]| && names[1..][x] == p && names[1..][y] == q;
    assert names[x + 1] == p && names[y + 1] == q;
  }

  /** The order of the live names is the order in which they were created, and none is there twice. */
  lemma {:induction false} LiveNamesOrder(requests: seq<Request>, p: string, q: string)
    requires Precedes(LiveNames(requests), p, q)
    ensures p != q && OlderThan(requests, p, q)
  {
    hide OlderThan;
    hide Precedes;
    hide Without;
    if requests == [] {
      NothingPrecedes(p, q);
    } else {
      var n := |requests| - 1;
      var old', c := LiveNames(requests[..n]), requests[n].command;
      if c.DeleteTopic? {
        WithoutPrecedes(old', c.name, p, q);
        LiveNamesOrder(requests[..n], p, q);
        OlderStays(requests, p, q);
      } else if Precedes(old', p, q) {
        LiveNamesOrder(requests[..n], p, q);
        OlderStays(requests, p, q);
      } else {
        PrecedesLast(old', c.name, p, q);
        LastIsYoungest(requests, p);
      }
    }
  }

  lemma NothingPrecedes(p: string, q: string)
    ensures !Precedes([], p, q)
  {
  }

  lemma PrecedesLast(names: seq<string>, last: string, p: string, q: string)
    requires Precedes(names + [last], p, q)
    ensures Precedes(names, p, q) || (p in names && q == last)
  {
    var all := names + [last];
    var x, y :| 0 <= x < y < |all| && all[x] == p && all[y] == q;
    assert names[x] == p;
    if y < |names| {
      assert names[y] == q;
    }
  }

  /** A topic just created is younger than those that were there. */
  lemma LastIsYoungest(requests: seq<Request>, p: string)
    requires requests != [] && requests[|requests| - 1].command.CreateTopic?
    requires var before := LiveNames(requests[..|requests| - 1]);
             p in before && requests[|requests| - 1].command.name !in before
    ensures p != requests[|requests| - 1].command.name
    ensures OlderThan(requests, p, requests[|requests| - 1].command.name)
  {
    hide Alive;
    hide Project;
    hide LiveNames;
    var n := |requests| - 1;
    LiveNamesAre(requests[..n], p);
    LiveNamesAre(requests[..n], requests[n].command.name);
  }
}
