/** The broker: a vector of topics searched by name, serving one request after another. */
module BrokerSpec {
  import opened Base
  import Records
  import opened LogSpec
  import opened ConsumerSpec
  import opened TopicSpec
  import opened Delivery

  const MAX_SEGMENT_SIZE: nat := 100000
  const MAX_TOPIC_SIZE: nat := 1000000

  datatype Command =
    | CreateTopic(name: string)
    | DeleteTopic(name: string)
    | DescribeTopic(name: string)
    | AllTopics
    | ProduceTo(name: string, msgs: seq<Record>)
    | ConsumeFrom(name: string, group: string, timeoutMillis: nat, clock: Clock)
    | InvalidCommand(text: string)
    | ResponseCommand

  datatype BrokerError =
    | NoTopics            // "Unable to get topic name from consume request"
    | ProduceFailed       // "Unable to produce message to commitlog"
    | PollFailed          // "Unable to poll consumers commitlog"
    | ClientError(text: string)
    | ResponseIsInvalid   // "Response message is invalid"

  datatype Response =
    | CreateResponse(name: string, created: bool)
    | DeleteResponse(name: string, deleted: bool)
    | DescribeResponse(name: string, found: bool, maxTopicSize: nat, maxSegmentSize: nat, groups: seq<string>)
    | AllResponse(topics: seq<(string, seq<string>)>)
    | ProduceResponse(name: string, lastOffset: u16, ok: bool)
    | ConsumeResponse(name: string, ok: bool, msgs: seq<Record>)
    | InvalidResponse(error: BrokerError)

  datatype Request = Request(conn: string, command: Command)

  datatype Reply = Reply(conn: string, response: Response)

  /** Position of the first topic with this name; the length if there is none. */
  function FindTopic(topics: seq<Topic>, name: string): (i: nat)
    ensures i <= |topics|
  {
    if topics == [] || topics[0].name == name then 0 else 1 + FindTopic(topics[1..], name)
  }

  function GroupNames(groups: seq<Group>): (names: seq<string>)
    ensures |names| == |groups|
  {
    seq(|groups|, i requires 0 <= i < |groups| => groups[i].name)
  }

  function Describe(t: Topic): (string, seq<string>) {
    (t.name, GroupNames(t.groups))
  }

  function DescribeAll(topics: seq<Topic>): (r: seq<(string, seq<string>)>)
    ensures |r| == |topics|
  {
    seq(|topics|, i requires 0 <= i < |topics| => Describe(topics[i]))
  }

  /** Serve one command. */
  ghost function Serve(topics: seq<Topic>, command: Command): (seq<Topic>, Response) {
    match command
    case CreateTopic(name) =>
      if FindTopic(topics, name) < |topics| then
        (topics, CreateResponse(name, false))
      else
        (topics + [NewTopic(name, MAX_SEGMENT_SIZE, MAX_TOPIC_SIZE)], CreateResponse(name, true))
    case DeleteTopic(name) =>
      var i := FindTopic(topics, name);
      if i < |topics| then
        (topics[..i] + topics[i + 1..], DeleteResponse(name, true))
      else
        (topics, DeleteResponse(name, false))
    case DescribeTopic(name) =>
      var i := FindTopic(topics, name);
      if i < |topics| then
        (topics, DescribeResponse(name, true, topics[i].maxTopicSize, topics[i].maxSegmentSize,
                                  GroupNames(topics[i].groups)))
      else
        (topics, DescribeResponse(name, false, 0, 0, []))
    case AllTopics =>
      (topics, if topics == [] then InvalidResponse(NoTopics) else AllResponse(DescribeAll(topics)))
    case ProduceTo(name, msgs) =>
      var i := FindTopic(topics, name);
      if i < |topics| then
        var (t, r) := Produce(topics[i], msgs);
        (topics[i := t], if r.Success? then ProduceResponse(name, r.value, true) else InvalidResponse(ProduceFailed))
      else
        (topics, ProduceResponse(name, 0, false))
    case ConsumeFrom(name, group, timeoutMillis, clock) =>
      var i := FindTopic(topics, name);
      if i < |topics| then
        var (t, r) := Consume(topics[i], group, timeoutMillis, clock);
        (topics[i := t], if r.Success? then ConsumeResponse(name, true, r.value) else InvalidResponse(PollFailed))
      else
        (topics, ConsumeResponse(name, false, []))
    case InvalidCommand(text) =>
      (topics, InvalidResponse(ClientError(text)))
    case ResponseCommand =>
      (topics, InvalidResponse(ResponseIsInvalid))
  }

  /** The topics and the replies after serving the requests in order. */
  ghost function Run(topics: seq<Topic>, requests: seq<Request>): (r: (seq<Topic>, seq<Reply>))
    ensures |r.1| == |requests|
  {
    if requests == [] then
      (topics, [])
    else
      var (before, replies) := Run(topics, requests[..|requests| - 1]);
      var last := requests[|requests| - 1];
      var (after, response) := Serve(before, last.command);
      (after, replies + [Reply(last.conn, response)])
  }

  // ---- one topic on its own ----

  /** The name a command is about. */
  function Target(c: Command): Option<string> {
    match c
    case CreateTopic(name) => Some(name)
    case DeleteTopic(name) => Some(name)
    case DescribeTopic(name) => Some(name)
    case ProduceTo(name, _) => Some(name)
    case ConsumeFrom(name, _, _, _) => Some(name)
    case _ => None
  }

  function Lookup(topics: seq<Topic>, name: string): Option<Topic> {
    var i := FindTopic(topics, name);
    if i < |topics| then Some(topics[i]) else None
  }

  /** What a broker that knows at most one topic, of this name, does and answers. */
  ghost function ServeAlone(view: Option<Topic>, command: Command): (Option<Topic>, Response)
    requires Target(command).Some?
  {
    match command
    case CreateTopic(name) =>
      if view.Some? then (view, CreateResponse(name, false))
      else (Some(NewTopic(name, MAX_SEGMENT_SIZE, MAX_TOPIC_SIZE)), CreateResponse(name, true))
    case DeleteTopic(name) =>
      (None, DeleteResponse(name, view.Some?))
    case DescribeTopic(name) =>
      (view, if view.Some?
             then DescribeResponse(name, true, view.value.maxTopicSize, view.value.maxSegmentSize,
                                   GroupNames(view.value.groups))
             else DescribeResponse(name, false, 0, 0, []))
    case ProduceTo(name, msgs) =>
      if view.None? then (view, ProduceResponse(name, 0, false)) else
        var (t, r) := Produce(view.value, msgs);
        (Some(t), if r.Success? then ProduceResponse(name, r.value, true) else InvalidResponse(ProduceFailed))
    case ConsumeFrom(name, group, timeoutMillis, clock) =>
      if view.None? then (view, ConsumeResponse(name, false, [])) else
        var (t, r) := Consume(view.value, group, timeoutMillis, clock);
        (Some(t), if r.Success? then ConsumeResponse(name, true, r.value) else InvalidResponse(PollFailed))
  }

  /** The commands about one name, in order. */
  function Project(requests: seq<Request>, name: string): (cs: seq<Command>)
    ensures forall i :: 0 <= i < |cs| ==> Target(cs[i]) == Some(name)
  {
    if requests == [] then
      []
    else
      var c := requests[|requests| - 1].command;
      Project(requests[..|requests| - 1], name) + (if Target(c) == Some(name) then [c] else [])
  }

  ghost function RunAlone(view: Option<Topic>, commands: seq<Command>): Option<Topic>
    requires forall i :: 0 <= i < |commands| ==> Target(commands[i]).Some?
  {
    if commands == [] then view
    else ServeAlone(RunAlone(view, commands[..|commands| - 1]), commands[|commands| - 1]).0
  }

  // ---- the vector refines a map from names to topics ----

  ghost predicate UniqueNames(topics: seq<Topic>) {
    forall i, j :: 0 <= i < j < |topics| ==> topics[i].name != topics[j].name
  }

  ghost predicate FirstAt(topics: seq<Topic>, name: string, i: nat) {
    && i <= |topics|
    && (i < |topics| ==> topics[i].name == name)
    && forall j :: 0 <= j < i ==> topics[j].name != name
  }

  lemma {:induction false} FindIsFirst(topics: seq<Topic>, name: string)
    ensures FirstAt(topics, name, FindTopic(topics, name))
  {
    if topics != [] && topics[0].name != name {
      FindIsFirst(topics[1..], name);
    }
  }

  lemma FirstIsFound(topics: seq<Topic>, name: string, i: nat)
    requires FirstAt(topics, name, i)
    ensures FindTopic(topics, name) == i
  {
    FindIsFirst(topics, name);
    var k := FindTopic(topics, name);
    assert !(k < i) && !(i < k);
  }

  lemma {:induction false} LookupPushed(topics: seq<Topic>, t: Topic, name: string)
    requires UniqueNames(topics) && FindTopic(topics, t.name) == |topics|
    ensures UniqueNames(topics + [t])
    ensures Lookup(topics + [t], name) == if name == t.name then Some(t) else Lookup(topics, name)
  {
    FindIsFirst(topics, t.name);
    FindIsFirst(topics, name);
    var i := FindTopic(topics, name);
    FirstIsFound(topics + [t], name, if i < |topics| then i else if name == t.name then |topics| else |topics| + 1);
  }

  lemma LookupReplaced(topics: seq<Topic>, i: nat, t: Topic, name: string)
    requires UniqueNames(topics) && i < |topics| && topics[i].name == t.name
    ensures UniqueNames(topics[i := t])
    ensures Lookup(topics[i := t], name) == if name == t.name then Some(t) else Lookup(topics, name)
  {
    FindIsFirst(topics, name);
    FirstIsFound(topics[i := t], name, FindTopic(topics, name));
  }

  lemma LookupRemoved(topics: seq<Topic>, i: nat, name: string)
    requires UniqueNames(topics) && i < |topics|
    ensures UniqueNames(topics[..i] + topics[i + 1..])
    ensures Lookup(topics[..i] + topics[i + 1..], name) ==
            if name == topics[i].name then None else Lookup(topics, name)
  {
    var rest := topics[..i] + topics[i + 1..];
    FindIsFirst(topics, name);
    var k := FindTopic(topics, name);
    FirstIsFound(rest, name, if name == topics[i].name then |rest| else if k < i then k else k - 1);
  }

  lemma NamesKept(t: Topic)
    ensures forall msgs :: Produce(t, msgs).0.name == t.name
    ensures forall g, timeoutMillis, clock :: Consume(t, g, timeoutMillis, clock).0.name == t.name
  {
  }

  /**
   * One command on the vector is one step of a map: the topic it names changes as it would alone,
   * with the answer it would give alone, and every other topic, with its log and its groups, stays.
   */
  lemma ServeIsLocal(topics: seq<Topic>, command: Command, name: string)
    requires UniqueNames(topics)
    ensures var (topics', response) := Serve(topics, command);
            && UniqueNames(topics')
            && (Target(command) != Some(name) ==> Lookup(topics', name) == Lookup(topics, name))
            && (Target(command) == Some(name) ==>
                  (Lookup(topics', name), response) == ServeAlone(Lookup(topics, name), command))
  {
    hide UniqueNames;
    hide Produce;
    hide Consume;
    if Target(command).Some? {
      var n := Target(command).value;
      var i := FindTopic(topics, n);
      FindIsFirst(topics, n);
      match command
      case CreateTopic(_) =>
        if i == |topics| {
          LookupPushed(topics, NewTopic(n, MAX_SEGMENT_SIZE, MAX_TOPIC_SIZE), name);
        }
      case DeleteTopic(_) =>
        if i < |topics| {
          LookupRemoved(topics, i, name);
        }
      case ProduceTo(_, msgs) =>
        if i < |topics| {
          NamesKept(topics[i]);
          LookupReplaced(topics, i, Produce(topics[i], msgs).0, name);
        }
      case ConsumeFrom(_, g, timeoutMillis, clock) =>
        if i < |topics| {
          NamesKept(topics[i]);
          LookupReplaced(topics, i, Consume(topics[i], g, timeoutMillis, clock).0, name);
        }
      case _ =>
    }
  }

  /**
   * Isolation over runs: whatever requests are interleaved, a topic ends as if only the requests
   * that name it had been served.
   */
  lemma {:induction false} TopicsAreIndependent(topics: seq<Topic>, requests: seq<Request>, name: string)
    requires UniqueNames(topics)
    ensures UniqueNames(Run(topics, requests).0)
    ensures Lookup(Run(topics, requests).0, name) == RunAlone(Lookup(topics, name), Project(requests, name))
  {
    hide UniqueNames;
    hide Lookup;
    hide Serve;
    hide ServeAlone;
    if requests != [] {
      var before, last := requests[..|requests| - 1], requests[|requests| - 1];
      TopicsAreIndependent(topics, before, name);
      ServeIsLocal(Run(topics, before).0, last.command, name);
      var cs := Project(before, name);
      assert Target(last.command) == Some(name) ==> (cs + [last.command])[..|cs|] == cs;
      assert cs + [] == cs;
    }
  }

  lemma {:induction false} ReplyAt(topics: seq<Topic>, requests: seq<Request>, i: nat)
    requires i < |requests|
    ensures Run(topics, requests).1[i] ==
            Reply(requests[i].conn, Serve(Run(topics, requests[..i]).0, requests[i].command).1)
  {
    hide Serve;
    var n := |requests| - 1;
    if i < n {
      ReplyAt(topics, requests[..n], i);
      assert requests[..n][..i] == requests[..i];
    }
  }

  /**
   * Every request is answered to the connection that sent it, in order, and a request that names
   * a topic is answered as if only the earlier requests for that topic had been served.
   */
  lemma RepliesAreIndependent(topics: seq<Topic>, requests: seq<Request>, i: nat)
    requires UniqueNames(topics) && i < |requests|
    ensures var reply, command := Run(topics, requests).1[i], requests[i].command;
            && reply.conn == requests[i].conn
            && (Target(command).Some? ==>
                  var name := Target(command).value;
                  reply.response ==
                  ServeAlone(RunAlone(Lookup(topics, name), Project(requests[..i], name)), command).1)
  {
    hide UniqueNames;
    hide Lookup;
    hide Serve;
    hide ServeAlone;
    hide RunAlone;
    hide Run;
    ReplyAt(topics, requests, i);
    var command := requests[i].command;
    var name := if Target(command).Some? then Target(command).value else "";
    TopicsAreIndependent(topics, requests[..i], name);
    ServeIsLocal(Run(topics, requests[..i]).0, command, name);
  }

  // ---- what holds of every topic on every run ----

  /** The records a topic of some name holds: none without a topic, and what was accepted since its creation. */
  ghost function Holds(commands: seq<Command>): Option<seq<Record>> {
    if commands == [] then
      None
    else
      var before, c := Holds(commands[..|commands| - 1]), commands[|commands| - 1];
      match c
      case CreateTopic(_) => if before.Some? then before else Some([])
      case DeleteTopic(_) => None
      case ProduceTo(_, msgs) =>
        if before.Some? then Some(before.value + msgs[..Fitting(msgs, MAX_SEGMENT_SIZE)]) else None
      case _ => before
  }

  /** No log of this name ever held more records than a log takes, over all the lives of the topic. */
  ghost predicate NeverFull(commands: seq<Command>) {
    && (Holds(commands).Some? ==> |Holds(commands).value| < TWO_16)
    && (commands != [] ==> NeverFull(commands[..|commands| - 1]))
  }

  /** A view of a topic that is ready for more, or of no topic. */
  ghost predicate ViewHolds(view: Option<Topic>, records: Option<seq<Record>>) {
    && (view.Some? <==> records.Some?)
    && (view.Some? ==>
          && TopicInv(view.value, records.value)
          && view.value.maxSegmentSize == view.value.log.maxSize == MAX_SEGMENT_SIZE
          && view.value.maxTopicSize == view.value.log.retention == MAX_TOPIC_SIZE)
  }

  lemma {:induction false} AloneHolds(commands: seq<Command>)
    requires forall i :: 0 <= i < |commands| ==> Target(commands[i]).Some?
    requires NeverFull(commands)
    ensures ViewHolds(RunAlone(None, commands), Holds(commands))
  {
    hide TopicInv;
    hide Produce;
    hide Consume;
    hide NewTopic;
    if commands != [] {
      var before, c := commands[..|commands| - 1], commands[|commands| - 1];
      AloneHolds(before);
      var view := RunAlone(None, before);
      NewTopicReady(if c.CreateTopic? then c.name else "");
      if view.Some? {
        var hist := Holds(before).value;
        match c
        case ProduceTo(_, msgs) =>
          TopicStepHolds(view.value, hist, ProduceOp(msgs));
        case ConsumeFrom(_, g, timeoutMillis, clock) =>
          TopicStepHolds(view.value, hist, ConsumeOp(g, timeoutMillis, clock));
          assert hist + [] == hist;
        case _ =>
      }
    }
  }

  lemma NewTopicReady(name: string)
    ensures var t := NewTopic(name, MAX_SEGMENT_SIZE, MAX_TOPIC_SIZE);
            && TopicInv(t, [])
            && t.maxSegmentSize == t.log.maxSize == MAX_SEGMENT_SIZE
            && t.maxTopicSize == t.log.retention == MAX_TOPIC_SIZE
  {
    NewTopicHolds(name, MAX_SEGMENT_SIZE, MAX_TOPIC_SIZE);
  }

  /**
   * In every run of the broker from no topics, and for every name none of whose logs ever got more
   * records than a log takes: there is a topic of that name exactly when it was created and not
   * deleted since, and its log holds exactly the records accepted since then, ready to be appended to.
   */
  lemma EveryTopicHolds(requests: seq<Request>, name: string)
    requires NeverFull(Project(requests, name))
    ensures UniqueNames(Run([], requests).0)
    ensures ViewHolds(Lookup(Run([], requests).0, name), Holds(Project(requests, name)))
  {
    hide ViewHolds;
    hide Run;
    hide Holds;
    hide RunAlone;
    TopicsAreIndependent([], requests, name);
    AloneHolds(Project(requests, name));
  }

  /**
   * The answer to a produce request, on any run: with k >= 1 messages that all fit, the offset of
   * the last of them, which is the number of records held before plus k - 1; an error when one
   * does not fit; and a refusal when there is no such topic.
   */
  lemma ProduceReply(requests: seq<Request>, i: nat)
    requires i < |requests| && requests[i].command.ProduceTo?
    requires NeverFull(Project(requests[..i + 1], requests[i].command.name))
    ensures var name, msgs := requests[i].command.name, requests[i].command.msgs;
            var before := Holds(Project(requests[..i], name));
            var response := Run([], requests).1[i].response;
            && (before.None? ==> response == ProduceResponse(name, 0, false))
            && (before.Some? && Fitting(msgs, MAX_SEGMENT_SIZE) < |msgs| ==>
                  response == InvalidResponse(ProduceFailed))
            && (before.Some? && Fitting(msgs, MAX_SEGMENT_SIZE) == |msgs| ==>
                  response.ProduceResponse? && response.ok && response.name == name
                  && response.lastOffset == if msgs == [] then 0 else |before.value| + |msgs| - 1)
  {
    hide LogReady;
    hide Run;
    hide Holds;
    hide RunAlone;
    hide ProduceFrom;
    var name, msgs := requests[i].command.name, requests[i].command.msgs;
    var earlier := Project(requests[..i], name);
    RepliesAreIndependent([], requests, i);
    FullAfter(requests, i);
    AloneHolds(earlier);
    if Holds(earlier).Some? {
      ProduceAppends(RunAlone(None, earlier).value.log, Holds(earlier).value, msgs, 0);
    }
  }

  /** What never being full says of the command at `i`. */
  lemma FullAfter(requests: seq<Request>, i: nat)
    requires i < |requests| && Target(requests[i].command).Some?
    requires NeverFull(Project(requests[..i + 1], Target(requests[i].command).value))
    ensures var c, name := requests[i].command, Target(requests[i].command).value;
            var earlier := Project(requests[..i], name);
            && NeverFull(earlier)
            && (c.ProduceTo? && Holds(earlier).Some? ==>
                  |Holds(earlier).value| + Fitting(c.msgs, MAX_SEGMENT_SIZE) < TWO_16)
  {
    hide Fitting;
    var c, name := requests[i].command, Target(requests[i].command).value;
    var earlier := Project(requests[..i], name);
    assert requests[..i + 1][..i] == requests[..i];
    assert (earlier + [c])[..|earlier|] == earlier;
    assert Project(requests[..i + 1], name) == earlier + [c];
  }

  // ---- delivery through the broker ----

  /** What was done to the topic since it was last created; nothing when there is no topic. */
  function Operations(commands: seq<Command>): Option<seq<TopicOp>> {
    if commands == [] then
      None
    else
      var before, c := Operations(commands[..|commands| - 1]), commands[|commands| - 1];
      match c
      case CreateTopic(_) => if before.Some? then before else Some([])
      case DeleteTopic(_) => None
      case ProduceTo(_, msgs) =>
        if before.Some? then Some(before.value + [ProduceOp(msgs)]) else None
      case ConsumeFrom(_, group, timeoutMillis, clock) =>
        if before.Some? then Some(before.value + [ConsumeOp(group, timeoutMillis, clock)]) else None
      case _ => before
  }

  /** Since its creation, a topic of the broker has been run as a topic on its own. */
  lemma {:induction false} AloneIsTopicRun(commands: seq<Command>, name: string)
    requires forall i :: 0 <= i < |commands| ==> Target(commands[i]) == Some(name)
    ensures var ops := Operations(commands);
            && (ops.None? ==> RunAlone(None, commands) == None && Holds(commands) == None)
            && (ops.Some? ==>
                  && RunAlone(None, commands) ==
                     Some(RunTopic(NewTopic(name, MAX_SEGMENT_SIZE, MAX_TOPIC_SIZE), ops.value))
                  && Holds(commands) == Some(History(ops.value, MAX_SEGMENT_SIZE)))
  {
    hide Produce;
    hide Consume;
    hide NewTopic;
    if commands != [] {
      var before, c := commands[..|commands| - 1], commands[|commands| - 1];
      AloneIsTopicRun(before, name);
      var ops := Operations(before);
      if ops.Some? && Operations(commands).Some? && |Operations(commands).value| > |ops.value| {
        var op := Operations(commands).value[|ops.value|];
        assert (ops.value + [op])[..|ops.value|] == ops.value;
        assert History(ops.value, MAX_SEGMENT_SIZE) + [] == History(ops.value, MAX_SEGMENT_SIZE);
      }
    }
  }

  /**
   * Delivery on every run of the broker: for every topic and every group, each offset below the
   * group's has been delivered to it exactly once and in order, with the record appended there,
   * or was lost to a failed poll, or had expired; nothing is lost or expired while the accepted
   * records fit one segment, and no offset expires that is still retained. What was delivered is
   * what the replies to the group's polls carried.
   */
  lemma GroupDelivery(requests: seq<Request>, name: string, group: string)
    requires NeverFull(Project(requests, name))
    ensures var ops := Operations(Project(requests, name));
            var view := Lookup(Run([], requests).0, name);
            && (ops.Some? <==> view.Some?)
            && (ops.Some? ==>
                  var hist := History(ops.value, MAX_SEGMENT_SIZE);
                  var l := LedgerOf(NewTopic(name, MAX_SEGMENT_SIZE, MAX_TOPIC_SIZE), ops.value, group);
                  && Holds(Project(requests, name)) == Some(hist)
                  && Accounts(l, hist, OffsetOf(view.value.groups, group))
                  && l.received == Received(requests, Run([], requests).1, name, group)
                  && (forall x :: x in l.expired ==> x < Oldest(view.value.log))
                  && (|Records.Flatten(hist)| <= MAX_SEGMENT_SIZE ==> l.lost == {} && l.expired == {}))
  {
    hide Run;
    hide RunAlone;
    hide Holds;
    hide Operations;
    hide NewTopic;
    hide Accounts;
    hide LedgerOf;
    hide RunTopic;
    hide OffsetOf;
    hide Lookup;
    hide Oldest;
    hide FindTopic;
    var commands := Project(requests, name);
    TopicsAreIndependent([], requests, name);
    NothingToFind(name);
    LedgerIsReplies(requests, name, group);
    AloneIsTopicRun(commands, name);
    if Operations(commands).Some? {
      DeliveryAccounts(name, MAX_SEGMENT_SIZE, MAX_TOPIC_SIZE, Operations(commands).value, group);
    }
  }

  /** The messages in the replies to the polls of a group, since its topic was last deleted. */
  ghost function Received(requests: seq<Request>, replies: seq<Reply>, name: string, group: string): seq<Record>
    requires |requests| == |replies|
  {
    if requests == [] then
      []
    else
      var n := |requests| - 1;
      var before := Received(requests[..n], replies[..n], name, group);
      match requests[n].command
      case DeleteTopic(t) => if t == name then [] else before
      case ConsumeFrom(t, g, _, _) =>
        if t == name && g == group && replies[n].response.ConsumeResponse? then before + replies[n].response.msgs
        else before
      case _ => before
  }

  /** What the group has received since the topic was created; nothing when there is no topic. */
  ghost function Booked(ops: Option<seq<TopicOp>>, name: string, group: string): seq<Record> {
    if ops.None? then [] else LedgerOf(NewTopic(name, MAX_SEGMENT_SIZE, MAX_TOPIC_SIZE), ops.value, group).received
  }

  /**
   * The ledger is what the broker sends: in every run, what it books as received by a group is
   * exactly the messages in the replies to the group's polls, in order, since the topic was created.
   */
  lemma {:induction false} LedgerIsReplies(requests: seq<Request>, name: string, group: string)
    ensures Received(requests, Run([], requests).1, name, group) ==
            Booked(Operations(Project(requests, name)), name, group)
  {
    hide Serve;
    hide ServeAlone;
    hide RunAlone;
    hide Operations;
    hide Booked;
    hide UniqueNames;
    hide Lookup;
    if requests == [] {
      NoOperations(name, group);
    } else {
      var n := |requests| - 1;
      var before, c := requests[..n], requests[n].command;
      LedgerIsReplies(before, name, group);
      assert Run([], requests).1[..n] == Run([], before).1;
      if Target(c) == Some(name) {
        NothingToFind(name);
        NoTopicsUnique();
        RepliesAreIndependent([], requests, n);
        LedgerGrows(Project(before, name), c, name, group);
      } else {
        assert Project(before, name) + [] == Project(before, name);
      }
    }
  }

  lemma NoOperations(name: string, group: string)
    ensures Booked(Operations([]), name, group) == []
  {
  }

  lemma NoTopicsUnique()
    ensures UniqueNames([])
  {
  }

  /** One more operation on the topic, and what its answer adds to what the group has received. */
  lemma BookedMore(ops: seq<TopicOp>, op: TopicOp, name: string, group: string)
    ensures var t := RunTopic(NewTopic(name, MAX_SEGMENT_SIZE, MAX_TOPIC_SIZE), ops);
            Booked(Some(ops + [op]), name, group) ==
            Booked(Some(ops), name, group)
            + if op.ConsumeOp? && op.group == group then
                var r := Consume(t, group, op.timeoutMillis, op.clock).1;
                if r.Success? then r.value else []
              else
                []
  {
    hide Consume;
    hide NewTopic;
    hide RunTopic;
    hide OffsetOf;
    hide Span;
    hide SpanSet;
    assert (ops + [op])[..|ops|] == ops;
    assert Booked(Some(ops), name, group) + [] == Booked(Some(ops), name, group);
  }

  /** The operation that a command about an existing topic is, if it is one. */
  function AsOperation(c: Command): seq<TopicOp> {
    match c
    case ProduceTo(_, msgs) => [ProduceOp(msgs)]
    case ConsumeFrom(_, group, timeoutMillis, clock) => [ConsumeOp(group, timeoutMillis, clock)]
    case _ => []
  }

  lemma OperationsMore(commands: seq<Command>, c: Command)
    requires Target(c).Some?
    ensures var ops := Operations(commands);
            Operations(commands + [c]) ==
            if c.DeleteTopic? then None
            else if ops.None? then (if c.CreateTopic? then Some([]) else None)
            else Some(ops.value + AsOperation(c))
  {
    assert (commands + [c])[..|commands|] == commands;
    var ops := Operations(commands);
    assert ops.Some? ==> ops.value + [] == ops.value;
  }

  /** One more command about the topic, and what its reply adds to what the group has received. */
  lemma LedgerGrows(commands: seq<Command>, c: Command, name: string, group: string)
    requires forall i :: 0 <= i < |commands| ==> Target(commands[i]) == Some(name)
    requires Target(c) == Some(name)
    ensures var response := ServeAlone(RunAlone(None, commands), c).1;
            var before := Booked(Operations(commands), name, group);
            Booked(Operations(commands + [c]), name, group) ==
            if c.DeleteTopic? then []
            else if c.ConsumeFrom? && c.group == group && response.ConsumeResponse? then before + response.msgs
            else before
  {
    hide Produce;
    hide Consume;
    hide NewTopic;
    hide RunAlone;
    hide RunTopic;
    hide Booked;
    hide Holds;
    hide Operations;
    hide History;
    var ops, before := Operations(commands), Booked(Operations(commands), name, group);
    OperationsMore(commands, c);
    AloneIsTopicRun(commands, name);
    NothingDone(name, group);
    assert before + [] == before;
    if ops.Some? {
      if c.ProduceTo? || c.ConsumeFrom? {
        BookedMore(ops.value, AsOperation(c)[0], name, group);
      } else {
        assert ops.value + [] == ops.value;
      }
    }
  }

  lemma NothingDone(name: string, group: string)
    ensures Booked(None, name, group) == [] == Booked(Some([]), name, group)
  {
  }

  lemma NothingToFind(name: string)
    ensures Lookup([], name) == None
  {
  }

  // ---- serving in whatever order the directories are listed ----

  /** What serving one command may do. */
  ghost predicate ServeMay(topics: seq<Topic>, command: Command, topics': seq<Topic>, response: Response) {
    match command
    case ProduceTo(name, msgs) =>
      var i := FindTopic(topics, name);
      if i < |topics| then
        exists t, r ::
          && ProduceMay(topics[i], msgs, t, r)
          && topics' == topics[i := t]
          && response == if r.Success? then ProduceResponse(name, r.value, true) else InvalidResponse(ProduceFailed)
      else
        (topics', response) == (topics, ProduceResponse(name, 0, false))
    case ConsumeFrom(name, group, timeoutMillis, clock) =>
      var i := FindTopic(topics, name);
      if i < |topics| then
        exists t, r ::
          && ConsumeMay(topics[i], group, timeoutMillis, clock, t, r)
          && topics' == topics[i := t]
          && response == if r.Success? then ConsumeResponse(name, true, r.value) else InvalidResponse(PollFailed)
      else
        (topics', response) == (topics, ConsumeResponse(name, false, []))
    case _ =>
      (topics', response) == Serve(topics, command)
  }

  /** What serving the requests in order may do. */
  ghost predicate RunMay(topics: seq<Topic>, requests: seq<Request>, topics': seq<Topic>, replies: seq<Reply>) {
    if requests == [] then
      (topics', replies) == (topics, [])
    else
      var last := requests[|requests| - 1];
      exists mid, before, response ::
        && RunMay(topics, requests[..|requests| - 1], mid, before)
        && ServeMay(mid, last.command, topics', response)
        && replies == before + [Reply(last.conn, response)]
  }

  lemma ProduceServes(topics: seq<Topic>, name: string, msgs: seq<Record>,
                      t: Topic, r: Result<u16, ProduceError>)
    requires FindTopic(topics, name) < |topics| && ProduceMay(topics[FindTopic(topics, name)], msgs, t, r)
    ensures ServeMay(topics, ProduceTo(name, msgs), topics[FindTopic(topics, name) := t],
                     if r.Success? then ProduceResponse(name, r.value, true) else InvalidResponse(ProduceFailed))
  {
    hide ProduceMay;
    hide FindTopic;
  }

  lemma ConsumeServes(topics: seq<Topic>, name: string, group: string, timeoutMillis: nat,
                      clock: Clock, t: Topic, r: PollResult)
    requires FindTopic(topics, name) < |topics|
    requires ConsumeMay(topics[FindTopic(topics, name)], group, timeoutMillis, clock, t, r)
    ensures ServeMay(topics, ConsumeFrom(name, group, timeoutMillis, clock), topics[FindTopic(topics, name) := t],
                     if r.Success? then ConsumeResponse(name, true, r.value) else InvalidResponse(PollFailed))
  {
    hide ConsumeMay;
    hide FindTopic;
  }

  /** One more request served. */
  lemma RunMayOneMore(topics: seq<Topic>, requests: seq<Request>, i: nat, mid: seq<Topic>,
                      replies: seq<Reply>, topics': seq<Topic>, response: Response)
    requires i < |requests| && RunMay(topics, requests[..i], mid, replies)
    requires ServeMay(mid, requests[i].command, topics', response)
    ensures RunMay(topics, requests[..i + 1], topics', replies + [Reply(requests[i].conn, response)])
  {
    hide ServeMay;
    assert requests[..i + 1][..i] == requests[..i];
    assert requests[..i + 1][i] == requests[i];
  }

  /** When the topic the command names holds its records and has room, there is only one thing to do. */
  lemma ServeMayOnly(topics: seq<Topic>, command: Command, records: Option<seq<Record>>,
                     topics': seq<Topic>, response: Response)
    requires Target(command).Some? ==> ViewHolds(Lookup(topics, Target(command).value), records)
    requires command.ProduceTo? && records.Some? ==>
               |records.value| + Fitting(command.msgs, MAX_SEGMENT_SIZE) < TWO_16
    requires ServeMay(topics, command, topics', response)
    ensures (topics', response) == Serve(topics, command)
  {
    hide LogReady;
    hide Produce;
    hide Consume;
    hide ProduceMay;
    hide ConsumeMay;
    hide Fitting;
    if Target(command).Some? {
      var i := FindTopic(topics, Target(command).value);
      if i < |topics| {
        ReadyIsInv(topics[i].log, records.value);
        match command
        case ProduceTo(name, msgs) =>
          var t, r :| && ProduceMay(topics[i], msgs, t, r) && topics' == topics[i := t]
                      && response == if r.Success? then ProduceResponse(name, r.value, true)
                                     else InvalidResponse(ProduceFailed);
          ProduceMayOnly(topics[i], records.value, msgs, t, r);
        case ConsumeFrom(name, group, timeoutMillis, clock) =>
          var t, r :| && ConsumeMay(topics[i], group, timeoutMillis, clock, t, r) && topics' == topics[i := t]
                      && response == if r.Success? then ConsumeResponse(name, true, r.value)
                                     else InvalidResponse(PollFailed);
          ConsumeMayOnly(topics[i], records.value, group, timeoutMillis, clock, t, r);
        case _ =>
      }
    }
  }

  /** No log is ever given more records than a log takes. */
  ghost predicate NoLogFull(requests: seq<Request>) {
    forall name :: NeverFull(Project(requests, name))
  }

  /**
   * From no topics, and as long as no log gets more records than it takes, the broker can answer
   * in only one way: the order in which the operating system lists the directories, which may be
   * another one at every reload, leaves no trace in any topic or reply.
   */
  lemma {:induction false} RunMayOnly(requests: seq<Request>, topics': seq<Topic>, replies: seq<Reply>)
    requires NoLogFull(requests) && RunMay([], requests, topics', replies)
    ensures (topics', replies) == Run([], requests)
  {
    hide NeverFull;
    hide Serve;
    hide ServeMay;
    hide ViewHolds;
    hide Fitting;
    hide Holds;
    if requests != [] {
      var n := |requests| - 1;
      var last := requests[n];
      var mid, before, response :| && RunMay([], requests[..n], mid, before)
                                   && ServeMay(mid, last.command, topics', response)
                                   && replies == before + [Reply(last.conn, response)];
      forall name ensures NeverFull(Project(requests[..n], name)) {
        NeverFullBefore(requests, name);
      }
      RunMayOnly(requests[..n], mid, before);
      var name := if Target(last.command).Some? then Target(last.command).value else "";
      EveryTopicHolds(requests[..n], name);
      if Target(last.command).Some? {
        assert requests[..n + 1] == requests;
        FullAfter(requests, n);
      }
      ServeMayOnly(mid, last.command, Holds(Project(requests[..n], name)), topics', response);
    }
  }

  lemma NeverFullBefore(requests: seq<Request>, name: string)
    requires requests != [] && NeverFull(Project(requests, name))
    ensures NeverFull(Project(requests[..|requests| - 1], name))
  {
    hide Holds;
    var earlier, c := Project(requests[..|requests| - 1], name), requests[|requests| - 1].command;
    assert (earlier + [c])[..|earlier|] == earlier;
    assert earlier + [] == earlier;
  }

  lemma ServeIsAllowed(topics: seq<Topic>, command: Command)
    ensures ServeMay(topics, command, Serve(topics, command).0, Serve(topics, command).1)
  {
    hide Produce;
    hide Consume;
    hide ProduceMay;
    hide ConsumeMay;
    if Target(command).Some? {
      var i := FindTopic(topics, Target(command).value);
      if i < |topics| {
        match command
        case ProduceTo(name, msgs) =>
          var (t, r) := Produce(topics[i], msgs);
          ProduceIsAllowed(topics[i], msgs);
          ProduceServes(topics, name, msgs, t, r);
        case ConsumeFrom(name, group, timeoutMillis, clock) =>
          var (t, r) := Consume(topics[i], group, timeoutMillis, clock);
          ConsumeIsAllowed(topics[i], group, timeoutMillis, clock);
          ConsumeServes(topics, name, group, timeoutMillis, clock, t, r);
        case _ =>
      }
    }
  }

  /**
   * From any topics, full or broken logs included, the run that the functions fix is one of those
   * that are allowed, so there always is one.
   */
  lemma {:induction false} RunIsAllowed(topics: seq<Topic>, requests: seq<Request>)
    ensures RunMay(topics, requests, Run(topics, requests).0, Run(topics, requests).1)
  {
    hide Serve;
    hide ServeMay;
    if requests != [] {
      var n := |requests| - 1;
      RunIsAllowed(topics, requests[..n]);
      ServeIsAllowed(Run(topics, requests[..n]).0, requests[n].command);
    }
  }
}
