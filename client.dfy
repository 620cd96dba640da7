/**
 * The state of `main.c` that `main` and `on_pub` update in place: the
 * subscription table `subscriptions[16]`, its name buffers `topics[16][64]` and
 * the trigger flag `message_received_flag` (emcute_mqttsn/main.c:30-38), with the
 * delivery callback, one tick of the poll loop and the startup sequence of `main`.
 */
module Client {
  import opened Wrappers
  import Payload
  import Pipeline

  /** `NUMOFSUBS` */
  const NumSubs: nat := 16
  /** `TOPIC_MAXLEN` */
  const TopicMaxLen: nat := 64
  const CommandTopic: string := "telegram/data"
  /** the pause at the end of every poll tick, in seconds */
  const PollPeriod: nat := 10
  /** the status `main` returns on a startup failure */
  const StartupFailure: int := 1

  /** The delivery callback stored in a slot: none (a zeroed slot) or `on_pub`. */
  datatype Handler = NoHandler | OnPubHandler

  /** The `name` pointer of a topic: NULL, or the start of row `row` of `topics`. */
  datatype NameRef = Null | TopicBuffer(row: nat)

  datatype Topic = Topic(name: NameRef, id: Pipeline.TopicId)

  /** An `emcute_sub_t`: its callback and its topic. */
  datatype Subscription = Subscription(cb: Handler, topic: Topic)

  /** A slot as `memset(subscriptions, 0, ...)` leaves it. */
  const EmptySubscription := Subscription(NoHandler, Topic(Null, 0))

  /** The external calls of the startup sequence. */
  datatype StartupCall = ParseGatewayAddress | ConnectGateway | SubscribeSlot(slot: nat, qos: Pipeline.QoS)

  datatype StartupStage = AddressStage | ConnectStage | SlotStage | SubscribeStage

  /** Where `main` ends up: polling with the command topic in `slot`, or returning `code`. */
  datatype StartupResult = Polling(slot: nat) | Exited(code: int, stage: StartupStage)

  /** A slot owns no name buffer other than its own row. */
  predicate OwnsOnlyItsBuffer(s: Subscription, j: nat)
  {
    s.topic.name.TopicBuffer? ==> s.topic.name.row == j
  }

  class MqttsnClient {
    var subscriptions: array<Subscription>
    var topics: array2<char>
    var messageReceived: bool

    ghost predicate Valid()
      reads this, subscriptions
    {
      && subscriptions.Length == NumSubs
      && topics.Length0 == NumSubs
      && topics.Length1 == TopicMaxLen
      && forall j :: 0 <= j < NumSubs ==> OwnsOnlyItsBuffer(subscriptions[j], j)
    }

    /** Row `row` of `topics` holds `name` as a NUL-terminated string. */
    ghost predicate HoldsName(row: nat, name: string)
      reads this, topics
      requires row < topics.Length0 && |name| < topics.Length1
    {
      && (forall k :: 0 <= k < |name| ==> topics[row, k] == name[k])
      && topics[row, |name|] == '\0'
    }

    /** The static storage: every slot zeroed, every buffer NUL, the flag false. */
    constructor ()
      ensures Valid() && fresh(subscriptions) && fresh(topics)
      ensures forall j :: 0 <= j < NumSubs ==> subscriptions[j] == EmptySubscription
      ensures forall r, c :: 0 <= r < NumSubs && 0 <= c < TopicMaxLen ==> topics[r, c] == '\0'
      ensures !messageReceived
    {
      subscriptions := new Subscription[NumSubs](_ => EmptySubscription);
      topics := new char[NumSubs, TopicMaxLen]((_, _) => '\0');
      messageReceived := false;
    }

    // -------------------------------------------------------------------------
    // The subscription table

    /** The first-fit scan: the least slot whose topic id is 0, or NumSubs when there is none. */
    method FindFreeSlot() returns (i: nat)
      requires Valid()
      ensures i <= NumSubs
      ensures i < NumSubs ==> subscriptions[i].topic.id == 0
      ensures forall j :: 0 <= j < i ==> subscriptions[j].topic.id != 0
    {
      i := 0;
      while i < NumSubs && subscriptions[i].topic.id != 0
        invariant 0 <= i <= NumSubs
        invariant forall j :: 0 <= j < i ==> subscriptions[j].topic.id != 0
      {
        i := i + 1;
      }
    }

    /** `strcpy(topics[row], name)`: the characters of the name, then the terminator. */
    method CopyName(row: nat, name: string)
      requires Valid()
      requires row < NumSubs && |name| < TopicMaxLen && '\0' !in name
      modifies topics
      ensures HoldsName(row, name)
      ensures forall r, c :: 0 <= r < NumSubs && 0 <= c < TopicMaxLen && (r != row || c > |name|) ==>
        topics[r, c] == old(topics[r, c])
    {
      var k := 0;
      while k < |name|
        invariant 0 <= k <= |name|
        invariant forall c :: 0 <= c < k ==> topics[row, c] == name[c]
        invariant forall r, c :: 0 <= r < NumSubs && 0 <= c < TopicMaxLen && (r != row || c >= k) ==>
          topics[r, c] == old(topics[r, c])
      {
        topics[row, k] := name[k];
        k := k + 1;
      }
      topics[row, k] := '\0';
    }

    /**
     * Slot allocation of `main`: scan for the first free slot; when there is none,
     * nothing changes; otherwise that slot alone gets `on_pub` and a copy of the
     * name in its own buffer. Its topic id stays 0 until the subscription succeeds.
     */
    method AllocateSlot(name: string) returns (slot: Option<nat>)
      requires Valid()
      requires |name| < TopicMaxLen && '\0' !in name
      modifies subscriptions, topics
      ensures Valid()
      ensures slot.None? <==> forall j :: 0 <= j < NumSubs ==> old(subscriptions[j].topic.id) != 0
      ensures slot.None? ==> unchanged(subscriptions) && unchanged(topics)
      ensures slot.Some? ==>
        && slot.value < NumSubs
        && old(subscriptions[slot.value].topic.id) == 0
        && (forall j :: 0 <= j < slot.value ==> old(subscriptions[j].topic.id) != 0)
        && subscriptions[slot.value] == Subscription(OnPubHandler, Topic(TopicBuffer(slot.value), 0))
        && (forall j :: 0 <= j < NumSubs && j != slot.value ==> subscriptions[j] == old(subscriptions[j]))
        && HoldsName(slot.value, name)
        && (forall r, c :: 0 <= r < NumSubs && 0 <= c < TopicMaxLen && (r != slot.value || c > |name|) ==>
              topics[r, c] == old(topics[r, c]))
    {
      var i := FindFreeSlot();
      if i == NumSubs {
        return None;
      }
      var old_topic := subscriptions[i].topic;
      subscriptions[i] := Subscription(OnPubHandler, old_topic);
      CopyName(i, name);
      subscriptions[i] := subscriptions[i].(topic := old_topic.(name := TopicBuffer(i)));
      slot := Some(i);
    }

    // -------------------------------------------------------------------------
    // The trigger flag

    /** `on_pub`: set the flag exactly for a publication on the command topic; the payload plays no part. */
    method OnPub(topicName: string, topicId: Pipeline.TopicId, payload: seq<char>)
      modifies this`messageReceived
      ensures messageReceived == (old(messageReceived) || topicName == CommandTopic)
    {
      if topicName == CommandTopic {
        messageReceived := true;
      }
    }

    /**
     * One pass of the poll loop: when the flag is set, run the pipeline once and
     * then clear the flag; in every case pause for the poll period.
     */
    method PollTick(env: Pipeline.Environment) returns (outcome: Option<Pipeline.Outcome>, calls: seq<Pipeline.Call>)
      requires |env.regReplies| >= Pipeline.RetryCount
      modifies this`messageReceived
      ensures !messageReceived
      ensures old(messageReceived) ==>
        outcome == Some(Pipeline.Pipeline(env).outcome) &&
        calls == Pipeline.Pipeline(env).calls + [Pipeline.Sleep(PollPeriod)]
      ensures !old(messageReceived) ==> outcome == None && calls == [Pipeline.Sleep(PollPeriod)]
    {
      outcome, calls := None, [];
      if messageReceived {
        var run := Pipeline.PublishTelemetry(env);
        outcome, calls := Some(run.outcome), run.calls;
        messageReceived := false;
      }
      calls := calls + [Pipeline.Sleep(PollPeriod)];
    }

    /**
     * A delivery followed by a poll tick: a publication on the command topic is
     * never lost, the tick runs the pipeline exactly once and leaves the flag clear.
     */
    method DeliverThenPoll(topicName: string, topicId: Pipeline.TopicId, payload: seq<char>, env: Pipeline.Environment)
      returns (outcome: Option<Pipeline.Outcome>)
      requires |env.regReplies| >= Pipeline.RetryCount
      modifies this`messageReceived
      ensures !messageReceived
      ensures outcome.Some? <==> old(messageReceived) || topicName == CommandTopic
      ensures outcome.Some? ==> outcome.value == Pipeline.Pipeline(env).outcome
    {
      OnPub(topicName, topicId, payload);
      var calls;
      outcome, calls := PollTick(env);
    }

    // -------------------------------------------------------------------------
    // Startup

    /**
     * `main` up to the poll loop: zero the table, parse the gateway address,
     * connect, allocate a slot for the command topic and subscribe at QoS 0; each
     * failure returns 1. `addressOk`, `connectOk` and `subscribeReply` are the
     * replies of the three library calls (Some(id) for EMCUTE_OK with the topic
     * id the gateway assigned, which `emcute_sub` stores in the slot).
     * Because the table was just zeroed, the allocation always takes slot 0 and
     * never fails.
     */
    method Startup(addressOk: bool, connectOk: bool, subscribeReply: Option<Pipeline.TopicId>)
      returns (result: StartupResult, calls: seq<StartupCall>)
      requires Valid()
      modifies subscriptions, topics
      ensures Valid()
      ensures !addressOk ==> result == Exited(StartupFailure, AddressStage) && calls == [ParseGatewayAddress]
      ensures addressOk && !connectOk ==>
        result == Exited(StartupFailure, ConnectStage) && calls == [ParseGatewayAddress, ConnectGateway]
      ensures addressOk && connectOk ==>
        && calls == [ParseGatewayAddress, ConnectGateway, SubscribeSlot(0, Pipeline.QoS0)]
        && result == (if subscribeReply.Some? then Polling(0) else Exited(StartupFailure, SubscribeStage))
        && subscriptions[0] == Subscription(OnPubHandler, Topic(TopicBuffer(0),
             if subscribeReply.Some? then subscribeReply.value else 0))
        && HoldsName(0, CommandTopic)
      ensures result.Exited? ==> result.code == StartupFailure && result.stage != SlotStage
      ensures !(addressOk && connectOk) ==> subscriptions[0] == EmptySubscription
      ensures forall j :: 1 <= j < NumSubs ==> subscriptions[j] == EmptySubscription
      ensures forall r, c ::
        (0 <= r < NumSubs && 0 <= c < TopicMaxLen && (r != 0 || c > |CommandTopic| || !(addressOk && connectOk)))
        ==> topics[r, c] == old(topics[r, c])
    {
      forall j | 0 <= j < NumSubs {
        subscriptions[j] := EmptySubscription;
      }
      calls := [ParseGatewayAddress];
      if !addressOk {
        return Exited(StartupFailure, AddressStage), calls;
      }
      calls := calls + [ConnectGateway];
      if !connectOk {
        return Exited(StartupFailure, ConnectStage), calls;
      }
      assert subscriptions[0].topic.id == 0;
      var slot := AllocateSlot(CommandTopic);
      if slot.None? {
        return Exited(StartupFailure, SlotStage), calls;
      }
      var i := slot.value;
      calls := calls + [SubscribeSlot(i, Pipeline.QoS0)];
      if subscribeReply.None? {
        return Exited(StartupFailure, SubscribeStage), calls;
      }
      subscriptions[i] := subscriptions[i].(topic := subscriptions[i].topic.(id := subscribeReply.value));
      result := Polling(i);
    }
  }
}
