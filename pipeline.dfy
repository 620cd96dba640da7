/**
 * The publish pipeline `pub_to_sensor_data` (emcute_mqttsn/main.c:66-119):
 * register the topic "sensor/data" with up to three attempts, pause, find the
 * temperature sensor, read it, format the payload and publish it once at QoS 0.
 * The library and hardware calls are replaced by their replies (an Environment),
 * and every call the pipeline makes is recorded in order as a Call.
 */
module Pipeline {
  import opened Wrappers
  import Payload

  /** The `uint16_t id` of an `emcute_topic_t`. */
  type TopicId = x: int | 0 <= x < 0x1_0000

  const SensorTopic: string := "sensor/data"
  /** `retry_count` */
  const RetryCount: nat := 3
  /** `delay_between_retries`, in seconds */
  const RetryDelay: nat := 1
  /** the pause after a successful registration, in seconds */
  const SettleDelay: nat := 1

  datatype QoS = QoS0 | QoS1 | QoS2

  /** An external call made by the pipeline. */
  datatype Call =
    | Register(topic: string)
    | Sleep(seconds: nat)
    | FindSensor
    | ReadSensor
    | Publish(topic: string, id: TopicId, payload: string, qos: QoS)

  /**
   * The replies of the external calls for one run: the k-th call of `emcute_reg`
   * answers regReplies[k] (Some(id) for EMCUTE_OK with the gateway's topic id);
   * `saul_reg_find_type` finds a sensor or not; `saul_reg_read` yields the
   * reading `val[0]` or fails; `emcute_pub` succeeds or not.
   */
  datatype Environment = Environment(
    regReplies: seq<Option<TopicId>>,
    sensorFound: bool,
    reading: Option<Payload.Int16>,
    publishOk: bool)

  datatype Outcome = RegistrationFailed | NoSensor | ReadFailed | PublishFailed | Published

  datatype Registration = Registration(id: Option<TopicId>, calls: seq<Call>)

  datatype Run = Run(outcome: Outcome, calls: seq<Call>)

  // ---------------------------------------------------------------------------
  // Specification

  /** k failed registration attempts, each followed by its pause. */
  function FailedAttempts(k: nat): seq<Call>
  {
    if k == 0 then [] else FailedAttempts(k - 1) + [Register(SensorTopic), Sleep(RetryDelay)]
  }

  /** The registration loop over the replies, with `attempts` attempts left. */
  function Retry(replies: seq<Option<TopicId>>, attempts: nat): Registration
    requires attempts <= |replies|
  {
    if attempts == 0 then Registration(None, [])
    else match replies[0]
      case Some(id) => Registration(Some(id), [Register(SensorTopic)])
      case None =>
        var rest := Retry(replies[1..], attempts - 1);
        Registration(rest.id, [Register(SensorTopic), Sleep(RetryDelay)] + rest.calls)
  }

  /** What one run of `pub_to_sensor_data` does in the given environment. */
  function Pipeline(env: Environment): Run
    requires |env.regReplies| >= RetryCount
  {
    var reg := Retry(env.regReplies, RetryCount);
    match reg.id
    case None => Run(RegistrationFailed, reg.calls)
    case Some(id) =>
      var located := reg.calls + [Sleep(SettleDelay), FindSensor];
      if !env.sensorFound then Run(NoSensor, located)
      else
        var read := located + [ReadSensor];
        match env.reading
        case None => Run(ReadFailed, read)
        case Some(m) =>
          var published := read + [Publish(SensorTopic, id, Payload.Message(m), QoS0)];
          Run(if env.publishOk then Published else PublishFailed, published)
  }

  /** The number of registration calls in a call sequence. */
  function Registrations(calls: seq<Call>): nat
  {
    if calls == [] then 0 else (if calls[0].Register? then 1 else 0) + Registrations(calls[1..])
  }

  predicate Registered(env: Environment)
    requires |env.regReplies| >= RetryCount
  {
    exists j :: 0 <= j < RetryCount && env.regReplies[j].Some?
  }

  // ---------------------------------------------------------------------------
  // The code

  /** `pub_to_sensor_data`: the registration loop with its `success` flag, then the straight-line steps. */
  method PublishTelemetry(env: Environment) returns (run: Run)
    requires |env.regReplies| >= RetryCount
    ensures run == Pipeline(env)
  {
    var calls: seq<Call> := [];
    var topicId: TopicId := 0;
    var success := false;
    var i := 0;
    while i < RetryCount
      invariant 0 <= i <= RetryCount
      invariant forall j :: 0 <= j < i ==> env.regReplies[j].None?
      invariant !success && calls == FailedAttempts(i)
    {
      calls := calls + [Register(SensorTopic)];
      var reply := env.regReplies[i];
      if reply.Some? {
        topicId := reply.value;
        success := true;
        break;
      } else {
        calls := calls + [Sleep(RetryDelay)];
        i := i + 1;
      }
    }
    if !success {
      RetryExhausted(env.regReplies, RetryCount);
      return Run(RegistrationFailed, calls);
    }
    RetryStopsAtFirstSuccess(env.regReplies, RetryCount, i);
    calls := calls + [Sleep(SettleDelay), FindSensor];
    if !env.sensorFound {
      return Run(NoSensor, calls);
    }
    calls := calls + [ReadSensor];
    if env.reading.None? {
      return Run(ReadFailed, calls);
    }
    var message := Payload.Message(env.reading.value);
    calls := calls + [Publish(SensorTopic, topicId, message, QoS0)];
    if env.publishOk {
      run := Run(Published, calls);
    } else {
      run := Run(PublishFailed, calls);
    }
  }

  // ---------------------------------------------------------------------------
  // Properties of the registration loop

  /** The loop stops at the first EMCUTE_OK: the earlier attempts each failed and paused, nothing follows. */
  lemma {:induction false} RetryStopsAtFirstSuccess(replies: seq<Option<TopicId>>, attempts: nat, k: nat)
    requires k < attempts <= |replies|
    requires replies[k].Some?
    requires forall j :: 0 <= j < k ==> replies[j].None?
    ensures Retry(replies, attempts) == Registration(replies[k], FailedAttempts(k) + [Register(SensorTopic)])
    decreases k
  {
    if k > 0 {
      RetryStopsAtFirstSuccess(replies[1..], attempts - 1, k - 1);
      PrependFailedAttempt(k - 1);
    }
  }

  /** When every attempt fails, there is one pause per attempt and no topic id. */
  lemma {:induction false} RetryExhausted(replies: seq<Option<TopicId>>, attempts: nat)
    requires attempts <= |replies|
    requires forall j :: 0 <= j < attempts ==> replies[j].None?
    ensures Retry(replies, attempts) == Registration(None, FailedAttempts(attempts))
    decreases attempts
  {
    if attempts > 0 {
      RetryExhausted(replies[1..], attempts - 1);
      PrependFailedAttempt(attempts - 1);
    }
  }

  /** Registration succeeds exactly when some attempt within the budget answers EMCUTE_OK. */
  lemma {:induction false} RetrySucceedsIff(replies: seq<Option<TopicId>>, attempts: nat)
    requires attempts <= |replies|
    ensures Retry(replies, attempts).id.Some? <==> exists j :: 0 <= j < attempts && replies[j].Some?
    decreases attempts
  {
    if attempts > 0 && replies[0].None? {
      RetrySucceedsIff(replies[1..], attempts - 1);
      if exists j :: 0 <= j < attempts && replies[j].Some? {
        var j :| 0 <= j < attempts && replies[j].Some?;
        assert replies[1..][j - 1].Some?;
      }
    }
  }

  /** `emcute_reg` is called at most once per attempt. */
  lemma {:induction false} RetryBounded(replies: seq<Option<TopicId>>, attempts: nat)
    requires attempts <= |replies|
    ensures Registrations(Retry(replies, attempts).calls) <= attempts
    decreases attempts
  {
    if attempts > 0 && replies[0].None? {
      RetryBounded(replies[1..], attempts - 1);
      var rest := Retry(replies[1..], attempts - 1).calls;
      assert ([Register(SensorTopic), Sleep(RetryDelay)] + rest)[1..] == [Sleep(RetryDelay)] + rest;
      assert ([Sleep(RetryDelay)] + rest)[1..] == rest;
    }
  }

  lemma {:induction false} PrependFailedAttempt(k: nat)
    ensures FailedAttempts(k + 1) == [Register(SensorTopic), Sleep(RetryDelay)] + FailedAttempts(k)
    decreases k
  {
    if k > 0 {
      PrependFailedAttempt(k - 1);
    }
  }

  lemma {:induction false} RegistrationsAppend(a: seq<Call>, b: seq<Call>)
    ensures Registrations(a + b) == Registrations(a) + Registrations(b)
    decreases |a|
  {
    if a != [] {
      assert (a + b)[0] == a[0] && (a + b)[1..] == a[1..] + b;
      RegistrationsAppend(a[1..], b);
    } else {
      assert a + b == b;
    }
  }

  // ---------------------------------------------------------------------------
  // Properties of the pipeline

  /**
   * When all three registration attempts fail, the run ends with RegistrationFailed
   * after three attempts and three pauses, before any sensor access or publish.
   */
  lemma AbortsBeforeSensorWhenUnregistered(env: Environment)
    requires |env.regReplies| >= RetryCount
    requires !Registered(env)
    ensures Pipeline(env).outcome == RegistrationFailed
    ensures Pipeline(env).calls == FailedAttempts(RetryCount)
    ensures forall k :: 0 <= k < |Pipeline(env).calls| ==>
      Pipeline(env).calls[k] in {Register(SensorTopic), Sleep(RetryDelay)}
  {
    RetryExhausted(env.regReplies, RetryCount);
    PrependFailedAttempt(0);
    PrependFailedAttempt(1);
    PrependFailedAttempt(2);
  }

  /**
   * Each stage runs only when all earlier ones succeeded: the sensor is looked
   * up only after registration, read only when found, and the payload published
   * only after a successful read.
   */
  lemma StagesInOrder(env: Environment)
    requires |env.regReplies| >= RetryCount
    ensures FindSensor in Pipeline(env).calls <==> Registered(env)
    ensures ReadSensor in Pipeline(env).calls <==> Registered(env) && env.sensorFound
    ensures (exists k :: 0 <= k < |Pipeline(env).calls| && Pipeline(env).calls[k].Publish?) <==>
      Registered(env) && env.sensorFound && env.reading.Some?
    ensures Pipeline(env).outcome == RegistrationFailed <==> !Registered(env)
    ensures Pipeline(env).outcome == NoSensor <==> Registered(env) && !env.sensorFound
    ensures Pipeline(env).outcome == ReadFailed <==> Registered(env) && env.sensorFound && env.reading.None?
  {
    RetrySucceedsIff(env.regReplies, RetryCount);
    RetryOnlyRegistersAndSleeps(env.regReplies, RetryCount);
    var reg := Retry(env.regReplies, RetryCount);
    var run := Pipeline(env);
    if !Registered(env) {
      AbortsBeforeSensorWhenUnregistered(env);
    }
    if !(Registered(env) && env.sensorFound && env.reading.Some?) {
      forall k | 0 <= k < |run.calls| ensures !run.calls[k].Publish? {
        if k < |reg.calls| {
          assert run.calls[k] == reg.calls[k] && reg.calls[k] in reg.calls;
        }
      }
    } else {
      assert run.calls[|run.calls| - 1].Publish?;
    }
  }

  /** The registration loop makes no call other than `emcute_reg` and its pauses. */
  lemma {:induction false} RetryOnlyRegistersAndSleeps(replies: seq<Option<TopicId>>, attempts: nat)
    requires attempts <= |replies|
    ensures forall c :: c in Retry(replies, attempts).calls ==> c.Register? || c.Sleep?
    decreases attempts
  {
    if attempts > 0 && replies[0].None? {
      RetryOnlyRegistersAndSleeps(replies[1..], attempts - 1);
    }
  }

  /**
   * After a successful read there is exactly one publish: the last call, at QoS 0,
   * of the formatted reading under the topic id registration returned; a failed
   * publish is not retried.
   */
  lemma PublishesOnceAtQoS0(env: Environment, m: Payload.Int16)
    requires |env.regReplies| >= RetryCount
    requires Registered(env) && env.sensorFound && env.reading == Some(m)
    ensures var calls := Pipeline(env).calls;
      |calls| > 0 && Retry(env.regReplies, RetryCount).id.Some? &&
      calls[|calls| - 1] == Publish(SensorTopic, Retry(env.regReplies, RetryCount).id.value, Payload.Format(m), QoS0) &&
      forall k :: 0 <= k < |calls| - 1 ==> !calls[k].Publish?
    ensures Pipeline(env).outcome == (if env.publishOk then Published else PublishFailed)
  {
    RetrySucceedsIff(env.regReplies, RetryCount);
    RetryOnlyRegistersAndSleeps(env.regReplies, RetryCount);
    Payload.PayloadFits(m);
    var reg := Retry(env.regReplies, RetryCount);
    var publish := Publish(SensorTopic, reg.id.value, Payload.Format(m), QoS0);
    var prefix := reg.calls + [Sleep(SettleDelay), FindSensor, ReadSensor];
    assert Pipeline(env).calls == prefix + [publish];
    forall k | 0 <= k < |prefix| ensures !prefix[k].Publish? {
      if k < |reg.calls| {
        assert prefix[k] == reg.calls[k] && reg.calls[k] in reg.calls;
      }
    }
  }

  /** A whole run calls `emcute_reg` at most three times. */
  lemma RegistersAtMostThrice(env: Environment)
    requires |env.regReplies| >= RetryCount
    ensures Registrations(Pipeline(env).calls) <= RetryCount
  {
    var reg := Retry(env.regReplies, RetryCount);
    RetryBounded(env.regReplies, RetryCount);
    var run := Pipeline(env);
    if reg.id.Some? {
      var tail := run.calls[|reg.calls|..];
      assert run.calls == reg.calls + tail;
      RegistrationsAppend(reg.calls, tail);
      assert forall k :: 0 <= k < |tail| ==> !tail[k].Register?;
      NoRegistrations(tail);
    }
  }

  lemma {:induction false} NoRegistrations(calls: seq<Call>)
    requires forall k :: 0 <= k < |calls| ==> !calls[k].Register?
    ensures Registrations(calls) == 0
    decreases |calls|
  {
    if calls != [] {
      NoRegistrations(calls[1..]);
    }
  }
}
