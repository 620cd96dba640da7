# MQTT-SN telemetry client: a Dafny model

This project models the sequential logic of `emcute_mqttsn/main.c`, a RIOT
application built on the `emcute` MQTT-SN client. On a publication for the
command topic `telegram/data`, the delivery callback `on_pub` sets
`message_received_flag`. The poll loop in `main` then runs `pub_to_sensor_data`
and clears the flag. That function registers the topic `sensor/data` with up to
three attempts, reads the SAUL temperature sensor, formats
`{"temperature": I.FF}` and publishes it once at QoS 0. Before the loop, `main`
zeroes the subscription table, parses the gateway address, connects, takes the
first free subscription slot and subscribes to the command topic.

Files:

- `wrappers.dfy`: the `Option` type.
- `payload.dfy` (module `Payload`): C's truncating `/` and `%`, the `%d` and
  `%02d` renderings, the payload text, `snprintf` into the 64-byte buffer, and a
  parser for the payload. The parser is the independent partner the formatting
  is proved against.
- `pipeline.dfy` (module `Pipeline`): `pub_to_sensor_data` as a method with the
  registration loop. It is proved equal to the specification function
  `Pipeline`, and the stated properties are lemmas about that function. The
  library and sensor calls are inputs: an `Environment` holds the reply of every
  `emcute_reg` attempt, whether `saul_reg_find_type` finds a sensor, the result
  of `saul_reg_read` and that of `emcute_pub`. Each run returns an `Outcome` and
  the ordered list of calls made, sleeps included.
- `client.dfy` (module `Client`): class `MqttsnClient` holds the globals
  `subscriptions[16]` (an array of `Subscription`), `topics[16][64]` (an
  `array2<char>`) and `message_received_flag`. Its methods model the first-fit
  scan, the `strcpy` of the topic name, slot allocation, `on_pub`, one poll
  tick and the startup sequence of `main`.

Behaviour of the code worth knowing; the model follows the code.

- The flag is cleared after the pipeline has run (main.c:177-179), not before it.
- A pause follows every failed registration attempt, the third one included
  (main.c:84-87). A failed registration therefore costs three pauses. After a
  successful registration there is one more one-second pause (main.c:95).
- The payload keeps the sign only through the integer part. For readings between
  -0.99 and -0.01 the integer part is `0`, so -50 is published as `0.50`, the same
  text as +50 (`FormatDropsSignAboveMinusOne`, `FormatRecovers`).
- A slot is free exactly when its topic id is 0. There is no separate "in use" or
  "resolved" flag.
- `main` zeroes the table (main.c:132) before the address parse, and nothing
  touches the table until the scan at main.c:156. The "no memory" exit at
  main.c:157-160 therefore cannot happen at startup: `Startup` proves that
  slot 0 is always taken.
- `phydat_t.val` is `int16_t` in RIOT (phydat.h is not part of this model), so a
  reading is an `Int16`. For every such reading the payload is at most 24
  characters, so `snprintf` never truncates it.

## Model

| member | source | states |
|---|---|---|
| `Payload.TDiv` | emcute_mqttsn/main.c:112 | C `/` truncates toward zero: `a - b*q` lies in `[0, b)` for a non-negative dividend and in `(-b, 0]` for a negative one |
| `Payload.TRem` | emcute_mqttsn/main.c:112 | C `%`: `a == b*(a/b) + r`, `|r| < b`, and `r` has the sign of the dividend |
| `Payload.NatText` | emcute_mqttsn/main.c:112 | `%d` of a non-negative value is a non-empty string of digits with a leading `0` only for the value 0 |
| `Payload.TwoDigits` | emcute_mqttsn/main.c:112 | `%02d` of a value below 100 is exactly two digits whose value is that number |
| `Payload.Snprintf` | emcute_mqttsn/main.c:111-112 | `snprintf` keeps a prefix of the text shorter than the buffer, and the whole text when it fits |
| `Payload.NatTextValue` | emcute_mqttsn/main.c:112 | the digits of `%d` read back as the number printed |
| `Payload.IntTextParses` | emcute_mqttsn/main.c:112 | `%d` of any integer, sign included, parses back to that integer |
| `Payload.FormatParses` | emcute_mqttsn/main.c:112 | for every `m`, the payload is `{"temperature": ` W `.` FF `}`. W is `m/100` truncated toward zero and FF is `abs(m%100)` in exactly two digits |
| `Payload.FormatRecovers` | emcute_mqttsn/main.c:112 | reading the payload back gives `m` when `m <= -100` or `m >= 0`, and `-m` when `-100 < m < 0`, because the sign is lost |
| `Payload.FormatDropsSignAboveMinusOne` | emcute_mqttsn/main.c:112 | for `-100 < m < 0`, `m` and `-m` produce the same payload |
| `Payload.NatTextLength` | emcute_mqttsn/main.c:111-112 | `%d` of a value below 10^k takes at most k characters |
| `Payload.PayloadFits` | emcute_mqttsn/main.c:111-112 | every int16 reading gives a payload of at most 24 characters, so the 64-byte buffer holds it and `snprintf` does not truncate |
| `Payload.FormatExamples` | emcute_mqttsn/main.c:112 | 2307, -150, -50 and 0 format as `23.07`, `-1.50` (one leading minus), `0.50` and `0.00` |
| `Pipeline.PublishTelemetry` | emcute_mqttsn/main.c:66-119 | the function's loop and early returns give exactly the outcome and the call sequence of the specification `Pipeline` |
| `Pipeline.RetryStopsAtFirstSuccess` | emcute_mqttsn/main.c:79-88 | when attempt k is the first `EMCUTE_OK`, the calls are k failed attempts, each followed by a pause, then one `emcute_reg`. Nothing else follows, and the id of reply k is returned |
| `Pipeline.RetryExhausted` | emcute_mqttsn/main.c:79-93 | when every attempt fails, each attempt is followed by its pause and no topic id results |
| `Pipeline.RetrySucceedsIff` | emcute_mqttsn/main.c:79-93 | registration succeeds exactly when some attempt within the budget answers `EMCUTE_OK` |
| `Pipeline.RetryBounded` | emcute_mqttsn/main.c:75-88 | the loop calls `emcute_reg` at most once per attempt |
| `Pipeline.RetryOnlyRegistersAndSleeps` | emcute_mqttsn/main.c:79-88 | the registration loop makes no call except `emcute_reg` and its pauses |
| `Pipeline.AbortsBeforeSensorWhenUnregistered` | emcute_mqttsn/main.c:84-98 | if all three attempts fail, the run ends with `RegistrationFailed` after three attempts and three pauses. There is no sensor lookup, no read and no publish |
| `Pipeline.StagesInOrder` | emcute_mqttsn/main.c:95-118 | the sensor lookup happens iff registration succeeded and the read iff a sensor was found. A publish happens iff all three succeeded. Each failure outcome occurs exactly on its condition |
| `Pipeline.PublishesOnceAtQoS0` | emcute_mqttsn/main.c:110-118 | after a successful read, the only publish is the last call. It is at QoS 0, carries the formatted reading under the registered topic id, and is not retried when it fails |
| `Pipeline.RegistersAtMostThrice` | emcute_mqttsn/main.c:75-118 | a whole run calls `emcute_reg` at most three times |
| `Client.MqttsnClient.constructor` | emcute_mqttsn/main.c:36-38 | static storage: every slot zeroed, every name buffer NUL, the flag false |
| `Client.MqttsnClient.FindFreeSlot` | emcute_mqttsn/main.c:155-156 | the scan returns the least index whose topic id is 0, with every earlier id nonzero, or 16 when there is none |
| `Client.MqttsnClient.CopyName` | emcute_mqttsn/main.c:162 | `strcpy` leaves the name and a terminator in the chosen row and changes no other character |
| `Client.MqttsnClient.AllocateSlot` | emcute_mqttsn/main.c:155-163 | it fails iff every id is nonzero, and then nothing changes. Otherwise only the first free slot changes: it gets `on_pub` and points at its own row, which holds the name |
| `Client.MqttsnClient.OnPub` | emcute_mqttsn/main.c:49-63 | the flag becomes set exactly for the topic name `telegram/data` and is otherwise unchanged; the payload plays no part |
| `Client.MqttsnClient.PollTick` | emcute_mqttsn/main.c:173-182 | with the flag set, the pipeline runs once and the flag ends clear. With it clear, nothing runs. Either way the tick ends with a ten-second pause |
| `Client.MqttsnClient.DeliverThenPoll` | emcute_mqttsn/main.c:175-179 | after a delivery then a tick, the pipeline has run exactly when the flag was set or the topic was the command topic, and the flag is clear |
| `Client.MqttsnClient.Startup` | emcute_mqttsn/main.c:124-168 | startup runs parse, connect, allocate, subscribe in that order and each failure returns 1. Connect is attempted only after a parsed address. Slot allocation never fails, so the command topic always takes slot 0. Every other slot ends zeroed, and no name character changes outside the copied name and its terminator in row 0 |

## Left out

- The `emcute_run` thread, `thread_create`, `msg_init_queue` and the message queue (main.c:33-34, 41-46, 129, 135): RTOS plumbing and concurrency.
- The data race on the plain `bool message_received_flag`: only sequential interleavings are modelled, a callback step followed by a tick step. Because the flag is cleared after the pipeline, a delivery that lands while the pipeline runs is overwritten. That interleaving is not modelled.
- `ipv6_addr_from_str`, `emcute_con`, `emcute_sub`, `emcute_reg`, `emcute_pub` and the MQTT-SN wire encoding: library calls whose replies are inputs. The only effect of `emcute_sub` that is modelled is storing the assigned topic id in the slot.
- `saul_reg_find_type`, `saul_reg_read` and the rest of `phydat_t`: hardware-layer calls whose results are inputs. Only `val[0]` is used; the `scale` and `unit` fields are ignored by the code, and so by the model.
- `printf`/`puts` logging. `xtimer_sleep` becomes a `Sleep` call in the trace, not real time.
- The endless `while (1)` loop: one tick is modelled, not non-termination.
- The `emcute_sub_t` fields `next` and `arg`, which the code only zeroes (main.c:132).
