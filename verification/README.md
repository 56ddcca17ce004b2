# SF_A irrigation node — verified Dafny model

This project models the decision core of `sf_a.py`, node "SF_A" of a
two-node smart-farming irrigation pair that talks to its peer "SF_B" over
one shared MQTT topic. With transport, randomness, sleeping and printing
stripped away, the node is a small sequential state machine:

- **Moisture** (`moisture.dfy`): `hitung_persen` turns a raw ADC reading
  and a wet/dry calibration pair (`NILAI_BASAH_*`, `NILAI_KERING_*`) into a
  percentage. The quotient is truncated toward zero and clamped to
  [0, 100]. Equal calibration points give 0. Python's `int()` of a true
  quotient truncates toward zero, but Dafny's `/` is Euclidean, so the model
  defines `TruncDiv` explicitly.
- **Debounce** (`debounce.dfy`): the cross-node debouncer. Each tick it
  computes the outbound `Aktuator_2` bit (`kontrol`) from the last peer
  moisture `H2_dari_B` and the state (`sudah_kirim_kontrol`,
  `waktu_kirim_kontrol`). A `Sample` sequence models a run of ticks.
- **Node** (`node.dfy`): the node state. `Tick` is the main-loop body and
  builds the status payload. `OnMessage` is the state-update part of the
  MQTT callback. An `Event` sequence interleaves ticks and messages.

A pump pulse (relay on, hold 3 s, relay off) is modelled by the writes it
makes to the relay: `PULSE == [true, false]`. The clock is an `int`
parameter `now`. The two ADC readings are parameters of `Tick`.

Two points about the program itself:

- The payload is built only after the A1 pulse ends, so `Status_Kran_1` is
  published as 0 from every reachable state (`Node.ExecKeepsRelaysOff`).
- sf_a.py hard-codes the threshold, the cooldown and both calibration pairs;
  the model keeps them as named constants (`THRESHOLD`, `COOLDOWN`, `WET_1` …).

The node publishes to the topic it subscribes to (sf_a.py:9-10), and MQTT
3.1.1 delivers a client's own publications back to it. So every payload
returns to the node's own handler: `H2_dari_B` becomes the node's own pot-2
reading, and its own `kontrol == 1` pulses its own pump A2. `AsMessage`
describes that returning message, assuming a JSON round trip keeps both
integer fields. Whether the echo happens depends on the broker, so it is
stated as a lemma, `Node.OwnEchoOverwritesRemote`.

## Model

| member | source | states |
|---|---|---|
| Moisture.TruncDiv | sf_a.py:33 | the quotient's magnitude is the floor of \|a\|/\|b\| and its sign is the product of the operands' signs, which is rounding toward zero |
| Moisture.TruncDivNegateBoth | sf_a.py:33 | negating both dividend and divisor does not change the truncated quotient |
| Moisture.Percent | sf_a.py:31-36 | the result is always in [0,100]; equal calibration points give 0 for every reading; with wet < dry, readings at or below wet give 0 and readings at or above dry give 100 |
| Moisture.PercentAtLeast | sf_a.py:33-34 | with wet < dry and 0 < k <= 100, the percentage is at least k exactly when (adc - wet) * 100 >= k * (dry - wet) |
| Moisture.PercentMonotone | sf_a.py:33-34 | with wet < dry, a larger reading never gives a smaller percentage |
| Moisture.PercentMirror | sf_a.py:33-34 | negating the reading and both calibration points leaves the percentage unchanged, which fails if Dafny's Euclidean `/` is used in place of `TruncDiv` |
| Moisture.PercentInverted | sf_a.py:33-34 | with dry < wet, the percentage is at least k exactly when (wet - adc) * 100 >= k * (wet - dry); readings at or above wet give 0 and readings at or below dry give 100 |
| Moisture.Channel1DryBelow | sf_a.py:70-75 | with calibration 1375/2885, pot 1 is below the 30 % threshold exactly for raw readings below 1828 |
| Moisture.Channel2DryBelow | sf_a.py:16-18 | with calibration 2433/2686, pot 2 is below the 30 % threshold exactly for raw readings below 2509 |
| Debounce.Step | sf_a.py:82-90 | peer at or above the threshold: no command, sent flag cleared, timestamp kept; peer below and not sent or cooldown elapsed: command, flag set, timestamp now; peer below within cooldown: no command, state kept; a command is emitted exactly in the second case |
| Debounce.RecoveryRearms | sf_a.py:83-90 | after a tick at or above the threshold, the next tick below it emits at once, at any time |
| Debounce.StaysArmedAfterEmission | sf_a.py:83-87 | after an emission, while the peer stays below the threshold, the state remembers a send at a time no earlier than that emission |
| Debounce.CooldownBetweenEmissions | sf_a.py:83-87 | two emissions with the peer below the threshold at every tick in between are at least 30 apart |
| Debounce.NoEmissionsWithinCooldown | sf_a.py:82-90 | over a run of ticks with the peer below the threshold throughout, any two emissions are at least 30 apart |
| Debounce.FirstEmissionHolds | sf_a.py:83-87 | from a state with nothing sent, peer low, ticks all within 30 of the first: after every tick the state records a single send at the first tick's time |
| Debounce.OnlyFirstTickEmits | sf_a.py:83-87 | same setting: a tick emits exactly when it is the first tick |
| Debounce.SpacedTicksAllEmit | sf_a.py:83-87 | peer low, consecutive ticks at least 30 apart, first tick eligible: every tick emits and the timestamp follows the latest tick |
| Node.Init | sf_a.py:21-25 | at start-up both relays are off, nothing has been sent and the recorded peer moisture is at or above the threshold |
| Node.Tick | sf_a.py:67-101 | the published Kelembaban_tanah_Pot_1 and Pot_2 are the converted channel-1 and channel-2 readings, each in [0,100]; Aktuator_1 is the 0/1 bit of pot 1 being below 30 %, that is of the raw reading being below 1828; relay A1 receives one pulse when that bit is 1 and no write at all otherwise; after the tick relay A1 is off if it was pulsed and keeps its value otherwise; Status_Kran_1 and Status_Kran_2 are the 0/1 bits of relay A1 after the pulse and of relay A2, so Status_Kran_1 is 0 from a state with the relay off; Aktuator_2 is the 0/1 bit of the debouncer's decision, 1 exactly when the peer is below the threshold and the debouncer is eligible, and then the send time becomes now; the peer moisture and relay A2 are unchanged |
| Node.OnMessage | sf_a.py:39-51 | a parse failure changes nothing; a message with Kelembaban_tanah_Pot_2 sets the peer moisture and one without keeps it; relay A2 is pulsed exactly when Aktuator_2 is present and equal to 1; the debouncer and relay A1 are untouched |
| Node.OwnEchoOverwritesRemote | sf_a.py:44-49 | when its own payload returns, the node records its own pot-2 reading as the peer's moisture, which is below 30 exactly when its raw channel-2 reading is below 2509, and pulses its own pump A2 exactly when it sent a control command |
| Node.ExecKeepsRelaysOff | sf_a.py:75-100 | from a state with both relays off, every sequence of ticks and messages keeps them off, and every payload published on the way has Status_Kran_1 and Status_Kran_2 equal to 0 |
| Node.DebounceSeesOnlyTicks | sf_a.py:82-90 | with messages interleaved, the node's debounce state equals the debouncer run alone on the (peer moisture, time) pairs its ticks saw |
| Node.PublishedControlIsDebounced | sf_a.py:82-98 | the Aktuator_2 bit published by a tick is the debouncer's emission for that tick's sample in the projected run |
| Node.NodeStaysArmed | sf_a.py:83-87 | after a published command, messages and low-peer ticks keep the node armed, with a send time no earlier than that command |
| Node.NodeCooldownBetweenCommands | sf_a.py:82-90 | with messages interleaved freely, two published commands with the peer below the threshold at every tick in between are at least 30 apart |
| Node.NodeStaysDisarmed | sf_a.py:89-90 | after a tick that saw the peer at or above the threshold, messages alone leave the debouncer disarmed |
| Node.NodeRecoveryRearms | sf_a.py:83-90 | after a tick that saw the peer at or above the threshold, the next tick that sees it below publishes a command, whatever messages came in between |

## Left out

- MQTT connection, subscription, publishing and the client loop (sf_a.py:54-63, 103) are foreign library calls and network I/O. A payload is a Dafny record. Its return to the node as an inbound message is modelled by `Node.AsMessage`.
- JSON encoding and decoding (sf_a.py:43, 103) are library calls. An inbound message is `ParseError` or an object with two optional integer fields. Python's dynamic typing of decoded values, such as a string or `null` moisture or a JSON array body, is out of scope.
- The random ADC simulation and client id (sf_a.py:11, 28-29) are randomness. Readings are parameters of `Tick`, which accepts any integer, not just 1300..3000.
- `time.time()` and `time.sleep` (sf_a.py:25, 48, 78, 82, 107) are clock and blocking calls. `now` and the start time are integer parameters. A pulse is modelled by the values it writes to the relay. Fractional seconds are not modelled.
- Moisture.Percent: computes the quotient exactly. Python divides as a float, which agrees with the exact quotient while \|(adc - basah) * 100\| < 2^53 and may round differently beyond that. A quotient too large for a float raises an uncaught `OverflowError`, where the model returns 100 or 0.
- Concurrency between the MQTT callback thread and the main loop (the shared globals at sf_a.py:21-25) is not modelled. The two flows are sequential steps. In the running program a pulse on A2 can overlap a tick, and `Status_Kran_2` could then be published as 1. The sequential model cannot show this.
- A payload that is not valid UTF-8 makes `msg.payload.decode()` (sf_a.py:41, outside the `try`) raise out of the handler instead of being logged and discarded. The state is left unchanged, so the model treats it as `ParseError`, but the exception escaping into the MQTT client is not modelled.
- Printing and logging (sf_a.py:41, 46, 51, 76, 88, 104-105) have no effect on state.
