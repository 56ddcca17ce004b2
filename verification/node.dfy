/** Node SF_A as a sequential state machine. Two kinds of step act on one
    node state: the periodic tick, which converts both readings, pulses pump
    A1 when pot 1 is dry, runs the debouncer and builds the status payload,
    and the inbound-message handler, which records the peer's pot-2 moisture
    and pulses pump A2 on command. */
module Node {
  import opened Moisture
  import opened Debounce

  datatype Option<T> = None | Some(value: T)

  /** The node's mutable state: both relays, the last moisture reported by
      the peer, and the debouncer bookkeeping. */
  datatype NodeState = NodeState(relayA1: bool, relayA2: bool, remoteH2: int, debounce: Debouncer)

  /** State at start-up; `t0` is the clock reading at start. */
  function Init(t0: int): (n: NodeState)
    ensures !n.relayA1 && !n.relayA2 && !n.debounce.sent
    ensures n.remoteH2 >= THRESHOLD
  {
    NodeState(false, false, 100, Debouncer(false, t0))
  }

  /** The status record published every tick. */
  datatype Payload = Payload(
    team: int, group: string,
    pot1: int, pot2: int,
    aktuator1: int, aktuator2: int,
    kran1: int, kran2: int)

  const TEAM: int := 1
  const GROUP: string := "SF_A"

  /** A pump pulse as the sequence of values written to its relay: on for the
      hold, then off. */
  const PULSE: seq<bool> := [true, false]

  function Bit(b: bool): (i: int)
    ensures 0 <= i <= 1 && (i == 1 <==> b)
  {
    if b then 1 else 0
  }

  /** Result of a tick: the new state, the payload published, and the writes
      made to relay A1 during the tick. */
  datatype TickResult = TickResult(node: NodeState, payload: Payload, relayA1Writes: seq<bool>)

  function Tick(n: NodeState, adc1: int, adc2: int, now: int): (r: TickResult)
    ensures r.payload.team == TEAM && r.payload.group == GROUP
    ensures r.payload.pot1 == Percent(adc1, WET_1, DRY_1)
    ensures r.payload.pot2 == Percent(adc2, WET_2, DRY_2)
    // pump A1 is commanded and pulsed exactly when pot 1 reads dry
    ensures r.payload.aktuator1 == Bit(adc1 < 1828)
    ensures r.relayA1Writes == (if adc1 < 1828 then PULSE else [])
    ensures r.payload.aktuator1 == 1 <==> r.payload.pot1 < THRESHOLD
    // the pulse is over before the payload is built: a pulse leaves relay A1
    // off, and without one the relay keeps its value
    ensures r.node.relayA1 == (n.relayA1 && 1828 <= adc1)
    ensures r.payload.kran1 == Bit(r.node.relayA1)
    ensures !n.relayA1 ==> r.payload.kran1 == 0 && !r.node.relayA1
    ensures r.payload.kran2 == Bit(n.relayA2)
    // the outbound control bit is the debouncer's decision on the peer moisture
    ensures r.payload.aktuator2 == 1 <==>
              n.remoteH2 < THRESHOLD && (!n.debounce.sent || now - n.debounce.sentAt >= COOLDOWN)
    ensures r.payload.aktuator2 == Bit(Step(n.debounce, n.remoteH2, now).emit)
    ensures r.payload.aktuator2 == 1 ==> r.node.debounce == Debouncer(true, now)
    ensures n.remoteH2 >= THRESHOLD ==> !r.node.debounce.sent && r.node.debounce.sentAt == n.debounce.sentAt
    ensures r.node.debounce == Step(n.debounce, n.remoteH2, now).next
    // nothing else changes
    ensures r.node.remoteH2 == n.remoteH2 && r.node.relayA2 == n.relayA2
  {
    var h1 := Percent(adc1, WET_1, DRY_1);
    var h2 := Percent(adc2, WET_2, DRY_2);
    Channel1DryBelow(adc1);
    var dry1 := h1 < THRESHOLD;
    var relayA1 := if dry1 then false else n.relayA1;
    var decision := Step(n.debounce, n.remoteH2, now);
    var payload := Payload(TEAM, GROUP, h1, h2, Bit(dry1), Bit(decision.emit),
                           Bit(relayA1), Bit(n.relayA2));
    TickResult(NodeState(relayA1, n.relayA2, n.remoteH2, decision.next), payload,
               if dry1 then PULSE else [])
  }

  /** An inbound message after JSON decoding: either it failed to parse, or
      it is an object with possibly absent `Kelembaban_tanah_Pot_2` and
      `Aktuator_2` fields. */
  datatype Message = ParseError | Decoded(pot2: Option<int>, aktuator2: Option<int>)

  /** Result of handling a message: the new state and the writes made to
      relay A2. */
  datatype Received = Received(node: NodeState, relayA2Writes: seq<bool>)

  function OnMessage(n: NodeState, msg: Message): (r: Received)
    ensures msg.ParseError? ==> r.node == n && r.relayA2Writes == []
    ensures msg.Decoded? && msg.pot2.Some? ==> r.node.remoteH2 == msg.pot2.value
    ensures msg.Decoded? && msg.pot2.None? ==> r.node.remoteH2 == n.remoteH2
    // an absent Aktuator_2 counts as 0: only an explicit 1 pulses pump A2
    ensures r.relayA2Writes == PULSE <==> msg.Decoded? && msg.aktuator2 == Some(1)
    ensures r.relayA2Writes != PULSE ==> r.relayA2Writes == [] && r.node.relayA2 == n.relayA2
    ensures r.relayA2Writes == PULSE ==> !r.node.relayA2
    // the debouncer and relay A1 belong to the tick alone
    ensures r.node.debounce == n.debounce && r.node.relayA1 == n.relayA1
  {
    match msg
    case ParseError => Received(n, [])
    case Decoded(pot2, aktuator2) =>
      var h2 := if pot2.Some? then pot2.value else n.remoteH2;
      var pulse := aktuator2 == Some(1);
      Received(NodeState(n.relayA1, if pulse then false else n.relayA2, h2, n.debounce),
               if pulse then PULSE else [])
  }

  /** The message the handler sees when the node's own payload comes back on
      the shared topic: JSON encoding followed by decoding is assumed to
      return both integer fields unchanged. */
  function AsMessage(p: Payload): Message
  {
    Decoded(Some(p.pot2), Some(p.aktuator2))
  }

  /** The node publishes and subscribes on the same topic, so each tick's
      payload returns to its own handler: the recorded peer moisture becomes
      the node's own pot-2 reading, and its own control bit pulses its own
      pump A2. The recorded peer moisture is therefore below the threshold
      exactly when the node's own channel-2 reading is below 2509. */
  lemma OwnEchoOverwritesRemote(n: NodeState, adc1: int, adc2: int, now: int)
    ensures var t := Tick(n, adc1, adc2, now);
            var e := OnMessage(t.node, AsMessage(t.payload));
            && e.node.remoteH2 == Percent(adc2, WET_2, DRY_2)
            && (e.node.remoteH2 < THRESHOLD <==> adc2 < 2509)
            && (e.relayA2Writes == PULSE <==> t.payload.aktuator2 == 1)
  {
    Channel2DryBelow(adc2);
  }

  /** Something that happens to the node: a tick with its two readings and
      clock value, or an inbound message. */
  datatype Event = TickEvent(adc1: int, adc2: int, now: int) | MessageEvent(msg: Message)

  function Apply(n: NodeState, e: Event): NodeState
  {
    match e
    case TickEvent(adc1, adc2, now) => Tick(n, adc1, adc2, now).node
    case MessageEvent(msg) => OnMessage(n, msg).node
  }

  /** State after a sequence of events. */
  function Exec(n: NodeState, es: seq<Event>): NodeState
    decreases |es|
  {
    if |es| == 0 then n else Apply(Exec(n, es[..|es| - 1]), es[|es| - 1])
  }

  /** Effect of the event at position k on the debouncer. */
  lemma ExecSnoc(n: NodeState, es: seq<Event>, k: int)
    requires 0 <= k < |es|
    ensures var prev := Exec(n, es[..k]);
            Exec(n, es[..k + 1]).debounce ==
              if es[k].TickEvent? then Step(prev.debounce, prev.remoteH2, es[k].now).next
              else prev.debounce
  {
    assert es[..k + 1][..k] == es[..k];
  }

  /** Both relays are off between steps. */
  predicate RelaysOff(n: NodeState)
  {
    !n.relayA1 && !n.relayA2
  }

  /** Every step leaves both relays off, so every payload published from a
      reachable state reports both valves closed. */
  lemma {:induction false} ExecKeepsRelaysOff(n: NodeState, es: seq<Event>)
    requires RelaysOff(n)
    ensures RelaysOff(Exec(n, es))
    ensures forall k :: 0 <= k < |es| && es[k].TickEvent? ==>
              var p := Tick(Exec(n, es[..k]), es[k].adc1, es[k].adc2, es[k].now).payload;
              p.kran1 == 0 && p.kran2 == 0
    decreases |es|
  {
    if |es| > 0 {
      var init := es[..|es| - 1];
      ExecKeepsRelaysOff(n, init);
      forall k | 0 <= k < |es| - 1
        ensures es[..k] == init[..k] && es[k] == init[k]
      {
      }
    }
  }

  /** The debouncer's view of an event sequence: one sample per tick, with
      the peer moisture recorded at that moment. */
  function Samples(n: NodeState, es: seq<Event>): seq<Sample>
    decreases |es|
  {
    if |es| == 0 then []
    else
      var init := es[..|es| - 1];
      var e := es[|es| - 1];
      Samples(n, init) + (if e.TickEvent? then [Sample(Exec(n, init).remoteH2, e.now)] else [])
  }

  /** Interleaved messages never disturb the debouncer: the node's debouncer
      state is that of the debouncer run alone on the samples its ticks saw,
      so the cooldown lemmas of the debouncer hold for the whole node. */
  lemma {:induction false} DebounceSeesOnlyTicks(n: NodeState, es: seq<Event>)
    ensures Exec(n, es).debounce == Run(n.debounce, Samples(n, es))
    decreases |es|
  {
    if |es| > 0 {
      var init := es[..|es| - 1];
      var e := es[|es| - 1];
      DebounceSeesOnlyTicks(n, init);
      if e.TickEvent? {
        var s := Samples(n, init);
        var s' := s + [Sample(Exec(n, init).remoteH2, e.now)];
        assert s'[..|s'| - 1] == s;
        assert Samples(n, es) == s';
        var prev := Exec(n, init);
        assert Run(n.debounce, s') == Step(Run(n.debounce, s), prev.remoteH2, e.now).next;
        assert Exec(n, es).debounce == Step(prev.debounce, prev.remoteH2, e.now).next;
      } else {
        assert Samples(n, es) == Samples(n, init) + [] == Samples(n, init);
        assert Exec(n, es) == OnMessage(Exec(n, init), e.msg).node;
      }
    }
  }

  /** The control bit published by the tick at position k of an event
      sequence is exactly the debouncer's emission for the matching sample. */
  lemma PublishedControlIsDebounced(n: NodeState, es: seq<Event>, k: int)
    requires 0 <= k < |es| && es[k].TickEvent?
    ensures var ss := Samples(n, es[..k + 1]);
            var i := |Samples(n, es[..k])|;
            && i < |ss|
            && ss[i] == Sample(Exec(n, es[..k]).remoteH2, es[k].now)
            && (Tick(Exec(n, es[..k]), es[k].adc1, es[k].adc2, es[k].now).payload.aktuator2 == 1
                <==> Emits(n.debounce, ss, i))
  {
    var pre := es[..k];
    assert es[..k + 1][..k] == pre;
    var ss := Samples(n, es[..k + 1]);
    var s := Samples(n, pre);
    assert ss == s + [Sample(Exec(n, pre).remoteH2, es[k].now)];
    assert ss[..|s|] == s;
    DebounceSeesOnlyTicks(n, pre);
  }

  /** Whether the tick at position k of an event sequence publishes a control
      command. */
  predicate PublishesControl(n: NodeState, es: seq<Event>, k: int)
    requires 0 <= k < |es|
  {
    es[k].TickEvent? &&
    Tick(Exec(n, es[..k]), es[k].adc1, es[k].adc2, es[k].now).payload.aktuator2 == 1
  }

  /** Whether every tick in positions [i, j) saw the peer below the threshold. */
  predicate PeerDryBetween(n: NodeState, es: seq<Event>, i: int, j: int)
    requires 0 <= i <= j <= |es|
  {
    forall m :: i <= m < j && es[m].TickEvent? ==> Exec(n, es[..m]).remoteH2 < THRESHOLD
  }

  lemma {:induction false} NodeStaysArmed(n: NodeState, es: seq<Event>, i: int, k: int)
    requires 0 <= i < k <= |es|
    requires PublishesControl(n, es, i)
    requires PeerDryBetween(n, es, i, k)
    ensures Exec(n, es[..k]).debounce.sent && Exec(n, es[..k]).debounce.sentAt >= es[i].now
    decreases k
  {
    var prev := Exec(n, es[..k - 1]);
    ExecSnoc(n, es, k - 1);
    if k > i + 1 {
      NodeStaysArmed(n, es, i, k - 1);
      if es[k - 1].TickEvent? {
        assert prev.remoteH2 < THRESHOLD;
      }
    }
  }

  /** Node-level cooldown, with messages interleaved freely: two published
      control commands with the peer below the threshold at every tick in
      between are at least one cooldown apart. */
  lemma NodeCooldownBetweenCommands(n: NodeState, es: seq<Event>, i: int, j: int)
    requires 0 <= i < j < |es|
    requires PublishesControl(n, es, i) && PublishesControl(n, es, j)
    requires PeerDryBetween(n, es, i, j)
    ensures es[j].now - es[i].now >= COOLDOWN
  {
    NodeStaysArmed(n, es, i, j);
  }

  lemma {:induction false} NodeStaysDisarmed(n: NodeState, es: seq<Event>, i: int, k: int)
    requires 0 <= i < k <= |es|
    requires es[i].TickEvent? && Exec(n, es[..i]).remoteH2 >= THRESHOLD
    requires forall m :: i < m < k ==> es[m].MessageEvent?
    ensures !Exec(n, es[..k]).debounce.sent
    decreases k
  {
    ExecSnoc(n, es, k - 1);
    if k > i + 1 {
      NodeStaysDisarmed(n, es, i, k - 1);
    }
  }

  /** A tick that sees the peer at or above the threshold re-arms the
      debouncer: the next tick that sees it below publishes a command at once,
      whatever messages arrive in between and however soon it comes. */
  lemma NodeRecoveryRearms(n: NodeState, es: seq<Event>, i: int, j: int)
    requires 0 <= i < j < |es|
    requires es[i].TickEvent? && es[j].TickEvent?
    requires forall m :: i < m < j ==> es[m].MessageEvent?
    requires Exec(n, es[..i]).remoteH2 >= THRESHOLD
    requires Exec(n, es[..j]).remoteH2 < THRESHOLD
    ensures PublishesControl(n, es, j)
  {
    NodeStaysDisarmed(n, es, i, j);
  }
}
