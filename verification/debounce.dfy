/** Cross-node debouncer of node SF_A. Once per tick it decides whether the
    outbound `Aktuator_2` command asks the peer to water pot 2: it asks when
    the peer's reported moisture is below the threshold, at most once per
    cooldown window while the moisture stays low, and is re-armed as soon as
    the reported moisture recovers. */
module Debounce {
  import opened Moisture

  /** Minimum time between two control emissions while the peer stays dry. */
  const COOLDOWN: int := 30

  /** `sent`: a control command was emitted and not yet re-armed;
      `sentAt`: the time of the most recent emission. */
  datatype Debouncer = Debouncer(sent: bool, sentAt: int)

  /** Outcome of one tick: whether a command is emitted, and the new state. */
  datatype Decision = Decision(emit: bool, next: Debouncer)

  function Step(d: Debouncer, remote: int, now: int): (r: Decision)
    ensures remote >= THRESHOLD ==> !r.emit && !r.next.sent && r.next.sentAt == d.sentAt
    ensures remote < THRESHOLD && (!d.sent || now - d.sentAt >= COOLDOWN) ==>
              r.emit && r.next == Debouncer(true, now)
    ensures remote < THRESHOLD && d.sent && now - d.sentAt < COOLDOWN ==>
              !r.emit && r.next == d
    ensures r.emit <==> remote < THRESHOLD && (!d.sent || now - d.sentAt >= COOLDOWN)
  {
    if remote < THRESHOLD then
      if !d.sent || now - d.sentAt >= COOLDOWN then Decision(true, Debouncer(true, now))
      else Decision(false, d)
    else
      Decision(false, d.(sent := false))
  }

  /** After a tick at or above the threshold, the next tick below it emits at
      once, however little time has passed. */
  lemma RecoveryRearms(d: Debouncer, high: int, t1: int, low: int, t2: int)
    requires high >= THRESHOLD && low < THRESHOLD
    ensures Step(Step(d, high, t1).next, low, t2).emit
  {
  }

  /** One tick of the peer's remote moisture as seen by this node. */
  datatype Sample = Sample(remote: int, now: int)

  /** Debouncer state after processing all of `ts` in order. */
  function Run(d: Debouncer, ts: seq<Sample>): Debouncer
    decreases |ts|
  {
    if |ts| == 0 then d
    else
      var last := ts[|ts| - 1];
      Step(Run(d, ts[..|ts| - 1]), last.remote, last.now).next
  }

  /** Whether tick `k` of `ts` emits a control command. */
  predicate Emits(d: Debouncer, ts: seq<Sample>, k: int)
    requires 0 <= k < |ts|
  {
    Step(Run(d, ts[..k]), ts[k].remote, ts[k].now).emit
  }

  lemma RunSnoc(d: Debouncer, ts: seq<Sample>, k: int)
    requires 0 <= k < |ts|
    ensures Run(d, ts[..k + 1]) == Step(Run(d, ts[..k]), ts[k].remote, ts[k].now).next
  {
    assert ts[..k + 1][..k] == ts[..k];
  }

  /** After an emission at tick i, as long as the peer stays below the
      threshold the debouncer remembers having sent, at a time no earlier than
      tick i. */
  lemma {:induction false} StaysArmedAfterEmission(d: Debouncer, ts: seq<Sample>, i: int, k: int)
    requires 0 <= i < k <= |ts|
    requires Emits(d, ts, i)
    requires forall m :: i <= m < k ==> ts[m].remote < THRESHOLD
    ensures Run(d, ts[..k]).sent && Run(d, ts[..k]).sentAt >= ts[i].now
    decreases k
  {
    RunSnoc(d, ts, k - 1);
    if k > i + 1 {
      StaysArmedAfterEmission(d, ts, i, k - 1);
    }
  }

  /** Two emissions with the peer below the threshold throughout are at least
      one cooldown apart. */
  lemma CooldownBetweenEmissions(d: Debouncer, ts: seq<Sample>, i: int, j: int)
    requires 0 <= i < j < |ts|
    requires Emits(d, ts, i) && Emits(d, ts, j)
    requires forall m :: i <= m < j ==> ts[m].remote < THRESHOLD
    ensures ts[j].now - ts[i].now >= COOLDOWN
  {
    StaysArmedAfterEmission(d, ts, i, j);
  }

  /** Trace form: while the peer stays below the threshold, no two emissions
      are closer than the cooldown. */
  lemma NoEmissionsWithinCooldown(d: Debouncer, ts: seq<Sample>)
    requires forall m :: 0 <= m < |ts| ==> ts[m].remote < THRESHOLD
    ensures forall i, j :: 0 <= i < j < |ts| && Emits(d, ts, i) && Emits(d, ts, j) ==>
              ts[j].now - ts[i].now >= COOLDOWN
  {
    forall i, j | 0 <= i < j < |ts| && Emits(d, ts, i) && Emits(d, ts, j)
      ensures ts[j].now - ts[i].now >= COOLDOWN
    {
      CooldownBetweenEmissions(d, ts, i, j);
    }
  }

  /** While the peer stays low and the debouncer starts un-armed, every tick
      within one cooldown of the first emits nothing further. */
  lemma {:induction false} FirstEmissionHolds(d: Debouncer, ts: seq<Sample>, k: int)
    requires !d.sent
    requires 0 < k <= |ts|
    requires forall m :: 0 <= m < |ts| ==> ts[m].remote < THRESHOLD
    requires forall m :: 0 <= m < |ts| ==> ts[0].now <= ts[m].now < ts[0].now + COOLDOWN
    ensures Run(d, ts[..k]) == Debouncer(true, ts[0].now)
    decreases k
  {
    RunSnoc(d, ts, k - 1);
    if k > 1 {
      FirstEmissionHolds(d, ts, k - 1);
    }
  }

  /** Peer low, ticks all inside one cooldown window from an un-armed start:
      exactly the first tick emits. */
  lemma OnlyFirstTickEmits(d: Debouncer, ts: seq<Sample>)
    requires !d.sent
    requires forall m :: 0 <= m < |ts| ==> ts[m].remote < THRESHOLD
    requires forall m :: 0 <= m < |ts| ==> ts[0].now <= ts[m].now < ts[0].now + COOLDOWN
    ensures forall k :: 0 <= k < |ts| ==> (Emits(d, ts, k) <==> k == 0)
  {
    forall k | 0 <= k < |ts|
      ensures Emits(d, ts, k) <==> k == 0
    {
      if k > 0 {
        FirstEmissionHolds(d, ts, k);
      }
    }
  }

  /** Peer low and consecutive ticks at least one cooldown apart, starting
      from a state that may emit at the first tick: every tick emits. */
  lemma {:induction false} SpacedTicksAllEmit(d: Debouncer, ts: seq<Sample>, k: int)
    requires !d.sent || (|ts| > 0 && ts[0].now - d.sentAt >= COOLDOWN)
    requires 0 <= k < |ts|
    requires forall m :: 0 <= m < |ts| ==> ts[m].remote < THRESHOLD
    requires forall m :: 0 < m < |ts| ==> ts[m].now - ts[m - 1].now >= COOLDOWN
    ensures Emits(d, ts, k)
    ensures Run(d, ts[..k + 1]) == Debouncer(true, ts[k].now)
    decreases k
  {
    RunSnoc(d, ts, k);
    if k > 0 {
      SpacedTicksAllEmit(d, ts, k - 1);
    }
  }
}
