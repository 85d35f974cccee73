/** The state jitter buffer: updates keyed by their 16-bit sequence, played
    out at a fixed 60 Hz after a playout delay measured from the arrival of
    the first update. */
module JitterBuffer {
  import opened Options
  import opened CubeCodec

  /** The update rate playout is locked to. */
  const FramesPerSecond: real := 60.0

  /** `store` stands for the sequence buffer: entries keyed by sequence number. */
  datatype JitterBuffer = JitterBuffer(
    stopped: bool,
    startTime: real,
    playoutDelay: real,
    store: map<int, StateUpdate>)

  /** A freshly constructed buffer: stopped, no start time, nothing stored. */
  function Create(playoutDelay: real): (b: JitterBuffer)
    ensures b.stopped && b.startTime == 0.0 && b.store == map[]
    ensures b.playoutDelay == playoutDelay
  {
    JitterBuffer(true, 0.0, playoutDelay, map[])
  }

  /** The first update after construction or reset starts the clock at its
      arrival time; later ones never move it. `accepted` is the sequence
      buffer's verdict on the insert: a refused insert stores nothing. */
  function AddStateUpdate(b: JitterBuffer, time: real, sequence: int, update: StateUpdate, accepted: bool)
    : (r: JitterBuffer)
    requires 0 <= sequence < 65536
    ensures !r.stopped
    ensures r.startTime == (if b.stopped then time else b.startTime)
    ensures r.playoutDelay == b.playoutDelay
    ensures accepted ==> sequence in r.store && r.store[sequence] == update
    ensures accepted ==> forall k :: k != sequence ==> (k in r.store <==> k in b.store)
    ensures accepted ==> forall k :: k != sequence && k in b.store ==> r.store[k] == b.store[k]
    ensures !accepted ==> r.store == b.store
  {
    var started := if b.stopped then b.(stopped := false, startTime := time) else b;
    if accepted then started.(store := started.store[sequence := update]) else started
  }

  /** The sequence due at `time`: whole 60 Hz frames since the playout start,
      truncated to 16 bits. */
  function DueSequence(b: JitterBuffer, time: real): (s: int)
    requires time >= b.startTime + b.playoutDelay
    ensures 0 <= s < 65536
  {
    ((time - (b.startTime + b.playoutDelay)) * FramesPerSecond).Floor % 65536
  }

  /** Running: an update has arrived since construction or reset, and the
      playout delay after the first one has passed. */
  function IsRunning(b: JitterBuffer, time: real): (running: bool)
    ensures running <==> !b.stopped && time >= b.startTime + b.playoutDelay
  {
    !b.stopped && time - (b.startTime + b.playoutDelay) >= 0.0
  }

  /** The buffer after a fetch and what the fetch delivered. */
  datatype Fetch = Fetch(buffer: JitterBuffer, update: Option<StateUpdate>)

  /** Delivers the update due at `time` and removes it; fails while stopped,
      before the playout delay has passed, or when the due update is absent. */
  function GetStateUpdate(b: JitterBuffer, time: real): (r: Fetch)
    ensures b.stopped ==> r == Fetch(b, None)
    ensures time < b.startTime + b.playoutDelay ==> r == Fetch(b, None)
    ensures r.update.Some? <==> IsRunning(b, time) && DueSequence(b, time) in b.store
    ensures r.update.Some? ==>
      r.update.value == b.store[DueSequence(b, time)]
      && r.buffer == b.(store := b.store - {DueSequence(b, time)})
    ensures r.update.None? ==> r.buffer == b
  {
    if b.stopped then Fetch(b, None)
    else
      var elapsed := time - (b.startTime + b.playoutDelay);
      if elapsed < 0.0 then Fetch(b, None)
      else
        var sequence := DueSequence(b, time);
        if sequence !in b.store then Fetch(b, None)
        else Fetch(b.(store := b.store - {sequence}), Some(b.store[sequence]))
  }

  function Reset(b: JitterBuffer): (r: JitterBuffer)
    ensures r == Create(b.playoutDelay)
  {
    b.(stopped := true, startTime := 0.0, store := map[])
  }

  /** Single consumption: right after a fetch, a second fetch at the same time fails. */
  lemma {:induction false} SingleConsumption(b: JitterBuffer, time: real)
    ensures GetStateUpdate(GetStateUpdate(b, time).buffer, time).update.None?
  {
    var f := GetStateUpdate(b, time);
    if f.update.Some? {
      assert DueSequence(f.buffer, time) == DueSequence(b, time);
    }
  }

  /** A fetch never changes whether the buffer is running, at any time. */
  lemma FetchKeepsRunning(b: JitterBuffer, time: real, later: real)
    ensures IsRunning(GetStateUpdate(b, time).buffer, later) == IsRunning(b, later)
  {
  }

  /** Playout timing: exactly k frames after the playout start, for k below
      65536, the fetch succeeds iff sequence k is stored, and then yields it. */
  lemma {:induction false} PlayoutTiming(b: JitterBuffer, k: int)
    requires !b.stopped && 0 <= k < 65536
    ensures var r := GetStateUpdate(b, b.startTime + b.playoutDelay + k as real / FramesPerSecond);
      && (r.update.Some? <==> k in b.store)
      && (r.update.Some? ==> r.update.value == b.store[k])
  {
    var time := b.startTime + b.playoutDelay + k as real / FramesPerSecond;
    assert (time - (b.startTime + b.playoutDelay)) * FramesPerSecond == k as real;
    assert DueSequence(b, time) == k;
  }

  /** Updates 0, 1, 2 arrive at 0.00, 0.02 and 0.05 with a 0.035 s playout
      delay; at time 0.05 sequence 0 is due and delivered once. */
  lemma PlayoutExample(u0: StateUpdate, u1: StateUpdate, u2: StateUpdate)
    ensures var b := AddStateUpdate(AddStateUpdate(AddStateUpdate(Create(0.035), 0.0, 0, u0, true), 0.02, 1, u1, true), 0.05, 2, u2, true);
      && b.startTime == 0.0
      && GetStateUpdate(b, 0.05).update == Some(u0)
      && GetStateUpdate(GetStateUpdate(b, 0.05).buffer, 0.05).update == None
  {
    var b := AddStateUpdate(AddStateUpdate(AddStateUpdate(Create(0.035), 0.0, 0, u0, true), 0.02, 1, u1, true), 0.05, 2, u2, true);
    assert (0.05 - (0.0 + 0.035)) * FramesPerSecond == 0.9;
    assert 0.9.Floor == 0;
    assert DueSequence(b, 0.05) == 0;
    SingleConsumption(b, 0.05);
  }
}
