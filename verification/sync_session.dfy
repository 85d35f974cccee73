/** One synchronisation session: the sender's priority accumulators and send
    sequence, the receiver's jitter buffer and remote input, and the per-cube
    smoothing errors; with the session reset and the per-frame steps that
    schedule, pack and number outgoing updates and play incoming ones out. */
module SyncSession {
  import opened Options
  import opened CubeCodec
  import opened Priority
  import opened Packer
  import opened Clamping
  import opened Bits
  import JB = JitterBuffer

  /** The receiving port state packets are addressed to. */
  const RightPort := 1001
  /** The packet type tag of a state packet (the only packet type). */
  const StatePacketType := 0

  datatype Vector = Vector(x: real, y: real, z: real)
  datatype Quaternion = Quaternion(x: real, y: real, z: real, w: real)

  const Zero := Vector(0.0, 0.0, 0.0)
  const Identity := Quaternion(0.0, 0.0, 0.0, 1.0)

  datatype SyncState = SyncState(
    accum: seq<real>,
    sendSequence: int,
    jitter: JB.JitterBuffer,
    remoteInput: Input,
    disablePackets: bool,
    positionError: seq<Vector>,
    orientationError: seq<Quaternion>)

  /** Session reset: the jitter buffer is reset, the send sequence restarts
      at 0, and every cube's accumulator, position error and orientation
      error return to zero, zero and identity. The remote input and the
      packet switch are not touched, nor is the playout delay. */
  function Reset(cfg: Config, s: SyncState): (r: SyncState)
    requires cfg.Valid()
    ensures r.sendSequence == 0
    ensures r.jitter.stopped && r.jitter.startTime == 0.0 && r.jitter.store == map[]
    ensures r.jitter.playoutDelay == s.jitter.playoutDelay
    ensures |r.accum| == cfg.numCubes && forall i :: 0 <= i < cfg.numCubes ==> r.accum[i] == 0.0
    ensures forall i :: 0 <= i < cfg.numCubes ==> InfoList(r.accum)[i] == PriorityInfo(i, 0.0)
    ensures |r.positionError| == cfg.numCubes && forall i :: 0 <= i < cfg.numCubes ==> r.positionError[i] == Zero
    ensures |r.orientationError| == cfg.numCubes && forall i :: 0 <= i < cfg.numCubes ==> r.orientationError[i] == Identity
    ensures r.remoteInput == s.remoteInput && r.disablePackets == s.disablePackets
  {
    SyncState(
      seq(cfg.numCubes, _ => 0.0),
      0,
      JB.Reset(s.jitter),
      s.remoteInput,
      s.disablePackets,
      seq(cfg.numCubes, _ => Zero),
      seq(cfg.numCubes, _ => Identity))
  }

  /** A session straight after reset satisfies the scheduling invariant:
      one accumulator per cube, none negative. */
  predicate WellFormed(cfg: Config, s: SyncState) {
    && |s.accum| == cfg.numCubes
    && 0 <= s.sendSequence < 65536
    && forall i :: 0 <= i < |s.accum| ==> s.accum[i] >= 0.0
  }

  lemma ResetWellFormed(cfg: Config, s: SyncState)
    requires cfg.Valid()
    ensures WellFormed(cfg, Reset(cfg, s))
  {
  }

  // ---- Sending ----

  /** The cube indices of the first MaxCubesPerPacket ranked entries. */
  function Candidates(ranked: seq<PriorityInfo>): (c: seq<int>)
    requires |ranked| >= MaxCubesPerPacket
    ensures |c| == MaxCubesPerPacket
    ensures forall i :: 0 <= i < MaxCubesPerPacket ==> c[i] == ranked[i].index
  {
    seq(MaxCubesPerPacket, i requires 0 <= i < MaxCubesPerPacket => ranked[i].index)
  }

  /** The candidates marked for sending, in rank order. */
  function Selected(candidates: seq<int>, send: seq<bool>): (r: seq<int>)
    requires |send| == |candidates|
    ensures |r| == CountSent(send)
    ensures forall k :: 0 <= k < |r| ==> r[k] in candidates
  {
    if |send| == 0 then []
    else
      var tail := Selected(candidates[1..], send[1..]);
      assert forall k :: 0 <= k < |tail| ==> tail[k] in candidates by {
        forall k | 0 <= k < |tail|
          ensures tail[k] in candidates
        {
          var i :| 0 <= i < |candidates[1..]| && candidates[1..][i] == tail[k];
          assert candidates[i + 1] == tail[k];
        }
      }
      if send[0] then [candidates[0]] + tail else tail
  }

  /** A cube is selected exactly when some candidate slot holding it is marked. */
  lemma {:induction false} SelectedMembers(candidates: seq<int>, send: seq<bool>, j: int)
    requires |send| == |candidates|
    ensures j in Selected(candidates, send) <==> exists i :: 0 <= i < |send| && send[i] && candidates[i] == j
  {
    if |send| > 0 {
      SelectedMembers(candidates[1..], send[1..], j);
      if exists i :: 0 <= i < |send| && send[i] && candidates[i] == j {
        var i :| 0 <= i < |send| && send[i] && candidates[i] == j;
        if i > 0 {
          assert send[1..][i - 1] && candidates[1..][i - 1] == j;
        }
      }
      if j in Selected(candidates[1..], send[1..]) {
        var i :| 0 <= i < |send| - 1 && send[1..][i] && candidates[1..][i] == j;
        assert send[i + 1] && candidates[i + 1] == j;
      }
    }
  }

  /** Rank order: the candidate in a marked slot i is listed at position
      CountSent(send[..i]), right after the cubes of the marked slots before it. */
  lemma {:induction false} SelectedOrder(candidates: seq<int>, send: seq<bool>)
    requires |send| == |candidates|
    ensures forall i :: 0 <= i < |send| && send[i] ==>
      CountSent(send[..i]) < |Selected(candidates, send)|
      && Selected(candidates, send)[CountSent(send[..i])] == candidates[i]
  {
    if |send| > 0 {
      var r := Selected(candidates, send);
      var tail := Selected(candidates[1..], send[1..]);
      SelectedOrder(candidates[1..], send[1..]);
      forall i | 0 <= i < |send| && send[i]
        ensures CountSent(send[..i]) < |r| && r[CountSent(send[..i])] == candidates[i]
      {
        if i == 0 {
          assert send[..0] == [];
        } else {
          assert send[..i][1..] == send[1..][..i - 1];
          assert send[1..][i - 1] && candidates[1..][i - 1] == candidates[i];
          assert CountSent(send[..i]) == (if send[0] then 1 else 0) + CountSent(send[1..][..i - 1]);
        }
      }
    }
  }

  predicate Distinct(s: seq<int>) {
    forall k, l :: 0 <= k < l < |s| ==> s[k] != s[l]
  }

  /** Sub-sequences of a sequence of distinct values are distinct. */
  lemma {:induction false} SelectedDistinct(candidates: seq<int>, send: seq<bool>)
    requires |send| == |candidates|
    requires Distinct(candidates)
    ensures Distinct(Selected(candidates, send))
  {
    if |send| > 0 {
      var rest := candidates[1..];
      assert Distinct(rest) by {
        forall k, l | 0 <= k < l < |rest|
          ensures rest[k] != rest[l]
        {
          assert rest[k] == candidates[k + 1] && rest[l] == candidates[l + 1];
        }
      }
      SelectedDistinct(rest, send[1..]);
      var tail := Selected(rest, send[1..]);
      var r := Selected(candidates, send);
      if send[0] {
        assert candidates[0] !in tail;
        assert r == [candidates[0]] + tail;
        forall k, l | 0 <= k < l < |r|
          ensures r[k] != r[l]
        {
          assert r[l] == tail[l - 1];
          if k == 0 {
            assert r[k] == candidates[0];
            assert tail[l - 1] in tail;
          } else {
            assert r[k] == tail[k - 1];
          }
        }
      } else {
        assert r == tail;
      }
    }
  }

  /** Zeroes the accumulator of every cube marked for sending (SyncDemo.cpp lines 523-530). */
  function ZeroSent(accum: seq<real>, candidates: seq<int>, send: seq<bool>): (r: seq<real>)
    requires |send| == |candidates|
    requires forall i :: 0 <= i < |candidates| ==> 0 <= candidates[i] < |accum|
    ensures |r| == |accum|
    ensures forall j :: 0 <= j < |accum| ==>
      r[j] == (if j in Selected(candidates, send) then 0.0 else accum[j])
    decreases |send|
  {
    if |send| == 0 then accum
    else
      var next := if send[0] then accum[candidates[0] := 0.0] else accum;
      ZeroSent(next, candidates[1..], send[1..])
  }

  function Entries(snapshot: seq<CubeState>, indices: seq<int>): (r: seq<CubeEntry>)
    requires forall i :: 0 <= i < |indices| ==> 0 <= indices[i] < |snapshot|
    ensures |r| == |indices|
    ensures forall k :: 0 <= k < |r| ==> r[k] == CubeEntry(indices[k], snapshot[indices[k]])
  {
    seq(|indices|, k requires 0 <= k < |indices| => CubeEntry(indices[k], snapshot[indices[k]]))
  }

  lemma SelectedInRange(candidates: seq<int>, send: seq<bool>, bound: int)
    requires |send| == |candidates|
    requires forall i :: 0 <= i < |candidates| ==> 0 <= candidates[i] < bound
    ensures forall i :: 0 <= i < |Selected(candidates, send)| ==> 0 <= Selected(candidates, send)[i] < bound
  {
    var sel := Selected(candidates, send);
    forall i | 0 <= i < |sel|
      ensures 0 <= sel[i] < bound
    {
      assert sel[i] in sel;
    }
  }

  /** Marking the first candidate puts its entry, and its cost, in front. */
  lemma MarkedHeadCost(cfg: Config, snapshot: seq<CubeState>, candidates: seq<int>, send: seq<bool>)
    requires |send| == |candidates| > 0 && send[0]
    requires forall i :: 0 <= i < |candidates| ==> 0 <= candidates[i] < |snapshot|
    ensures forall i :: 0 <= i < |Selected(candidates, send)| ==> 0 <= Selected(candidates, send)[i] < |snapshot|
    ensures forall i :: 0 <= i < |Selected(candidates[1..], send[1..])| ==> 0 <= Selected(candidates[1..], send[1..])[i] < |snapshot|
    ensures CubesCost(cfg, Entries(snapshot, Selected(candidates, send)))
      == CubeCost(cfg, snapshot[candidates[0]]) + CubesCost(cfg, Entries(snapshot, Selected(candidates[1..], send[1..])))
  {
    SelectedInRange(candidates, send, |snapshot|);
    SelectedInRange(candidates[1..], send[1..], |snapshot|);
    var entries := Entries(snapshot, Selected(candidates, send));
    assert entries[0] == CubeEntry(candidates[0], snapshot[candidates[0]]);
    assert entries[1..] == Entries(snapshot, Selected(candidates[1..], send[1..]));
  }

  /** The entries of the marked cubes cost what the packer measured for them. */
  lemma {:induction false} SelectedCost(cfg: Config, snapshot: seq<CubeState>, candidates: seq<int>, send: seq<bool>)
    requires |send| == |candidates|
    requires forall i :: 0 <= i < |candidates| ==> 0 <= candidates[i] < |snapshot|
    ensures forall i :: 0 <= i < |Selected(candidates, send)| ==> 0 <= Selected(candidates, send)[i] < |snapshot|
    ensures CubesCost(cfg, Entries(snapshot, Selected(candidates, send)))
      == SelectedBits(Costs(cfg, snapshot, candidates), send)
  {
    SelectedInRange(candidates, send, |snapshot|);
    if |send| > 0 {
      SelectedCost(cfg, snapshot, candidates[1..], send[1..]);
      assert Costs(cfg, snapshot, candidates)[1..] == Costs(cfg, snapshot, candidates[1..]);
      if send[0] {
        MarkedHeadCost(cfg, snapshot, candidates, send);
      } else {
        assert Selected(candidates, send) == Selected(candidates[1..], send[1..]);
      }
    }
  }

  /** The facts every ranking of the grown table provides (RankingFacts). */
  predicate RankedPool(cfg: Config, ranked: seq<PriorityInfo>) {
    && |ranked| == cfg.numCubes >= MaxCubesPerPacket
    && forall k :: 0 <= k < |ranked| ==> 0 <= ranked[k].index < cfg.numCubes
  }

  /** The cubes the packer marks this frame, in rank order. */
  function SentCubes(cfg: Config, snapshot: seq<CubeState>, ranked: seq<PriorityInfo>): (sent: seq<int>)
    requires RankedPool(cfg, ranked) && |snapshot| == cfg.numCubes
    ensures |sent| <= MaxCubesPerPacket
    ensures forall k :: 0 <= k < |sent| ==> 0 <= sent[k] < cfg.numCubes
  {
    var candidates := Candidates(ranked);
    var sent := Selected(candidates, Greedy(Costs(cfg, snapshot, candidates), MaxCubeBytes * 8, 0));
    sent
  }

  /** The scheduling and packing of one frame (SyncDemo.cpp lines 496-559). `ranked` is
      the sort of the grown accumulators (any order among equal ones);
      `includeState` says whether the mode sends cube state at all. The
      accumulators of the marked cubes are zeroed either way. */
  method SendFrame(cfg: Config, s: SyncState, snapshot: seq<CubeState>, deltaTime: real,
                   ranked: seq<PriorityInfo>, input: Input, includeState: bool)
    returns (r: SyncState, packet: StateUpdate)
    requires cfg.Valid() && WellFormed(cfg, s) && |snapshot| == cfg.numCubes
    requires deltaTime >= 0.0
    requires IsRanking(Accumulate(s.accum, deltaTime, CalculateCubePriorities(snapshot)), ranked)
    requires RankedPool(cfg, ranked)
    ensures WellFormed(cfg, r)
    ensures packet.sequence == s.sendSequence && packet.input == input
    ensures r.sendSequence == (s.sendSequence + 1) % 65536
    ensures |packet.cubes| <= MaxCubesPerPacket
    ensures !includeState ==> packet.cubes == []
    ensures includeState ==> (packet.cubes == Entries(snapshot, SentCubes(cfg, snapshot, ranked)))
    ensures packet.cubes == [] || CubesCost(cfg, packet.cubes) < MaxCubeBytes * 8
    ensures forall k, l :: 0 <= k < l < |packet.cubes| ==> packet.cubes[k].index != packet.cubes[l].index
    ensures forall j :: 0 <= j < cfg.numCubes ==>
      r.accum[j] == (if j in SentCubes(cfg, snapshot, ranked) then 0.0
                     else Accumulate(s.accum, deltaTime, CalculateCubePriorities(snapshot))[j])
    ensures r.(accum := s.accum, sendSequence := s.sendSequence) == s
    ensures (forall i :: 0 <= i < |snapshot| ==> CubeEncodable(cfg, i, snapshot[i])) ==>
      UpdateEncodable(cfg, packet) && |EncodeStateUpdate(cfg, packet)| < 28 + MaxCubeBytes * 8
  {
    var priority := CalculateCubePriorities(snapshot);
    var grown := Accumulate(s.accum, deltaTime, priority);
    AccumulateGrows(s.accum, deltaTime, snapshot);
    RankingFacts(grown, ranked);
    var candidates := Candidates(ranked);
    var send := MeasureCubesToSend(cfg, snapshot, candidates, MaxCubeBytes);
    var sent := Selected(candidates, send);
    assert sent == SentCubes(cfg, snapshot, ranked);
    var accum := ZeroSent(grown, candidates, send);
    PacketFacts(cfg, snapshot, candidates, send);
    packet := AssemblePacket(cfg, snapshot, sent, input, s.sendSequence, includeState);
    r := s.(accum := accum, sendSequence := (s.sendSequence + 1) % 65536);
    ZeroedWellFormed(cfg, s, grown, sent, r);
  }

  /** The state packet of a frame (SyncDemo.cpp lines 534-555): the local
      input, the current send sequence and, when the mode includes state, the
      marked cubes in rank order with their snapshot states. When every
      snapshot cube can be written, so can the packet, in 28 header bits plus
      fewer than 4000 for the cubes. */
  function AssemblePacket(cfg: Config, snapshot: seq<CubeState>, sent: seq<int>, input: Input,
                          sequence: int, includeState: bool): (packet: StateUpdate)
    requires forall k :: 0 <= k < |sent| ==> 0 <= sent[k] < |snapshot|
    requires |sent| <= MaxCubesPerPacket && Distinct(sent)
    requires sent == [] || CubesCost(cfg, Entries(snapshot, sent)) < MaxCubeBytes * 8
    requires 0 <= sequence < 65536
    ensures packet.sequence == sequence && packet.input == input
    ensures |packet.cubes| <= MaxCubesPerPacket
    ensures !includeState ==> packet.cubes == []
    ensures includeState ==> packet.cubes == Entries(snapshot, sent)
    ensures packet.cubes == [] || CubesCost(cfg, packet.cubes) < MaxCubeBytes * 8
    ensures forall k, l :: 0 <= k < l < |packet.cubes| ==> packet.cubes[k].index != packet.cubes[l].index
    ensures (forall i :: 0 <= i < |snapshot| ==> CubeEncodable(cfg, i, snapshot[i])) ==>
      UpdateEncodable(cfg, packet) && |EncodeStateUpdate(cfg, packet)| < 28 + MaxCubeBytes * 8
  {
    var cubes := if includeState then Entries(snapshot, sent) else [];
    assert (forall i :: 0 <= i < |snapshot| ==> CubeEncodable(cfg, i, snapshot[i])) ==> CubesEncodable(cfg, cubes);
    StateUpdate(input, sequence, cubes)
  }

  /** The snapshot is clamped before the packet is built (SyncDemo.cpp line
      478): from a clamped snapshot with valid orientation codes, the packet
      can always be written, in fewer than 28 + 4000 bits. */
  lemma ClampedPacketEncodable(cfg: Config, raw: seq<CubeState>, sent: seq<int>, input: Input,
                               sequence: int, includeState: bool)
    requires cfg.Valid() && |raw| == cfg.numCubes
    requires forall i :: 0 <= i < |raw| ==> 0 <= raw[i].orientation < Pow2(cfg.orientationBits)
    requires forall k :: 0 <= k < |sent| ==> 0 <= sent[k] < |raw|
    requires |sent| <= MaxCubesPerPacket && Distinct(sent)
    requires sent == [] || CubesCost(cfg, Entries(ClampSnapshot(cfg, raw), sent)) < MaxCubeBytes * 8
    requires 0 <= sequence < 65536
    ensures var packet := AssemblePacket(cfg, ClampSnapshot(cfg, raw), sent, input, sequence, includeState);
      UpdateEncodable(cfg, packet) && |EncodeStateUpdate(cfg, packet)| < 28 + MaxCubeBytes * 8
  {
    ClampedSnapshotEncodable(cfg, raw);
  }

  /** Zeroing some of the grown accumulators keeps the scheduling invariant. */
  lemma ZeroedWellFormed(cfg: Config, s: SyncState, grown: seq<real>, sent: seq<int>, r: SyncState)
    requires WellFormed(cfg, s) && |grown| == cfg.numCubes
    requires forall i :: 0 <= i < |grown| ==> grown[i] >= s.accum[i]
    requires |r.accum| == cfg.numCubes && 0 <= r.sendSequence < 65536
    requires forall j :: 0 <= j < cfg.numCubes ==> r.accum[j] == (if j in sent then 0.0 else grown[j])
    ensures WellFormed(cfg, r)
  {
    forall j | 0 <= j < |r.accum|
      ensures r.accum[j] >= 0.0
    {
      if j !in sent {
        assert r.accum[j] == grown[j] >= s.accum[j];
      }
    }
  }

  lemma PacketFacts(cfg: Config, snapshot: seq<CubeState>, candidates: seq<int>, send: seq<bool>)
    requires |send| == |candidates|
    requires forall i :: 0 <= i < |candidates| ==> 0 <= candidates[i] < |snapshot|
    requires Distinct(candidates)
    requires CountSent(send) == 0 || SelectedBits(Costs(cfg, snapshot, candidates), send) < MaxCubeBytes * 8
    ensures var sent := Selected(candidates, send);
      && Distinct(sent)
      && (forall k :: 0 <= k < |sent| ==> 0 <= sent[k] < |snapshot|)
      && (sent == [] || CubesCost(cfg, Entries(snapshot, sent)) < MaxCubeBytes * 8)
  {
    SelectedDistinct(candidates, send);
    SelectedCost(cfg, snapshot, candidates, send);
  }

  /** A cube that was not sent this frame has strictly more priority than before. */
  lemma UnsentCubeGains(cfg: Config, s: SyncState, snapshot: seq<CubeState>, deltaTime: real,
                        sent: seq<int>, r: SyncState, j: int)
    requires WellFormed(cfg, s) && |snapshot| == cfg.numCubes && deltaTime > 0.0
    requires |r.accum| == cfg.numCubes && 0 <= j < cfg.numCubes && j !in sent
    requires forall i :: 0 <= i < cfg.numCubes ==>
      r.accum[i] == (if i in sent then 0.0 else Accumulate(s.accum, deltaTime, CalculateCubePriorities(snapshot))[i])
    ensures r.accum[j] > s.accum[j]
  {
    AccumulateGrows(s.accum, deltaTime, snapshot);
  }

  // ---- Receiving ----

  /** A packet as the link delivers it. `accepted` is the sequence buffer's
      verdict were the packet inserted into the jitter buffer. */
  datatype Delivery = Delivery(port: int, packetType: int, update: StateUpdate, accepted: bool)

  /** Only state packets from the right port reach the jitter buffer. */
  function Qualifies(d: Delivery): (q: bool)
    ensures q <==> d.packetType == StatePacketType && d.port == 1001
  {
    d.packetType == StatePacketType && d.port == RightPort
  }

  /** A delivery that reaches the jitter buffer and is accepted by it. */
  predicate Stores(d: Delivery) {
    Qualifies(d) && d.accepted
  }

  /** No later stored delivery of the frame carries the same sequence as delivery k. */
  predicate LastFor(deliveries: seq<Delivery>, k: int)
    requires 0 <= k < |deliveries|
  {
    forall j :: k < j < |deliveries| && Stores(deliveries[j]) ==>
      deliveries[j].update.sequence != deliveries[k].update.sequence
  }

  /** No stored delivery of the frame carries sequence q. */
  predicate Unnamed(deliveries: seq<Delivery>, q: int) {
    forall k :: 0 <= k < |deliveries| && Stores(deliveries[k]) ==> deliveries[k].update.sequence != q
  }

  /** One delivery taken off the link (SyncDemo.cpp lines 573-585): unless
      packets are disabled, a state packet from the right port goes to the
      jitter buffer, starting its clock if stopped; if the buffer accepts it,
      it is stored under its sequence. Nothing else is touched. */
  function ReceiveOne(s: SyncState, d: Delivery, time: real): (r: SyncState)
    requires 0 <= d.update.sequence < 65536
    ensures r.(jitter := s.jitter) == s
    ensures s.disablePackets || !Qualifies(d) ==> r == s
    ensures r.jitter.playoutDelay == s.jitter.playoutDelay
    ensures !s.disablePackets && Qualifies(d) ==>
      !r.jitter.stopped && r.jitter.startTime == (if s.jitter.stopped then time else s.jitter.startTime)
    ensures !s.disablePackets && Stores(d) ==>
      d.update.sequence in r.jitter.store && r.jitter.store[d.update.sequence] == d.update
    ensures forall q :: q in s.jitter.store ==> q in r.jitter.store
    ensures forall q :: q in r.jitter.store ==> q in s.jitter.store || (Stores(d) && d.update.sequence == q)
    ensures forall q :: q in s.jitter.store && !(Stores(d) && d.update.sequence == q) ==>
      r.jitter.store[q] == s.jitter.store[q]
  {
    if !s.disablePackets && Qualifies(d)
    then s.(jitter := JB.AddStateUpdate(s.jitter, time, d.update.sequence, d.update, d.accepted))
    else s
  }

  /** Drains this frame's deliveries, in arrival order, at receive time `time`
      (SyncDemo.cpp lines 567-589). An accepted qualifying delivery is stored
      unless a later one of the frame reuses its sequence; an entry no
      accepted qualifying delivery names keeps its value. */
  function ReceivePackets(s: SyncState, deliveries: seq<Delivery>, time: real): (r: SyncState)
    requires forall k :: 0 <= k < |deliveries| ==> 0 <= deliveries[k].update.sequence < 65536
    ensures r.(jitter := s.jitter) == s
    ensures s.disablePackets ==> r == s
    ensures (forall k :: 0 <= k < |deliveries| ==> !Qualifies(deliveries[k])) ==> r == s
    ensures r.jitter.playoutDelay == s.jitter.playoutDelay
    ensures !s.jitter.stopped ==> !r.jitter.stopped && r.jitter.startTime == s.jitter.startTime
    ensures !s.disablePackets && (exists k :: 0 <= k < |deliveries| && Qualifies(deliveries[k])) ==>
      !r.jitter.stopped && r.jitter.startTime == (if s.jitter.stopped then time else s.jitter.startTime)
    decreases |deliveries|
  {
    if |deliveries| == 0 then s
    else
      var d := deliveries[0];
      var next := ReceiveOne(s, d, time);
      var rest := deliveries[1..];
      assert forall k :: 0 <= k < |deliveries| - 1 ==> rest[k] == deliveries[k + 1];
      ReceivePackets(next, rest, time)
  }

  /** What the frame leaves in the store: an accepted qualifying delivery is
      stored unless a later one of the frame reuses its sequence; nothing is
      removed; an entry no accepted qualifying delivery names keeps its value;
      and every new entry comes from an accepted qualifying delivery. */
  lemma {:induction false} ReceiveStores(s: SyncState, deliveries: seq<Delivery>, time: real)
    requires forall k :: 0 <= k < |deliveries| ==> 0 <= deliveries[k].update.sequence < 65536
    ensures var r := ReceivePackets(s, deliveries, time);
      && (!s.disablePackets ==> forall k :: 0 <= k < |deliveries| && Stores(deliveries[k]) && LastFor(deliveries, k) ==>
            deliveries[k].update.sequence in r.jitter.store && r.jitter.store[deliveries[k].update.sequence] == deliveries[k].update)
      && (forall q :: q in s.jitter.store ==> q in r.jitter.store)
      && (forall q :: q in s.jitter.store && Unnamed(deliveries, q) ==> r.jitter.store[q] == s.jitter.store[q])
      && (forall q :: q in r.jitter.store ==>
            q in s.jitter.store || exists k :: 0 <= k < |deliveries| && Stores(deliveries[k]) && deliveries[k].update.sequence == q)
    decreases |deliveries|
  {
    if |deliveries| > 0 {
      var d := deliveries[0];
      var next := ReceiveOne(s, d, time);
      var rest := deliveries[1..];
      assert forall k :: 0 <= k < |rest| ==> rest[k] == deliveries[k + 1];
      assert ReceivePackets(s, deliveries, time) == ReceivePackets(next, rest, time);
      ReceiveStores(next, rest, time);
      assert forall k :: 1 <= k < |deliveries| && LastFor(deliveries, k) ==> LastFor(rest, k - 1);
      assert forall q :: Unnamed(deliveries, q) ==> Unnamed(rest, q);
      assert Stores(d) && LastFor(deliveries, 0) ==> Unnamed(rest, d.update.sequence);
    }
  }

  // ---- Playout ----

  /** What a remote cube receives from a delivered update: authority 0 while
      it is being interacted with and MaxPlayers otherwise, and it is enabled
      exactly when it is not at rest. */
  datatype ObjectControl = ObjectControl(authority: int, enabled: bool)

  function RemoteControl(cfg: Config, c: CubeState): (r: ObjectControl)
    requires cfg.Valid()
    ensures r.authority == 0 <==> c.interacting
    ensures !c.interacting ==> r.authority == cfg.maxPlayers
    ensures r.authority >= 0 && r.authority <= cfg.maxPlayers
    ensures r.enabled <==> !cfg.atRest(c)
  {
    ObjectControl(if c.interacting then 0 else cfg.maxPlayers, !cfg.atRest(c))
  }

  datatype Playout = Playout(state: SyncState, applied: Option<StateUpdate>, remoteFrames: nat)

  /** Fetches the update due now; a delivered update's input becomes the
      remote input, and the remote simulation advances one frame only while
      the jitter buffer is running (SyncDemo.cpp lines 593-610). */
  function PlayoutFrame(s: SyncState, time: real): (r: Playout)
    ensures r.applied.Some? ==> r.state.remoteInput == r.applied.value.input && r.remoteFrames == 1
    ensures r.applied.None? ==> r.state == s
    ensures r.state.(jitter := s.jitter, remoteInput := s.remoteInput) == s
    ensures r.remoteFrames == (if JB.IsRunning(s.jitter, time) then 1 else 0)
    ensures r.applied.Some? <==> JB.IsRunning(s.jitter, time) && JB.DueSequence(s.jitter, time) in s.jitter.store
    ensures r.applied.Some? ==>
      r.applied.value == s.jitter.store[JB.DueSequence(s.jitter, time)]
      && r.state.jitter == s.jitter.(store := s.jitter.store - {JB.DueSequence(s.jitter, time)})
  {
    var fetch := JB.GetStateUpdate(s.jitter, time);
    var s1 := s.(jitter := fetch.buffer);
    var s2 := if fetch.update.Some? then s1.(remoteInput := fetch.update.value.input) else s1;
    JB.FetchKeepsRunning(s.jitter, time, time);
    Playout(s2, fetch.update, if JB.IsRunning(s2.jitter, time) then 1 else 0)
  }

  /** An update is applied at most once: playing out again at the same time
      applies nothing and leaves the session as it is. */
  lemma PlayoutOnce(s: SyncState, time: real)
    ensures var first := PlayoutFrame(s, time);
      PlayoutFrame(first.state, time).applied.None?
      && PlayoutFrame(first.state, time).state == first.state
  {
    JB.SingleConsumption(s.jitter, time);
  }
}
