/** The per-cube wire codec and the state packet of the synchronisation demo:
    which fields are written, in what order, with which bounds, and the
    at-rest flag that removes the six velocity fields from the wire. */
module CubeCodec {
  import opened Options
  import opened Bits
  import opened Fields

  /** The largest number of cubes one state packet carries. */
  const MaxCubesPerPacket := 63

  /** One cube's quantised state. `interacting` is part of the snapshot but is
      never written to the wire. */
  datatype CubeState = CubeState(
    interacting: bool,
    positionX: int, positionY: int, positionZ: int,
    orientation: int,
    linearVelocityX: int, linearVelocityY: int, linearVelocityZ: int,
    angularVelocityX: int, angularVelocityY: int, angularVelocityZ: int)

  /** The constants the codec depends on but whose values live outside this
      model: the pool size, the quantisation bounds, the width of the
      compressed orientation, the player count and the at-rest test. */
  datatype Config = Config(
    numCubes: int,
    positionBoundXY: int,
    positionBoundZ: int,
    linearVelocityBound: int,
    angularVelocityBound: int,
    orientationBits: nat,
    maxPlayers: int,
    atRest: CubeState -> bool)
  {
    /** Every candidate slot 0..62 names a cube, and every range is non-empty. */
    predicate Valid() {
      && numCubes >= MaxCubesPerPacket
      && positionBoundXY >= 1
      && positionBoundZ >= 1
      && linearVelocityBound >= 1
      && angularVelocityBound >= 1
      && maxPlayers >= 1
    }

    function IndexField(): Field { Field(0, numCubes - 1) }
    function PositionXYField(): Field { Field(-positionBoundXY, positionBoundXY - 1) }
    function PositionZField(): Field { Field(0, positionBoundZ - 1) }
    function OrientationField(): Field { Field(0, Pow2(orientationBits) - 1) }
    function LinearVelocityField(): Field { Field(-linearVelocityBound, linearVelocityBound - 1) }
    function AngularVelocityField(): Field { Field(-angularVelocityBound, angularVelocityBound - 1) }

    /** Fields always on the wire: index, position x/y/z, orientation, at-rest flag. */
    function PrefixFields(): seq<Field> {
      [IndexField(), PositionXYField(), PositionXYField(), PositionZField(), OrientationField(), Flag]
    }

    /** Fields present only when the cube is not at rest. */
    function VelocityFields(): seq<Field> {
      [LinearVelocityField(), LinearVelocityField(), LinearVelocityField(),
       AngularVelocityField(), AngularVelocityField(), AngularVelocityField()]
    }
  }

  function PrefixValues(index: int, c: CubeState, atRest: bool): seq<int> {
    [index, c.positionX, c.positionY, c.positionZ, c.orientation, BoolValue(atRest)]
  }

  function VelocityValues(c: CubeState): seq<int> {
    [c.linearVelocityX, c.linearVelocityY, c.linearVelocityZ,
     c.angularVelocityX, c.angularVelocityY, c.angularVelocityZ]
  }

  predicate PositionsInBounds(cfg: Config, c: CubeState) {
    && -cfg.positionBoundXY <= c.positionX < cfg.positionBoundXY
    && -cfg.positionBoundXY <= c.positionY < cfg.positionBoundXY
    && 0 <= c.positionZ < cfg.positionBoundZ
  }

  predicate VelocitiesInBounds(cfg: Config, c: CubeState) {
    && -cfg.linearVelocityBound <= c.linearVelocityX < cfg.linearVelocityBound
    && -cfg.linearVelocityBound <= c.linearVelocityY < cfg.linearVelocityBound
    && -cfg.linearVelocityBound <= c.linearVelocityZ < cfg.linearVelocityBound
    && -cfg.angularVelocityBound <= c.angularVelocityX < cfg.angularVelocityBound
    && -cfg.angularVelocityBound <= c.angularVelocityY < cfg.angularVelocityBound
    && -cfg.angularVelocityBound <= c.angularVelocityZ < cfg.angularVelocityBound
  }

  /** What the writer may be handed: every field it writes lies in its range
      (velocities only matter when they are written). */
  predicate CubeEncodable(cfg: Config, index: int, c: CubeState) {
    && 0 <= index < cfg.numCubes
    && PositionsInBounds(cfg, c)
    && 0 <= c.orientation < Pow2(cfg.orientationBits)
    && (!cfg.atRest(c) ==> VelocitiesInBounds(cfg, c))
  }

  lemma EncodableFieldsHold(cfg: Config, index: int, c: CubeState)
    requires CubeEncodable(cfg, index, c)
    ensures AllHold(cfg.PrefixFields(), PrefixValues(index, c, cfg.atRest(c)))
    ensures !cfg.atRest(c) ==> AllHold(cfg.VelocityFields(), VelocityValues(c))
  {
  }

  /** The writer: the prefix fields, then the velocity fields unless the cube
      is at rest. What it writes is exactly what the measuring pass reports. */
  function EncodeCube(cfg: Config, index: int, c: CubeState): (r: seq<bool>)
    requires CubeEncodable(cfg, index, c)
    ensures |r| == CubeCost(cfg, c)
  {
    EncodableFieldsHold(cfg, index, c);
    WriteFields(cfg.PrefixFields(), PrefixValues(index, c, cfg.atRest(c)))
      + (if cfg.atRest(c) then [] else WriteFields(cfg.VelocityFields(), VelocityValues(c)))
  }

  /** The cost a measuring pass reports for one cube, counted field by field:
      it is the width of the prefix table, plus the width of the velocity table
      exactly when the cube is not at rest. */
  function CubeCost(cfg: Config, c: CubeState): (bits: nat)
    ensures bits >= 1
    ensures bits == TotalWidth(cfg.PrefixFields()) + (if cfg.atRest(c) then 0 else TotalWidth(cfg.VelocityFields()))
  {
    BitsForPow2(cfg.orientationBits);
    assert Flag.Width() == 1;
    TotalWidthSix(cfg.PrefixFields());
    TotalWidthSix(cfg.VelocityFields());
    var fixedBits := cfg.IndexField().Width() + 2 * cfg.PositionXYField().Width()
      + cfg.PositionZField().Width() + cfg.orientationBits + 1;
    var velocityBits := 3 * cfg.LinearVelocityField().Width() + 3 * cfg.AngularVelocityField().Width();
    if cfg.atRest(c) then fixedBits else fixedBits + velocityBits
  }

  lemma TotalWidthSix(fs: seq<Field>)
    requires |fs| == 6
    ensures TotalWidth(fs) == fs[0].Width() + fs[1].Width() + fs[2].Width()
      + fs[3].Width() + fs[4].Width() + fs[5].Width()
  {
    var t := fs;
    assert TotalWidth(t) == t[0].Width() + TotalWidth(t[1..]);
    t := t[1..];
    assert TotalWidth(t) == t[0].Width() + TotalWidth(t[1..]);
    t := t[1..];
    assert TotalWidth(t) == t[0].Width() + TotalWidth(t[1..]);
    t := t[1..];
    assert TotalWidth(t) == t[0].Width() + TotalWidth(t[1..]);
    t := t[1..];
    assert TotalWidth(t) == t[0].Width() + TotalWidth(t[1..]);
    t := t[1..];
    assert TotalWidth(t) == t[0].Width() + TotalWidth(t[1..]);
    assert t[1..] == [];
  }

  /** One decoded cube: its pool index, its state and the at-rest flag read. */
  datatype DecodedCube = DecodedCube(index: int, state: CubeState, atRest: bool)

  function DecodeCube(cfg: Config, s: seq<bool>): (r: Option<Read<DecodedCube, bool>>)
    ensures r.Some? ==> 0 <= r.value.value.index < cfg.numCubes
    ensures r.Some? ==> PositionsInBounds(cfg, r.value.value.state)
    ensures r.Some? ==> !r.value.value.state.interacting
    ensures r.Some? && r.value.value.atRest ==> VelocityValues(r.value.value.state) == [0, 0, 0, 0, 0, 0]
    ensures r.Some? && !r.value.value.atRest ==> VelocitiesInBounds(cfg, r.value.value.state)
  {
    var p :- ReadFields(cfg.PrefixFields(), s);
    var v := p.value;
    assert cfg.PrefixFields()[0].Holds(v[0]) && cfg.PrefixFields()[1].Holds(v[1])
      && cfg.PrefixFields()[2].Holds(v[2]) && cfg.PrefixFields()[3].Holds(v[3]);
    if v[5] == 1 then
      Some(Read(DecodedCube(v[0], CubeState(false, v[1], v[2], v[3], v[4], 0, 0, 0, 0, 0, 0), true), p.rest))
    else
      var w :- ReadFields(cfg.VelocityFields(), p.rest);
      var u := w.value;
      assert forall k :: 0 <= k < 6 ==> cfg.VelocityFields()[k].Holds(u[k]);
      Some(Read(DecodedCube(v[0], CubeState(false, v[1], v[2], v[3], v[4], u[0], u[1], u[2], u[3], u[4], u[5]), false), w.rest))
  }

  /** What survives a trip through the wire: `interacting` is not sent, and an
      at-rest cube's velocities arrive as zero. */
  function WireImage(cfg: Config, c: CubeState): CubeState {
    if cfg.atRest(c) then
      c.(interacting := false,
         linearVelocityX := 0, linearVelocityY := 0, linearVelocityZ := 0,
         angularVelocityX := 0, angularVelocityY := 0, angularVelocityZ := 0)
    else
      c.(interacting := false)
  }

  lemma AppendAssoc<T>(a: seq<T>, b: seq<T>, c: seq<T>)
    ensures (a + b) + c == a + (b + c)
  {
  }

  /** Decoding what was encoded reproduces index, positions, orientation and
      the at-rest flag; the velocities come back when the cube is not at rest
      and are zero when it is; the bits after the cube are left unread. */
  lemma CubeRoundTrip(cfg: Config, index: int, c: CubeState, rest: seq<bool>)
    requires CubeEncodable(cfg, index, c)
    ensures var r := DecodeCube(cfg, EncodeCube(cfg, index, c) + rest);
      && r.Some?
      && r.value.rest == rest
      && r.value.value.index == index
      && r.value.value.atRest == cfg.atRest(c)
      && r.value.value.state.positionX == c.positionX
      && r.value.value.state.positionY == c.positionY
      && r.value.value.state.positionZ == c.positionZ
      && r.value.value.state.orientation == c.orientation
      && (!cfg.atRest(c) ==> VelocityValues(r.value.value.state) == VelocityValues(c))
      && (cfg.atRest(c) ==> VelocityValues(r.value.value.state) == [0, 0, 0, 0, 0, 0])
    ensures DecodeCube(cfg, EncodeCube(cfg, index, c) + rest)
      == Some(Read(DecodedCube(index, WireImage(cfg, c), cfg.atRest(c)), rest))
  {
    EncodableFieldsHold(cfg, index, c);
    var pv := PrefixValues(index, c, cfg.atRest(c));
    var prefix := WriteFields(cfg.PrefixFields(), pv);
    if cfg.atRest(c) {
      assert EncodeCube(cfg, index, c) == prefix + [];
      assert prefix + [] == prefix;
      ReadWriteFields(cfg.PrefixFields(), pv, rest);
    } else {
      var vv := VelocityValues(c);
      var velocities := WriteFields(cfg.VelocityFields(), vv);
      var tail := velocities + rest;
      assert EncodeCube(cfg, index, c) == prefix + velocities;
      AppendAssoc(prefix, velocities, rest);
      ReadWriteFields(cfg.PrefixFields(), pv, tail);
      ReadWriteFields(cfg.VelocityFields(), vv, rest);
    }
  }

  // ---- The state packet ----

  /** The six local input buttons carried by every state packet. */
  datatype Input = Input(left: bool, right: bool, up: bool, down: bool, push: bool, pull: bool)

  datatype CubeEntry = CubeEntry(index: int, state: CubeState)

  /** One frame's update: the sender's input, its 16-bit sequence number and
      the cubes it carries (num_cubes is |cubes|). */
  datatype StateUpdate = StateUpdate(input: Input, sequence: int, cubes: seq<CubeEntry>)

  const SequenceField := Field(0, 65535)
  const CountField := Field(0, MaxCubesPerPacket)

  /** Header order: the six input bits, then the sequence, then the cube count. */
  const HeaderFields := [Flag, Flag, Flag, Flag, Flag, Flag, SequenceField, CountField]

  function HeaderValues(m: StateUpdate): seq<int> {
    [BoolValue(m.input.left), BoolValue(m.input.right), BoolValue(m.input.up),
     BoolValue(m.input.down), BoolValue(m.input.push), BoolValue(m.input.pull),
     m.sequence, |m.cubes|]
  }

  predicate CubesEncodable(cfg: Config, cs: seq<CubeEntry>) {
    forall k :: 0 <= k < |cs| ==> CubeEncodable(cfg, cs[k].index, cs[k].state)
  }

  predicate UpdateEncodable(cfg: Config, m: StateUpdate) {
    && 0 <= m.sequence < 65536
    && |m.cubes| <= MaxCubesPerPacket
    && CubesEncodable(cfg, m.cubes)
  }

  /** The measured cost of a list of cubes. */
  function CubesCost(cfg: Config, cubes: seq<CubeEntry>): nat {
    if |cubes| == 0 then 0 else CubeCost(cfg, cubes[0].state) + CubesCost(cfg, cubes[1..])
  }

  function EncodeCubes(cfg: Config, cs: seq<CubeEntry>): (r: seq<bool>)
    requires CubesEncodable(cfg, cs)
    ensures |r| == CubesCost(cfg, cs)
  {
    if |cs| == 0 then [] else EncodeCube(cfg, cs[0].index, cs[0].state) + EncodeCubes(cfg, cs[1..])
  }

  /** Every header value lies in its field's range. */
  lemma HeaderHolds(m: StateUpdate)
    requires 0 <= m.sequence < 65536 && |m.cubes| <= MaxCubesPerPacket
    ensures AllHold(HeaderFields, HeaderValues(m))
  {
    var hv := HeaderValues(m);
    forall i | 0 <= i < |HeaderFields|
      ensures HeaderFields[i].Holds(hv[i])
    {
      if i < 6 {
        assert HeaderFields[i] == Flag && 0 <= hv[i] <= 1;
      }
    }
  }

  /** The packet writer: a 28-bit header (six input bits, 16-bit sequence,
      6-bit count), then the cubes, costing their measured bits. */
  function EncodeStateUpdate(cfg: Config, m: StateUpdate): (r: seq<bool>)
    requires UpdateEncodable(cfg, m)
    ensures |r| == 28 + CubesCost(cfg, m.cubes)
  {
    HeaderBits(m);
    WriteFields(HeaderFields, HeaderValues(m)) + EncodeCubes(cfg, m.cubes)
  }

  function DecodeCubes(cfg: Config, n: nat, s: seq<bool>): (r: Option<Read<seq<CubeEntry>, bool>>)
    ensures r.Some? ==> |r.value.value| == n
  {
    if n == 0 then Some(Read([], s))
    else
      var d :- DecodeCube(cfg, s);
      var ds :- DecodeCubes(cfg, n - 1, d.rest);
      Some(Read([CubeEntry(d.value.index, d.value.state)] + ds.value, ds.rest))
  }

  function DecodeStateUpdate(cfg: Config, s: seq<bool>): (r: Option<Read<StateUpdate, bool>>)
    ensures r.Some? ==> 0 <= r.value.value.sequence < 65536
    ensures r.Some? ==> |r.value.value.cubes| <= MaxCubesPerPacket
  {
    var h :- ReadFields(HeaderFields, s);
    var v := h.value;
    assert HeaderFields[6].Holds(v[6]) && HeaderFields[7].Holds(v[7]);
    var cs :- DecodeCubes(cfg, v[7], h.rest);
    Some(Read(StateUpdate(Input(v[0] == 1, v[1] == 1, v[2] == 1, v[3] == 1, v[4] == 1, v[5] == 1), v[6], cs.value), cs.rest))
  }

  function WireEntries(cfg: Config, cs: seq<CubeEntry>): (r: seq<CubeEntry>)
    ensures |r| == |cs|
  {
    if |cs| == 0 then [] else [CubeEntry(cs[0].index, WireImage(cfg, cs[0].state))] + WireEntries(cfg, cs[1..])
  }

  lemma DecodeCubesStep(cfg: Config, n: nat, s: seq<bool>, d: DecodedCube, after: seq<bool>,
                        ds: seq<CubeEntry>, rest: seq<bool>)
    requires n > 0
    requires DecodeCube(cfg, s) == Some(Read(d, after))
    requires DecodeCubes(cfg, n - 1, after) == Some(Read(ds, rest))
    ensures DecodeCubes(cfg, n, s) == Some(Read([CubeEntry(d.index, d.state)] + ds, rest))
  {
  }

  lemma CubeDecodes(cfg: Config, index: int, c: CubeState, rest: seq<bool>)
    requires CubeEncodable(cfg, index, c)
    ensures DecodeCube(cfg, EncodeCube(cfg, index, c) + rest)
      == Some(Read(DecodedCube(index, WireImage(cfg, c), cfg.atRest(c)), rest))
  {
    CubeRoundTrip(cfg, index, c, rest);
  }

  /** One encoded cube in front of a decodable run decodes first, then the run. */
  lemma DecodeCubeThen(cfg: Config, e: CubeEntry, n: nat, after: seq<bool>, ds: seq<CubeEntry>, rest: seq<bool>)
    requires CubeEncodable(cfg, e.index, e.state)
    requires DecodeCubes(cfg, n, after) == Some(Read(ds, rest))
    ensures DecodeCubes(cfg, n + 1, EncodeCube(cfg, e.index, e.state) + after)
      == Some(Read([CubeEntry(e.index, WireImage(cfg, e.state))] + ds, rest))
  {
    CubeDecodes(cfg, e.index, e.state, after);
    DecodeCubesStep(cfg, n + 1, EncodeCube(cfg, e.index, e.state) + after,
                    DecodedCube(e.index, WireImage(cfg, e.state), cfg.atRest(e.state)), after, ds, rest);
  }

  lemma TailEncodable(cfg: Config, cs: seq<CubeEntry>)
    requires |cs| > 0 && CubesEncodable(cfg, cs)
    ensures CubeEncodable(cfg, cs[0].index, cs[0].state)
    ensures CubesEncodable(cfg, cs[1..])
  {
    forall k | 0 <= k < |cs| - 1
      ensures CubeEncodable(cfg, cs[1..][k].index, cs[1..][k].state)
    {
      assert cs[1..][k] == cs[k + 1];
    }
  }

  lemma EncodeCubesCons(cfg: Config, cs: seq<CubeEntry>, rest: seq<bool>)
    requires |cs| > 0 && CubesEncodable(cfg, cs)
    ensures CubesEncodable(cfg, cs[1..])
    ensures EncodeCubes(cfg, cs) + rest
      == EncodeCube(cfg, cs[0].index, cs[0].state) + (EncodeCubes(cfg, cs[1..]) + rest)
    ensures WireEntries(cfg, cs) == [CubeEntry(cs[0].index, WireImage(cfg, cs[0].state))] + WireEntries(cfg, cs[1..])
  {
    TailEncodable(cfg, cs);
  }

  lemma {:induction false} CubesRoundTrip(cfg: Config, cs: seq<CubeEntry>, rest: seq<bool>)
    requires CubesEncodable(cfg, cs)
    ensures DecodeCubes(cfg, |cs|, EncodeCubes(cfg, cs) + rest) == Some(Read(WireEntries(cfg, cs), rest))
  {
    if |cs| > 0 {
      TailEncodable(cfg, cs);
      EncodeCubesCons(cfg, cs, rest);
      CubesRoundTrip(cfg, cs[1..], rest);
      DecodeCubeThen(cfg, cs[0], |cs| - 1, EncodeCubes(cfg, cs[1..]) + rest, WireEntries(cfg, cs[1..]), rest);
    } else {
      assert EncodeCubes(cfg, cs) + rest == rest;
    }
  }

  /** Decoding an encoded state packet gives back the same input, sequence and
      cube count, each cube as it survives the wire, and leaves what followed. */
  lemma StateUpdateRoundTrip(cfg: Config, m: StateUpdate, rest: seq<bool>)
    requires UpdateEncodable(cfg, m)
    ensures DecodeStateUpdate(cfg, EncodeStateUpdate(cfg, m) + rest)
      == Some(Read(m.(cubes := WireEntries(cfg, m.cubes)), rest))
  {
    HeaderHolds(m);
    var header := WriteFields(HeaderFields, HeaderValues(m));
    var cubes := EncodeCubes(cfg, m.cubes);
    var tail := cubes + rest;
    assert EncodeStateUpdate(cfg, m) == header + cubes;
    AppendAssoc(header, cubes, rest);
    CubesRoundTrip(cfg, m.cubes, rest);
    DecodeHeaderThen(cfg, m, tail, WireEntries(cfg, m.cubes), rest);
  }

  /** Reading a written header, then cubes that read back as `wire`, gives the
      packet with those cubes. */
  lemma DecodeHeaderThen(cfg: Config, m: StateUpdate, tail: seq<bool>, wire: seq<CubeEntry>, rest: seq<bool>)
    requires AllHold(HeaderFields, HeaderValues(m))
    requires DecodeCubes(cfg, |m.cubes|, tail) == Some(Read(wire, rest))
    ensures DecodeStateUpdate(cfg, WriteFields(HeaderFields, HeaderValues(m)) + tail)
      == Some(Read(m.(cubes := wire), rest))
  {
    ReadWriteFields(HeaderFields, HeaderValues(m), tail);
  }

  function InputBits(i: Input): seq<bool> {
    [i.left, i.right, i.up, i.down, i.push, i.pull]
  }

  function FlagValues(bs: seq<bool>): seq<int> {
    seq(|bs|, i requires 0 <= i < |bs| => BoolValue(bs[i]))
  }

  function Flags(n: nat): seq<Field> {
    seq(n, _ => Flag)
  }

  /** A run of one-bit fields writes the booleans themselves. */
  lemma {:induction false} WriteFlags(bs: seq<bool>)
    ensures AllHold(Flags(|bs|), FlagValues(bs))
    ensures WriteFields(Flags(|bs|), FlagValues(bs)) == bs
  {
    if |bs| > 0 {
      WriteFlags(bs[1..]);
      assert Flag.Width() == 1;
      assert WriteInt(Flag, BoolValue(bs[0])) == [bs[0]];
      assert Flags(|bs|)[1..] == Flags(|bs| - 1);
      assert FlagValues(bs)[1..] == FlagValues(bs[1..]);
      assert [bs[0]] + bs[1..] == bs;
    }
  }

  lemma HeaderSplit(m: StateUpdate)
    ensures HeaderFields == Flags(6) + [SequenceField, CountField]
    ensures HeaderValues(m) == FlagValues(InputBits(m.input)) + [m.sequence, |m.cubes|]
  {
  }

  lemma CounterLayout(sequence: int, count: int)
    requires SequenceField.Holds(sequence) && CountField.Holds(count)
    ensures AllHold([SequenceField, CountField], [sequence, count])
    ensures WriteFields([SequenceField, CountField], [sequence, count])
      == ToBits(sequence, 16) + ToBits(count, 6)
  {
    HeaderWidths();
    WriteTwoFields(SequenceField, CountField, sequence, count);
  }

  /** The sequence is written in 16 bits and the cube count in 6. */
  lemma HeaderWidths()
    ensures SequenceField.Width() == 16 && CountField.Width() == 6
  {
    assert BitsFor(0) == 0;
    assert BitsFor(1) == 1;
    assert BitsFor(3) == 2;
    assert BitsFor(7) == 3;
    assert BitsFor(15) == 4;
    assert BitsFor(31) == 5;
    assert BitsFor(63) == 6;
    assert BitsFor(127) == 7;
    assert BitsFor(255) == 8;
    assert BitsFor(511) == 9;
    assert BitsFor(1023) == 10;
    assert BitsFor(2047) == 11;
    assert BitsFor(4095) == 12;
    assert BitsFor(8191) == 13;
    assert BitsFor(16383) == 14;
    assert BitsFor(32767) == 15;
    assert BitsFor(65535) == 16;
  }

  lemma HeaderBits(m: StateUpdate)
    requires 0 <= m.sequence < 65536 && |m.cubes| <= MaxCubesPerPacket
    ensures AllHold(HeaderFields, HeaderValues(m))
    ensures WriteFields(HeaderFields, HeaderValues(m))
      == InputBits(m.input) + (ToBits(m.sequence, 16) + ToBits(|m.cubes|, 6))
  {
    var bs := InputBits(m.input);
    HeaderSplit(m);
    WriteFlags(bs);
    CounterLayout(m.sequence, |m.cubes|);
    WriteFieldsAppend(Flags(6), FlagValues(bs), [SequenceField, CountField], [m.sequence, |m.cubes|]);
  }

  /** One flag bit on the wire is the boolean itself. */
  lemma FlagBit(b: bool)
    ensures Flag.Holds(BoolValue(b)) && WriteInt(Flag, BoolValue(b)) == [b]
  {
    assert Flag.Width() == 1;
  }

  /** The index and the positions are written as offsets from their lower bounds. */
  lemma PrefixFieldBits(cfg: Config, index: int, c: CubeState)
    requires CubeEncodable(cfg, index, c)
    ensures cfg.IndexField().Holds(index)
      && WriteInt(cfg.IndexField(), index) == ToBits(index, cfg.IndexField().Width())
    ensures cfg.PositionXYField().Holds(c.positionX)
      && WriteInt(cfg.PositionXYField(), c.positionX)
         == ToBits(c.positionX + cfg.positionBoundXY, cfg.PositionXYField().Width())
    ensures cfg.PositionXYField().Holds(c.positionY)
      && WriteInt(cfg.PositionXYField(), c.positionY)
         == ToBits(c.positionY + cfg.positionBoundXY, cfg.PositionXYField().Width())
    ensures cfg.PositionZField().Holds(c.positionZ)
      && WriteInt(cfg.PositionZField(), c.positionZ) == ToBits(c.positionZ, cfg.PositionZField().Width())
  {
  }

  /** The orientation code is written as itself, in exactly `orientationBits` bits. */
  lemma OrientationFieldBits(cfg: Config, orientation: int)
    requires 0 <= orientation < Pow2(cfg.orientationBits)
    ensures cfg.OrientationField().Holds(orientation)
      && WriteInt(cfg.OrientationField(), orientation) == ToBits(orientation, cfg.orientationBits)
  {
    BitsForPow2(cfg.orientationBits);
  }

  /** The fixed part of a cube on the wire: the index, then x, y and z as
      offsets from their lower bounds, then the orientation code in exactly
      `orientationBits` bits, then the at-rest bit. */
  lemma PrefixLayout(cfg: Config, index: int, c: CubeState)
    requires CubeEncodable(cfg, index, c)
    ensures AllHold(cfg.PrefixFields(), PrefixValues(index, c, cfg.atRest(c)))
    ensures WriteFields(cfg.PrefixFields(), PrefixValues(index, c, cfg.atRest(c)))
      == ToBits(index, cfg.IndexField().Width())
       + (ToBits(c.positionX + cfg.positionBoundXY, cfg.PositionXYField().Width())
       + (ToBits(c.positionY + cfg.positionBoundXY, cfg.PositionXYField().Width())
       + (ToBits(c.positionZ, cfg.PositionZField().Width())
       + (ToBits(c.orientation, cfg.orientationBits)
       + [cfg.atRest(c)]))))
  {
    EncodableFieldsHold(cfg, index, c);
    WriteSixFields(cfg.PrefixFields(), PrefixValues(index, c, cfg.atRest(c)));
    PrefixFieldBits(cfg, index, c);
    OrientationFieldBits(cfg, c.orientation);
    FlagBit(cfg.atRest(c));
  }

  /** Each velocity field holds its value as the offset from the field's lower bound. */
  lemma VelocityFieldBits(cfg: Config, c: CubeState)
    requires VelocitiesInBounds(cfg, c)
    ensures cfg.LinearVelocityField().Holds(c.linearVelocityX)
      && WriteInt(cfg.LinearVelocityField(), c.linearVelocityX)
         == ToBits(c.linearVelocityX + cfg.linearVelocityBound, cfg.LinearVelocityField().Width())
    ensures cfg.LinearVelocityField().Holds(c.linearVelocityY)
      && WriteInt(cfg.LinearVelocityField(), c.linearVelocityY)
         == ToBits(c.linearVelocityY + cfg.linearVelocityBound, cfg.LinearVelocityField().Width())
    ensures cfg.LinearVelocityField().Holds(c.linearVelocityZ)
      && WriteInt(cfg.LinearVelocityField(), c.linearVelocityZ)
         == ToBits(c.linearVelocityZ + cfg.linearVelocityBound, cfg.LinearVelocityField().Width())
    ensures cfg.AngularVelocityField().Holds(c.angularVelocityX)
      && WriteInt(cfg.AngularVelocityField(), c.angularVelocityX)
         == ToBits(c.angularVelocityX + cfg.angularVelocityBound, cfg.AngularVelocityField().Width())
    ensures cfg.AngularVelocityField().Holds(c.angularVelocityY)
      && WriteInt(cfg.AngularVelocityField(), c.angularVelocityY)
         == ToBits(c.angularVelocityY + cfg.angularVelocityBound, cfg.AngularVelocityField().Width())
    ensures cfg.AngularVelocityField().Holds(c.angularVelocityZ)
      && WriteInt(cfg.AngularVelocityField(), c.angularVelocityZ)
         == ToBits(c.angularVelocityZ + cfg.angularVelocityBound, cfg.AngularVelocityField().Width())
  {
  }

  /** The velocity part of a moving cube on the wire: linear x, y, z, then
      angular x, y, z, each as the offset from its lower bound. */
  lemma VelocityLayout(cfg: Config, c: CubeState)
    requires VelocitiesInBounds(cfg, c)
    ensures AllHold(cfg.VelocityFields(), VelocityValues(c))
    ensures WriteFields(cfg.VelocityFields(), VelocityValues(c))
      == ToBits(c.linearVelocityX + cfg.linearVelocityBound, cfg.LinearVelocityField().Width())
       + (ToBits(c.linearVelocityY + cfg.linearVelocityBound, cfg.LinearVelocityField().Width())
       + (ToBits(c.linearVelocityZ + cfg.linearVelocityBound, cfg.LinearVelocityField().Width())
       + (ToBits(c.angularVelocityX + cfg.angularVelocityBound, cfg.AngularVelocityField().Width())
       + (ToBits(c.angularVelocityY + cfg.angularVelocityBound, cfg.AngularVelocityField().Width())
       + ToBits(c.angularVelocityZ + cfg.angularVelocityBound, cfg.AngularVelocityField().Width())))))
  {
    WriteSixFields(cfg.VelocityFields(), VelocityValues(c));
    VelocityFieldBits(cfg, c);
  }

  /** Bit layout of one cube (SyncDemo.cpp lines 72-92): the prefix fields in
      the order index, x, y, z, orientation, at-rest bit, followed by the six
      velocities exactly when the cube is not at rest. */
  lemma CubeLayout(cfg: Config, index: int, c: CubeState)
    requires CubeEncodable(cfg, index, c)
    ensures EncodeCube(cfg, index, c)
      == (ToBits(index, cfg.IndexField().Width())
       + (ToBits(c.positionX + cfg.positionBoundXY, cfg.PositionXYField().Width())
       + (ToBits(c.positionY + cfg.positionBoundXY, cfg.PositionXYField().Width())
       + (ToBits(c.positionZ, cfg.PositionZField().Width())
       + (ToBits(c.orientation, cfg.orientationBits)
       + [cfg.atRest(c)])))))
       + (if cfg.atRest(c) then []
          else (ToBits(c.linearVelocityX + cfg.linearVelocityBound, cfg.LinearVelocityField().Width())
            + (ToBits(c.linearVelocityY + cfg.linearVelocityBound, cfg.LinearVelocityField().Width())
            + (ToBits(c.linearVelocityZ + cfg.linearVelocityBound, cfg.LinearVelocityField().Width())
            + (ToBits(c.angularVelocityX + cfg.angularVelocityBound, cfg.AngularVelocityField().Width())
            + (ToBits(c.angularVelocityY + cfg.angularVelocityBound, cfg.AngularVelocityField().Width())
            + ToBits(c.angularVelocityZ + cfg.angularVelocityBound, cfg.AngularVelocityField().Width())))))))
  {
    PrefixLayout(cfg, index, c);
    if !cfg.atRest(c) {
      VelocityLayout(cfg, c);
    }
  }

  /** Bit layout of the packet header: six input bits first, then the 16-bit
      sequence, then the cube count in 6 bits, then the cubes. */
  lemma HeaderLayout(cfg: Config, m: StateUpdate)
    requires UpdateEncodable(cfg, m)
    ensures EncodeStateUpdate(cfg, m)
      == InputBits(m.input) + ToBits(m.sequence, 16) + ToBits(|m.cubes|, 6) + EncodeCubes(cfg, m.cubes)
  {
    HeaderBits(m);
  }
}
