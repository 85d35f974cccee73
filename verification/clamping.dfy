/** Clamping of a quantised snapshot into the ranges the codec accepts. */
module Clamping {
  import opened Bits
  import opened CubeCodec

  /** core::clamp: the nearest value of lo..hi. */
  function Clamp(v: int, lo: int, hi: int): (r: int)
    requires lo <= hi
    ensures lo <= r <= hi
    ensures lo <= v <= hi ==> r == v
    ensures v < lo ==> r == lo
    ensures v > hi ==> r == hi
  {
    if v < lo then lo else if v > hi then hi else v
  }

  /** Each of the nine bounded fields is clamped on its own into its range,
      so a field already in range keeps its value whatever the others hold. */
  function ClampCube(cfg: Config, c: CubeState): (r: CubeState)
    requires cfg.Valid()
    ensures PositionsInBounds(cfg, r) && VelocitiesInBounds(cfg, r)
    ensures r.orientation == c.orientation && r.interacting == c.interacting
    ensures r.positionX == Clamp(c.positionX, -cfg.positionBoundXY, cfg.positionBoundXY - 1)
    ensures r.positionY == Clamp(c.positionY, -cfg.positionBoundXY, cfg.positionBoundXY - 1)
    ensures r.positionZ == Clamp(c.positionZ, 0, cfg.positionBoundZ - 1)
    ensures r.linearVelocityX == Clamp(c.linearVelocityX, -cfg.linearVelocityBound, cfg.linearVelocityBound - 1)
    ensures r.linearVelocityY == Clamp(c.linearVelocityY, -cfg.linearVelocityBound, cfg.linearVelocityBound - 1)
    ensures r.linearVelocityZ == Clamp(c.linearVelocityZ, -cfg.linearVelocityBound, cfg.linearVelocityBound - 1)
    ensures r.angularVelocityX == Clamp(c.angularVelocityX, -cfg.angularVelocityBound, cfg.angularVelocityBound - 1)
    ensures r.angularVelocityY == Clamp(c.angularVelocityY, -cfg.angularVelocityBound, cfg.angularVelocityBound - 1)
    ensures r.angularVelocityZ == Clamp(c.angularVelocityZ, -cfg.angularVelocityBound, cfg.angularVelocityBound - 1)
    ensures PositionsInBounds(cfg, c) ==>
      r.positionX == c.positionX && r.positionY == c.positionY && r.positionZ == c.positionZ
    ensures VelocitiesInBounds(cfg, c) ==> VelocityValues(r) == VelocityValues(c)
  {
    var xy := cfg.positionBoundXY;
    var lin := cfg.linearVelocityBound;
    var ang := cfg.angularVelocityBound;
    c.(positionX := Clamp(c.positionX, -xy, xy - 1),
       positionY := Clamp(c.positionY, -xy, xy - 1),
       positionZ := Clamp(c.positionZ, 0, cfg.positionBoundZ - 1),
       linearVelocityX := Clamp(c.linearVelocityX, -lin, lin - 1),
       linearVelocityY := Clamp(c.linearVelocityY, -lin, lin - 1),
       linearVelocityZ := Clamp(c.linearVelocityZ, -lin, lin - 1),
       angularVelocityX := Clamp(c.angularVelocityX, -ang, ang - 1),
       angularVelocityY := Clamp(c.angularVelocityY, -ang, ang - 1),
       angularVelocityZ := Clamp(c.angularVelocityZ, -ang, ang - 1))
  }

  /** Every cube of the snapshot is clamped; nothing else about it changes. */
  function ClampSnapshot(cfg: Config, snapshot: seq<CubeState>): (r: seq<CubeState>)
    requires cfg.Valid()
    ensures |r| == |snapshot|
    ensures forall i :: 0 <= i < |r| ==> r[i] == ClampCube(cfg, snapshot[i])
    ensures forall i :: 0 <= i < |r| ==> PositionsInBounds(cfg, r[i]) && VelocitiesInBounds(cfg, r[i])
    ensures forall i :: 0 <= i < |r| ==>
      (r[i].orientation == snapshot[i].orientation && r[i].interacting == snapshot[i].interacting)
    ensures forall i :: 0 <= i < |r| ==>
      (PositionsInBounds(cfg, snapshot[i]) && VelocitiesInBounds(cfg, snapshot[i]) ==> r[i] == snapshot[i])
  {
    seq(|snapshot|, i requires 0 <= i < |snapshot| => ClampCube(cfg, snapshot[i]))
  }

  /** Clamping twice is clamping once. */
  lemma ClampSnapshotIdempotent(cfg: Config, snapshot: seq<CubeState>)
    requires cfg.Valid()
    ensures ClampSnapshot(cfg, ClampSnapshot(cfg, snapshot)) == ClampSnapshot(cfg, snapshot)
  {
  }

  /** A clamped cube can always be written, under any index of the pool, as
      long as its orientation code is a valid one. */
  lemma ClampedCubeEncodable(cfg: Config, index: int, c: CubeState)
    requires cfg.Valid()
    requires 0 <= index < cfg.numCubes
    requires 0 <= c.orientation < Pow2(cfg.orientationBits)
    ensures CubeEncodable(cfg, index, ClampCube(cfg, c))
  {
  }

  /** Every cube of a clamped snapshot can be written under its own pool index
      once its orientation code is a valid one. */
  lemma ClampedSnapshotEncodable(cfg: Config, raw: seq<CubeState>)
    requires cfg.Valid() && |raw| <= cfg.numCubes
    requires forall i :: 0 <= i < |raw| ==> 0 <= raw[i].orientation < Pow2(cfg.orientationBits)
    ensures forall i :: 0 <= i < |raw| ==> CubeEncodable(cfg, i, ClampSnapshot(cfg, raw)[i])
  {
    forall i | 0 <= i < |raw|
      ensures CubeEncodable(cfg, i, ClampSnapshot(cfg, raw)[i])
    {
      ClampedCubeEncodable(cfg, i, raw[i]);
    }
  }
}
