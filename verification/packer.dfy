/** The greedy packer: one forward pass over the top-ranked candidates, each
    taken if the bits measured so far plus its own cost stay strictly below
    the packet's bit budget. */
module Packer {
  import opened CubeCodec

  /** The byte budget for the cubes of one state packet. */
  const MaxCubeBytes := 500

  /** Bits taken by the flagged entries of `send` (entry k costs costs[k]). */
  function SelectedBits(costs: seq<nat>, send: seq<bool>): nat
    requires |send| <= |costs|
  {
    if |send| == 0 then 0
    else (if send[0] then costs[0] else 0) + SelectedBits(costs[1..], send[1..])
  }

  function CountSent(send: seq<bool>): (n: nat)
    ensures n <= |send|
  {
    if |send| == 0 then 0 else (if send[0] then 1 else 0) + CountSent(send[1..])
  }

  /** The reference forward pass: `bits` is what the earlier candidates took. */
  function Greedy(costs: seq<nat>, maxBits: int, bits: int): (send: seq<bool>)
    ensures |send| == |costs|
  {
    if |costs| == 0 then []
    else if bits + costs[0] < maxBits then [true] + Greedy(costs[1..], maxBits, bits + costs[0])
    else [false] + Greedy(costs[1..], maxBits, bits)
  }

  /** One step of the reference pass, taken at candidate i after the marks `done`. */
  lemma GreedyStep(costs: seq<nat>, done: seq<bool>, i: nat, maxBits: int, bits: int, take: bool, nextBits: int)
    requires i < |costs|
    requires take == (bits + costs[i] < maxBits)
    requires nextBits == if take then bits + costs[i] else bits
    ensures done + Greedy(costs[i..], maxBits, bits) == (done + [take]) + Greedy(costs[i + 1..], maxBits, nextBits)
  {
    assert costs[i..][1..] == costs[i + 1..];
    assert Greedy(costs[i..], maxBits, bits) == [take] + Greedy(costs[i + 1..], maxBits, nextBits);
  }

  /** The measured cost of each candidate, in candidate order. */
  function Costs(cfg: Config, snapshot: seq<CubeState>, candidates: seq<int>): (costs: seq<nat>)
    requires forall i :: 0 <= i < |candidates| ==> 0 <= candidates[i] < |snapshot|
    ensures |costs| == |candidates|
    ensures forall i :: 0 <= i < |candidates| ==> costs[i] == CubeCost(cfg, snapshot[candidates[i]])
  {
    seq(|candidates|, i requires 0 <= i < |candidates| => CubeCost(cfg, snapshot[candidates[i]]))
  }

  /** MeasureCubesToSend: candidate i is marked exactly when the bits of the
      candidates marked before it plus its own cost are below max_bytes * 8;
      a misfit does not end the pass. Whatever is marked fits the budget. */
  method MeasureCubesToSend(cfg: Config, snapshot: seq<CubeState>, candidates: seq<int>, maxBytes: int)
    returns (send: seq<bool>)
    requires |candidates| == MaxCubesPerPacket
    requires forall i :: 0 <= i < |candidates| ==> 0 <= candidates[i] < |snapshot|
    ensures |send| == MaxCubesPerPacket
    ensures forall i :: 0 <= i < |send| ==>
      (send[i] <==> SelectedBits(Costs(cfg, snapshot, candidates), send[..i])
                      + Costs(cfg, snapshot, candidates)[i] < maxBytes * 8)
    ensures CountSent(send) == 0 || SelectedBits(Costs(cfg, snapshot, candidates), send) < maxBytes * 8
    ensures send == Greedy(Costs(cfg, snapshot, candidates), maxBytes * 8, 0)
  {
    ghost var costs := Costs(cfg, snapshot, candidates);
    var maxBits := maxBytes * 8;
    var bits := 0;
    send := [];
    var i := 0;
    while i < MaxCubesPerPacket
      invariant 0 <= i <= MaxCubesPerPacket && |send| == i
      invariant send + Greedy(costs[i..], maxBits, bits) == Greedy(costs, maxBits, 0)
    {
      var bitsProcessed := CubeCost(cfg, snapshot[candidates[i]]);
      var take := bits + bitsProcessed < maxBits;
      var nextBits := if take then bits + bitsProcessed else bits;
      assert bitsProcessed == costs[i];
      GreedyStep(costs, send, i, maxBits, bits, take, nextBits);
      send := send + [take];
      bits := nextBits;
      i := i + 1;
    }
    PassComplete(costs, send, maxBits, bits);
  }

  /** At the end of the pass the marks are the reference pass's, with its properties. */
  lemma PassComplete(costs: seq<nat>, send: seq<bool>, maxBits: int, bits: int)
    requires |send| == |costs|
    requires send + Greedy(costs[|costs|..], maxBits, bits) == Greedy(costs, maxBits, 0)
    ensures send == Greedy(costs, maxBits, 0)
    ensures forall i :: 0 <= i < |send| ==> (send[i] <==> SelectedBits(costs, send[..i]) + costs[i] < maxBits)
    ensures CountSent(send) == 0 || SelectedBits(costs, send) < maxBits
  {
    assert costs[|costs|..] == [];
    assert send + [] == send;
    GreedyMarks(costs, maxBits, 0);
  }

  lemma {:induction false} NoneSentNoBits(costs: seq<nat>, send: seq<bool>)
    requires |send| <= |costs| && CountSent(send) == 0
    ensures SelectedBits(costs, send) == 0
  {
    if |send| > 0 {
      NoneSentNoBits(costs[1..], send[1..]);
    }
  }

  /** The reference pass marks candidate i exactly when the bits of the
      candidates marked before it plus its own cost stay under the budget,
      and whatever it marks fits. `bits` is what was taken before. */
  lemma {:induction false} GreedyMarks(costs: seq<nat>, maxBits: int, bits: int)
    ensures var g := Greedy(costs, maxBits, bits);
      && (forall i :: 0 <= i < |g| ==> (g[i] <==> bits + SelectedBits(costs, g[..i]) + costs[i] < maxBits))
      && (CountSent(g) == 0 || bits + SelectedBits(costs, g) < maxBits)
  {
    var g := Greedy(costs, maxBits, bits);
    if |costs| > 0 {
      var take := bits + costs[0] < maxBits;
      var next := if take then bits + costs[0] else bits;
      var rest := Greedy(costs[1..], maxBits, next);
      assert g == [take] + rest;
      GreedyMarks(costs[1..], maxBits, next);
      forall i | 0 <= i < |g|
        ensures g[i] <==> bits + SelectedBits(costs, g[..i]) + costs[i] < maxBits
      {
        if i > 0 {
          assert g[..i][1..] == rest[..i - 1];
          assert g[i] == rest[i - 1] && costs[i] == costs[1..][i - 1];
        }
      }
      if CountSent(rest) == 0 {
        NoneSentNoBits(costs[1..], rest);
      }
    }
  }

  /** Equal costs: candidate k is taken exactly when k + 1 of them still fit. */
  lemma {:induction false} GreedyUniform(costs: seq<nat>, c: nat, maxBits: int, bits: int)
    requires forall k :: 0 <= k < |costs| ==> costs[k] == c
    ensures forall k :: 0 <= k < |costs| ==> (Greedy(costs, maxBits, bits)[k] <==> bits + (k + 1) * c < maxBits)
  {
    if |costs| > 0 {
      var g := Greedy(costs, maxBits, bits);
      if bits + c < maxBits {
        GreedyUniform(costs[1..], c, maxBits, bits + c);
        forall k | 1 <= k < |costs|
          ensures g[k] <==> bits + (k + 1) * c < maxBits
        {
          assert g[k] == Greedy(costs[1..], maxBits, bits + c)[k - 1];
          assert bits + c + k * c == bits + (k + 1) * c;
        }
      } else {
        GreedyUniform(costs[1..], c, maxBits, bits);
        forall k | 1 <= k < |costs|
          ensures g[k] <==> bits + (k + 1) * c < maxBits
        {
          assert g[k] == Greedy(costs[1..], maxBits, bits)[k - 1];
          assert k * c >= 0;
          assert bits + (k + 1) * c == bits + c + k * c;
        }
      }
    }
  }

  lemma {:induction false} CountLeading(send: seq<bool>, n: nat)
    requires n <= |send|
    requires forall k :: 0 <= k < |send| ==> (send[k] <==> k < n)
    ensures CountSent(send) == n
  {
    if |send| > 0 {
      CountLeading(send[1..], if n > 0 then n - 1 else 0);
    }
  }

  /** Sixty-three candidates of 80 bits under the 500-byte budget: 49 are
      taken, because a 50th would bring the total to exactly 4000 bits, which
      the strict comparison refuses. */
  lemma UniformBudgetExample(costs: seq<nat>)
    requires |costs| == MaxCubesPerPacket
    requires forall k :: 0 <= k < |costs| ==> costs[k] == 80
    ensures CountSent(Greedy(costs, MaxCubeBytes * 8, 0)) == 49
  {
    var g := Greedy(costs, MaxCubeBytes * 8, 0);
    GreedyUniform(costs, 80, MaxCubeBytes * 8, 0);
    assert forall k :: 0 <= k < |g| ==> (g[k] <==> k < 49);
    CountLeading(g, 49);
  }

  /** A candidate that does not fit does not end the pass: a cheaper one
      after it is still taken. */
  lemma SkipThenTake(big: nat, small: nat, maxBits: int)
    requires small < maxBits <= big
    ensures Greedy([big, small], maxBits, 0) == [false, true]
  {
  }
}
