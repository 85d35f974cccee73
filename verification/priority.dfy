/** The priority accumulator: per-cube weights, the per-frame growth of the
    accumulators, and the ranking of cubes by descending accumulator. */
module Priority {
  import opened CubeCodec

  const BasePriority: real := 1.0
  const PlayerPriority: real := 1000000.0
  const InteractingPriority: real := 100.0

  /** The weight of cube `index` this frame: the base weight, the player's
      bonus for cube 0 and the bonus for a cube being interacted with. */
  function Weight(index: int, interacting: bool): real {
    BasePriority
      + (if index == 0 then PlayerPriority else 0.0)
      + (if interacting then InteractingPriority else 0.0)
  }

  function CalculateCubePriorities(snapshot: seq<CubeState>): (priority: seq<real>)
    ensures |priority| == |snapshot|
    ensures forall i :: 0 <= i < |snapshot| ==> priority[i] == Weight(i, snapshot[i].interacting)
  {
    seq(|snapshot|, i requires 0 <= i < |snapshot| => Weight(i, snapshot[i].interacting))
  }

  /** Every weight is at least the base weight, the player's cube outweighs
      every other cube, and interacting raises a cube's weight. */
  lemma WeightOrder(snapshot: seq<CubeState>)
    ensures var p := CalculateCubePriorities(snapshot);
      && (forall i :: 0 <= i < |p| ==> p[i] >= BasePriority)
      && (forall j :: 0 < j < |p| ==> p[j] < p[0])
      && (forall i :: 0 <= i < |p| && snapshot[i].interacting ==> p[i] >= BasePriority + InteractingPriority)
  {
  }

  /** One frame of growth: accumulator i grows by deltaTime * priority[i]. */
  function Accumulate(accum: seq<real>, deltaTime: real, priority: seq<real>): (r: seq<real>)
    requires |priority| == |accum|
    ensures |r| == |accum|
    ensures forall i :: 0 <= i < |r| ==> r[i] == accum[i] + deltaTime * priority[i]
  {
    seq(|accum|, i requires 0 <= i < |accum| => accum[i] + deltaTime * priority[i])
  }

  /** Every accumulator grows by at least the frame time (strictly, when the
      frame time is positive), so non-negative accumulators stay non-negative. */
  lemma AccumulateGrows(accum: seq<real>, deltaTime: real, snapshot: seq<CubeState>)
    requires |snapshot| == |accum| && deltaTime >= 0.0
    ensures var r := Accumulate(accum, deltaTime, CalculateCubePriorities(snapshot));
      forall i :: 0 <= i < |r| ==> r[i] >= accum[i] + deltaTime && (deltaTime > 0.0 ==> r[i] > accum[i])
  {
    var p := CalculateCubePriorities(snapshot);
    forall i | 0 <= i < |accum|
      ensures deltaTime * p[i] >= deltaTime
    {
      assert p[i] >= 1.0;
    }
  }

  // ---- Ranking ----

  datatype PriorityInfo = PriorityInfo(index: int, accum: real)

  /** The priority table as kept between frames: entry i is cube i. */
  function InfoList(accum: seq<real>): (r: seq<PriorityInfo>)
    ensures |r| == |accum|
    ensures forall i :: 0 <= i < |r| ==> r[i] == PriorityInfo(i, accum[i])
  {
    seq(|accum|, i requires 0 <= i < |accum| => PriorityInfo(i, accum[i]))
  }

  predicate SortedDescending(s: seq<PriorityInfo>) {
    forall i, j :: 0 <= i < j < |s| ==> s[i].accum >= s[j].accum
  }

  /** A ranking is any reordering of the table by descending accumulator; the
      order among equal accumulators is left open, as an unstable sort leaves it. */
  predicate IsRanking(accum: seq<real>, ranked: seq<PriorityInfo>) {
    multiset(ranked) == multiset(InfoList(accum)) && SortedDescending(ranked)
  }

  /** Everything in a reordering of s plus x is bounded by a bound of both. */
  lemma BoundedAfterInsert(x: PriorityInfo, s: seq<PriorityInfo>, t: seq<PriorityInfo>, top: real)
    requires multiset(t) == multiset(s) + multiset{x}
    requires x.accum <= top && forall k :: 0 <= k < |s| ==> s[k].accum <= top
    ensures forall j :: 0 <= j < |t| ==> t[j].accum <= top
  {
    forall j | 0 <= j < |t|
      ensures t[j].accum <= top
    {
      assert t[j] in multiset(t);
      if t[j] != x {
        assert t[j] in multiset(s);
        var k :| 0 <= k < |s| && s[k] == t[j];
      }
    }
  }

  function Insert(x: PriorityInfo, s: seq<PriorityInfo>): (r: seq<PriorityInfo>)
    requires SortedDescending(s)
    ensures multiset(r) == multiset(s) + multiset{x}
    ensures SortedDescending(r)
    ensures |r| == |s| + 1
  {
    if |s| == 0 then [x]
    else if x.accum >= s[0].accum then
      ConsSorted(x, s);
      [x] + s
    else
      var t := Insert(x, s[1..]);
      assert s == [s[0]] + s[1..];
      BoundedAfterInsert(x, s[1..], t, s[0].accum);
      ConsSorted(s[0], t);
      [s[0]] + t
  }

  /** Putting an entry no smaller than everything in front keeps the order. */
  lemma ConsSorted(h: PriorityInfo, t: seq<PriorityInfo>)
    requires SortedDescending(t)
    requires (|t| > 0 && h.accum >= t[0].accum) || forall j :: 0 <= j < |t| ==> t[j].accum <= h.accum
    ensures SortedDescending([h] + t)
  {
    var r := [h] + t;
    forall i, j | 0 <= i < j < |r|
      ensures r[i].accum >= r[j].accum
    {
      if i == 0 {
        assert r[j] == t[j - 1];
        if |t| > 0 && h.accum >= t[0].accum {
          assert t[0].accum >= t[j - 1].accum || j - 1 == 0;
        }
      } else {
        assert r[i] == t[i - 1] && r[j] == t[j - 1];
      }
    }
  }

  /** An insertion sort by descending accumulator. */
  function SortByAccum(s: seq<PriorityInfo>): (r: seq<PriorityInfo>)
    ensures multiset(r) == multiset(s)
    ensures SortedDescending(r)
  {
    if |s| == 0 then []
    else
      assert s == [s[0]] + s[1..];
      Insert(s[0], SortByAccum(s[1..]))
  }

  /** A ranking always exists: sorting the table gives one. */
  lemma RankingExists(accum: seq<real>)
    ensures IsRanking(accum, SortByAccum(InfoList(accum)))
  {
  }

  lemma CountInDistinct(s: seq<PriorityInfo>, x: PriorityInfo)
    requires forall i, j :: 0 <= i < j < |s| ==> s[i].index != s[j].index
    ensures multiset(s)[x] <= 1
  {
    if |s| > 0 {
      assert s == [s[0]] + s[1..];
      CountInDistinct(s[1..], x);
      if s[0] == x {
        assert x !in s[1..];
      }
    }
  }

  lemma CountTwice(s: seq<PriorityInfo>, a: int, b: int)
    requires 0 <= a < b < |s| && s[a] == s[b]
    ensures multiset(s)[s[a]] >= 2
  {
    var x := s[a];
    assert s == s[..b] + [s[b]] + s[b + 1..];
    assert x in s[..b];
    assert multiset(s[..b])[x] >= 1;
  }

  /** What every ranking of a table of n cubes looks like: n entries, each a
      distinct cube index 0..n-1 paired with that cube's accumulator. */
  lemma RankingFacts(accum: seq<real>, ranked: seq<PriorityInfo>)
    requires IsRanking(accum, ranked)
    ensures |ranked| == |accum|
    ensures forall k :: 0 <= k < |ranked| ==>
      0 <= ranked[k].index < |accum| && ranked[k].accum == accum[ranked[k].index]
    ensures forall k, l :: 0 <= k < l < |ranked| ==> ranked[k].index != ranked[l].index
  {
    var table := InfoList(accum);
    assert |ranked| == |multiset(ranked)| == |multiset(table)| == |table|;
    forall k | 0 <= k < |ranked|
      ensures 0 <= ranked[k].index < |accum| && ranked[k].accum == accum[ranked[k].index]
    {
      assert ranked[k] in multiset(ranked);
      assert ranked[k] in table;
    }
    forall k, l | 0 <= k < l < |ranked|
      ensures ranked[k].index != ranked[l].index
    {
      if ranked[k].index == ranked[l].index {
        assert ranked[k] == ranked[l];
        CountTwice(ranked, k, l);
        CountInDistinct(table, ranked[k]);
        assert false;
      }
    }
  }
}
