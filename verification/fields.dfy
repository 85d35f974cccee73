/** The declarative field table shared by writing and measuring: a bounded
    integer field occupies the minimal number of bits for its range and holds
    value - lo. Booleans are the one-bit field 0..1. */
module Fields {
  import opened Options
  import opened Bits

  /** A bounded integer field with inclusive bounds lo..hi. */
  datatype Field = Field(lo: int, hi: int) {

    predicate Holds(v: int) {
      lo <= v <= hi
    }

    function Width(): nat {
      if hi >= lo then BitsFor(hi - lo) else 0
    }
  }

  const Flag := Field(0, 1)

  function BoolValue(b: bool): int {
    if b then 1 else 0
  }

  predicate AllHold(fs: seq<Field>, vs: seq<int>) {
    |fs| == |vs| && forall i :: 0 <= i < |fs| ==> fs[i].Holds(vs[i])
  }

  function TotalWidth(fs: seq<Field>): nat {
    if |fs| == 0 then 0 else fs[0].Width() + TotalWidth(fs[1..])
  }

  function WriteInt(f: Field, v: int): (r: seq<bool>)
    requires f.Holds(v)
    ensures |r| == f.Width()
  {
    ToBits(v - f.lo, f.Width())
  }

  /** Reads one field; fails on a short stream or a value above hi. */
  function ReadInt(f: Field, s: seq<bool>): (r: Option<Read<int, bool>>)
    ensures r.Some? ==> f.Holds(r.value.value) && |s| >= f.Width() && r.value.rest == s[f.Width()..]
  {
    var w := f.Width();
    if |s| < w then None
    else
      var v := f.lo + FromBits(s[..w]);
      if v > f.hi then None else Some(Read(v, s[w..]))
  }

  function WriteFields(fs: seq<Field>, vs: seq<int>): (r: seq<bool>)
    requires AllHold(fs, vs)
    ensures |r| == TotalWidth(fs)
  {
    if |fs| == 0 then [] else WriteInt(fs[0], vs[0]) + WriteFields(fs[1..], vs[1..])
  }

  lemma WriteTwoFields(f: Field, g: Field, v: int, w: int)
    requires f.Holds(v) && g.Holds(w)
    ensures AllHold([f, g], [v, w])
    ensures WriteFields([f, g], [v, w]) == WriteInt(f, v) + WriteInt(g, w)
  {
    assert [f, g][1..] == [g] && [v, w][1..] == [w];
    assert WriteFields([g], [w]) == WriteInt(g, w) + [];
  }

  /** A table of six fields is written field by field, in table order. */
  lemma WriteSixFields(fs: seq<Field>, vs: seq<int>)
    requires |fs| == 6 && AllHold(fs, vs)
    ensures WriteFields(fs, vs)
      == WriteInt(fs[0], vs[0]) + (WriteInt(fs[1], vs[1]) + (WriteInt(fs[2], vs[2])
       + (WriteInt(fs[3], vs[3]) + (WriteInt(fs[4], vs[4]) + WriteInt(fs[5], vs[5])))))
  {
    assert WriteFields(fs[5..], vs[5..]) == WriteInt(fs[5], vs[5]) + [] by {
      assert fs[5..][1..] == [];
    }
    assert WriteFields(fs[4..], vs[4..]) == WriteInt(fs[4], vs[4]) + WriteFields(fs[5..], vs[5..]) by {
      assert fs[4..][1..] == fs[5..] && vs[4..][1..] == vs[5..];
    }
    assert WriteFields(fs[3..], vs[3..]) == WriteInt(fs[3], vs[3]) + WriteFields(fs[4..], vs[4..]) by {
      assert fs[3..][1..] == fs[4..] && vs[3..][1..] == vs[4..];
    }
    assert WriteFields(fs[2..], vs[2..]) == WriteInt(fs[2], vs[2]) + WriteFields(fs[3..], vs[3..]) by {
      assert fs[2..][1..] == fs[3..] && vs[2..][1..] == vs[3..];
    }
    assert WriteFields(fs[1..], vs[1..]) == WriteInt(fs[1], vs[1]) + WriteFields(fs[2..], vs[2..]) by {
      assert fs[1..][1..] == fs[2..] && vs[1..][1..] == vs[2..];
    }
  }

  function ReadFields(fs: seq<Field>, s: seq<bool>): (r: Option<Read<seq<int>, bool>>)
    ensures r.Some? ==> AllHold(fs, r.value.value)
  {
    if |fs| == 0 then Some(Read([], s))
    else
      var head :- ReadInt(fs[0], s);
      var tail :- ReadFields(fs[1..], head.rest);
      Some(Read([head.value] + tail.value, tail.rest))
  }

  lemma ReadWriteInt(f: Field, v: int, rest: seq<bool>)
    requires f.Holds(v)
    ensures ReadInt(f, WriteInt(f, v) + rest) == Some(Read(v, rest))
  {
    var w := f.Width();
    var s := WriteInt(f, v) + rest;
    BitsForFits(f.hi - f.lo);
    assert v - f.lo < Pow2(w);
    assert s[..w] == WriteInt(f, v);
    assert s[w..] == rest;
    FromToBits(v - f.lo, w);
  }

  /** Reading a field table back from what was written reproduces every value
      and leaves exactly the bits that followed. */
  lemma {:induction false} ReadWriteFields(fs: seq<Field>, vs: seq<int>, rest: seq<bool>)
    requires AllHold(fs, vs)
    ensures ReadFields(fs, WriteFields(fs, vs) + rest) == Some(Read(vs, rest))
  {
    if |fs| > 0 {
      var tailBits := WriteFields(fs[1..], vs[1..]) + rest;
      assert WriteFields(fs, vs) + rest == WriteInt(fs[0], vs[0]) + tailBits;
      ReadWriteInt(fs[0], vs[0], tailBits);
      ReadWriteFields(fs[1..], vs[1..], rest);
      assert [vs[0]] + vs[1..] == vs;
    } else {
      assert vs == [];
      assert WriteFields(fs, vs) + rest == rest;
    }
  }

  lemma {:induction false} WriteFieldsAppend(fs: seq<Field>, vs: seq<int>, gs: seq<Field>, us: seq<int>)
    requires AllHold(fs, vs) && AllHold(gs, us)
    ensures AllHold(fs + gs, vs + us)
    ensures WriteFields(fs + gs, vs + us) == WriteFields(fs, vs) + WriteFields(gs, us)
  {
    if |fs| > 0 {
      assert (fs + gs)[1..] == fs[1..] + gs;
      assert (vs + us)[1..] == vs[1..] + us;
      WriteFieldsAppend(fs[1..], vs[1..], gs, us);
    } else {
      assert fs + gs == gs && vs + us == us;
    }
  }
}
