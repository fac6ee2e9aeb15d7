/** How encoded cycles are put into packets: whole, in order, and never beyond the payload a packet can hold. */
module Framing {
  import opened Seqs
  import opened Words
  import opened Buffer

  type Bytes = seq<Byte>

  /** Packets already full, each a list of whole cycles, and the cycles collected for the next one. */
  datatype Frames = Frames(packets: seq<seq<Bytes>>, current: seq<Bytes>)

  const NOTHING: Frames := Frames([], [])

  /** One more cycle. When it does not fit behind the collected ones they are sent first, even if it then turns out
      not to fit an empty packet either, in which case it is dropped. */
  function AddCycle(cap: nat, f: Frames, cycle: Bytes): Frames {
    if |Flat(f.current)| + |cycle| <= cap then f.(current := f.current + [cycle])
    else
      var packets := if f.current == [] then f.packets else f.packets + [f.current];
      Frames(packets, if |cycle| <= cap then [cycle] else [])
  }

  function AddAll(cap: nat, f: Frames, cycles: seq<Bytes>): Frames
    decreases cycles
  {
    if cycles == [] then f else AddAll(cap, AddCycle(cap, f, cycles[0]), cycles[1..])
  }

  /** Everything, including the last partial packet. */
  function Finish(f: Frames): seq<seq<Bytes>> {
    if f.current == [] then f.packets else f.packets + [f.current]
  }

  function Concat<T>(groups: seq<seq<T>>): seq<T> {
    if groups == [] then [] else groups[0] + Concat(groups[1..])
  }

  lemma {:induction false} ConcatSnoc<T>(groups: seq<seq<T>>, g: seq<T>)
    ensures Concat(groups + [g]) == Concat(groups) + g
  {
    if groups == [] {
      assert groups + [g] == [g];
      assert [g][1..] == [];
      NilConcat(g);
    } else {
      assert (groups + [g])[1..] == groups[1..] + [g];
      ConcatSnoc(groups[1..], g);
      ConcatAssoc(groups[0], Concat(groups[1..]), g);
    }
  }

  /** The cycles that fit a packet of their own. */
  function Fitting(cap: nat, cycles: seq<Bytes>): seq<Bytes> {
    if cycles == [] then []
    else if |cycles[0]| <= cap then [cycles[0]] + Fitting(cap, cycles[1..])
    else Fitting(cap, cycles[1..])
  }

  lemma FittingFirst(cap: nat, c: Bytes, rest: seq<Bytes>)
    ensures Fitting(cap, [c] + rest) == Fitting(cap, [c]) + Fitting(cap, rest)
  {
    var one := [c];
    assert one[1..] == [] && (one + rest)[1..] == rest;
  }

  /** No packet is empty or too long, and the collected cycles would fit one. */
  predicate WithinCap(cap: nat, f: Frames) {
    && (forall i :: 0 <= i < |f.packets| ==> f.packets[i] != [] && |Flat(f.packets[i])| <= cap)
    && |Flat(f.current)| <= cap
  }

  lemma AddCycleWithin(cap: nat, f: Frames, cycle: Bytes)
    requires WithinCap(cap, f)
    ensures WithinCap(cap, AddCycle(cap, f, cycle))
    ensures Concat(AddCycle(cap, f, cycle).packets) + AddCycle(cap, f, cycle).current
            == Concat(f.packets) + f.current + Fitting(cap, [cycle])
  {
    FittingFirst(cap, cycle, []);
    NilConcat([cycle]);
    FlatConcat(f.current, [cycle]);
    FlatOne(cycle);
    ConcatSnoc(f.packets, f.current);
    var all := Concat(f.packets) + f.current;
    NilConcat(all);
    ConcatAssoc(Concat(f.packets), f.current, [cycle]);
    if f.current == [] {
      NilConcat<Bytes>(Concat(f.packets));
    }
  }

  /** Conservation: the cycles in the packets, read in order, are exactly the cycles that fit a packet, each whole and
      once; no packet is over length. */
  lemma {:induction false} FramesConserve(cap: nat, f: Frames, cycles: seq<Bytes>)
    requires WithinCap(cap, f)
    ensures var g := AddAll(cap, f, cycles);
            && WithinCap(cap, g)
            && Concat(Finish(g)) == Concat(f.packets) + f.current + Fitting(cap, cycles)
            && forall i :: 0 <= i < |Finish(g)| ==> Finish(g)[i] != [] && |Flat(Finish(g)[i])| <= cap
    decreases cycles
  {
    if cycles == [] {
      NilConcat(Concat(f.packets) + f.current);
      NilConcat<Bytes>(Concat(f.packets));
      ConcatSnoc(f.packets, f.current);
    } else {
      var c := cycles[0];
      AddCycleWithin(cap, f, c);
      FramesConserve(cap, AddCycle(cap, f, c), cycles[1..]);
      FittingFirst(cap, c, cycles[1..]);
      assert [c] + cycles[1..] == cycles;
      ConcatAssoc(Concat(f.packets) + f.current, Fitting(cap, [c]), Fitting(cap, cycles[1..]));
    }
  }
}
