/** The bit of a packet header that promises no reads: how the sender sets it, and when the promise holds. */
module Promises {
  import opened Widths
  import opened Operations
  import opened Validate
  import opened Packing
  import opened Emitter
  import opened Flushing

  /** The sender's view of its packet buffer: bytes of whole cycles collected behind the header, bytes of the cycle being
      packed, has_reads, whether the header promises no reads, and the promises of the packets sent. */
  datatype Head = Head(collected: nat, partial: nat, asked: bool, promised: bool, sent: seq<bool>)

  const EMPTY: Head := Head(0, 0, false, false, [])

  /** The collected cycles go out. The header keeps a promise once made, and has_reads starts again from nothing, although
      the cycle being packed stays in the buffer. */
  function SentOff(h: Head): Head {
    var promised := h.promised || !h.asked;
    Head(0, h.partial, false, promised, h.sent + [promised])
  }

  /** Room is made for a record. */
  function Roomed(room: nat, h: Head, length: nat): Head {
    if h.collected > 0 && h.collected + h.partial + length > room then SentOff(h) else h
  }

  /** The record is packed if it fits then; else the cycle is dropped. */
  function Taken(room: nat, h: Head, length: nat, asked: bool): (bool, Head) {
    var h1 := Roomed(room, h, length);
    if h1.collected + h1.partial + length <= room then (true, h1.(partial := h1.partial + length, asked := h1.asked || asked))
    else (false, h1.(partial := 0))
  }

  /** The record has reads, of operations or of the error register. */
  predicate Asks(p: Plan) {
    p.status || p.rcount > 0
  }

  /** The records of the operations left in a cycle. */
  function CycleTaken(w: Width, room: nat, h: Head, ops: seq<Operation>, checked: bool, awaiting: nat): Head
    decreases |ops|, awaiting
  {
    if Finished(ops, checked, awaiting) then h.(collected := h.collected + h.partial, partial := 0)
    else
      PlanProgress(w, ops, checked, awaiting);
      var p := NextPlan(w, ops, checked, awaiting);
      var (ok, h1) := Taken(room, h, PlanLength(w, p), Asks(p));
      if ok then CycleTaken(w, room, h1, ops[p.wcount + p.rcount..], checked, p.awaiting) else h1
  }

  /** A closed cycle: only one that passes every check is packed. */
  function ReadyTaken(w: Width, room: nat, h: Head, c: Ready, memory: bool): Head {
    if Passes(w, c, memory) then
      var ops := CheckAll(w, c.ops).0;
      CycleTaken(w, room, h, ops, ops[0].checked, 0)
    else h
  }

  function FlushTaken(w: Width, room: nat, h: Head, cycles: seq<Ready>, memory: seq<bool>): Head
    requires |memory| == |cycles|
    decreases cycles
  {
    if cycles == [] then h
    else FlushTaken(w, room, ReadyTaken(w, room, h, cycles[0], memory[0]), cycles[1..], memory[1..])
  }

  /** The promises of all packets of a flush. */
  function PromisesOf(w: Width, room: nat, cycles: seq<Ready>, memory: seq<bool>): seq<bool>
    requires |memory| == |cycles|
  {
    var h := FlushTaken(w, room, EMPTY, cycles, memory);
    if h.collected > 0 then SentOff(h).sent else h.sent
  }

  lemma PromisesAre(w: Width, room: nat, cycles: seq<Ready>, memory: seq<bool>)
    requires |memory| == |cycles|
    ensures var h := FlushTaken(w, room, EMPTY, cycles, memory);
            PromisesOf(w, room, cycles, memory) == if h.collected > 0 then SentOff(h).sent else h.sent
  {
  }

  lemma TakenStep(w: Width, room: nat, h: Head, ops: seq<Operation>, checked: bool, awaiting: nat)
    requires !Finished(ops, checked, awaiting)
    ensures var p := NextPlan(w, ops, checked, awaiting);
            var (ok, h1) := Taken(room, h, PlanLength(w, p), Asks(p));
            p.wcount + p.rcount <= |ops|
            && CycleTaken(w, room, h, ops, checked, awaiting)
            == if ok then CycleTaken(w, room, h1, ops[p.wcount + p.rcount..], checked, p.awaiting) else h1
  {
    hide NextPlan, Taken, PlanLength, Asks;
  }

  lemma TakenRoomed(room: nat, h: Head, length: nat, asks: bool)
    ensures var h1 := Roomed(room, h, length);
            Taken(room, h, length, asks)
            == if h1.collected + h1.partial + length <= room
               then (true, h1.(partial := h1.partial + length, asked := h1.asked || asks)) else (false, h1.(partial := 0))
  {
  }

  lemma AsksIs(p: Plan)
    ensures Asks(p) <==> p.status || p.rcount > 0
  {
  }
}
