/** How far the runs of a record go: as far as its header, the error register and the operations allow. */
module Runs {
  import opened Words
  import opened Widths
  import opened Operations
  import Slave
  import opened SlaveFacts
  import opened Packing

  /** The error register has no room for another bus operation of the cycle. */
  predicate NoRoom(w: Width, ops: seq<Operation>, n: nat, checked: bool, awaiting: nat)
    requires n <= |ops|
  {
    checked && awaiting + CountBus(ops[..n]) >= 8 * w.data
  }

  /** op could be write k of a run opened by head: a run of one may still become either kind. */
  predicate CouldWrite(w: Width, fifo: bool, head: Operation, k: nat, op: Operation) {
    && !op.IsRead() && op.config == head.config && op.format == head.format
    && (op.address == RunAddress(w, fifo, head.address, k) || (k == 1 && op.address == head.address))
  }

  /** op could be another read of a run opened by head. */
  predicate CouldRead(w: Width, head: Operation, op: Operation) {
    op.IsRead() && op.config == head.config && op.format == head.format
    && op.address % w.data == head.address % w.data
  }

  // ---------------------------------------------------------------------------
  // Writes
  // ---------------------------------------------------------------------------

  /** A write run holds writes at the run's addresses, and stops for a reason. */
  lemma {:induction false} WriteRunStops(w: Width, ops: seq<Operation>, head: Operation, expected: nat, fifo: bool,
                                         limit: nat, checked: bool, awaiting: nat)
    ensures var n := WriteRun(w, ops, head, expected, fifo, limit, checked, awaiting);
            && (forall i :: 0 <= i < n ==> Extends(ops[i], head, RunAddress(w, fifo, expected, i)))
            && (n < |ops| && n < limit && !NoRoom(w, ops, n, checked, awaiting) ==>
                  !Extends(ops[n], head, RunAddress(w, fifo, expected, n)))
    decreases ops
  {
    var n := WriteRun(w, ops, head, expected, fifo, limit, checked, awaiting);
    if n == 0 {
      assert ops[..0] == [];
    } else {
      var next := Slave.Advance(w, fifo, expected);
      WriteRunStops(w, ops[1..], head, next, fifo, limit - 1, checked, Charge(ops[0], awaiting));
      hide Slave.Advance, RunAddress, Extends;
      assert RunAddress(w, fifo, expected, 0) == expected by { FirstAddress(w, fifo, expected); }
      CountFirst(ops, n);
      forall i | 0 < i <= n
        ensures RunAddress(w, fifo, expected, i) == RunAddress(w, fifo, next, i - 1)
      {
        AddressNext(w, fifo, expected, i - 1);
      }
      assert forall i :: 0 < i < n ==> ops[i] == ops[1..][i - 1];
    }
  }

  lemma CountFirst(ops: seq<Operation>, n: nat)
    requires 0 < n <= |ops|
    ensures CountBus(ops[..n]) == (if ops[0].IsBus() then 1 else 0) + CountBus(ops[1..][..n - 1])
  {
    assert ops[..n][1..] == ops[1..][..n - 1];
  }

  lemma NoRoomBehind(w: Width, ops: seq<Operation>, n: nat, checked: bool, awaiting: nat)
    requires n < |ops|
    ensures NoRoom(w, ops[1..], n, checked, Charge(ops[0], awaiting)) <==> NoRoom(w, ops, n + 1, checked, awaiting)
  {
    CountFirst(ops, n + 1);
    hide CountBus;
  }

  /** The next address differs from the first. */
  lemma Moves(w: Width, start: nat)
    ensures RunAddress(w, false, start, 1) != start
  {
    if start < WORD {
      if start + w.data >= WORD {
        DivMod(start + w.data, WORD, 1, start + w.data - WORD);
      } else {
        SmallMod(start + w.data, WORD);
      }
    }
  }

  lemma FifoWrites(w: Width, ops: seq<Operation>, checked: bool, awaiting: nat)
    requires ops != []
    ensures var head, rest, aw := ops[0], ops[1..], Charge(ops[0], awaiting);
            var k := 1 + WriteRun(w, rest, head, head.address, true, 254, checked, aw);
            && (forall i :: 0 < i < k ==> CouldWrite(w, true, head, i, ops[i]) && ops[i].address == head.address)
            && (k < |ops| && CouldWrite(w, true, head, k, ops[k]) ==> k == 255 || NoRoom(w, ops, k, checked, awaiting))
  {
    var head, rest, aw := ops[0], ops[1..], Charge(ops[0], awaiting);
    var n := WriteRun(w, rest, head, head.address, true, 254, checked, aw);
    WriteRunStops(w, rest, head, head.address, true, 254, checked, aw);
    NoRoomBehind(w, ops, n, checked, awaiting);
    hide WriteRun, NoRoom, Charge;
    assert forall i :: 0 < i < |ops| ==> ops[i] == rest[i - 1];
  }

  lemma OrderedWrites(w: Width, ops: seq<Operation>, checked: bool, awaiting: nat)
    requires ops != []
    ensures var head, rest, aw := ops[0], ops[1..], Charge(ops[0], awaiting);
            var k := 1 + WriteRun(w, rest, head, Slave.Advance(w, false, head.address), false, 254, checked, aw);
            && (forall i :: 0 < i < k ==> Extends(ops[i], head, RunAddress(w, false, head.address, i)))
            && (k < |ops| && Extends(ops[k], head, RunAddress(w, false, head.address, k)) ==>
                  k == 255 || NoRoom(w, ops, k, checked, awaiting))
  {
    var head, rest, aw := ops[0], ops[1..], Charge(ops[0], awaiting);
    var next := Slave.Advance(w, false, head.address);
    var n := WriteRun(w, rest, head, next, false, 254, checked, aw);
    WriteRunStops(w, rest, head, next, false, 254, checked, aw);
    NoRoomBehind(w, ops, n, checked, awaiting);
    hide WriteRun, NoRoom, Charge, Extends, RunAddress, Slave.Advance;
    AddressNext(w, false, head.address, n);
    forall i | 0 < i < n + 1
      ensures Extends(ops[i], head, RunAddress(w, false, head.address, i))
    {
      assert ops[i] == rest[i - 1];
      AddressNext(w, false, head.address, i - 1);
    }
  }

  /** The writes of the next record: none iff a read comes first or the error register is full; they form a FIFO iff the
      first two share their address; each continues the run that the first one opens; and the operation behind them could
      not, unless there are 255 or the error register is full. */
  lemma WritesMaximal(w: Width, ops: seq<Operation>, checked: bool, awaiting: nat)
    ensures var p := NextPlan(w, ops, checked, awaiting);
            var k := p.wcount;
            && (k == 0 <==> ops == [] || ops[0].IsRead() || NoRoom(w, ops, 0, checked, awaiting))
            && (p.fifo <==> k >= 2 && ops[1].address == ops[0].address)
            && (forall i :: 0 < i < k ==> CouldWrite(w, p.fifo, ops[0], i, ops[i]))
            && (0 < k < |ops| && CouldWrite(w, p.fifo, ops[0], k, ops[k]) ==>
                  k == 255 || NoRoom(w, ops, k, checked, awaiting))
  {
    PlannedWrites(w, ops, checked, awaiting);
    EmptyRoom(w, ops, checked, awaiting);
    if ops != [] {
      FifoWrites(w, ops, checked, awaiting);
      OrderedWrites(w, ops, checked, awaiting);
      NoFifo(w, ops, checked, awaiting);
      Moves(w, ops[0].address);
    }
    hide NextPlan, WriteRun, NoRoom, RunAddress, Slave.Advance, Charge;
  }

  lemma EmptyRoom(w: Width, ops: seq<Operation>, checked: bool, awaiting: nat)
    ensures NoRoom(w, ops, 0, checked, awaiting) <==> Full(w, checked, awaiting)
  {
    assert ops[..0] == [];
  }

  lemma PlannedWrites(w: Width, ops: seq<Operation>, checked: bool, awaiting: nat)
    ensures var p := NextPlan(w, ops, checked, awaiting);
            && (p.wcount == 0 ==> !p.fifo)
            && (p.wcount == 0 <==> ops == [] || ops[0].IsRead() || Full(w, checked, awaiting))
            && (p.wcount > 0 ==>
                  var head, rest, aw := ops[0], ops[1..], Charge(ops[0], awaiting);
                  var same := WriteRun(w, rest, head, head.address, true, 254, checked, aw);
                  if same > 0 then p.wcount == 1 + same && p.fifo
                  else p.wcount == 1 + WriteRun(w, rest, head, Slave.Advance(w, false, head.address), false, 254, checked, aw)
                       && !p.fifo)
  {
    hide WriteRun;
  }

  /** Without a FIFO the second operation does not repeat the first address, or there is no room for it. */
  lemma NoFifo(w: Width, ops: seq<Operation>, checked: bool, awaiting: nat)
    requires ops != []
    ensures var head, rest, aw := ops[0], ops[1..], Charge(ops[0], awaiting);
            WriteRun(w, rest, head, head.address, true, 254, checked, aw) == 0 && 1 < |ops| && Extends(ops[1], head, head.address)
            ==> NoRoom(w, ops, 1, checked, awaiting)
  {
    var rest, aw := ops[1..], Charge(ops[0], awaiting);
    EmptyRoom(w, rest, checked, aw);
    NoRoomBehind(w, ops, 0, checked, awaiting);
    hide NoRoom, Extends, Charge;
  }

  // ---------------------------------------------------------------------------
  // Reads and the status read
  // ---------------------------------------------------------------------------

  lemma {:induction false} ReadRunStops(w: Width, ops: seq<Operation>, head: Operation, limit: nat, checked: bool,
                                        awaiting: nat)
    ensures var n := ReadRun(w, ops, head, limit, checked, awaiting);
            && (forall i :: 0 <= i < n ==> CouldRead(w, head, ops[i]))
            && (n < |ops| && n < limit && !NoRoom(w, ops, n, checked, awaiting) ==> !CouldRead(w, head, ops[n]))
    decreases ops
  {
    var n := ReadRun(w, ops, head, limit, checked, awaiting);
    EmptyRoom(w, ops, checked, awaiting);
    assert forall i :: 0 <= i < |ops| ==> (CouldRead(w, head, ops[i]) <==> Joins(w, ops[i], head));
    if n > 0 {
      ReadRunStops(w, ops[1..], head, limit - 1, checked, Charge(ops[0], awaiting));
      NoRoomBehind(w, ops, n - 1, checked, awaiting);
      hide NoRoom, CouldRead, Joins, Charge;
      assert forall i :: 0 < i < |ops| ==> ops[i] == ops[1..][i - 1];
    }
  }

  /** Room counted from position k on is room counted from the start. */
  lemma NoRoomFrom(w: Width, ops: seq<Operation>, k: nat, n: nat, checked: bool, awaiting: nat)
    requires k + n <= |ops|
    ensures NoRoom(w, ops[k..], n, checked, awaiting + CountBus(ops[..k])) <==> NoRoom(w, ops, k + n, checked, awaiting)
  {
    CountBusSplit(ops, 0, k, k + n);
    assert ops[0..k] == ops[..k] && ops[0..k + n] == ops[..k + n] && ops[k..k + n] == ops[k..][..n];
    hide CountBus;
  }

  lemma PlannedReads(w: Width, ops: seq<Operation>, checked: bool, awaiting: nat)
    ensures var p := NextPlan(w, ops, checked, awaiting);
            p.rcount == PlanReads(w, ops, p.wcount, checked, awaiting + CountBus(ops[..p.wcount]))
  {
    hide PlanWrites, PlanReads, CountBus;
  }

  lemma ReadsOrNone(w: Width, ops: seq<Operation>, k: nat, checked: bool, awaiting: nat)
    requires k <= |ops|
    ensures var aw := awaiting + CountBus(ops[..k]);
            if k == |ops| || !ops[k].IsRead() || NoRoom(w, ops, k, checked, awaiting)
               || (k > 0 && (ops[k].format != ops[0].format || ops[k].address % w.data != ops[0].address % w.data))
            then PlanReads(w, ops, k, checked, aw) == 0
            else PlanReads(w, ops, k, checked, aw) == 1 + ReadRun(w, ops[k + 1..], ops[k], 254, checked, Charge(ops[k], aw))
  {
    hide ReadRun, Charge, CountBus;
  }

  lemma SomeReads(w: Width, ops: seq<Operation>, k: nat, checked: bool, awaiting: nat)
    requires k < |ops|
    ensures var n := 1 + ReadRun(w, ops[k + 1..], ops[k], 254, checked, Charge(ops[k], awaiting + CountBus(ops[..k])));
            && k + n <= |ops|
            && (forall i :: k < i < k + n ==> CouldRead(w, ops[k], ops[i]))
            && (k + n < |ops| && CouldRead(w, ops[k], ops[k + n]) ==> n == 255 || NoRoom(w, ops, k + n, checked, awaiting))
  {
    var rest, aw := ops[k + 1..], Charge(ops[k], awaiting + CountBus(ops[..k]));
    var n := ReadRun(w, rest, ops[k], 254, checked, aw);
    ReadRunStops(w, rest, ops[k], 254, checked, aw);
    CountNext(ops, 0, k);
    assert ops[0..k + 1] == ops[..k + 1] && ops[0..k] == ops[..k];
    assert aw == awaiting + CountBus(ops[..k + 1]);
    NoRoomFrom(w, ops, k + 1, n, checked, awaiting);
    hide NoRoom, CouldRead, ReadRun, Charge, CountBus;
    assert forall i :: k < i < |ops| ==> ops[i] == rest[i - k - 1];
  }

  lemma ReadsBehind(w: Width, ops: seq<Operation>, k: nat, checked: bool, awaiting: nat)
    requires k <= |ops|
    ensures var r := PlanReads(w, ops, k, checked, awaiting + CountBus(ops[..k]));
            && (r == 0 <==>
                  || k == |ops| || !ops[k].IsRead() || NoRoom(w, ops, k, checked, awaiting)
                  || (k > 0 && (ops[k].format != ops[0].format || ops[k].address % w.data != ops[0].address % w.data)))
            && (forall i :: k < i < k + r ==> CouldRead(w, ops[k], ops[i]))
            && (0 < r < |ops| - k && CouldRead(w, ops[k], ops[k + r]) ==> r == 255 || NoRoom(w, ops, k + r, checked, awaiting))
  {
    ReadsOrNone(w, ops, k, checked, awaiting);
    hide ReadRun, PlanReads, NoRoom, CouldRead, Charge, CountBus;
    if k < |ops| {
      SomeReads(w, ops, k, checked, awaiting);
    }
  }

  /** The reads of the next record, which follow its writes: none iff no read comes next, or it does not have the format
      and the low address bits of the writes before it, or the error register is full; each could join the first; and the
      operation behind them could not, unless there are 255 or the error register is full. */
  lemma ReadsMaximal(w: Width, ops: seq<Operation>, checked: bool, awaiting: nat)
    ensures var p := NextPlan(w, ops, checked, awaiting);
            var k, n := p.wcount, p.wcount + p.rcount;
            && (p.rcount == 0 <==>
                  || k == |ops| || !ops[k].IsRead() || NoRoom(w, ops, k, checked, awaiting)
                  || (k > 0 && (ops[k].format != ops[0].format || ops[k].address % w.data != ops[0].address % w.data)))
            && (forall i :: k < i < n ==> CouldRead(w, ops[k], ops[i]))
            && (k < n < |ops| && CouldRead(w, ops[k], ops[n]) ==>
                  p.rcount == 255 || NoRoom(w, ops, n, checked, awaiting))
  {
    hide *;
    PlannedReads(w, ops, checked, awaiting);
    ReadsBehind(w, ops, NextPlan(w, ops, checked, awaiting).wcount, checked, awaiting);
  }

  /** The next record reads the status iff it has no reads, its select lines are those of a full word, and operations await
      a status that fills the register or ends the cycle. It ends the cycle iff nothing is left to send or to read. */
  lemma StatusExact(w: Width, ops: seq<Operation>, checked: bool, awaiting: nat)
    ensures var p := NextPlan(w, ops, checked, awaiting);
            var n, total := p.wcount + p.rcount, awaiting + CountBus(ops[..p.wcount + p.rcount]);
            && (p.status <==> checked && p.rcount == 0 && (p.wcount == 0 || ops[0].format == w.data)
                              && (total >= 8 * w.data || (n == |ops| && total > 0)))
            && p.awaiting == (if p.status then 0 else total)
            && (p.last <==> n == |ops| && !(checked && p.awaiting > 0))
  {
    var p := NextPlan(w, ops, checked, awaiting);
    CountBusSplit(ops, 0, p.wcount, p.wcount + p.rcount);
    assert ops[0..p.wcount] == ops[..p.wcount] && ops[0..p.wcount + p.rcount] == ops[..p.wcount + p.rcount];
    hide PlanWrites, PlanReads, CountBus;
  }

  /** Reads of one kind that nothing has to be checked for share their records, 255 in each. */
  lemma ReadsTogether(w: Width, ops: seq<Operation>)
    requires ops != [] && ops[0].IsRead() && forall i :: 0 < i < |ops| ==> CouldRead(w, ops[0], ops[i])
    ensures NextPlan(w, ops, false, 0).rcount == if |ops| <= 255 then |ops| else 255
  {
    WritesMaximal(w, ops, false, 0);
    ReadsMaximal(w, ops, false, 0);
    hide NextPlan;
  }
}
