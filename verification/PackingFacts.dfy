/** Properties of packed cycles: bounds, the cycle flag, status groups, and which config reads arrive as asked. */
module PackingFacts {
  import opened Words
  import opened Widths
  import opened Operations
  import opened Records
  import opened Slave
  import opened Packing

  // ---------------------------------------------------------------------------
  // Packed records can be encoded
  // ---------------------------------------------------------------------------

  lemma WireBounds(w: Width)
    ensures Pow256(w.addr) <= Pow256(Alignment(w)) && Pow256(w.data) <= Pow256(Alignment(w))
    ensures 0x1_0000 <= Pow256(Alignment(w))
  {
    AlignmentFits(w);
    Pow256Values();
    Pow256Grows(w.addr, Alignment(w));
    Pow256Grows(w.data, Alignment(w));
    Pow256Grows(2, Alignment(w));
  }

  lemma WriteWordBound(w: Width, op: Operation)
    requires Fits(w, op) && !op.IsRead()
    ensures WriteWord(w, op) < Pow256(w.data)
  {
    FitsFacts(w, op);
    ShlBytesBound(op.value, op.Size(), OpShift(w, op));
    Pow256Grows(op.Size() + OpShift(w, op), w.data);
  }

  lemma {:induction false} ChainIsWrites(w: Width, ops: seq<Operation>, head: Operation, expected: nat, fifo: bool)
    requires Chain(w, ops, head, expected, fifo)
    ensures forall i :: 0 <= i < |ops| ==> !ops[i].IsRead()
    decreases ops
  {
    if ops != [] {
      ChainIsWrites(w, ops[1..], head, Advance(w, fifo, expected), fifo);
    }
  }

  lemma WriteWordsBound(w: Width, ops: seq<Operation>)
    requires AllFit(w, ops) && forall i :: 0 <= i < |ops| ==> !ops[i].IsRead()
    ensures AllBelow(WriteWordsOf(w, ops), Pow256(Alignment(w)))
  {
    hide WriteWord, Fits, Alignment;
    WireBounds(w);
    forall i | 0 <= i < |ops|
      ensures WriteWordsOf(w, ops)[i] < Pow256(Alignment(w))
    {
      WriteWordBound(w, ops[i]);
    }
  }

  lemma AddressesBound(w: Width, ops: seq<Operation>)
    requires AllFit(w, ops)
    ensures AllBelow(Addresses(ops), Pow256(Alignment(w)))
  {
    WireBounds(w);
    hide Alignment;
    forall i | 0 <= i < |ops|
      ensures ops[i].address < Pow256(Alignment(w))
    {
      assert Fits(w, ops[i]);
    }
  }

  lemma RecordWellFormed(w: Width, rba: nat, ops: seq<Operation>, checked: bool, awaiting: nat)
    requires AllFit(w, ops) && rba < 0xFFFF
    ensures WellFormed(w, RecordOf(w, rba, ops, NextPlan(w, ops, checked, awaiting)))
  {
    hide WellFormed, RecordOf, Fits;
    var p := NextPlan(w, ops, checked, awaiting);
    PlanWritesIsChain(w, ops, checked, awaiting);
    assert p.wcount == PlanWrites(w, ops, checked, awaiting).0;
    hide PlanWrites, NextPlan;
    if p.wcount > 0 {
      ChainIsWrites(w, ops[..p.wcount], ops[0], ops[0].address, p.fifo);
    }
    PlannedWellFormed(w, rba, ops, p);
  }

  lemma AddressBound(w: Width, op: Operation)
    requires Fits(w, op)
    ensures op.address < Pow256(Alignment(w))
  {
    WireBounds(w);
    hide Alignment;
  }

  lemma StatusAddressBelow(w: Width)
    ensures AllBelow([8 - w.data], Pow256(Alignment(w)))
  {
    WireBounds(w);
    hide Alignment, Pow256;
  }

  lemma PlannedWellFormed(w: Width, rba: nat, ops: seq<Operation>, p: Plan)
    requires AllFit(w, ops) && rba < 0xFFFF
    requires p.wcount <= 255 && p.rcount <= 255 && p.wcount + p.rcount <= |ops| && (p.status ==> p.rcount == 0)
    requires forall i :: 0 <= i < p.wcount ==> !ops[..p.wcount][i].IsRead()
    ensures WellFormed(w, RecordOf(w, rba, ops, p))
  {
    hide PlanSelect, Fits, Alignment, Pow256, AllBelow;
    var k, n := p.wcount, p.wcount + p.rcount;
    WriteWordsBound(w, ops[..k]);
    AddressesBound(w, ops[k..n]);
    WireBounds(w);
    if k > 0 {
      AddressBound(w, ops[0]);
    }
    StatusAddressBelow(w);
    hide WriteWordsOf, Addresses;
  }

  /** Every record of a cycle fits its header counts and its wire words. */
  lemma {:induction false} CycleWellFormed(w: Width, rba: nat, ops: seq<Operation>, checked: bool, awaiting: nat)
    requires AllFit(w, ops) && rba < 0xFFFF
    ensures AllWellFormed(w, RecordsOf(w, rba, ops, checked, awaiting))
    decreases |ops|, awaiting
  {
    hide NextPlan, RecordOf, WellFormed, Fits;
    if !Finished(ops, checked, awaiting) {
      PlanProgress(w, ops, checked, awaiting);
      var p := NextPlan(w, ops, checked, awaiting);
      RecordWellFormed(w, rba, ops, checked, awaiting);
      CycleWellFormed(w, rba, ops[p.wcount + p.rcount..], checked, p.awaiting);
    }
  }

  // ---------------------------------------------------------------------------
  // The cycle flag
  // ---------------------------------------------------------------------------

  /** CYC is set on the last record and on no other. */
  predicate ClosedOnce(rs: seq<Record>) {
    forall i :: 0 <= i < |rs| ==> (rs[i].cyc <==> i == |rs| - 1)
  }

  lemma LastPlan(w: Width, ops: seq<Operation>, checked: bool, awaiting: nat)
    ensures var p := NextPlan(w, ops, checked, awaiting);
            p.last <==> Finished(ops[p.wcount + p.rcount..], checked, p.awaiting)
  {
    hide PlanWrites, PlanReads;
  }

  lemma CycOfPlan(w: Width, rba: nat, ops: seq<Operation>, p: Plan)
    requires p.wcount + p.rcount <= |ops|
    ensures RecordOf(w, rba, ops, p).cyc == p.last
  {
    hide PlanSelect;
  }

  lemma {:induction false} CycleClosedOnce(w: Width, rba: nat, ops: seq<Operation>, checked: bool, awaiting: nat)
    ensures ClosedOnce(RecordsOf(w, rba, ops, checked, awaiting))
    ensures RecordsOf(w, rba, ops, checked, awaiting) == [] <==> Finished(ops, checked, awaiting)
    decreases |ops|, awaiting
  {
    hide NextPlan, RecordOf;
    if !Finished(ops, checked, awaiting) {
      PlanProgress(w, ops, checked, awaiting);
      LastPlan(w, ops, checked, awaiting);
      var p := NextPlan(w, ops, checked, awaiting);
      CycOfPlan(w, rba, ops, p);
      CycleClosedOnce(w, rba, ops[p.wcount + p.rcount..], checked, p.awaiting);
    }
  }

  // ---------------------------------------------------------------------------
  // Status groups
  // ---------------------------------------------------------------------------

  /** The numbers of bus operations the sender puts before each of its status reads. */
  function SenderGroups(steps: seq<Step>, pending: nat): seq<nat> {
    if steps == [] then []
    else match steps[0]
      case Do(op) => SenderGroups(steps[1..], Charge(op, pending))
      case ReadStatus => [pending] + SenderGroups(steps[1..], 0)
  }

  /** The numbers the receiver of the status words assigns them to, from the operation list alone. */
  function ReceiverGroups(w: Width, total: nat): seq<nat> {
    if total == 0 then []
    else if total <= 8 * w.data then [total]
    else [8 * w.data] + ReceiverGroups(w, total - 8 * w.data)
  }

  /** The two ends split a checked cycle's bus operations into the same groups, whatever config operations intervene. */
  lemma {:induction false} GroupsAgree(w: Width, ops: seq<Operation>, awaiting: nat)
    requires awaiting <= 8 * w.data
    ensures SenderGroups(Trace(w, ops, true, awaiting), awaiting) == ReceiverGroups(w, awaiting + CountBus(ops))
    decreases |ops|, awaiting
  {
    if Finished(ops, true, awaiting) {
    } else if Full(w, true, awaiting) || ops == [] {
      var rest := Trace(w, ops, true, 0);
      assert ([ReadStatus] + rest)[1..] == rest;
      GroupsAgree(w, ops, 0);
    } else {
      var rest := Trace(w, ops[1..], true, Charge(ops[0], awaiting));
      assert ([Do(ops[0])] + rest)[1..] == rest;
      GroupsAgree(w, ops[1..], Charge(ops[0], awaiting));
    }
  }

  lemma {:induction false} GroupsFitRegister(w: Width, total: nat)
    ensures forall i :: 0 <= i < |ReceiverGroups(w, total)| ==> 1 <= ReceiverGroups(w, total)[i] <= 8 * w.data <= 64
  {
    if total > 8 * w.data {
      GroupsFitRegister(w, total - 8 * w.data);
    }
  }

  // ---------------------------------------------------------------------------
  // Config reads
  // ---------------------------------------------------------------------------

  /** The access the caller asked for: every address as given, for the endian given. */
  function Asked(w: Width, rba: nat, op: Operation): Access {
    if op.config && op.IsRead() && op.Size() <= 8 then ConfigRead(op.Size(), op.address, ToConfig(rba))
    else AccessOf(w, rba, op)
  }

  /** A caller can tell beforehand whether a config read will reach the address it names. */
  predicate ReadableConfig(w: Width, op: Operation) {
    op.config && op.IsRead() ==> Endian(op.format) != LITTLE && op.address < Pow256(w.addr)
  }

  lemma MirrorMoves(w: Width, address: nat, size: nat)
    requires Span(size) && size < w.data && address % w.data % size == 0
    ensures Mirror(w, address, size) % w.data != address % w.data
  {
    var d, low := w.data, address % w.data;
    assert low + size <= d && d - low - size != low by {
      if d == 2 {
      } else if d == 4 {
      } else {
        assert d == 8;
      }
    }
    var q := address / d;
    assert Mirror(w, address, size) == d * q + (d - low - size);
    DivMod(Mirror(w, address, size), d, q, d - low - size);
  }

  /** A config read arrives as asked exactly when it is not little-endian and its address fits the port. */
  lemma ConfigReadArrives(w: Width, rba: nat, op: Operation)
    requires Fits(w, op)
    ensures AccessOf(w, rba, op) == Asked(w, rba, op) <==> ReadableConfig(w, op)
  {
    if op.config && op.IsRead() {
      FitsFacts(w, op);
      KeptLow(w, op.address);
      var kept := op.address % Pow256(w.addr);
      if Endian(op.format) == LITTLE {
        MirrorMoves(w, kept, op.Size());
      } else if op.address < Pow256(w.addr) {
        SmallMod(op.address, Pow256(w.addr));
      }
    }
  }

  /** For example: a little-endian read of one byte of config space, which arrives at the opposite end of its word. */
  lemma UnreadableConfig(rba: nat)
    ensures var w, op := Port(4, 4), Operation(ReadVal, true, true, false, 4, 0, LITTLE + 1);
            && Fits(w, op) && !ReadableConfig(w, op)
            && Asked(w, rba, op) == ConfigRead(1, 4, ToConfig(rba)) && AccessOf(w, rba, op) == ConfigRead(1, 7, ToConfig(rba))
  {
    var w: Width, op := Port(4, 4), Operation(ReadVal, true, true, false, 4, 0, LITTLE + 1);
    Pow256Values();
    assert Endian(LITTLE + 1) == LITTLE && op.Size() == 1;
    assert Mirror(w, 4, 1) == 7;
  }

  function AskedStep(w: Width, rba: nat, step: Step): Access {
    match step
    case Do(op) => Asked(w, rba, op)
    case ReadStatus => StepAccess(w, rba, ReadStatus)
  }

  function AskedSteps(w: Width, rba: nat, steps: seq<Step>): (r: seq<Access>)
    ensures |r| == |steps|
  {
    if steps == [] then [] else [AskedStep(w, rba, steps[0])] + AskedSteps(w, rba, steps[1..])
  }

  lemma {:induction false} AskedTrace(w: Width, rba: nat, ops: seq<Operation>, checked: bool, awaiting: nat)
    requires AllFit(w, ops)
    ensures var steps := Trace(w, ops, checked, awaiting);
            StepAccesses(w, rba, steps) == AskedSteps(w, rba, steps)
            <==> forall i :: 0 <= i < |ops| ==> ReadableConfig(w, ops[i])
    decreases |ops|, awaiting
  {
    hide Fits, AccessOf, Asked, ReadableConfig;
    if Finished(ops, checked, awaiting) {
    } else if Full(w, checked, awaiting) || ops == [] {
      var rest := Trace(w, ops, checked, 0);
      assert ([ReadStatus] + rest)[1..] == rest;
      AskedTrace(w, rba, ops, checked, 0);
      AskedCons(w, rba, ReadStatus, rest);
    } else {
      var rest := Trace(w, ops[1..], checked, Charge(ops[0], awaiting));
      assert ([Do(ops[0])] + rest)[1..] == rest;
      AskedTrace(w, rba, ops[1..], checked, Charge(ops[0], awaiting));
      ConfigReadArrives(w, rba, ops[0]);
      AskedCons(w, rba, Do(ops[0]), rest);
      assert forall i :: 0 <= i < |ops| - 1 ==> ops[1..][i] == ops[i + 1];
    }
  }

  lemma AskedCons(w: Width, rba: nat, step: Step, rest: seq<Step>)
    ensures StepAccesses(w, rba, [step] + rest) == AskedSteps(w, rba, [step] + rest)
            <==> StepAccess(w, rba, step) == AskedStep(w, rba, step)
                 && StepAccesses(w, rba, rest) == AskedSteps(w, rba, rest)
  {
    var all := [step] + rest;
    assert all[1..] == rest;
    var a, b := StepAccesses(w, rba, all), AskedSteps(w, rba, all);
    assert a[1..] == StepAccesses(w, rba, rest) && b[1..] == AskedSteps(w, rba, rest);
  }

  /** The records of a cycle perform exactly what was asked, in program order, if and only if every config
      read in it is readable; every other operation always arrives as asked. */
  lemma PackingKeepsAsked(w: Width, rba: nat, ops: seq<Operation>, checked: bool)
    requires AllFit(w, ops)
    ensures MeaningAll(w, RecordsOf(w, rba, ops, checked, 0)) == AskedSteps(w, rba, Trace(w, ops, checked, 0))
            <==> forall i :: 0 <= i < |ops| ==> ReadableConfig(w, ops[i])
  {
    PackingKeepsMeaning(w, rba, ops, checked, 0);
    AskedTrace(w, rba, ops, checked, 0);
  }
}
