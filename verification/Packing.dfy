/** How a cycle's operations are packed into records, and what those records ask for. */
module Packing {
  import opened Seqs
  import opened Words
  import opened Widths
  import opened Select
  import opened Operations
  import opened Records
  import opened Slave

  // ---------------------------------------------------------------------------
  // Reference: one operation at a time
  // ---------------------------------------------------------------------------

  /** A step of a cycle as the remote end should see it. */
  datatype Step = Do(op: Operation) | ReadStatus

  /** As many bus operations await a status bit as one status read can return. */
  predicate Full(w: Width, checked: bool, awaiting: nat) {
    checked && awaiting >= 8 * w.data
  }

  function Charge(op: Operation, awaiting: nat): nat {
    if op.IsBus() then awaiting + 1 else awaiting
  }

  /** Nothing is left to send. */
  predicate Finished(ops: seq<Operation>, checked: bool, awaiting: nat) {
    ops == [] && !(checked && awaiting > 0)
  }

  /** Program order, with a status read whenever the error register is full, and at the end of a checked cycle. */
  function Trace(w: Width, ops: seq<Operation>, checked: bool, awaiting: nat): seq<Step>
    decreases |ops|, awaiting
  {
    if Finished(ops, checked, awaiting) then []
    else if Full(w, checked, awaiting) || ops == [] then [ReadStatus] + Trace(w, ops, checked, 0)
    else [Do(ops[0])] + Trace(w, ops[1..], checked, Charge(ops[0], awaiting))
  }

  /** The address as seen through the opposite endian. */
  function Mirror(w: Width, address: nat, size: nat): nat {
    var low := address % w.data;
    if low + size <= w.data then address - low + (w.data - low - size) else address
  }

  /** The address config space is read at: it always goes through the filtered big-endian form. */
  function ConfigReadAddress(w: Width, op: Operation): nat {
    var kept := op.address % Pow256(w.addr);
    if Endian(op.format) == LITTLE then Mirror(w, kept, op.Size()) else kept
  }

  /** What an operation asks of the remote end; results return to rba. */
  function AccessOf(w: Width, rba: nat, op: Operation): Access {
    var size: Size := if op.Size() <= 8 then op.Size() else 8;
    var other := Mirror(w, op.address, size);
    var b := if Endian(op.format) == LITTLE then other else op.address;
    var l := if Endian(op.format) == BIG then other else op.address;
    if op.IsRead() then
      if op.config then ConfigRead(size, ConfigReadAddress(w, op), ToConfig(rba))
      else BusRead(size, b, l, ToConfig(rba))
    else if op.config then ConfigWrite(size, op.address, op.value)
    else BusWrite(size, b, l, op.value)
  }

  /** A status read takes the low data-width bytes of the error register and returns to rba | 1. */
  function StepAccess(w: Width, rba: nat, step: Step): Access {
    match step
    case Do(op) => AccessOf(w, rba, op)
    case ReadStatus => ConfigRead(w.data, 8 - w.data, ToConfig(rba + 1))
  }

  function StepAccesses(w: Width, rba: nat, steps: seq<Step>): (r: seq<Access>)
    ensures |r| == |steps|
  {
    if steps == [] then [] else [StepAccess(w, rba, steps[0])] + StepAccesses(w, rba, steps[1..])
  }

  lemma {:induction false} StepAccessesConcat(w: Width, rba: nat, a: seq<Step>, b: seq<Step>)
    ensures StepAccesses(w, rba, a + b) == StepAccesses(w, rba, a) + StepAccesses(w, rba, b)
  {
    if a == [] {
      assert a + b == b;
    } else {
      assert (a + b)[1..] == a[1..] + b;
      StepAccessesConcat(w, rba, a[1..], b);
      ConcatAssoc([StepAccess(w, rba, a[0])], StepAccesses(w, rba, a[1..]), StepAccesses(w, rba, b));
    }
  }

  // ---------------------------------------------------------------------------
  // Planning one record
  // ---------------------------------------------------------------------------

  /** op continues a write run started by head, at the expected address. */
  predicate Extends(op: Operation, head: Operation, expected: nat) {
    op.address == expected && !op.IsRead() && op.config == head.config && op.format == head.format
  }

  /** How many of ops continue the run; step is 0 for a FIFO. */
  function WriteRun(w: Width, ops: seq<Operation>, head: Operation, expected: nat, fifo: bool, limit: nat,
                    checked: bool, awaiting: nat): (n: nat)
    ensures n <= |ops| && n <= limit
    decreases ops
  {
    if ops == [] || limit == 0 || Full(w, checked, awaiting) || !Extends(ops[0], head, expected) then 0
    else 1 + WriteRun(w, ops[1..], head, Advance(w, fifo, expected), fifo, limit - 1, checked, Charge(ops[0], awaiting))
  }

  /** op continues a read run started by head. */
  predicate Joins(w: Width, op: Operation, head: Operation) {
    op.IsRead() && op.config == head.config && op.format == head.format
    && op.address % w.data == head.address % w.data
  }

  function ReadRun(w: Width, ops: seq<Operation>, head: Operation, limit: nat, checked: bool, awaiting: nat): (n: nat)
    ensures n <= |ops| && n <= limit
    decreases ops
  {
    if ops == [] || limit == 0 || Full(w, checked, awaiting) || !Joins(w, ops[0], head) then 0
    else 1 + ReadRun(w, ops[1..], head, limit - 1, checked, Charge(ops[0], awaiting))
  }

  /** The writes that open a record, and whether they form a FIFO. */
  function PlanWrites(w: Width, ops: seq<Operation>, checked: bool, awaiting: nat): (r: (nat, bool))
    ensures r.0 <= |ops| && r.0 <= 255
  {
    if Full(w, checked, awaiting) || ops == [] || ops[0].IsRead() then (0, false)
    else
      var head, rest, aw := ops[0], ops[1..], Charge(ops[0], awaiting);
      var same := WriteRun(w, rest, head, head.address, true, 254, checked, aw);
      if same > 0 then (1 + same, true)
      else (1 + WriteRun(w, rest, head, Advance(w, false, head.address), false, 254, checked, aw), false)
  }

  /** The reads that close a record whose first k operations are writes. */
  function PlanReads(w: Width, ops: seq<Operation>, k: nat, checked: bool, awaiting: nat): (r: nat)
    requires k <= |ops|
    ensures k + r <= |ops| && r <= 255
  {
    if Full(w, checked, awaiting) || k == |ops| || !ops[k].IsRead() then 0
    else if k > 0 && (ops[k].format != ops[0].format || ops[k].address % w.data != ops[0].address % w.data) then 0
    else 1 + ReadRun(w, ops[k + 1..], ops[k], 254, checked, Charge(ops[k], awaiting))
  }

  datatype Plan = Plan(wcount: nat, fifo: bool, rcount: nat, status: bool, last: bool, awaiting: nat)

  /** The next record for the remaining operations. */
  function NextPlan(w: Width, ops: seq<Operation>, checked: bool, awaiting: nat): (p: Plan)
    ensures p.wcount + p.rcount <= |ops| && p.wcount <= 255 && p.rcount <= 255
    ensures p.status ==> p.rcount == 0
  {
    var (wcount, fifo) := PlanWrites(w, ops, checked, awaiting);
    var aw1 := awaiting + CountBus(ops[..wcount]);
    var rcount := PlanReads(w, ops, wcount, checked, aw1);
    var aw2 := aw1 + CountBus(ops[wcount..wcount + rcount]);
    var left := |ops| - (wcount + rcount);
    var status := rcount == 0 && (wcount == 0 || ops[0].format == w.data)
                  && (Full(w, checked, aw2) || (left == 0 && checked && aw2 > 0));
    Plan(wcount, fifo, rcount, status, left == 0 && (!checked || aw2 == 0 || status), if status then 0 else aw2)
  }

  /** Every record takes operations or clears the awaiting count. */
  lemma PlanProgress(w: Width, ops: seq<Operation>, checked: bool, awaiting: nat)
    requires !Finished(ops, checked, awaiting)
    ensures var p := NextPlan(w, ops, checked, awaiting);
            p.wcount + p.rcount > 0 || (p.status && awaiting > 0 && p.awaiting == 0)
  {
    var p := NextPlan(w, ops, checked, awaiting);
    if p.wcount == 0 {
      assert ops[0..] == ops;
      assert ops[..0] == [];
      if p.rcount == 0 {
        assert ops[0..0] == [];
      }
    }
  }

  // ---------------------------------------------------------------------------
  // The records of a cycle
  // ---------------------------------------------------------------------------

  /** Bytes by which an operation's datum is shifted inside a word. */
  function OpShift(w: Width, op: Operation): nat {
    var low := op.address % w.data;
    if Endian(op.format) != BIG then low
    else if low + op.Size() <= w.data then w.data - (low + op.Size()) else 0
  }

  function WriteWord(w: Width, op: Operation): nat {
    ShlBytes(op.value, OpShift(w, op))
  }

  function WriteWordsOf(w: Width, ops: seq<Operation>): (r: seq<nat>)
    ensures |r| == |ops|
    ensures forall i :: 0 <= i < |ops| ==> r[i] == WriteWord(w, ops[i])
  {
    if ops == [] then [] else [WriteWord(w, ops[0])] + WriteWordsOf(w, ops[1..])
  }

  function Addresses(ops: seq<Operation>): (r: seq<nat>)
    ensures |r| == |ops|
    ensures forall i :: 0 <= i < |ops| ==> r[i] == ops[i].address
  {
    if ops == [] then [] else [ops[0].address] + Addresses(ops[1..])
  }

  /** The select byte of a planned record. */
  function PlanSelect(w: Width, ops: seq<Operation>, p: Plan): Byte
    requires p.wcount + p.rcount <= |ops|
  {
    if p.wcount + p.rcount == 0 then SelectByte(w.data, 0)
    else SelectByte(if ops[0].Size() <= 8 then ops[0].Size() else 8, OpShift(w, ops[0]))
  }

  /** The record a plan describes. */
  function RecordOf(w: Width, rba: nat, ops: seq<Operation>, p: Plan): Record
    requires p.wcount + p.rcount <= |ops|
  {
    var n := p.wcount + p.rcount;
    Record(
      true, p.status || (p.rcount > 0 && ops[p.wcount].config), true, p.last, p.wcount > 0 && ops[0].config, p.fifo,
      PlanSelect(w, ops, p),
      if p.wcount > 0 then ops[0].address else 0, WriteWordsOf(w, ops[..p.wcount]),
      if p.status then rba + 1 else if p.rcount > 0 then rba else 0,
      if p.status then [8 - w.data] else Addresses(ops[p.wcount..n]))
  }

  function RecordsOf(w: Width, rba: nat, ops: seq<Operation>, checked: bool, awaiting: nat): seq<Record>
    decreases |ops|, awaiting
  {
    if Finished(ops, checked, awaiting) then [] else
      PlanProgress(w, ops, checked, awaiting);
      var p := NextPlan(w, ops, checked, awaiting);
      [RecordOf(w, rba, ops, p)] + RecordsOf(w, rba, ops[p.wcount + p.rcount..], checked, p.awaiting)
  }

  // ---------------------------------------------------------------------------
  // Runs respect the status limit and the run conditions
  // ---------------------------------------------------------------------------

  /** Each of ops was taken while the error register had room. */
  predicate Roomy(w: Width, ops: seq<Operation>, checked: bool, awaiting: nat) {
    ops == [] || (!Full(w, checked, awaiting) && Roomy(w, ops[1..], checked, Charge(ops[0], awaiting)))
  }

  lemma {:induction false} RoomyConcat(w: Width, a: seq<Operation>, b: seq<Operation>, checked: bool, awaiting: nat)
    requires Roomy(w, a, checked, awaiting) && Roomy(w, b, checked, awaiting + CountBus(a))
    ensures Roomy(w, a + b, checked, awaiting)
    decreases a
  {
    if a == [] {
      assert a + b == b;
    } else {
      assert (a + b)[1..] == a[1..] + b;
      RoomyConcat(w, a[1..], b, checked, Charge(a[0], awaiting));
    }
  }

  /** ops is a write run. */
  predicate Chain(w: Width, ops: seq<Operation>, head: Operation, expected: nat, fifo: bool) {
    ops == [] || (Extends(ops[0], head, expected) && Chain(w, ops[1..], head, Advance(w, fifo, expected), fifo))
  }

  lemma {:induction false} WriteRunIsChain(w: Width, ops: seq<Operation>, head: Operation, expected: nat, fifo: bool,
                                           limit: nat, checked: bool, awaiting: nat)
    ensures var n := WriteRun(w, ops, head, expected, fifo, limit, checked, awaiting);
            Chain(w, ops[..n], head, expected, fifo) && Roomy(w, ops[..n], checked, awaiting)
    decreases ops
  {
    var n := WriteRun(w, ops, head, expected, fifo, limit, checked, awaiting);
    if n > 0 {
      WriteRunIsChain(w, ops[1..], head, Advance(w, fifo, expected), fifo, limit - 1, checked, Charge(ops[0], awaiting));
      assert ops[..n][1..] == ops[1..][..n - 1];
    }
  }

  /** ops is a read run. */
  predicate AllJoin(w: Width, ops: seq<Operation>, head: Operation) {
    forall i :: 0 <= i < |ops| ==> Joins(w, ops[i], head)
  }

  lemma {:induction false} ReadRunJoins(w: Width, ops: seq<Operation>, head: Operation, limit: nat, checked: bool,
                                        awaiting: nat)
    ensures var n := ReadRun(w, ops, head, limit, checked, awaiting);
            AllJoin(w, ops[..n], head) && Roomy(w, ops[..n], checked, awaiting)
    decreases ops
  {
    var n := ReadRun(w, ops, head, limit, checked, awaiting);
    if n > 0 {
      ReadRunJoins(w, ops[1..], head, limit - 1, checked, Charge(ops[0], awaiting));
      assert ops[..n][1..] == ops[1..][..n - 1];
    }
  }

  lemma PlanWritesIsChain(w: Width, ops: seq<Operation>, checked: bool, awaiting: nat)
    ensures var (n, fifo) := PlanWrites(w, ops, checked, awaiting);
            && Roomy(w, ops[..n], checked, awaiting)
            && (n > 0 ==> Chain(w, ops[..n], ops[0], ops[0].address, fifo))
  {
    var (n, fifo) := PlanWrites(w, ops, checked, awaiting);
    if n > 0 {
      var head, rest, aw := ops[0], ops[1..], Charge(ops[0], awaiting);
      WriteRunIsChain(w, rest, head, Advance(w, fifo, head.address), fifo, 254, checked, aw);
      assert ops[..n][1..] == rest[..n - 1];
      assert Roomy(w, ops[..n], checked, awaiting);
    }
  }

  lemma PlanReadsJoin(w: Width, ops: seq<Operation>, k: nat, checked: bool, awaiting: nat)
    requires k <= |ops|
    ensures var n := PlanReads(w, ops, k, checked, awaiting);
            && Roomy(w, ops[k..k + n], checked, awaiting)
            && (n > 0 ==> AllJoin(w, ops[k..k + n], ops[k]))
  {
    var n := PlanReads(w, ops, k, checked, awaiting);
    if n > 0 {
      ReadRunJoins(w, ops[k + 1..], ops[k], 254, checked, Charge(ops[k], awaiting));
      assert ops[k..k + n][1..] == ops[k + 1..][..n - 1];
    }
  }

  // ---------------------------------------------------------------------------
  // Packing keeps the trace
  // ---------------------------------------------------------------------------

  function Dos(ops: seq<Operation>): (r: seq<Step>)
    ensures |r| == |ops|
  {
    if ops == [] then [] else [Do(ops[0])] + Dos(ops[1..])
  }

  /** The steps one record carries. */
  function PlanSteps(ops: seq<Operation>, p: Plan): seq<Step>
    requires p.wcount + p.rcount <= |ops|
  {
    Dos(ops[..p.wcount + p.rcount]) + (if p.status then [ReadStatus] else [])
  }

  lemma {:induction false} TraceOfRoomy(w: Width, a: seq<Operation>, b: seq<Operation>, checked: bool, awaiting: nat)
    requires Roomy(w, a, checked, awaiting)
    ensures Trace(w, a + b, checked, awaiting) == Dos(a) + Trace(w, b, checked, awaiting + CountBus(a))
    decreases a
  {
    if a == [] {
      assert a + b == b;
      NilConcat(Trace(w, b, checked, awaiting));
    } else {
      assert (a + b)[1..] == a[1..] + b;
      var aw := Charge(a[0], awaiting);
      TraceOfRoomy(w, a[1..], b, checked, aw);
      ConcatAssoc([Do(a[0])], Dos(a[1..]), Trace(w, b, checked, aw + CountBus(a[1..])));
    }
  }

  lemma PlanIsRoomy(w: Width, ops: seq<Operation>, checked: bool, awaiting: nat)
    ensures var p := NextPlan(w, ops, checked, awaiting);
            var n := p.wcount + p.rcount;
            && Roomy(w, ops[..n], checked, awaiting)
            && p.awaiting == (if p.status then 0 else awaiting + CountBus(ops[..n]))
  {
    var p := NextPlan(w, ops, checked, awaiting);
    var n := p.wcount + p.rcount;
    PlanWritesIsChain(w, ops, checked, awaiting);
    var aw := awaiting + CountBus(ops[..p.wcount]);
    PlanReadsJoin(w, ops, p.wcount, checked, aw);
    RoomyJoin(w, ops, p.wcount, n, checked, awaiting);
  }

  lemma RoomyJoin(w: Width, ops: seq<Operation>, k: nat, n: nat, checked: bool, awaiting: nat)
    requires k <= n <= |ops|
    requires Roomy(w, ops[..k], checked, awaiting) && Roomy(w, ops[k..n], checked, awaiting + CountBus(ops[..k]))
    ensures Roomy(w, ops[..n], checked, awaiting)
    ensures CountBus(ops[..n]) == CountBus(ops[..k]) + CountBus(ops[k..n])
  {
    assert ops[..n] == ops[..k] + ops[k..n];
    RoomyConcat(w, ops[..k], ops[k..n], checked, awaiting);
    CountBusConcat(ops[..k], ops[k..n]);
  }

  /** The trace is the record's steps followed by the trace of what is left. */
  lemma TraceOfPlan(w: Width, ops: seq<Operation>, checked: bool, awaiting: nat)
    requires !Finished(ops, checked, awaiting)
    ensures var p := NextPlan(w, ops, checked, awaiting);
            Trace(w, ops, checked, awaiting)
            == PlanSteps(ops, p) + Trace(w, ops[p.wcount + p.rcount..], checked, p.awaiting)
  {
    var p := NextPlan(w, ops, checked, awaiting);
    var n := p.wcount + p.rcount;
    PlanIsRoomy(w, ops, checked, awaiting);
    assert ops == ops[..n] + ops[n..];
    TraceOfRoomy(w, ops[..n], ops[n..], checked, awaiting);
    var aw := awaiting + CountBus(ops[..n]);
    CountBusSplit(ops, 0, p.wcount, n);
    assert ops[0..n] == ops[..n] && ops[0..p.wcount] == ops[..p.wcount];
    if p.status {
      assert Trace(w, ops[n..], checked, aw) == [ReadStatus] + Trace(w, ops[n..], checked, 0);
      ConcatAssoc(Dos(ops[..n]), [ReadStatus], Trace(w, ops[n..], checked, 0));
    } else {
      NilConcat(Dos(ops[..n]));
    }
  }

  // ---------------------------------------------------------------------------
  // A record means its steps
  // ---------------------------------------------------------------------------

  /** The select lines of a record that starts with op. */
  function LinesOf(w: Width, op: Operation): Lines {
    Lines(true, op.Size(), OpShift(w, op))
  }

  lemma FitsFacts(w: Width, op: Operation)
    requires Fits(w, op)
    ensures Span(op.Size()) && op.Size() <= w.data
    ensures var low := op.address % w.data;
            && low % op.Size() == 0 && low + op.Size() <= w.data
            && OpShift(w, op) + op.Size() <= w.data && OpShift(w, op) % op.Size() == 0
            && (Endian(op.format) != BIG && Endian(op.format) != LITTLE ==> op.Size() == w.data && low == 0)
  {
    var d, size := w.data, op.Size();
    var q := op.address / d;
    assert op.address == d * q + op.address % d;
    if size == d {
      assert op.format == size;
    } else if d == 8 {
    } else if d == 4 {
    } else {
      assert d == 2 && size == 1;
    }
  }

  lemma DecodeOfOp(w: Width, op: Operation)
    requires Fits(w, op)
    ensures Decode(w.data, SelectByte(op.Size(), OpShift(w, op))) == LinesOf(w, op)
  {
    FitsFacts(w, op);
    DecodeOfSelect(w.data, op.Size(), OpShift(w, op));
  }

  lemma DatumOfWord(w: Width, op: Operation)
    requires Fits(w, op) && !op.IsRead()
    ensures Datum(LinesOf(w, op), WriteWord(w, op)) == op.value
  {
    ShrOfShlBytes(op.value, OpShift(w, op));
    SmallMod(op.value, Pow256(op.Size()));
  }

  /** The two bus forms of an address, for lines d. */
  function BigForm(w: Width, d: Lines, address: nat): nat {
    address - address % w.data + LowBig(w, d)
  }

  function LittleForm(w: Width, d: Lines, address: nat): nat {
    address - address % w.data + LowLittle(d)
  }

  lemma FormsOfOp(w: Width, op: Operation)
    requires Fits(w, op)
    ensures var d, other := LinesOf(w, op), Mirror(w, op.address, op.Size());
            && BigForm(w, d, op.address) == (if Endian(op.format) == LITTLE then other else op.address)
            && LittleForm(w, d, op.address) == (if Endian(op.format) == BIG then other else op.address)
  {
    FitsFacts(w, op);
  }

  lemma AdvanceForms(w: Width, d: Lines, fifo: bool, address: nat)
    requires d.shift + d.size <= w.data && d.size > 0 && address < WORD
    ensures Advance(w, fifo, BigForm(w, d, address)) == BigForm(w, d, Advance(w, fifo, address))
    ensures Advance(w, fifo, LittleForm(w, d, address)) == LittleForm(w, d, Advance(w, fifo, address))
    ensures Advance(w, fifo, address) < WORD && Advance(w, fifo, address) % w.data == address % w.data
  {
    assert LowBig(w, d) < w.data && LowLittle(d) < w.data;
    hide LowBig, LowLittle;
    AdvanceBase(w.data, LowBig(w, d), address);
    AdvanceBase(w.data, LowLittle(d), address);
  }

  /** Stepping by the port width, modulo 2^64, keeps the bits below the width. */
  lemma AdvanceBase(d: nat, low: nat, address: nat)
    requires Span(d) && low < d && address < WORD
    ensures var next := (address + d) % WORD;
            next % d == address % d && (address - address % d + low + d) % WORD == next - next % d + low
  {
    assert address == d * (address / d) + address % d;
    WordMultiple(d);
    QuotientBelow(address, d, WORD / d);
    AdvanceDigits(d, WORD / d, address / d, address % d, low);
  }

  lemma AdvanceDigits(d: nat, m: nat, q: nat, r: nat, low: nat)
    requires low < d && r < d && q < m && WORD == d * m
    ensures var next := (d * q + r + d) % WORD;
            next % d == r && (d * q + low + d) % WORD == next - r + low
  {
    if q + 1 < m {
      StepInside(d, m, q, r);
      StepInside(d, m, q, low);
    } else {
      StepAround(d, m, q, r);
      StepAround(d, m, q, low);
    }
  }

  lemma WordMultiple(d: nat)
    requires Span(d)
    ensures WORD == d * (WORD / d)
  {
  }

  lemma QuotientBelow(x: nat, d: nat, m: nat)
    requires d > 0 && x < d * m
    ensures x / d < m
  {
    var q := x / d;
    assert x == d * q + x % d;
    if q > m {
      ProductAtLeast(d, q - m);
    }
  }

  lemma StepInside(d: nat, m: nat, q: nat, r: nat)
    requires WORD == d * m && q + 1 < m && r < d
    ensures (d * q + r + d) % WORD == d * q + d + r
    ensures (d * q + d + r) % d == r && (d * q + r) % d == r
  {
    assert d * m == d * (q + 1) + d * (m - q - 1);
    assert d * (q + 1) == d * q + d;
    ProductAtLeast(d, m - q - 1);
    SmallMod(d * q + r + d, WORD);
    DivMod(d * q + d + r, d, q + 1, r);
    DivMod(d * q + r, d, q, r);
  }

  lemma StepAround(d: nat, m: nat, q: nat, r: nat)
    requires WORD == d * m && q + 1 == m && r < d
    ensures (d * q + r + d) % WORD == r
    ensures r % d == r && (d * q + r) % d == r
  {
    assert d * (q + 1) == d * q + d;
    DivMod(d * q + r + d, WORD, 1, r);
    DivMod(r, d, 0, r);
    DivMod(d * q + r, d, q, r);
  }

  lemma FilterOfBus(w: Width, op: Operation)
    requires Fits(w, op) && op.IsBus()
    ensures Filter(w, op.address) == op.address - op.address % w.data
    ensures op.address < WORD
  {
    SmallMod(op.address, Pow256(w.addr));
    Pow256Grows(w.addr, 8);
    Pow256Values();
  }

  /** The first address of a run of writes, in the form the receiver holds it. */
  predicate RunForms(w: Width, op: Operation, a: nat, b: nat, l: nat) {
    op.config || (b == BigForm(w, LinesOf(w, op), a) && l == LittleForm(w, LinesOf(w, op), a))
  }

  /** A chained run of writes is performed operation by operation. */
  lemma {:induction false} ChainMeans(w: Width, rba: nat, ops: seq<Operation>, head: Operation, a: nat, b: nat, l: nat,
                                      fifo: bool)
    requires AllFit(w, ops) && Fits(w, head) && Chain(w, ops, head, a, fifo)
    requires a < WORD && a % w.data == head.address % w.data && RunForms(w, head, a, b, l)
    ensures WriteMeaning(w, LinesOf(w, head), head.config, fifo, a, b, l, WriteWordsOf(w, ops))
            == StepAccesses(w, rba, Dos(ops))
    decreases ops
  {
    if ops != [] {
      var op, d := ops[0], LinesOf(w, head);
      assert LinesOf(w, op) == d;
      DatumOfWord(w, op);
      FormsOfOp(w, op);
      FitsFacts(w, op);
      AdvanceForms(w, d, fifo, a);
      ChainMeans(w, rba, ops[1..], head, Advance(w, fifo, a), Advance(w, fifo, b), Advance(w, fifo, l), fifo);
    }
  }

  lemma ConfigReadForm(w: Width, op: Operation)
    requires Fits(w, op) && op.config && op.IsRead()
    ensures Filter(w, op.address) + LowBig(w, LinesOf(w, op)) == ConfigReadAddress(w, op)
  {
    FitsFacts(w, op);
    KeptLow(w, op.address);
  }

  /** A run of reads is performed operation by operation. */
  lemma {:induction false} JoinedMeans(w: Width, rba: nat, ops: seq<Operation>, head: Operation, b: nat, l: nat)
    requires AllFit(w, ops) && Fits(w, head) && AllJoin(w, ops, head)
    ensures ReadMeaning(w, LinesOf(w, head), head.config, true, true, rba, b, l, Addresses(ops))
            == StepAccesses(w, rba, Dos(ops))
    decreases ops
  {
    hide OpShift, LowBig, LowLittle, Mirror, Filter, Fits, AccessOf, LinesOf;
    if ops != [] {
      assert Joins(w, ops[0], head);
      JoinedFirst(w, rba, ops[0], head);
      assert AllJoin(w, ops[1..], head) by {
        assert forall i :: 0 <= i < |ops| - 1 ==> ops[1..][i] == ops[i + 1];
      }
      JoinedMeans(w, rba, ops[1..], head, b, l);
    }
  }

  lemma JoinedFirst(w: Width, rba: nat, op: Operation, head: Operation)
    requires Fits(w, op) && Joins(w, op, head)
    ensures var d, base := LinesOf(w, head), Filter(w, op.address);
            && d.ok && d.size <= 8 && d.size > 0
            && AccessOf(w, rba, op)
               == if op.config then ConfigRead(d.size, base + LowBig(w, d), ToConfig(rba))
                  else BusRead(d.size, base + LowBig(w, d), base + LowLittle(d), ToConfig(rba))
  {
    hide Mirror, Filter;
    assert LinesOf(w, op) == LinesOf(w, head);
    assert op.Size() <= 8 by { FitsFacts(w, op); }
    if op.config {
      ConfigReadForm(w, op);
    } else {
      FilterOfBus(w, op);
      FormsOfOp(w, op);
    }
  }

  lemma {:induction false} DosConcat(a: seq<Operation>, b: seq<Operation>)
    ensures Dos(a + b) == Dos(a) + Dos(b)
  {
    if a == [] {
      assert a + b == b;
    } else {
      assert (a + b)[1..] == a[1..] + b;
      DosConcat(a[1..], b);
      ConcatAssoc([Do(a[0])], Dos(a[1..]), Dos(b));
    }
  }

  lemma WritesMeanSteps(w: Width, rba: nat, ops: seq<Operation>, checked: bool, awaiting: nat)
    requires AllFit(w, ops)
    ensures var (k, fifo) := PlanWrites(w, ops, checked, awaiting);
            k > 0 ==> WritesFrom(w, LinesOf(w, ops[0]), ops[0].config, fifo, ops[0].address, WriteWordsOf(w, ops[..k]))
                      == StepAccesses(w, rba, Dos(ops[..k]))
  {
    hide OpShift, LowBig, LowLittle, Mirror, AccessOf, Full, WriteMeaning, Fits, PlanWrites;
    var (k, fifo) := PlanWrites(w, ops, checked, awaiting);
    if k > 0 {
      var head := ops[0];
      PlanWritesIsChain(w, ops, checked, awaiting);
      FitsFacts(w, head);
      if head.IsBus() {
        FilterOfBus(w, head);
      }
      ConfigAddressIsWord(w, head);
      assert AllFit(w, ops[..k]);
      var d, base := LinesOf(w, head), Filter(w, head.address);
      ChainMeans(w, rba, ops[..k], head, head.address, base + LowBig(w, d), base + LowLittle(d), fifo);
    }
  }

  lemma ConfigAddressIsWord(w: Width, op: Operation)
    requires Fits(w, op)
    ensures op.address < WORD
  {
    if op.IsBus() {
      FilterOfBus(w, op);
    }
  }

  /** Reads in one record share the lines of its first operation. */
  lemma ReadsShareLines(w: Width, ops: seq<Operation>, k: nat, checked: bool, awaiting: nat)
    requires k < |ops| && PlanReads(w, ops, k, checked, awaiting) > 0
    ensures LinesOf(w, ops[k]) == LinesOf(w, ops[0])
  {
  }

  lemma ReadsMeanSteps(w: Width, rba: nat, ops: seq<Operation>, k: nat, checked: bool, awaiting: nat)
    requires AllFit(w, ops) && k <= |ops|
    ensures var n := PlanReads(w, ops, k, checked, awaiting);
            n > 0 ==> ReadsFrom(w, LinesOf(w, ops[0]), ops[k].config, true, true, rba, Addresses(ops[k..k + n]))
                      == StepAccesses(w, rba, Dos(ops[k..k + n]))
  {
    var n := PlanReads(w, ops, k, checked, awaiting);
    if n > 0 {
      ReadsShareLines(w, ops, k, checked, awaiting);
      PlanReadsJoin(w, ops, k, checked, awaiting);
      FitsFacts(w, ops[0]);
      assert AllFit(w, ops[k..k + n]);
      var d, back := LinesOf(w, ops[k]), Filter(w, rba);
      JoinedMeans(w, rba, ops[k..k + n], ops[k], back + LowBig(w, d), back + LowLittle(d));
    }
  }

  lemma StatusMeansStep(w: Width, rba: nat)
    ensures ReadsFrom(w, Lines(true, w.data, 0), true, true, true, rba + 1, [8 - w.data])
            == [StepAccess(w, rba, ReadStatus)]
  {
    StatusAddress(w);
    assert [8 - w.data][1..] == [];
  }

  lemma StatusAddress(w: Width)
    ensures Filter(w, 8 - w.data) == 8 - w.data
  {
    Pow256Values();
    SmallMod(8 - w.data, Pow256(w.addr));
  }

  /** The lines a receiver recovers from it. */
  function PlanLines(w: Width, ops: seq<Operation>, p: Plan): Lines {
    if p.wcount + p.rcount == 0 || ops == [] then Lines(true, w.data, 0) else LinesOf(w, ops[0])
  }

  lemma DecodeOfPlan(w: Width, ops: seq<Operation>, p: Plan)
    requires AllFit(w, ops) && p.wcount + p.rcount <= |ops|
    ensures Decode(w.data, PlanSelect(w, ops, p)) == PlanLines(w, ops, p)
    ensures PlanLines(w, ops, p).size <= 8
  {
    if p.wcount + p.rcount == 0 {
      DecodeOfSelect(w.data, w.data, 0);
    } else {
      FitsFacts(w, ops[0]);
      DecodeOfOp(w, ops[0]);
    }
  }

  /** A status read shares a record only with full-width writes. */
  lemma StatusLines(w: Width, ops: seq<Operation>, checked: bool, awaiting: nat)
    requires AllFit(w, ops) && NextPlan(w, ops, checked, awaiting).status
    ensures PlanLines(w, ops, NextPlan(w, ops, checked, awaiting)) == Lines(true, w.data, 0)
  {
    if ops != [] {
      FitsFacts(w, ops[0]);
    }
  }

  lemma RecordReadsMean(w: Width, rba: nat, ops: seq<Operation>, checked: bool, awaiting: nat)
    requires AllFit(w, ops)
    ensures var p := NextPlan(w, ops, checked, awaiting);
            var r := RecordOf(w, rba, ops, p);
            var d := PlanLines(w, ops, p);
            && d.size <= 8
            && ReadsFrom(w, d, r.rca, r.bca, r.rff, r.raddr, r.raddrs)
               == if p.status then [StepAccess(w, rba, ReadStatus)]
                  else StepAccesses(w, rba, Dos(ops[p.wcount..p.wcount + p.rcount]))
  {
    var p := NextPlan(w, ops, checked, awaiting);
    DecodeOfPlan(w, ops, p);
    if p.status {
      StatusLines(w, ops, checked, awaiting);
      StatusMeansStep(w, rba);
    } else if p.rcount > 0 {
      PlanReadsMean(w, rba, ops, checked, awaiting);
    } else {
      assert ops[p.wcount..p.wcount] == [];
    }
  }

  lemma PlanReadsMean(w: Width, rba: nat, ops: seq<Operation>, checked: bool, awaiting: nat)
    requires AllFit(w, ops) && NextPlan(w, ops, checked, awaiting).rcount > 0
    ensures var p := NextPlan(w, ops, checked, awaiting);
            var d := LinesOf(w, ops[0]);
            && d.size <= 8
            && ReadsFrom(w, d, ops[p.wcount].config, true, true, rba, Addresses(ops[p.wcount..p.wcount + p.rcount]))
               == StepAccesses(w, rba, Dos(ops[p.wcount..p.wcount + p.rcount]))
  {
    hide ReadsFrom, OpShift, PlanReads, PlanWrites, StepAccesses, Fits;
    var k := NextPlan(w, ops, checked, awaiting).wcount;
    FitsFacts(w, ops[0]);
    ReadsMeanSteps(w, rba, ops, k, checked, awaiting + CountBus(ops[..k]));
  }

  lemma RecordWritesMean(w: Width, rba: nat, ops: seq<Operation>, checked: bool, awaiting: nat)
    requires AllFit(w, ops)
    ensures var p := NextPlan(w, ops, checked, awaiting);
            var r := RecordOf(w, rba, ops, p);
            var d := PlanLines(w, ops, p);
            && d.size <= 8
            && WritesFrom(w, d, r.wca, r.wff, r.waddr, r.wvals) == StepAccesses(w, rba, Dos(ops[..p.wcount]))
  {
    var p := NextPlan(w, ops, checked, awaiting);
    DecodeOfPlan(w, ops, p);
    if p.wcount > 0 {
      WritesMeanSteps(w, rba, ops, checked, awaiting);
    }
  }

  /** Read by the other end, a record performs its steps in program order. */
  lemma RecordMeansSteps(w: Width, rba: nat, ops: seq<Operation>, checked: bool, awaiting: nat)
    requires AllFit(w, ops)
    ensures var p := NextPlan(w, ops, checked, awaiting);
            Meaning(w, RecordOf(w, rba, ops, p)) == StepAccesses(w, rba, PlanSteps(ops, p))
  {
    var p := NextPlan(w, ops, checked, awaiting);
    hide NextPlan, PlanSelect, PlanLines, Decode, WritesFrom, ReadsFrom, StepAccess, PlanSteps, StepAccesses, Dos;
    assert RecordOf(w, rba, ops, p).select == PlanSelect(w, ops, p);
    hide RecordOf;
    DecodeOfPlan(w, ops, p);
    RecordWritesMean(w, rba, ops, checked, awaiting);
    RecordReadsMean(w, rba, ops, checked, awaiting);
    PlanStepAccesses(w, rba, ops, p);
  }

  lemma PlanStepAccesses(w: Width, rba: nat, ops: seq<Operation>, p: Plan)
    requires p.wcount + p.rcount <= |ops| && (p.status ==> p.rcount == 0)
    ensures StepAccesses(w, rba, PlanSteps(ops, p))
            == StepAccesses(w, rba, Dos(ops[..p.wcount]))
               + if p.status then [StepAccess(w, rba, ReadStatus)]
                 else StepAccesses(w, rba, Dos(ops[p.wcount..p.wcount + p.rcount]))
  {
    var k, n := p.wcount, p.wcount + p.rcount;
    if p.status {
      assert StepAccesses(w, rba, [ReadStatus]) == [StepAccess(w, rba, ReadStatus)];
      StepAccessesConcat(w, rba, Dos(ops[..k]), [ReadStatus]);
    } else {
      StepAccessesSplit(w, rba, ops, k, n);
      NilConcat(Dos(ops[..n]));
    }
  }

  lemma StepAccessesSplit(w: Width, rba: nat, ops: seq<Operation>, k: nat, n: nat)
    requires k <= n <= |ops|
    ensures StepAccesses(w, rba, Dos(ops[..n]))
            == StepAccesses(w, rba, Dos(ops[..k])) + StepAccesses(w, rba, Dos(ops[k..n]))
  {
    assert ops[..n] == ops[..k] + ops[k..n];
    DosConcat(ops[..k], ops[k..n]);
    StepAccessesConcat(w, rba, Dos(ops[..k]), Dos(ops[k..n]));
  }

  /** Packing preserves meaning: the records of a cycle perform its operations in program order,
      with status reads exactly where the one-at-a-time reference puts them. */
  lemma {:induction false} PackingKeepsMeaning(w: Width, rba: nat, ops: seq<Operation>, checked: bool, awaiting: nat)
    requires AllFit(w, ops)
    ensures MeaningAll(w, RecordsOf(w, rba, ops, checked, awaiting))
            == StepAccesses(w, rba, Trace(w, ops, checked, awaiting))
    decreases |ops|, awaiting
  {
    hide NextPlan, RecordOf, Meaning, StepAccess;
    if !Finished(ops, checked, awaiting) {
      PlanProgress(w, ops, checked, awaiting);
      var p := NextPlan(w, ops, checked, awaiting);
      var rest := ops[p.wcount + p.rcount..];
      var more := RecordsOf(w, rba, rest, checked, p.awaiting);
      assert MeaningAll(w, more) == StepAccesses(w, rba, Trace(w, rest, checked, p.awaiting)) by {
        PackingKeepsMeaning(w, rba, rest, checked, p.awaiting);
      }
      assert MeaningAll(w, [RecordOf(w, rba, ops, p)] + more)
             == StepAccesses(w, rba, Trace(w, ops, checked, awaiting)) by {
        PackingStep(w, rba, ops, checked, awaiting, more);
      }
      RecordsOfStep(w, rba, ops, checked, awaiting);
    }
  }

  lemma RecordsOfStep(w: Width, rba: nat, ops: seq<Operation>, checked: bool, awaiting: nat)
    requires !Finished(ops, checked, awaiting)
    ensures var p := NextPlan(w, ops, checked, awaiting);
            RecordsOf(w, rba, ops, checked, awaiting)
            == [RecordOf(w, rba, ops, p)] + RecordsOf(w, rba, ops[p.wcount + p.rcount..], checked, p.awaiting)
  {
    hide NextPlan, RecordOf;
  }

  lemma PackingStep(w: Width, rba: nat, ops: seq<Operation>, checked: bool, awaiting: nat, more: seq<Record>)
    requires AllFit(w, ops) && !Finished(ops, checked, awaiting)
    ensures var p := NextPlan(w, ops, checked, awaiting);
            var rest := ops[p.wcount + p.rcount..];
            MeaningAll(w, more) == StepAccesses(w, rba, Trace(w, rest, checked, p.awaiting))
            ==> MeaningAll(w, [RecordOf(w, rba, ops, p)] + more) == StepAccesses(w, rba, Trace(w, ops, checked, awaiting))
  {
    hide NextPlan, RecordOf, Meaning, StepAccess, PlanSteps;
    var p := NextPlan(w, ops, checked, awaiting);
    var rest := ops[p.wcount + p.rcount..];
    RecordMeansSteps(w, rba, ops, checked, awaiting);
    TraceOfPlan(w, ops, checked, awaiting);
    StepAccessesConcat(w, rba, PlanSteps(ops, p), Trace(w, rest, checked, p.awaiting));
    MeaningAllCons(w, RecordOf(w, rba, ops, p), more);
  }

  lemma MeaningAllCons(w: Width, r: Record, more: seq<Record>)
    ensures MeaningAll(w, [r] + more) == Meaning(w, r) + MeaningAll(w, more)
  {
    assert ([r] + more)[1..] == more;
  }
}
