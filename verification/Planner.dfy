/** The sender's counting loops: how many operations the next record takes. */
module Planner {
  import opened Words
  import opened Widths
  import opened Operations
  import opened Slave
  import opened Packing

  /** More operations than there can be list cells; the limit of an unchecked cycle. */
  const UNLIMITED: nat := 0xFFFF_FFFF

  function MaxOps(w: Width, checked: bool): nat {
    if checked then 8 * w.data else UNLIMITED
  }

  /** The list is no longer than 16-bit handles allow, so an unchecked count never reaches its limit. */
  predicate Countable(ops: seq<Operation>, from: nat, checked: bool, awaiting: nat) {
    from <= |ops| && |ops| < 0x1_0000 && (!checked ==> awaiting <= from)
  }

  lemma FullIsLimit(w: Width, ops: seq<Operation>, i: nat, checked: bool, awaiting: nat)
    requires Countable(ops, i, checked, awaiting)
    ensures awaiting >= MaxOps(w, checked) <==> Full(w, checked, awaiting)
  {
  }

  /** The address bits below the port width. */
  lemma LowBits(w: Width, address: nat)
    ensures And(address, w.data - 1) == address % w.data
  {
    Pow2Values();
    AndMask(address, BitIndex(w.data), 0);
  }

  /** Extends a write run from position start: equal addresses for a FIFO, ascending ones otherwise. */
  method ChainWrites(w: Width, ops: seq<Operation>, start: nat, head: Operation, fifo: bool, expected: nat, count0: nat,
                     checked: bool, awaiting0: nat)
    returns (count: nat, scan: nat, awaiting: nat)
    requires Countable(ops, start, checked, awaiting0) && count0 <= 255
    ensures count == count0 + WriteRun(w, ops[start..], head, expected, fifo, 255 - count0, checked, awaiting0)
    ensures start <= scan <= |ops| && scan - start == count - count0
    ensures awaiting == awaiting0 + CountBus(ops[start..scan])
    ensures Countable(ops, scan, checked, awaiting)
  {
    hide CountBus, WriteRun, Full, MaxOps, Advance;
    count, scan, awaiting := count0, start, awaiting0;
    var bwa: nat := expected;
    NoneCounted(ops, start);
    while scan < |ops|
      invariant start <= scan <= |ops| && scan - start == count - count0 && count <= 255
      invariant awaiting == awaiting0 + CountBus(ops[start..scan])
      invariant Countable(ops, scan, checked, awaiting)
      invariant WriteRun(w, ops[start..], head, expected, fifo, 255 - count0, checked, awaiting0)
                == (count - count0) + WriteRun(w, ops[scan..], head, bwa, fifo, 255 - count, checked, awaiting)
    {
      var op := ops[scan];
      FullIsLimit(w, ops, scan, checked, awaiting);
      WriteRunStep(w, ops, scan, head, bwa, fifo, 255 - count, checked, awaiting);
      if op.address != bwa || op.IsRead() || op.config != head.config || op.format != head.format
         || count >= 255 || awaiting >= MaxOps(w, checked) {
        break;
      }
      CountNext(ops, start, scan);
      bwa := Advance(w, fifo, bwa);
      if !head.config {
        awaiting := awaiting + 1;
      }
      count, scan := count + 1, scan + 1;
    }
    if scan == |ops| {
      NoRun(w, ops[scan..], head, bwa, fifo, 255 - count, checked, awaiting);
    }
  }

  lemma NoRun(w: Width, rest: seq<Operation>, head: Operation, expected: nat, fifo: bool, limit: nat, checked: bool,
              awaiting: nat)
    ensures rest == [] ==> WriteRun(w, rest, head, expected, fifo, limit, checked, awaiting) == 0
  {
  }

  /** What the operation at scan does to a write run: it ends it, or joins it. */
  lemma WriteRunStep(w: Width, ops: seq<Operation>, scan: nat, head: Operation, expected: nat, fifo: bool, limit: nat,
                     checked: bool, awaiting: nat)
    requires scan < |ops|
    ensures WriteRun(w, ops[scan..], head, expected, fifo, limit, checked, awaiting)
            == if limit == 0 || Full(w, checked, awaiting) || !Extends(ops[scan], head, expected) then 0
               else 1 + WriteRun(w, ops[scan + 1..], head, Advance(w, fifo, expected), fifo, limit - 1, checked,
                                 Charge(ops[scan], awaiting))
  {
    assert ops[scan..][0] == ops[scan] && ops[scan..][1..] == ops[scan + 1..];
    hide Advance, Full;
  }

  /** The writes that open the next record. */
  method CountWrites(w: Width, ops: seq<Operation>, from: nat, checked: bool, awaiting0: nat)
    returns (wcount: nat, fifo: bool, scan: nat, awaiting: nat)
    requires Countable(ops, from, checked, awaiting0)
    ensures (wcount, fifo) == PlanWrites(w, ops[from..], checked, awaiting0)
    ensures scan == from + wcount <= |ops|
    ensures awaiting == awaiting0 + CountBus(ops[from..scan])
    ensures Countable(ops, scan, checked, awaiting)
  {
    wcount, fifo, scan, awaiting := 0, false, from, awaiting0;
    FullIsLimit(w, ops, from, checked, awaiting0);
    NoneCounted(ops, from);
    NoWrites(w, ops[from..], checked, awaiting0);
    hide CountBus, PlanWrites, MaxOps, Full, WriteJoin;
    if awaiting >= MaxOps(w, checked) || from == |ops| || ops[from].IsRead() {
      return;
    }
    if !ops[from].config {
      awaiting := awaiting + 1;
    }
    ghost var aw := awaiting;
    SomeWrites(w, ops[from..], checked, awaiting0, aw);
    wcount, fifo, scan, awaiting := JoinWrites(w, ops, from, checked, awaiting);
    FirstCounted(ops, from, scan);
  }

  /** Joins further writes to the one at position from: those to the same address, or those to the following ones. */
  method JoinWrites(w: Width, ops: seq<Operation>, from: nat, checked: bool, awaiting0: nat)
    returns (wcount: nat, fifo: bool, scan: nat, awaiting: nat)
    requires from < |ops| && Countable(ops, from + 1, checked, awaiting0)
    ensures (wcount, fifo) == WriteJoin(w, ops[from], ops[from + 1..], checked, awaiting0)
    ensures wcount >= 1 && scan == from + wcount <= |ops|
    ensures awaiting == awaiting0 + CountBus(ops[from + 1..scan])
    ensures Countable(ops, scan, checked, awaiting)
  {
    var head := ops[from];
    wcount, fifo, scan, awaiting := 1, false, from + 1, awaiting0;
    FullIsLimit(w, ops, scan, checked, awaiting);
    NoneCounted(ops, scan);
    hide CountBus, WriteRun, MaxOps, Full;
    assert scan < |ops| ==> ops[from + 1..][0] == ops[scan];
    if awaiting >= MaxOps(w, checked) || scan == |ops| || ops[scan].IsRead() || ops[scan].config != head.config
       || ops[scan].format != head.format {
      // only a single write
    } else if ops[scan].address == head.address {
      fifo := true;
      wcount, scan, awaiting := ChainWrites(w, ops, scan, head, true, head.address, 1, checked, awaiting);
    } else if ops[scan].address == (head.address + w.data) % WORD {
      wcount, scan, awaiting := ChainWrites(w, ops, scan, head, false, (head.address + w.data) % WORD, 1, checked, awaiting);
    }
  }

  /** How many writes head and the writes in rest make up, as the next operation decides: a FIFO, a sequence, or head
      alone. */
  function WriteJoin(w: Width, head: Operation, rest: seq<Operation>, checked: bool, awaiting: nat): (nat, bool) {
    var next := (head.address + w.data) % WORD;
    if Full(w, checked, awaiting) || rest == [] || rest[0].IsRead() || rest[0].config != head.config
       || rest[0].format != head.format then (1, false)
    else if rest[0].address == head.address
    then (1 + WriteRun(w, rest, head, head.address, true, 254, checked, awaiting), true)
    else if rest[0].address == next then (1 + WriteRun(w, rest, head, next, false, 254, checked, awaiting), false)
    else (1, false)
  }

  lemma NoWrites(w: Width, ops: seq<Operation>, checked: bool, awaiting: nat)
    ensures Full(w, checked, awaiting) || ops == [] || ops[0].IsRead() ==> PlanWrites(w, ops, checked, awaiting) == (0, false)
  {
  }

  /** The code's three cases are the plan's. */
  lemma SomeWrites(w: Width, ops: seq<Operation>, checked: bool, awaiting: nat, aw: nat)
    requires !Full(w, checked, awaiting) && ops != [] && !ops[0].IsRead() && aw == Charge(ops[0], awaiting)
    ensures PlanWrites(w, ops, checked, awaiting) == WriteJoin(w, ops[0], ops[1..], checked, aw)
  {
  }

  lemma FirstCounted(ops: seq<Operation>, from: nat, scan: nat)
    requires from < scan <= |ops|
    ensures CountBus(ops[from..scan]) == (if ops[from].IsBus() then 1 else 0) + CountBus(ops[from + 1..scan])
    ensures ops[from..][0] == ops[from] && ops[from..][1..] == ops[from + 1..]
  {
    assert ops[from..scan][1..] == ops[from + 1..scan];
  }

  lemma NoneCounted(ops: seq<Operation>, i: nat)
    requires i <= |ops|
    ensures CountBus(ops[i..i]) == 0
  {
    assert ops[i..i] == [];
  }

  /** Extends a read run of one from position start. */
  method ChainReads(w: Width, ops: seq<Operation>, start: nat, head: Operation, checked: bool, awaiting0: nat)
    returns (count: nat, scan: nat, awaiting: nat)
    requires Countable(ops, start, checked, awaiting0)
    ensures count == 1 + ReadRun(w, ops[start..], head, 254, checked, awaiting0)
    ensures start <= scan <= |ops| && scan - start == count - 1
    ensures awaiting == awaiting0 + CountBus(ops[start..scan])
    ensures Countable(ops, scan, checked, awaiting)
  {
    hide And;
    count, scan, awaiting := 1, start, awaiting0;
    assert ops[start..start] == [];
    LowBits(w, head.address);
    while scan < |ops|
      invariant start <= scan <= |ops| && scan - start == count - 1 && count <= 255
      invariant awaiting == awaiting0 + CountBus(ops[start..scan])
      invariant Countable(ops, scan, checked, awaiting)
      invariant ReadRun(w, ops[start..], head, 254, checked, awaiting0)
                == (count - 1) + ReadRun(w, ops[scan..], head, 255 - count, checked, awaiting)
    {
      var op := ops[scan];
      FullIsLimit(w, ops, scan, checked, awaiting);
      LowBits(w, op.address);
      assert ops[scan..][0] == op && ops[scan..][1..] == ops[scan + 1..];
      if !op.IsRead() || op.config != head.config || op.format != head.format
         || And(op.address, w.data - 1) != And(head.address, w.data - 1)
         || count >= 255 || awaiting >= MaxOps(w, checked) {
        break;
      }
      CountNext(ops, start, scan);
      if !head.config {
        awaiting := awaiting + 1;
      }
      count, scan := count + 1, scan + 1;
    }
  }

  /** The reads that close it, after k writes starting at from. */
  method CountReads(w: Width, ops: seq<Operation>, from: nat, k: nat, checked: bool, awaiting0: nat)
    returns (rcount: nat, scan: nat, awaiting: nat)
    requires from + k <= |ops| && Countable(ops, from + k, checked, awaiting0)
    ensures rcount == PlanReads(w, ops[from..], k, checked, awaiting0)
    ensures scan == from + k + rcount <= |ops|
    ensures awaiting == awaiting0 + CountBus(ops[from + k..scan])
    ensures Countable(ops, scan, checked, awaiting)
  {
    hide And, CountBus;
    rcount, scan, awaiting := 0, from + k, awaiting0;
    FullIsLimit(w, ops, scan, checked, awaiting);
    NoneCounted(ops, scan);
    assert k < |ops[from..]| ==> ops[from..][k] == ops[scan];
    if awaiting >= MaxOps(w, checked) || scan == |ops| || !ops[scan].IsRead() {
      return;
    }
    LowBits(w, ops[scan].address);
    LowBits(w, ops[from].address);
    if k > 0 && (ops[scan].format != ops[from].format
                 || And(ops[scan].address, w.data - 1) != And(ops[from].address, w.data - 1)) {
      assert ops[from..][0] == ops[from];
      return;
    }
    var head := ops[scan];
    assert ops[from..][k + 1..] == ops[scan + 1..];
    CountNext(ops, scan, scan);
    if !head.config {
      awaiting := awaiting + 1;
    }
    rcount, scan := 1, scan + 1;
    hide ReadRun;
    rcount, scan, awaiting := ChainReads(w, ops, scan, head, checked, awaiting);
    CountBusSplit(ops, from + k, from + k + 1, scan);
  }

  /** The plan of the next record, counted the way the sender counts. */
  method PlanRecord(w: Width, ops: seq<Operation>, from: nat, checked: bool, awaiting0: nat) returns (p: Plan)
    requires Countable(ops, from, checked, awaiting0)
    ensures p == NextPlan(w, ops[from..], checked, awaiting0)
    ensures Countable(ops, from + p.wcount + p.rcount, checked, p.awaiting)
  {
    hide WriteRun, ReadRun, And, PlanWrites, PlanReads, CountBus;
    var wcount, fifo, scan, awaiting := CountWrites(w, ops, from, checked, awaiting0);
    var rcount;
    rcount, scan, awaiting := CountReads(w, ops, from, wcount, checked, awaiting);
    ghost var rest := ops[from..];
    assert rest[..wcount] == ops[from..from + wcount];
    assert rest[wcount..wcount + rcount] == ops[from + wcount..scan];
    FullIsLimit(w, ops, scan, checked, awaiting);
    var whole := wcount == 0 || ops[from].format == w.data;
    assert wcount > 0 ==> rest[0] == ops[from];
    var status := rcount == 0 && whole
                  && (awaiting >= MaxOps(w, checked) || (scan == |ops| && checked && awaiting > 0));
    var last := scan == |ops| && (!checked || awaiting == 0 || status);
    p := Plan(wcount, fifo, rcount, status, last, if status then 0 else awaiting);
  }
}
