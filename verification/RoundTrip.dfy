/** A cycle's whole journey: packed, performed by the remote end, answered, and matched to its operations. */
module RoundTrip {
  import opened Words
  import opened Widths
  import opened Operations
  import opened Slave
  import opened Packing
  import opened Responses

  // ---------------------------------------------------------------------------
  // Reference: what the cycle should come back as
  // ---------------------------------------------------------------------------

  /** The remote device refuses the access. */
  predicate Failed<S>(bus: Bus<S>, st: State<S>, a: Access) {
    match a
    case BusWrite(size, addrB, addrL, value) => bus.write(st.s, size, addrB, addrL, value).1
    case BusRead(size, addrB, addrL, _) => bus.read(st.s, size, addrB, addrL).2
    case _ => false
  }

  /** One operation after the remote end performed it. */
  function Performed<S>(w: Width, rba: nat, bus: Bus<S>, st: State<S>, checked: bool, op: Operation): Operation {
    var a := AccessOf(w, rba, op);
    op.(value := if op.IsRead() then Perform(bus, st, a).1 % Pow256(op.Size()) else op.value,
        error := checked && op.IsBus() && Failed(bus, st, a))
  }

  /** All operations performed in program order, each read holding the remote value cut to its size, and each bus
      operation of a checked cycle flagged exactly if it failed. */
  function Outcome<S>(w: Width, rba: nat, bus: Bus<S>, st: State<S>, checked: bool, ops: seq<Operation>)
    : (r: (State<S>, seq<Operation>))
    ensures |r.1| == |ops|
    decreases ops
  {
    if ops == [] then (st, []) else
      var st1 := Perform(bus, st, AccessOf(w, rba, ops[0])).0;
      var (st2, rest) := Outcome(w, rba, bus, st1, checked, ops[1..]);
      (st2, [Performed(w, rba, bus, st, checked, ops[0])] + rest)
  }

  // ---------------------------------------------------------------------------
  // Feeding answers to one response
  // ---------------------------------------------------------------------------

  datatype Fed = Waiting(response: Response) | Matched(completion: Completion, rest: seq<Access>)

  /** Hands config writes to a response until it completes; rest is what was left over. */
  function Feed(r: Response, answers: seq<Access>): Fed
    requires Sound(r)
    decreases answers
  {
    if answers == [] then Waiting(r)
    else match answers[0]
      case ConfigWrite(size, addr, value) =>
        (match Accept(r, size, addr, value)
         case Pending(r') => Feed(r', answers[1..])
         case Done(c) => Matched(c, answers[1..]))
      case _ => Feed(r, answers[1..])
  }

  /** The answers to what is left of a cycle. */
  function AnswersTo<S>(w: Width, rba: nat, bus: Bus<S>, st: State<S>, ops: seq<Operation>, checked: bool, awaiting: nat)
    : seq<Access>
  {
    Answers(bus, st, StepAccesses(w, rba, Trace(w, ops, checked, awaiting))).1
  }

  // ---------------------------------------------------------------------------
  // When answers are still to come
  // ---------------------------------------------------------------------------

  /** Nothing left in the cycle will be answered. */
  predicate Silent(ops: seq<Operation>, checked: bool, awaiting: nat) {
    (forall i :: 0 <= i < |ops| ==> !ops[i].IsRead()) && (checked ==> awaiting == 0 && CountBus(ops) == 0)
  }

  predicate NoReads(accesses: seq<Access>) {
    forall i :: 0 <= i < |accesses| ==> !accesses[i].IsRead()
  }

  lemma {:induction false} AnswersEmpty<S>(bus: Bus<S>, st: State<S>, accesses: seq<Access>)
    ensures Answers(bus, st, accesses).1 == [] <==> NoReads(accesses)
    decreases accesses
  {
    hide Perform, Answer;
    if accesses != [] {
      AnswersEmpty(bus, Perform(bus, st, accesses[0]).0, accesses[1..]);
      NoReadsCons(accesses);
    }
  }

  lemma NoReadsCons(accesses: seq<Access>)
    requires accesses != []
    ensures NoReads(accesses) <==> !accesses[0].IsRead() && NoReads(accesses[1..])
  {
    assert forall i :: 0 <= i < |accesses| - 1 ==> accesses[1..][i] == accesses[i + 1];
  }

  lemma {:induction false} SilentTrace(w: Width, rba: nat, ops: seq<Operation>, checked: bool, awaiting: nat)
    ensures NoReads(StepAccesses(w, rba, Trace(w, ops, checked, awaiting))) <==> Silent(ops, checked, awaiting)
    decreases |ops|, awaiting
  {
    var steps := Trace(w, ops, checked, awaiting);
    hide AccessOf;
    if Finished(ops, checked, awaiting) {
    } else if Full(w, checked, awaiting) || ops == [] {
      NoReadsCons(StepAccesses(w, rba, steps));
    } else {
      var aw := Charge(ops[0], awaiting);
      assert steps[1..] == Trace(w, ops[1..], checked, aw);
      SilentTrace(w, rba, ops[1..], checked, aw);
      NoReadsCons(StepAccesses(w, rba, steps));
      AccessReads(w, rba, ops[0]);
      SilentCons(ops, checked, awaiting);
    }
  }

  lemma AccessReads(w: Width, rba: nat, op: Operation)
    ensures AccessOf(w, rba, op).IsRead() <==> op.IsRead()
  {
  }

  lemma SilentCons(ops: seq<Operation>, checked: bool, awaiting: nat)
    requires ops != []
    ensures Silent(ops, checked, awaiting)
            <==> !ops[0].IsRead() && Silent(ops[1..], checked, Charge(ops[0], awaiting))
  {
    assert forall i :: 0 <= i < |ops| - 1 ==> ops[1..][i] == ops[i + 1];
  }

  /** Answers are still to come exactly while some cursor would find an operation. */
  lemma AnswersLeft<S>(w: Width, rba: nat, bus: Bus<S>, st: State<S>, all: seq<Operation>, k: nat, checked: bool,
                       awaiting: nat)
    requires k <= |all|
    ensures AnswersTo(w, rba, bus, st, all[k..], checked, awaiting) == []
            <==> FindRead(all, k) == |all| && (checked ==> awaiting == 0 && FindBus(all, k) == |all|)
  {
    hide Trace, StepAccesses, Answers;
    AnswersEmpty(bus, st, StepAccesses(w, rba, Trace(w, all[k..], checked, awaiting)));
    SilentTrace(w, rba, all[k..], checked, awaiting);
    NoBusAfter(all, k);
    var r := FindRead(all, k);
    if r < |all| {
      assert all[k..][r - k].IsRead();
    }
  }

  // ---------------------------------------------------------------------------
  // The error register
  // ---------------------------------------------------------------------------

  lemma ShiftInBits(error: nat, fail: bool, i: nat)
    requires i < 63
    ensures Bit(ShiftIn(error, fail), 0) == fail
    ensures Bit(ShiftIn(error, fail), i + 1) == Bit(error, i)
  {
    var v := 2 * error + (if fail then 1 else 0);
    assert Pow2(64) == WORD by { Pow2Values(); }
    BitOfTruncated(v, 64, 0);
    BitOfTruncated(v, 64, i + 1);
    hide Pow2;
    assert v / 2 == error;
  }

  /** The status word is the low data-width bytes of the error register. */
  lemma StatusWord(w: Width, error: nat, sdb: nat)
    ensures ReadConfig(error, sdb, w.data, 8 - w.data) == error % Pow256(w.data)
  {
    var s := BigEndian(error, 8) + BigEndian(sdb, 8) + BigEndian(0, 8);
    assert s[8 - w.data..8] == BigEndian(error, 8)[8 - w.data..];
    LowBytes(error, 8, w.data);
    ValueOfBigEndian(error, w.data);
  }

  /** The last n bytes of a big-endian number are its low n bytes. */
  lemma {:induction false} LowBytes(v: nat, m: nat, n: nat)
    requires n <= m
    ensures BigEndian(v, m)[m - n..] == BigEndian(v, n)
  {
    if n > 0 {
      LowBytes(v / 256, m - 1, n - 1);
      assert BigEndian(v, m) == BigEndian(v / 256, m - 1) + [v % 256];
    }
  }

  lemma StatusBits(w: Width, error: nat, i: nat)
    requires i < 8 * w.data
    ensures Bit((error % Pow256(w.data)) % Pow256(w.data), i) == Bit(error, i)
  {
    Pow256IsPow2(w.data);
    SmallMod(error % Pow256(w.data), Pow256(w.data));
    BitOfTruncated(error, 8 * w.data, i);
  }

  // ---------------------------------------------------------------------------
  // Progress of a response through its cycle
  // ---------------------------------------------------------------------------

  /** cur is final before g, final but for its error flags before k, and untouched from k on. */
  ghost predicate Tracks(all: seq<Operation>, final: seq<Operation>, k: nat, g: nat, cur: seq<Operation>) {
    && g <= k <= |all| && |cur| == |all| && SameShape(final, all)
    && (forall i :: 0 <= i < |all| ==> !all[i].error)
    && (forall i :: 0 <= i < g ==> cur[i] == final[i])
    && (forall i :: g <= i < k ==> cur[i] == final[i].(error := false))
    && (forall i :: k <= i < |all| ==> cur[i] == all[i])
  }

  /** The error register holds the outcomes of the bus operations since g, latest lowest. */
  ghost predicate Registers(all: seq<Operation>, final: seq<Operation>, g: nat, k: nat, error: nat)
    requires k <= |all| == |final|
  {
    forall i :: g <= i < k && all[i].IsBus() ==> Bit(error, CountBus(all[i + 1..k])) == final[i].error
  }

  /** Only bus operations of a checked cycle end with an error flag. */
  predicate ErrorsWhereChecked(all: seq<Operation>, final: seq<Operation>, checked: bool)
    requires |all| == |final|
  {
    forall i :: 0 <= i < |all| ==> final[i].error ==> checked && all[i].IsBus()
  }

  /** The remote end has performed all[..k], the last status word covered all[..g], and r has taken every answer. */
  ghost predicate Progress<S>(w: Width, rba: nat, bus: Bus<S>, checked: bool, all: seq<Operation>,
                              final: seq<Operation>, k: nat, g: nat, awaiting: nat, st: State<S>, r: Response)
  {
    && Tracks(all, final, k, g, r.cycle.ops)
    && ErrorsWhereChecked(all, final, checked)
    && Outcome(w, rba, bus, st, checked, all[k..]).1 == final[k..]
    && r.writeCursor == FindRead(all, k)
    && r.statusCursor == (if checked then FindBus(all, g) else |all|)
    && (checked ==> CountBus(all[g..k]) == awaiting <= 8 * w.data && Registers(all, final, g, k, st.error))
  }

  lemma ShapeOfTracked(all: seq<Operation>, final: seq<Operation>, k: nat, g: nat, cur: seq<Operation>)
    requires Tracks(all, final, k, g, cur)
    ensures SameShape(cur, all)
  {
  }

  /** Outcome, one operation further. */
  lemma OutcomeStep<S>(w: Width, rba: nat, bus: Bus<S>, checked: bool, all: seq<Operation>, final: seq<Operation>,
                       k: nat, st: State<S>)
    requires k < |all| == |final| && Outcome(w, rba, bus, st, checked, all[k..]).1 == final[k..]
    ensures final[k] == Performed(w, rba, bus, st, checked, all[k])
    ensures Outcome(w, rba, bus, Perform(bus, st, AccessOf(w, rba, all[k])).0, checked, all[k + 1..]).1 == final[k + 1..]
  {
    hide Performed, Perform, AccessOf;
    assert all[k..][1..] == all[k + 1..];
    assert final[k..][1..] == final[k + 1..];
    assert final[k] == final[k..][0];
  }

  /** The word a read takes, and the response it leaves. */
  function AfterRead(r: Response, op: Operation, value: nat): Response
    requires Sound(r) && (op.IsRead() ==> r.writeCursor < |r.cycle.ops|)
  {
    if op.IsRead() then TakeRead(r, value) else r
  }

  lemma TracksStep(all: seq<Operation>, final: seq<Operation>, k: nat, g: nat, cur: seq<Operation>, next: Operation)
    requires Tracks(all, final, k, g, cur) && k < |all| && next == final[k].(error := false)
    ensures Tracks(all, final, k + 1, g, cur[k := next])
    ensures next == all[k] ==> cur[k := next] == cur
  {
  }

  lemma CursorStep(all: seq<Operation>, k: nat, r: Response, value: nat)
    requires k < |all| && SameShape(r.cycle.ops, all) && Sound(r) && r.writeCursor == FindRead(all, k)
    ensures all[k].IsRead() ==> r.writeCursor == k
    ensures var r1 := AfterRead(r, all[k], value);
            && r1.writeCursor == FindRead(all, k + 1) && r1.statusCursor == r.statusCursor
            && r1.cycle.ops == (if all[k].IsRead() then r.cycle.ops[k := r.cycle.ops[k].(value := value)] else r.cycle.ops)
            && r1.cycle == r.cycle.(ops := r1.cycle.ops) && r1 == r.(cycle := r1.cycle, writeCursor := r1.writeCursor)
  {
    if all[k].IsRead() {
      var ops := r.cycle.ops[k := r.cycle.ops[k].(value := value)];
      SameCursors(ops, all, k + 1);
    }
  }

  /** What performing one operation does to the error register. */
  lemma ErrorStep<S>(bus: Bus<S>, st: State<S>, w: Width, rba: nat, op: Operation)
    ensures Perform(bus, st, AccessOf(w, rba, op)).0.error
            == if op.IsBus() then ShiftIn(st.error, Failed(bus, st, AccessOf(w, rba, op))) else st.error
  {
    hide ShiftIn, Mirror, ReadConfig;
  }

  lemma RegistersStep(all: seq<Operation>, final: seq<Operation>, g: nat, k: nat, error: nat, fail: bool)
    requires g <= k < |all| == |final| && Registers(all, final, g, k, error)
    requires CountBus(all[g..k]) < 64
    requires all[k].IsBus() ==> final[k].error == fail
    ensures Registers(all, final, g, k + 1, if all[k].IsBus() then ShiftIn(error, fail) else error)
    ensures CountBus(all[g..k + 1]) == CountBus(all[g..k]) + if all[k].IsBus() then 1 else 0
  {
    hide ShiftIn, Bit;
    CountNext(all, g, k);
    forall i | g <= i < k + 1 && all[i].IsBus()
      ensures Bit(if all[k].IsBus() then ShiftIn(error, fail) else error, CountBus(all[i + 1..k + 1])) == final[i].error
    {
      if i == k {
        assert all[k + 1..k + 1] == [];
        ShiftInBits(error, fail, 0);
      } else {
        CountNext(all, i + 1, k);
        CountNext(all, i, i);
        CountBusSplit(all, g, i, k);
        CountBusSplit(all, i, i + 1, k);
        assert all[i..i] == [];
        ShiftInBits(error, fail, CountBus(all[i + 1..k]));
      }
    }
  }

  /** The register after a whole group. */
  lemma {:induction false} RegistersAll<S>(w: Width, rba: nat, bus: Bus<S>, all: seq<Operation>, final: seq<Operation>,
                                           k: nat, st: State<S>)
    requires k <= |all| == |final| && Outcome(w, rba, bus, st, true, all[k..]).1 == final[k..]
    requires Registers(all, final, 0, k, st.error) && CountBus(all) <= 64
    ensures Registers(all, final, 0, |all|, Outcome(w, rba, bus, st, true, all[k..]).0.error)
    decreases |all| - k
  {
    hide *;
    assert all[0..|all|] == all;
    if k < |all| {
      var a := AccessOf(w, rba, all[k]);
      var st1 := Perform(bus, st, a).0;
      OutcomeStep(w, rba, bus, true, all, final, k, st);
      OutcomeEnd(w, rba, bus, all, k, st);
      ErrorStep(bus, st, w, rba, all[k]);
      PerformedError(w, rba, bus, st, all[k]);
      CountBusSplit(all, 0, k, |all|);
      CountBusSplit(all, k, k + 1, |all|);
      assert all[k..k + 1] == [all[k]];
      RegisterTaken(all, final, k, st.error, st1.error, Failed(bus, st, a));
      RegistersAll(w, rba, bus, all, final, k + 1, st1);
    } else {
      NothingOutcome(w, rba, bus, all[k..], st);
    }
  }

  lemma OutcomeEnd<S>(w: Width, rba: nat, bus: Bus<S>, all: seq<Operation>, k: nat, st: State<S>)
    requires k < |all|
    ensures Outcome(w, rba, bus, st, true, all[k..]).0
            == Outcome(w, rba, bus, Perform(bus, st, AccessOf(w, rba, all[k])).0, true, all[k + 1..]).0
  {
    hide Perform, AccessOf, Performed;
    assert all[k..][1..] == all[k + 1..];
  }

  lemma NothingOutcome<S>(w: Width, rba: nat, bus: Bus<S>, ops: seq<Operation>, st: State<S>)
    requires ops == []
    ensures Outcome(w, rba, bus, st, true, ops).0 == st
  {
  }

  lemma PerformedError<S>(w: Width, rba: nat, bus: Bus<S>, st: State<S>, op: Operation)
    ensures Performed(w, rba, bus, st, true, op).error == (op.IsBus() && Failed(bus, st, AccessOf(w, rba, op)))
  {
    hide Perform, AccessOf, Failed;
  }

  lemma RegisterTaken(all: seq<Operation>, final: seq<Operation>, k: nat, error: nat, error': nat, fail: bool)
    requires k < |all| == |final| && Registers(all, final, 0, k, error)
    requires CountBus(all[0..k]) + CountBus([all[k]]) <= 64
    requires final[k].error == (all[k].IsBus() && fail)
    requires error' == if all[k].IsBus() then ShiftIn(error, fail) else error
    ensures Registers(all, final, 0, k + 1, error')
  {
    hide Registers, ShiftIn;
    if all[k].IsBus() {
      assert [all[k]][0] == all[k];
      RegistersStep(all, final, 0, k, error, fail);
    } else {
      SkipConfig(all, final, k, error);
    }
  }

  lemma SkipConfig(all: seq<Operation>, final: seq<Operation>, k: nat, error: nat)
    requires k < |all| == |final| && Registers(all, final, 0, k, error) && !all[k].IsBus()
    ensures Registers(all, final, 0, k + 1, error)
  {
    hide Bit;
    forall i | 0 <= i < k && all[i].IsBus()
      ensures CountBus(all[i + 1..k + 1]) == CountBus(all[i + 1..k])
    {
      CountNext(all, i + 1, k);
    }
  }

  /** The status word behind a group of operations of a checked cycle, as the sender receives it: whatever the register
      held before, the bit at the number of bus operations that followed an operation tells whether that operation
      failed. */
  lemma StatusTells<S>(w: Width, rba: nat, bus: Bus<S>, st: State<S>, ops: seq<Operation>, i: nat)
    requires CountBus(ops) <= 8 * w.data && i < |ops| && ops[i].IsBus()
    ensures var (end, final) := Outcome(w, rba, bus, st, true, ops);
            Bit((end.error % Pow256(w.data)) % Pow256(w.data), CountBus(ops[i + 1..])) == final[i].error
  {
    var (end, final) := Outcome(w, rba, bus, st, true, ops);
    assert ops[0..] == ops && final[0..] == final && ops[0..|ops|] == ops && ops[i + 1..|ops|] == ops[i + 1..];
    RegistersAll(w, rba, bus, ops, final, 0, st);
    CountBusSplit(ops, 0, i, |ops|);
    CountBusSplit(ops, i, i + 1, |ops|);
    assert ops[i..i + 1] == [ops[i]];
    StatusBits(w, end.error, CountBus(ops[i + 1..]));
  }

  /** One operation further. */
  lemma ProgressDo<S>(w: Width, rba: nat, bus: Bus<S>, checked: bool, all: seq<Operation>, final: seq<Operation>,
                      k: nat, g: nat, awaiting: nat, st: State<S>, r: Response)
    requires k < |all| && !Full(w, checked, awaiting)
    requires Progress(w, rba, bus, checked, all, final, k, g, awaiting, st, r)
    ensures Sound(r) && |r.cycle.ops| == |all| && (all[k].IsRead() ==> r.writeCursor == k)
    ensures var (st1, v) := Perform(bus, st, AccessOf(w, rba, all[k]));
            var r1 := AfterRead(r, all[k], v % Pow256(all[k].Size()));
            && Sound(r1)
            && Progress(w, rba, bus, checked, all, final, k + 1, g, Charge(all[k], awaiting), st1, r1)
            && r1.cycle == r.cycle.(ops := r1.cycle.ops)
  {
    var op, a := all[k], AccessOf(w, rba, all[k]);
    var (st1, v) := Perform(bus, st, a);
    var value := v % Pow256(op.Size());
    ShapeOfTracked(all, final, k, g, r.cycle.ops);
    CursorStep(all, k, r, value);
    OutcomeStep(w, rba, bus, checked, all, final, k, st);
    assert final[k].(error := false) == if op.IsRead() then op.(value := value) else op;
    TracksStep(all, final, k, g, r.cycle.ops, final[k].(error := false));
    if checked {
      ErrorStep(bus, st, w, rba, op);
      RegistersStep(all, final, g, k, st.error, Failed(bus, st, a));
    }
    hide Perform, AccessOf, TakeRead, Outcome, FindRead, FindBus, Performed;
  }

  // ---------------------------------------------------------------------------
  // A status word
  // ---------------------------------------------------------------------------

  /** The first bus operation of a non-empty group lies in it, and the group starts there. */
  lemma {:induction false} GroupStart(all: seq<Operation>, g: nat, k: nat)
    requires g <= k <= |all| && CountBus(all[g..k]) > 0
    ensures FindBus(all, g) < k
    ensures CountBus(all[FindBus(all, g)..k]) == CountBus(all[g..k])
    decreases k - g
  {
    if all[g].config {
      assert all[g..k][1..] == all[g + 1..k];
      GroupStart(all, g + 1, k);
    }
  }

  /** The receiver counts exactly the operations the sender put in the group. */
  lemma GroupCount(w: Width, all: seq<Operation>, g: nat, k: nat, awaiting: nat, r: Response)
    requires g <= k <= |all| && SameShape(r.cycle.ops, all) && Sound(r)
    requires r.statusCursor == FindBus(all, g) && CountBus(all[g..k]) == awaiting
    requires 0 < awaiting <= 8 * w.data && (awaiting == 8 * w.data || k == |all|)
    ensures r.statusCursor < k && StatusCount(r, w.data) == awaiting
    ensures CountBus(r.cycle.ops[r.statusCursor..k]) == awaiting
  {
    GroupStart(all, g, k);
    var cur, c := r.cycle.ops, r.statusCursor;
    SameCount(cur[c..k], all[c..k]);
    CountBusSplit(cur, c, k, |cur|);
    assert cur[c..|cur|] == cur[c..];
    if k == |all| {
      assert cur[k..|cur|] == [];
    }
  }

  lemma TracksMarked(all: seq<Operation>, final: seq<Operation>, k: nat, g: nat, cur: seq<Operation>, value: nat,
                     error: nat, out: seq<Operation>, next: nat)
    requires Tracks(all, final, k, g, cur) && Registers(all, final, g, k, error) && FindBus(all, g) <= k
    requires ErrorsWhereChecked(all, final, true)
    requires forall i :: 0 <= i < CountBus(all[g..k]) ==> Bit(value, i) == Bit(error, i)
    requires next <= |out| && GroupMarked(cur, FindBus(all, g), k, value, out, next)
    ensures Tracks(all, final, k, k, out)
  {
    hide Bit;
    ShapeOfTracked(all, final, k, g, cur);
    var c := FindBus(all, g);
    forall j | g <= j < k
      ensures out[j] == final[j]
    {
      if j >= c && all[j].IsBus() {
        SameCount(cur[j + 1..k], all[j + 1..k]);
        CountBusSplit(all, g, j, k);
        CountBusSplit(all, j, j + 1, k);
        assert all[j..j + 1] == [all[j]];
        assert out[j] == Marked(cur, j, k, value);
      } else {
        assert out[j] == cur[j];
      }
    }
  }

  lemma ProgressStatus<S>(w: Width, rba: nat, bus: Bus<S>, all: seq<Operation>, final: seq<Operation>,
                          k: nat, g: nat, awaiting: nat, st: State<S>, r: Response)
    requires k <= |all| && 0 < awaiting && (awaiting >= 8 * w.data || k == |all|)
    requires Progress(w, rba, bus, true, all, final, k, g, awaiting, st, r)
    ensures Sound(r) && StatusCount(r, w.data) > 0
    ensures var value := Perform(bus, st, StepAccess(w, rba, ReadStatus)).1 % Pow256(w.data);
            var r1 := TakeStatus(r, w.data, value);
            && Sound(r1)
            && Progress(w, rba, bus, true, all, final, k, k, 0, st, r1)
            && r1.cycle == r.cycle.(ops := r1.cycle.ops)
  {
    StatusWord(w, st.error, bus.sdbOffset(st.s));
    var value := Perform(bus, st, StepAccess(w, rba, ReadStatus)).1 % Pow256(w.data);
    hide Perform, ReadConfig, Bit, Outcome, Mark;
    forall i | 0 <= i < awaiting
      ensures Bit(value, i) == Bit(st.error, i)
    {
      StatusBits(w, st.error, i);
    }
    TakeStatusTracks(w, all, final, k, g, awaiting, st.error, r, value);
    assert all[k..k] == [];
  }

  lemma TakeStatusTracks(w: Width, all: seq<Operation>, final: seq<Operation>, k: nat, g: nat, awaiting: nat,
                         error: nat, r: Response, value: nat)
    requires Tracks(all, final, k, g, r.cycle.ops) && ErrorsWhereChecked(all, final, true)
    requires Sound(r) && r.statusCursor == FindBus(all, g) && Registers(all, final, g, k, error)
    requires CountBus(all[g..k]) == awaiting
    requires 0 < awaiting <= 8 * w.data && (awaiting == 8 * w.data || k == |all|)
    requires forall i :: 0 <= i < awaiting ==> Bit(value, i) == Bit(error, i)
    ensures StatusCount(r, w.data) > 0
    ensures var r1 := TakeStatus(r, w.data, value);
            && Sound(r1) && Tracks(all, final, k, k, r1.cycle.ops)
            && r1.statusCursor == FindBus(all, k) && r1.writeCursor == r.writeCursor
            && r1.cycle == r.cycle.(ops := r1.cycle.ops)
  {
    var cur := r.cycle.ops;
    ShapeOfTracked(all, final, k, g, cur);
    GroupCount(w, all, g, k, awaiting, r);
    hide Bit, StatusCount, CountBus;
    MarkGroup(cur, r.statusCursor, k, value);
    var (out, next) := Mark(cur, r.statusCursor, awaiting, value);
    TracksMarked(all, final, k, g, cur, value, error, out, next);
    SameCursors(cur, all, k);
    hide Mark, FindBus, Tracks;
  }

  // ---------------------------------------------------------------------------
  // The whole journey of one cycle
  // ---------------------------------------------------------------------------

  /** An accepted word that leaves both cursors at the end completes the cycle with its final operations. */
  lemma Completes<S>(w: Width, rba: nat, bus: Bus<S>, checked: bool, all: seq<Operation>, final: seq<Operation>,
                     k: nat, g: nat, awaiting: nat, st: State<S>, r: Response)
    requires Progress(w, rba, bus, checked, all, final, k, g, awaiting, st, r) && Sound(r)
    requires r.writeCursor == |all| && r.statusCursor == |all|
    ensures r.cycle.ops == final
    ensures AnswersTo(w, rba, bus, st, all[k..], checked, awaiting) == []
  {
    hide Registers, AnswersTo, Outcome, FindRead, FindBus;
    AnswersLeft(w, rba, bus, st, all, k, checked, awaiting);
    if checked {
      NoBusAfter(all, g);
      CountBusSplit(all, g, k, |all|);
      assert all[g..|all|] == all[g..] && all[k..|all|] == all[k..];
      NoBusAfter(all, k);
    }
    UntouchedWrites(w, rba, bus, st, checked, all[k..]);
    forall i | 0 <= i < |all|
      ensures r.cycle.ops[i] == final[i]
    {
      if i >= k {
        assert final[i] == final[k..][i - k] && all[i] == all[k..][i - k];
      } else if checked && i >= g {
        CountBusSplit(all, g, i, k);
        CountBusSplit(all, i, i + 1, k);
        assert all[i..i + 1] == [all[i]];
      }
    }
  }

  /** Config writes come back as they were sent. */
  lemma {:induction false} UntouchedWrites<S>(w: Width, rba: nat, bus: Bus<S>, st: State<S>, checked: bool,
                                              ops: seq<Operation>)
    requires forall i :: 0 <= i < |ops| ==> !ops[i].IsRead() && !ops[i].error && (checked ==> ops[i].config)
    ensures Outcome(w, rba, bus, st, checked, ops).1 == ops
    decreases ops
  {
    hide Perform, AccessOf;
    if ops != [] {
      UntouchedWrites(w, rba, bus, Perform(bus, st, AccessOf(w, rba, ops[0])).0, checked, ops[1..]);
    }
  }

  lemma AnswersAtStatus<S>(w: Width, rba: nat, bus: Bus<S>, st: State<S>, ops: seq<Operation>, awaiting: nat)
    requires 0 < awaiting && (awaiting >= 8 * w.data || ops == [])
    ensures var value := Perform(bus, st, StepAccess(w, rba, ReadStatus)).1 % Pow256(w.data);
            AnswersTo(w, rba, bus, st, ops, true, awaiting)
            == [ConfigWrite(w.data, rba + 1, value)] + AnswersTo(w, rba, bus, st, ops, true, 0)
  {
    hide ReadConfig, AccessOf;
    var rest := Trace(w, ops, true, 0);
    assert Trace(w, ops, true, awaiting) == [ReadStatus] + rest;
    assert ([ReadStatus] + rest)[1..] == rest;
    var accesses := StepAccesses(w, rba, [ReadStatus] + rest);
    assert accesses[0] == StepAccess(w, rba, ReadStatus) && accesses[1..] == StepAccesses(w, rba, rest);
  }

  lemma AnswersAtDo<S>(w: Width, rba: nat, bus: Bus<S>, st: State<S>, ops: seq<Operation>, checked: bool, awaiting: nat)
    requires ops != [] && !Full(w, checked, awaiting) && Fits(w, ops[0])
    ensures ops[0].Size() <= 8
    ensures var op := ops[0];
            var (st1, v) := Perform(bus, st, AccessOf(w, rba, op));
            var more := AnswersTo(w, rba, bus, st1, ops[1..], checked, Charge(op, awaiting));
            AnswersTo(w, rba, bus, st, ops, checked, awaiting)
            == if op.IsRead() then [ConfigWrite(op.Size(), rba, v % Pow256(op.Size()))] + more else more
  {
    var op := ops[0];
    var rest := Trace(w, ops[1..], checked, Charge(op, awaiting));
    assert Trace(w, ops, checked, awaiting) == [Do(op)] + rest;
    assert ([Do(op)] + rest)[1..] == rest;
    var accesses := StepAccesses(w, rba, [Do(op)] + rest);
    assert accesses[0] == AccessOf(w, rba, op) && accesses[1..] == StepAccesses(w, rba, rest);
    AnswerOfRead(w, rba, op, Perform(bus, st, AccessOf(w, rba, op)).1);
    AccessReads(w, rba, op);
    assert op.Size() <= 8;
    hide Perform, AccessOf, Fits, Answer;
  }

  lemma AnswerOfRead(w: Width, rba: nat, op: Operation, v: nat)
    requires op.IsRead() ==> op.Size() <= 8
    ensures op.IsRead() ==> AccessOf(w, rba, op).IsRead()
                            && Answer(AccessOf(w, rba, op), v) == ConfigWrite(op.Size(), rba, v % Pow256(op.Size()))
  {
    hide Mirror, ConfigReadAddress;
  }

  /** From any point of a cycle, the answers still to come complete its response on the very last of them,
      with every read holding the remote value and every bus operation its own error flag. */
  lemma {:induction false} Journey<S>(w: Width, rba: nat, bus: Bus<S>, checked: bool, all: seq<Operation>,
                                      final: seq<Operation>, k: nat, g: nat, awaiting: nat, st: State<S>, r: Response)
    requires AllFit(w, all) && rba % 2 == 0 && Sound(r)
    requires Progress(w, rba, bus, checked, all, final, k, g, awaiting, st, r)
    ensures k <= |all|
    ensures var answers := AnswersTo(w, rba, bus, st, all[k..], checked, awaiting);
            answers != [] ==>
            Feed(r, answers) == Matched(Completion(r.cycle.(ops := final), FinalStatus(final)), [])
    decreases |all| - k, awaiting
  {
    hide Trace, StepAccesses, Answers, Perform, AccessOf, FinalStatus, TakeRead, TakeStatus, StatusCount,
         FindRead, FindBus;
    var ops := all[k..];
    var answers := AnswersTo(w, rba, bus, st, ops, checked, awaiting);
    if k < |all| && !Full(w, checked, awaiting) {
      JourneyDo(w, rba, bus, checked, all, final, k, g, awaiting, st, r);
    } else if checked && awaiting > 0 {
      JourneyStatus(w, rba, bus, all, final, k, g, awaiting, st, r);
    } else {
      AnswersLeft(w, rba, bus, st, all, k, checked, awaiting);
      assert FindRead(all, |all|) == |all| && FindBus(all, |all|) == |all|;
    }
  }

  lemma {:induction false} JourneyDo<S>(w: Width, rba: nat, bus: Bus<S>, checked: bool, all: seq<Operation>,
                                        final: seq<Operation>, k: nat, g: nat, awaiting: nat, st: State<S>, r: Response)
    requires AllFit(w, all) && rba % 2 == 0 && Sound(r) && k < |all| && !Full(w, checked, awaiting)
    requires Progress(w, rba, bus, checked, all, final, k, g, awaiting, st, r)
    ensures var answers := AnswersTo(w, rba, bus, st, all[k..], checked, awaiting);
            answers != [] ==>
            Feed(r, answers) == Matched(Completion(r.cycle.(ops := final), FinalStatus(final)), [])
    decreases |all| - k, awaiting, 0
  {
    hide Progress, Perform, AccessOf, TakeRead, FinalStatus, AnswersTo, Fits;
    var op, aw := all[k], Charge(all[k], awaiting);
    var (st1, v) := Perform(bus, st, AccessOf(w, rba, op));
    ProgressDo(w, rba, bus, checked, all, final, k, g, awaiting, st, r);
    var r1 := AfterRead(r, op, v % Pow256(op.Size()));
    assert all[k..][1..] == all[k + 1..] && all[k..][0] == op;
    AnswersAtDo(w, rba, bus, st, all[k..], checked, awaiting);
    var more := AnswersTo(w, rba, bus, st1, all[k + 1..], checked, aw);
    Journey(w, rba, bus, checked, all, final, k + 1, g, aw, st1, r1);
    JourneyNext(w, rba, bus, checked, all, final, k + 1, g, aw, st1, r1, more);
    if op.IsRead() {
      var first := ConfigWrite(op.Size(), rba, v % Pow256(op.Size()));
      assert ([first] + more)[1..] == more;
      assert Accept(r, op.Size(), rba, v % Pow256(op.Size()))
             == if r1.writeCursor == |all| && r1.statusCursor == |all|
                then Done(Completion(r1.cycle, FinalStatus(r1.cycle.ops))) else Pending(r1);
    }
  }

  /** A response either has answers to come or is complete. */
  lemma JourneyNext<S>(w: Width, rba: nat, bus: Bus<S>, checked: bool, all: seq<Operation>, final: seq<Operation>,
                       k: nat, g: nat, awaiting: nat, st: State<S>, r: Response, more: seq<Access>)
    requires Progress(w, rba, bus, checked, all, final, k, g, awaiting, st, r) && Sound(r)
    requires more == AnswersTo(w, rba, bus, st, all[k..], checked, awaiting)
    ensures |r.cycle.ops| == |all|
    ensures if r.writeCursor == |all| && r.statusCursor == |all| then r.cycle.ops == final && more == []
            else more != []
  {
    hide Outcome, AnswersTo;
    if r.writeCursor == |all| && r.statusCursor == |all| {
      Completes(w, rba, bus, checked, all, final, k, g, awaiting, st, r);
    } else {
      AnswersLeft(w, rba, bus, st, all, k, checked, awaiting);
      if checked && awaiting == 0 {
        NoBusBetween(all, g, k);
      }
    }
  }

  lemma {:induction false} JourneyStatus<S>(w: Width, rba: nat, bus: Bus<S>, all: seq<Operation>,
                                            final: seq<Operation>, k: nat, g: nat, awaiting: nat, st: State<S>,
                                            r: Response)
    requires AllFit(w, all) && rba % 2 == 0 && Sound(r) && k <= |all|
    requires 0 < awaiting && (awaiting >= 8 * w.data || k == |all|)
    requires Progress(w, rba, bus, true, all, final, k, g, awaiting, st, r)
    ensures var answers := AnswersTo(w, rba, bus, st, all[k..], true, awaiting);
            Feed(r, answers) == Matched(Completion(r.cycle.(ops := final), FinalStatus(final)), [])
    decreases |all| - k, awaiting, 0
  {
    hide Progress, Perform, StepAccess, TakeStatus, FinalStatus, AnswersTo;
    var value := Perform(bus, st, StepAccess(w, rba, ReadStatus)).1 % Pow256(w.data);
    ProgressStatus(w, rba, bus, all, final, k, g, awaiting, st, r);
    var r1 := TakeStatus(r, w.data, value);
    AnswersAtStatus(w, rba, bus, st, all[k..], awaiting);
    var more := AnswersTo(w, rba, bus, st, all[k..], true, 0);
    Journey(w, rba, bus, true, all, final, k, k, 0, st, r1);
    JourneyNext(w, rba, bus, true, all, final, k, k, 0, st, r1, more);
    var first := ConfigWrite(w.data, rba + 1, value);
    assert ([first] + more)[1..] == more;
  }
}
