/** Writing a planned record into the sender's buffer. */
module Emitter {
  import opened Seqs
  import opened Words
  import opened Widths
  import opened Select
  import opened Operations
  import opened Records
  import opened Slave
  import opened Packing
  import opened PackingFacts
  import opened Planner
  import opened Buffer

  /** The bytes of a word appended to those of earlier words. */
  lemma WordAppended(words: seq<nat>, v: nat, al: nat)
    ensures WordBytes(words + [v], al) == WordBytes(words, al) + BigEndian(v, al)
  {
    hide BigEndian;
    WordsConcat(words, [v], al);
    assert WordBytes([v], al) == BigEndian(v, al) + [];
    NilConcat(BigEndian(v, al));
  }

  /** What a store at next leaves of the bytes before it. */
  lemma Appended<T>(was: seq<T>, now: seq<T>, start: nat, at: nat, next: nat)
    requires start <= at <= next <= |was| == |now| && now[..at] == was[..at]
    ensures now[..start] == was[..start]
    ensures now[start..next] == was[start..at] + now[at..next]
  {
    assert now[..start] == now[..at][..start] && was[..start] == was[..at][..start];
    assert now[start..at] == now[..at][start..] && was[start..at] == was[..at][start..];
    assert now[start..next] == now[start..at] + now[at..next];
  }

  /** Stores one word behind what has been written since start. */
  method Append(buf: array<Byte>, ghost start: nat, ghost words: seq<nat>, at: nat, v: nat, al: nat) returns (next: nat)
    requires start <= at && at + al <= buf.Length && buf[start..at] == WordBytes(words, al)
    modifies buf
    ensures next == at + al && buf[start..next] == WordBytes(words + [v], al)
    ensures buf[..start] == old(buf[..start])
  {
    hide *;
    Store(buf, at, v, al);
    next := at + al;
    Appended(old(buf[..]), buf[..], start, at, next);
    WordAppended(words, v, al);
  }

  lemma WriteWordIsShifted(w: Width, op: Operation, shift: nat)
    requires Fits(w, op) && !op.IsRead() && shift == OpShift(w, op)
    ensures ShlBytes(op.value, shift) % WORD == WriteWord(w, op)
  {
    WriteWordBound(w, op);
    Pow256Grows(w.data, 8);
    Pow256Values();
    SmallMod(WriteWord(w, op), WORD);
  }

  /** All writes of a record are shifted by the same amount. */
  predicate SameShift(w: Width, ops: seq<Operation>, from: nat, count: nat, shift: nat)
    requires from + count <= |ops|
  {
    forall i :: from <= i < from + count ==> Fits(w, ops[i]) && !ops[i].IsRead() && OpShift(w, ops[i]) == shift
  }

  /** The write run of a record: its address, then the shifted data. */
  method EmitWrites(w: Width, buf: array<Byte>, start: nat, ops: seq<Operation>, from: nat, count: nat, shift: nat)
    returns (next: nat)
    requires 0 < count && from + count <= |ops| && SameShift(w, ops, from, count, shift)
    requires start + (1 + count) * Alignment(w) <= buf.Length
    modifies buf
    ensures next == start + (1 + count) * Alignment(w)
    ensures buf[start..next] == WordBytes([ops[from].address] + WriteWordsOf(w, ops[from..from + count]), Alignment(w))
    ensures buf[..start] == old(buf[..start])
  {
    hide Alignment, WordBytes, Fits, OpShift, WriteWord, ShlBytes;
    var al := Alignment(w);
    assert (1 + count) * al == al + count * al;
    assert buf[start..start] == [];
    NoWords(al);
    next := Append(buf, start, [], start, ops[from].address, al);
    assert [] + [ops[from].address] == [ops[from].address];
    assert ops[from..from] == [];
    NilConcat([ops[from].address]);
    var i: nat := 0;
    while i < count
      invariant i <= count && next == start + al + i * al
      invariant buf[start..next] == WordBytes([ops[from].address] + WriteWordsOf(w, ops[from..from + i]), al)
      invariant buf[..start] == old(buf[..start])
    {
      var op := ops[from + i];
      WriteWordIsShifted(w, op, shift);
      ghost var words := [ops[from].address] + WriteWordsOf(w, ops[from..from + i]);
      RoomForWord(i, count, al);
      next := Append(buf, start, words, next, ShlBytes(op.value, shift) % WORD, al);
      MoreWriteWords(w, ops, from, i);
      i := i + 1;
    }
  }

  lemma NoWords(al: nat)
    ensures WordBytes([], al) == []
  {
  }

  lemma RoomForWord(i: nat, count: nat, al: nat)
    requires i < count
    ensures i * al + al == (i + 1) * al <= count * al
  {
    assert count * al == (i + 1) * al + (count - i - 1) * al;
  }

  lemma MoreWriteWords(w: Width, ops: seq<Operation>, from: nat, i: nat)
    requires from + i < |ops|
    ensures [ops[from].address] + WriteWordsOf(w, ops[from..from + i + 1])
            == [ops[from].address] + WriteWordsOf(w, ops[from..from + i]) + [WriteWord(w, ops[from + i])]
  {
    hide WriteWord;
    var a, b := WriteWordsOf(w, ops[from..from + i + 1]), WriteWordsOf(w, ops[from..from + i]);
    assert a == b + [WriteWord(w, ops[from + i])];
  }

  /** The read run of a record: the return address, then the addresses. */
  method EmitReads(w: Width, buf: array<Byte>, start: nat, rba: nat, ops: seq<Operation>, from: nat, count: nat)
    returns (next: nat)
    requires from + count <= |ops| && start + (1 + count) * Alignment(w) <= buf.Length
    modifies buf
    ensures next == start + (1 + count) * Alignment(w)
    ensures buf[start..next] == WordBytes([rba] + Addresses(ops[from..from + count]), Alignment(w))
    ensures buf[..start] == old(buf[..start])
  {
    hide Alignment, WordBytes;
    var al := Alignment(w);
    assert (1 + count) * al == al + count * al;
    assert buf[start..start] == [];
    NoWords(al);
    next := Append(buf, start, [], start, rba, al);
    assert [] + [rba] == [rba];
    assert ops[from..from] == [];
    NilConcat([rba]);
    var i: nat := 0;
    while i < count
      invariant i <= count && next == start + al + i * al
      invariant buf[start..next] == WordBytes([rba] + Addresses(ops[from..from + i]), al)
      invariant buf[..start] == old(buf[..start])
    {
      ghost var words := [rba] + Addresses(ops[from..from + i]);
      RoomForWord(i, count, al);
      next := Append(buf, start, words, next, ops[from + i].address, al);
      MoreAddresses(rba, ops, from, i);
      i := i + 1;
    }
  }

  lemma MoreAddresses(rba: nat, ops: seq<Operation>, from: nat, i: nat)
    requires from + i < |ops|
    ensures [rba] + Addresses(ops[from..from + i + 1]) == [rba] + Addresses(ops[from..from + i]) + [ops[from + i].address]
  {
    var a, b := Addresses(ops[from..from + i + 1]), Addresses(ops[from..from + i]);
    assert a == b + [ops[from + i].address];
  }

  // ---------------------------------------------------------------------------
  // A whole record
  // ---------------------------------------------------------------------------

  /** The shift of a record's words, as the sender computes it from a format and the low address bits. */
  function ShiftFor(w: Width, format: nat, low: nat): nat {
    if Endian(format) == BIG then (if low + format % 16 <= w.data then w.data - (low + format % 16) else 0) else low
  }

  /** Words of a record, from its planned counts. */
  function PlanWords(p: Plan): nat {
    RunWords(p.wcount) + (if p.status then 2 else RunWords(p.rcount))
  }

  /** Bytes the sender reserves for the record. */
  function PlanLength(w: Width, p: Plan): nat {
    RecordAlignment(w) + PlanWords(p) * Alignment(w)
  }

  /** The writes of a plan share the shift of the record's first operation. */
  lemma PlanShift(w: Width, ops: seq<Operation>, checked: bool, awaiting: nat)
    requires AllFit(w, ops)
    ensures var p := NextPlan(w, ops, checked, awaiting);
            p.wcount > 0 ==> SameShift(w, ops, 0, p.wcount, OpShift(w, ops[0]))
  {
    var p := NextPlan(w, ops, checked, awaiting);
    if p.wcount > 0 {
      PlanWritesIsChain(w, ops, checked, awaiting);
      assert p.wcount == PlanWrites(w, ops, checked, awaiting).0;
      hide NextPlan, PlanWrites, Fits, OpShift;
      ConfigAddressIsWord(w, ops[0]);
      ChainShift(w, ops[..p.wcount], ops[0], ops[0].address, p.fifo);
      assert forall i :: 0 <= i < p.wcount ==> ops[..p.wcount][i] == ops[i];
    }
  }

  lemma {:induction false} ChainShift(w: Width, ops: seq<Operation>, head: Operation, expected: nat, fifo: bool)
    requires Chain(w, ops, head, expected, fifo) && expected < WORD && expected % w.data == head.address % w.data
    ensures forall i :: 0 <= i < |ops| ==> !ops[i].IsRead() && OpShift(w, ops[i]) == OpShift(w, head)
    decreases ops
  {
    if ops != [] {
      AdvanceBase(w.data, 0, expected);
      hide Advance;
      assert Advance(w, fifo, expected) < WORD && Advance(w, fifo, expected) % w.data == head.address % w.data by {
        AdvanceKeeps(w, fifo, expected);
      }
      ChainShift(w, ops[1..], head, Advance(w, fifo, expected), fifo);
    }
  }

  lemma AdvanceKeeps(w: Width, fifo: bool, a: nat)
    requires a < WORD
    ensures Advance(w, fifo, a) < WORD && Advance(w, fifo, a) % w.data == a % w.data
  {
    AdvanceBase(w.data, 0, a);
  }

  /** The sender's select byte. */
  lemma PlanSelectIsMade(w: Width, ops: seq<Operation>, p: Plan)
    requires AllFit(w, ops) && p.wcount + p.rcount <= |ops|
    ensures p.wcount + p.rcount == 0 ==> PlanSelect(w, ops, p) == MakeSelect(w.data, 0)
    ensures p.wcount + p.rcount > 0 ==>
            ops[0].Size() <= 8
            && ShiftFor(w, ops[0].format, ops[0].address % w.data) == OpShift(w, ops[0])
            && PlanSelect(w, ops, p) == MakeSelect(ops[0].Size(), OpShift(w, ops[0]))
  {
    if p.wcount + p.rcount == 0 {
      MakeSelectIsTable(w.data, 0);
    } else {
      FitsFacts(w, ops[0]);
      MakeSelectIsTable(ops[0].Size(), OpShift(w, ops[0]));
    }
  }

  /** Writes a header. */
  method EmitHeader(w: Width, buf: array<Byte>, at: nat, flags: Byte, select: Byte, wcount: Byte, rcount: Byte)
    requires at + RecordAlignment(w) <= buf.Length
    modifies buf
    ensures RecordAlignment(w) >= 4
    ensures buf[at..at + RecordAlignment(w)] == [flags, select, wcount, rcount] + Padding(w)
    ensures buf[..at] == old(buf[..at])
  {
    AlignmentFits(w);
    var n := RecordAlignment(w);
    Clear(buf, at, n);
    assert buf[at + 4..at + n] == buf[at..at + n][4..];
    buf[at], buf[at + 1], buf[at + 2], buf[at + 3] := flags, select, wcount, rcount;
    assert buf[at + 4..at + n] == seq(n - 4, _ => 0);
    assert buf[at..at + n] == [flags, select, wcount, rcount] + buf[at + 4..at + n];
  }

  function FlagsOf(rcfg: bool, wcfg: bool, fifo: bool, last: bool): Byte {
    0x80 + 0x20 + (if rcfg then 0x40 else 0) + (if wcfg then 0x04 else 0) + (if fifo then 0x02 else 0)
    + (if last then 0x08 else 0)
  }

  function HeaderPart(w: Width, ops: seq<Operation>, p: Plan): seq<Byte>
    requires p.wcount + p.rcount <= |ops| && p.wcount <= 255 && p.rcount <= 255
  {
    var rcfg := p.status || (p.rcount > 0 && ops[p.wcount].config);
    var count: Byte := if p.status then 1 else p.rcount;
    [FlagsOf(rcfg, p.wcount > 0 && ops[0].config, p.fifo, p.last), PlanSelect(w, ops, p), p.wcount, count] + Padding(w)
  }

  function WritePart(w: Width, ops: seq<Operation>, p: Plan): seq<Byte>
    requires p.wcount <= |ops|
  {
    if p.wcount == 0 then [] else WordBytes([ops[0].address] + WriteWordsOf(w, ops[..p.wcount]), Alignment(w))
  }

  function ReadPart(w: Width, rba: nat, ops: seq<Operation>, p: Plan): seq<Byte>
    requires p.wcount + p.rcount <= |ops|
  {
    if p.status then WordBytes([rba + 1] + [8 - w.data], Alignment(w))
    else if p.rcount == 0 then []
    else WordBytes([rba] + Addresses(ops[p.wcount..p.wcount + p.rcount]), Alignment(w))
  }

  lemma PlannedHeader(w: Width, rba: nat, ops: seq<Operation>, p: Plan)
    requires p.wcount + p.rcount <= |ops| && p.wcount <= 255 && p.rcount <= 255 && (p.status ==> p.rcount == 0)
    ensures var r := RecordOf(w, rba, ops, p);
            && |r.wvals| == p.wcount && |r.raddrs| == (if p.status then 1 else p.rcount)
            && Header(w, r) == HeaderPart(w, ops, p)
  {
    hide PlanSelect, WriteWordsOf, Addresses, Padding, Fits;
  }

  lemma PlannedRuns(w: Width, rba: nat, ops: seq<Operation>, p: Plan)
    requires p.wcount + p.rcount <= |ops| && (p.status ==> p.rcount == 0)
    ensures var r := RecordOf(w, rba, ops, p);
            && RunBytes(Alignment(w), r.waddr, r.wvals) == WritePart(w, ops, p)
            && RunBytes(Alignment(w), r.raddr, r.raddrs) == ReadPart(w, rba, ops, p)
  {
    hide PlanSelect, WriteWordsOf, Addresses, Alignment, WordBytes;
  }

  lemma EncodeParts(w: Width, r: Record)
    requires WellFormed(w, r)
    ensures Encode(w, r)
            == Header(w, r) + RunBytes(Alignment(w), r.waddr, r.wvals) + RunBytes(Alignment(w), r.raddr, r.raddrs)
  {
    hide Header, RunBytes, Alignment;
  }

  /** The bytes of a planned record, part by part. */
  lemma PlannedBytes(w: Width, rba: nat, ops: seq<Operation>, p: Plan)
    requires p.wcount + p.rcount <= |ops| && p.wcount <= 255 && p.rcount <= 255 && (p.status ==> p.rcount == 0)
    requires WellFormed(w, RecordOf(w, rba, ops, p))
    ensures Encode(w, RecordOf(w, rba, ops, p)) == HeaderPart(w, ops, p) + WritePart(w, ops, p) + ReadPart(w, rba, ops, p)
    ensures |Encode(w, RecordOf(w, rba, ops, p))| == PlanLength(w, p)
  {
    hide *;
    EncodeLength(w, RecordOf(w, rba, ops, p));
    PlannedHeader(w, rba, ops, p);
    PlannedRuns(w, rba, ops, p);
    EncodeParts(w, RecordOf(w, rba, ops, p));
    PlannedLength(w, p, if p.status then 1 else p.rcount);
  }

  lemma PlannedLength(w: Width, p: Plan, rxcount: nat)
    requires rxcount == if p.status then 1 else p.rcount
    ensures PlanLength(w, p) == RecordAlignment(w) + (RunWords(p.wcount) + RunWords(rxcount)) * Alignment(w)
  {
    hide Alignment, RecordAlignment;
  }

  /** What each part takes. */
  lemma PartLengths(w: Width, rba: nat, ops: seq<Operation>, p: Plan)
    requires p.wcount + p.rcount <= |ops| && p.wcount <= 255 && p.rcount <= 255 && (p.status ==> p.rcount == 0)
    ensures |HeaderPart(w, ops, p)| == RecordAlignment(w)
    ensures |WritePart(w, ops, p)| == RunWords(p.wcount) * Alignment(w)
    ensures |ReadPart(w, rba, ops, p)| == (if p.status then 2 else RunWords(p.rcount)) * Alignment(w)
    ensures |HeaderPart(w, ops, p)| + |WritePart(w, ops, p)| + |ReadPart(w, rba, ops, p)| == PlanLength(w, p)
  {
    AlignmentFits(w);
    TwoRuns(RunWords(p.wcount), if p.status then 2 else RunWords(p.rcount), Alignment(w));
    hide Alignment, RecordAlignment, PlanSelect, FlagsOf, WordBytes;
  }

  method EmitHead(w: Width, buf: array<Byte>, wptr: nat, ops: seq<Operation>, from: nat, p: Plan) returns (shift: nat)
    requires from <= |ops| && AllFit(w, ops[from..])
    requires p.wcount + p.rcount <= |ops[from..]| && p.wcount <= 255 && p.rcount <= 255
    requires wptr + RecordAlignment(w) <= buf.Length
    modifies buf
    ensures buf[wptr..wptr + RecordAlignment(w)] == HeaderPart(w, ops[from..], p)
    ensures buf[..wptr] == old(buf[..wptr])
    ensures p.wcount > 0 ==> shift == OpShift(w, ops[from])
  {
    hide Alignment, RecordAlignment, Fits, HeaderPart, And, MakeSelect, PlanSelect, ShiftFor, OpShift, Padding, FlagsOf;
    ghost var rest := ops[from..];
    PlanSelectIsMade(w, rest, p);
    var n := p.wcount + p.rcount;
    var size;
    size, shift := w.data, 0;
    if n > 0 {
      assert rest[0] == ops[from];
      LowBits(w, ops[from].address);
      size, shift := ops[from].Size(), ShiftFor(w, ops[from].format, And(ops[from].address, w.data - 1));
    }
    var rcfg := p.status || (p.rcount > 0 && ops[from + p.wcount].config);
    assert p.rcount > 0 ==> rest[p.wcount] == ops[from + p.wcount];
    var wcfg := p.wcount > 0 && ops[from].config;
    EmitHeader(w, buf, wptr, FlagsOf(rcfg, wcfg, p.fifo, p.last), MakeSelect(size, shift), p.wcount,
               if p.status then 1 else p.rcount);
    HeaderPartIs(w, rest, p, rcfg, wcfg, if p.status then 1 else p.rcount);
  }

  lemma HeaderPartIs(w: Width, ops: seq<Operation>, p: Plan, rcfg: bool, wcfg: bool, count: Byte)
    requires p.wcount + p.rcount <= |ops| && p.wcount <= 255 && p.rcount <= 255
    requires rcfg == (p.status || (p.rcount > 0 && ops[p.wcount].config)) && wcfg == (p.wcount > 0 && ops[0].config)
    requires count == if p.status then 1 else p.rcount
    ensures HeaderPart(w, ops, p)
            == [FlagsOf(rcfg, wcfg, p.fifo, p.last), PlanSelect(w, ops, p), p.wcount, count] + Padding(w)
  {
    hide FlagsOf, PlanSelect, Padding;
  }

  method EmitWritePart(w: Width, buf: array<Byte>, start: nat, ops: seq<Operation>, from: nat, p: Plan, shift: nat)
    returns (next: nat)
    requires from + p.wcount <= |ops| && (p.wcount > 0 ==> SameShift(w, ops, from, p.wcount, shift))
    requires start + RunWords(p.wcount) * Alignment(w) <= buf.Length
    modifies buf
    ensures next == start + RunWords(p.wcount) * Alignment(w)
    ensures buf[start..next] == WritePart(w, ops[from..], p)
    ensures buf[..start] == old(buf[..start])
  {
    hide Alignment, WordBytes, WriteWordsOf, Fits, OpShift;
    next := start;
    if p.wcount > 0 {
      next := EmitWrites(w, buf, start, ops, from, p.wcount, shift);
      assert ops[from..][..p.wcount] == ops[from..from + p.wcount];
    }
  }

  method EmitReadPart(w: Width, buf: array<Byte>, start: nat, rba: nat, ops: seq<Operation>, from: nat, p: Plan)
    returns (next: nat)
    requires from + p.wcount + p.rcount <= |ops| && rba % 2 == 0 && (p.status ==> p.rcount == 0)
    requires start + (if p.status then 2 else RunWords(p.rcount)) * Alignment(w) <= buf.Length
    modifies buf
    ensures next == start + (if p.status then 2 else RunWords(p.rcount)) * Alignment(w)
    ensures buf[start..next] == ReadPart(w, rba, ops[from..], p)
    ensures buf[..start] == old(buf[..start])
  {
    next := start;
    if p.status {
      next := EmitStatus(w, buf, start, rba);
    } else if p.rcount > 0 {
      next := EmitReads(w, buf, start, rba, ops, from + p.wcount, p.rcount);
      hide Alignment, WordBytes, Addresses;
      assert ops[from..][p.wcount..p.wcount + p.rcount] == ops[from + p.wcount..from + p.wcount + p.rcount];
    }
  }

  /** The inserted status read: rba with the low bit set, then the offset of the register's low bytes. */
  method EmitStatus(w: Width, buf: array<Byte>, start: nat, rba: nat) returns (next: nat)
    requires rba % 2 == 0 && start + 2 * Alignment(w) <= buf.Length
    modifies buf
    ensures next == start + 2 * Alignment(w)
    ensures buf[start..next] == WordBytes([rba + 1] + [8 - w.data], Alignment(w))
    ensures buf[..start] == old(buf[..start])
  {
    OddAddress(rba);
    hide *;
    var al := Alignment(w);
    assert buf[start..start] == [];
    NoWords(al);
    next := Append(buf, start, [], start, Or(rba, 1), al);
    NilConcat([rba + 1]);
    next := Append(buf, start, [rba + 1], next, 8 - w.data, al);
  }

  lemma OddAddress(rba: nat)
    requires rba % 2 == 0
    ensures Or(rba, 1) == rba + 1
  {
    assert Pow2(1) == 2;
    OrDisjoint(rba, 1, 1);
  }

  lemma ThreeParts<T>(one: seq<T>, two: seq<T>, three: seq<T>, wptr: nat, i: nat, j: nat, k: nat)
    requires wptr <= i <= j <= k <= |one| == |two| == |three|
    requires two[..i] == one[..i] && three[..j] == two[..j]
    ensures three[wptr..k] == one[wptr..i] + two[i..j] + three[j..k]
    ensures three[..wptr] == one[..wptr]
  {
    Appended(two, three, wptr, j, k);
    Appended(one, two, wptr, i, j);
  }

  /** Writes the record of a plan at wptr. */
  method EmitRecord(w: Width, buf: array<Byte>, wptr: nat, rba: nat, ops: seq<Operation>, from: nat, p: Plan,
                    ghost checked: bool, ghost awaiting: nat)
    returns (next: nat)
    requires from <= |ops| && AllFit(w, ops) && rba % 2 == 0 && rba < 0xFFFF
    requires p == NextPlan(w, ops[from..], checked, awaiting)
    requires wptr + PlanLength(w, p) <= buf.Length
    modifies buf
    ensures WellFormed(w, RecordOf(w, rba, ops[from..], p))
    ensures next == wptr + PlanLength(w, p)
    ensures buf[wptr..next] == Encode(w, RecordOf(w, rba, ops[from..], p))
    ensures buf[..wptr] == old(buf[..wptr])
  {
    ghost var rest := ops[from..];
    PlanForEmit(w, rba, rest, p, checked, awaiting);
    SameShiftFrom(w, ops, from, p.wcount);
    hide *;
    var h := RecordAlignment(w);
    var shift := EmitHead(w, buf, wptr, ops, from, p);
    ghost var one := buf[..];
    var mid := EmitWritePart(w, buf, wptr + h, ops, from, p, shift);
    ghost var two := buf[..];
    next := EmitReadPart(w, buf, mid, rba, ops, from, p);
    ThreeParts(one, two, buf[..], wptr, wptr + h, mid, next);
  }

  lemma SameShiftFrom(w: Width, ops: seq<Operation>, from: nat, count: nat)
    requires from + count <= |ops|
    ensures count > 0 && SameShift(w, ops[from..], 0, count, OpShift(w, ops[from])) ==>
            SameShift(w, ops, from, count, OpShift(w, ops[from]))
  {
    hide Fits, OpShift;
    assert forall i :: from <= i < from + count ==> ops[i] == ops[from..][i - from];
  }

  lemma PlanForEmit(w: Width, rba: nat, ops: seq<Operation>, p: Plan, checked: bool, awaiting: nat)
    requires AllFit(w, ops) && rba % 2 == 0 && rba < 0xFFFF && p == NextPlan(w, ops, checked, awaiting)
    ensures p.wcount + p.rcount <= |ops| && p.wcount <= 255 && p.rcount <= 255 && (p.status ==> p.rcount == 0)
    ensures WellFormed(w, RecordOf(w, rba, ops, p))
    ensures Encode(w, RecordOf(w, rba, ops, p)) == HeaderPart(w, ops, p) + WritePart(w, ops, p) + ReadPart(w, rba, ops, p)
    ensures |HeaderPart(w, ops, p)| == RecordAlignment(w)
    ensures |WritePart(w, ops, p)| == RunWords(p.wcount) * Alignment(w)
    ensures |ReadPart(w, rba, ops, p)| == (if p.status then 2 else RunWords(p.rcount)) * Alignment(w)
    ensures PlanLength(w, p)
            == RecordAlignment(w) + RunWords(p.wcount) * Alignment(w)
               + (if p.status then 2 else RunWords(p.rcount)) * Alignment(w)
    ensures p.wcount > 0 ==> SameShift(w, ops, 0, p.wcount, OpShift(w, ops[0]))
  {
    hide NextPlan, Fits, WellFormed, RecordOf, Encode, HeaderPart, WritePart, ReadPart, SameShift, OpShift, Alignment,
         RecordAlignment;
    RecordWellFormed(w, rba, ops, checked, awaiting);
    PlanShift(w, ops, checked, awaiting);
    PlannedBytes(w, rba, ops, p);
    PartLengths(w, rba, ops, p);
  }

  lemma PlanEncoded(w: Width, rba: nat, ops: seq<Operation>, p: Plan, checked: bool, awaiting: nat)
    requires AllFit(w, ops) && rba % 2 == 0 && rba < 0xFFFF && p == NextPlan(w, ops, checked, awaiting)
    ensures p.wcount + p.rcount <= |ops|
    ensures WellFormed(w, RecordOf(w, rba, ops, p)) && |Encode(w, RecordOf(w, rba, ops, p))| == PlanLength(w, p)
  {
    hide *;
    PlanForEmit(w, rba, ops, p, checked, awaiting);
    PlannedBytes(w, rba, ops, p);
  }
}
