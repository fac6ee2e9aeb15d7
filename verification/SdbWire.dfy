/** A bus table read over the wire: the reads of a scan, performed by a remote end that serves its table in its SDB
    window. */
module SdbWire {
  import opened Words
  import opened Widths
  import opened Operations
  import opened Records
  import opened Slave
  import opened Packing
  import opened Responses
  import opened RoundTrip
  import opened Exchange
  import opened Handlers
  import opened ReadWrite
  import opened Sdb
  import SdbScan

  /** The bus of an end with attached devices, the SDB table of which lies at offset. */
  function TableBus<S>(hs: seq<Handler>, offset: nat, version: nat, date: nat, calls: Callbacks<S>,
                       config: (S, nat, nat, nat) -> S): Bus<S>
    requires AllValid(hs)
  {
    var t := Table(hs, version, date);
    LocalBus(hs, offset, (size: nat, addr: nat) => Served(t, size, addr), calls, config)
  }

  /** The read of one full word of the table, as it has passed validation. */
  function WordRead(w: Width, address: nat, first: bool): Operation {
    Operation(ReadVal, false, first, false, address, 0, w.data)
  }

  /** The reads of record k of a table that starts at an address. */
  function RecordReads(w: Width, address: nat, k: nat): (ops: seq<Operation>)
    ensures |ops| == 64 / w.data
    ensures forall j :: 0 <= j < |ops| ==> ops[j] == WordRead(w, address + 64 * k + j * w.data, j == 0)
  {
    seq(64 / w.data, j requires 0 <= j => WordRead(w, address + 64 * k + j * w.data, j == 0))
  }

  lemma WordAccess(w: Width, rba: nat, address: nat, first: bool)
    requires address % w.data == 0
    ensures AccessOf(w, rba, WordRead(w, address, first)) == BusRead(w.data, address, address, ToConfig(rba))
  {
    assert Endian(w.data) == 0;
  }

  lemma ServedBound(table: seq<Byte>, size: nat, addr: nat)
    ensures Served(table, size, addr) < Pow256(size)
  {
    if addr + size <= |table| {
      ValueBound(table[addr..addr + size]);
    }
  }

  lemma WindowRead<S>(hs: seq<Handler>, offset: nat, version: nat, date: nat, calls: Callbacks<S>,
                      config: (S, nat, nat, nat) -> S, s: S, size: nat, address: nat)
    requires AllValid(hs) && offset <= address < offset + WINDOW < WORD
    ensures TableBus(hs, offset, version, date, calls, config).read(s, size, address, address)
            == (s, Served(Table(hs, version, date), size, address - offset), false)
  {
    hide AllValid, Table, Served, ReadLocal;
    var t := Table(hs, version, date);
    var table := (size: nat, addr: nat) => Served(t, size, addr);
    ReadsWindow(hs, offset, table, calls, s, size, address);
    assert TableBus(hs, offset, version, date, calls, config) == LocalBus(hs, offset, table, calls, config);
  }

  lemma ReadsWindow<S>(hs: seq<Handler>, offset: nat, table: (nat, nat) -> nat, calls: Callbacks<S>, s: S, size: nat,
                       address: nat)
    requires offset <= address < offset + WINDOW < WORD
    ensures ReadLocal(hs, offset, table, calls, s, size, address, address) == (s, table(size, address - offset), false)
  {
    assert InWindow(offset, address);
    hide Find, InWindow, AddressFor;
  }

  lemma WordPerformed<S>(w: Width, rba: nat, bus: Bus<S>, st: State<S>, address: nat, first: bool, checked: bool, value: nat)
    requires address % w.data == 0 && value < Pow256(w.data)
    requires bus.read(st.s, w.data, address, address) == (st.s, value, false)
    ensures var op := WordRead(w, address, first);
            Performed(w, rba, bus, st, checked, op) == op.(value := value)
  {
    WordAccess(w, rba, address, first);
    SmallMod(value, Pow256(w.data));
    hide AccessOf, Pow256, ShiftIn;
    assert Perform(bus, st, BusRead(w.data, address, address, ToConfig(rba))).1 == value;
  }

  /** A read of a full word of the window. */
  predicate WindowWord(w: Width, offset: nat, op: Operation) {
    op == WordRead(w, op.address, op.checked) && op.address % w.data == 0 && offset <= op.address < offset + WINDOW
  }

  /** It with the word that the table holds. */
  function FromTable(w: Width, t: seq<Byte>, offset: nat, op: Operation): Operation {
    if offset <= op.address then op.(value := Served(t, w.data, op.address - offset)) else op
  }

  /** One read of the window. */
  lemma WindowPerformed<S>(w: Width, rba: nat, hs: seq<Handler>, offset: nat, version: nat, date: nat, calls: Callbacks<S>,
                           config: (S, nat, nat, nat) -> S, st: State<S>, op: Operation, checked: bool)
    requires AllValid(hs) && offset + WINDOW < WORD && WindowWord(w, offset, op)
    ensures Performed(w, rba, TableBus(hs, offset, version, date, calls, config), st, checked, op)
            == FromTable(w, Table(hs, version, date), offset, op)
  {
    var t := Table(hs, version, date);
    hide AllValid, TableBus, Table, Served, Performed, WordRead;
    WindowRead(hs, offset, version, date, calls, config, st.s, w.data, op.address);
    ServedBound(t, w.data, op.address - offset);
    WordPerformed(w, rba, TableBus(hs, offset, version, date, calls, config), st, op.address, op.checked, checked,
                  Served(t, w.data, op.address - offset));
  }

  /** Reads of the window come back with what the table holds, whatever the state of the devices. */
  lemma {:induction false} WindowOutcome<S>(w: Width, rba: nat, hs: seq<Handler>, offset: nat, version: nat, date: nat,
                                            calls: Callbacks<S>, config: (S, nat, nat, nat) -> S, st: State<S>,
                                            ops: seq<Operation>, checked: bool)
    requires AllValid(hs) && offset + WINDOW < WORD
    requires forall j :: 0 <= j < |ops| ==> WindowWord(w, offset, ops[j])
    ensures var final := Outcome(w, rba, TableBus(hs, offset, version, date, calls, config), st, checked, ops).1;
            forall j :: 0 <= j < |ops| ==> final[j] == FromTable(w, Table(hs, version, date), offset, ops[j])
    decreases ops
  {
    if ops != [] {
      var bus := TableBus(hs, offset, version, date, calls, config);
      var t := Table(hs, version, date);
      var st1 := Perform(bus, st, AccessOf(w, rba, ops[0])).0;
      WindowPerformed(w, rba, hs, offset, version, date, calls, config, st, ops[0], checked);
      assert forall j :: 0 <= j < |ops[1..]| ==> ops[1..][j] == ops[j + 1];
      WindowOutcome(w, rba, hs, offset, version, date, calls, config, st1, ops[1..], checked);
      var final := Outcome(w, rba, bus, st, checked, ops).1;
      assert final == [Performed(w, rba, bus, st, checked, ops[0])] + Outcome(w, rba, bus, st1, checked, ops[1..]).1;
      hide AllValid, TableBus, Table, Perform, AccessOf, Performed, Outcome, WordRead, FromTable;
      forall j | 0 <= j < |ops|
        ensures final[j] == FromTable(w, t, offset, ops[j])
      {
        if j > 0 {
          assert ops[j] == ops[1..][j - 1];
        }
      }
    }
  }

  lemma StepInside(j: nat, stride: nat, k: nat, n: nat)
    requires Span(stride) && j < 64 / stride && k < n
    ensures 64 * k + j * stride + stride <= 64 * n && (64 * k + j * stride) % stride == 0
  {
    SdbScan.StepInside(j, stride);
    var c := 64 / stride;
    assert 64 == stride * c;
    assert 64 * k + j * stride == stride * (c * k + j);
    DivMod(64 * k + j * stride, stride, c * k + j, 0);
  }

  lemma AddressAligned(offset: nat, x: nat, stride: nat)
    requires Span(stride) && offset % 8 == 0 && x % stride == 0
    ensures (offset + x) % stride == 0
  {
    SpanDivides(offset, stride);
    SumAligned(offset, x, stride);
  }

  lemma SpanDivides(offset: nat, stride: nat)
    requires Span(stride) && offset % 8 == 0
    ensures offset % stride == 0
  {
    var q := offset / 8;
    if stride == 1 {
      DivMod(offset, 1, 8 * q, 0);
    } else if stride == 2 {
      DivMod(offset, 2, 4 * q, 0);
    } else if stride == 4 {
      DivMod(offset, 4, 2 * q, 0);
    }
  }

  lemma SumAligned(x: nat, y: nat, stride: nat)
    requires stride > 0 && x % stride == 0 && y % stride == 0
    ensures (x + y) % stride == 0
  {
    var a, b := x / stride, y / stride;
    assert x == stride * a && y == stride * b && stride * (a + b) == stride * a + stride * b;
    DivMod(x + y, stride, a + b, 0);
  }

  /** The cycle a scan sends for one record. */
  function RecordCycle(w: Width, rba: nat, deadline: nat, handle: nat, device: nat, address: nat, k: nat): Sent {
    Sent(rba, deadline, true, Cycle(handle, device, RecordReads(w, address, k)))
  }

  /** The table's records can be read if the window lies inside the port's addresses. */
  predicate Reachable(w: Width, hs: seq<Handler>, offset: nat) {
    offset % 8 == 0 && offset + WINDOW < WORD && |hs| < 256 && offset + 64 * (|hs| + 1) <= Pow256(w.addr)
  }

  lemma ReadAt(w: Width, hs: seq<Handler>, offset: nat, k: nat, j: nat)
    requires Reachable(w, hs, offset) && k <= |hs| && j < 64 / w.data
    ensures var a := offset + 64 * k + j * w.data;
            a % w.data == 0 && offset <= a < offset + WINDOW && a < Pow256(w.addr)
  {
    StepInside(j, w.data, k, |hs| + 1);
    AddressAligned(offset, 64 * k + j * w.data, w.data);
    hide Pow256;
    assert offset + (64 * k + j * w.data) == offset + 64 * k + j * w.data;
  }

  lemma RecordSendable(w: Width, hs: seq<Handler>, rba: nat, deadline: nat, handle: nat, device: nat, offset: nat, k: nat)
    requires Reachable(w, hs, offset) && k <= |hs| && rba % 2 == 0 && rba < 0xFFFF
    ensures Sendable(w, RecordCycle(w, rba, deadline, handle, device, offset, k))
    ensures !Unanswered(RecordCycle(w, rba, deadline, handle, device, offset, k))
  {
    var ops := RecordReads(w, offset, k);
    forall j | 0 <= j < |ops|
      ensures Fits(w, ops[j]) && !ops[j].error && ops[j].IsRead()
    {
      ReadAt(w, hs, offset, k, j);
      assert Endian(w.data) == 0;
      hide Pow256;
    }
    hide Fits;
    assert ops != [];
    assert ops[0].IsRead();
  }

  lemma WordFromTable(w: Width, t: seq<Byte>, offset: nat, x: nat, first: bool)
    ensures var op := FromTable(w, t, offset, WordRead(w, offset + x, first));
            && op.address == offset + x && op.Size() == w.data && !op.error
            && op.value == Served(t, w.data, x)
  {
    hide Served;
    assert Endian(w.data) == 0;
  }

  lemma RecordRead(w: Width, t: seq<Byte>, offset: nat, k: nat, final: seq<Operation>)
    requires 64 * k + 64 <= |t| && |final| == 64 / w.data
    requires forall j :: 0 <= j < |final| ==> final[j] == FromTable(w, t, offset, RecordReads(w, offset, k)[j])
    ensures FinalStatus(final) == OK && SdbScan.ReadsRecord(t, offset, w.data, k, final)
  {
    hide Served, FromTable, WordRead;
    forall j | 0 <= j < |final|
      ensures && final[j].address == offset + 64 * k + j * w.data && final[j].Size() == w.data && !final[j].error
              && final[j].value == Served(t, w.data, 64 * k + j * w.data)
    {
      var x := 64 * k + j * w.data;
      assert offset + x == offset + 64 * k + j * w.data;
      WordFromTable(w, t, offset, x, j == 0);
    }
  }

  /** The callback of that cycle reports success and the record as the table holds it, whatever state the remote devices
      are in. */
  lemma RecordArrives<S>(w: Width, hs: seq<Handler>, offset: nat, version: nat, date: nat, calls: Callbacks<S>,
                         config: (S, nat, nat, nat) -> S, st: State<S>, s: Sent, k: nat)
    requires AllValid(hs) && Reachable(w, hs, offset) && k <= |hs|
    requires s == RecordCycle(w, s.rba, s.deadline, s.cycle.handle, s.cycle.device, offset, k)
    ensures var c := Expected(w, TableBus(hs, offset, version, date, calls, config), st, s).1;
            c.status == OK && SdbScan.ReadsRecord(Table(hs, version, date), offset, w.data, k, c.cycle.ops)
  {
    var ops := RecordReads(w, offset, k);
    forall j | 0 <= j < |ops|
      ensures WindowWord(w, offset, ops[j])
    {
      ReadAt(w, hs, offset, k, j);
    }
    hide Reachable, WindowWord;
    WindowOutcome(w, s.rba, hs, offset, version, date, calls, config, st, ops, true);
    hide FromTable, RecordReads, TableBus, Table, AllValid, Outcome;
    var final := Outcome(w, s.rba, TableBus(hs, offset, version, date, calls, config), st, true, ops).1;
    RecordRead(w, Table(hs, version, date), offset, k, final);
    hide SdbScan.ReadsRecord, FinalStatus;
  }

  lemma OneExpected<S>(w: Width, bus: Bus<S>, st: State<S>, s: Sent)
    requires !Unanswered(s)
    ensures ExpectedAll(w, bus, st, [s]) == (Expected(w, bus, st, s).0, [Expected(w, bus, st, s).1])
  {
    hide Expected, Unanswered;
    assert [s][1..] == [] && [Expected(w, bus, st, s).1] + [] == [Expected(w, bus, st, s).1];
  }

  lemma OneSendable(w: Width, s: Sent)
    requires Sendable(w, s)
    ensures AllSendable(w, [s])
  {
    hide Sendable, Unanswered;
  }

  /** The packet for one record goes out, its reply comes back: the cycle has one callback, it reports success, and it
      holds the record as the table does. */
  lemma RecordOverTheWire<S, D>(w: Width, hs: seq<Handler>, offset: nat, version: nat, date: nat, calls: Callbacks<S>,
                                config: (S, nat, nat, nat) -> S, st: State<S>, local: Bus<D>, d: D, error: nat, s: Sent,
                                k: nat, older: seq<Response>, newer: seq<Response>, done: seq<Completion>)
    requires AllValid(hs) && Reachable(w, hs, offset) && k <= |hs| && s.rba % 2 == 0 && s.rba < 0xFFFF
    requires s == RecordCycle(w, s.rba, s.deadline, s.cycle.handle, s.cycle.device, offset, k)
    requires AllSound(older) && AllSound(newer) && Apart(older, [s])
    ensures AllWellFormed(w, RequestOf(w, [s]))
    ensures var remote := TableBus(hs, offset, version, date, calls, config);
            var (st1, bytes) := Exchange.Serve(w, remote, st, EncodeAll(w, RequestOf(w, [s])));
            var c := Expected(w, remote, st, s).1;
            && c.status == OK && SdbScan.ReadsRecord(Table(hs, version, date), offset, w.data, k, c.cycle.ops)
            && Exchange.Serve(w, EndBus(local), State((Awaiting(older, [s], newer, done), d), error), bytes)
               == (State((Mailbox(older + newer, done + [c]), d), error), [])
  {
    hide *;
    var remote := TableBus(hs, offset, version, date, calls, config);
    RecordSendable(w, hs, s.rba, s.deadline, s.cycle.handle, s.cycle.device, offset, k);
    OneSendable(w, s);
    OneExpected(w, remote, st, s);
    RecordArrives(w, hs, offset, version, date, calls, config, st, s, k);
    PacketRoundTrip(w, remote, st, local, d, error, [s], older, newer, done);
  }

  /** One cycle for each record of a table with n devices, in some order, possibly more than once. */
  predicate RecordCycles(w: Width, offset: nat, n: nat, order: seq<nat>, cycles: seq<Sent>) {
    && |cycles| == |order| && (forall k :: 0 <= k <= n ==> k in order)
    && forall i :: 0 <= i < |order| ==>
         order[i] <= n
         && cycles[i] == RecordCycle(w, cycles[i].rba, cycles[i].deadline, cycles[i].cycle.handle, cycles[i].cycle.device,
                                     offset, order[i])
  }

  /** What the callbacks of these cycles get, the remote end being in some state at each. */
  function Arrivals<S>(w: Width, bus: Bus<S>, sts: seq<State<S>>, cycles: seq<Sent>): (blocks: seq<seq<Operation>>)
    requires |sts| == |cycles|
    ensures |blocks| == |cycles|
    ensures forall i :: 0 <= i < |cycles| ==> blocks[i] == Expected(w, bus, sts[i], cycles[i]).1.cycle.ops
  {
    hide Expected;
    seq(|cycles|, i requires 0 <= i < |cycles| => Expected(w, bus, sts[i], cycles[i]).1.cycle.ops)
  }

  lemma ArrivalsRead<S>(w: Width, hs: seq<Handler>, offset: nat, version: nat, date: nat, calls: Callbacks<S>,
                        config: (S, nat, nat, nat) -> S, sts: seq<State<S>>, cycles: seq<Sent>, order: seq<nat>)
    requires AllValid(hs) && Reachable(w, hs, offset) && |sts| == |cycles| && RecordCycles(w, offset, |hs|, order, cycles)
    ensures SdbScan.ReadsAll(Table(hs, version, date), offset, w.data, order,
                             Arrivals(w, TableBus(hs, offset, version, date, calls, config), sts, cycles))
  {
    var bus := TableBus(hs, offset, version, date, calls, config);
    var blocks := Arrivals(w, bus, sts, cycles);
    hide TableBus, Table, AllValid, Reachable, Expected, RecordCycle, Arrivals, SdbScan.ReadsRecord;
    forall i | 0 <= i < |order|
      ensures SdbScan.ReadsRecord(Table(hs, version, date), offset, w.data, order[i], blocks[i])
    {
      RecordArrives(w, hs, offset, version, date, calls, config, sts[i], cycles[i], order[i]);
    }
  }

  /** A bus scanned over the wire. The remote end has fewer than 256 devices and its window inside the port's addresses.
      Whatever state it is in when each record is read, and in whatever order the callbacks come, the gathered records
      describe exactly its attached devices, in list order, moved by the address the bus is seen at. */
  lemma ScanOverTheWire<S>(w: Width, hs: seq<Handler>, offset: nat, version: nat, date: nat, calls: Callbacks<S>,
                           config: (S, nat, nat, nat) -> S, sts: seq<State<S>>, cycles: seq<Sent>, order: seq<nat>,
                           base: nat, range: SdbScan.Range, block: seq<Byte>)
    requires AllValid(hs) && Reachable(w, hs, offset) && version < 0x1_0000_0000 && date < 0x1_0000_0000
    requires |sts| == |cycles| && |block| == SdbScan.BlockSize(|hs|) && RecordCycles(w, offset, |hs|, order, cycles)
    ensures var blocks := Arrivals(w, TableBus(hs, offset, version, date, calls, config), sts, cycles);
            SdbScan.Describes(SdbScan.Outcome(block, SdbScan.Gathered(blocks), base, range), hs, base)
  {
    ArrivalsRead(w, hs, offset, version, date, calls, config, sts, cycles, order);
    hide AllValid, TableBus, Table, Arrivals, SdbScan.ReadsAll, SdbScan.Describes, SdbScan.Outcome;
    assert offset + 64 * (|hs| + 1) < WORD;
    SdbScan.ScanRoundTrip(hs, version, date, w.data, offset, base, range, order,
                          Arrivals(w, TableBus(hs, offset, version, date, calls, config), sts, cycles), block);
  }
}
