/** What a request means to the end that receives it, and what it answers. */
module Slave {
  import opened Seqs
  import opened Words
  import opened Widths
  import opened Select
  import opened Records

  // ---------------------------------------------------------------------------
  // Accesses
  // ---------------------------------------------------------------------------

  type Size = n: nat | n <= 8

  /** Where the result of a read is to be written on the requesting end. */
  datatype Return = ToConfig(addr: nat) | ToBus(addrB: nat, addrL: nat)

  /** One step asked of the receiving end. addrB and addrL are what big- and little-endian devices see. */
  datatype Access =
    | BusWrite(size: Size, addrB: nat, addrL: nat, value: nat)
    | ConfigWrite(size: Size, addr: nat, value: nat)
    | BusRead(size: Size, addrB: nat, addrL: nat, back: Return)
    | ConfigRead(size: Size, addr: nat, back: Return)
    | BadWrite(config: bool)                  // the select lines make no sense
    | BadRead(config: bool, toConfig: bool)
  {
    predicate IsRead() {
      BusRead? || ConfigRead? || BadRead?
    }
  }

  /** The address bits a bus access keeps: address_filter_bits. */
  function FilterMask(w: Width): int {
    Pow256(w.addr) - 1 - (w.data - 1)
  }

  function Filter(w: Width, address: nat): nat {
    var kept := address % Pow256(w.addr);
    kept - kept % w.data
  }

  lemma KeptLow(w: Width, address: nat)
    ensures (address % Pow256(w.addr)) % w.data == address % w.data
  {
    var p, d := Pow256(w.addr), w.data;
    assert p == d * (p / d) by { Pow256Values(); }
    var kept, q, c := address % p, address / p, p / d;
    assert address == p * q + kept;
    assert p * q == d * (c * q);
    assert d * (c * q) + d * (kept / d) == d * (c * q + kept / d);
    DivMod(address, d, c * q + kept / d, kept % d);
  }

  /** Where the selected bytes lie inside a word, seen by a big- and by a little-endian device. */
  function LowBig(w: Width, d: Lines): nat {
    if d.shift + d.size <= w.data then w.data - (d.shift + d.size) else 0
  }

  function LowLittle(d: Lines): nat {
    d.shift
  }

  /** The next address of a run: unchanged for a FIFO, one port width further otherwise. */
  function Advance(w: Width, fifo: bool, address: nat): nat {
    if fifo then address else (address + w.data) % WORD
  }

  /** The datum a write word carries. */
  function Datum(d: Lines, word: nat): nat {
    ShrBytes(word, d.shift) % Pow256(d.size)
  }

  /** A run of writes; a is the plain address, b and l its two bus forms. */
  function WriteMeaning(w: Width, d: Lines, config: bool, fifo: bool, a: nat, b: nat, l: nat, vals: seq<nat>): seq<Access>
    requires d.size <= 8
    decreases vals
  {
    if vals == [] then [] else
      var first :=
        if !d.ok then BadWrite(config)
        else if config then ConfigWrite(d.size, a, Datum(d, vals[0]))
        else BusWrite(d.size, b, l, Datum(d, vals[0]));
      [first] + WriteMeaning(w, d, config, fifo, Advance(w, fifo, a), Advance(w, fifo, b), Advance(w, fifo, l), vals[1..])
  }

  /** A run of reads whose results return to the plain address a or its bus forms b and l. */
  function ReadMeaning(w: Width, d: Lines, config: bool, toConfig: bool, fifo: bool, a: nat, b: nat, l: nat,
                       addrs: seq<nat>): (r: seq<Access>)
    requires d.size <= 8
    ensures |r| == |addrs|
    decreases addrs
  {
    if addrs == [] then [] else
      var back := if toConfig then ToConfig(a) else ToBus(b, l);
      var base := Filter(w, addrs[0]);
      var first :=
        if !d.ok then BadRead(config, toConfig)
        else if config then ConfigRead(d.size, base + LowBig(w, d), back)
        else BusRead(d.size, base + LowBig(w, d), base + LowLittle(d), back);
      [first] + ReadMeaning(w, d, config, toConfig, fifo,
                            Advance(w, fifo, a), Advance(w, fifo, b), Advance(w, fifo, l), addrs[1..])
  }

  /** A run of writes from its first address as it stands on the wire. */
  function WritesFrom(w: Width, d: Lines, config: bool, fifo: bool, address: nat, vals: seq<nat>): seq<Access>
    requires d.size <= 8
  {
    var base := Filter(w, address);
    WriteMeaning(w, d, config, fifo, address, base + LowBig(w, d), base + LowLittle(d), vals)
  }

  /** A run of reads whose results return to the address back. */
  function ReadsFrom(w: Width, d: Lines, config: bool, toConfig: bool, fifo: bool, back: nat, addrs: seq<nat>)
    : (s: seq<Access>)
    requires d.size <= 8
    ensures |s| == |addrs|
  {
    var base := Filter(w, back);
    ReadMeaning(w, d, config, toConfig, fifo, back, base + LowBig(w, d), base + LowLittle(d), addrs)
  }

  function Writes(w: Width, r: Record): seq<Access> {
    WritesFrom(w, Decode(w.data, r.select), r.wca, r.wff, r.waddr, r.wvals)
  }

  function Reads(w: Width, r: Record): (s: seq<Access>)
    ensures |s| == |r.raddrs|
  {
    ReadsFrom(w, Decode(w.data, r.select), r.rca, r.bca, r.rff, r.raddr, r.raddrs)
  }

  /** A record: its writes, then its reads. */
  function Meaning(w: Width, r: Record): seq<Access> {
    Writes(w, r) + Reads(w, r)
  }

  function MeaningAll(w: Width, rs: seq<Record>): seq<Access> {
    if rs == [] then [] else Meaning(w, rs[0]) + MeaningAll(w, rs[1..])
  }

  lemma {:induction false} MeaningAllConcat(w: Width, a: seq<Record>, b: seq<Record>)
    ensures MeaningAll(w, a + b) == MeaningAll(w, a) + MeaningAll(w, b)
  {
    if a == [] {
      assert a + b == b;
    } else {
      assert (a + b)[1..] == a[1..] + b;
      MeaningAllConcat(w, a[1..], b);
      ConcatAssoc(Meaning(w, a[0]), MeaningAll(w, a[1..]), MeaningAll(w, b));
    }
  }

  // ---------------------------------------------------------------------------
  // Performing accesses
  // ---------------------------------------------------------------------------

  /** The local bus: devices, the config-space writer, and where the SDB table lies. S is their joint state. */
  datatype Bus<!S> = Bus(
    write: (S, nat, nat, nat, nat) -> (S, bool),   // size, addrB, addrL, value; true means the access failed
    read: (S, nat, nat, nat) -> (S, nat, bool),    // size, addrB, addrL
    configWrite: (S, nat, nat, nat) -> S,          // size, address, value
    sdbOffset: S -> nat)

  datatype State<S> = State(s: S, error: nat)

  /** Shifts one more outcome into the 64-bit error register. */
  function ShiftIn(error: nat, fail: bool): nat {
    (2 * error + (if fail then 1 else 0)) % WORD
  }

  /** eb_socket_read_config: the error register, then the SDB pointer, then nothing. */
  function ReadConfig(error: nat, sdb: nat, size: Size, addr: nat): nat {
    if addr >= 16 then 0
    else Value((BigEndian(error, 8) + BigEndian(sdb, 8) + BigEndian(0, 8))[addr..addr + size])
  }

  /** The new state, and the value of a read (0 otherwise). */
  function Perform<S>(bus: Bus<S>, st: State<S>, a: Access): (State<S>, nat) {
    match a
    case BusWrite(size, addrB, addrL, value) =>
      var (s, fail) := bus.write(st.s, size, addrB, addrL, value);
      (State(s, ShiftIn(st.error, fail)), 0)
    case ConfigWrite(size, addr, value) =>
      (State(bus.configWrite(st.s, size, addr, value), st.error), 0)
    case BusRead(size, addrB, addrL, _) =>
      var (s, value, fail) := bus.read(st.s, size, addrB, addrL);
      (State(s, ShiftIn(st.error, fail)), value)
    case ConfigRead(size, addr, _) =>
      (st, ReadConfig(st.error, bus.sdbOffset(st.s), size, addr))
    case BadWrite(config) =>
      (if config then st else State(st.s, ShiftIn(st.error, true)), 0)
    case BadRead(config, _) =>
      (if config then st else State(st.s, ShiftIn(st.error, true)), 0)
  }

  /** Performs accesses in order and collects the values read. */
  function Run<S>(bus: Bus<S>, st: State<S>, accesses: seq<Access>): (State<S>, seq<nat>)
    decreases accesses
  {
    if accesses == [] then (st, []) else
      var (st1, v) := Perform(bus, st, accesses[0]);
      var (st2, vs) := Run(bus, st1, accesses[1..]);
      (st2, if accesses[0].IsRead() then [v] + vs else vs)
  }

  /** What the result of a read asks of the requesting end. */
  function Answer(a: Access, value: nat): Access
    requires a.IsRead()
  {
    match a
    case BusRead(size, _, _, back) => Deliver(size, back, value)
    case ConfigRead(size, _, back) => Deliver(size, back, value)
    case BadRead(_, toConfig) => BadWrite(toConfig)
  }

  function Deliver(size: Size, back: Return, value: nat): Access {
    match back
    case ToConfig(addr) => ConfigWrite(size, addr, value % Pow256(size))
    case ToBus(addrB, addrL) => BusWrite(size, addrB, addrL, value % Pow256(size))
  }

  /** Performs accesses in order and collects the answers: the reference for a reply. */
  function Answers<S>(bus: Bus<S>, st: State<S>, accesses: seq<Access>): (State<S>, seq<Access>)
    decreases accesses
  {
    if accesses == [] then (st, []) else
      var (st1, v) := Perform(bus, st, accesses[0]);
      var (st2, out) := Answers(bus, st1, accesses[1..]);
      (st2, if accesses[0].IsRead() then [Answer(accesses[0], v)] + out else out)
  }

  lemma {:induction false} RunIsAnswers<S>(bus: Bus<S>, st: State<S>, accesses: seq<Access>)
    ensures Run(bus, st, accesses).0 == Answers(bus, st, accesses).0
    decreases accesses
  {
    if accesses != [] {
      RunIsAnswers(bus, Perform(bus, st, accesses[0]).0, accesses[1..]);
    }
  }

  lemma {:induction false} RunConcat<S>(bus: Bus<S>, st: State<S>, a: seq<Access>, b: seq<Access>)
    ensures var (st1, vs) := Run(bus, st, a);
            Run(bus, st, a + b) == (Run(bus, st1, b).0, vs + Run(bus, st1, b).1)
    decreases a
  {
    if a == [] {
      assert a + b == b;
      assert [] + Run(bus, st, b).1 == Run(bus, st, b).1;
    } else {
      assert (a + b)[1..] == a[1..] + b;
      var (st1, v) := Perform(bus, st, a[0]);
      RunConcat(bus, st1, a[1..], b);
      var (st2, vs) := Run(bus, st1, a[1..]);
      ConcatAssoc([v], vs, Run(bus, st2, b).1);
    }
  }

  lemma {:induction false} AnswersConcat<S>(bus: Bus<S>, st: State<S>, a: seq<Access>, b: seq<Access>)
    ensures var (st1, out) := Answers(bus, st, a);
            Answers(bus, st, a + b) == (Answers(bus, st1, b).0, out + Answers(bus, st1, b).1)
    decreases a
  {
    if a == [] {
      assert a + b == b;
      assert [] + Answers(bus, st, b).1 == Answers(bus, st, b).1;
    } else {
      assert (a + b)[1..] == a[1..] + b;
      var (st1, v) := Perform(bus, st, a[0]);
      AnswersConcat(bus, st1, a[1..], b);
      if a[0].IsRead() {
        var (st2, out) := Answers(bus, st1, a[1..]);
        ConcatAssoc([Answer(a[0], v)], out, Answers(bus, st2, b).1);
      }
    }
  }

  // ---------------------------------------------------------------------------
  // The reply
  // ---------------------------------------------------------------------------

  /** The word that carries a read value back. */
  function ReplyWord(d: Lines, value: nat): nat {
    if d.ok then ShlBytes(value % Pow256(d.size), d.shift) else 0
  }

  function ReplyWords(d: Lines, values: seq<nat>): (r: seq<nat>)
    ensures |r| == |values|
  {
    if values == [] then [] else [ReplyWord(d, values[0])] + ReplyWords(d, values[1..])
  }

  /** The record written back for a record with reads. */
  function Reply(w: Width, r: Record, values: seq<nat>): Record {
    Record(false, false, false, r.cyc, r.bca, r.rff, r.select,
           r.raddr, ReplyWords(Decode(w.data, r.select), values), 0, [])
  }

  /** An empty record that closes a cycle left open by the replies so far. */
  const TERMINATOR: Record := Record(false, false, false, true, false, false, 0, 0, [], 0, [])

  /** cycle_open after a record. */
  function LeavesOpen(open: bool, r: Record): bool {
    if r.raddrs == [] then open else !r.cyc
  }

  /** The records one request record adds to the reply. */
  function ReplyTo(w: Width, open: bool, r: Record, values: seq<nat>): seq<Record> {
    (if r.raddrs == [] then [] else [Reply(w, r, values)])
    + (if LeavesOpen(open, r) && r.cyc then [TERMINATOR] else [])
  }

  /** The slave's response to a sequence of records: final state, cycle_open, and the reply. */
  function Respond<S>(w: Width, bus: Bus<S>, st: State<S>, open: bool, rs: seq<Record>): (State<S>, bool, seq<Record>)
    decreases rs
  {
    if rs == [] then (st, open, []) else
      var (st1, values) := Run(bus, st, Meaning(w, rs[0]));
      var (st2, open2, out) := Respond(w, bus, st1, LeavesOpen(open, rs[0]), rs[1..]);
      (st2, open2, ReplyTo(w, open, rs[0], values) + out)
  }

  lemma {:induction false} WritesReadNothing<S>(
      w: Width, d: Lines, config: bool, fifo: bool, a: nat, b: nat, l: nat, vals: seq<nat>, bus: Bus<S>, st: State<S>)
    requires d.size <= 8
    ensures var accesses := WriteMeaning(w, d, config, fifo, a, b, l, vals);
            Run(bus, st, accesses).1 == [] && Answers(bus, st, accesses).1 == []
    decreases vals
  {
    if vals != [] {
      var accesses := WriteMeaning(w, d, config, fifo, a, b, l, vals);
      WritesReadNothing(w, d, config, fifo, Advance(w, fifo, a), Advance(w, fifo, b), Advance(w, fifo, l), vals[1..],
                        bus, Perform(bus, st, accesses[0]).0);
    }
  }

  /** The words returned for a run of reads, read as a run of writes, are the answers. */
  lemma {:induction false} ReplyRunMeans<S>(
      w: Width, d: Lines, config: bool, toConfig: bool, fifo: bool, a: nat, b: nat, l: nat, addrs: seq<nat>,
      bus: Bus<S>, st: State<S>)
    requires d.size <= 8
    ensures var asks := ReadMeaning(w, d, config, toConfig, fifo, a, b, l, addrs);
            var values := Run(bus, st, asks).1;
            && |values| == |addrs|
            && WriteMeaning(w, d, toConfig, fifo, a, b, l, ReplyWords(d, values)) == Answers(bus, st, asks).1
    decreases addrs
  {
    if addrs != [] {
      var asks := ReadMeaning(w, d, config, toConfig, fifo, a, b, l, addrs);
      var (st1, v) := Perform(bus, st, asks[0]);
      ReplyRunMeans(w, d, config, toConfig, fifo, Advance(w, fifo, a), Advance(w, fifo, b), Advance(w, fifo, l),
                    addrs[1..], bus, st1);
      DatumOfReply(d, v);
      var values := Run(bus, st, asks).1;
      assert values == [v] + Run(bus, st1, asks[1..]).1;
      assert values[1..] == Run(bus, st1, asks[1..]).1;
    }
  }

  lemma DatumOfReply(d: Lines, v: nat)
    ensures d.ok ==> Datum(d, ReplyWord(d, v)) == v % Pow256(d.size)
  {
    if d.ok {
      ShrOfShlBytes(v % Pow256(d.size), d.shift);
      SmallMod(v % Pow256(d.size), Pow256(d.size));
    }
  }

  /** Writes come first and return nothing. */
  lemma ReadsLast<S>(w: Width, bus: Bus<S>, st: State<S>, r: Record)
    ensures var st1 := Run(bus, st, Writes(w, r)).0;
            && Run(bus, st, Meaning(w, r)) == Run(bus, st1, Reads(w, r))
            && Answers(bus, st, Meaning(w, r)) == Answers(bus, st1, Reads(w, r))
  {
    WritesSilent(w, bus, st, r);
    assert Meaning(w, r) == Writes(w, r) + Reads(w, r);
    hide *;
    RunConcat(bus, st, Writes(w, r), Reads(w, r));
    AnswersConcat(bus, st, Writes(w, r), Reads(w, r));
    RunIsAnswers(bus, st, Writes(w, r));
    var st1 := Run(bus, st, Writes(w, r)).0;
    NilConcat(Run(bus, st1, Reads(w, r)).1);
    NilConcat(Answers(bus, st1, Reads(w, r)).1);
  }

  lemma WritesSilent<S>(w: Width, bus: Bus<S>, st: State<S>, r: Record)
    ensures Run(bus, st, Writes(w, r)).1 == [] && Answers(bus, st, Writes(w, r)).1 == []
  {
    var d, base := Decode(w.data, r.select), Filter(w, r.waddr);
    WritesReadNothing(w, d, r.wca, r.wff, r.waddr, base + LowBig(w, d), base + LowLittle(d), r.wvals, bus, st);
    hide Run, Answers, Decode, Filter, LowBig, LowLittle, WriteMeaning;
  }

  /** One record: as many values as reads, and a reply that means the answers. */
  lemma ReplyMeans<S>(w: Width, bus: Bus<S>, st: State<S>, open: bool, r: Record)
    ensures var (st1, values) := Run(bus, st, Meaning(w, r));
            && |values| == |r.raddrs|
            && (st1, MeaningAll(w, ReplyTo(w, open, r, values))) == Answers(bus, st, Meaning(w, r))
  {
    ReadsLast(w, bus, st, r);
    var st1 := Run(bus, st, Writes(w, r)).0;
    RunIsAnswers(bus, st1, Reads(w, r));
    ReplyRecordMeans(w, bus, st1, r);
    ReplyToMeans(w, open, r, Run(bus, st1, Reads(w, r)).1);
  }

  lemma ReplyFromMeans<S>(w: Width, d: Lines, config: bool, toConfig: bool, fifo: bool, back: nat, addrs: seq<nat>,
                          bus: Bus<S>, st: State<S>)
    requires d.size <= 8
    ensures var asks := ReadsFrom(w, d, config, toConfig, fifo, back, addrs);
            var values := Run(bus, st, asks).1;
            && |values| == |addrs|
            && WritesFrom(w, d, toConfig, fifo, back, ReplyWords(d, values)) == Answers(bus, st, asks).1
  {
    var base := Filter(w, back);
    ReplyRunMeans(w, d, config, toConfig, fifo, back, base + LowBig(w, d), base + LowLittle(d), addrs, bus, st);
  }

  lemma ReplyRecordMeans<S>(w: Width, bus: Bus<S>, st: State<S>, r: Record)
    ensures var values := Run(bus, st, Reads(w, r)).1;
            |values| == |r.raddrs| && Writes(w, Reply(w, r, values)) == Answers(bus, st, Reads(w, r)).1
  {
    ReplyFromMeans(w, Decode(w.data, r.select), r.rca, r.bca, r.rff, r.raddr, r.raddrs, bus, st);
  }

  lemma ReplyToMeans(w: Width, open: bool, r: Record, values: seq<nat>)
    requires |values| == |r.raddrs|
    ensures MeaningAll(w, ReplyTo(w, open, r, values)) == Writes(w, Reply(w, r, values))
  {
    var reply := Reply(w, r, values);
    assert Meaning(w, TERMINATOR) == [];
    assert MeaningAll(w, [TERMINATOR]) == [];
    assert Meaning(w, reply) == Writes(w, reply);
    assert MeaningAll(w, [reply]) == Meaning(w, reply) + [];
    if r.raddrs == [] {
      assert Writes(w, reply) == [];
      assert MeaningAll(w, []) == [];
    } else {
      MeaningAllConcat(w, [reply], if LeavesOpen(open, r) && r.cyc then [TERMINATOR] else []);
    }
  }

  /** For any request whatever, the reply read as a request performs exactly the answers, in order. */
  lemma {:induction false} ReplyMeansAnswers<S>(w: Width, bus: Bus<S>, st: State<S>, open: bool, rs: seq<Record>)
    ensures var (st', _, reply) := Respond(w, bus, st, open, rs);
            (st', MeaningAll(w, reply)) == Answers(bus, st, MeaningAll(w, rs))
    decreases rs
  {
    if rs != [] {
      var (st1, values) := Run(bus, st, Meaning(w, rs[0]));
      ReplyMeans(w, bus, st, open, rs[0]);
      ReplyMeansAnswers(w, bus, st1, LeavesOpen(open, rs[0]), rs[1..]);
      AnswersConcat(bus, st, Meaning(w, rs[0]), MeaningAll(w, rs[1..]));
      MeaningAllConcat(w, ReplyTo(w, open, rs[0], values), Respond(w, bus, st1, LeavesOpen(open, rs[0]), rs[1..]).2);
    }
  }
}
