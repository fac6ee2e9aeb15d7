/** Scanning a bus: reads of the table's records finish in any order, and the last one decodes what has been gathered. */
module SdbScan {
  import opened Seqs
  import opened Options
  import opened Words
  import opened Widths
  import opened Operations
  import opened SdbRecords
  import opened Handlers
  import opened Sdb

  // ---------------------------------------------------------------------------
  // Decoding
  // ---------------------------------------------------------------------------

  /** A decoded record. Masters for interrupts keep their own ranges; unknown records are kept as they are. */
  datatype Entry =
    | DeviceEntry(device: SdbDevice)
    | BridgeEntry(child: nat, component: Component)
    | MsiEntry(flags: nat, busSpecific: nat, component: Component)
    | IntegrationEntry(product: Product)
    | OtherEntry(bytes: seq<Byte>)

  datatype Description = Description(records: nat, bus: Component, entries: seq<Entry>)

  /** The addresses at which the device that was scanned can be reached by interrupts; first > last means not at all. */
  datatype Range = Range(first: nat, last: nat)

  const NO_RANGE: Range := Range(WORD - 1, 0)

  /** Undefined stands for a read stored outside its block. */
  datatype Scanned = Described(description: Description, interrupts: Range) | Failed(status: Status) | Undefined

  function EntryOf(s: seq<Byte>, base: nat): Entry
    requires |s| == 64
  {
    if s[63] == 0x01 then DeviceEntry(DeviceOf(s, base))
    else if s[63] == 0x02 then BridgeEntry((Field(s, 0, 8) + base) % WORD, ComponentOf(s[8..], base))
    else if s[63] == 0x03 then MsiEntry(Field(s, 0, 4), Field(s, 4, 4), ComponentOf(s[8..], 0))
    else if s[63] == 0x80 then IntegrationEntry(ProductOf(s[24..]))
    else OtherEntry(s)
  }

  /** A master that takes part in interrupt routing. */
  predicate RoutesInterrupts(e: Entry) {
    e.MsiEntry? && e.flags / 0x8000_0000 != 0
  }

  function Entries(s: seq<Byte>, from: nat, count: nat, base: nat): (r: seq<Entry>)
    requires 64 * (from + count) <= |s|
    ensures |r| == count
    ensures forall i :: 0 <= i < count ==> r[i] == EntryOf(s[64 * (from + i)..64 * (from + i) + 64], base)
  {
    seq(count, i requires 0 <= i < count => EntryOf(s[64 * (from + i)..64 * (from + i) + 64], base))
  }

  /** A table with two such masters is invalid. */
  predicate TwoRouters(entries: seq<Entry>) {
    exists i, j :: 0 <= i < j < |entries| && RoutesInterrupts(entries[i]) && RoutesInterrupts(entries[j])
  }

  /** What a master adds to the range of the parent bus, in 64 bits. */
  function Routed(e: Entry, range: Range): Range
    requires e.MsiEntry?
  {
    if range.first > range.last then range
    else
      var c := e.component;
      Range((range.first + c.first) % WORD, if range.last == 0 then c.last else (range.last + c.first) % WORD)
  }

  /** The range seen through the one master that takes part, if there is one. */
  function Routes(entries: seq<Entry>, range: Range): Range {
    if entries == [] then NO_RANGE
    else if RoutesInterrupts(entries[|entries| - 1]) then Routed(entries[|entries| - 1], range)
    else Routes(entries[..|entries| - 1], range)
  }

  lemma {:induction false} NoRoutes(entries: seq<Entry>, range: Range)
    requires forall i :: 0 <= i < |entries| ==> !RoutesInterrupts(entries[i])
    ensures Routes(entries, range) == NO_RANGE
  {
    if entries != [] {
      NoRoutes(entries[..|entries| - 1], range);
    }
  }

  lemma RoutesMore(entries: seq<Entry>, e: Entry, range: Range)
    ensures Routes(entries + [e], range) == if RoutesInterrupts(e) then Routed(e, range) else Routes(entries, range)
  {
    assert (entries + [e])[..|entries|] == entries;
  }

  /** Range moved by the address the bus is seen at. */
  function Moved(c: Component, base: nat): Component {
    c.(first := (c.first + base) % WORD, last := (c.last + base) % WORD)
  }

  /** What the records that a software bus does not serve decode to, from the fields at their places: a bridge has its child
      table and its range moved, an interrupt master keeps its range, which is counted the other way, an integration record
      has only a product, and a record of any other kind is handed on as it is. */
  lemma OtherRecords(s: seq<Byte>, base: nat, head: nat, low: nat, c: Component)
    requires |s| == 64 && head < WORD && low < 0x1_0000_0000 && ValidComponent(c)
    ensures s == BigEndian(head, 8) + ComponentBytes(c, 0x02) ==>
              EntryOf(s, base) == BridgeEntry((head + base) % WORD, Moved(c, base))
    ensures head < 0x1_0000_0000 && s == BigEndian(head, 4) + (BigEndian(low, 4) + ComponentBytes(c, 0x03)) ==>
              EntryOf(s, base) == MsiEntry(head, low, c)
    ensures s[24..] == ProductBytes(c.product, 0x80) ==> EntryOf(s, base) == IntegrationEntry(c.product)
    ensures s[63] != 0x01 && s[63] != 0x02 && s[63] != 0x03 && s[63] != 0x80 ==> EntryOf(s, base) == OtherEntry(s)
  {
    hide BigEndian, Value, ComponentBytes, ProductBytes, ComponentOf, ProductOf, Pow256;
    if s == BigEndian(head, 8) + ComponentBytes(c, 0x02) {
      BridgeRead(s, base, head, c);
    }
    if head < 0x1_0000_0000 && s == BigEndian(head, 4) + (BigEndian(low, 4) + ComponentBytes(c, 0x03)) {
      MasterRead(s, base, head, low, c);
    }
    if s[24..] == ProductBytes(c.product, 0x80) {
      ProductRoundTrip(c.product, 0x80);
      assert s[63] == s[24..][39];
    }
  }

  lemma BridgeRead(s: seq<Byte>, base: nat, head: nat, c: Component)
    requires head < WORD && ValidComponent(c) && s == BigEndian(head, 8) + ComponentBytes(c, 0x02)
    ensures |s| == 64 && EntryOf(s, base) == BridgeEntry((head + base) % WORD, Moved(c, base))
  {
    Pow256Values();
    hide BigEndian, Value, ComponentBytes, ComponentOf, Pow256;
    FieldFirst(head, 8, ComponentBytes(c, 0x02));
    ComponentRoundTrip(c, 0x02, base);
    assert s[63] == ComponentBytes(c, 0x02)[55];
  }

  lemma MasterRead(s: seq<Byte>, base: nat, head: nat, low: nat, c: Component)
    requires head < 0x1_0000_0000 && low < 0x1_0000_0000 && ValidComponent(c)
    requires s == BigEndian(head, 4) + (BigEndian(low, 4) + ComponentBytes(c, 0x03))
    ensures |s| == 64 && EntryOf(s, base) == MsiEntry(head, low, c)
  {
    Pow256Values();
    hide BigEndian, Value, ComponentBytes, ComponentOf, Pow256;
    var s1 := BigEndian(low, 4) + ComponentBytes(c, 0x03);
    FieldFirst(head, 4, s1);
    FieldFirst(low, 4, ComponentBytes(c, 0x03));
    FieldBehind(s, 4, 0, 4);
    Tail(s, 4, 4, s1, ComponentBytes(c, 0x03));
    ComponentRoundTrip(c, 0x03, 0);
    SmallMod(c.first, WORD);
    SmallMod(c.last, WORD);
    assert s[63] == ComponentBytes(c, 0x03)[55];
  }

  /** The interrupt range of a table with at most one interrupt master, wherever it stands: without one there is none; if
      the parent bus has none, it stays so; else the master's addresses are added, and where the parent bus sets no end, the
      master does. */
  lemma InterruptsRouted(entries: seq<Entry>, range: Range, i: nat)
    requires !TwoRouters(entries) && i <= |entries|
    requires if i < |entries| then entries[i].MsiEntry? && entries[i].flags >= 0x8000_0000
             else forall j :: 0 <= j < |entries| && entries[j].MsiEntry? ==> entries[j].flags < 0x8000_0000
    ensures var r := Routes(entries, range);
            if i == |entries| then r == Range(WORD - 1, 0)
            else if range.first > range.last then r == range
            else
              var c := entries[i].component;
              && r.first == (range.first + c.first) % WORD
              && r.last == if range.last == 0 then c.last else (range.last + c.first) % WORD
    decreases entries
  {
    FlagsRoute(entries);
    if i == |entries| {
      NoRoutes(entries, range);
    } else {
      RoutedAt(entries, range, i);
    }
  }

  lemma FlagsRoute(entries: seq<Entry>)
    ensures forall j :: 0 <= j < |entries| ==>
              (RoutesInterrupts(entries[j]) <==> entries[j].MsiEntry? && entries[j].flags >= 0x8000_0000)
  {
  }

  lemma {:induction false} RoutedAt(entries: seq<Entry>, range: Range, i: nat)
    requires i < |entries| && RoutesInterrupts(entries[i]) && !TwoRouters(entries)
    ensures Routes(entries, range) == Routed(entries[i], range)
    decreases entries
  {
    hide RoutesInterrupts, Routed;
    var n := |entries| - 1;
    if i < n {
      assert !RoutesInterrupts(entries[n]);
      assert forall j :: 0 <= j < n ==> entries[..n][j] == entries[j];
      RoutedAt(entries[..n], range, i);
    }
  }

  /** Decodes a block that starts with a table. */
  function Decoded(s: seq<Byte>, base: nat, range: Range): Scanned
    requires |s| >= 64
  {
    var records := Field(s, 4, 2);
    if 64 * records > |s| then Failed(FAIL)
    else
      var entries := Entries(s, 1, if records == 0 then 0 else records - 1, base);
      if TwoRouters(entries) then Failed(FAIL)
      else Described(Description(records, ComponentOf(s[8..64], base), entries), Routes(entries, range))
  }

  /** The decoding loop of eb_sdb_decode. */
  method Decode(buf: seq<Byte>, base: nat, range: Range) returns (r: Scanned)
    requires |buf| >= 64
    ensures r == Decoded(buf, base, range)
  {
    hide EntryOf, Field, ComponentOf, Routes;
    var records := Field(buf, 4, 2);
    if 64 * records > |buf| {
      return Failed(FAIL);
    }
    var count := if records == 0 then 0 else records - 1;
    NoRoutes([], range);
    var entries: seq<Entry> := [];
    var found := false;
    var first: nat, last: nat := range.first, range.last;
    ghost var all := Entries(buf, 1, count, base);
    var i: nat := 0;
    while i < count
      invariant i <= count && entries == all[..i]
      invariant found <==> exists j :: 0 <= j < i && RoutesInterrupts(all[j])
      invariant forall j, k :: 0 <= j < k < i ==> !(RoutesInterrupts(all[j]) && RoutesInterrupts(all[k]))
      invariant !found ==> Range(first, last) == range
      invariant Routes(entries, range) == if found then Range(first, last) else NO_RANGE
    {
      var e := EntryOf(buf[64 * (1 + i)..64 * (1 + i) + 64], base);
      assert e == all[i];
      if RoutesInterrupts(e) {
        if found {
          assert TwoRouters(all);
          return Failed(FAIL);
        }
        found := true;
        if first <= last {
          first := (first + e.component.first) % WORD;
          last := if last == 0 then e.component.last else (last + e.component.first) % WORD;
        }
      }
      RoutesMore(entries, e, range);
      entries := entries + [e];
      i := i + 1;
    }
    assert all[..count] == all;
    if !found {
      first, last := WORD - 1, 0;
    }
    r := Described(Description(records, ComponentOf(buf[8..64], base), entries), Range(first, last));
  }

  // ---------------------------------------------------------------------------
  // Gathering
  // ---------------------------------------------------------------------------

  /** Room for the header and the smallest power of two, from 4 to 256, that holds the devices. */
  function BlockSize(devices: nat): (n: nat)
    requires devices < 256
    ensures 64 * (devices + 2) <= n && (devices >= 4 ==> n <= 64 * (2 * devices + 1))
  {
    64 * (1 + (if devices < 4 then 4 else if devices < 8 then 8 else if devices < 16 then 16 else if devices < 32 then 32
               else if devices < 64 then 64 else if devices < 128 then 128 else 256))
  }

  /** The outcome of a scan whose reads have been gathered in a block with arbitrary contents. */
  function Outcome(block: seq<Byte>, ops: seq<Operation>, base: nat, range: Range): Scanned
    requires |block| >= 64
  {
    if exists i :: 0 <= i < |ops| && ops[i].error then Failed(FAIL)
    else if ops == [] then Decoded(block, base, range)
    else
      FillFits(ops, Lowest(ops), ops[0].Size(), |block|);
      match FillOf(ops, Lowest(ops), ops[0].Size(), |block|)
      case Outside => Undefined
      case Complete => Decoded(Filled(block, Lowest(ops), ops[0].Size(), ops), base, range)
      case _ => Failed(FAIL)
  }

  /** A scan fails, always with FAIL, exactly when a read failed, or lies beyond the block, or the table claims more records
      than the block holds, or two of its interrupt masters take part. */
  lemma ScanFails(block: seq<Byte>, ops: seq<Operation>, base: nat, range: Range)
    requires |block| >= 64
    ensures var outcome := Outcome(block, ops, base, range);
            && (outcome.Failed? ==> outcome == Failed(FAIL))
            && ((exists i :: 0 <= i < |ops| && ops[i].error) ==> outcome == Failed(FAIL))
            && ((forall i :: 0 <= i < |ops| ==> !ops[i].error) && ops != [] ==>
                  match FillOf(ops, Lowest(ops), ops[0].Size(), |block|)
                  case Outside => outcome == Undefined
                  case Complete =>
                    Fitting(ops, Lowest(ops), ops[0].Size(), |block|)
                    && outcome == Decoded(Filled(block, Lowest(ops), ops[0].Size(), ops), base, range)
                  case _ => outcome == Failed(FAIL))
  {
    if ops != [] {
      FillFits(ops, Lowest(ops), ops[0].Size(), |block|);
    }
    hide FillOf, Lowest, Filled, EntryOf, Routes, ComponentOf, Field, TwoRouters;
  }

  lemma TableRefused(s: seq<Byte>, base: nat, range: Range)
    requires |s| >= 64
    ensures var records := Value(s[4..6]);
            var count := if records == 0 then 0 else records - 1;
            && (64 * records > |s| ==> Decoded(s, base, range) == Failed(FAIL))
            && (64 * records <= |s| ==>
                  var entries := Entries(s, 1, count, base);
                  if exists i, j :: 0 <= i < j < count && entries[i].MsiEntry? && entries[i].flags >= 0x8000_0000
                                    && entries[j].MsiEntry? && entries[j].flags >= 0x8000_0000
                  then Decoded(s, base, range) == Failed(FAIL)
                  else Decoded(s, base, range).Described?)
  {
    hide EntryOf, Value, ComponentOf, Routes;
    var records := Value(s[4..6]);
    if 64 * records <= |s| {
      FlagsRoute(Entries(s, 1, if records == 0 then 0 else records - 1, base));
    }
  }

  /** A table being read: one cycle of reads for each of its records. base and range are where the bus is seen. */
  class TableScan {
    const base: nat
    const range: Range
    const records: nat
    var ops: seq<Operation>
    var pending: nat
    var status: Status

    constructor (base: nat, range: Range, records: nat)
      ensures this.base == base && this.range == range && this.records == records
      ensures ops == [] && pending == records && status == OK
    {
      this.base, this.range, this.records, ops, pending, status := base, range, records, [], records, OK;
    }

    /** eb_sdb_got_record: the reads of one record arrive, or fail. granted tells whether the first of them could be
        copied. The last one to arrive decides the scan; block is the fresh buffer it is decoded in. */
    method GotRecord(got: seq<Operation>, outcome: Status, granted: bool, block: array<Byte>) returns (result: Option<Scanned>)
      requires 0 < pending && records > 0
      requires records <= 256 ==> block.Length == BlockSize(records - 1)
      requires forall i :: 0 <= i < |got| ==> got[i].address < WORD
      requires forall i :: 0 <= i < |ops| ==> ops[i].address < WORD
      modifies this, block
      ensures pending == old(pending) - 1
      ensures ops == if outcome == OK && got != [] && granted then got + old(ops) else old(ops)
      ensures status == if outcome != OK then outcome else if got == [] then FAIL else if !granted then OOM else old(status)
      ensures result.Some? <==> pending == 0
      ensures pending == 0 && status != OK ==> result == Some(Failed(status))
      ensures pending == 0 && status == OK && records > 256 ==> result == Some(Failed(OOM))
      ensures pending == 0 && status == OK && records <= 256 ==> result == Some(Outcome(old(block[..]), ops, base, range))
    {
      if outcome != OK {
        status := outcome;
      } else if got == [] {
        status := FAIL;
      } else if !granted {
        status := OOM;
      } else {
        ops := got + ops;
      }
      pending := pending - 1;
      if pending != 0 {
        return None;
      }
      if status != OK {
        return Some(Failed(status));
      }
      if records > 256 {
        return Some(Failed(OOM));
      }
      var fill := FillBlock(block, ops);
      if fill == Outside {
        return Some(Undefined);
      }
      if fill != Complete {
        return Some(Failed(FAIL));
      }
      var scanned := Decode(block[..], base, range);
      result := Some(scanned);
    }
  }

  /** The reads of blocks, the latest first, as the scan keeps them. */
  function Gathered(blocks: seq<seq<Operation>>): seq<Operation> {
    if blocks == [] then [] else Gathered(blocks[1..]) + blocks[0]
  }

  /** One more arrival goes in front. */
  lemma {:induction false} GatherNext(blocks: seq<seq<Operation>>, b: seq<Operation>)
    ensures Gathered(blocks + [b]) == b + Gathered(blocks)
  {
    if blocks == [] {
      assert (blocks + [b])[1..] == [];
    } else {
      assert (blocks + [b])[1..] == blocks[1..] + [b];
      GatherNext(blocks[1..], b);
      ConcatAssoc(b, Gathered(blocks[1..]), blocks[0]);
    }
  }

  /** ops are the reads of record k of a table that starts at an address, each answered with what the table holds. */
  predicate ReadsRecord(table: seq<Byte>, address: nat, stride: nat, k: nat, ops: seq<Operation>)
    requires Span(stride)
  {
    && |ops| == 64 / stride && 64 * k + 64 <= |table|
    && forall j :: 0 <= j < |ops| ==>
         && ops[j].address == address + 64 * k + j * stride && ops[j].Size() == stride && !ops[j].error
         && ops[j].value == Served(table, stride, 64 * k + j * stride)
  }

  /** The blocks read the records listed in order. */
  predicate ReadsAll(table: seq<Byte>, address: nat, stride: nat, order: seq<nat>, blocks: seq<seq<Operation>>)
    requires Span(stride)
  {
    |blocks| == |order| && forall i :: 0 <= i < |order| ==> ReadsRecord(table, address, stride, order[i], blocks[i])
  }

  predicate GoodRead(table: seq<Byte>, address: nat, stride: nat, op: Operation) {
    TrueTo(table, address, stride, op) && op.Size() == stride && !op.error
  }

  lemma StepInside(j: nat, stride: nat)
    requires Span(stride) && j < 64 / stride
    ensures j * stride + stride <= 64
  {
  }

  lemma RecordIsTrue(table: seq<Byte>, address: nat, stride: nat, k: nat, ops: seq<Operation>)
    requires Span(stride) && ReadsRecord(table, address, stride, k, ops)
    ensures forall j :: 0 <= j < |ops| ==> GoodRead(table, address, stride, ops[j])
    ensures forall p :: 64 * k <= p < 64 * k + 64 ==> Covered(address, stride, ops, p)
  {
    hide Value;
    forall j | 0 <= j < |ops|
      ensures GoodRead(table, address, stride, ops[j])
    {
      StepInside(j, stride);
      assert ops[j].address - address == 64 * k + j * stride;
    }
    forall p | 64 * k <= p < 64 * k + 64
      ensures Covered(address, stride, ops, p)
    {
      var j := (p - 64 * k) / stride;
      Quotient(p - 64 * k, stride);
      assert ops[j].address == address + 64 * k + j * stride;
    }
  }

  lemma Quotient(p: nat, stride: nat)
    requires Span(stride) && p < 64
    ensures p / stride < 64 / stride && (p / stride) * stride <= p < (p / stride) * stride + stride
  {
  }

  lemma CoveredMore(address: nat, stride: nat, a: seq<Operation>, b: seq<Operation>, p: nat)
    ensures Covered(address, stride, a, p) || Covered(address, stride, b, p) ==> Covered(address, stride, a + b, p)
  {
    if Covered(address, stride, a, p) {
      var i :| 0 <= i < |a| && a[i].address <= address + p < a[i].address + stride;
      assert (a + b)[i] == a[i];
    }
    if Covered(address, stride, b, p) {
      var i :| 0 <= i < |b| && b[i].address <= address + p < b[i].address + stride;
      assert (a + b)[|a| + i] == b[i];
    }
  }

  /** Whatever the order of arrival, the gathered reads are true and cover every record read. */
  lemma {:induction false} GatheredTrue(table: seq<Byte>, address: nat, stride: nat, order: seq<nat>,
                                        blocks: seq<seq<Operation>>)
    requires Span(stride) && ReadsAll(table, address, stride, order, blocks)
    ensures forall i :: 0 <= i < |Gathered(blocks)| ==> GoodRead(table, address, stride, Gathered(blocks)[i])
    ensures forall p: nat :: p / 64 in order ==> Covered(address, stride, Gathered(blocks), p)
    decreases order
  {
    if order != [] {
      RecordIsTrue(table, address, stride, order[0], blocks[0]);
      var rest := Gathered(blocks[1..]);
      assert ReadsAll(table, address, stride, order[1..], blocks[1..]) by { hide ReadsRecord; }
      GatheredTrue(table, address, stride, order[1..], blocks[1..]);
      hide ReadsRecord, GoodRead;
      assert Gathered(blocks) == rest + blocks[0];
      hide Gathered, Covered;
      forall p: nat | p / 64 in order
        ensures Covered(address, stride, Gathered(blocks), p)
      {
        CoveredMore(address, stride, rest, blocks[0], p);
        if p / 64 != order[0] {
          assert p / 64 in order[1..];
        }
      }
    }
  }

  // ---------------------------------------------------------------------------
  // From devices to devices
  // ---------------------------------------------------------------------------

  function Rebuilt(hs: seq<Handler>, base: nat): (r: seq<Entry>)
    ensures |r| == |hs|
    ensures forall i :: 0 <= i < |hs| ==> r[i] == DeviceEntry(Rebased(hs[i].device, base))
  {
    seq(|hs|, i requires 0 <= i < |hs| => DeviceEntry(Rebased(hs[i].device, base)))
  }

  /** The scan has found exactly these devices, in list order, moved by base, and no interrupt master. */
  predicate Describes(r: Scanned, hs: seq<Handler>, base: nat) {
    && r.Described? && r.description.records == |hs| + 1 && r.description.entries == Rebuilt(hs, base)
    && r.interrupts == NO_RANGE
  }

  /** A block that starts with the table of some devices decodes to those devices. */
  lemma DecodedTable(hs: seq<Handler>, version: nat, date: nat, s: seq<Byte>, base: nat, range: Range)
    requires AllValid(hs) && |hs| < 256 && version < 0x1_0000_0000 && date < 0x1_0000_0000
    requires |s| >= 64 + 64 * |hs| && s[..64 + 64 * |hs|] == Table(hs, version, date)
    ensures Describes(Decoded(s, base, range), hs, base)
  {
    HeaderTells(hs, version, date, s);
    EntriesRebuilt(hs, version, date, s, base);
    NoRoutes(Rebuilt(hs, base), range);
    hide Table, Field, ComponentOf, Entries, Rebuilt, Routes, TwoRouters;
  }

  lemma HeaderTells(hs: seq<Handler>, version: nat, date: nat, s: seq<Byte>)
    requires AllValid(hs) && |hs| < 256 && version < 0x1_0000_0000 && date < 0x1_0000_0000
    requires |s| >= 64 + 64 * |hs| && s[..64 + 64 * |hs|] == Table(hs, version, date)
    ensures Field(s, 4, 2) == |hs| + 1
  {
    InterconnectRoundTrip(|hs|, version, date);
    hide InterconnectBytes, Field, AllBytes, AllValid;
    HeaderOf(s, Table(hs, version, date), InterconnectBytes(|hs|, version, date), AllBytes(hs));
  }

  lemma EntriesRebuilt(hs: seq<Handler>, version: nat, date: nat, s: seq<Byte>, base: nat)
    requires AllValid(hs)
    requires |s| >= 64 + 64 * |hs| && s[..64 + 64 * |hs|] == Table(hs, version, date)
    ensures Entries(s, 1, |hs|, base) == Rebuilt(hs, base) && !TwoRouters(Rebuilt(hs, base))
  {
    hide Table, EntryOf, Rebased, AllValid;
    forall i | 0 <= i < |hs|
      ensures Entries(s, 1, |hs|, base)[i] == DeviceEntry(Rebased(hs[i].device, base))
    {
      EntryIsDevice(hs, version, date, s, base, i);
    }
  }

  lemma HeaderOf(s: seq<Byte>, t: seq<Byte>, head: seq<Byte>, rest: seq<Byte>)
    requires |head| == 64 && t == head + rest && |t| <= |s| && s[..|t|] == t
    ensures Field(s, 4, 2) == Field(head, 4, 2)
  {
    assert s[4..6] == s[..|t|][4..6] == head[4..6];
  }

  lemma EntryIsDevice(hs: seq<Handler>, version: nat, date: nat, s: seq<Byte>, base: nat, i: nat)
    requires AllValid(hs) && i < |hs|
    requires |s| >= 64 + 64 * |hs| && s[..64 + 64 * |hs|] == Table(hs, version, date)
    ensures EntryOf(s[64 * (1 + i)..64 * (1 + i) + 64], base) == DeviceEntry(Rebased(hs[i].device, base))
  {
    assert ValidDevice(hs[i].device);
    RecordAt(hs, i);
    DeviceRoundTrip(hs[i].device, base);
    hide DeviceBytes, DeviceOf, InterconnectBytes, AllBytes, Rebased, ValidDevice, AllValid;
    SliceOfTable(s, Table(hs, version, date), InterconnectBytes(|hs|, version, date), AllBytes(hs), i);
  }

  lemma SliceOfTable<T>(s: seq<T>, t: seq<T>, head: seq<T>, rest: seq<T>, i: nat)
    requires |head| == 64 && t == head + rest && |t| <= |s| && s[..|t|] == t && 64 * i + 64 <= |rest|
    ensures s[64 * (1 + i)..64 * (1 + i) + 64] == rest[64 * i..64 * i + 64]
  {
    assert s[64 * (1 + i)..64 * (1 + i) + 64] == s[..|t|][64 * (1 + i)..64 * (1 + i) + 64];
  }

  /** Serve and scan: for fewer than 256 attached devices and any data width, reading every record of the served table,
      with the answers arriving in any order, describes exactly the attached devices, in list order, moved by the address
      the bus is seen at. */
  lemma ScanRoundTrip(hs: seq<Handler>, version: nat, date: nat, stride: nat, address: nat, base: nat, range: Range,
                      order: seq<nat>, blocks: seq<seq<Operation>>, block: seq<Byte>)
    requires AllValid(hs) && |hs| < 256 && version < 0x1_0000_0000 && date < 0x1_0000_0000 && Span(stride)
    requires address + 64 * (|hs| + 1) < WORD && |block| == BlockSize(|hs|)
    requires ReadsAll(Table(hs, version, date), address, stride, order, blocks)
    requires forall k :: 0 <= k <= |hs| ==> k in order
    ensures Describes(Outcome(block, Gathered(blocks), base, range), hs, base)
  {
    var t, ops := Table(hs, version, date), Gathered(blocks);
    GatheredTrue(t, address, stride, order, blocks);
    hide Table, Gathered, ReadsAll, Decoded, Rebuilt, Describes;
    AllCovered(t, address, stride, order, ops, |hs|);
    FilledIsTable(t, address, stride, ops, block);
    LowestIsStart(t, address, stride, ops);
    FillFits(ops, address, stride, |block|);
    DecodedTable(hs, version, date, Filled(block, address, stride, ops), base, range);
  }

  /** A whole scan: the reads of each record arrive in some order, and the last arrival describes the devices. */
  method ScanAll(hs: seq<Handler>, ghost version: nat, ghost date: nat, ghost stride: nat, ghost address: nat, base: nat,
                 range: Range, ghost order: seq<nat>, blocks: seq<seq<Operation>>) returns (result: Option<Scanned>)
    requires AllValid(hs) && |hs| < 256 && version < 0x1_0000_0000 && date < 0x1_0000_0000 && Span(stride)
    requires address + 64 * (|hs| + 1) < WORD && |blocks| == |hs| + 1
    requires ReadsAll(Table(hs, version, date), address, stride, order, blocks)
    requires forall k :: 0 <= k <= |hs| ==> k in order
    ensures result.Some? && Describes(result.value, hs, base)
  {
    hide Table, AllValid, ReadsRecord, Outcome, Describes;
    var scan := new TableScan(base, range, |hs| + 1);
    result := None;
    assert blocks[..0] == [];
    for i := 0 to |blocks|
      invariant scan.base == base && scan.range == range && scan.records == |hs| + 1 && scan.status == OK
      invariant scan.pending == |blocks| - i && scan.ops == Gathered(blocks[..i])
      invariant forall j :: 0 <= j < |scan.ops| ==> scan.ops[j].address < WORD
      invariant i == |blocks| ==> result.Some? && Describes(result.value, hs, base)
    {
      var block := new Byte[BlockSize(|hs|)](_ => 0);
      ReadsBounded(Table(hs, version, date), address, stride, order[i], blocks[i]);
      assert blocks[..i + 1] == blocks[..i] + [blocks[i]];
      GatherNext(blocks[..i], blocks[i]);
      ghost var contents := block[..];
      result := scan.GotRecord(blocks[i], OK, true, block);
      if i + 1 == |blocks| {
        assert blocks[..i + 1] == blocks;
        ScanRoundTrip(hs, version, date, stride, address, base, range, order, blocks, contents);
      }
    }
  }

  lemma ReadsBounded(table: seq<Byte>, address: nat, stride: nat, k: nat, ops: seq<Operation>)
    requires Span(stride) && ReadsRecord(table, address, stride, k, ops) && address + |table| < WORD
    ensures ops != [] && forall j :: 0 <= j < |ops| ==> ops[j].address < WORD
  {
    RecordIsTrue(table, address, stride, k, ops);
    hide ReadsRecord;
    assert |ops| == 64 / stride by { CountOfReads(table, address, stride, k, ops); }
    forall j | 0 <= j < |ops|
      ensures ops[j].address < WORD
    {
      assert GoodRead(table, address, stride, ops[j]);
    }
  }

  lemma CountOfReads(table: seq<Byte>, address: nat, stride: nat, k: nat, ops: seq<Operation>)
    requires Span(stride) && ReadsRecord(table, address, stride, k, ops)
    ensures |ops| == 64 / stride
  {
  }

  lemma AllCovered(table: seq<Byte>, address: nat, stride: nat, order: seq<nat>, ops: seq<Operation>, n: nat)
    requires |table| == 64 + 64 * n && forall k :: 0 <= k <= n ==> k in order
    requires forall i :: 0 <= i < |ops| ==> GoodRead(table, address, stride, ops[i])
    requires forall p: nat :: p / 64 in order ==> Covered(address, stride, ops, p)
    ensures forall p :: 0 <= p < |table| ==> Covered(address, stride, ops, p)
    ensures AllTrue(table, address, stride, ops) && forall i :: 0 <= i < |ops| ==> !ops[i].error && ops[i].Size() == stride
  {
    hide Covered, TrueTo;
    forall p: nat | p < |table|
      ensures Covered(address, stride, ops, p)
    {
      assert p / 64 <= n;
    }
  }

  lemma LowestIsStart(table: seq<Byte>, address: nat, stride: nat, ops: seq<Operation>)
    requires table != [] && AllTrue(table, address, stride, ops) && address + |table| < WORD
    requires Covered(address, stride, ops, 0)
    ensures ops != [] && Lowest(ops) == address
  {
    forall i | 0 <= i < |ops|
      ensures address <= ops[i].address < WORD
    {
      assert TrueTo(table, address, stride, ops[i]);
    }
    LowestIsMinimum(ops);
    var i :| 0 <= i < |ops| && ops[i].address <= address < ops[i].address + stride;
    assert ops[i].address == address;
  }
}
