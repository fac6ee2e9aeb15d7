/** The self-describing bus table: served word by word at one end, read in any order and put together at the other. */
module Sdb {
  import opened Words
  import opened Widths
  import opened Operations
  import opened SdbRecords
  import opened Handlers
  import Buffer

  // ---------------------------------------------------------------------------
  // Serving
  // ---------------------------------------------------------------------------

  predicate AllValid(hs: seq<Handler>) {
    forall i :: 0 <= i < |hs| ==> ValidDevice(hs[i].device)
  }

  function AllBytes(hs: seq<Handler>): (s: seq<Byte>)
    requires AllValid(hs)
    ensures |s| == 64 * |hs|
  {
    if hs == [] then []
    else
      assert ValidDevice(hs[0].device);
      DeviceBytes(hs[0].device) + AllBytes(hs[1..])
  }

  /** The table of the attached devices: a header and one record each, in list order. */
  function Table(hs: seq<Handler>, version: nat, date: nat): (s: seq<Byte>)
    requires AllValid(hs)
    ensures |s| == 64 + 64 * |hs|
  {
    InterconnectBytes(|hs|, version, date) + AllBytes(hs)
  }

  lemma {:induction false} RecordAt(hs: seq<Handler>, k: nat)
    requires AllValid(hs) && k < |hs|
    ensures AllBytes(hs)[64 * k..64 * k + 64] == DeviceBytes(hs[k].device)
    decreases k
  {
    assert ValidDevice(hs[k].device) && ValidDevice(hs[0].device);
    hide DeviceBytes, ValidDevice;
    if k > 0 {
      RecordAt(hs[1..], k - 1);
      var s, t := AllBytes(hs), AllBytes(hs[1..]);
      assert s[64..] == t;
      assert s[64 * k..64 * k + 64] == s[64..][64 * (k - 1)..64 * (k - 1) + 64];
    }
  }

  /** A word of the table; 0 behind its end. */
  function Served(table: seq<Byte>, size: nat, addr: nat): nat {
    if addr + size <= |table| then Value(table[addr..addr + size]) else 0
  }

  /** eb_sdb_extract. */
  method Extract(bytes: seq<Byte>, size: nat, addr: nat) returns (out: nat)
    requires addr + size <= |bytes|
    ensures out == Value(bytes[addr..addr + size])
  {
    out := 0;
    for i := 0 to size
      invariant out == Value(bytes[addr..addr + i])
    {
      var t := bytes[addr..addr + i + 1];
      assert t[..|t| - 1] == bytes[addr..addr + i];
      out := 256 * out + bytes[addr + i];
    }
  }

  /** An aligned word of at most 8 bytes does not cross a record. */
  lemma InsideRecord(size: nat, addr: nat)
    requires Span(size) && addr % size == 0
    ensures addr % 64 + size <= 64
  {
    if size == 8 {
      WordInside(8, 8, addr);
    } else if size == 4 {
      WordInside(4, 16, addr);
    } else if size == 2 {
      WordInside(2, 32, addr);
    }
  }

  lemma WordInside(size: nat, count: nat, addr: nat)
    requires size > 0 && size * count == 64 && addr % size == 0
    ensures addr % 64 + size <= 64
  {
    ModTimes(addr, size, count);
    var q := (addr / size) % count;
    assert addr % 64 == size * q;
    assert size * q + size == size * (q + 1) && size * (count - (q + 1)) == size * count - size * (q + 1);
    if q + 1 < count {
      ProductAtLeast(size, count - (q + 1));
    }
  }

  /** eb_sdb: every aligned word of the window is the word of the flat table. */
  method Serve(hs: seq<Handler>, version: nat, date: nat, size: nat, addr: nat) returns (out: nat)
    requires AllValid(hs) && Span(size) && addr % size == 0
    ensures out == Served(Table(hs, version, date), size, addr)
  {
    InsideRecord(size, addr);
    hide *;
    var dev, at := addr / 64, addr % 64;
    assert addr == 64 * dev + at;
    if addr < 0x40 {
      var count := CountDevices(hs);
      FirstRecord(hs, version, date, size, addr);
      out := Extract(InterconnectBytes(count, version, date), size, addr);
    } else {
      out := ServeDevice(hs, version, date, size, addr, dev, at);
    }
  }

  method ServeDevice(hs: seq<Handler>, ghost version: nat, ghost date: nat, size: nat, ghost addr: nat, dev: nat, at: nat)
    returns (out: nat)
    requires AllValid(hs) && dev >= 1 && addr == 64 * dev + at && at + size <= 64 && size > 0
    ensures out == Served(Table(hs, version, date), size, addr)
  {
    hide *;
    OtherRecord(hs, version, date, size, dev - 1, at, addr);
    var i := SkipDevices(hs, dev);
    out := 0;
    if i != |hs| {
      out := Extract(DeviceBytes(hs[i].device), size, at);
    }
  }

  method CountDevices(hs: seq<Handler>) returns (count: nat)
    ensures count == |hs|
  {
    count := 0;
    while count < |hs|
      invariant count <= |hs|
    {
      count := count + 1;
    }
  }

  /** Walks to the dev-th device, counting from one. */
  method SkipDevices(hs: seq<Handler>, dev: nat) returns (i: nat)
    requires dev >= 1
    ensures i == if dev - 1 < |hs| then dev - 1 else |hs|
  {
    var left := dev;
    i := 0;
    while i < |hs|
      invariant i <= |hs| && left == dev - i && left >= 1
    {
      left := left - 1;
      if left == 0 {
        break;
      }
      i := i + 1;
    }
  }

  lemma FirstRecord(hs: seq<Handler>, version: nat, date: nat, size: nat, addr: nat)
    requires AllValid(hs) && addr + size <= 64
    ensures Served(Table(hs, version, date), size, addr) == Value(InterconnectBytes(|hs|, version, date)[addr..addr + size])
  {
    hide InterconnectBytes, AllBytes, ValidDevice;
    assert Table(hs, version, date)[addr..addr + size] == InterconnectBytes(|hs|, version, date)[addr..addr + size];
  }

  lemma ValidNames(hs: seq<Handler>, i: nat)
    requires AllValid(hs) && i < |hs|
    ensures |hs[i].device.component.product.name| == 19
  {
    assert ValidDevice(hs[i].device);
  }

  lemma OtherRecord(hs: seq<Handler>, version: nat, date: nat, size: nat, k: nat, at: nat, addr: nat)
    requires AllValid(hs) && addr == 64 + 64 * k + at && at + size <= 64 && size > 0
    ensures k < |hs| ==> |hs[k].device.component.product.name| == 19
    ensures Served(Table(hs, version, date), size, addr)
            == if k < |hs| then Value(DeviceBytes(hs[k].device)[at..at + size]) else 0
  {
    hide InterconnectBytes, AllBytes, DeviceBytes, AllValid, Value;
    assert addr + size <= |Table(hs, version, date)| <==> k < |hs|;
    if k < |hs| {
      ValidNames(hs, k);
      RecordAt(hs, k);
      TwiceSliced(Table(hs, version, date), InterconnectBytes(|hs|, version, date), AllBytes(hs), 64 * k, at, size);
    }
  }

  lemma TwiceSliced<T>(s: seq<T>, a: seq<T>, b: seq<T>, k: nat, at: nat, n: nat)
    requires s == a + b && k + 64 <= |b| && at + n <= 64
    ensures |a| + k + at + n <= |s| && s[|a| + k + at..|a| + k + at + n] == b[k..k + 64][at..at + n]
  {
    var x, y := s[|a| + k + at..|a| + k + at + n], b[k..k + 64][at..at + n];
    assert |x| == |y| && forall i :: 0 <= i < n ==> x[i] == b[k + at + i] && y[i] == b[k + at + i];
  }

  // ---------------------------------------------------------------------------
  // Putting a table together
  // ---------------------------------------------------------------------------

  /** The bytes of one read, stored at its distance from the start of the table. */
  function Put(s: seq<Byte>, at: nat, stride: nat, value: nat): (r: seq<Byte>)
    requires at + stride <= |s|
    ensures |r| == |s|
  {
    s[..at] + BigEndian(value, stride) + s[at + stride..]
  }

  predicate Fitting(ops: seq<Operation>, base: nat, stride: nat, length: nat) {
    forall i :: 0 <= i < |ops| ==> base <= ops[i].address && ops[i].address - base + stride <= length
  }

  function Filled(s: seq<Byte>, base: nat, stride: nat, ops: seq<Operation>): (r: seq<Byte>)
    requires Fitting(ops, base, stride, |s|)
    ensures |r| == |s|
    decreases ops
  {
    if ops == [] then s
    else
      assert ops[0].address - base + stride <= |s|;
      Filled(Put(s, ops[0].address - base, stride, ops[0].value), base, stride, ops[1..])
  }

  /** The lowest address read; the highest there is when nothing was read. */
  function Lowest(ops: seq<Operation>): nat {
    if ops == [] then WORD - 1
    else if ops[0].address < Lowest(ops[1..]) then ops[0].address else Lowest(ops[1..])
  }

  lemma {:induction false} LowestIsMinimum(ops: seq<Operation>)
    requires forall i :: 0 <= i < |ops| ==> ops[i].address < WORD
    ensures forall i :: 0 <= i < |ops| ==> Lowest(ops) <= ops[i].address
    ensures ops != [] ==> exists i :: 0 <= i < |ops| && ops[i].address == Lowest(ops)
  {
    if ops != [] {
      LowestIsMinimum(ops[1..]);
      if ops[0].address >= Lowest(ops[1..]) && |ops| > 1 {
        var i :| 0 <= i < |ops[1..]| && ops[1..][i].address == Lowest(ops[1..]);
        assert ops[i + 1].address == Lowest(ops);
      } else {
        assert ops[0].address == Lowest(ops);
      }
    }
  }

  /** How filling a block ends. Outside stands for a sum of address and length that wraps around past the end of the
      address space: the code then stores outside its block, and nothing is promised. */
  datatype Fill = Complete | Error | TooLong | Outside

  /** The first read that does not fit decides. */
  function FillOf(ops: seq<Operation>, base: nat, stride: nat, length: nat): Fill
    decreases ops
  {
    if ops == [] then Complete
    else if base <= ops[0].address && ops[0].address - base + stride <= length
    then FillOf(ops[1..], base, stride, length)
    else if (ops[0].address - base + stride) % WORD > length then TooLong
    else Outside
  }

  lemma {:induction false} FillFits(ops: seq<Operation>, base: nat, stride: nat, length: nat)
    ensures FillOf(ops, base, stride, length) == Complete <==> Fitting(ops, base, stride, length)
    decreases ops
  {
    if ops != [] {
      FillFits(ops[1..], base, stride, length);
      assert forall i :: 0 < i < |ops| ==> ops[i] == ops[1..][i - 1];
    }
  }

  /** The first read that leaves the block is refused, unless its end leaves the address space too. */
  lemma {:induction false} FillDecides(ops: seq<Operation>, base: nat, stride: nat, length: nat, i: nat)
    requires i < |ops| && stride <= 8 <= length < WORD && base <= ops[i].address < WORD
    requires forall j :: 0 <= j < i ==> base <= ops[j].address && ops[j].address - base + stride <= length
    requires ops[i].address - base + stride > length
    ensures FillOf(ops, base, stride, length) == if ops[i].address - base + stride < WORD then TooLong else Outside
    decreases i
  {
    if i > 0 {
      FillDecides(ops[1..], base, stride, length, i - 1);
    } else {
      var end := ops[0].address - base + stride;
      if end < WORD {
        SmallMod(end, WORD);
      } else {
        DivMod(end, WORD, 1, end - WORD);
      }
    }
  }

  /** eb_sdb_fill_block. A read that failed, or one beyond the block, spoils it. */
  method FillBlock(buf: array<Byte>, ops: seq<Operation>) returns (r: Fill)
    requires forall i :: 0 <= i < |ops| ==> ops[i].address < WORD
    modifies buf
    ensures (exists i :: 0 <= i < |ops| && ops[i].error) ==> r == Error
    ensures !(exists i :: 0 <= i < |ops| && ops[i].error) ==>
              r == if ops == [] then Complete else FillOf(ops, Lowest(ops), ops[0].Size(), buf.Length)
    ensures r == Complete ==> ops == [] || Fitting(ops, Lowest(ops), ops[0].Size(), buf.Length)
    ensures r == Complete ==>
              buf[..] == if ops == [] then old(buf[..]) else Filled(old(buf[..]), Lowest(ops), ops[0].Size(), ops)
  {
    var base, i: nat := WORD - 1, 0;
    assert ops[0..] == ops;
    while i < |ops|
      invariant i <= |ops| && base <= WORD - 1 && forall j :: 0 <= j < i ==> !ops[j].error
      invariant Lowest(ops) == if base < Lowest(ops[i..]) then base else Lowest(ops[i..])
    {
      assert ops[i..][1..] == ops[i + 1..];
      if ops[i].error {
        return Error;
      }
      if ops[i].address < base {
        base := ops[i].address;
      }
      i := i + 1;
    }
    LowestIsMinimum(ops);
    LowestBound(ops);
    assert base == Lowest(ops);
    if ops == [] {
      return Complete;
    }
    FillFits(ops, base, ops[0].Size(), buf.Length);
    r := StoreReads(buf, ops, base, ops[0].Size());
  }

  lemma {:induction false} LowestBound(ops: seq<Operation>)
    ensures Lowest(ops) <= WORD - 1
  {
    if ops != [] {
      LowestBound(ops[1..]);
    }
  }

  method StoreReads(buf: array<Byte>, ops: seq<Operation>, base: nat, stride: nat) returns (r: Fill)
    requires forall i :: 0 <= i < |ops| ==> base <= ops[i].address < WORD
    modifies buf
    ensures r == FillOf(ops, base, stride, buf.Length)
    ensures r == Complete ==>
              Fitting(ops, base, stride, buf.Length) && buf[..] == Filled(old(buf[..]), base, stride, ops)
  {
    hide BigEndian;
    FillFits(ops, base, stride, buf.Length);
    var i: nat := 0;
    assert ops[0..] == ops;
    while i < |ops|
      invariant i <= |ops| && FillOf(ops, base, stride, buf.Length) == FillOf(ops[i..], base, stride, buf.Length)
      invariant Fitting(ops, base, stride, buf.Length) ==>
                  Fitting(ops[i..], base, stride, buf.Length)
                  && Filled(buf[..], base, stride, ops[i..]) == Filled(old(buf[..]), base, stride, ops)
    {
      var at := ops[i].address - base;
      assert ops[i..][0] == ops[i] && ops[i..][1..] == ops[i + 1..];
      if (at + stride) % WORD > buf.Length {
        BeyondIsLong(at + stride, buf.Length);
        return TooLong;
      }
      if at + stride > buf.Length {
        return Outside;
      }
      ghost var was := buf[..];
      Buffer.Store(buf, at, ops[i].value, stride);
      Stored(was, buf[..], at, stride, ops[i].value);
      i := i + 1;
    }
    r := Complete;
  }

  lemma BeyondIsLong(end: nat, length: nat)
    requires end % WORD > length
    ensures end > length
  {
  }

  lemma Stored(was: seq<Byte>, now: seq<Byte>, at: nat, stride: nat, value: nat)
    requires at + stride <= |was| == |now| && now[at..at + stride] == BigEndian(value, stride)
    requires now[..at] == was[..at] && now[at + stride..] == was[at + stride..]
    ensures now == Put(was, at, stride, value)
  {
    hide BigEndian;
    assert now == now[..at] + now[at..at + stride] + now[at + stride..];
  }

  // ---------------------------------------------------------------------------
  // The order of reads does not matter
  // ---------------------------------------------------------------------------

  /** A read that returned what the table holds there. */
  predicate TrueTo(table: seq<Byte>, base: nat, stride: nat, op: Operation) {
    && base <= op.address && op.address - base + stride <= |table|
    && op.value == Value(table[op.address - base..op.address - base + stride])
  }

  predicate AllTrue(table: seq<Byte>, base: nat, stride: nat, ops: seq<Operation>) {
    forall i :: 0 <= i < |ops| ==> TrueTo(table, base, stride, ops[i])
  }

  /** Some read covers byte p of the table. */
  predicate Covered(base: nat, stride: nat, ops: seq<Operation>, p: nat) {
    exists i :: 0 <= i < |ops| && ops[i].address <= base + p < ops[i].address + stride
  }

  lemma PutTrue(table: seq<Byte>, base: nat, stride: nat, op: Operation, s: seq<Byte>)
    requires TrueTo(table, base, stride, op) && |table| <= |s|
    ensures var at := op.address - base;
            && (forall p :: at <= p < at + stride ==> Put(s, at, stride, op.value)[p] == table[p])
            && (forall p :: 0 <= p < |s| && !(at <= p < at + stride) ==> Put(s, at, stride, op.value)[p] == s[p])
  {
    var at := op.address - base;
    var t := table[at..at + stride];
    BigEndianOfValue(t);
    hide BigEndian, Value;
    assert forall p :: at <= p < at + stride ==> Put(s, at, stride, op.value)[p] == t[p - at];
  }

  lemma TrueFits(table: seq<Byte>, base: nat, stride: nat, ops: seq<Operation>, length: nat)
    requires AllTrue(table, base, stride, ops) && |table| <= length
    ensures Fitting(ops, base, stride, length)
  {
    forall i | 0 <= i < |ops|
      ensures base <= ops[i].address && ops[i].address - base + stride <= length
    {
      assert TrueTo(table, base, stride, ops[i]);
    }
  }

  lemma CoveredRest(base: nat, stride: nat, ops: seq<Operation>, p: nat)
    requires ops != [] && Covered(base, stride, ops, p)
    ensures ops[0].address <= base + p < ops[0].address + stride || Covered(base, stride, ops[1..], p)
  {
    var i :| 0 <= i < |ops| && ops[i].address <= base + p < ops[i].address + stride;
    if i > 0 {
      assert ops[1..][i - 1] == ops[i];
    }
  }

  lemma FirstTrue(table: seq<Byte>, base: nat, stride: nat, ops: seq<Operation>)
    requires ops != [] && AllTrue(table, base, stride, ops)
    ensures TrueTo(table, base, stride, ops[0]) && AllTrue(table, base, stride, ops[1..])
  {
    hide TrueTo;
  }

  /** After storing true reads in any order, every byte they cover is the table's, and so is every byte that was. */
  lemma {:induction false} FilledAgrees(table: seq<Byte>, base: nat, stride: nat, ops: seq<Operation>, s: seq<Byte>, p: nat)
    requires AllTrue(table, base, stride, ops) && |table| <= |s| && p < |table|
    ensures Fitting(ops, base, stride, |s|)
    ensures Covered(base, stride, ops, p) || s[p] == table[p] ==> Filled(s, base, stride, ops)[p] == table[p]
    decreases ops
  {
    TrueFits(table, base, stride, ops, |s|);
    if ops != [] {
      FirstTrue(table, base, stride, ops);
      var s' := Put(s, ops[0].address - base, stride, ops[0].value);
      PutTrue(table, base, stride, ops[0], s);
      hide TrueTo, AllTrue, Put, Covered, Fitting;
      FilledAgrees(table, base, stride, ops[1..], s', p);
      if Covered(base, stride, ops, p) {
        CoveredRest(base, stride, ops, p);
      }
    }
  }

  /** True reads that cover the table put it together, whatever their order and whatever was in the buffer. */
  lemma FilledIsTable(table: seq<Byte>, base: nat, stride: nat, ops: seq<Operation>, s: seq<Byte>)
    requires AllTrue(table, base, stride, ops) && |table| <= |s| && table != []
    requires forall p :: 0 <= p < |table| ==> Covered(base, stride, ops, p)
    ensures Fitting(ops, base, stride, |s|) && Filled(s, base, stride, ops)[..|table|] == table
  {
    FilledAgrees(table, base, stride, ops, s, 0);
    hide AllTrue, Covered, Filled, Fitting;
    forall p | 0 <= p < |table|
      ensures Filled(s, base, stride, ops)[p] == table[p]
    {
      FilledAgrees(table, base, stride, ops, s, p);
    }
  }
}
