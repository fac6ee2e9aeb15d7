/** Wishbone operations queued in a cycle, and the two cursors that walk a cycle's list. */
module Operations {
  import opened Words
  import opened Widths

  datatype Status = OK | FAIL | ADDRESS | WIDTH | OVERFLOW | ENDIAN | BUSY | TIMEOUT | OOM | SEGFAULT

  datatype Kind = Write | ReadPtr | ReadVal

  /** value is what eb_operation_data reports: the datum to write, or the datum read so far. */
  datatype Operation = Operation(
    kind: Kind, config: bool, checked: bool, error: bool, address: nat, value: nat, format: nat)
  {
    predicate IsRead() {
      !kind.Write?
    }

    predicate IsBus() {
      !config
    }

    function Size(): nat {
      format % 16
    }
  }

  const BIG: nat := 0x10
  const LITTLE: nat := 0x20

  /** The endian bits of a format byte: bits 4 and 5. */
  function Endian(format: nat): nat {
    format % 64 - format % 16
  }

  lemma EndianBits(format: nat)
    ensures Endian(format) == And(format, 0x30)
    ensures And(format, 15) == format % 16
  {
    Pow2Values();
    AndMask(format, 6, 4);
    AndMask(format, 4, 0);
  }

  /** First position at or after i that holds a bus operation; |ops| stands for EB_NULL. */
  function FindBus(ops: seq<Operation>, i: nat): (r: nat)
    requires i <= |ops|
    ensures i <= r <= |ops|
    ensures r < |ops| ==> ops[r].IsBus()
    ensures forall j :: i <= j < r ==> ops[j].config
    decreases |ops| - i
  {
    if i == |ops| || !ops[i].config then i else FindBus(ops, i + 1)
  }

  /** First position at or after i that holds a read; |ops| stands for EB_NULL. */
  function FindRead(ops: seq<Operation>, i: nat): (r: nat)
    requires i <= |ops|
    ensures i <= r <= |ops|
    ensures r < |ops| ==> ops[r].IsRead()
    ensures forall j :: i <= j < r ==> !ops[j].IsRead()
    decreases |ops| - i
  {
    if i == |ops| || ops[i].IsRead() then i else FindRead(ops, i + 1)
  }

  method FindBusFrom(ops: seq<Operation>, start: nat) returns (i: nat)
    requires start <= |ops|
    ensures i == FindBus(ops, start)
  {
    i := start;
    while i < |ops|
      invariant start <= i <= |ops|
      invariant FindBus(ops, start) == FindBus(ops, i)
    {
      if !ops[i].config {
        break;
      }
      i := i + 1;
    }
  }

  method FindReadFrom(ops: seq<Operation>, start: nat) returns (i: nat)
    requires start <= |ops|
    ensures i == FindRead(ops, start)
  {
    i := start;
    while i < |ops|
      invariant start <= i <= |ops|
      invariant FindRead(ops, start) == FindRead(ops, i)
    {
      if ops[i].IsRead() {
        break;
      }
      i := i + 1;
    }
  }

  /** The number of bus operations in a list. */
  function CountBus(ops: seq<Operation>): (n: nat)
    ensures n <= |ops|
  {
    if ops == [] then 0 else (if ops[0].IsBus() then 1 else 0) + CountBus(ops[1..])
  }

  lemma {:induction false} CountBusConcat(a: seq<Operation>, b: seq<Operation>)
    ensures CountBus(a + b) == CountBus(a) + CountBus(b)
  {
    if a == [] {
      assert a + b == b;
    } else {
      assert (a + b)[1..] == a[1..] + b;
      CountBusConcat(a[1..], b);
    }
  }

  lemma CountBusSplit(ops: seq<Operation>, i: nat, j: nat, k: nat)
    requires i <= j <= k <= |ops|
    ensures CountBus(ops[i..k]) == CountBus(ops[i..j]) + CountBus(ops[j..k])
  {
    assert ops[i..k] == ops[i..j] + ops[j..k];
    CountBusConcat(ops[i..j], ops[j..k]);
  }

  lemma CountNext(ops: seq<Operation>, start: nat, scan: nat)
    requires start <= scan < |ops|
    ensures CountBus(ops[start..scan + 1]) == CountBus(ops[start..scan]) + if ops[scan].IsBus() then 1 else 0
  {
    CountBusSplit(ops, start, scan, scan + 1);
    assert ops[scan..scan + 1] == [ops[scan]];
  }

  /** An operation as packed: one width no wider than the port, an endian exactly when it is narrower. */
  predicate Fits(w: Width, op: Operation) {
    var size := op.Size();
    && Span(size) && size <= w.data
    && op.format == Endian(op.format) + size
    && (if size == w.data then op.format == size else Endian(op.format) == BIG || Endian(op.format) == LITTLE)
    && op.address % size == 0
    && op.address < (if op.config then 0x1_0000 else Pow256(w.addr))
    && (op.kind.Write? ==> op.value < Pow256(size))
  }

  predicate AllFit(w: Width, ops: seq<Operation>) {
    forall i :: 0 <= i < |ops| ==> Fits(w, ops[i])
  }
}
