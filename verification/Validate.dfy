/** The checks eb_device_flush makes on each queued operation before packing a cycle. */
module Validate {
  import opened Seqs
  import opened Words
  import opened Widths
  import opened Operations

  /** The operation with its reported format, and EB_OK or the reason it is refused. */
  function Check(w: Width, op: Operation): (Operation, Status) {
    CheckSize(w, op, RefineNibble(And(op.format, 2 * w.data - 1)))
  }

  function CheckSize(w: Width, op: Operation, size: nat): (Operation, Status) {
    if size == 0 then (op, WIDTH)
    else Judge(w, op, size, And(op.format, 0x30), AddressMasked(w, op, size), ValueMasked(op, size))
  }

  /** No bit outside the address mask is set. */
  predicate AddressMasked(w: Width, op: Operation, size: nat) {
    var top := if op.config then 0xFFFF else Pow256(w.addr) - 1;
    size <= top && And(op.address, top - (size - 1)) == op.address
  }

  /** No bit outside the data mask is set. */
  predicate ValueMasked(op: Operation, size: nat) {
    And(op.value, Pow256(size) - 1) == op.value
  }

  /** The verdict, once the bit masks have been tested. */
  function Judge(w: Width, op: Operation, size: nat, ends: nat, addressOk: bool, valueOk: bool): (Operation, Status)
  {
    var endian := if size == w.data then 0 else ends;
    if endian == BIG + LITTLE || (size != w.data && endian == 0) then (op, ENDIAN)
    else
      var op' := op.(format := endian + size);
      if !addressOk then (op', ADDRESS)
      else if op.kind.Write? && !valueOk then (op', WIDTH)
      else (op', OK)
  }

  lemma SizeValues(w: Width, format: nat)
    ensures And(format, 2 * w.data - 1) < 2 * w.data
    ensures And(format, 2 * w.data - 1) == format % (2 * w.data)
    ensures var size := RefineNibble(format % (2 * w.data)); size == 0 || (Span(size) && size <= w.data)
    ensures Pow256(w.addr) >= 256
  {
    Pow2Values();
    Pow256Values();
    AndMask(format, if w.data == 1 then 1 else if w.data == 2 then 2 else if w.data == 4 then 3 else 4, 0);
    RefineNibbleValues(format % (2 * w.data));
  }

  lemma MaskTest(x: nat, k: nat, size: nat)
    requires Span(size) && size <= Pow2(k)
    ensures And(x, Pow2(k) - size) == x <==> x < Pow2(k) && x % size == 0
  {
    Pow2Values();
    var j := BitIndex(size);
    assert Pow2(j) == size;
    if j > k {
      Pow2Grows(k, j);
    }
    AndMask(x, k, j);
    if x < Pow2(k) {
      SmallMod(x, Pow2(k));
    }
  }

  /** What the caller asked for, in the terms of the interface: the widest offered size the port carries. */
  predicate AskedSize(w: Width, op: Operation, size: nat) {
    && Offers(op.format % 16, size) && size <= w.data
    && forall s: nat | Offers(op.format % 16, s) && s <= w.data :: s <= size
  }

  predicate EndianGiven(w: Width, op: Operation, size: nat) {
    size == w.data || Endian(op.format) == BIG || Endian(op.format) == LITTLE
  }

  predicate AddressGood(w: Width, op: Operation, size: nat)
  {
    size > 0 && op.address % size == 0 && op.address < (if op.config then 0x1_0000 else Pow256(w.addr))
  }

  predicate ValueGood(op: Operation, size: nat) {
    op.kind.Write? ==> op.value < Pow256(size)
  }

  lemma OffersBelow(w: Width, format: nat, s: nat)
    ensures Offers(format % (2 * w.data), s) <==> Offers(format % 16, s) && s <= w.data
  {
    if Span(s) {
      var x, y := format % (2 * w.data), format % 16;
      OffersBit(x, s);
      OffersBit(y, s);
      NibbleBits(w, format, s);
    }
  }

  lemma NibbleBits(w: Width, format: nat, s: nat)
    requires Span(s)
    ensures Bit(format % (2 * w.data), BitIndex(s)) <==> Bit(format % 16, BitIndex(s)) && s <= w.data
  {
    var y := format % 16;
    ModOfMod(format, w.data);
    BitValues(y % (2 * w.data));
    BitValues(y);
    NibbleDigits(y, w.data);
    hide Bit;
  }

  lemma NibbleDigits(y: nat, d: nat)
    requires y < 16 && Span(d)
    ensures (y % (2 * d)) % 2 == y % 2
    ensures ((y % (2 * d)) / 2) % 2 == if d >= 2 then (y / 2) % 2 else 0
    ensures ((y % (2 * d)) / 4) % 2 == if d >= 4 then (y / 4) % 2 else 0
    ensures ((y % (2 * d)) / 8) % 2 == if d >= 8 then (y / 8) % 2 else 0
  {
    if d == 1 {
      assert y % 2 < 2;
    } else if d == 2 {
      assert y % 4 < 4;
    } else if d == 4 {
      assert y % 8 < 8;
    } else {
      assert y % 16 == y;
    }
  }

  lemma ModOfMod(x: nat, d: nat)
    requires Span(d)
    ensures x % (2 * d) == (x % 16) % (2 * d)
  {
    var q, y := x / 16, x % 16;
    var m := 2 * d;
    var c := 16 / m;
    assert 16 == m * c;
    assert x == m * (c * q + y / m) + y % m;
    DivMod(x, m, c * q + y / m, y % m);
  }

  lemma WidestIsAsked(w: Width, op: Operation)
    ensures var size := RefineNibble(op.format % (2 * w.data));
            if size == 0 then forall s: nat :: !AskedSize(w, op, s)
            else AskedSize(w, op, size) && forall s: nat | AskedSize(w, op, s) :: s == size
  {
    var x := op.format % (2 * w.data);
    RefineIsWidest(x);
    forall s: nat
      ensures Offers(x, s) <==> Offers(op.format % 16, s) && s <= w.data
    {
      OffersBelow(w, op.format, s);
    }
    if x == 0 {
      assert forall s: nat :: !Offers(x, s);
    }
  }

  /** Acceptance is exactly the documented condition, and the stored format names the asked size. */
  lemma CheckAccepts(w: Width, op: Operation)
    ensures Check(w, op).1 == OK <==>
            exists size: nat :: AskedSize(w, op, size) && EndianGiven(w, op, size)
                                && AddressGood(w, op, size) && ValueGood(op, size)
    ensures Check(w, op).1 == OK ==> Fits(w, Check(w, op).0) && AskedSize(w, op, Check(w, op).0.Size())
  {
    WidestIsAsked(w, op);
    var size := RefineNibble(op.format % (2 * w.data));
    CheckIsJudge(w, op);
    if size != 0 {
      JudgeAccepts(w, op, size);
    }
  }

  /** The bit tests mean alignment and range. */
  lemma CheckIsJudge(w: Width, op: Operation)
    ensures var size := RefineNibble(op.format % (2 * w.data));
            && (size == 0 || (Span(size) && size <= w.data))
            && Check(w, op) == if size == 0 then (op, WIDTH) else
               Judge(w, op, size, Endian(op.format), AddressGood(w, op, size), op.value < Pow256(size))
  {
    SizeValues(w, op.format);
    var size := RefineNibble(op.format % (2 * w.data));
    if size != 0 {
      SizedIsJudge(w, op, size);
    }
  }

  lemma SizedIsJudge(w: Width, op: Operation, size: nat)
    requires Span(size)
    ensures CheckSize(w, op, size)
            == Judge(w, op, size, Endian(op.format), AddressGood(w, op, size), op.value < Pow256(size))
  {
    EndianBits(op.format);
    AddressTest(w, op, size);
    ValueTest(op, size);
  }

  lemma ValueTest(op: Operation, size: nat)
    requires Span(size)
    ensures ValueMasked(op, size) <==> op.value < Pow256(size)
  {
    Pow256IsPow2(size);
    MaskTest(op.value, 8 * size, 1);
  }

  lemma AddressTest(w: Width, op: Operation, size: nat)
    requires Span(size)
    ensures AddressMasked(w, op, size) <==> AddressGood(w, op, size)
  {
    var k := if op.config then 16 else 8 * w.addr;
    Pow256IsPow2(w.addr);
    assert Pow2(16) == 0x1_0000 by { Pow2Values(); }
    Pow2Grows(8, k);
    assert Pow2(8) == 256 by { Pow2Values(); }
    MaskTest(op.address, k, size);
  }

  lemma JudgeAccepts(w: Width, op: Operation, size: nat)
    requires Span(size) && size <= w.data
    ensures var (op', status) := Judge(w, op, size, Endian(op.format), AddressGood(w, op, size), op.value < Pow256(size));
            && (status == OK <==> EndianGiven(w, op, size) && AddressGood(w, op, size) && ValueGood(op, size))
            && (status == OK ==> Fits(w, op') && op'.Size() == size)
  {
    var ends := Endian(op.format);
    EndianValues(op.format);
    JudgedFits(w, op, size, if size == w.data then 0 else ends);
    hide Fits, AddressGood, Endian;
  }

  lemma EndianValues(format: nat)
    ensures Endian(format) == 0 || Endian(format) == BIG || Endian(format) == LITTLE || Endian(format) == BIG + LITTLE
  {
    var low := format % 64;
    var q := low / 16;
    assert low == 16 * q + low % 16 && q < 4;
    DivMod(format, 16, 4 * (format / 64) + q, low % 16);
    assert Endian(format) == 16 * q;
  }

  lemma JudgedFits(w: Width, op: Operation, size: nat, endian: nat)
    requires Span(size) && size <= w.data && endian < 64 && endian % 16 == 0
    requires if size == w.data then endian == 0 else true
    ensures (size == w.data || endian == BIG || endian == LITTLE) && AddressGood(w, op, size) && ValueGood(op, size) ==>
            Fits(w, op.(format := endian + size)) && op.(format := endian + size).Size() == size
  {
    EndianPlusSize(endian, size);
    hide Endian, Pow256;
  }

  lemma EndianPlusSize(endian: nat, size: nat)
    requires size < 16 && endian < 64 && endian % 16 == 0
    ensures (endian + size) % 16 == size && (endian + size) % 64 == endian + size
    ensures Endian(endian + size) == endian
  {
  }

  /** A refusal names the first reason that applies: width, then endian, then address, then datum. */
  lemma CheckRefuses(w: Width, op: Operation)
    ensures (forall s: nat :: !AskedSize(w, op, s)) ==> Check(w, op).1 == WIDTH
    ensures forall s: nat | AskedSize(w, op, s) ::
            Check(w, op).1 == if !EndianGiven(w, op, s) then ENDIAN
                              else if !AddressGood(w, op, s) then ADDRESS
                              else if !ValueGood(op, s) then WIDTH else OK
  {
    WidestIsAsked(w, op);
    CheckIsJudge(w, op);
    var size := RefineNibble(op.format % (2 * w.data));
    if size != 0 {
      JudgeRefuses(w, op, size);
    }
  }

  lemma JudgeRefuses(w: Width, op: Operation, size: nat)
    requires Span(size) && size <= w.data
    ensures Judge(w, op, size, Endian(op.format), AddressGood(w, op, size), op.value < Pow256(size)).1
            == if !EndianGiven(w, op, size) then ENDIAN
               else if !AddressGood(w, op, size) then ADDRESS
               else if !ValueGood(op, size) then WIDTH else OK
  {
    EndianValues(op.format);
    hide Endian, AddressGood, Pow256;
  }

  /** The format that is reported: the endian given, unless the operation takes the whole port, and one size. */
  function Reported(w: Width, op: Operation, size: nat): Operation {
    op.(format := (if size == w.data then 0 else Endian(op.format)) + size)
  }

  /** What is left in the operation: its reported format once size and endian are settled, before its address and datum
      are looked at; until then it is as the caller gave it. */
  lemma CheckStores(w: Width, op: Operation)
    ensures (forall s: nat :: !AskedSize(w, op, s)) ==> Check(w, op).0 == op
    ensures forall s: nat | AskedSize(w, op, s) ::
              Check(w, op).0 == if EndianGiven(w, op, s) then Reported(w, op, s) else op
  {
    WidestIsAsked(w, op);
    CheckIsJudge(w, op);
    EndianValues(op.format);
    hide AskedSize, Endian, Check, AddressGood;
  }

  // ---------------------------------------------------------------------------
  // A cycle's operations
  // ---------------------------------------------------------------------------

  /** Checks operations in order up to the first bad one: the list with its formats reported, the position reached
      and the reason for stopping. */
  function CheckAll(w: Width, ops: seq<Operation>): (r: (seq<Operation>, nat, Status))
    ensures |r.0| == |ops| && r.1 <= |ops|
  {
    if ops == [] then ([], 0, OK)
    else
      var (op, status) := Check(w, ops[0]);
      if status != OK then ([op] + ops[1..], 0, status)
      else
        var (rest, bad, reason) := CheckAll(w, ops[1..]);
        ([op] + rest, bad + 1, reason)
  }

  /** The operation can be carried by the port. */
  ghost predicate Acceptable(w: Width, op: Operation) {
    exists size: nat :: AskedSize(w, op, size) && EndianGiven(w, op, size) && AddressGood(w, op, size) && ValueGood(op, size)
  }

  /** out, bad and reason are what checking ops should give: the operations before bad are acceptable and have their
      formats reported, and bad is the end of the list or an operation refused for the given reason. */
  ghost predicate FirstBad(w: Width, ops: seq<Operation>, out: seq<Operation>, bad: nat, reason: Status) {
    && |out| == |ops| && bad <= |ops|
    && (forall i :: 0 <= i < bad ==> Acceptable(w, ops[i]) && out[i] == Check(w, ops[i]).0 && Fits(w, out[i]))
    && (if bad == |ops| then reason == OK
        else !Acceptable(w, ops[bad]) && reason == Check(w, ops[bad]).1 && reason != OK)
  }

  /** A cycle passes exactly when each operation is acceptable; otherwise the first that is not is reported. */
  lemma {:induction false} CheckAllFirstBad(w: Width, ops: seq<Operation>)
    ensures var (out, bad, reason) := CheckAll(w, ops);
            FirstBad(w, ops, out, bad, reason) && (bad == |ops| ==> AllFit(w, out))
  {
    if ops != [] {
      CheckAccepts(w, ops[0]);
      var (op, status) := Check(w, ops[0]);
      if status == OK {
        CheckAllFirstBad(w, ops[1..]);
        var (rest, bad, reason) := CheckAll(w, ops[1..]);
        FirstBadCons(w, ops, rest, bad, reason);
      }
      hide Check, Fits, AskedSize, EndianGiven, AddressGood, ValueGood;
    }
  }

  lemma FirstBadCons(w: Width, ops: seq<Operation>, rest: seq<Operation>, bad: nat, reason: Status)
    requires ops != [] && FirstBad(w, ops[1..], rest, bad, reason)
    requires Acceptable(w, ops[0]) && Fits(w, Check(w, ops[0]).0)
    ensures FirstBad(w, ops, [Check(w, ops[0]).0] + rest, bad + 1, reason)
  {
    hide Check, Fits, Acceptable;
    var out := [Check(w, ops[0]).0] + rest;
    assert forall i :: 0 < i < |ops| ==> ops[i] == ops[1..][i - 1] && out[i] == rest[i - 1];
  }

  /** Checking only touches formats. */
  lemma {:induction false} CheckAllKeeps(w: Width, ops: seq<Operation>)
    ensures var out := CheckAll(w, ops).0;
            forall i :: 0 <= i < |ops| ==> out[i] == ops[i].(format := out[i].format)
  {
    if ops != [] {
      CheckKeeps(w, ops[0]);
      CheckAllKeeps(w, ops[1..]);
      hide Check;
    }
  }

  /** Operations are checked up to the first bad one; those behind it are not touched. */
  lemma {:induction false} CheckAllStores(w: Width, ops: seq<Operation>)
    ensures var (out, bad, _) := CheckAll(w, ops);
            forall i :: 0 <= i < |ops| ==> out[i] == if i <= bad then Check(w, ops[i]).0 else ops[i]
  {
    if ops != [] {
      CheckAllStores(w, ops[1..]);
      hide Check;
      assert forall i :: 0 < i < |ops| ==> ops[i] == ops[1..][i - 1];
    }
  }

  lemma CheckKeeps(w: Width, op: Operation)
    ensures Check(w, op).0 == op.(format := Check(w, op).0.format)
  {
    hide And, RefineNibble, AddressMasked, ValueMasked;
  }

  /** The sender's checking loop. */
  method CheckOperations(w: Width, ops0: seq<Operation>) returns (ops: seq<Operation>, bad: nat, reason: Status)
    ensures (ops, bad, reason) == CheckAll(w, ops0)
  {
    hide Check;
    ops, bad, reason := ops0, 0, OK;
    assert ops0[0..] == ops0 && ops0[..0] == [];
    NilConcat(CheckAll(w, ops0).0);
    while bad < |ops|
      invariant bad <= |ops| == |ops0| && reason == OK && ops[bad..] == ops0[bad..]
      invariant var (rest, more, end) := CheckAll(w, ops0[bad..]);
                CheckAll(w, ops0) == (ops[..bad] + rest, bad + more, end)
    {
      ghost var was := ops;
      var (op, status) := Check(w, ops[bad]);
      CheckAllStep(w, ops0, ops, bad);
      ops := ops[bad := op];
      if status != OK {
        reason := status;
        return;
      }
      bad := bad + 1;
    }
    assert ops[..bad] + [] == ops;
  }

  lemma CheckAllStep(w: Width, ops0: seq<Operation>, ops: seq<Operation>, i: nat)
    requires i < |ops| == |ops0| && ops[i..] == ops0[i..]
    ensures ops[i] == ops0[i]
    ensures var (op, status) := Check(w, ops[i]);
            var (rest, bad, reason) := CheckAll(w, ops0[i..]);
            var (rest', bad', reason') := CheckAll(w, ops0[i + 1..]);
            && ops[i := op][i + 1..] == ops0[i + 1..]
            && (status != OK ==> ops[..i] + rest == ops[i := op] && bad == 0 && reason == status)
            && (status == OK ==> ops[..i] + rest == ops[i := op][..i + 1] + rest' && bad == bad' + 1 && reason == reason')
  {
    hide Check;
    assert ops[i] == ops[i..][0] && ops0[i] == ops0[i..][0];
    assert ops0[i..][1..] == ops0[i + 1..] && ops[i..][1..] == ops[i + 1..];
    var op := Check(w, ops[i]).0;
    assert ops[i := op] == ops[..i] + ([op] + ops[i + 1..]);
    assert ops[i := op][..i + 1] == ops[..i] + [op];
    var rest' := CheckAll(w, ops0[i + 1..]).0;
    ConcatAssoc(ops[..i], [op], rest');
  }
}
