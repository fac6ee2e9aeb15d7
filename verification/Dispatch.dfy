/** From a queued operation to the callback of a device at the other end. */
module Dispatch {
  import opened Words
  import opened Widths
  import opened Operations
  import opened Slave
  import opened Packing
  import opened Handlers
  import opened ReadWrite

  /** The address at which the other endian sees the bytes of an operation: counted from the other end of their word. */
  function OtherEnd(w: Width, op: Operation): nat
    requires Fits(w, op)
  {
    FitsFacts(w, op);
    op.address - op.address % w.data + (w.data - op.Size() - op.address % w.data)
  }

  /** Bit 7 of busSpecific. */
  predicate SeesLittle(h: Handler) {
    h.device.busSpecific % 256 >= 128
  }

  /** The address that a bus operation looks for its device with. */
  function SoughtAt(w: Width, op: Operation): nat
    requires Fits(w, op)
  {
    if Endian(op.format) == LITTLE then OtherEnd(w, op) else op.address
  }

  /** The address that the callback of a device gets: the one that the operation names, when the device has the operation's
      endian or the operation takes the whole port; else that of the same bytes counted from the other end. */
  function GivenAddress(w: Width, op: Operation, h: Handler): nat
    requires Fits(w, op)
  {
    if op.Size() == w.data || (Endian(op.format) == LITTLE <==> SeesLittle(h)) then op.address else OtherEnd(w, op)
  }

  lemma AccessIs(w: Width, rba: nat, op: Operation)
    requires Fits(w, op) && op.IsBus()
    ensures op.Size() <= 8
    ensures var l := if Endian(op.format) == BIG then OtherEnd(w, op) else op.address;
            AccessOf(w, rba, op) == if op.IsRead() then BusRead(op.Size(), SoughtAt(w, op), l, ToConfig(rba))
                                    else BusWrite(op.Size(), SoughtAt(w, op), l, op.value)
  {
    FitsFacts(w, op);
  }

  lemma AddressGiven(w: Width, op: Operation, h: Handler)
    requires Fits(w, op)
    ensures var l := if Endian(op.format) == BIG then OtherEnd(w, op) else op.address;
            AddressFor(h, SoughtAt(w, op), l) == GivenAddress(w, op, h)
  {
    FitsFacts(w, op);
    LittleBit(h.device.busSpecific);
    if op.Size() == w.data {
      WholeWord(w, op);
    }
  }

  lemma LittleBit(x: nat)
    ensures (x / 0x80) % 2 == 1 <==> x % 256 >= 128
  {
  }

  lemma WholeWord(w: Width, op: Operation)
    requires Fits(w, op) && op.Size() == w.data
    ensures OtherEnd(w, op) == op.address
  {
    FitsFacts(w, op);
  }

  /** A queued write of bus space performed at an end with attached devices: the device that has the address sought gets its
      size and datum at the address given; without a device, or one that cannot be written, nothing is called. The outcome
      is the newest bit of the error register. */
  lemma WriteReaches<S>(w: Width, rba: nat, op: Operation, hs: seq<Handler>, offset: nat, table: (nat, nat) -> nat,
                        calls: Callbacks<S>, config: (S, nat, nat, nat) -> S, st: State<S>, i: nat)
    requires Fits(w, op) && op.IsBus() && !op.IsRead() && Sorted(hs) && i <= |hs|
    requires if i < |hs| then hs[i].Has(SoughtAt(w, op)) else forall j :: 0 <= j < |hs| ==> !hs[j].Has(SoughtAt(w, op))
    ensures var end := Perform(LocalBus(hs, offset, table, calls, config), st, AccessOf(w, rba, op)).0;
            if i < |hs| && hs[i].writable then
              var (s, fail) := calls.write(st.s, hs[i].pointer, GivenAddress(w, op, hs[i]), op.Size(), op.value);
              end.s == s && end.error == (2 * st.error + (if fail then 1 else 0)) % WORD
            else end.s == st.s && end.error == (2 * st.error + 1) % WORD
  {
    AccessIs(w, rba, op);
    if i < |hs| {
      UniqueTarget(hs, SoughtAt(w, op), i);
      AddressGiven(w, op, hs[i]);
    }
    hide AccessOf, SoughtAt, GivenAddress, OtherEnd, AddressFor, Sorted, Fits;
  }

  /** A queued read of bus space outside the SDB window: the same device at the same address, and what it returns. In the
      window the table answers instead. */
  lemma ReadReaches<S>(w: Width, rba: nat, op: Operation, hs: seq<Handler>, offset: nat, table: (nat, nat) -> nat,
                       calls: Callbacks<S>, config: (S, nat, nat, nat) -> S, st: State<S>, i: nat)
    requires Fits(w, op) && op.IsBus() && op.IsRead() && Sorted(hs) && i <= |hs| && offset + WINDOW < WORD
    requires if i < |hs| then hs[i].Has(SoughtAt(w, op)) else forall j :: 0 <= j < |hs| ==> !hs[j].Has(SoughtAt(w, op))
    ensures var (end, value) := Perform(LocalBus(hs, offset, table, calls, config), st, AccessOf(w, rba, op));
            if offset <= SoughtAt(w, op) < offset + WINDOW then
              end.s == st.s && value == table(op.Size(), SoughtAt(w, op) - offset) && end.error == 2 * st.error % WORD
            else if i < |hs| && hs[i].readable then
              var (s, v, fail) := calls.read(st.s, hs[i].pointer, GivenAddress(w, op, hs[i]), op.Size());
              end.s == s && value == v && end.error == (2 * st.error + (if fail then 1 else 0)) % WORD
            else end.s == st.s && value == 0 && end.error == (2 * st.error + 1) % WORD
  {
    AccessIs(w, rba, op);
    WindowIs(offset, SoughtAt(w, op));
    if i < |hs| {
      UniqueTarget(hs, SoughtAt(w, op), i);
      AddressGiven(w, op, hs[i]);
    }
    hide AccessOf, SoughtAt, GivenAddress, OtherEnd, AddressFor, Sorted, Fits, InWindow;
  }

  lemma WindowIs(offset: nat, address: nat)
    requires offset + WINDOW < WORD
    ensures InWindow(offset, address) <==> offset <= address < offset + WINDOW
  {
  }
}
