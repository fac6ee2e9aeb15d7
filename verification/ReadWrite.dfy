/** What a received access does locally: find the device, pick the address form, shift the outcome into the register. */
module ReadWrite {
  import opened Words
  import opened Slave
  import opened Handlers
  import Buffer

  /** The callbacks of the attached devices, over their joint state; true means the callback did not return EB_OK. */
  datatype Callbacks<!S> = Callbacks(
    write: (S, nat, nat, nat, nat) -> (S, bool),   // pointer, address, size, value
    read: (S, nat, nat, nat) -> (S, nat, bool))    // pointer, address, size

  /** The address a device is given: little-endian devices see the little-endian form. */
  function AddressFor(h: Handler, addrB: nat, addrL: nat): nat {
    if h.littleEndian then addrL else addrB
  }

  /** The device at addrB gets the write; nothing there, or a device that cannot be written, is an error. */
  function WriteLocal<S>(hs: seq<Handler>, calls: Callbacks<S>, s: S, size: nat, addrB: nat, addrL: nat, value: nat): (S, bool)
  {
    var i := Find(hs, addrB);
    if i == |hs| || !hs[i].writable then (s, true)
    else calls.write(s, hs[i].pointer, AddressFor(hs[i], addrB, addrL), size, value)
  }

  /** addrB lies in the SDB window, as the code tests it in 64 bits. */
  predicate InWindow(offset: nat, addrB: nat) {
    offset <= addrB < (offset + WINDOW) % WORD
  }

  /** The SDB table is read first; then as for writes. An unreadable device yields 0. */
  function ReadLocal<S>(hs: seq<Handler>, offset: nat, table: (nat, nat) -> nat, calls: Callbacks<S>, s: S, size: nat,
                        addrB: nat, addrL: nat): (S, nat, bool)
  {
    if InWindow(offset, addrB) then (s, table(size, addrB - offset), false)
    else
      var i := Find(hs, addrB);
      if i == |hs| || !hs[i].readable then (s, 0, true)
      else calls.read(s, hs[i].pointer, AddressFor(hs[i], addrB, addrL), size)
  }

  /** Walks the list for the device that has an address. */
  method FindDevice(hs: seq<Handler>, address: nat) returns (i: nat)
    ensures i == Find(hs, address)
  {
    i := 0;
    assert hs[0..] == hs;
    while i < |hs|
      invariant i <= |hs| && Find(hs, address) == i + Find(hs[i..], address)
    {
      if hs[i].first <= address && address <= hs[i].last {
        return;
      }
      assert hs[i..][1..] == hs[i + 1..];
      i := i + 1;
    }
  }

  /** eb_socket_write: the new device state and the new error register. */
  method Write<S>(hs: seq<Handler>, calls: Callbacks<S>, s: S, size: nat, addrB: nat, addrL: nat, value: nat, error: nat)
    returns (s': S, error': nat)
    ensures var (t, fail) := WriteLocal(hs, calls, s, size, addrB, addrL, value);
            s' == t && error' == ShiftIn(error, fail)
  {
    var i := FindDevice(hs, addrB);
    var fail := true;
    s' := s;
    if i != |hs| && hs[i].writable {
      var address := if hs[i].littleEndian then addrL else addrB;
      var (t, failed) := calls.write(s, hs[i].pointer, address, size, value);
      s', fail := t, failed;
    }
    error' := (2 * error + (if fail then 1 else 0)) % WORD;
  }

  /** eb_socket_read. */
  method Read<S>(hs: seq<Handler>, offset: nat, table: (nat, nat) -> nat, calls: Callbacks<S>, s: S, size: nat, addrB: nat,
                 addrL: nat, error: nat)
    returns (s': S, value: nat, error': nat)
    ensures var (t, v, fail) := ReadLocal(hs, offset, table, calls, s, size, addrB, addrL);
            s' == t && value == v && error' == ShiftIn(error, fail)
  {
    s', value := s, 0;
    if addrB >= offset && addrB < (offset + WINDOW) % WORD {
      return s, table(size, addrB - offset), 2 * error % WORD;
    }
    var i := FindDevice(hs, addrB);
    var fail := true;
    if i != |hs| && hs[i].readable {
      var address := if hs[i].littleEndian then addrL else addrB;
      var (t, v, failed) := calls.read(s, hs[i].pointer, address, size);
      s', value, fail := t, v, failed;
    }
    error' := (2 * error + (if fail then 1 else 0)) % WORD;
  }

  /** eb_socket_read_config: 16 bytes, the error register and then the SDB pointer, read big-endian. */
  method ReadRegister(error: nat, sdb: nat, size: Size, addr: nat) returns (out: nat)
    requires addr >= 16 || addr + size <= 16
    ensures out == ReadConfig(error, sdb, size, addr)
  {
    var buf := new Byte[16](_ => 0);
    Buffer.Store(buf, 0, error, 8);
    ghost var low := buf[..8];
    Buffer.Store(buf, 8, sdb, 8);
    assert buf[0..8] == low == BigEndian(error, 8);
    if addr >= 16 {
      return 0;
    }
    ghost var register := buf[..];
    RegisterBytes(register, error, sdb, addr, size);
    hide BigEndian, Value;
    out := 0;
    EmptyValue(register[addr..addr]);
    var i: nat := 0;
    while i < size
      invariant i <= size && buf[..] == register && out == Value(register[addr..addr + i])
    {
      NextByte(register, addr, i);
      assert buf[addr + i] == register[addr + i];
      out := 256 * out + buf[addr + i];
      i := i + 1;
    }
  }

  lemma EmptyValue(s: seq<Byte>)
    ensures s == [] ==> Value(s) == 0
  {
  }

  lemma NextByte(s: seq<Byte>, at: nat, i: nat)
    requires at + i < |s|
    ensures Value(s[at..at + i + 1]) == 256 * Value(s[at..at + i]) + s[at + i]
  {
    var t := s[at..at + i + 1];
    assert t[..|t| - 1] == s[at..at + i];
  }

  lemma RegisterBytes(s: seq<Byte>, error: nat, sdb: nat, addr: nat, size: nat)
    requires |s| == 16 && s[0..8] == BigEndian(error, 8) && s[8..16] == BigEndian(sdb, 8) && addr + size <= 16
    ensures (BigEndian(error, 8) + BigEndian(sdb, 8) + BigEndian(0, 8))[addr..addr + size] == s[addr..addr + size]
  {
    hide BigEndian;
    assert s == s[0..8] + s[8..16];
    var all := s + BigEndian(0, 8);
    assert all[addr..addr + size] == s[addr..addr + size];
  }

  /** The local bus that the slave works on. */
  function LocalBus<S>(hs: seq<Handler>, offset: nat, table: (nat, nat) -> nat, calls: Callbacks<S>,
                       config: (S, nat, nat, nat) -> S): Bus<S>
  {
    Bus(
      (s: S, size, addrB, addrL, value) => WriteLocal(hs, calls, s, size, addrB, addrL, value),
      (s: S, size, addrB, addrL) => ReadLocal(hs, offset, table, calls, s, size, addrB, addrL),
      config,
      (s: S) => offset)
  }

  /** With a clear window, an access to an attached device reaches that device and no other; the SDB table is read exactly
      at the addresses of the window, which no device has; and everywhere else an access fails. */
  lemma DispatchUnique<S>(hs: seq<Handler>, offset: nat, table: (nat, nat) -> nat, calls: Callbacks<S>, s: S, size: nat,
                          addrB: nat, addrL: nat, value: nat, i: nat)
    requires Sorted(hs) && Clear(hs, offset) && offset + WINDOW < WORD && i <= |hs|
    requires if i < |hs| then hs[i].Has(addrB) else forall j :: 0 <= j < |hs| ==> !hs[j].Has(addrB)
    ensures InWindow(offset, addrB) <==> offset <= addrB < offset + WINDOW
    ensures InWindow(offset, addrB) ==> i == |hs|
    ensures WriteLocal(hs, calls, s, size, addrB, addrL, value)
            == if i < |hs| && hs[i].writable
               then calls.write(s, hs[i].pointer, AddressFor(hs[i], addrB, addrL), size, value) else (s, true)
    ensures ReadLocal(hs, offset, table, calls, s, size, addrB, addrL)
            == if InWindow(offset, addrB) then (s, table(size, addrB - offset), false)
               else if i < |hs| && hs[i].readable
               then calls.read(s, hs[i].pointer, AddressFor(hs[i], addrB, addrL), size) else (s, 0, true)
  {
    if i < |hs| {
      UniqueTarget(hs, addrB, i);
    }
  }
}
