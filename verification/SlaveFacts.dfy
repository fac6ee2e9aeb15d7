/** Properties of replies: they can be encoded, never outgrow the request, and are themselves well-formed requests. */
module SlaveFacts {
  import opened Seqs
  import opened Words
  import opened Widths
  import opened Select
  import opened Records
  import opened Slave

  // ---------------------------------------------------------------------------
  // Masks in the code
  // ---------------------------------------------------------------------------

  /** Masking with address_filter_bits is Filter. */
  lemma FilterIsMask(w: Width, address: nat)
    ensures FilterMask(w) >= 0
    ensures And(address, FilterMask(w)) == Filter(w, address)
  {
    var k, j := 8 * w.addr, BitIndex(w.data);
    Pow256IsPow2(w.addr);
    assert Pow2(j) == w.data && Pow2(8) == 256 by { Pow2Values(); }
    Pow2Grows(8, k);
    AndMask(address, k, j);
    KeptLow(w, address);
  }

  /** A filtered address has no bits below the port width, so or-ing the low bits in adds them. */
  lemma FilterOr(w: Width, address: nat, low: nat)
    requires low < w.data
    ensures Or(Filter(w, address), low) == Filter(w, address) + low
  {
    var j := BitIndex(w.data);
    assert Pow2(j) == w.data by { Pow2Values(); }
    var kept := address % Pow256(w.addr);
    assert Filter(w, address) == w.data * (kept / w.data);
    DivMod(Filter(w, address), w.data, kept / w.data, 0);
    OrDisjoint(Filter(w, address), low, j);
  }

  // ---------------------------------------------------------------------------
  // Config reads stay inside the sixteen bytes
  // ---------------------------------------------------------------------------

  /** The access does not read past the error register and the SDB pointer. */
  predicate InConfig(a: Access) {
    a.ConfigRead? ==> a.addr >= 16 || a.addr + a.size <= 16
  }

  lemma {:induction false} ReadsInConfig(w: Width, d: Lines, config: bool, toConfig: bool, fifo: bool, a: nat, b: nat,
                                         l: nat, addrs: seq<nat>)
    requires d.size <= 8 && (d.ok ==> Aligned(w.data, d.size, d.shift))
    ensures forall i :: 0 <= i < |addrs| ==> InConfig(ReadMeaning(w, d, config, toConfig, fifo, a, b, l, addrs)[i])
    decreases addrs
  {
    if addrs != [] {
      if d.ok {
        AlignedAddress(w, addrs[0], d);
      }
      ReadsInConfig(w, d, config, toConfig, fifo, Advance(w, fifo, a), Advance(w, fifo, b), Advance(w, fifo, l),
                    addrs[1..]);
    }
  }

  lemma AlignedAddress(w: Width, address: nat, d: Lines)
    requires d.size <= 8 && Aligned(w.data, d.size, d.shift)
    ensures var x := Filter(w, address) + LowBig(w, d); x >= 16 || x + d.size <= 16
  {
    var kept := address % Pow256(w.addr);
    var q := kept / w.data;
    assert Filter(w, address) == w.data * q;
    var low := LowBig(w, d);
    assert low % d.size == 0;
    if w.data == 1 {
    } else if w.data == 2 {
    } else if w.data == 4 {
    } else {
      assert w.data == 8;
    }
  }

  /** Whatever the request, eb_socket_read_config never indexes beyond its buffer. */
  lemma ConfigReadsInBounds(w: Width, r: Record)
    ensures forall i :: 0 <= i < |Reads(w, r)| ==> InConfig(Reads(w, r)[i])
  {
    var d, base := Decode(w.data, r.select), Filter(w, r.raddr);
    if d.ok {
      DecodedIsSelect(w.data, r.select);
    }
    ReadsInConfig(w, d, r.rca, r.bca, r.rff, r.raddr, base + LowBig(w, d), base + LowLittle(d), r.raddrs);
  }

  // ---------------------------------------------------------------------------
  // Replies can be encoded, and fit where the request was
  // ---------------------------------------------------------------------------

  lemma ReplyWordBound(w: Width, d: Lines, value: nat)
    requires d.ok ==> d.shift + d.size <= w.data
    ensures ReplyWord(d, value) < Pow256(Alignment(w))
  {
    AlignmentFits(w);
    if d.ok {
      ShlBytesBound(value % Pow256(d.size), d.size, d.shift);
      Pow256Grows(d.size + d.shift, Alignment(w));
    }
  }

  lemma {:induction false} ReplyWordsBound(w: Width, d: Lines, values: seq<nat>)
    requires d.ok ==> d.shift + d.size <= w.data
    ensures AllBelow(ReplyWords(d, values), Pow256(Alignment(w)))
  {
    hide ReplyWord, Alignment;
    if values != [] {
      ReplyWordBound(w, d, values[0]);
      ReplyWordsBound(w, d, values[1..]);
    }
  }

  lemma TerminatorFits(w: Width)
    ensures WellFormed(w, TERMINATOR)
    ensures |Encode(w, TERMINATOR)| == RecordAlignment(w)
  {
    EncodeShape(w, TERMINATOR, []);
  }

  lemma ReplyFits(w: Width, r: Record, values: seq<nat>)
    requires WellFormed(w, r) && |values| == |r.raddrs| && r.raddrs != []
    ensures WellFormed(w, Reply(w, r, values))
    ensures |Encode(w, Reply(w, r, values))| <= |Encode(w, r)|
  {
    var d := Decode(w.data, r.select);
    assert d.ok ==> d.shift + d.size <= w.data by {
      if d.ok {
        DecodedIsSelect(w.data, r.select);
      }
    }
    hide Decode, Alignment, ReplyWords;
    ReplyWordsBound(w, d, values);
    var reply := Reply(w, r, values);
    EncodeShape(w, reply, []);
    EncodeShape(w, r, []);
    assert RunWords(|reply.wvals|) == RunWords(|r.raddrs|);
  }

  /** The records one request record adds to the reply take no more bytes than it did. */
  lemma ReplyToFits(w: Width, open: bool, r: Record, values: seq<nat>)
    requires WellFormed(w, r) && |values| == |r.raddrs|
    ensures AllWellFormed(w, ReplyTo(w, open, r, values))
    ensures |EncodeAll(w, ReplyTo(w, open, r, values))| <= |Encode(w, r)|
  {
    hide WellFormed, Encode, Reply;
    TerminatorFits(w);
    EncodeShape(w, r, []);
    var out := ReplyTo(w, open, r, values);
    if r.raddrs != [] {
      ReplyFits(w, r, values);
      assert out == [Reply(w, r, values)];
      assert out[1..] == [];
      assert EncodeAll(w, out) == Encode(w, Reply(w, r, values)) + [];
    } else if out != [] {
      assert out == [TERMINATOR];
      assert out[1..] == [];
      assert EncodeAll(w, out) == Encode(w, TERMINATOR) + [];
    }
  }

  /** The reply to any sequence of records is made of encodable records and is no longer than the request. */
  lemma {:induction false} RespondFits<S>(w: Width, bus: Bus<S>, st: State<S>, open: bool, rs: seq<Record>)
    requires AllWellFormed(w, rs)
    ensures var out := Respond(w, bus, st, open, rs).2;
            AllWellFormed(w, out) && |EncodeAll(w, out)| <= |EncodeAll(w, rs)|
    decreases rs
  {
    hide WellFormed, Encode, ReplyTo, Run, Meaning, LeavesOpen;
    if rs != [] {
      var (st1, values) := Run(bus, st, Meaning(w, rs[0]));
      ReplyMeans(w, bus, st, open, rs[0]);
      ReplyToFits(w, open, rs[0], values);
      RespondFits(w, bus, st1, LeavesOpen(open, rs[0]), rs[1..]);
      EncodeAllConcat(w, ReplyTo(w, open, rs[0], values), Respond(w, bus, st1, LeavesOpen(open, rs[0]), rs[1..]).2);
    }
  }

  // ---------------------------------------------------------------------------
  // Replies close their cycle
  // ---------------------------------------------------------------------------

  /** The last record, if any, closes the cycle. */
  predicate Closed(rs: seq<Record>) {
    rs == [] || rs[|rs| - 1].cyc
  }

  lemma ReplyToClosed(w: Width, open: bool, r: Record, values: seq<nat>, before: seq<Record>)
    requires !open ==> Closed(before)
    ensures !LeavesOpen(open, r) ==> Closed(before + ReplyTo(w, open, r, values))
    ensures r.cyc ==> Closed(before + ReplyTo(w, open, r, values))
  {
    hide Reply;
    assert Reply(w, r, values).cyc == r.cyc by { ReplyCyc(w, r, values); }
    if r.raddrs == [] && !(LeavesOpen(open, r) && r.cyc) {
      assert before + ReplyTo(w, open, r, values) == before;
    }
  }

  lemma ReplyCyc(w: Width, r: Record, values: seq<nat>)
    ensures Reply(w, r, values).cyc == r.cyc
  {
  }

  lemma {:induction false} RespondClosed<S>(w: Width, bus: Bus<S>, st: State<S>, open: bool, rs: seq<Record>,
                                            before: seq<Record>)
    requires !open ==> Closed(before)
    requires rs != [] && rs[|rs| - 1].cyc
    ensures Closed(before + Respond(w, bus, st, open, rs).2)
    decreases rs
  {
    hide ReplyTo, Run, Meaning, LeavesOpen, Closed;
    var (st1, values) := Run(bus, st, Meaning(w, rs[0]));
    var open1 := LeavesOpen(open, rs[0]);
    ReplyToClosed(w, open, rs[0], values, before);
    var (st2, open2, out) := Respond(w, bus, st1, open1, rs[1..]);
    ConcatAssoc(before, ReplyTo(w, open, rs[0], values), out);
    if |rs| == 1 {
      assert rs[1..] == [] && out == [];
      NilConcat(ReplyTo(w, open, rs[0], values));
    } else {
      assert rs[1..][|rs| - 2] == rs[|rs| - 1];
      RespondClosed(w, bus, st1, open1, rs[1..], before + ReplyTo(w, open, rs[0], values));
    }
  }

  // ---------------------------------------------------------------------------
  // Any record, access by access
  // ---------------------------------------------------------------------------

  /** Where access i of a run that starts at an address goes. */
  function RunAddress(w: Width, fifo: bool, start: nat, i: nat): nat {
    if fifo || i == 0 then start else (start + i * w.data) % WORD
  }

  lemma AddressNext(w: Width, fifo: bool, start: nat, i: nat)
    ensures RunAddress(w, fifo, Advance(w, fifo, start), i) == RunAddress(w, fifo, start, i + 1)
  {
    if !fifo {
      Wrapped(start + w.data, i * w.data);
      assert (i + 1) * w.data == w.data + i * w.data;
    }
  }

  lemma Wrapped(x: nat, y: nat)
    ensures (x % WORD + y) % WORD == (x + y) % WORD
    ensures x % WORD % WORD == x % WORD
  {
    SmallMod(x % WORD, WORD);
    var q, r := (x % WORD + y) / WORD, (x % WORD + y) % WORD;
    DivMod(x + y, WORD, x / WORD + q, r);
  }

  lemma FirstAddress(w: Width, fifo: bool, start: nat)
    ensures RunAddress(w, fifo, start, 0) == start
  {
  }

  /** Write i of a record: refused if the select byte is no aligned power of two of the port; else, in config space, at the
      address of the run, or on the bus at both forms of it, with the selected bytes of its word. */
  lemma WritesAt(w: Width, r: Record, i: nat)
    requires i < |r.wvals|
    ensures |Writes(w, r)| == |r.wvals|
    ensures var d, base := Decode(w.data, r.select), Filter(w, r.waddr);
            var value := ShrBytes(r.wvals[i], d.shift) % Pow256(d.size);
            Writes(w, r)[i] == if !d.ok then BadWrite(r.wca)
                               else if r.wca then ConfigWrite(d.size, RunAddress(w, r.wff, r.waddr, i), value)
                               else BusWrite(d.size, RunAddress(w, r.wff, base + LowBig(w, d), i),
                                             RunAddress(w, r.wff, base + LowLittle(d), i), value)
  {
    var d, base := Decode(w.data, r.select), Filter(w, r.waddr);
    hide Decode, Filter, LowBig, LowLittle;
    WriteAt(w, d, r.wca, r.wff, r.waddr, base + LowBig(w, d), base + LowLittle(d), r.wvals, i);
  }

  lemma {:induction false} WriteAt(w: Width, d: Lines, config: bool, fifo: bool, a: nat, b: nat, l: nat, vals: seq<nat>,
                                   i: nat)
    requires d.size <= 8 && i < |vals|
    ensures |WriteMeaning(w, d, config, fifo, a, b, l, vals)| == |vals|
    ensures var value := ShrBytes(vals[i], d.shift) % Pow256(d.size);
            WriteMeaning(w, d, config, fifo, a, b, l, vals)[i]
            == if !d.ok then BadWrite(config)
               else if config then ConfigWrite(d.size, RunAddress(w, fifo, a, i), value)
               else BusWrite(d.size, RunAddress(w, fifo, b, i), RunAddress(w, fifo, l, i), value)
    decreases vals
  {
    var all := WriteMeaning(w, d, config, fifo, a, b, l, vals);
    var a', b', l' := Advance(w, fifo, a), Advance(w, fifo, b), Advance(w, fifo, l);
    hide ShrBytes, Pow256;
    if i == 0 {
      if |vals| > 1 {
        WriteAt(w, d, config, fifo, a', b', l', vals[1..], 0);
      }
    } else {
      WriteAt(w, d, config, fifo, a', b', l', vals[1..], i - 1);
      assert all[i] == WriteMeaning(w, d, config, fifo, a', b', l', vals[1..])[i - 1];
      AddressNext(w, fifo, a, i - 1);
      AddressNext(w, fifo, b, i - 1);
      AddressNext(w, fifo, l, i - 1);
      hide RunAddress, Advance;
    }
  }

  /** Read i of a record: refused like a write; else at the address it names, masked and with the low bits that the select
      lines give it; its value goes to the return address of the run. */
  lemma ReadsAt(w: Width, r: Record, i: nat)
    requires i < |r.raddrs|
    ensures var d, base, back := Decode(w.data, r.select), Filter(w, r.raddrs[i]), Filter(w, r.raddr);
            var to := if r.bca then ToConfig(RunAddress(w, r.rff, r.raddr, i))
                      else ToBus(RunAddress(w, r.rff, back + LowBig(w, d), i), RunAddress(w, r.rff, back + LowLittle(d), i));
            Reads(w, r)[i] == if !d.ok then BadRead(r.rca, r.bca)
                              else if r.rca then ConfigRead(d.size, base + LowBig(w, d), to)
                              else BusRead(d.size, base + LowBig(w, d), base + LowLittle(d), to)
  {
    var d, back := Decode(w.data, r.select), Filter(w, r.raddr);
    hide Decode, Filter, LowBig, LowLittle;
    ReadAt(w, d, r.rca, r.bca, r.rff, r.raddr, back + LowBig(w, d), back + LowLittle(d), r.raddrs, i);
  }

  lemma {:induction false} ReadAt(w: Width, d: Lines, config: bool, toConfig: bool, fifo: bool, a: nat, b: nat, l: nat,
                                  addrs: seq<nat>, i: nat)
    requires d.size <= 8 && i < |addrs|
    ensures var base := Filter(w, addrs[i]);
            var to := if toConfig then ToConfig(RunAddress(w, fifo, a, i))
                      else ToBus(RunAddress(w, fifo, b, i), RunAddress(w, fifo, l, i));
            ReadMeaning(w, d, config, toConfig, fifo, a, b, l, addrs)[i]
            == if !d.ok then BadRead(config, toConfig)
               else if config then ConfigRead(d.size, base + LowBig(w, d), to)
               else BusRead(d.size, base + LowBig(w, d), base + LowLittle(d), to)
    decreases addrs
  {
    var all := ReadMeaning(w, d, config, toConfig, fifo, a, b, l, addrs);
    var a', b', l' := Advance(w, fifo, a), Advance(w, fifo, b), Advance(w, fifo, l);
    hide Filter, LowBig, LowLittle;
    if i > 0 {
      ReadAt(w, d, config, toConfig, fifo, a', b', l', addrs[1..], i - 1);
      assert all[i] == ReadMeaning(w, d, config, toConfig, fifo, a', b', l', addrs[1..])[i - 1];
      AddressNext(w, fifo, a, i - 1);
      AddressNext(w, fifo, b, i - 1);
      AddressNext(w, fifo, l, i - 1);
      hide RunAddress, Advance;
    }
  }

  /** A refused access of bus space fails and does nothing else; one of config space does nothing at all; a refused read
      gives 0. */
  lemma RefusedPerform<S>(bus: Bus<S>, st: State<S>, a: Access)
    requires a.BadWrite? || a.BadRead?
    ensures var (end, value) := Perform(bus, st, a);
            && end.s == st.s && value == 0
            && end.error == if a.config then st.error else (2 * st.error + 1) % WORD
  {
  }

  /** The config register is one 128-bit number, big-endian: the error bits, then the SDB pointer. Beyond it reads give 0. */
  lemma ConfigRegister(error: nat, sdb: nat, size: Size, addr: nat)
    requires error < WORD && sdb < WORD && (addr >= 16 || addr + size <= 16)
    ensures ReadConfig(error, sdb, size, addr)
            == if addr >= 16 then 0 else (error * WORD + sdb) / Pow256(16 - addr - size) % Pow256(size)
  {
    hide Pow256, BigEndian, Value;
    if addr < 16 {
      var s := BigEndian(error, 8) + BigEndian(sdb, 8);
      RegisterValue(error, sdb);
      ValueSlice(s, addr, addr + size);
      assert (s + BigEndian(0, 8))[addr..addr + size] == s[addr..addr + size];
    }
  }

  lemma RegisterValue(error: nat, sdb: nat)
    requires error < WORD && sdb < WORD
    ensures Value(BigEndian(error, 8) + BigEndian(sdb, 8)) == error * WORD + sdb
  {
    Pow256Values();
    ValueOfBigEndian(error, 8);
    ValueOfBigEndian(sdb, 8);
    hide BigEndian, Value, Pow256;
    SmallMod(error, WORD);
    SmallMod(sdb, WORD);
    ValueConcat(BigEndian(error, 8), BigEndian(sdb, 8));
  }

  /** For every packet of whole records whose last one closes the cycle, the reply parses to its exact end,
      is no longer than the packet, and closes its cycle too: the peer's parser never takes its kill path on it. */
  lemma ReplyIsRequest<S>(w: Width, bus: Bus<S>, st: State<S>, packet: seq<Byte>)
    requires var (rs, rest) := ParseAll(w, packet); rest == [] && rs != [] && rs[|rs| - 1].cyc
    ensures var rs := ParseAll(w, packet).0;
            var out := Respond(w, bus, st, false, rs).2;
            && AllWellFormed(w, out)
            && ParseAll(w, EncodeAll(w, out)) == (out, [])
            && |EncodeAll(w, out)| <= |packet|
            && Closed(out)
  {
    hide Respond;
    var (rs, rest) := ParseAll(w, packet);
    ParsedAllWellFormed(w, packet);
    RespondFits(w, bus, st, false, rs);
    EncodeAllOfParseAll(w, packet);
    var out := Respond(w, bus, st, false, rs).2;
    RespondClosed(w, bus, st, false, rs, []);
    NilConcat(out);
    NilConcat(EncodeAll(w, out));
    ParseAllOfEncodeAll(w, out, []);
    NoRecordInNothing(w);
    hide ParseAll;
  }

  lemma NoRecordInNothing(w: Width)
    ensures ParseAll(w, []) == ([], [])
  {
  }

  lemma {:induction false} EncodeAllOfParseAll(w: Width, s: seq<Byte>)
    ensures var (rs, rest) := ParseAll(w, s);
            AllWellFormed(w, rs) && |EncodeAll(w, rs)| + |rest| == |s|
    decreases |s|
  {
    ParsedAllWellFormed(w, s);
    if HasRecord(w, s) {
      var tail := s[RecordLength(w, s)..];
      EncodeAllOfParseAll(w, tail);
      ParsedIsWellFormed(w, s);
      EncodeShape(w, ParseRecord(w, s), []);
      var (rs, rest) := ParseAll(w, tail);
      assert |Encode(w, ParseRecord(w, s))| == RecordLength(w, s);
      hide ParseRecord, Encode, RecordLength, WellFormed;
      assert ParseAll(w, s).0[1..] == rs;
    }
  }
}
