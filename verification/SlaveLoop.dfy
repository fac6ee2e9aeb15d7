/** The receiving end as it runs: one buffer, read and overwritten in place, refilled from a stream. */
module SlaveLoop {
  import opened Seqs
  import opened Words
  import opened Widths
  import opened Select
  import opened Records
  import opened Slave
  import opened SlaveFacts
  import opened Buffer

  // ---------------------------------------------------------------------------
  // Runs of words
  // ---------------------------------------------------------------------------

  /** The datum of a word, by shift and mask. */
  lemma DatumIsMasked(d: Lines, word: nat)
    ensures And(ShrBytes(word, d.shift), Pow256(d.size) - 1) == Datum(d, word)
  {
    Pow256IsPow2(d.size);
    AndMask(ShrBytes(word, d.shift), 8 * d.size, 0);
  }

  /** The first word of a block, and the rest. */
  lemma LoadFirst(s: seq<Byte>, k: nat, al: nat)
    requires k > 0 && k * al <= |s|
    ensures al <= |s| && (k - 1) * al <= |s| - al
    ensures LoadWords(s, k, al) == [Value(s[..al])] + LoadWords(s[al..], k - 1, al)
  {
    assert k * al == al + (k - 1) * al;
  }

  /** Config writes use the plain address only, bus writes only the bus forms, refused ones neither. */
  lemma {:induction false} FormsMatter(w: Width, d: Lines, config: bool, fifo: bool, a: nat, b: nat, l: nat,
                                       a': nat, b': nat, l': nat, vals: seq<nat>)
    requires d.size <= 8
    requires d.ok ==> if config then a == a' else b == b' && l == l'
    ensures WriteMeaning(w, d, config, fifo, a, b, l, vals) == WriteMeaning(w, d, config, fifo, a', b', l', vals)
    decreases vals
  {
    hide Advance, Datum;
    if vals != [] {
      FormsMatter(w, d, config, fifo, Advance(w, fifo, a), Advance(w, fifo, b), Advance(w, fifo, l),
                  Advance(w, fifo, a'), Advance(w, fifo, b'), Advance(w, fifo, l'), vals[1..]);
    }
  }

  /** The masked address with the low bits or-ed in is the bus form. */
  lemma BusForms(w: Width, d: Lines, address: nat)
    requires d.ok ==> d.shift + d.size <= w.data
    requires d.size > 0
    ensures FilterMask(w) >= 0
    ensures d.ok ==> Or(And(address, FilterMask(w)), LowBig(w, d)) == Filter(w, address) + LowBig(w, d)
    ensures d.ok ==> Or(And(address, FilterMask(w)), LowLittle(d)) == Filter(w, address) + LowLittle(d)
  {
    FilterIsMask(w, address);
    if d.ok {
      FilterOr(w, address, LowBig(w, d));
      FilterOr(w, address, LowLittle(d));
    }
  }

  /** One write: to the bus, to config space, or refused for its select lines. */
  function WriteOne<S>(bus: Bus<S>, st: State<S>, d: Lines, config: bool, a: nat, b: nat, l: nat, value: nat): State<S>
    requires d.size <= 8
  {
    if config then
      if d.ok then State(bus.configWrite(st.s, d.size, a, value), st.error) else st
    else if d.ok then
      var (s, fail) := bus.write(st.s, d.size, b, l, value);
      State(s, ShiftIn(st.error, fail))
    else State(st.s, ShiftIn(st.error, true))
  }

  /** One step of a run of writes that lies in the buffer as bytes s. */
  lemma WriteStep<S>(w: Width, bus: Bus<S>, st: State<S>, d: Lines, config: bool, fifo: bool, a: nat, b: nat, l: nat,
                     s: seq<Byte>, left: nat, al: nat)
    requires d.size <= 8 && left > 0 && left * al <= |s|
    ensures al <= |s| && (left - 1) * al <= |s| - al
    ensures Run(bus, st, WriteMeaning(w, d, config, fifo, a, b, l, LoadWords(s, left, al))).0
            == Run(bus, WriteOne(bus, st, d, config, a, b, l, Datum(d, Value(s[..al]))),
                   WriteMeaning(w, d, config, fifo, Advance(w, fifo, a), Advance(w, fifo, b), Advance(w, fifo, l),
                                LoadWords(s[al..], left - 1, al))).0
  {
    hide Advance, Datum, ShiftIn;
    LoadFirst(s, left, al);
    var words := LoadWords(s, left, al);
    assert words[0] == Value(s[..al]) && words[1..] == LoadWords(s[al..], left - 1, al);
  }

  lemma WritesStart<S>(w: Width, bus: Bus<S>, st: State<S>, d: Lines, config: bool, fifo: bool, s: seq<Byte>,
                       count: nat, a: nat, b: nat, l: nat)
    requires 0 < d.size <= 8 && (1 + count) * Alignment(w) <= |s|
    requires Alignment(w) <= |s| && count * Alignment(w) <= |s| - Alignment(w)
    requires var address := Value(s[..Alignment(w)]);
             d.ok ==> if config then a == address
                      else b == Filter(w, address) + LowBig(w, d) && l == Filter(w, address) + LowLittle(d)
    ensures var words := LoadWords(s, 1 + count, Alignment(w));
            WritesFrom(w, d, config, fifo, words[0], words[1..])
            == WriteMeaning(w, d, config, fifo, a, b, l, LoadWords(s[Alignment(w)..], count, Alignment(w)))
  {
    hide Filter, LowBig, LowLittle, WriteMeaning;
    var al := Alignment(w);
    LoadFirst(s, 1 + count, al);
    hide Alignment;
    var words := LoadWords(s, 1 + count, al);
    assert words[0] == Value(s[..al]) && words[1..] == LoadWords(s[al..], count, al);
    var base := Filter(w, words[0]);
    FormsMatter(w, d, config, fifo, words[0], base + LowBig(w, d), base + LowLittle(d), a, b, l, words[1..]);
  }

  /** Performs a run of writes straight from the buffer. */
  method ServeWrites<S>(w: Width, bus: Bus<S>, st: State<S>, d: Lines, config: bool, fifo: bool,
                        buf: array<Byte>, at: nat, count: nat) returns (end: State<S>, next: nat)
    requires 0 < d.size <= 8 && (d.ok ==> d.shift + d.size <= w.data)
    requires at + (1 + count) * Alignment(w) <= buf.Length
    ensures next == at + (1 + count) * Alignment(w)
    ensures var words := LoadWords(buf[at..next], 1 + count, Alignment(w));
            end == Run(bus, st, WritesFrom(w, d, config, fifo, words[0], words[1..])).0
  {
    hide *;
    var al := Alignment(w);
    ghost var src := buf[at..at + (1 + count) * al];
    TwoRuns(1, count, al);
    var address := Load(buf, at, al);
    FirstLoaded(buf, at, al, src);
    var a, b, l := WriteForms(w, d, config, address);
    WritesStart(w, bus, st, d, config, fifo, src, count, a, b, l);
    assert buf[at + al..at + (1 + count) * al] == src[al..];
    end, next := WriteEach(w, bus, st, d, config, fifo, buf, at + al, a, b, l, count, al);
  }

  lemma FirstLoaded(buf: array<Byte>, at: nat, al: nat, src: seq<Byte>)
    requires at + al <= buf.Length && at + |src| <= buf.Length && al <= |src| && src == buf[at..at + |src|]
    ensures Load(buf, at, al) == Value(src[..al])
  {
    assert src[..al] == buf[at..at + al];
    hide Value;
  }

  /** The address forms a run of writes starts with. */
  method WriteForms(w: Width, d: Lines, config: bool, address: nat) returns (a: nat, b: nat, l: nat)
    requires 0 < d.size <= 8 && (d.ok ==> d.shift + d.size <= w.data)
    ensures d.ok ==> if config then a == address
                     else b == Filter(w, address) + LowBig(w, d) && l == Filter(w, address) + LowLittle(d)
  {
    hide *;
    a, b, l := address, 0, 0;
    if !config {
      BusForms(w, d, a);
      a := And(a, FilterMask(w));
      b, l := Or(a, LowBig(w, d)), Or(a, LowLittle(d));
    }
  }

  /** The writes themselves, from their first word on. */
  method WriteEach<S>(w: Width, bus: Bus<S>, st: State<S>, d: Lines, config: bool, fifo: bool, buf: array<Byte>, first: nat,
                      a0: nat, b0: nat, l0: nat, count: nat, al: nat) returns (end: State<S>, next: nat)
    requires 0 < d.size <= 8 && first + count * al <= buf.Length
    ensures next == first + count * al
    ensures end == Run(bus, st, WriteMeaning(w, d, config, fifo, a0, b0, l0, LoadWords(buf[first..next], count, al))).0
  {
    hide *;
    next, end := first, st;
    ghost var stop := first + count * al;
    ghost var total := WriteMeaning(w, d, config, fifo, a0, b0, l0, LoadWords(buf[first..stop], count, al));
    var a, b, l := a0, b0, l0;
    ghost var rest := buf[first..stop];
    var left: nat := count;
    while left > 0
      invariant first <= next <= stop <= buf.Length && next + left * al == stop && rest == buf[next..stop]
      invariant Run(bus, st, total).0
                == Run(bus, end, WriteMeaning(w, d, config, fifo, a, b, l, LoadWords(rest, left, al))).0
    {
      TwoRuns(left - 1, 1, al);
      WriteStep(w, bus, end, d, config, fifo, a, b, l, rest, left, al);
      FirstLoaded(buf, next, al, rest);
      var word := Load(buf, next, al);
      DatumIsMasked(d, word);
      end := WriteOne(bus, end, d, config, a, b, l, And(ShrBytes(word, d.shift), Pow256(d.size) - 1));
      a, b, l := Advance(w, fifo, a), Advance(w, fifo, b), Advance(w, fifo, l);
      next, left := next + al, left - 1;
      rest := rest[al..];
    }
    NothingLeft(w, bus, end, d, config, fifo, a, b, l, rest, al);
  }

  lemma NothingLeft<S>(w: Width, bus: Bus<S>, st: State<S>, d: Lines, config: bool, fifo: bool, a: nat, b: nat, l: nat,
                       s: seq<Byte>, al: nat)
    requires d.size <= 8
    ensures Run(bus, st, WriteMeaning(w, d, config, fifo, a, b, l, LoadWords(s, 0, al))).0 == st
  {
  }

  // ---------------------------------------------------------------------------
  // Reads, answered in place
  // ---------------------------------------------------------------------------

  /** One read: from the bus, from config space, or refused for its select lines. */
  function ReadOne<S>(bus: Bus<S>, st: State<S>, d: Lines, config: bool, b: nat, l: nat): (State<S>, nat)
    requires d.size <= 8
  {
    if config then
      (st, if d.ok then ReadConfig(st.error, bus.sdbOffset(st.s), d.size, b) else 0)
    else if d.ok then
      var (s, value, fail) := bus.read(st.s, d.size, b, l);
      (State(s, ShiftIn(st.error, fail)), value)
    else (State(st.s, ShiftIn(st.error, true)), 0)
  }

  /** The reply word, by mask and shift. */
  lemma ReplyIsShifted(w: Width, d: Lines, value: nat)
    requires d.ok ==> d.shift + d.size <= w.data
    ensures (if d.ok then ShlBytes(And(value, Pow256(d.size) - 1), d.shift) % WORD else 0) == ReplyWord(d, value)
  {
    if d.ok {
      Pow256IsPow2(d.size);
      AndMask(value, 8 * d.size, 0);
      ShlBytesBound(value % Pow256(d.size), d.size, d.shift);
      Pow256Grows(d.size + d.shift, 8);
      Pow256Values();
      SmallMod(ReplyWord(d, value), WORD);
    }
  }

  /** A step of a run of reads that lies in the buffer as bytes s. */
  lemma ReadStep<S>(w: Width, bus: Bus<S>, st: State<S>, d: Lines, config: bool, toConfig: bool, fifo: bool, a: nat,
                    b: nat, l: nat, s: seq<Byte>, left: nat, al: nat)
    requires d.size <= 8 && left > 0 && left * al <= |s|
    ensures al <= |s| && (left - 1) * al <= |s| - al
    ensures var base := Filter(w, Value(s[..al]));
            var (st1, v) := ReadOne(bus, st, d, config, base + LowBig(w, d), base + LowLittle(d));
            var (st2, vs) := Run(bus, st1, ReadMeaning(w, d, config, toConfig, fifo, Advance(w, fifo, a),
                                                       Advance(w, fifo, b), Advance(w, fifo, l),
                                                       LoadWords(s[al..], left - 1, al)));
            Run(bus, st, ReadMeaning(w, d, config, toConfig, fifo, a, b, l, LoadWords(s, left, al))) == (st2, [v] + vs)
  {
    hide Advance, Filter, LowBig, LowLittle, ReadOne, Perform, LoadWords, Value;
    LoadFirst(s, left, al);
    var words := LoadWords(s, left, al);
    assert words[0] == Value(s[..al]) && words[1..] == LoadWords(s[al..], left - 1, al);
    var base := Filter(w, words[0]);
    PerformRead(w, bus, st, d, config, toConfig, base + LowBig(w, d), base + LowLittle(d), a, b, l);
  }

  lemma PerformRead<S>(w: Width, bus: Bus<S>, st: State<S>, d: Lines, config: bool, toConfig: bool, b: nat, l: nat,
                       backA: nat, backB: nat, backL: nat)
    requires d.size <= 8
    ensures var back := if toConfig then ToConfig(backA) else ToBus(backB, backL);
            var access := if !d.ok then BadRead(config, toConfig)
                          else if config then ConfigRead(d.size, b, back)
                          else BusRead(d.size, b, l, back);
            access.IsRead() && Perform(bus, st, access) == ReadOne(bus, st, d, config, b, l)
  {
    hide ShiftIn, ReadConfig;
  }

  lemma {:induction false} ReplyWordsConcat(d: Lines, a: seq<nat>, b: seq<nat>)
    ensures ReplyWords(d, a + b) == ReplyWords(d, a) + ReplyWords(d, b)
  {
    hide ReplyWord;
    if a == [] {
      assert a + b == b;
    } else {
      assert (a + b)[1..] == a[1..] + b;
      ReplyWordsConcat(d, a[1..], b);
      ConcatAssoc([ReplyWord(d, a[0])], ReplyWords(d, a[1..]), ReplyWords(d, b));
    }
  }

  /** The bytes of a reply run so far: its address and the words for the values read. */
  function ReplyBytes(d: Lines, back: nat, values: seq<nat>, al: nat): (s: seq<Byte>)
    ensures |s| == (1 + |values|) * al
  {
    WordBytes([back] + ReplyWords(d, values), al)
  }

  lemma ReplyBytesMore(d: Lines, back: nat, values: seq<nat>, v: nat, al: nat)
    ensures ReplyBytes(d, back, values + [v], al) == ReplyBytes(d, back, values, al) + BigEndian(ReplyWord(d, v), al)
  {
    hide ReplyWord, BigEndian;
    ReplyWordsConcat(d, values, [v]);
    assert ReplyWords(d, [v]) == [ReplyWord(d, v)];
    ConcatAssoc([back], ReplyWords(d, values), [ReplyWord(d, v)]);
    WordsConcat([back] + ReplyWords(d, values), [ReplyWord(d, v)], al);
    assert WordBytes([ReplyWord(d, v)], al) == BigEndian(ReplyWord(d, v), al) + [];
    NilConcat(BigEndian(ReplyWord(d, v), al));
  }

  lemma ReplyBytesNone(d: Lines, back: nat, al: nat)
    ensures ReplyBytes(d, back, [], al) == BigEndian(back, al)
  {
    assert [back] + ReplyWords(d, []) == [back];
    assert WordBytes([back], al) == BigEndian(back, al) + [];
  }

  /** A run of reads as it lies in the buffer: the answers to what has been read so far follow the address. */
  ghost predicate Replying<S>(w: Width, bus: Bus<S>, st: State<S>, d: Lines, config: bool, toConfig: bool, fifo: bool,
                              a: nat, b: nat, l: nat, s: seq<Byte>, left: nat, al: nat, values: seq<nat>,
                              final: (State<S>, seq<nat>))
    requires d.size <= 8 && left * al <= |s|
  {
    var (end, more) := Run(bus, st, ReadMeaning(w, d, config, toConfig, fifo, a, b, l, LoadWords(s, left, al)));
    final == (end, values + more)
  }

  lemma ReplyingStep<S>(w: Width, bus: Bus<S>, st: State<S>, d: Lines, config: bool, toConfig: bool, fifo: bool,
                        a: nat, b: nat, l: nat, s: seq<Byte>, left: nat, al: nat, values: seq<nat>,
                        final: (State<S>, seq<nat>))
    requires d.size <= 8 && left > 0 && left * al <= |s|
    requires Replying(w, bus, st, d, config, toConfig, fifo, a, b, l, s, left, al, values, final)
    ensures al <= |s| && (left - 1) * al <= |s| - al
    ensures var base := Filter(w, Value(s[..al]));
            var (st1, v) := ReadOne(bus, st, d, config, base + LowBig(w, d), base + LowLittle(d));
            Replying(w, bus, st1, d, config, toConfig, fifo, Advance(w, fifo, a), Advance(w, fifo, b),
                     Advance(w, fifo, l), s[al..], left - 1, al, values + [v], final)
  {
    ReadStep(w, bus, st, d, config, toConfig, fifo, a, b, l, s, left, al);
    hide ReadOne, Advance, Filter, LowBig, LowLittle, ReadMeaning, Run, LoadWords;
    var base := Filter(w, Value(s[..al]));
    var (st1, v) := ReadOne(bus, st, d, config, base + LowBig(w, d), base + LowLittle(d));
    var more := Run(bus, st1, ReadMeaning(w, d, config, toConfig, fifo, Advance(w, fifo, a), Advance(w, fifo, b),
                                          Advance(w, fifo, l), LoadWords(s[al..], left - 1, al))).1;
    ConcatAssoc(values, [v], more);
  }

  lemma ReplyingStart<S>(w: Width, bus: Bus<S>, st: State<S>, d: Lines, config: bool, toConfig: bool, fifo: bool,
                         s: seq<Byte>, count: nat)
    requires d.size <= 8 && (1 + count) * Alignment(w) <= |s|
    ensures Alignment(w) <= |s| && count * Alignment(w) <= |s| - Alignment(w)
    ensures var al := Alignment(w);
            var words := LoadWords(s, 1 + count, al);
            var base := Filter(w, words[0]);
            && words[0] == Value(s[..al])
            && Replying(w, bus, st, d, config, toConfig, fifo, words[0], base + LowBig(w, d), base + LowLittle(d),
                        s[al..], count, al, [],
                        Run(bus, st, ReadsFrom(w, d, config, toConfig, fifo, words[0], words[1..])))
  {
    hide Filter, LowBig, LowLittle, ReadMeaning, Run, Alignment;
    var al := Alignment(w);
    LoadFirst(s, 1 + count, al);
    assert LoadWords(s, 1 + count, al)[1..] == LoadWords(s[al..], count, al);
    NilConcat(Run(bus, st, ReadsFrom(w, d, config, toConfig, fifo, LoadWords(s, 1 + count, al)[0],
                                     LoadWords(s, 1 + count, al)[1..])).1);
  }

  lemma ReplyingEnd<S>(w: Width, bus: Bus<S>, st: State<S>, d: Lines, config: bool, toConfig: bool, fifo: bool,
                       a: nat, b: nat, l: nat, s: seq<Byte>, al: nat, values: seq<nat>, final: (State<S>, seq<nat>))
    requires d.size <= 8
    requires Replying(w, bus, st, d, config, toConfig, fifo, a, b, l, s, 0, al, values, final)
    ensures final == (st, values)
  {
    NilConcat(values);
  }

  /** Echoes the return address where the reply is being built. */
  method EchoBack(ghost d: Lines, buf: array<Byte>, wptr: nat, ghost next: nat, back: nat, al: nat) returns (wnext: nat)
    requires wptr + al <= next <= buf.Length
    modifies buf
    ensures wnext == wptr + al
    ensures buf[wptr..wnext] == ReplyBytes(d, back, [], al)
    ensures buf[..wptr] == old(buf[..wptr]) && buf[next..] == old(buf[next..])
  {
    hide *;
    Store(buf, wptr, back, al);
    wnext := wptr + al;
    KeptAfter(old(buf[..]), buf[..], wnext, next);
    ReplyBytesNone(d, back, al);
  }

  /** Performs a run of reads and overwrites the buffer, from wptr on, with the return address and the answers.
      Each word is read before the place it may share with an answer is written. */
  method ServeReads<S>(w: Width, bus: Bus<S>, st: State<S>, d: Lines, config: bool, ghost toConfig: bool,
                       ghost fifo: bool, buf: array<Byte>, wptr: nat, at: nat, count: nat)
    returns (end: State<S>, wnext: nat, next: nat, ghost values: seq<nat>)
    requires 0 < d.size <= 8 && (d.ok ==> d.shift + d.size <= w.data)
    requires wptr <= at && at + (1 + count) * Alignment(w) <= buf.Length
    modifies buf
    ensures next == at + (1 + count) * Alignment(w) && wnext == wptr + (1 + count) * Alignment(w)
    ensures var words := LoadWords(old(buf[at..next]), 1 + count, Alignment(w));
            && (end, values) == Run(bus, st, ReadsFrom(w, d, config, toConfig, fifo, words[0], words[1..]))
            && |values| == count
            && buf[wptr..wnext] == ReplyBytes(d, words[0], values, Alignment(w))
    ensures buf[..wptr] == old(buf[..wptr]) && buf[next..] == old(buf[next..])
  {
    hide *;
    var al := Alignment(w);
    ghost var stop := at + (1 + count) * al;
    ghost var src := buf[at..stop];
    ghost var words := LoadWords(src, 1 + count, al);
    ghost var final := Run(bus, st, ReadsFrom(w, d, config, toConfig, fifo, words[0], words[1..]));
    ghost var base := Filter(w, words[0]);
    TwoRuns(1, count, al);
    ReplyingStart(w, bus, st, d, config, toConfig, fifo, src, count);
    FirstLoaded(buf, at, al, src);
    var back := Load(buf, at, al);
    wnext := EchoBack(d, buf, wptr, at + al, back, al);
    OverwritingStarts(old(buf[..]), buf[..], wptr, wnext, at, at + al, stop, ReplyBytes(d, back, [], al));
    end, wnext, next, values := ReadEach(w, bus, st, d, config, toConfig, fifo, buf, wptr, wnext, at + al, count, back,
                                         words[0], base + LowBig(w, d), base + LowLittle(d), final, old(buf[..]));
    OverwritingEnds(old(buf[..]), buf[..], wptr, wnext, next, ReplyBytes(d, back, values, al));
  }

  /** The buffer (now) while a reply from wptr to wnext overwrites what was there, up to next. */
  ghost predicate Overwriting(was: seq<Byte>, now: seq<Byte>, wptr: nat, wnext: nat, next: nat, reply: seq<Byte>) {
    && |was| == |now| && wptr <= wnext <= next <= |was|
    && now[..wptr] == was[..wptr] && now[next..] == was[next..] && now[wptr..wnext] == reply
  }

  lemma OverwritingStarts(was: seq<Byte>, now: seq<Byte>, wptr: nat, wnext: nat, at: nat, next: nat, stop: nat,
                          reply: seq<Byte>)
    requires |was| == |now| && wptr <= wnext <= next <= stop <= |was| && at <= next
    requires now[..wptr] == was[..wptr] && now[next..] == was[next..] && now[wptr..wnext] == reply
    ensures Overwriting(was, now, wptr, wnext, next, reply)
    ensures was[next..stop] == was[at..stop][next - at..]
  {
  }

  lemma OverwritingEnds(was: seq<Byte>, now: seq<Byte>, wptr: nat, wnext: nat, next: nat, reply: seq<Byte>)
    requires Overwriting(was, now, wptr, wnext, next, reply)
    ensures |was| == |now| && wptr <= wnext <= next <= |was|
    ensures now[..wptr] == was[..wptr] && now[next..] == was[next..] && now[wptr..wnext] == reply
  {
  }

  /** The next word is still what it was. */
  lemma OverwritingKeeps(was: seq<Byte>, now: seq<Byte>, wptr: nat, wnext: nat, next: nat, reply: seq<Byte>, stop: nat, al: nat)
    requires Overwriting(was, now, wptr, wnext, next, reply) && next + al <= stop <= |was|
    ensures |was| == |now| && wptr <= wnext <= next
    ensures now[next..next + al] == was[next..stop][..al] && was[next..stop][al..] == was[next + al..stop]
  {
    assert now[next..next + al] == now[next..][..al];
    assert was[next..stop][..al] == was[next..][..al];
  }

  lemma OverwritingStep(was: seq<Byte>, mid: seq<Byte>, now: seq<Byte>, wptr: nat, wnext: nat, next: nat, reply: seq<Byte>,
                        al: nat, more: seq<Byte>)
    requires Overwriting(was, mid, wptr, wnext, next, reply) && next + al <= |was| == |now|
    requires now[wptr..wnext + al] == mid[wptr..wnext] + more && now[..wptr] == mid[..wptr] && now[next + al..] == mid[next + al..]
    ensures Overwriting(was, now, wptr, wnext + al, next + al, reply + more)
  {
    assert mid[next + al..] == mid[next..][al..] && was[next + al..] == was[next..][al..];
  }

  /** The reads themselves, from their first address on; the return address has been echoed. */
  method ReadEach<S>(w: Width, bus: Bus<S>, st: State<S>, d: Lines, config: bool, ghost toConfig: bool, ghost fifo: bool,
                     buf: array<Byte>, ghost wptr: nat, wfirst: nat, first: nat, count: nat, ghost back: nat,
                     ghost a0: nat, ghost b0: nat, ghost l0: nat, ghost final: (State<S>, seq<nat>), ghost was: seq<Byte>)
    returns (end: State<S>, wnext: nat, next: nat, ghost values: seq<nat>)
    requires 0 < d.size <= 8 && (d.ok ==> d.shift + d.size <= w.data)
    requires |was| == buf.Length && wfirst <= first && first + count * Alignment(w) <= buf.Length
    requires Overwriting(was, buf[..], wptr, wfirst, first, ReplyBytes(d, back, [], Alignment(w)))
    requires Replying(w, bus, st, d, config, toConfig, fifo, a0, b0, l0, was[first..first + count * Alignment(w)], count,
                      Alignment(w), [], final)
    modifies buf
    ensures next == first + count * Alignment(w) && wnext == wfirst + count * Alignment(w)
    ensures final == (end, values) && |values| == count
    ensures Overwriting(was, buf[..], wptr, wnext, next, ReplyBytes(d, back, values, Alignment(w)))
  {
    hide *;
    var al := Alignment(w);
    ghost var stop := first + count * al;
    ghost var a, b, l := a0, b0, l0;
    end, wnext, next, values := st, wfirst, first, [];
    var left: nat := count;
    while left > 0
      invariant first <= next <= stop && next + left * al == stop && wnext <= next
      invariant wnext - wfirst == next - first && |values| == count - left
      invariant Overwriting(was, buf[..], wptr, wnext, next, ReplyBytes(d, back, values, al))
      invariant Replying(w, bus, end, d, config, toConfig, fifo, a, b, l, was[next..stop], left, al, values, final)
    {
      TwoRuns(left - 1, 1, al);
      ReplyingStep(w, bus, end, d, config, toConfig, fifo, a, b, l, was[next..stop], left, al, values, final);
      OverwritingKeeps(was, buf[..], wptr, wnext, next, ReplyBytes(d, back, values, al), stop, al);
      ghost var value, mid := 0, buf[..];
      end, value := AnswerOne(w, bus, end, d, config, buf, wptr, wnext, next);
      ReplyBytesMore(d, back, values, value, al);
      OverwritingStep(was, mid, buf[..], wptr, wnext, next, ReplyBytes(d, back, values, al), al,
                      BigEndian(ReplyWord(d, value), al));
      values := values + [value];
      next, wnext, left := next + al, wnext + al, left - 1;
      a, b, l := Advance(w, fifo, a), Advance(w, fifo, b), Advance(w, fifo, l);
    }
    ReplyingEnd(w, bus, end, d, config, toConfig, fifo, a, b, l, was[next..stop], al, values, final);
  }

  lemma KeptAfterStep<T>(s: seq<T>, next: nat, stop: nat, al: nat)
    requires next + al <= stop <= |s|
    ensures s[next..stop][al..] == s[next + al..stop]
    ensures s[next..][al..] == s[next + al..]
  {
  }

  /** Reads one address word, performs the read, and writes the answer word over bytes already read. */
  method AnswerOne<S>(w: Width, bus: Bus<S>, st: State<S>, d: Lines, config: bool, buf: array<Byte>,
                      ghost wptr: nat, wnext: nat, next: nat)
    returns (end: State<S>, ghost value: nat)
    requires 0 < d.size <= 8 && (d.ok ==> d.shift + d.size <= w.data)
    requires wptr <= wnext <= next && next + Alignment(w) <= buf.Length
    modifies buf
    ensures var base := Filter(w, Value(old(buf[next..next + Alignment(w)])));
            (end, value) == ReadOne(bus, st, d, config, base + LowBig(w, d), base + LowLittle(d))
    ensures buf[wptr..wnext + Alignment(w)]
            == old(buf[wptr..wnext]) + BigEndian(ReplyWord(d, value), Alignment(w))
    ensures buf[..wptr] == old(buf[..wptr])
    ensures buf[next + Alignment(w)..] == old(buf[next + Alignment(w)..])
  {
    hide Filter, LowBig, LowLittle, Alignment, Value, ReadOne, ReplyWord, BigEndian;
    var al := Alignment(w);
    var address := Load(buf, next, al);
    var v, word;
    end, v, word := ReadWord(w, bus, st, d, config, address);
    value := v;
    Store(buf, wnext, word, al);
    hide *;
    StoredNext(old(buf[..]), buf[..], wptr, wnext, next, al);
    KeptAfterStep(old(buf[..]), next, buf.Length, al);
  }

  /** Performs one read and forms its reply word. */
  method ReadWord<S>(w: Width, bus: Bus<S>, st: State<S>, d: Lines, config: bool, address: nat)
    returns (end: State<S>, value: nat, word: nat)
    requires 0 < d.size <= 8 && (d.ok ==> d.shift + d.size <= w.data)
    ensures var base := Filter(w, address);
            (end, value) == ReadOne(bus, st, d, config, base + LowBig(w, d), base + LowLittle(d))
    ensures word == ReplyWord(d, value)
  {
    hide And, Or, Filter, LowBig, LowLittle, ShlBytes, FilterMask, ReplyWord, ReadConfig, ShiftIn;
    BusForms(w, d, address);
    var kept := And(address, FilterMask(w));
    var (st1, v) := ReadOne(bus, st, d, config, Or(kept, LowBig(w, d)), Or(kept, LowLittle(d)));
    end, value := st1, v;
    ReplyIsShifted(w, d, value);
    word := if d.ok then ShlBytes(And(value, Pow256(d.size) - 1), d.shift) % WORD else 0;
  }

  lemma KeptAfter<T>(s: seq<T>, t: seq<T>, i: nat, j: nat)
    requires i <= j <= |s| == |t| && s[i..] == t[i..]
    ensures s[j..] == t[j..]
  {
    assert s[j..] == s[i..][j - i..] && t[j..] == t[i..][j - i..];
  }

  /** What a store at wnext leaves of the answers before it and the words after it. */
  lemma StoredNext<T>(s: seq<T>, t: seq<T>, wptr: nat, wnext: nat, next: nat, al: nat)
    requires wptr <= wnext <= next && next + al <= |s| == |t|
    requires s[..wnext] == t[..wnext] && s[wnext + al..] == t[wnext + al..]
    ensures t[..wptr] == s[..wptr] && t[wptr..wnext] == s[wptr..wnext]
    ensures t[next + al..] == s[next..][al..]
    ensures t[wptr..wnext + al] == t[wptr..wnext] + t[wnext..wnext + al]
  {
    assert s[..wptr] == s[..wnext][..wptr] && t[..wptr] == t[..wnext][..wptr];
    assert s[wptr..wnext] == s[..wnext][wptr..] && t[wptr..wnext] == t[..wnext][wptr..];
    KeptAfter(s, t, wnext + al, next + al);
    assert s[next..][al..] == s[next + al..];
  }

  // ---------------------------------------------------------------------------
  // One record
  // ---------------------------------------------------------------------------

  /** The select lines, from the code's bit tricks. */
  method ReadLines(w: Width, select: Byte) returns (d: Lines)
    ensures d == Decode(w.data, select)
    ensures 0 < d.size <= 8 && (d.ok ==> d.shift + d.size <= w.data)
  {
    var s := Scan(select);
    ScanIsDecode(w.data, select);
    if s.ok && s.size <= w.data && s.shift < w.data {
      d := s;
      DecodedIsSelect(w.data, select);
    } else {
      d := Lines(false, 1, 0);
    }
  }

  /** Writes a reply header over the first bytes of the record being served. */
  method StoreHeader(w: Width, buf: array<Byte>, wptr: nat, flags: Byte, select: Byte, count: Byte)
    requires wptr + RecordAlignment(w) <= buf.Length
    modifies buf
    ensures RecordAlignment(w) >= 4
    ensures buf[wptr..wptr + RecordAlignment(w)] == [flags, select, count, 0] + Padding(w)
    ensures buf[..wptr] == old(buf[..wptr])
    ensures buf[wptr + RecordAlignment(w)..] == old(buf[wptr + RecordAlignment(w)..])
  {
    AlignmentFits(w);
    var n := RecordAlignment(w);
    Clear(buf, wptr, n);
    assert buf[wptr + 3..wptr + n] == buf[wptr..wptr + n][3..];
    buf[wptr] := flags;
    buf[wptr + 1] := select;
    buf[wptr + 2] := count;
    assert buf[wptr + 3..wptr + n] == seq(n - 3, _ => 0);
    assert buf[wptr..wptr + n] == [flags, select, count] + buf[wptr + 3..wptr + n];
  }

  /** The header byte of a reply. */
  function ReplyFlags(flags: Byte): Byte {
    (if Flag(flags, 0x08) then 0x08 else 0) + (if Flag(flags, 0x80) then 0x04 else 0)
    + (if Flag(flags, 0x20) then 0x02 else 0)
  }

  /** Where the write run of a record ends. */
  function WritesEnd(w: Width, s: seq<Byte>): nat
    requires HasRecord(w, s)
  {
    RecordAlignment(w) + RunWords(s[2]) * Alignment(w)
  }

  lemma ParsedCounts(w: Width, s: seq<Byte>)
    requires HasRecord(w, s)
    ensures var r := ParseRecord(w, s);
            |r.wvals| == s[2] && |r.raddrs| == s[3] && r.select == s[1]
    ensures RecordAlignment(w) <= WritesEnd(w, s) <= RecordLength(w, s) <= |s|
    ensures RecordLength(w, s) == WritesEnd(w, s) + RunWords(s[3]) * Alignment(w)
  {
    assert ParseRecord(w, s).select == s[1];
    ParsedIsWellFormed(w, s);
    hide ParseRecord, WellFormed, Alignment, RecordAlignment, RunWords;
    ProductNat(RunWords(s[2]), Alignment(w));
    ProductNat(RunWords(s[3]), Alignment(w));
  }

  lemma ProductNat(a: nat, b: nat)
    ensures a * b >= 0
  {
  }

  /** The writes of a parsed record are the words between its header and its reads. */
  lemma ParsedWrites(w: Width, s: seq<Byte>)
    requires HasRecord(w, s) && s[2] > 0
    ensures var n: nat := 1 + s[2] as nat;
            && RecordAlignment(w) + n * Alignment(w) == WritesEnd(w, s) <= |s|
            && [ParseRecord(w, s).waddr] + ParseRecord(w, s).wvals
               == LoadWords(s[RecordAlignment(w)..WritesEnd(w, s)], n, Alignment(w))
  {
    var n: nat := 1 + s[2] as nat;
    ParsedCounts(w, s);
    WritesBehindHeader(w, s, n);
    hide *;
    LoadBetween(s, RecordAlignment(w), WritesEnd(w, s), n, Alignment(w));
  }

  lemma WritesBehindHeader(w: Width, s: seq<Byte>, n: nat)
    requires HasRecord(w, s) && s[2] > 0 && n == RunWords(s[2]) && RecordAlignment(w) <= WritesEnd(w, s) <= |s|
    ensures RecordAlignment(w) + n * Alignment(w) == WritesEnd(w, s)
    ensures [ParseRecord(w, s).waddr] + ParseRecord(w, s).wvals == LoadWords(s[RecordAlignment(w)..], n, Alignment(w))
  {
    hide Flag, Alignment, RecordAlignment, LoadWords;
  }

  lemma ParsedReads(w: Width, s: seq<Byte>)
    requires HasRecord(w, s) && s[3] > 0
    ensures var n: nat := 1 + s[3] as nat;
            && WritesEnd(w, s) + n * Alignment(w) == RecordLength(w, s) <= |s|
            && [ParseRecord(w, s).raddr] + ParseRecord(w, s).raddrs
               == LoadWords(s[WritesEnd(w, s)..RecordLength(w, s)], n, Alignment(w))
  {
    var n: nat := 1 + s[3] as nat;
    ParsedCounts(w, s);
    assert RunWords(s[3]) == n;
    ReadsBehindWrites(w, s, n);
    hide *;
    LoadBetween(s, WritesEnd(w, s), RecordLength(w, s), n, Alignment(w));
  }

  lemma ReadsBehindWrites(w: Width, s: seq<Byte>, n: nat)
    requires HasRecord(w, s) && s[3] > 0 && n == RunWords(s[3]) && WritesEnd(w, s) <= |s|
    requires n * Alignment(w) <= |s| - WritesEnd(w, s)
    ensures [ParseRecord(w, s).raddr] + ParseRecord(w, s).raddrs == LoadWords(s[WritesEnd(w, s)..], n, Alignment(w))
  {
    var writes := RunWords(s[2]);
    hide Flag, Alignment, RecordAlignment, LoadWords;
    var skipped: nat := writes * Alignment(w);
    assert s[RecordAlignment(w)..][skipped..] == s[WritesEnd(w, s)..];
  }

  lemma LoadBetween(s: seq<Byte>, i: nat, j: nat, n: nat, al: nat)
    requires i <= j <= |s| && n * al == j - i
    ensures LoadWords(s[i..], n, al) == LoadWords(s[i..j], n, al)
  {
    hide *;
    assert s[i..][..j - i] == s[i..j];
    LoadPrefix(s[i..], s[i..j], n, al);
  }

  /** Only the bytes of the words matter. */
  lemma {:induction false} LoadPrefix(s: seq<Byte>, p: seq<Byte>, k: nat, al: nat)
    requires k * al == |p| <= |s| && s[..|p|] == p
    ensures LoadWords(s, k, al) == LoadWords(p, k, al)
  {
    hide Value;
    if k > 0 {
      LoadFirst(s, k, al);
      LoadFirst(p, k, al);
      assert s[..al] == p[..al] by { assert s[..al] == s[..|p|][..al]; }
      assert s[al..][..|p| - al] == p[al..] by { assert s[al..][..|p| - al] == s[..|p|][al..]; }
      LoadPrefix(s[al..], p[al..], k - 1, al);
    }
  }

  /** The bytes of a reply record. */
  lemma ReplyEncoded(w: Width, r: Record, flags: Byte, count: Byte, values: seq<nat>)
    requires |values| == count
    requires WellFormed(w, r) && r.raddrs != [] && |values| == |r.raddrs|
    requires r.cyc == Flag(flags, 0x08) && r.bca == Flag(flags, 0x80) && r.rff == Flag(flags, 0x20)
    ensures WellFormed(w, Reply(w, r, values))
    ensures Encode(w, Reply(w, r, values))
            == [ReplyFlags(flags), r.select, count, 0] + Padding(w)
               + ReplyBytes(Decode(w.data, r.select), r.raddr, values, Alignment(w))
  {
    ReplyFits(w, r, values);
    hide WellFormed, Decode, ReplyWord, Padding, Alignment;
    var reply := Reply(w, r, values);
    assert Flags(reply) == ReplyFlags(flags);
    assert RunBytes(Alignment(w), reply.raddr, reply.raddrs) == [];
    NilConcat(Header(w, reply) + RunBytes(Alignment(w), reply.waddr, reply.wvals));
  }

  lemma TerminatorEncoded(w: Width)
    ensures WellFormed(w, TERMINATOR)
    ensures Encode(w, TERMINATOR) == [8, 0, 0, 0] + Padding(w)
  {
    TerminatorFits(w);
    assert Flags(TERMINATOR) == 8;
    NilConcat(Header(w, TERMINATOR));
  }

  /** What serving one record leaves: state, values read, the open flag, and the reply bytes in place of the record. */
  ghost predicate Served<S>(w: Width, bus: Bus<S>, st: State<S>, open: bool, s: seq<Byte>,
                            end: State<S>, values: seq<nat>, after: bool, out: seq<Byte>)
    requires HasRecord(w, s)
  {
    var r := ParseRecord(w, s);
    && (end, values) == Run(bus, st, Meaning(w, r))
    && after == LeavesOpen(open, r)
    && |values| == |r.raddrs|
    && AllWellFormed(w, ReplyTo(w, open, r, values))
    && out == EncodeAll(w, ReplyTo(w, open, r, values))
  }

  /** Writes then reads of a record, as the code runs them. */
  lemma RunInTwo<S>(w: Width, bus: Bus<S>, st: State<S>, r: Record, mid: State<S>, end: State<S>, values: seq<nat>)
    requires mid == Run(bus, st, Writes(w, r)).0
    requires (end, values) == Run(bus, mid, Reads(w, r))
    ensures (end, values) == Run(bus, st, Meaning(w, r))
  {
    hide Run, Writes, Reads;
    ReadsLast(w, bus, st, r);
  }

  lemma NoWrites(w: Width, r: Record)
    requires r.wvals == []
    ensures Writes(w, r) == []
  {
    hide Decode;
  }

  lemma NoReads(w: Width, r: Record)
    requires r.raddrs == []
    ensures Reads(w, r) == []
  {
    hide Decode;
  }

  /** The bytes added to the reply for a record without reads. */
  lemma SilentReply(w: Width, open: bool, r: Record)
    requires r.raddrs == []
    ensures AllWellFormed(w, ReplyTo(w, open, r, []))
    ensures EncodeAll(w, ReplyTo(w, open, r, [])) == if open && r.cyc then [8, 0, 0, 0] + Padding(w) else []
  {
    TerminatorEncoded(w);
    hide WellFormed, Encode;
    if open && r.cyc {
      assert [TERMINATOR][1..] == [];
      assert ReplyTo(w, open, r, []) == [TERMINATOR];
      NilConcat(Encode(w, TERMINATOR));
    } else {
      assert ReplyTo(w, open, r, []) == [];
    }
  }

  /** The bytes added to the reply for a record with reads. */
  lemma SpokenReply(w: Width, open: bool, r: Record, flags: Byte, count: Byte, values: seq<nat>)
    requires |values| == count && WellFormed(w, r) && r.raddrs != [] && |values| == |r.raddrs|
    requires r.cyc == Flag(flags, 0x08) && r.bca == Flag(flags, 0x80) && r.rff == Flag(flags, 0x20)
    ensures AllWellFormed(w, ReplyTo(w, open, r, values))
    ensures EncodeAll(w, ReplyTo(w, open, r, values))
            == [ReplyFlags(flags), r.select, count, 0] + Padding(w)
               + ReplyBytes(Decode(w.data, r.select), r.raddr, values, Alignment(w))
  {
    ReplyEncoded(w, r, flags, count, values);
    hide WellFormed, Encode, Decode, ReplyFlags, ReplyBytes, Reply;
    var reply := Reply(w, r, values);
    assert [reply][1..] == [];
    assert ReplyTo(w, open, r, values) == [reply];
    NilConcat(Encode(w, reply));
  }

  lemma FlagsParsed(w: Width, s: seq<Byte>)
    requires HasRecord(w, s)
    ensures var r, f := ParseRecord(w, s), s[0];
            && r.bca == Flag(f, 0x80) && r.rca == Flag(f, 0x40) && r.rff == Flag(f, 0x20)
            && r.cyc == Flag(f, 0x08) && r.wca == Flag(f, 0x04) && r.wff == Flag(f, 0x02)
  {
    hide ParseRun, Flag;
  }

  /** The writes of the record at rptr. */
  method ServeWritePart<S>(w: Width, bus: Bus<S>, st: State<S>, d: Lines, flags: Byte, wcount: Byte, buf: array<Byte>,
                           rptr: nat, ghost eos: nat)
    returns (mid: State<S>, next: nat)
    requires rptr <= eos <= buf.Length && HasRecord(w, buf[rptr..eos])
    requires flags == buf[rptr] && d == Decode(w.data, buf[rptr + 1]) && wcount == buf[rptr + 2]
    requires 0 < d.size <= 8 && (d.ok ==> d.shift + d.size <= w.data)
    ensures next == rptr + WritesEnd(w, buf[rptr..eos])
    ensures mid == Run(bus, st, Writes(w, ParseRecord(w, buf[rptr..eos]))).0
  {
    hide Flag, Decode, Alignment, Run, LoadWords, WritesFrom;
    ghost var s := buf[rptr..eos];
    ghost var r := ParseRecord(w, s);
    assert flags == s[0] && wcount == s[2];
    ParsedCounts(w, s);
    FlagsParsed(w, s);
    mid, next := st, rptr + RecordAlignment(w);
    if wcount > 0 {
      ParsedWrites(w, s);
      hide ParseRecord;
      ghost var at, stop := next, rptr + WritesEnd(w, s);
      Within(buf[..], buf[..], rptr, at, stop, eos);
      mid, next := ServeWrites(w, bus, st, d, Flag(flags, 0x04), Flag(flags, 0x02), buf, next, wcount);
      hide *;
      WordsSplit(r.waddr, r.wvals, LoadWords(buf[at..stop], 1 + wcount as nat, Alignment(w)));
    } else {
      hide ParseRecord;
      NoWrites(w, r);
      NothingRun(bus, st);
    }
  }

  lemma NothingRun<S>(bus: Bus<S>, st: State<S>)
    ensures Run(bus, st, []) == (st, [])
  {
  }

  lemma WordsSplit(first: nat, rest: seq<nat>, words: seq<nat>)
    requires words == [first] + rest
    ensures words[0] == first && words[1..] == rest
  {
  }

  /** The part of a record from position at on, found again after a change before it. */
  lemma Within<T>(was: seq<T>, now: seq<T>, rptr: nat, at: nat, stop: nat, eos: nat)
    requires rptr <= at <= stop <= eos <= |was| == |now| && was[at..] == now[at..]
    ensures now[at..stop] == was[rptr..eos][at - rptr..stop - rptr]
  {
    assert now[at..stop] == now[at..][..stop - at];
    assert was[at..stop] == was[at..][..stop - at];
    var x := was[rptr..eos][at - rptr..stop - rptr];
    assert |x| == stop - at;
    assert forall i :: 0 <= i < |x| ==> x[i] == was[at..stop][i];
  }

  /** The reads of the record s, which starts at rptr, have been answered from wptr to wnext. */
  ghost predicate ReadsServed<S>(w: Width, bus: Bus<S>, mid: State<S>, open: bool, s: seq<Byte>, was: seq<Byte>,
                                 now: seq<Byte>, wptr: nat, rptr: nat, wnext: nat, next: nat, end: State<S>,
                                 values: seq<nat>)
    requires HasRecord(w, s)
  {
    var r := ParseRecord(w, s);
    && |was| == |now| && next == rptr + RecordLength(w, s) && wptr <= wnext <= next <= |was|
    && (end, values) == Run(bus, mid, Reads(w, r)) && |values| == |r.raddrs|
    && AllWellFormed(w, ReplyTo(w, open, r, values))
    && now[wptr..wnext] == EncodeAll(w, ReplyTo(w, open, r, values))
    && now[..wptr] == was[..wptr] && now[next..] == was[next..]
  }

  /** The reads of the record at rptr, answered from wptr on; at is where they start. */
  method AnswerReads<S>(w: Width, bus: Bus<S>, mid: State<S>, ghost open: bool, d: Lines, flags: Byte, select: Byte,
                        rcount: Byte, buf: array<Byte>, wptr: nat, ghost rptr: nat, at: nat, ghost eos: nat,
                        ghost s: seq<Byte>)
    returns (end: State<S>, wnext: nat, next: nat, ghost values: seq<nat>)
    requires wptr <= rptr <= eos <= buf.Length && s == buf[rptr..eos] && HasRecord(w, s)
    requires |s| > 3 && flags == s[0] && select == s[1] && rcount == s[3] > 0
    requires d == Decode(w.data, select) && 0 < d.size <= 8 && (d.ok ==> d.shift + d.size <= w.data)
    requires at == rptr + WritesEnd(w, s)
    modifies buf
    ensures ReadsServed(w, bus, mid, open, s, old(buf[..]), buf[..], wptr, rptr, wnext, next, end, values)
  {
    hide *;
    ghost var was := buf[..];
    ghost var r := ParseRecord(w, s);
    ParsedReading(w, s, d, flags, select, rcount);
    ghost var stop := rptr + RecordLength(w, s);
    ghost var n: nat := 1 + rcount as nat;
    var h := RecordAlignment(w);
    StoreHeader(w, buf, wptr, ReplyFlags(flags), select, rcount);
    ghost var mine := buf[..];
    WordsStill(r.raddr, r.raddrs, s, was, mine, wptr + h, rptr, at, stop, eos, n, Alignment(w));
    end, wnext, next, values := ServeReads(w, bus, mid, d, Flag(flags, 0x40), Flag(flags, 0x80), Flag(flags, 0x20),
                                           buf, wptr + h, at, rcount);
    assert stop == next;
    SpokenReply(w, open, r, flags, rcount, values);
    HeaderThenBody(mine, buf[..], wptr, wptr + h, wnext);
    ReadsServedIs(w, bus, mid, open, s, was, buf[..], wptr, rptr, wnext, next, end, values);
  }

  lemma ReadsServedIs<S>(w: Width, bus: Bus<S>, mid: State<S>, open: bool, s: seq<Byte>, was: seq<Byte>, now: seq<Byte>,
                         wptr: nat, rptr: nat, wnext: nat, next: nat, end: State<S>, values: seq<nat>)
    requires HasRecord(w, s) && |was| == |now| && next == rptr + RecordLength(w, s) && wptr <= wnext <= next <= |was|
    requires (end, values) == Run(bus, mid, Reads(w, ParseRecord(w, s))) && |values| == |ParseRecord(w, s).raddrs|
    requires AllWellFormed(w, ReplyTo(w, open, ParseRecord(w, s), values))
    requires now[wptr..wnext] == EncodeAll(w, ReplyTo(w, open, ParseRecord(w, s), values))
    requires now[..wptr] == was[..wptr] && now[next..] == was[next..]
    ensures ReadsServed(w, bus, mid, open, s, was, now, wptr, rptr, wnext, next, end, values)
  {
    hide HasRecord, ParseRecord, RecordLength, Run, Reads, AllWellFormed, ReplyTo, EncodeAll;
  }

  /** The words of a run, still in the buffer after a reply header has been written before it. */
  lemma WordsStill(first: nat, rest: seq<nat>, s: seq<Byte>, was: seq<Byte>, mine: seq<Byte>, kept: nat, rptr: nat, at: nat,
                   stop: nat, eos: nat, n: nat, al: nat)
    requires kept <= at <= stop <= eos <= |was| == |mine| && rptr <= at && was[rptr..eos] == s && mine[kept..] == was[kept..]
    requires n * al == stop - at && [first] + rest == LoadWords(s[at - rptr..stop - rptr], n, al)
    ensures LoadWords(mine[at..stop], n, al)[0] == first && LoadWords(mine[at..stop], n, al)[1..] == rest
    ensures mine[stop..] == was[stop..]
  {
    hide *;
    KeptAfter(was, mine, kept, at);
    KeptAfter(was, mine, kept, stop);
    Within(was, mine, rptr, at, stop, eos);
    WordsSplit(first, rest, LoadWords(mine[at..stop], n, al));
  }

  /** What a record with reads says about them. */
  lemma ParsedReading(w: Width, s: seq<Byte>, d: Lines, flags: Byte, select: Byte, rcount: Byte)
    requires HasRecord(w, s)
    requires |s| > 3 && flags == s[0] && select == s[1] && rcount == s[3] > 0 && d == Decode(w.data, select)
    ensures var r := ParseRecord(w, s);
            && WellFormed(w, r) && r.raddrs != [] && |r.raddrs| == rcount && r.select == select
            && r.cyc == Flag(flags, 0x08) && r.bca == Flag(flags, 0x80) && r.rff == Flag(flags, 0x20)
            && Reads(w, r) == ReadsFrom(w, d, Flag(flags, 0x40), Flag(flags, 0x80), Flag(flags, 0x20), r.raddr, r.raddrs)
    ensures 4 <= RecordAlignment(w) <= WritesEnd(w, s) <= RecordLength(w, s) <= |s|
    ensures var n: nat, r := 1 + rcount as nat, ParseRecord(w, s);
            && WritesEnd(w, s) + n * Alignment(w) == RecordLength(w, s)
            && [r.raddr] + r.raddrs == LoadWords(s[WritesEnd(w, s)..RecordLength(w, s)], n, Alignment(w))
  {
    hide *;
    AlignmentFits(w);
    ParsedCounts(w, s);
    FlagsParsed(w, s);
    ParsedIsWellFormed(w, s);
    ParsedReads(w, s);
    ReadsAre(w, ParseRecord(w, s), d, flags);
  }

  lemma ReadsAre(w: Width, r: Record, d: Lines, flags: Byte)
    requires d == Decode(w.data, r.select) && r.raddrs != []
    requires r.rca == Flag(flags, 0x40) && r.bca == Flag(flags, 0x80) && r.rff == Flag(flags, 0x20)
    ensures Reads(w, r) == ReadsFrom(w, d, Flag(flags, 0x40), Flag(flags, 0x80), Flag(flags, 0x20), r.raddr, r.raddrs)
  {
    hide ReadsFrom, Decode, Flag;
  }

  /** The reads of the record at rptr, if any; otherwise a terminator, if an earlier reply left the cycle open. */
  method ServeReadPart<S>(w: Width, bus: Bus<S>, mid: State<S>, open: bool, d: Lines, flags: Byte, select: Byte,
                          rcount: Byte, buf: array<Byte>, wptr: nat, ghost rptr: nat, at: nat, ghost eos: nat)
    returns (end: State<S>, after: bool, wnext: nat, next: nat, ghost values: seq<nat>)
    requires wptr <= rptr <= eos <= buf.Length && HasRecord(w, buf[rptr..eos])
    requires flags == buf[rptr] && select == buf[rptr + 1] && rcount == buf[rptr + 3]
    requires d == Decode(w.data, select) && 0 < d.size <= 8 && (d.ok ==> d.shift + d.size <= w.data)
    requires at == rptr + WritesEnd(w, buf[rptr..eos])
    modifies buf
    ensures next == rptr + RecordLength(w, old(buf[rptr..eos])) <= eos && wptr <= wnext <= next
    ensures var r := ParseRecord(w, old(buf[rptr..eos]));
            && (end, values) == Run(bus, mid, Reads(w, r))
            && |values| == |r.raddrs|
            && after == LeavesOpen(open, r)
            && AllWellFormed(w, ReplyTo(w, open, r, values))
            && buf[wptr..wnext] == EncodeAll(w, ReplyTo(w, open, r, values))
    ensures buf[..wptr] == old(buf[..wptr]) && buf[next..] == old(buf[next..])
  {
    hide Flag, Decode, Run, WellFormed, EncodeAll, AllWellFormed, ReplyTo, Padding;
    ghost var s := buf[rptr..eos];
    ghost var r := ParseRecord(w, s);
    ParsedCounts(w, s);
    FlagsParsed(w, s);
    hide HasRecord, ParseRecord;
    assert s[0] == flags && s[3] == rcount;
    if rcount > 0 {
      after := !Flag(flags, 0x08);
      ghost var was := buf[..];
      end, wnext, next, values := AnswerReads(w, bus, mid, open, d, flags, select, rcount, buf, wptr, rptr, at, eos, s);
      assert ReadsServed(w, bus, mid, open, s, was, buf[..], wptr, rptr, wnext, next, end, values);
    } else {
      end, after, wnext, next, values := mid, open, wptr, at, [];
      NoReads(w, r);
      NothingRun(bus, mid);
      SilentReply(w, open, r);
      ProductNat(0, Alignment(w));
      if open && Flag(flags, 0x08) {
        ghost var was := buf[..];
        StoreHeader(w, buf, wptr, 8, 0, 0);
        wnext := wptr + RecordAlignment(w);
        KeptAfter(was, buf[..], wnext, next);
      }
    }
  }

  lemma HeaderThenBody<T>(s: seq<T>, t: seq<T>, i: nat, j: nat, k: nat)
    requires i <= j <= k <= |s| == |t| && t[..j] == s[..j]
    ensures t[i..k] == s[i..j] + t[j..k] && t[..i] == s[..i]
  {
    assert t[..i] == t[..j][..i] && s[..i] == s[..j][..i];
    assert t[i..j] == t[..j][i..] && s[i..j] == s[..j][i..];
    assert t[i..k] == t[i..j] + t[j..k];
  }

  /** Serves the record at rptr, writing its part of the reply at wptr, which never passes the bytes still to be read. */
  method ServeRecord<S>(w: Width, bus: Bus<S>, st: State<S>, open: bool, buf: array<Byte>, wptr: nat, rptr: nat,
                        ghost eos: nat)
    returns (end: State<S>, after: bool, wnext: nat, next: nat, ghost values: seq<nat>)
    requires wptr <= rptr <= eos <= buf.Length && HasRecord(w, buf[rptr..eos])
    modifies buf
    ensures next == rptr + RecordLength(w, old(buf[rptr..eos])) <= eos && wptr <= wnext <= next
    ensures Served(w, bus, st, open, old(buf[rptr..eos]), end, values, after, buf[wptr..wnext])
    ensures buf[..wptr] == old(buf[..wptr]) && buf[next..] == old(buf[next..])
  {
    hide ParseRecord, Decode, Run, EncodeAll, AllWellFormed, ReplyTo, Alignment, LeavesOpen, WellFormed;
    ghost var s := buf[rptr..eos];
    ghost var r := ParseRecord(w, s);
    var flags, select, wcount, rcount := buf[rptr], buf[rptr + 1], buf[rptr + 2], buf[rptr + 3];
    var d := ReadLines(w, select);
    var mid, at := ServeWritePart(w, bus, st, d, flags, wcount, buf, rptr, eos);
    ParsedCounts(w, s);
    end, after, wnext, next, values := ServeReadPart(w, bus, mid, open, d, flags, select, rcount, buf, wptr, rptr, at, eos);
    RunInTwo(w, bus, st, r, mid, end, values);
  }

  // ---------------------------------------------------------------------------
  // A whole message
  // ---------------------------------------------------------------------------

  lemma {:induction false} RespondSnoc<S>(w: Width, bus: Bus<S>, st: State<S>, open: bool, rs: seq<Record>, r: Record)
    ensures var (st1, open1, out) := Respond(w, bus, st, open, rs);
            var (st2, values) := Run(bus, st1, Meaning(w, r));
            Respond(w, bus, st, open, rs + [r]) == (st2, LeavesOpen(open1, r), out + ReplyTo(w, open1, r, values))
    decreases rs
  {
    hide Run, Meaning, ReplyTo, LeavesOpen;
    if rs == [] {
      assert rs + [r] == [r] && [r][1..] == [];
      var (st2, values) := Run(bus, st, Meaning(w, r));
      assert Respond(w, bus, st2, LeavesOpen(open, r), []) == (st2, LeavesOpen(open, r), []);
      NilConcat(ReplyTo(w, open, r, values));
    } else {
      assert (rs + [r])[1..] == rs[1..] + [r];
      var (st1, values) := Run(bus, st, Meaning(w, rs[0]));
      RespondSnoc(w, bus, st1, LeavesOpen(open, rs[0]), rs[1..], r);
      var (st2, open2, out) := Respond(w, bus, st1, LeavesOpen(open, rs[0]), rs[1..]);
      ConcatAssoc(ReplyTo(w, open, rs[0], values), out, ReplyTo(w, open2, r, Run(bus, st2, Meaning(w, r)).1));
    }
  }

  /** More bytes behind a whole record do not change it. */
  lemma RecordPrefix(w: Width, s: seq<Byte>, more: seq<Byte>)
    requires HasRecord(w, s)
    ensures HasRecord(w, s + more) && RecordLength(w, s + more) == RecordLength(w, s)
    ensures ParseRecord(w, s + more) == ParseRecord(w, s)
    ensures ParseAll(w, s + more) == ([ParseRecord(w, s)] + ParseAll(w, s[RecordLength(w, s)..] + more).0,
                                      ParseAll(w, s[RecordLength(w, s)..] + more).1)
  {
    var t := s + more;
    ParsedIsWellFormed(w, s);
    var r, n := ParseRecord(w, s), RecordLength(w, s);
    EncodeParsed(w, s, more);
    assert t[n..] == s[n..] + more;
  }

  /** Parsing looks only at the bytes of the record. */
  lemma EncodeParsed(w: Width, s: seq<Byte>, more: seq<Byte>)
    requires HasRecord(w, s)
    ensures HasRecord(w, s + more) && RecordLength(w, s + more) == RecordLength(w, s)
    ensures ParseRecord(w, s + more) == ParseRecord(w, s)
  {
    hide Flag, Alignment;
    var t := s + more;
    assert t[0] == s[0] && t[1] == s[1] && t[2] == s[2] && t[3] == s[3];
    ParsedCounts(w, s);
    ParsedCounts(w, t);
    hide LoadWords;
    if s[2] > 0 {
      ParsedWrites(w, s);
      ParsedWrites(w, t);
      assert t[RecordAlignment(w)..WritesEnd(w, t)] == s[RecordAlignment(w)..WritesEnd(w, s)];
    }
    if s[3] > 0 {
      ParsedReads(w, s);
      ParsedReads(w, t);
      assert t[WritesEnd(w, t)..RecordLength(w, t)] == s[WritesEnd(w, s)..RecordLength(w, s)];
    }
  }

  /** k records of the message have been served: out is the reply so far, line0 + its bytes are on the line or in the
      buffer, and unread is exactly what is left of the message. */
  ghost predicate Serving<S>(w: Width, bus: Bus<S>, s0: S, message: seq<Byte>, line0: seq<Byte>, k: nat, st: State<S>,
                             open: bool, out: seq<Record>, closed: bool, replied: bool, unread: seq<Byte>,
                             line: seq<Byte>)
  {
    var (rs, rest) := ParseAll(w, message);
    && k <= |rs| && (st, open, out) == Respond(w, bus, State(s0, 0), false, rs[..k])
    && AllWellFormed(w, out) && line == line0 + EncodeAll(w, out)
    && (closed <==> k == 0 || rs[k - 1].cyc)
    && ParseAll(w, unread) == (rs[k..], rest)
    && (replied <==> HasReads(rs[..k]))
    && (!replied ==> out == [] && !open)
  }

  predicate HasReads(rs: seq<Record>) {
    exists i :: 0 <= i < |rs| && rs[i].raddrs != []
  }

  lemma ServingStart<S>(w: Width, bus: Bus<S>, s0: S, message: seq<Byte>, line0: seq<Byte>)
    ensures Serving(w, bus, s0, message, line0, 0, State(s0, 0), false, [], true, false, message, line0)
  {
    var rs := ParseAll(w, message).0;
    assert rs[..0] == [] && rs[0..] == rs;
    NilConcat(line0);
  }

  /** One more record. */
  lemma ServingStep<S>(w: Width, bus: Bus<S>, s0: S, message: seq<Byte>, line0: seq<Byte>, k: nat, st: State<S>,
                       open: bool, out: seq<Record>, closed: bool, replied: bool, s: seq<Byte>, tail: seq<Byte>,
                       line: seq<Byte>, end: State<S>, values: seq<nat>, after: bool, bytes: seq<Byte>)
    requires HasRecord(w, s)
    requires Serving(w, bus, s0, message, line0, k, st, open, out, closed, replied, s + tail, line)
    requires Served(w, bus, st, open, s, end, values, after, bytes)
    ensures var r := ParseRecord(w, s);
            Serving(w, bus, s0, message, line0, k + 1, end, after, out + ReplyTo(w, open, r, values), r.cyc,
                    replied || r.raddrs != [], s[RecordLength(w, s)..] + tail, line + bytes)
  {
    var (rs, rest) := ParseAll(w, message);
    var r := ParseRecord(w, s);
    RecordPrefix(w, s, tail);
    hide ParseAll, ParseRecord, WellFormed, HasRecord, RecordLength, Run, Meaning, ReplyTo, Encode, LeavesOpen, Respond;
    NextInRest(rs, k, r, ParseAll(w, s[RecordLength(w, s)..] + tail).0);
    assert rs[k..] == [r] + ParseAll(w, s[RecordLength(w, s)..] + tail).0;
    assert rs[..k + 1] == rs[..k] + [r];
    RespondSnoc(w, bus, State(s0, 0), false, rs[..k], r);
    EncodeAllConcat(w, out, ReplyTo(w, open, r, values));
    ConcatAssoc(line0, EncodeAll(w, out), bytes);
    StillSilent(w, open, r, values, out);
    HasReadsSnoc(rs[..k], r);
  }

  lemma NextInRest<T>(rs: seq<T>, k: nat, r: T, more: seq<T>)
    requires k <= |rs| && rs[k..] == [r] + more
    ensures k < |rs| && rs[k] == r && rs[k + 1..] == more && rs[..k + 1] == rs[..k] + [r]
  {
    assert rs[k] == rs[k..][0];
    assert rs[k + 1..] == rs[k..][1..];
  }

  lemma HasReadsSnoc(rs: seq<Record>, r: Record)
    ensures HasReads(rs + [r]) <==> HasReads(rs) || r.raddrs != []
  {
    if r.raddrs != [] {
      assert (rs + [r])[|rs|] == r;
    }
    if HasReads(rs) {
      var i :| 0 <= i < |rs| && rs[i].raddrs != [];
      assert (rs + [r])[i] == rs[i];
    }
  }

  lemma StillSilent(w: Width, open: bool, r: Record, values: seq<nat>, out: seq<Record>)
    ensures !open && r.raddrs == [] ==> ReplyTo(w, open, r, values) == [] && !LeavesOpen(open, r)
    ensures out == [] && ReplyTo(w, open, r, values) == [] ==> out + ReplyTo(w, open, r, values) == []
  {
  }

  /** A message that is exactly one cycle. */
  predicate OneCycle(w: Width, message: seq<Byte>) {
    var (rs, rest) := ParseAll(w, message);
    rest == [] && rs != [] && forall i :: 0 <= i < |rs| ==> (rs[i].cyc <==> i == |rs| - 1)
  }

  lemma RecordLengthFits(w: Width, s: seq<Byte>)
    requires |s| >= RecordAlignment(w)
    ensures 4 <= RecordAlignment(w) <= RecordLength(w, s) <= 4104
  {
    AlignmentFits(w);
  }

  lemma NothingToParse(w: Width, unread: seq<Byte>)
    requires ParseAll(w, unread) == ([], [])
    ensures unread == []
  {
  }

  /** The bytes to make up a record are not all here yet; move what there is to the front and receive more. */
  method Refill(buf: array<Byte>, from: nat, eos: nat, link: Channel) returns (len: nat)
    requires from <= eos <= buf.Length && eos - from < buf.Length && link.Valid()
    modifies buf, link`chunks
    ensures link.Valid() && eos - from <= len <= buf.Length
    ensures len == eos - from <==> old(link.Pending()) == []
    ensures buf[..len] + link.Pending() == old(buf[from..eos]) + old(link.Pending())
    ensures |link.Pending()| + (len - (eos - from)) == |old(link.Pending())|
  {
    var keep := eos - from;
    MoveDown(buf, 0, from, keep);
    ghost var kept := buf[..keep];
    assert kept == buf[0..0 + keep];
    var n := link.Recv(buf, keep);
    len := keep + n;
    assert buf[..len] == buf[..keep] + buf[keep..len];
    ConcatAssoc(kept, buf[keep..len], link.Pending());
  }

  /** Sends the reply collected so far, if there is one. */
  method FlushReply(buf: array<Byte>, wptr: nat, replied: bool, link: Channel)
    requires wptr <= buf.Length
    modifies link`sent
    ensures link.sent == if replied then old(link.sent) + [buf[..wptr]] else old(link.sent)
    ensures Flat(link.sent) == Flat(old(link.sent)) + if replied then buf[..wptr] else []
  {
    if replied {
      link.Send(buf[..wptr]);
      FlatConcat(old(link.sent), [buf[..wptr]]);
      FlatOne(buf[..wptr]);
    } else {
      NilConcat(Flat(link.sent));
    }
  }

  /** A record header is in the buffer; keep receiving until the whole record is. */
  method AwaitRecord(w: Width, buf: array<Byte>, wptr0: nat, rptr0: nat, eos0: nat, replied: bool, link: Channel,
                     streaming: bool)
    returns (ok: bool, wptr: nat, rptr: nat, eos: nat)
    requires buf.Length == 4104 && wptr0 <= rptr0 <= eos0 <= buf.Length && link.Valid()
    requires rptr0 + RecordAlignment(w) <= eos0
    requires streaming && !replied ==> wptr0 == 0
    modifies buf, link
    ensures link.Valid() && wptr <= rptr <= eos <= buf.Length
    ensures ok ==> HasRecord(w, buf[rptr..eos])
    ensures buf[rptr..eos] + link.Pending() == old(buf[rptr0..eos0]) + old(link.Pending())
    ensures Flat(link.sent) + buf[..wptr] == Flat(old(link.sent)) + old(buf[..wptr0])
    ensures !streaming ==> wptr == wptr0 && rptr == rptr0 && eos == eos0 && buf[..] == old(buf[..])
                           && link.chunks == old(link.chunks) && link.sent == old(link.sent)
                           && (ok <==> HasRecord(w, old(buf[rptr0..eos0])))
    ensures streaming && HasRecord(w, old(buf[rptr0..eos0]) + old(link.Pending())) ==> ok
    ensures !replied ==> link.sent == old(link.sent) && (streaming ==> wptr == 0)
    ensures |link.Pending()| <= |old(link.Pending())|
  {
    ok, wptr, rptr, eos := true, wptr0, rptr0, eos0;
    ghost var whole := buf[rptr..eos] + link.Pending();
    ghost var line := Flat(link.sent) + buf[..wptr];
    RecordLengthFits(w, buf[rptr..eos]);
    while (RunWords(buf[rptr + 2]) + RunWords(buf[rptr + 3])) * Alignment(w) > eos - (rptr + RecordAlignment(w))
      invariant link.Valid() && wptr <= rptr && rptr + RecordAlignment(w) <= eos <= buf.Length && ok
      invariant 4 <= RecordAlignment(w)
      invariant whole == buf[rptr..eos] + link.Pending() && line == Flat(link.sent) + buf[..wptr]
      invariant !streaming ==> wptr == wptr0 && rptr == rptr0 && eos == eos0 && buf[..] == old(buf[..])
                               && link.chunks == old(link.chunks) && link.sent == old(link.sent)
      invariant !replied ==> link.sent == old(link.sent) && (streaming ==> wptr == 0)
      invariant |link.Pending()| <= |old(link.Pending())|
      decreases |link.Pending()|
    {
      hide Alignment, RecordAlignment;
      ghost var s := buf[rptr..eos];
      NotYet(w, s, buf[rptr + 2], buf[rptr + 3]);
      if !streaming {
        ok := false;
        return;
      }
      FlushReply(buf, wptr, replied, link);
      label sending:
      var len := Refill(buf, rptr, eos, link);
      assert buf[..len] == buf[0..len] && buf[..0] == [];
      NilConcat(Flat(link.sent));
      if len == eos - rptr {
        assert link.Pending() == [];
        NilConcat(s);
        wptr, rptr, eos := 0, 0, len;
        ok := false;
        return;
      }
      wptr, rptr, eos := 0, 0, len;
    }
    Arrived(w, buf[rptr..eos], buf[rptr + 2], buf[rptr + 3]);
  }

  lemma NotYet(w: Width, s: seq<Byte>, wcount: Byte, rcount: Byte)
    requires |s| >= RecordAlignment(w) >= 4 && s[2] == wcount && s[3] == rcount
    requires (RunWords(wcount) + RunWords(rcount)) * Alignment(w) > |s| - RecordAlignment(w)
    ensures !HasRecord(w, s) && |s| < 4104
  {
    RecordLengthFits(w, s);
    hide Alignment, RecordAlignment, RunWords;
    TwoRuns(RunWords(wcount), RunWords(rcount), Alignment(w));
  }

  lemma Arrived(w: Width, s: seq<Byte>, wcount: Byte, rcount: Byte)
    requires |s| >= RecordAlignment(w) >= 4 && s[2] == wcount && s[3] == rcount
    requires (RunWords(wcount) + RunWords(rcount)) * Alignment(w) <= |s| - RecordAlignment(w)
    ensures HasRecord(w, s)
  {
    hide Alignment, RecordAlignment, RunWords;
    TwoRuns(RunWords(wcount), RunWords(rcount), Alignment(w));
  }

  /** What a stream will still deliver; a packet is complete. */
  function Rest(link: Channel, streaming: bool): seq<Byte>
    reads link`chunks
  {
    if streaming then link.Pending() else []
  }

  /** A record without reads on a line with nothing open adds no bytes. */
  lemma SilentBytes<S>(w: Width, bus: Bus<S>, st: State<S>, s: seq<Byte>, end: State<S>, values: seq<nat>, after: bool,
                       bytes: seq<Byte>)
    requires HasRecord(w, s) && Served(w, bus, st, false, s, end, values, after, bytes)
    ensures ParseRecord(w, s).raddrs == [] ==> bytes == []
  {
    hide ParseRecord, HasRecord, Run, Meaning, WellFormed, Encode, Reply;
  }

  lemma AfterSlice<T>(was: seq<T>, now: seq<T>, rptr: nat, next: nat, eos: nat)
    requires rptr <= next <= eos <= |was| == |now| && was[next..] == now[next..]
    ensures was[rptr..eos][next - rptr..] == now[next..eos]
  {
    assert now[next..eos] == now[next..][..eos - next];
    assert was[next..eos] == was[next..][..eos - next];
    var x := was[rptr..eos][next - rptr..];
    assert |x| == eos - next;
    assert forall i :: 0 <= i < |x| ==> x[i] == was[next..eos][i];
  }

  lemma LineGrows<T>(sent: seq<T>, was: seq<T>, now: seq<T>, wptr: nat, wnext: nat)
    requires wptr <= wnext <= |now| == |was| && was[..wptr] == now[..wptr]
    ensures sent + was[..wptr] + now[wptr..wnext] == sent + now[..wnext]
  {
    assert now[..wnext] == now[..wptr] + now[wptr..wnext];
    ConcatAssoc(sent, now[..wptr], now[wptr..wnext]);
  }

  lemma QuietIsShut<S>(w: Width, bus: Bus<S>, s0: S, message: seq<Byte>, line0: seq<Byte>, k: nat, st: State<S>,
                       open: bool, out: seq<Record>, closed: bool, replied: bool, unread: seq<Byte>, line: seq<Byte>)
    requires Serving(w, bus, s0, message, line0, k, st, open, out, closed, replied, unread, line)
    ensures !replied ==> !open
  {
    hide Respond, ParseAll;
  }

  /** Serves the record that lies whole at rptr. */
  method ServeNext<S>(w: Width, bus: Bus<S>, ghost s0: S, ghost message: seq<Byte>, ghost line0: seq<Byte>,
                      buf: array<Byte>, ghost tail: seq<Byte>, ghost sent: seq<Byte>, ghost k: nat, st: State<S>,
                      open: bool, ghost out: seq<Record>, ghost closed: bool, replied: bool,
                      wptr: nat, rptr: nat, ghost eos: nat)
    returns (end: State<S>, after: bool, ghost more: seq<Record>, cyc: bool, spoke: bool, wnext: nat, next: nat)
    requires wptr <= rptr <= eos <= buf.Length && HasRecord(w, buf[rptr..eos])
    requires Serving(w, bus, s0, message, line0, k, st, open, out, closed, replied, buf[rptr..eos] + tail,
                     sent + buf[..wptr])
    modifies buf
    ensures wptr <= wnext <= next <= eos && rptr < next
    ensures Serving(w, bus, s0, message, line0, k + 1, end, after, more, cyc, spoke, buf[next..eos] + tail,
                    sent + buf[..wnext])
    ensures (replied ==> spoke) && (!spoke ==> wnext == wptr && buf[..wptr] == old(buf[..wptr]))
  {
    hide *;
    ghost var s, was := buf[rptr..eos], buf[..];
    QuietIsShut(w, bus, s0, message, line0, k, st, open, out, closed, replied, s + tail, sent + was[..wptr]);
    var speaks;
    cyc, speaks := HeaderBits(w, buf, rptr, eos);
    spoke := replied || speaks;
    ghost var values;
    end, after, wnext, next, values := ServeRecord(w, bus, st, open, buf, wptr, rptr, eos);
    more := out + ReplyTo(w, open, ParseRecord(w, s), values);
    ServingNext(w, bus, s0, message, line0, k, st, open, out, closed, replied, s, tail, sent, was, buf[..], wptr, wnext,
                rptr, next, eos, end, values, after);
  }

  /** The two header fields that outlive a record. */
  method HeaderBits(w: Width, buf: array<Byte>, rptr: nat, ghost eos: nat) returns (cyc: bool, speaks: bool)
    requires rptr <= eos <= buf.Length && HasRecord(w, buf[rptr..eos])
    ensures var r := ParseRecord(w, buf[rptr..eos]); cyc == r.cyc && (speaks <==> r.raddrs != [])
    ensures RecordLength(w, buf[rptr..eos]) > 0
  {
    ghost var s := buf[rptr..eos];
    FlagsParsed(w, s);
    ParsedCounts(w, s);
    RecordLengthFits(w, s);
    cyc, speaks := Flag(buf[rptr], 0x08), buf[rptr + 3] > 0;
    assert s[0] == buf[rptr] && s[3] == buf[rptr + 3];
    hide *;
  }

  /** The bookkeeping after one record, on the buffer before (was) and after (now). */
  lemma ServingNext<S>(w: Width, bus: Bus<S>, s0: S, message: seq<Byte>, line0: seq<Byte>, k: nat, st: State<S>,
                       open: bool, out: seq<Record>, closed: bool, replied: bool, s: seq<Byte>, tail: seq<Byte>,
                       sent: seq<Byte>, was: seq<Byte>, now: seq<Byte>, wptr: nat, wnext: nat, rptr: nat, next: nat,
                       eos: nat, end: State<S>, values: seq<nat>, after: bool)
    requires wptr <= wnext <= next && rptr <= next <= eos <= |was| == |now|
    requires s == was[rptr..eos] && HasRecord(w, s) && next == rptr + RecordLength(w, s)
    requires was[..wptr] == now[..wptr] && was[next..] == now[next..]
    requires !replied ==> !open
    requires Serving(w, bus, s0, message, line0, k, st, open, out, closed, replied, s + tail, sent + was[..wptr])
    requires Served(w, bus, st, open, s, end, values, after, now[wptr..wnext])
    ensures var r := ParseRecord(w, s);
            && Serving(w, bus, s0, message, line0, k + 1, end, after, out + ReplyTo(w, open, r, values), r.cyc,
                       replied || r.raddrs != [], now[next..eos] + tail, sent + now[..wnext])
            && (!replied && r.raddrs == [] ==> wnext == wptr)
  {
    hide *;
    ServingStep(w, bus, s0, message, line0, k, st, open, out, closed, replied, s, tail, sent + was[..wptr], end, values,
                after, now[wptr..wnext]);
    AfterSlice(was, now, rptr, next, eos);
    LineGrows(sent, was, now, wptr, wnext);
    if !replied {
      SilentBytes(w, bus, st, s, end, values, after, now[wptr..wnext]);
    }
  }

  /** If no whole record can ever be made up from what is left, the message was not made of whole records. */
  lemma Stuck<S>(w: Width, bus: Bus<S>, s0: S, message: seq<Byte>, line0: seq<Byte>, k: nat, st: State<S>,
                 open: bool, out: seq<Record>, closed: bool, replied: bool, unread: seq<Byte>, line: seq<Byte>)
    requires Serving(w, bus, s0, message, line0, k, st, open, out, closed, replied, unread, line)
    requires !HasRecord(w, unread)
    ensures ParseAll(w, message).1 == unread && k == |ParseAll(w, message).0|
  {
    hide Respond, HasRecord;
    var rs := ParseAll(w, message).0;
    assert ParseAll(w, unread) == ([], unread);
    assert rs[k..] == [];
  }

  /** Serves every record in the buffer, waiting for the rest of the last one. */
  method ServeBuffered<S>(w: Width, bus: Bus<S>, ghost s0: S, ghost message: seq<Byte>, ghost line0: seq<Byte>,
                          buf: array<Byte>, link: Channel, streaming: bool, ghost k0: nat, st0: State<S>, open0: bool,
                          ghost out0: seq<Record>, closed0: bool, replied0: bool, wptr0: nat, rptr0: nat, eos0: nat)
    returns (ok: bool, ghost k: nat, st: State<S>, open: bool, ghost out: seq<Record>, closed: bool, replied: bool,
             wptr: nat, rptr: nat, eos: nat)
    requires buf.Length == 4104 && wptr0 <= rptr0 <= eos0 <= buf.Length && link.Valid()
    requires Serving(w, bus, s0, message, line0, k0, st0, open0, out0, closed0, replied0,
                     buf[rptr0..eos0] + Rest(link, streaming), Flat(link.sent) + buf[..wptr0])
    requires streaming && !replied0 ==> wptr0 == 0
    modifies buf, link
    ensures link.Valid() && wptr <= rptr <= eos <= buf.Length && k0 <= k
    ensures Serving(w, bus, s0, message, line0, k, st, open, out, closed, replied,
                    buf[rptr..eos] + Rest(link, streaming), Flat(link.sent) + buf[..wptr])
    ensures ok ==> eos - rptr < RecordAlignment(w)
    ensures ok && eos0 - rptr0 >= RecordAlignment(w) ==> k > k0
    ensures eos0 - rptr0 < RecordAlignment(w) ==> ok && k == k0 && eos - rptr == eos0 - rptr0
    ensures !ok ==> ParseAll(w, message).1 != []
    ensures !streaming ==> (ok <==> |ParseAll(w, message).1| < RecordAlignment(w))
    ensures !streaming ==> k == |ParseAll(w, message).0|
    ensures !streaming ==> link.chunks == old(link.chunks) && link.sent == old(link.sent)
                           && (!replied ==> wptr == wptr0 && buf[..wptr] == old(buf[..wptr0]))
    ensures (!replied ==> link.sent == old(link.sent) && (streaming ==> wptr == 0)) && (replied0 ==> replied)
    ensures |link.Pending()| <= |old(link.Pending())|
  {
    hide Alignment, RecordAlignment, Run, Meaning, ParseRecord, WellFormed, ReplyTo, Respond, HasRecord, Served, Serving,
         RecordLength;
    ok, k, st, open, out, closed, replied := true, k0, st0, open0, out0, closed0, replied0;
    wptr, rptr, eos := wptr0, rptr0, eos0;
    while rptr + RecordAlignment(w) <= eos
      invariant link.Valid() && wptr <= rptr <= eos <= buf.Length && k0 <= k
      invariant Serving(w, bus, s0, message, line0, k, st, open, out, closed, replied,
                        buf[rptr..eos] + Rest(link, streaming), Flat(link.sent) + buf[..wptr])
      invariant k == k0 ==> eos - rptr == eos0 - rptr0
      invariant eos0 - rptr0 < RecordAlignment(w) ==> k == k0 && ok
      invariant !streaming ==> link.chunks == old(link.chunks) && link.sent == old(link.sent)
      invariant !streaming && !replied ==> wptr == wptr0 && buf[..wptr] == old(buf[..wptr0])
      invariant (!replied ==> link.sent == old(link.sent) && (streaming ==> wptr == 0)) && (replied0 ==> replied)
      invariant |link.Pending()| <= |old(link.Pending())|
      decreases |buf[rptr..eos] + Rest(link, streaming)|
    {
      ghost var unread := buf[rptr..eos] + Rest(link, streaming);
      ghost var line := Flat(link.sent) + buf[..wptr];
      NilConcat(buf[rptr..eos]);
      HeaderHere(w, buf[rptr..eos], unread);
      ok, wptr, rptr, eos := AwaitRecord(w, buf, wptr, rptr, eos, replied, link, streaming);
      NilConcat(buf[rptr..eos]);
      if !ok {
        Stuck(w, bus, s0, message, line0, k, st, open, out, closed, replied, unread, line);
        return;
      }
      ghost var tail := Rest(link, streaming);
      st, open, out, closed, replied, wptr, rptr :=
        ServeNext(w, bus, s0, message, line0, buf, tail, Flat(link.sent), k, st, open, out, closed, replied, wptr, rptr, eos);
      k := k + 1;
    }
    if !streaming {
      NilConcat(buf[rptr..eos]);
      TooShort(w, buf[rptr..eos]);
      Stuck(w, bus, s0, message, line0, k, st, open, out, closed, replied, buf[rptr..eos], Flat(link.sent) + buf[..wptr]);
    }
  }

  lemma HeaderSmall(w: Width)
    ensures 4 <= RecordAlignment(w) <= 8
  {
    AlignmentFits(w);
  }

  lemma HeaderHere(w: Width, s: seq<Byte>, unread: seq<Byte>)
    requires |s| >= RecordAlignment(w) && |unread| >= |s|
    ensures unread != [] && RecordAlignment(w) >= 4
  {
    AlignmentFits(w);
  }

  lemma TooShort(w: Width, s: seq<Byte>)
    requires |s| < RecordAlignment(w)
    ensures !HasRecord(w, s)
  {
  }

  /** What a call that keeps the link has done: it served the first k records, all of them up to the end of a cycle,
      and everything it owed to the line is on it. */
  ghost predicate Answered<S>(w: Width, bus: Bus<S>, s0: S, message: seq<Byte>, prefix: seq<Byte>,
                              before: seq<seq<Byte>>, k: nat, s: S, sent: seq<seq<Byte>>)
  {
    var rs := ParseAll(w, message).0;
    && k <= |rs| && (k == 0 || rs[k - 1].cyc)
    && var (end, _, out) := Respond(w, bus, State(s0, 0), false, rs[..k]);
       && s == end.s && AllWellFormed(w, out)
       && if HasReads(rs[..k]) then Flat(sent) == Flat(before) + prefix + EncodeAll(w, out) else sent == before
  }

  /** What is still to come is the message without its first k records. */
  predicate Remains(w: Width, message: seq<Byte>, k: nat, pending: seq<Byte>) {
    var (rs, rest) := ParseAll(w, message);
    k <= |rs| && ParseAll(w, pending) == (rs[k..], rest)
  }

  lemma ServingIsAnswered<S>(w: Width, bus: Bus<S>, s0: S, message: seq<Byte>, prefix: seq<Byte>,
                             before: seq<seq<Byte>>, k: nat, st: State<S>, open: bool, out: seq<Record>, replied: bool,
                             unread: seq<Byte>, line: seq<Byte>, sent: seq<seq<Byte>>)
    requires Serving(w, bus, s0, message, Flat(before) + prefix, k, st, open, out, true, replied, unread, line)
    requires if replied then Flat(sent) == line else sent == before
    ensures Answered(w, bus, s0, message, prefix, before, k, st.s, sent) && Remains(w, message, k, unread)
  {
    hide Respond, ParseAll, HasReads, WellFormed;
  }

  /** An open cycle of a one-cycle message has more records to come; a closed one is over. */
  lemma OneCycleProgress<S>(w: Width, bus: Bus<S>, s0: S, message: seq<Byte>, line0: seq<Byte>, k: nat, st: State<S>,
                            open: bool, out: seq<Record>, closed: bool, replied: bool, unread: seq<Byte>, line: seq<Byte>)
    requires OneCycle(w, message) && k > 0
    requires Serving(w, bus, s0, message, line0, k, st, open, out, closed, replied, unread, line)
    ensures !closed ==> |unread| >= RecordAlignment(w)
    ensures closed ==> unread == [] && k == |ParseAll(w, message).0|
  {
    hide Respond, WellFormed;
    var rs := ParseAll(w, message).0;
    if closed {
      assert rs[k..] == [];
      NothingToParse(w, unread);
    } else {
      assert rs[k..] != [];
      RecordToCome(w, unread);
    }
  }

  lemma RecordToCome(w: Width, unread: seq<Byte>)
    requires ParseAll(w, unread).0 != []
    ensures |unread| >= RecordAlignment(w)
  {
    hide ParseRecord, Alignment;
  }

  lemma NoneServed<S>(w: Width, bus: Bus<S>, s0: S, message: seq<Byte>, line0: seq<Byte>, k: nat, st: State<S>,
                      open: bool, out: seq<Record>, closed: bool, replied: bool, unread: seq<Byte>, line: seq<Byte>)
    requires Serving(w, bus, s0, message, line0, k, st, open, out, closed, replied, unread, line)
    ensures k == 0 ==> closed
  {
    hide Respond, ParseAll, HasReads, WellFormed;
  }

  /** All records of a message have been served. */
  lemma ServedAll<S>(w: Width, bus: Bus<S>, s0: S, message: seq<Byte>, line0: seq<Byte>, k: nat, st: State<S>,
                     open: bool, out: seq<Record>, closed: bool, replied: bool, unread: seq<Byte>, line: seq<Byte>)
    requires Serving(w, bus, s0, message, line0, k, st, open, out, closed, replied, unread, line)
    requires k == |ParseAll(w, message).0|
    ensures var rs := ParseAll(w, message).0;
            && Respond(w, bus, State(s0, 0), false, rs) == (st, open, out)
            && (closed <==> Closed(rs)) && (replied <==> HasReads(rs))
            && AllWellFormed(w, out) && line == line0 + EncodeAll(w, out)
  {
    hide Respond, HasReads, WellFormed;
    var rs := ParseAll(w, message).0;
    hide ParseAll;
    assert rs[..|rs|] == rs;
  }

  /** Serves a packet whose records start at start. Every whole record is performed; the link is kept exactly if the
      packet is made of whole records and its last one closes the cycle. The reply, if there were reads, goes out as one
      packet that starts with the same header, unless the packet ends inside a record whose header is complete. */
  method ServePacket<S>(w: Width, bus: Bus<S>, s0: S, buf: array<Byte>, start: nat, len: nat, link: Channel)
    returns (s: S, alive: bool)
    requires buf.Length == 4104 && start <= len <= buf.Length && link.Valid()
    modifies buf, link
    ensures var (rs, rest) := ParseAll(w, old(buf[start..len]));
            var (end, _, out) := Respond(w, bus, State(s0, 0), false, rs);
            && s == end.s
            && (alive <==> rest == [] && Closed(rs))
            && AllWellFormed(w, out)
            && link.sent == if HasReads(rs) && |rest| < RecordAlignment(w)
                            then old(link.sent) + [old(buf[..start]) + EncodeAll(w, out)] else old(link.sent)
  {
    hide *;
    ghost var message, line0 := buf[start..len], Flat(link.sent) + buf[..start];
    ghost var before, prefix := link.sent, buf[..start];
    NilConcat(message);
    ServingStart(w, bus, s0, message, line0);
    RestOfPacket(link);
    ghost var k, out;
    var ok, st, open, closed, replied, wptr, rptr, eos;
    ok, k, st, open, out, closed, replied, wptr, rptr, eos :=
      ServeBuffered(w, bus, s0, message, line0, buf, link, false, 0, State(s0, 0), false, [], true, false,
                    start, start, len);
    RestOfPacket(link);
    NilConcat(buf[rptr..eos]);
    ServedAll(w, bus, s0, message, line0, k, st, open, out, closed, replied, buf[rptr..eos], Flat(link.sent) + buf[..wptr]);
    s, alive := st.s, false;
    if !ok {
      return;
    }
    TooShort(w, buf[rptr..eos]);
    Stuck(w, bus, s0, message, line0, k, st, open, out, closed, replied, buf[rptr..eos], Flat(link.sent) + buf[..wptr]);
    SameTail(Flat(before), buf[..wptr], prefix, EncodeAll(w, out));
    FlushReply(buf, wptr, replied, link);
    alive := closed && rptr == eos;
  }

  lemma RestOfPacket(link: Channel)
    ensures Rest(link, false) == []
  {
  }

  lemma RestOfStream(link: Channel)
    ensures Rest(link, true) == link.Pending()
  {
  }

  lemma OneCycleWhole(w: Width, message: seq<Byte>)
    requires OneCycle(w, message)
    ensures ParseAll(w, message).1 == []
  {
  }

  lemma SameTail<T>(a: seq<T>, x: seq<T>, y: seq<T>, z: seq<T>)
    ensures a + x == a + y + z ==> x == y + z
  {
    if a + x == a + y + z {
      assert (a + x)[|a|..] == x;
      assert (a + y + z)[|a|..] == y + z;
    }
  }

  /** Serves a stream, on a link whose widths are known, up to a point where a cycle has just been closed and the buffer
      is used up; what is left of the stream is then still to come. If what arrives is one cycle, it is served whole and the
      link is kept, however the network cut its bytes, if and only if the first chunk holds a record header. */
  method ServeStream<S>(w: Width, bus: Bus<S>, s0: S, buf: array<Byte>, len: nat, link: Channel)
    returns (s: S, alive: bool, ghost k: nat)
    requires buf.Length == 4104 && len <= buf.Length && link.Valid()
    modifies buf, link
    ensures link.Valid()
    ensures |link.Pending()| <= |old(link.Pending())|
    ensures alive ==> Answered(w, bus, s0, old(buf[..len] + link.Pending()), [], old(link.sent), k, s, link.sent)
    ensures alive ==> Remains(w, old(buf[..len] + link.Pending()), k, link.Pending())
    ensures var (rs, rest) := ParseAll(w, old(buf[..len] + link.Pending()));
            OneCycle(w, old(buf[..len] + link.Pending())) && len >= RecordAlignment(w)
            ==> alive && k == |rs| && link.Pending() == []
    ensures 0 < len < RecordAlignment(w) ==> !alive
  {
    hide *;
    ghost var message, line0 := buf[..len] + link.Pending(), Flat(link.sent) + [];
    ghost var before := link.sent;
    assert buf[0..len] == buf[..len] && buf[..0] == [];
    ServingStart(w, bus, s0, message, line0);
    RestOfStream(link);
    k := 0;
    ghost var out: seq<Record> := [];
    var st, open, closed, replied := State(s0, 0), false, true, false;
    var wptr: nat, rptr: nat, eos: nat := 0, 0, len;
    while true
      invariant link.Valid() && wptr <= rptr <= eos <= buf.Length
      invariant Serving(w, bus, s0, message, line0, k, st, open, out, closed, replied,
                        buf[rptr..eos] + Rest(link, true), Flat(link.sent) + buf[..wptr])
      invariant !replied ==> link.sent == before && wptr == 0
      invariant k == 0 && len >= RecordAlignment(w) ==> eos - rptr == len
      invariant len < RecordAlignment(w) ==> k == 0 && eos - rptr == len
      invariant |link.Pending()| <= |old(link.Pending())|
      decreases |link.Pending()|
    {
      var ok;
      ok, k, st, open, out, closed, replied, wptr, rptr, eos :=
        ServeBuffered(w, bus, s0, message, line0, buf, link, true, k, st, open, out, closed, replied, wptr, rptr, eos);
      RestOfStream(link);
      NoneServed(w, bus, s0, message, line0, k, st, open, out, closed, replied, buf[rptr..eos] + link.Pending(),
                 Flat(link.sent) + buf[..wptr]);
      s, alive := st.s, false;
      if OneCycle(w, message) && len >= RecordAlignment(w) {
        OneCycleWhole(w, message);
        OneCycleProgress(w, bus, s0, message, line0, k, st, open, out, closed, replied,
                         buf[rptr..eos] + link.Pending(), Flat(link.sent) + buf[..wptr]);
      }
      if !ok {
        return;
      }
      FlushReply(buf, wptr, replied, link);
      if closed {
        alive := rptr == eos;
        if alive {
          ServingIsAnswered(w, bus, s0, message, [], before, k, st, open, out, replied, buf[rptr..eos] + link.Pending(),
                            Flat(link.sent), link.sent);
          NilConcat(link.Pending());
          assert buf[rptr..eos] == [];
        }
        return;
      }
      HeaderSmall(w);
      var n := Refill(buf, rptr, eos, link);
      RestOfStream(link);
      if n == eos - rptr {
        return;
      }
      assert buf[..n] == buf[0..n] && buf[..0] == [];
      NilConcat(Flat(link.sent));
      wptr, rptr, eos := 0, 0, n;
    }
  }
}
