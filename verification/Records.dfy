/** The Etherbone record: a header, an optional run of writes and an optional run of reads. */
module Records {
  import opened Seqs
  import opened Words
  import opened Widths

  /** waddr is meaningful when there are writes, raddr (the base return address) when there are reads. */
  datatype Record = Record(
    bca: bool, rca: bool, rff: bool, cyc: bool, wca: bool, wff: bool, select: Byte,
    waddr: nat, wvals: seq<nat>, raddr: nat, raddrs: seq<nat>)

  /** Counts fit the header, words fit the wire, and unused addresses are zero. */
  predicate WellFormed(w: Width, r: Record) {
    && |r.wvals| <= 255 && |r.raddrs| <= 255
    && r.waddr < Pow256(Alignment(w)) && AllBelow(r.wvals, Pow256(Alignment(w)))
    && r.raddr < Pow256(Alignment(w)) && AllBelow(r.raddrs, Pow256(Alignment(w)))
    && (r.wvals == [] ==> r.waddr == 0)
    && (r.raddrs == [] ==> r.raddr == 0)
  }

  predicate AllBelow(vs: seq<nat>, bound: nat) {
    forall i :: 0 <= i < |vs| ==> vs[i] < bound
  }

  // ---------------------------------------------------------------------------
  // Encoding
  // ---------------------------------------------------------------------------

  function Flags(r: Record): Byte {
    (if r.bca then 0x80 else 0) + (if r.rca then 0x40 else 0) + (if r.rff then 0x20 else 0)
    + (if r.cyc then 0x08 else 0) + (if r.wca then 0x04 else 0) + (if r.wff then 0x02 else 0)
  }

  /** The flag of the given weight is set in a header byte. */
  predicate Flag(flags: Byte, weight: nat)
    requires weight > 0
  {
    (flags / weight) % 2 == 1
  }

  function Padding(w: Width): seq<Byte> {
    seq(RecordAlignment(w) - 4, _ => 0)
  }

  function Header(w: Width, r: Record): (s: seq<Byte>)
    requires |r.wvals| <= 255 && |r.raddrs| <= 255
    ensures |s| == RecordAlignment(w)
  {
    [Flags(r), r.select, |r.wvals|, |r.raddrs|] + Padding(w)
  }

  /** An address followed by words, or nothing when there are no words. */
  function RunBytes(al: nat, addr: nat, vals: seq<nat>): seq<Byte> {
    if vals == [] then [] else WordBytes([addr] + vals, al)
  }

  function Encode(w: Width, r: Record): seq<Byte>
    requires WellFormed(w, r)
  {
    Header(w, r) + RunBytes(Alignment(w), r.waddr, r.wvals) + RunBytes(Alignment(w), r.raddr, r.raddrs)
  }

  predicate AllWellFormed(w: Width, rs: seq<Record>) {
    forall i :: 0 <= i < |rs| ==> WellFormed(w, rs[i])
  }

  function EncodeAll(w: Width, rs: seq<Record>): seq<Byte>
    requires AllWellFormed(w, rs)
  {
    if rs == [] then [] else Encode(w, rs[0]) + EncodeAll(w, rs[1..])
  }

  // ---------------------------------------------------------------------------
  // Parsing
  // ---------------------------------------------------------------------------

  /** Words a run takes, with its address. */
  function RunWords(count: nat): nat {
    if count == 0 then 0 else 1 + count
  }

  /** Bytes of the record whose header starts s. */
  function RecordLength(w: Width, s: seq<Byte>): nat
    requires |s| >= RecordAlignment(w)
  {
    RecordAlignment(w) + RunWords(s[2]) * Alignment(w) + RunWords(s[3]) * Alignment(w)
  }

  /** s starts with one whole record. */
  predicate HasRecord(w: Width, s: seq<Byte>) {
    |s| >= RecordAlignment(w) && |s| >= RecordLength(w, s)
  }

  /** The address and the words of a run at the front of s. */
  function ParseRun(al: nat, s: seq<Byte>, count: nat): (nat, seq<nat>)
    requires RunWords(count) * al <= |s|
  {
    if count == 0 then (0, []) else
      var words := LoadWords(s, 1 + count, al);
      (words[0], words[1..])
  }

  function ParseRecord(w: Width, s: seq<Byte>): Record
    requires HasRecord(w, s)
  {
    var al := Alignment(w);
    var f := s[0];
    var body := s[RecordAlignment(w)..];
    var (waddr, wvals) := ParseRun(al, body, s[2]);
    var (raddr, raddrs) := ParseRun(al, body[RunWords(s[2]) * al..], s[3]);
    Record(Flag(f, 0x80), Flag(f, 0x40), Flag(f, 0x20), Flag(f, 0x08), Flag(f, 0x04), Flag(f, 0x02), s[1],
           waddr, wvals, raddr, raddrs)
  }

  /** All whole records at the front of s, and what is left over. */
  function ParseAll(w: Width, s: seq<Byte>): (seq<Record>, seq<Byte>)
    decreases |s|
  {
    if !HasRecord(w, s) then ([], s) else
      var (rs, rest) := ParseAll(w, s[RecordLength(w, s)..]);
      ([ParseRecord(w, s)] + rs, rest)
  }

  // ---------------------------------------------------------------------------
  // Round trip
  // ---------------------------------------------------------------------------

  lemma FlagsRoundTrip(r: Record)
    ensures var f := Flags(r);
            && Flag(f, 0x80) == r.bca && Flag(f, 0x40) == r.rca && Flag(f, 0x20) == r.rff
            && Flag(f, 0x08) == r.cyc && Flag(f, 0x04) == r.wca && Flag(f, 0x02) == r.wff
  {
  }

  lemma ParseRunOfRun(al: nat, addr: nat, vals: seq<nat>, rest: seq<Byte>)
    requires addr < Pow256(al) && AllBelow(vals, Pow256(al)) && (vals == [] ==> addr == 0)
    ensures |RunBytes(al, addr, vals)| == RunWords(|vals|) * al
    ensures ParseRun(al, RunBytes(al, addr, vals) + rest, |vals|) == (addr, vals)
  {
    if vals != [] {
      LoadWordsOfWords([addr] + vals, al, rest);
    }
  }

  lemma EncodeShape(w: Width, r: Record, rest: seq<Byte>)
    requires WellFormed(w, r)
    ensures var s, al, h := Encode(w, r) + rest, Alignment(w), RecordAlignment(w);
            var a, b := RunBytes(al, r.waddr, r.wvals), RunBytes(al, r.raddr, r.raddrs);
            && h >= 4 && |s| >= h && s[0] == Flags(r) && s[1] == r.select && s[2] == |r.wvals| && s[3] == |r.raddrs|
            && s[h..] == a + (b + rest)
            && |a| == RunWords(|r.wvals|) * al && |b| == RunWords(|r.raddrs|) * al
            && |Encode(w, r)| == h + |a| + |b|
  {
    var al := Alignment(w);
    var h, a, b := Header(w, r), RunBytes(al, r.waddr, r.wvals), RunBytes(al, r.raddr, r.raddrs);
    assert Encode(w, r) + rest == h + (a + (b + rest));
    ParseRunOfRun(al, r.waddr, r.wvals, []);
    ParseRunOfRun(al, r.raddr, r.raddrs, []);
    assert h[0] == Flags(r) && h[1] == r.select && h[2] == |r.wvals| && h[3] == |r.raddrs|;
  }

  /** Where the parts of a record are: four header bytes, the bits of the first of which are BCA, RCA, RFF, CYC, WCA and WFF
      from the top, with bits 4 and 0 clear; zeros up to the record alignment; the run of writes; the run of reads. */
  lemma WireLayout(w: Width, r: Record)
    requires WellFormed(w, r)
    ensures var s, al, h := Encode(w, r), Alignment(w), RecordAlignment(w);
            && 4 <= h <= |s|
            && s[0] == (if r.bca then 128 else 0) + (if r.rca then 64 else 0) + (if r.rff then 32 else 0)
                       + (if r.cyc then 8 else 0) + (if r.wca then 4 else 0) + (if r.wff then 2 else 0)
            && s[1] == r.select && s[2] == |r.wvals| && s[3] == |r.raddrs|
            && (forall i :: 4 <= i < h ==> s[i] == 0)
            && s[h..] == RunBytes(al, r.waddr, r.wvals) + RunBytes(al, r.raddr, r.raddrs)
  {
    EncodeShape(w, r, []);
    NilConcat(Encode(w, r));
    NilConcat(RunBytes(Alignment(w), r.raddr, r.raddrs));
    hide RunBytes, Alignment, Flags, Header, WellFormed, RecordAlignment;
    HeaderLayout(w, r);
    var s, h := Encode(w, r), RecordAlignment(w);
    StartsWith(Header(w, r), RunBytes(Alignment(w), r.waddr, r.wvals), RunBytes(Alignment(w), r.raddr, r.raddrs));
    hide Encode;
    assert forall i :: 4 <= i < h ==> s[i] == s[..h][i];
  }

  lemma StartsWith<T>(a: seq<T>, b: seq<T>, c: seq<T>)
    ensures (a + b + c)[..|a|] == a
  {
  }

  lemma HeaderLayout(w: Width, r: Record)
    requires |r.wvals| <= 255 && |r.raddrs| <= 255
    ensures Flags(r) == (if r.bca then 128 else 0) + (if r.rca then 64 else 0) + (if r.rff then 32 else 0)
                        + (if r.cyc then 8 else 0) + (if r.wca then 4 else 0) + (if r.wff then 2 else 0)
    ensures |Header(w, r)| >= 4 && forall i :: 4 <= i < |Header(w, r)| ==> Header(w, r)[i] == 0
  {
    hide RecordAlignment;
    assert forall i :: 4 <= i < |Header(w, r)| ==> Header(w, r)[i] == Padding(w)[i - 4];
  }

  /** Word i of a run: its address, then its words, each most significant byte first. */
  lemma RunLayout(al: nat, addr: nat, vals: seq<nat>, i: nat)
    requires vals != [] && i <= |vals|
    ensures |RunBytes(al, addr, vals)| == (1 + |vals|) * al && i * al + al <= (1 + |vals|) * al
    ensures RunBytes(al, addr, vals)[i * al..i * al + al] == BigEndian(if i == 0 then addr else vals[i - 1], al)
  {
    WordAt([addr] + vals, al, i);
  }

  lemma {:induction false} WordAt(vs: seq<nat>, n: nat, i: nat)
    requires i < |vs|
    ensures |WordBytes(vs, n)| == |vs| * n && i * n + n <= |vs| * n
    ensures WordBytes(vs, n)[i * n..i * n + n] == BigEndian(vs[i], n)
    decreases i
  {
    hide BigEndian;
    var first, rest := BigEndian(vs[0], n), WordBytes(vs[1..], n);
    assert WordBytes(vs, n) == first + rest;
    WordsBound(|vs|, n, i);
    if i > 0 {
      WordAt(vs[1..], n, i - 1);
      hide WordBytes;
      WordsBound(|vs| - 1, n, i - 1);
      assert (first + rest)[i * n..i * n + n] == rest[(i - 1) * n..(i - 1) * n + n];
    }
  }

  lemma WordsBound(count: nat, n: nat, i: nat)
    requires i < count
    ensures i * n + n <= count * n && (i > 0 ==> i * n == n + (i - 1) * n)
  {
    assert count * n == (i + 1) * n + (count - i - 1) * n;
  }

  /** A record survives encoding, whatever bytes follow it. */
  lemma ParseOfEncode(w: Width, r: Record, rest: seq<Byte>)
    requires WellFormed(w, r)
    ensures HasRecord(w, Encode(w, r) + rest)
    ensures RecordLength(w, Encode(w, r) + rest) == |Encode(w, r)|
    ensures ParseRecord(w, Encode(w, r) + rest) == r
  {
    var al, s := Alignment(w), Encode(w, r) + rest;
    var a, b := RunBytes(al, r.waddr, r.wvals), RunBytes(al, r.raddr, r.raddrs);
    EncodeShape(w, r, rest);
    ParseRunOfRun(al, r.waddr, r.wvals, b + rest);
    ParseRunOfRun(al, r.raddr, r.raddrs, rest);
    assert s[RecordAlignment(w)..][|a|..] == b + rest;
    FlagsRoundTrip(r);
  }

  lemma ParseAllFirst(w: Width, r: Record, tail: seq<Byte>)
    requires WellFormed(w, r)
    ensures ParseAll(w, Encode(w, r) + tail) == ([r] + ParseAll(w, tail).0, ParseAll(w, tail).1)
  {
    ParseOfEncode(w, r, tail);
    var whole := Encode(w, r) + tail;
    assert whole[|Encode(w, r)|..] == tail;
  }

  /** Whole records in front of s are recovered in order, and parsing goes on with s. */
  lemma {:induction false} ParseAllOfEncodeAll(w: Width, rs: seq<Record>, s: seq<Byte>)
    requires AllWellFormed(w, rs)
    ensures ParseAll(w, EncodeAll(w, rs) + s).0 == rs + ParseAll(w, s).0
    ensures ParseAll(w, EncodeAll(w, rs) + s).1 == ParseAll(w, s).1
  {
    if rs == [] {
      assert EncodeAll(w, rs) + s == s;
    } else {
      var tail := EncodeAll(w, rs[1..]) + s;
      var (more, rest) := ParseAll(w, s);
      assert ParseAll(w, tail) == (rs[1..] + more, rest) by {
        ParseAllOfEncodeAll(w, rs[1..], s);
      }
      assert ParseAll(w, Encode(w, rs[0]) + tail) == ([rs[0]] + (rs[1..] + more), rest) by {
        ParseAllFirst(w, rs[0], tail);
      }
      assert EncodeAll(w, rs) + s == Encode(w, rs[0]) + tail;
      ConsConcat(rs, more);
    }
  }

  lemma {:induction false} EncodeAllConcat(w: Width, a: seq<Record>, b: seq<Record>)
    requires AllWellFormed(w, a) && AllWellFormed(w, b)
    ensures AllWellFormed(w, a + b)
    ensures EncodeAll(w, a + b) == EncodeAll(w, a) + EncodeAll(w, b)
  {
    hide Encode, WellFormed;
    if a == [] {
      assert a + b == b;
      NilConcat(EncodeAll(w, b));
    } else {
      assert (a + b)[1..] == a[1..] + b && (a + b)[0] == a[0];
      EncodeAllConcat(w, a[1..], b);
      ConcatAssoc(Encode(w, a[0]), EncodeAll(w, a[1..]), EncodeAll(w, b));
    }
  }

  lemma ParseRunBounds(al: nat, s: seq<Byte>, count: nat)
    requires RunWords(count) * al <= |s|
    ensures var (addr, vals) := ParseRun(al, s, count);
            |vals| == count && addr < Pow256(al) && AllBelow(vals, Pow256(al))
  {
    if count > 0 {
      LoadWordsBound(s, 1 + count, al);
    }
  }

  /** Any record read off the wire is one that could have been sent. */
  lemma ParsedIsWellFormed(w: Width, s: seq<Byte>)
    requires HasRecord(w, s)
    ensures WellFormed(w, ParseRecord(w, s))
    ensures |ParseRecord(w, s).wvals| == s[2] && |ParseRecord(w, s).raddrs| == s[3]
  {
    var al := Alignment(w);
    var body := s[RecordAlignment(w)..];
    ParseRunBounds(al, body, s[2]);
    ParseRunBounds(al, body[RunWords(s[2]) * al..], s[3]);
  }

  lemma ShorterRest(w: Width, s: seq<Byte>)
    requires HasRecord(w, s)
    ensures 0 < RecordLength(w, s) <= |s|
  {
    AlignmentFits(w);
    hide Alignment;
  }

  lemma {:induction false} ParsedAllWellFormed(w: Width, s: seq<Byte>)
    ensures AllWellFormed(w, ParseAll(w, s).0)
    decreases |s|
  {
    if HasRecord(w, s) {
      ParsedIsWellFormed(w, s);
      hide WellFormed, ParseRecord;
      ShorterRest(w, s);
      hide RecordLength, HasRecord;
      ParsedAllWellFormed(w, s[RecordLength(w, s)..]);
    }
  }

  /** The size of an encoded record is what the sender computes before it writes one, and fits the buffer. */
  lemma EncodeLength(w: Width, r: Record)
    requires WellFormed(w, r)
    ensures |Encode(w, r)| == RecordAlignment(w) + (RunWords(|r.wvals|) + RunWords(|r.raddrs|)) * Alignment(w)
    ensures |Encode(w, r)| <= 4104
  {
    EncodeShape(w, r, []);
    AlignmentFits(w);
  }
}
