/** Whole messages: what the header in front of a payload settles, and a flush whose packets travel to the other end and
    whose replies travel back. */
module Link {
  import opened Options
  import opened Seqs
  import opened Words
  import opened Widths
  import opened Records
  import opened Slave
  import opened SlaveFacts
  import opened SlaveLoop
  import opened Responses
  import opened Exchange
  import opened Buffer
  import opened Framing
  import opened Sockets
  import opened Flushing
  import opened Master
  import opened Delivery

  // ---------------------------------------------------------------------------
  // Headers and probes
  // ---------------------------------------------------------------------------

  /** A message arrives for a whole transport, for a device that the other end opened, or for one opened here. */
  datatype Role = Transport | Passive | Active

  /** Killed: nothing is performed. Probed: the other end asked for widths and w was settled. Introduced: the device has
      been told the other end's widths. Payload: records in w follow. */
  datatype Heard = Killed | Probed(w: Width) | Introduced(device: nat, mask: Byte) | Payload(w: Width)

  predicate Magic(m: seq<Byte>) {
    |m| >= 4 && m[0] == 0x4E && m[1] == 0x6F
  }

  predicate IsProbe(m: seq<Byte>) {
    Magic(m) && Flag(m[2], 0x01)
  }

  /** A probe is answered even if no width then turns out possible. */
  predicate AnswersProbe(role: Role, m: seq<Byte>) {
    IsProbe(m) && |m| == 8 && !role.Active?
  }

  /** The position of the first device that has the 32-bit tag. */
  function TagAt(tags: seq<nat>, tag: nat): (i: nat)
    ensures i <= |tags| && (i < |tags| ==> tags[i] % 0x1_0000_0000 == tag)
    ensures forall j :: 0 <= j < i ==> tags[j] % 0x1_0000_0000 != tag
    decreases tags
  {
    if tags == [] || tags[0] % 0x1_0000_0000 == tag then 0 else 1 + TagAt(tags[1..], tag)
  }

  /** What an end that supports the widths in own makes of a message that must start with a header. */
  function Hear(role: Role, own: Byte, tags: seq<nat>, m: seq<Byte>): Heard {
    if !Magic(m) then Killed
    else if Flag(m[2], 0x01) then
      if |m| != 8 || role.Active? then Killed
      else
        match Negotiated(m[3], own)
        case Some(w) => Probed(w)
        case None => Killed
    else if Flag(m[2], 0x02) then
      if |m| != 8 || role.Passive? then Killed
      else
        var i := TagAt(tags, Value(m[4..8]));
        if i < |tags| then Introduced(i, m[3]) else Killed
    else if m[2] / 16 != 1 then Killed
    else
      match Negotiated(m[3], own)
      case Some(w) => Payload(w)
      case None => Killed
  }

  /** A probe that offers widths and carries the tag of the device being opened. */
  function Probe(offer: Byte, tag: nat): seq<Byte> {
    [0x4E, 0x6F, 0x11, offer] + BigEndian(tag, 4)
  }

  function ProbeReply(own: Byte, m: seq<Byte>): seq<Byte>
    requires |m| >= 8
  {
    [0x4E, 0x6F, 0x16, own] + m[4..8]
  }

  /** Sets the bit that promises no reads. */
  function NoReads(flags: Byte): Byte {
    if Flag(flags, 0x04) then flags else flags + 4
  }

  /** The device handle that a probe carries comes back and finds the device, and both ends compute the same port width
      from what they then know of each other, or both give up. */
  lemma ProbeRoundTrip(server: Role, opener: Role, offer: Byte, theirs: Byte, mine: Byte, tags: seq<nat>, i: nat)
    requires !server.Active? && !opener.Passive? && i < |tags| && tags[i] < 0x1_0000_0000
    requires forall j :: 0 <= j < i ==> tags[j] % 0x1_0000_0000 != tags[i]
    ensures var probe := Probe(offer, tags[i]);
            && AnswersProbe(server, probe)
            && Hear(server, theirs, [], probe)
               == (match Negotiated(theirs, offer) case Some(w) => Probed(w) case None => Killed)
            && Hear(opener, mine, tags, ProbeReply(theirs, probe)) == Introduced(i, theirs)
  {
    var probe := Probe(offer, tags[i]);
    NegotiationMeets(offer, theirs);
    ValueOfBigEndian(tags[i], 4);
    Pow256Values();
    SmallMod(tags[i], 0x1_0000_0000);
    assert Flag(0x11, 0x01) && !Flag(0x16, 0x01) && Flag(0x16, 0x02);
    hide Negotiated, BigEndian, Pow256, Value, Flag;
    assert probe[4..8] == BigEndian(tags[i], 4);
    assert ProbeReply(theirs, probe)[4..8] == BigEndian(tags[i], 4);
  }

  lemma FlagsAt(flags: Byte)
    ensures flags == 0x10 || flags == 0x14 ==> !Flag(flags, 0x01) && !Flag(flags, 0x02) && flags / 16 == 1
    ensures flags == 0x10 || flags == 0x14 ==> NoReads(flags) == 0x14
  {
  }

  /** The header of a packet names its port width, and an end that supports it reads the packet in that width. */
  lemma HeaderHeard(role: Role, own: Byte, tags: seq<nat>, w: Width, m: seq<Byte>)
    requires |m| >= RecordAlignment(w) && HeaderBytes(w, m[..RecordAlignment(w)])
    ensures Hear(role, own, tags, m) == if Supports(own, w) then Payload(w) else Killed
  {
    HeaderStart(w, m);
    FlagsAt(m[2]);
    HeaderKeepsWidth(w, own);
    hide Negotiated, Flag, Supports, HeaderBytes, RecordAlignment, Value;
  }

  lemma HeaderStart(w: Width, m: seq<Byte>)
    requires |m| >= RecordAlignment(w) && HeaderBytes(w, m[..RecordAlignment(w)])
    ensures |m| >= 4 && m[0] == 0x4E && m[1] == 0x6F && (m[2] == 0x10 || m[2] == 0x14) && m[3] == WidthByte(w)
  {
    var h := m[..RecordAlignment(w)];
    hide RecordAlignment;
    assert forall k :: 0 <= k < 4 ==> m[k] == h[k];
  }

  /** The two ends have no port width in common. */
  ghost predicate NoCommonWidth(mine: Byte, theirs: Byte) {
    forall w: Width :: !Supports(mine, w) || !Supports(theirs, w)
  }

  /** w is supported by both ends, and no other such width has wider data or wider addresses. */
  ghost predicate WidestCommon(mine: Byte, theirs: Byte, w: Width) {
    && Supports(mine, w) && Supports(theirs, w)
    && forall v: Width | Supports(mine, v) && Supports(theirs, v) :: v.data <= w.data && v.addr <= w.addr
  }

  /** Which messages are refused, and what the others are. Only the two magic bytes make a header. A probe has bit 0 of the
      third byte, an answer to one bit 1 and not bit 0; both are 8 bytes long, and a probe cannot come from the end that a
      link was opened to, nor an answer from the end that opened it. Anything else has version 1 in the upper half of that
      byte. The answer must name a device; the others must leave a width in common. */
  lemma HeardExactly(role: Role, own: Byte, tags: seq<nat>, m: seq<Byte>)
    ensures Hear(role, own, tags, m) == Killed <==>
              || |m| < 4 || m[0] != 0x4E || m[1] != 0x6F
              || (m[2] % 2 == 1 && (|m| != 8 || role == Active || NoCommonWidth(own, m[3])))
              || (m[2] % 4 == 2 && (|m| != 8 || role == Passive
                                    || forall i :: 0 <= i < |tags| ==> tags[i] % 0x1_0000_0000 != Value(m[4..8])))
              || (m[2] % 4 == 0 && (m[2] / 16 != 1 || NoCommonWidth(own, m[3])))
    ensures match Hear(role, own, tags, m)
            case Killed => true
            case Probed(w) => |m| == 8 && m[2] % 2 == 1 && WidestCommon(own, m[3], w)
            case Introduced(i, mask) =>
              |m| == 8 && m[2] % 4 == 2 && mask == m[3]
              && i < |tags| && tags[i] % 0x1_0000_0000 == Value(m[4..8])
              && forall j :: 0 <= j < i ==> tags[j] % 0x1_0000_0000 != Value(m[4..8])
            case Payload(w) => |m| >= 4 && m[2] % 4 == 0 && WidestCommon(own, m[3], w)
  {
    if |m| >= 4 {
      NegotiationMeets(own, m[3]);
      LowFlags(m[2]);
    }
    hide Negotiated, Supports, Flag, Value;
  }

  lemma LowFlags(b: Byte)
    ensures Flag(b, 0x01) <==> b % 2 == 1
    ensures !Flag(b, 0x01) && Flag(b, 0x02) <==> b % 4 == 2
    ensures !Flag(b, 0x01) && !Flag(b, 0x02) <==> b % 4 == 0
  {
  }

  /** Reads the header of the message in the buffer; a probe is answered at once. */
  method ReadHeader(role: Role, own: Byte, tags: seq<nat>, buf: array<Byte>, len: nat, link: Channel)
    returns (heard: Heard)
    requires buf.Length == BUFFER && len <= BUFFER
    modifies buf, link`sent
    ensures heard == Hear(role, own, tags, old(buf[..len]))
    ensures link.sent == if AnswersProbe(role, old(buf[..len])) then old(link.sent) + [ProbeReply(own, old(buf[..len]))]
                         else old(link.sent)
    ensures heard.Payload? ==> len >= 4 && buf[..len] == old(buf[..len])[2 := NoReads(old(buf[2]))]
  {
    ghost var m := buf[..len];
    hide Negotiated, Value;
    if len < 4 || buf[0] != 0x4E || buf[1] != 0x6F {
      return Killed;
    }
    assert m[0] == buf[0] && m[1] == buf[1] && m[2] == buf[2] && m[3] == buf[3];
    if Flag(buf[2], 0x01) {
      if len != 8 || role.Active? {
        return Killed;
      }
      var settled := Negotiated(buf[3], own);
      ghost var tag := buf[4..8];
      buf[2], buf[3] := 0x16, own;
      assert buf[..8] == ProbeReply(own, m);
      link.Send(buf[..8]);
      return match settled case Some(w) => Probed(w) case None => Killed;
    }
    if Flag(buf[2], 0x02) {
      if len != 8 || role.Passive? {
        return Killed;
      }
      var i := FindTag(tags, Load(buf, 4, 4));
      assert m[4..8] == buf[4..8];
      return if i < |tags| then Introduced(i, buf[3]) else Killed;
    }
    if buf[2] / 16 != 1 {
      return Killed;
    }
    match Negotiated(buf[3], own) {
      case None =>
        return Killed;
      case Some(w) =>
        buf[2] := NoReads(buf[2]);
        return Payload(w);
    }
  }

  /** Walks the socket's devices for a tag. */
  method FindTag(tags: seq<nat>, tag: nat) returns (i: nat)
    ensures i == TagAt(tags, tag)
  {
    i := 0;
    assert tags[0..] == tags;
    while i < |tags| && tags[i] % 0x1_0000_0000 != tag
      invariant i <= |tags| && TagAt(tags, tag) == i + TagAt(tags[i..], tag)
    {
      assert tags[i..][1..] == tags[i + 1..];
      i := i + 1;
    }
  }

  // ---------------------------------------------------------------------------
  // Serving a message
  // ---------------------------------------------------------------------------

  /** The header of a reply packet: that of the request, promising no reads. */
  function ReplyHeader(w: Width, m: seq<Byte>): (h: seq<Byte>)
    requires |m| >= RecordAlignment(w)
    ensures |h| == RecordAlignment(w)
  {
    AlignmentFits(w);
    m[..RecordAlignment(w)][2 := NoReads(m[2])]
  }

  /** What a payload in port width w does: the new state, whether the link is kept, and the replies. A packet too short
      for its header is refused. */
  function ServedPacket<S>(w: Width, bus: Bus<S>, s0: S, m: seq<Byte>): (S, bool, seq<seq<Byte>>) {
    if |m| < RecordAlignment(w) then (s0, false, [])
    else
      var (rs, rest) := ParseAll(w, m[RecordAlignment(w)..]);
      var (end, _, out) := Respond(w, bus, State(s0, 0), false, rs);
      (end.s, rest == [] && Closed(rs),
       if HasReads(rs) && |rest| < RecordAlignment(w) then [ReplyHeader(w, m) + EncodeAllOf(w, out)] else [])
  }

  lemma PayloadIsNoProbe(role: Role, own: Byte, tags: seq<nat>, m: seq<Byte>)
    requires Hear(role, own, tags, m).Payload?
    ensures !AnswersProbe(role, m) && |m| >= 4
  {
    hide Negotiated, Value;
  }

  lemma HeaderKept(w: Width, m: seq<Byte>, now: seq<Byte>)
    requires |m| >= RecordAlignment(w) && |m| >= 4 && |now| >= |m| && now[..|m|] == m[2 := NoReads(m[2])]
    ensures RecordAlignment(w) >= 4
    ensures now[..RecordAlignment(w)] == ReplyHeader(w, m) && now[RecordAlignment(w)..|m|] == m[RecordAlignment(w)..]
  {
    AlignmentFits(w);
    hide RecordAlignment, NoReads;
    var h := RecordAlignment(w);
    assert now[..h] == now[..|m|][..h];
    assert now[h..|m|] == now[..|m|][h..];
  }

  lemma ReplyEncodes<S>(w: Width, bus: Bus<S>, s0: S, message: seq<Byte>)
    ensures var out := Respond(w, bus, State(s0, 0), false, ParseAll(w, message).0).2;
            AllWellFormed(w, out) ==> EncodeAllOf(w, out) == EncodeAll(w, out)
  {
  }

  /** eb_device_slave on one packet: its header decides, and a payload is served in the width that the header settles. */
  method ServeMessage<S>(role: Role, own: Byte, tags: seq<nat>, bus: Bus<S>, s0: S, buf: array<Byte>, len: nat,
                         link: Channel)
    returns (heard: Heard, s: S, alive: bool)
    requires buf.Length == BUFFER && len <= BUFFER && link.Valid()
    modifies buf, link
    ensures heard == Hear(role, own, tags, old(buf[..len]))
    ensures heard.Payload? ==>
              (s, alive, link.sent)
              == var (s', kept, replies) := ServedPacket(heard.w, bus, s0, old(buf[..len])); (s', kept, old(link.sent) + replies)
    ensures !heard.Payload? ==>
              s == s0 && (alive <==> !heard.Killed?)
              && link.sent == if AnswersProbe(role, old(buf[..len]))
                              then old(link.sent) + [ProbeReply(own, old(buf[..len]))] else old(link.sent)
  {
    hide Hear, ServedPacket, AnswersProbe, ProbeReply, NoReads;
    ghost var m := buf[..len];
    heard := ReadHeader(role, own, tags, buf, len, link);
    s, alive := s0, !heard.Killed?;
    if heard.Payload? {
      PayloadIsNoProbe(role, own, tags, m);
      s, alive := ServePayload(heard.w, bus, s0, buf, len, link, m);
    }
  }

  /** The part behind the header of the packet m, which is in the buffer with its no-reads bit set. */
  method ServePayload<S>(w: Width, bus: Bus<S>, s0: S, buf: array<Byte>, len: nat, link: Channel, ghost m: seq<Byte>)
    returns (s: S, alive: bool)
    requires buf.Length == BUFFER && 4 <= len <= BUFFER && link.Valid()
    requires |m| == len && buf[..len] == m[2 := NoReads(m[2])]
    modifies buf, link
    ensures (s, alive, link.sent)
            == var (s', kept, replies) := ServedPacket(w, bus, s0, m); (s', kept, old(link.sent) + replies)
  {
    ghost var before := link.sent;
    NilConcat(before);
    var start := RecordAlignment(w);
    if len < start {
      return s0, false;
    }
    HeaderKept(w, m, buf[..]);
    assert buf[start..len] == m[start..] && buf[..start] == ReplyHeader(w, m);
    ReplyEncodes(w, bus, s0, m[start..]);
    hide *;
    s, alive := ServePacket(w, bus, s0, buf, start, len, link);
    ServedParts(w, bus, s0, m);
  }

  lemma ServedParts<S>(w: Width, bus: Bus<S>, s0: S, m: seq<Byte>)
    requires |m| >= RecordAlignment(w)
    ensures var (rs, rest) := ParseAll(w, m[RecordAlignment(w)..]);
            var (end, _, out) := Respond(w, bus, State(s0, 0), false, rs);
            var replies := if HasReads(rs) && |rest| < RecordAlignment(w) then [ReplyHeader(w, m) + EncodeAllOf(w, out)] else [];
            ServedPacket(w, bus, s0, m) == (end.s, rest == [] && Closed(rs), replies)
  {
    hide Respond, ParseAll, EncodeAllOf, ReplyHeader, HasReads, Closed, RecordAlignment;
  }

  // ---------------------------------------------------------------------------
  // A packet and its reply
  // ---------------------------------------------------------------------------

  /** Requests without reads are answered by nothing, requests with reads by something. */
  lemma {:induction false} ReadsAreAnswered<S>(w: Width, bus: Bus<S>, st: State<S>, open: bool, rs: seq<Record>)
    ensures HasReads(rs) ==> Respond(w, bus, st, open, rs).2 != []
    ensures !open && !HasReads(rs) ==> Respond(w, bus, st, open, rs).2 == []
    decreases rs
  {
    hide Run, Meaning, Reply;
    if rs != [] {
      var (st1, values) := Run(bus, st, Meaning(w, rs[0]));
      ReadsAreAnswered(w, bus, st1, LeavesOpen(open, rs[0]), rs[1..]);
      ReadsFirst(rs);
    }
  }

  lemma ReadsFirst(rs: seq<Record>)
    requires rs != []
    ensures HasReads(rs) <==> rs[0].raddrs != [] || HasReads(rs[1..])
  {
    if HasReads(rs[1..]) {
      var i :| 0 <= i < |rs[1..]| && rs[1..][i].raddrs != [];
      assert rs[i + 1].raddrs != [];
    }
    if HasReads(rs) {
      var i :| 0 <= i < |rs| && rs[i].raddrs != [];
      assert i > 0 ==> rs[1..][i - 1] == rs[i];
    }
  }

  /** A reply asks for nothing back. */
  lemma {:induction false} RepliesOnlyWrite<S>(w: Width, bus: Bus<S>, st: State<S>, open: bool, rs: seq<Record>)
    ensures !HasReads(Respond(w, bus, st, open, rs).2)
    decreases rs
  {
    hide Run, Meaning, ReplyWords;
    if rs != [] {
      var (st1, values) := Run(bus, st, Meaning(w, rs[0]));
      RepliesOnlyWrite(w, bus, st1, LeavesOpen(open, rs[0]), rs[1..]);
      var first, rest := ReplyTo(w, open, rs[0], values), Respond(w, bus, st1, LeavesOpen(open, rs[0]), rs[1..]).2;
      assert forall i :: 0 <= i < |first| ==> first[i].raddrs == [];
      assert forall i :: 0 <= i < |rest| ==> rest[i].raddrs == [];
    }
  }

  lemma NoBytesNoRecords(w: Width, rs: seq<Record>)
    requires AllWellFormed(w, rs)
    ensures EncodeAll(w, rs) == [] <==> rs == []
  {
    if rs != [] {
      EncodeLength(w, rs[0]);
    }
  }

  /** A whole packet does what serving its payload does, and its reply packet carries the reply bytes, if any. */
  lemma PacketServed<S>(w: Width, bus: Bus<S>, s0: S, m: seq<Byte>, group: seq<Bytes>)
    requires IsPacket(w, m, group) && ParseAll(w, Flat(group)).1 == []
    ensures var (st, bytes) := Serve(w, bus, State(s0, 0), Flat(group));
            var (s, _, replies) := ServedPacket(w, bus, s0, m);
            && s == st.s && replies == (if bytes == [] then [] else [ReplyHeader(w, m) + bytes])
            && |bytes| <= |Flat(group)|
  {
    var payload := Flat(group);
    var rs := ParseAll(w, payload).0;
    ParsedAllWellFormed(w, payload);
    RespondFits(w, bus, State(s0, 0), false, rs);
    EncodeAllOfParseAll(w, payload);
    NilConcat(EncodeAll(w, rs));
    ReadsAreAnswered(w, bus, State(s0, 0), false, rs);
    NoBytesNoRecords(w, Respond(w, bus, State(s0, 0), false, rs).2);
    AlignmentFits(w);
    hide Respond, ParseAll, EncodeAll, HasReads, Closed, RecordAlignment, WellFormed, ReplyHeader, HeaderBytes, Flat;
  }

  /** The packet that carries a reply is served like the reply bytes, and gets no reply. */
  lemma ReplyPacketServed<S, E>(w: Width, bus: Bus<S>, st: State<S>, payload: seq<Byte>, back: Bus<E>, e0: E, h: seq<Byte>)
    requires |h| == RecordAlignment(w)
    ensures var bytes := Serve(w, bus, st, payload).1;
            var (e, _, replies) := ServedPacket(w, back, e0, h + bytes);
            e == Serve(w, back, State(e0, 0), bytes).0.s && replies == []
  {
    var rs := ParseAll(w, payload).0;
    var out := Respond(w, bus, st, false, rs).2;
    ParsedAllWellFormed(w, payload);
    RespondFits(w, bus, st, false, rs);
    RepliesOnlyWrite(w, bus, st, false, rs);
    ParseAllOfEncodeAll(w, out, []);
    NoRecordInNothing(w);
    NilConcat(EncodeAll(w, out));
    NilConcat(out);
    DropConcat(h, EncodeAll(w, out));
    hide Respond, ParseAll, EncodeAll, HasReads, Closed, RecordAlignment, WellFormed, ReplyHeader;
  }

  /** A reply packet has the header of its request, but for the bit that promises no reads, which is set; and it keeps the
      promise. */
  lemma ReplyPromise<S>(w: Width, bus: Bus<S>, s0: S, m: seq<Byte>, i: nat)
    requires i < |ServedPacket(w, bus, s0, m).2|
    ensures var h := RecordAlignment(w);
            var reply := ServedPacket(w, bus, s0, m).2[i];
            && 4 <= h <= |m| && h <= |reply|
            && (forall k :: 0 <= k < h && k != 2 ==> reply[k] == m[k])
            && reply[2] / 4 % 2 == 1 && reply[2] / 8 == m[2] / 8 && reply[2] % 4 == m[2] % 4
            && !HasReads(ParseAll(w, reply[h..]).0)
  {
    assert |m| >= RecordAlignment(w);
    ServedParts(w, bus, s0, m);
    hide *;
    var payload := m[RecordAlignment(w)..];
    var out := Respond(w, bus, State(s0, 0), false, ParseAll(w, payload).0).2;
    ReplyReadsNothing(w, bus, s0, payload);
    ReplyStart(w, m, EncodeAllOf(w, out));
    DropConcat(ReplyHeader(w, m), EncodeAllOf(w, out));
  }

  lemma ReplyReadsNothing<S>(w: Width, bus: Bus<S>, s0: S, payload: seq<Byte>)
    ensures var out := Respond(w, bus, State(s0, 0), false, ParseAll(w, payload).0).2;
            !HasReads(ParseAll(w, EncodeAllOf(w, out)).0)
  {
    var rs := ParseAll(w, payload).0;
    var out := Respond(w, bus, State(s0, 0), false, rs).2;
    ParsedAllWellFormed(w, payload);
    RespondFits(w, bus, State(s0, 0), false, rs);
    RepliesOnlyWrite(w, bus, State(s0, 0), false, rs);
    ParseAllOfEncodeAll(w, out, []);
    NoRecordInNothing(w);
    NilConcat(EncodeAll(w, out));
    NilConcat(out);
    hide Respond, ParseAll, EncodeAll, HasReads, WellFormed;
  }

  lemma ReplyStart(w: Width, m: seq<Byte>, bytes: seq<Byte>)
    requires |m| >= RecordAlignment(w)
    ensures RecordAlignment(w) >= 4
    ensures var reply := ReplyHeader(w, m) + bytes;
            && (forall k :: 0 <= k < RecordAlignment(w) && k != 2 ==> reply[k] == m[k])
            && reply[2] / 4 % 2 == 1 && reply[2] / 8 == m[2] / 8 && reply[2] % 4 == m[2] % 4
  {
    AlignmentFits(w);
    NoReadsBits(m[2]);
    hide RecordAlignment, NoReads;
    assert ReplyHeader(w, m)[2] == NoReads(m[2]);
  }

  lemma NoReadsBits(flags: Byte)
    ensures NoReads(flags) / 4 % 2 == 1 && NoReads(flags) / 8 == flags / 8 && NoReads(flags) % 4 == flags % 4
  {
    var q := flags / 8;
    if flags / 4 % 2 == 1 {
    } else {
      DivMod(flags + 4, 8, q, flags % 8 + 4);
    }
  }

  lemma NothingServed<S>(w: Width, bus: Bus<S>, st: State<S>)
    ensures Serve(w, bus, st, []).0 == st
  {
    NoRecordInNothing(w);
  }

  // ---------------------------------------------------------------------------
  // Packets across a link
  // ---------------------------------------------------------------------------

  /** poll: a packet is put into the buffer. */
  method Poll(buf: array<Byte>, m: seq<Byte>)
    requires |m| <= buf.Length
    modifies buf
    ensures buf[..|m|] == m
  {
    for i := 0 to |m|
      invariant buf[..i] == m[..i]
    {
      buf[i] := m[i];
    }
  }

  /** One packet is served by the other end, and its reply packet, if there is one, by the sender. */
  method Travel<S, E>(w: Width, theirs: Byte, mine: Byte, tags: seq<nat>, remote: Bus<S>, s0: S, back: Bus<E>, e0: E,
                      m: seq<Byte>, ghost group: seq<Bytes>)
    returns (s: S, e: E)
    requires Supports(theirs, w) && Supports(mine, w)
    requires IsPacket(w, m, group) && |m| <= BUFFER && ParseAll(w, Flat(group)).1 == []
    ensures var (st, bytes) := Serve(w, remote, State(s0, 0), Flat(group));
            s == st.s && e == Serve(w, back, State(e0, 0), bytes).0.s
  {
    var there := new Byte[BUFFER](_ => 0);
    var here := new Byte[BUFFER](_ => 0);
    var replies := new Channel([]);
    var silence := new Channel([]);
    PacketLength(w, m, group);
    HeaderHeard(Transport, theirs, [], w, m);
    PacketServed(w, remote, s0, m, group);
    ghost var bytes := Serve(w, remote, State(s0, 0), Flat(group)).1;
    ReplyPacketServed(w, remote, State(s0, 0), Flat(group), back, e0, ReplyHeader(w, m));
    ReplyHeard(Transport, mine, tags, w, m, bytes);
    NothingServed(w, back, State(e0, 0));
    hide *;
    Poll(there, m);
    var heard, alive;
    heard, s, alive := ServeMessage(Transport, theirs, [], remote, s0, there, |m|, replies);
    e := e0;
    NilConcat(ServedPacket(w, remote, s0, m).2);
    if replies.sent != [] {
      var reply := replies.sent[0];
      Poll(here, reply);
      heard, e, alive := ServeMessage(Transport, mine, tags, back, e0, here, |reply|, silence);
    }
  }

  lemma PacketLength(w: Width, m: seq<Byte>, group: seq<Bytes>)
    requires IsPacket(w, m, group)
    ensures |m| == RecordAlignment(w) + |Flat(group)| && |m| >= RecordAlignment(w)
    ensures HeaderBytes(w, m[..RecordAlignment(w)])
  {
    hide RecordAlignment, HeaderBytes, Flat;
    assert |m[RecordAlignment(w)..]| == |Flat(group)|;
  }

  /** A reply packet names the same width. */
  lemma ReplyHeard(role: Role, own: Byte, tags: seq<nat>, w: Width, m: seq<Byte>, bytes: seq<Byte>)
    requires |m| >= RecordAlignment(w) && HeaderBytes(w, m[..RecordAlignment(w)])
    ensures Hear(role, own, tags, ReplyHeader(w, m) + bytes) == if Supports(own, w) then Payload(w) else Killed
  {
    AlignmentFits(w);
    var h := ReplyHeader(w, m);
    assert HeaderBytes(w, h) by {
      hide RecordAlignment;
      FlagsAt(m[2]);
      assert m[..RecordAlignment(w)][2] == m[2];
    }
    DropConcat(h, bytes);
    hide HeaderBytes, ReplyHeader, RecordAlignment;
    HeaderHeard(role, own, tags, w, h + bytes);
  }

  /** The packets of a flush go out one by one, each followed by its reply. */
  method TravelAll<S, D>(w: Width, theirs: Byte, mine: Byte, tags: seq<nat>, remote: Bus<S>, s0: S, local: Bus<D>,
                         end0: (Inbox, D), messages: seq<seq<Byte>>, ghost packets: seq<seq<Bytes>>,
                         ghost payloads: seq<Bytes>)
    returns (s: S, end: (Inbox, D))
    requires Supports(theirs, w) && Supports(mine, w)
    requires ArePackets(w, messages, packets) && |payloads| == |packets|
    requires forall i :: 0 <= i < |packets| ==>
               payloads[i] == Flat(packets[i]) && |messages[i]| <= BUFFER && ParseAll(w, payloads[i]).1 == []
    ensures (s, end) == Delivery.Deliver(w, remote, s0, local, end0, payloads)
  {
    hide Supports, IsPacket, Flat, ParseAll, Serve;
    s, end := s0, end0;
    assert payloads[0..] == payloads;
    for i := 0 to |messages|
      invariant Delivery.Deliver(w, remote, s, local, end, payloads[i..]) == Delivery.Deliver(w, remote, s0, local, end0, payloads)
    {
      assert payloads[i..][1..] == payloads[i + 1..] && payloads[i..][0] == payloads[i];
      s, end := Travel(w, theirs, mine, tags, remote, s, EndBus(local), end, messages[i], packets[i]);
    }
  }

  // ---------------------------------------------------------------------------
  // A flush and everything that follows it
  // ---------------------------------------------------------------------------

  /** Payloads of whole groups are whole records. */
  lemma GroupParses(w: Width, payloads: seq<Bytes>, groups: seq<seq<Sent>>, i: nat)
    requires Carries(w, payloads, groups) && i < |payloads|
    ensures ParseAll(w, payloads[i]).1 == []
  {
    var rs := RequestOf(w, groups[i]);
    ParseAllOfEncodeAll(w, rs, []);
    NoRecordInNothing(w);
    NilConcat(EncodeAll(w, rs));
    hide ParseAll, EncodeAll, RequestOf, WellFormed;
  }

  lemma FinishWithin(cap: nat, f: Frames)
    requires WithinCap(cap, f)
    ensures forall i :: 0 <= i < |Finish(f)| ==> |Flat(Finish(f)[i])| <= cap
  {
    hide Flat;
  }

  function Payloads(packets: seq<seq<Bytes>>): (payloads: seq<Bytes>)
    ensures |payloads| == |packets| && forall i :: 0 <= i < |packets| ==> payloads[i] == Flat(packets[i])
  {
    seq(|packets|, i requires 0 <= i < |packets| => Flat(packets[i]))
  }

  /** The packets of a flush hold whole records and keep to their room. */
  lemma FlushWhole(w: Width, room: nat, device: nat, deadline: nat, rba: nat, cycles: seq<Ready>, memory: seq<bool>,
                   f: Flushed)
    requires Claimable(rba) && |memory| == |cycles| && forall i :: 0 <= i < |cycles| ==> Clean(cycles[i])
    requires f == FlushAll(w, Packet(room), device, deadline, Flushed([], [], [], NOTHING, rba), cycles, memory)
    ensures var packets := Finish(f.frames);
            forall i :: 0 <= i < |packets| ==> |Flat(packets[i])| <= room && ParseAll(w, Flat(packets[i])).1 == []
  {
    var f0 := Flushed([], [], [], NOTHING, rba);
    var packets := Finish(f.frames);
    FlushFacts(w, Packet(room), device, deadline, rba, cycles, memory, f);
    assert Conserved(w, Packet(room), f0) by {
      assert Encodings(w, []) == [];
      assert Flat([]) == [];
    }
    FlushConserves(w, Packet(room), device, deadline, f0, cycles, memory);
    FinishWithin(room, f.frames);
    hide FlushAll, Finish, Encodings, Packable, Sendable, Flat, WithinCap, Carries, ParseAll;
    PacketsCarry(w, packets, f.sent, Payloads(packets));
    forall i | 0 <= i < |packets|
      ensures ParseAll(w, Flat(packets[i])).1 == []
    {
      GroupParses(w, Payloads(packets), Regroup(packets, f.sent), i);
    }
  }

  /** If no two of the responses in flight after a flush share an address, then at the end (s, end) the remote devices have
      seen the cycles sent, in order, each packet with a fresh error register; each of them that expects answers has had
      its one callback with its own results; and the responses that were in flight before are still waiting. */
  ghost predicate Completed<S, D>(w: Width, remote: Bus<S>, s0: S, f: Flushed, older: seq<Response>,
                                  done: seq<Completion>, d: D, s: S, end: (Inbox, D))
  {
    && |Concat(Finish(f.frames))| == |f.sent| && AllSound(older)
    && (AllApart(older + f.queue) ==>
          var groups := Regroup(Finish(f.frames), f.sent);
          var (s', completions) := ExpectedGroups(w, remote, s0, groups);
          Concat(groups) == f.sent && s == s' && end == (Mailbox(older, done + completions), d))
  }

  /** The messages of a flush travel, and so do their replies. */
  method FlushedTravels<S, D>(w: Width, theirs: Byte, mine: Byte, tags: seq<nat>, remote: Bus<S>, s0: S, local: Bus<D>,
                              d: D, messages: seq<seq<Byte>>, box: Inbox, ghost room: nat, ghost device: nat,
                              ghost deadline: nat, ghost rba: nat, ghost cycles: seq<Ready>, ghost memory: seq<bool>,
                              ghost f: Flushed, ghost older: seq<Response>, ghost done: seq<Completion>)
    returns (s: S, end: (Inbox, D))
    requires Supports(theirs, w) && Supports(mine, w) && RecordAlignment(w) + room <= BUFFER
    requires Claimable(rba) && |memory| == |cycles| && forall i :: 0 <= i < |cycles| ==> Clean(cycles[i])
    requires f == FlushAll(w, Packet(room), device, deadline, Flushed([], [], [], NOTHING, rba), cycles, memory)
    requires ArePackets(w, messages, Finish(f.frames))
    requires AllSound(older) && AllSound(older + f.queue) && box == Mailbox(older + f.queue, done)
    ensures Completed(w, remote, s0, f, older, done, d, s, end)
  {
    ghost var packets := Finish(f.frames);
    FlushWhole(w, room, device, deadline, rba, cycles, memory, f);
    PacketLengths(w, messages, packets, room);
    hide *;
    s, end := TravelAll(w, theirs, mine, tags, remote, s0, local, (box, d), messages, packets, Payloads(packets));
    DeliveredIsComplete(w, room, device, deadline, rba, cycles, memory, f, remote, s0, local, d, older, done, s, end);
  }

  lemma DeliveredIsComplete<S, D>(w: Width, room: nat, device: nat, deadline: nat, rba: nat, cycles: seq<Ready>,
                                  memory: seq<bool>, f: Flushed, remote: Bus<S>, s0: S, local: Bus<D>, d: D,
                                  older: seq<Response>, done: seq<Completion>, s: S, end: (Inbox, D))
    requires Claimable(rba) && |memory| == |cycles| && forall i :: 0 <= i < |cycles| ==> Clean(cycles[i])
    requires f == FlushAll(w, Packet(room), device, deadline, Flushed([], [], [], NOTHING, rba), cycles, memory)
    requires AllSound(older) && AllSound(older + f.queue)
    requires (s, end) == Delivery.Deliver(w, remote, s0, local, (Mailbox(older + f.queue, done), d), Payloads(Finish(f.frames)))
    ensures Completed(w, remote, s0, f, older, done, d, s, end)
  {
    SentCounted(w, room, device, deadline, rba, cycles, memory, f);
    if AllApart(older + f.queue) {
      FlushRoundTrip(w, room, device, deadline, rba, cycles, memory, f, Payloads(Finish(f.frames)), remote, s0, local, d,
                     older, done);
    }
    hide FlushAll, Finish, Delivery.Deliver, ExpectedGroups, Regroup, Concat, Sound, Clean, Claimable, Payloads, AllApart;
  }

  lemma SentCounted(w: Width, room: nat, device: nat, deadline: nat, rba: nat, cycles: seq<Ready>, memory: seq<bool>,
                    f: Flushed)
    requires Claimable(rba) && |memory| == |cycles| && forall i :: 0 <= i < |cycles| ==> Clean(cycles[i])
    requires f == FlushAll(w, Packet(room), device, deadline, Flushed([], [], [], NOTHING, rba), cycles, memory)
    ensures |Concat(Finish(f.frames))| == |f.sent|
  {
    FlushFacts(w, Packet(room), device, deadline, rba, cycles, memory, f);
  }

  /** A flush of a connected device: the messages it sends, and the responses that wait afterwards. */
  method FlushMessages(device: Device, socket: Socket, memory: seq<bool>)
    returns (callbacks: seq<Callback>, messages: seq<seq<Byte>>, box: Inbox, ghost f: Flushed)
    requires socket.Valid() && device.Flushable() && |memory| == |device.ready| && device.connected
    modifies device`ready, socket, device.link`sent
    ensures socket.Valid() && device.ready == [] && Claimable(old(socket.rba)) && AllSound(old(socket.Queue()))
    ensures f == FlushAll(device.w, device.Capacity(), device.handle, (socket.timeCache + 5) % 0x1_0000,
                          Flushed([], [], [], NOTHING, old(socket.rba)), Reverse(old(device.ready)), memory)
    ensures callbacks == f.callbacks && socket.Queue() == old(socket.Queue()) + f.queue
    ensures Messages(device.w, device.Capacity(), f.frames, messages)
    ensures AllSound(socket.Queue()) && box == Mailbox(socket.Queue(), old(socket.done))
    ensures socket.timeCache == old(socket.timeCache)
  {
    hide FlushAll, Messages, Device.Capacity, Device.Flushable, Claimable, Dated;
    var before := |device.link.sent|;
    SocketFacts(socket);
    ghost var out;
    var status;
    status, callbacks, f, out := Flush(device, socket, memory);
    messages := device.link.sent[before..];
    assert messages == out;
    SocketFacts(socket);
    box := socket.Box();
  }

  /** A device whose widths both ends support is flushed over packets, the other end serves each packet, and each reply
      packet is served here: then everything sent is complete. */
  method FlushTravels<S, D>(device: Device, socket: Socket, memory: seq<bool>, theirs: Byte, mine: Byte, tags: seq<nat>,
                            remote: Bus<S>, s0: S, local: Bus<D>, d: D)
    returns (callbacks: seq<Callback>, ghost f: Flushed, s: S, end: (Inbox, D))
    requires socket.Valid() && device.Flushable() && |memory| == |device.ready|
    requires device.connected && device.mtu != 0 && Supports(theirs, device.w) && Supports(mine, device.w)
    requires forall i :: 0 <= i < |device.ready| ==> Clean(device.ready[i])
    modifies device`ready, socket, device.link`sent
    ensures socket.Valid() && device.ready == [] && Claimable(old(socket.rba))
    ensures f == FlushAll(device.w, device.Capacity(), device.handle, (socket.timeCache + 5) % 0x1_0000,
                          Flushed([], [], [], NOTHING, old(socket.rba)), Reverse(old(device.ready)), memory)
    ensures callbacks == f.callbacks && socket.Queue() == old(socket.Queue()) + f.queue
    ensures Completed(device.w, remote, s0, f, old(socket.Queue()), old(socket.done), d, s, end)
  {
    hide *;
    ghost var older, done, rba := socket.Queue(), socket.done, socket.rba;
    ghost var cycles, deadline := Reverse(device.ready), (socket.timeCache + 5) % 0x1_0000;
    CapacityIs(device);
    ReverseClean(device.ready);
    ghost var room := device.mtu - RecordAlignment(device.w);
    var messages, box;
    callbacks, messages, box, f := FlushMessages(device, socket, memory);
    SentPackets(device.w, room, f.frames, messages);
    s, end := FlushedTravels(device.w, theirs, mine, tags, remote, s0, local, d, messages, box, room, device.handle,
                             deadline, rba, cycles, memory, f, older, done);
  }

  lemma SentPackets(w: Width, room: nat, f: Frames, out: seq<seq<Byte>>)
    requires Messages(w, Packet(room), f, out)
    ensures ArePackets(w, out, Finish(f))
  {
  }

  lemma SocketFacts(socket: Socket)
    requires socket.Valid()
    ensures AllSound(socket.Queue()) && Claimable(socket.rba)
  {
    QueueSound(socket.firstResponse, socket.lastResponse);
  }

  lemma CapacityIs(device: Device)
    requires device.Flushable() && device.mtu != 0
    ensures RecordAlignment(device.w) <= device.mtu <= BUFFER
    ensures device.Capacity() == Packet(device.mtu - RecordAlignment(device.w))
  {
  }

  lemma ReverseClean(ready: seq<Ready>)
    requires forall i :: 0 <= i < |ready| ==> Clean(ready[i])
    ensures |Reverse(ready)| == |ready| && forall i :: 0 <= i < |ready| ==> Clean(Reverse(ready)[i])
  {
    hide Clean;
  }

  lemma PacketLengths(w: Width, out: seq<seq<Byte>>, packets: seq<seq<Bytes>>, room: nat)
    requires ArePackets(w, out, packets) && forall i :: 0 <= i < |packets| ==> |Flat(packets[i])| <= room
    ensures forall i :: 0 <= i < |out| ==> |out[i]| <= RecordAlignment(w) + room
  {
    forall i | 0 <= i < |out|
      ensures |out[i]| <= RecordAlignment(w) + room
    {
      hide RecordAlignment, Flat, IsPacket;
      PacketLength(w, out[i], packets[i]);
    }
  }
}
