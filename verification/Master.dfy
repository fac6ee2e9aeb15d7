/** Flushing a device the way the sender does it: one buffer, two write pointers, one pass over the closed cycles. */
module Master {
  import opened Seqs
  import opened Options
  import opened Words
  import opened Widths
  import opened Operations
  import opened Validate
  import opened Records
  import opened Packing
  import opened PackingFacts
  import opened Planner
  import opened Responses
  import opened RoundTrip
  import opened Exchange
  import opened Buffer
  import opened Framing
  import opened Sockets
  import opened Emitter
  import opened Flushing
  import opened Promises

  /** sizeof(eb_max_align_t) * (255 + 255 + 1 + 1) + 8 */
  const BUFFER: nat := 4104

  /** A packet header: magic, version (with or without the no-reads bit), width, padding. */
  predicate HeaderBytes(w: Width, s: seq<Byte>) {
    && |s| == RecordAlignment(w) >= 4
    && s[0] == 0x4E && s[1] == 0x6F && (s[2] == 0x10 || s[2] == 0x14) && s[3] == 16 * w.addr + w.data
    && forall i :: 4 <= i < |s| ==> s[i] == 0
  }

  /** A packet: a header and the bytes of whole cycles. */
  predicate IsPacket(w: Width, message: seq<Byte>, group: seq<Bytes>) {
    |message| >= RecordAlignment(w) && HeaderBytes(w, message[..RecordAlignment(w)])
    && message[RecordAlignment(w)..] == Flat(group)
  }

  predicate NoneEmpty(group: seq<Bytes>) {
    forall i :: 0 <= i < |group| ==> group[i] != []
  }

  predicate ArePackets(w: Width, out: seq<seq<Byte>>, packets: seq<seq<Bytes>>) {
    |out| == |packets| && forall i :: 0 <= i < |out| ==> IsPacket(w, out[i], packets[i])
  }

  /** line is what the buffer holds, out what this flush has sent: the messages of f, its collected cycles up to cptr,
      and the records so far of the cycle being packed. */
  ghost predicate Buffered(w: Width, cap: Cap, f: Frames, line: seq<Byte>, cptr: nat, out: seq<seq<Byte>>, partial: Bytes)
  {
    match cap
    case Stream => f.packets == [] && Flat(out) + line == Flat(f.current) + partial
    case Packet(room) =>
      var h := RecordAlignment(w);
      && h <= cptr <= |line| <= h + room
      && ArePackets(w, out, f.packets) && NoneEmpty(f.current)
      && HeaderBytes(w, line[..h]) && line[h..cptr] == Flat(f.current) && line[cptr..] == partial
  }

  /** Which of the messages promise no reads. */
  function Flagged(out: seq<seq<Byte>>): (flags: seq<bool>)
    ensures |flags| == |out|
    ensures forall i :: 0 <= i < |out| ==> flags[i] == (|out[i]| > 2 && out[i][2] == 0x14)
  {
    seq(|out|, i requires 0 <= i < |out| => |out[i]| > 2 && out[i][2] == 0x14)
  }

  /** What the header of a packet buffer shows, and the headers sent. */
  ghost predicate Heads(w: Width, line: seq<Byte>, cptr: nat, asked: bool, out: seq<seq<Byte>>, h: Head) {
    && RecordAlignment(w) + h.collected == cptr && cptr + h.partial == |line| && |line| > 2
    && h.asked == asked && h.promised == (line[2] == 0x14) && h.sent == Flagged(out)
  }

  /** The collected cycles are sent behind a new header, and the partial one moves up. */
  lemma HeadsSent(w: Width, line: seq<Byte>, cptr: nat, asked: bool, out: seq<seq<Byte>>, h: Head, head: seq<Byte>)
    requires Heads(w, line, cptr, asked, out, h) && |head| == RecordAlignment(w) >= 4
    requires head[2] == if asked then line[2] else 0x14
    ensures RecordAlignment(w) <= cptr <= |line|
    ensures Heads(w, head + line[cptr..], RecordAlignment(w), false, out + [head + line[RecordAlignment(w)..cptr]], SentOff(h))
  {
    hide RecordAlignment;
    var message := head + line[RecordAlignment(w)..cptr];
    assert message[2] == head[2];
    assert Flagged(out + [message]) == Flagged(out) + [head[2] == 0x14];
  }

  /** A record behind the others. */
  lemma HeadsGrow(w: Width, line: seq<Byte>, cptr: nat, asked: bool, out: seq<seq<Byte>>, h: Head, more: seq<Byte>,
                  asks: bool)
    requires Heads(w, line, cptr, asked, out, h)
    ensures Heads(w, line + more, cptr, asked || asks, out, h.(partial := h.partial + |more|, asked := h.asked || asks))
  {
    hide RecordAlignment;
    assert (line + more)[2] == line[2];
  }

  lemma HeadsLength(w: Width, line: seq<Byte>, cptr: nat, asked: bool, out: seq<seq<Byte>>, h: Head)
    requires Heads(w, line, cptr, asked, out, h)
    ensures |line| == RecordAlignment(w) + h.collected + h.partial && cptr == RecordAlignment(w) + h.collected
  {
  }

  /** The frames once the collected cycles have been sent. */
  function Emptied(f: Frames): Frames {
    Frames(if f.current == [] then f.packets else f.packets + [f.current], [])
  }

  /** f is f0, or f0 with its collected cycles sent because they left no room for partial. */
  predicate Mid(cap: Cap, f0: Frames, f: Frames, partial: Bytes) {
    match cap
    case Stream => f == f0
    case Packet(room) =>
      |partial| <= room && f == if |Flat(f0.current)| + |partial| <= room then f0 else Emptied(f0)
  }

  lemma {:induction false} FlatNoneEmpty(group: seq<Bytes>)
    requires NoneEmpty(group)
    ensures Flat(group) == [] <==> group == []
  {
    if group != [] {
      assert group[0] != [];
    }
  }

  lemma BufferedGrows(w: Width, cap: Cap, f: Frames, line: seq<Byte>, cptr: nat, out: seq<seq<Byte>>, partial: Bytes,
                      more: Bytes)
    requires Buffered(w, cap, f, line, cptr, out, partial)
    requires cap.Packet? ==> |line| + |more| <= RecordAlignment(w) + cap.room
    ensures Buffered(w, cap, f, line + more, cptr, out, partial + more)
  {
    hide RecordAlignment, Flat, IsPacket, HeaderBytes;
    if cap.Packet? {
      var h := RecordAlignment(w);
      var grown := line + more;
      assert grown[..h] == line[..h] && grown[h..cptr] == line[h..cptr];
      assert grown[cptr..] == line[cptr..] + more;
    } else {
      ConcatAssoc(Flat(out), line, more);
      ConcatAssoc(Flat(f.current), partial, more);
    }
  }

  /** Sends the buffer and starts it afresh. */
  lemma BufferedSent(w: Width, f: Frames, line: seq<Byte>, out: seq<seq<Byte>>, partial: Bytes)
    requires Buffered(w, Stream, f, line, 0, out, partial)
    ensures Buffered(w, Stream, f, [], 0, out + [line], partial)
  {
    FlatConcat(out, [line]);
    FlatOne(line);
    NilConcat(Flat(out + [line]));
  }

  /** Sends the collected cycles and moves the partial one down behind the header. */
  lemma BufferedShifted(w: Width, room: nat, f: Frames, line: seq<Byte>, cptr: nat, out: seq<seq<Byte>>, partial: Bytes,
                        head: seq<Byte>)
    requires Buffered(w, Packet(room), f, line, cptr, out, partial) && cptr != RecordAlignment(w)
    requires HeaderBytes(w, head)
    ensures Buffered(w, Packet(room), Emptied(f), head + partial, RecordAlignment(w),
                     out + [head + line[RecordAlignment(w)..cptr]], partial)
  {
    var h := RecordAlignment(w);
    assert Flat([]) == [];
    assert f.current != [];
    var message := head + line[h..cptr];
    assert message[..h] == head && message[h..] == line[h..cptr];
    hide HeaderBytes;
    assert IsPacket(w, message, f.current);
    var shifted := head + partial;
    assert shifted[..h] == head && shifted[h..h] == [] && shifted[h..] == partial;
    assert Flat([]) == [];
    hide IsPacket;
  }

  /** Makes room for a record of the given length. In a packet the collected cycles are sent when that is not enough
      room; ok is false when the record does not fit behind the partial cycle even then. */
  method MakeRoom(w: Width, cap: Cap, buf: array<Byte>, link: Channel, length: nat, wptr0: nat, cptr0: nat, hasReads0: bool,
                  ghost f0: Frames, ghost out0: seq<seq<Byte>>, ghost partial: Bytes, ghost h: Head)
    returns (ok: bool, wptr: nat, cptr: nat, hasReads: bool, ghost f: Frames, ghost out: seq<seq<Byte>>)
    requires buf.Length == BUFFER && length <= BUFFER && wptr0 <= BUFFER
    requires cap.Packet? ==> RecordAlignment(w) + cap.room <= BUFFER
    requires Buffered(w, cap, f0, buf[..wptr0], cptr0, out0, partial)
    requires cap.Packet? ==> Heads(w, buf[..wptr0], cptr0, hasReads0, out0, h)
    modifies buf, link`sent
    ensures |out0| <= |out| && out[..|out0|] == out0 && link.sent == old(link.sent) + out[|out0|..]
    ensures wptr <= BUFFER && Buffered(w, cap, f, buf[..wptr], cptr, out, partial)
    ensures wptr0 + length <= (if cap.Stream? then BUFFER else RecordAlignment(w) + cap.room) ==>
              ok && f == f0 && out == out0 && wptr == wptr0 && cptr == cptr0 && hasReads == hasReads0
    ensures cap.Stream? ==> ok && f == f0
    ensures cap.Stream? && wptr0 + length > BUFFER ==> out == out0 + [old(buf[..wptr0])] && wptr == 0
    ensures cap.Packet? && wptr0 + length > RecordAlignment(w) + cap.room ==>
              f == Emptied(f0) && (ok <==> |partial| + length <= cap.room) && cptr == RecordAlignment(w)
              && |out| == |out0| + (if cptr0 == RecordAlignment(w) then 0 else 1)
    ensures ok ==> wptr + length <= if cap.Stream? then BUFFER else RecordAlignment(w) + cap.room
    ensures cap.Packet? ==> Heads(w, buf[..wptr], cptr, hasReads, out, Roomed(cap.room, h, length))
    ensures cap.Packet? ==> (ok <==> wptr + length <= RecordAlignment(w) + cap.room)
  {
    wptr, cptr, hasReads, f, out := wptr0, cptr0, hasReads0, f0, out0;
    if cap.Stream? {
      if length > BUFFER - wptr {
        link.Send(buf[..wptr]);
        BufferedSent(w, f, buf[..wptr], out, partial);
        out := out + [buf[..wptr]];
        wptr := 0;
      }
      return true, wptr, cptr, hasReads, f, out;
    }
    ok := true;
    var eob := RecordAlignment(w) + cap.room;
    if length > eob - wptr {
      if cptr != RecordAlignment(w) {
        wptr, hasReads, f, out := SendCollected(w, cap.room, buf, link, wptr, cptr, hasReads, f, out, partial, h);
        cptr := RecordAlignment(w);
      } else {
        NothingCollected(w, cap.room, f, buf[..wptr], out, partial);
      }
      ok := length <= eob - wptr;
    }
  }

  lemma NothingCollected(w: Width, room: nat, f: Frames, line: seq<Byte>, out: seq<seq<Byte>>, partial: Bytes)
    requires Buffered(w, Packet(room), f, line, RecordAlignment(w), out, partial)
    ensures f == Emptied(f) && |line| == RecordAlignment(w) + |partial|
  {
    assert line[RecordAlignment(w)..RecordAlignment(w)] == [];
    FlatNoneEmpty(f.current);
  }

  lemma BufferedParts(w: Width, room: nat, f: Frames, line: seq<Byte>, cptr: nat, out: seq<seq<Byte>>, partial: Bytes)
    requires Buffered(w, Packet(room), f, line, cptr, out, partial)
    ensures RecordAlignment(w) <= cptr <= |line| && line[cptr..] == partial
    ensures HeaderBytes(w, line[..RecordAlignment(w)])
  {
    hide HeaderBytes, ArePackets, RecordAlignment, NoneEmpty, Flat;
  }

  method SendCollected(w: Width, room: nat, buf: array<Byte>, link: Channel, wptr0: nat, cptr: nat, hasReads0: bool,
                       ghost f0: Frames, ghost out0: seq<seq<Byte>>, ghost partial: Bytes, ghost h0: Head)
    returns (wptr: nat, hasReads: bool, ghost f: Frames, ghost out: seq<seq<Byte>>)
    requires buf.Length == BUFFER && wptr0 <= BUFFER && RecordAlignment(w) + room <= BUFFER
    requires Buffered(w, Packet(room), f0, buf[..wptr0], cptr, out0, partial) && cptr != RecordAlignment(w)
    requires Heads(w, buf[..wptr0], cptr, hasReads0, out0, h0)
    modifies buf, link`sent
    ensures |out| == |out0| + 1 && out[..|out0|] == out0 && link.sent == old(link.sent) + out[|out0|..]
    ensures wptr == RecordAlignment(w) + |partial| && wptr <= BUFFER && f == Emptied(f0)
    ensures Buffered(w, Packet(room), f, buf[..wptr], RecordAlignment(w), out, partial)
    ensures Heads(w, buf[..wptr], RecordAlignment(w), hasReads, out, SentOff(h0))
  {
    var h := RecordAlignment(w);
    ghost var line := buf[..wptr0];
    LineLength(w, room, f0, line, cptr, out0, partial);
    BufferedParts(w, room, f0, line, cptr, out0, partial);
    HeaderLong(w, line);
    hide *;
    MarkHeader(w, buf, wptr0, hasReads0);
    hasReads := false;
    link.Send(buf[..cptr]);
    ghost var head := buf[..h];
    BufferedShifted(w, room, f0, line, cptr, out0, partial, head);
    HeadsSent(w, line, cptr, hasReads0, out0, h0, head);
    HeadThen(line, buf[..], h, cptr, wptr0);
    out := out0 + [buf[..cptr]];
    f := Emptied(f0);
    ghost var was := buf[..];
    MoveDown(buf, h, cptr, wptr0 - cptr);
    wptr := h + (wptr0 - cptr);
    HeadKept(was, buf[..], h, wptr);
  }

  lemma HeaderLong(w: Width, line: seq<Byte>)
    requires |line| >= RecordAlignment(w)
    ensures RecordAlignment(w) >= 4 && |line| >= 4
  {
    AlignmentFits(w);
  }

  lemma HeadKept<T>(was: seq<T>, now: seq<T>, h: nat, wptr: nat)
    requires h <= wptr <= |was| == |now| && now[..h] == was[..h]
    ensures now[..wptr] == was[..h] + now[h..wptr]
  {
    assert now[..wptr] == now[..h] + now[h..wptr];
  }

  lemma HeadThen<T>(line: seq<T>, now: seq<T>, h: nat, cptr: nat, wptr: nat)
    requires h <= cptr <= wptr == |line| <= |now| && now[..wptr][h..] == line[h..]
    ensures |now[..h]| == h && now[..cptr] == now[..h] + line[h..cptr] && now[cptr..wptr] == line[cptr..]
  {
    assert now[h..cptr] == now[..wptr][h..][..cptr - h] && line[h..cptr] == line[h..][..cptr - h];
    assert now[cptr..wptr] == now[..wptr][h..][cptr - h..] && line[cptr..] == line[h..][cptr - h..];
    assert now[..cptr] == now[..h] + now[h..cptr];
  }

  /** Sets the no-reads bit of the packet header when no reads were packed. */
  method MarkHeader(w: Width, buf: array<Byte>, wptr: nat, hasReads: bool)
    requires RecordAlignment(w) <= wptr <= buf.Length && HeaderBytes(w, buf[..wptr][..RecordAlignment(w)])
    modifies buf
    ensures HeaderBytes(w, buf[..RecordAlignment(w)])
    ensures buf[RecordAlignment(w)..] == old(buf[RecordAlignment(w)..])
    ensures buf[..wptr][RecordAlignment(w)..] == old(buf[..wptr])[RecordAlignment(w)..]
    ensures buf.Length > 2 && buf[2] == if hasReads then old(buf[2]) else 0x14
  {
    assert buf[..wptr][..RecordAlignment(w)] == buf[..RecordAlignment(w)];
    if !hasReads {
      var h := RecordAlignment(w);
      hide RecordAlignment;
      ghost var was := buf[..h];
      buf[2] := 0x14;
      assert buf[..h] == was[2 := 0x14];
    }
  }

  // ---------------------------------------------------------------------------
  // One record
  // ---------------------------------------------------------------------------

  lemma LineLength(w: Width, room: nat, f: Frames, line: seq<Byte>, cptr: nat, out: seq<seq<Byte>>, partial: Bytes)
    requires Buffered(w, Packet(room), f, line, cptr, out, partial)
    ensures |line| == RecordAlignment(w) + |Flat(f.current)| + |partial|
  {
    hide HeaderBytes, ArePackets, RecordAlignment, Flat;
  }

  /** Whether a longer partial cycle still fits decides whether the collected cycles are sent first. */
  lemma MidStep(room: nat, f0: Frames, f1: Frames, f: Frames, partial: Bytes, length: nat)
    requires Mid(Packet(room), f0, f1, partial)
    requires f == if |Flat(f1.current)| + |partial| + length <= room then f1 else Emptied(f1)
    ensures |partial| + length > room ==> f == Emptied(f0)
    ensures forall more: Bytes | |more| == length && |partial| + length <= room :: Mid(Packet(room), f0, f, partial + more)
  {
    assert Flat([]) == [];
    hide Flat;
  }

  /** The records so far and those to come make up the cycle, and the frames have been kept accordingly. */
  ghost predicate Underway(w: Width, cap: Cap, s: Sent, f0: Frames, f: Frames, partial: Bytes, from: nat, awaiting: nat)
    requires AllFit(w, s.cycle.ops) && s.rba < 0xFFFF
  {
    var ops := s.cycle.ops;
    && from <= |ops| && Mid(cap, f0, f, partial)
    && partial + RestBytes(w, s.rba, ops[from..], s.checked, awaiting) == CycleBytes(w, s)
    && (cap.Packet? ==>
          OverflowAt(w, cap.room, ops, s.checked, 0)
          == from + OverflowAt(w, cap.room - |partial|, ops[from..], s.checked, awaiting))
  }

  lemma UnderwayStart(w: Width, cap: Cap, s: Sent, f: Frames)
    requires AllFit(w, s.cycle.ops) && s.rba < 0xFFFF && (cap.Packet? ==> |Flat(f.current)| <= cap.room)
    ensures Underway(w, cap, s, f, f, [], 0, 0)
  {
    hide RestBytes, OverflowAt;
    assert s.cycle.ops[0..] == s.cycle.ops;
    NilConcat(CycleBytes(w, s));
  }

  lemma EncodeAllCons(w: Width, r: Record, rs: seq<Record>)
    requires WellFormed(w, r) && AllWellFormed(w, rs)
    ensures AllWellFormed(w, [r] + rs) && EncodeAll(w, [r] + rs) == Encode(w, r) + EncodeAll(w, rs)
  {
    hide WellFormed, Encode;
    assert ([r] + rs)[1..] == rs;
  }

  lemma FitTail(w: Width, ops: seq<Operation>, from: nat)
    requires AllFit(w, ops) && from <= |ops|
    ensures AllFit(w, ops[from..])
  {
    hide Fits;
  }

  lemma RestIs(w: Width, rba: nat, ops: seq<Operation>, checked: bool, awaiting: nat)
    requires AllFit(w, ops) && rba < 0xFFFF
    ensures AllWellFormed(w, RecordsOf(w, rba, ops, checked, awaiting))
    ensures RestBytes(w, rba, ops, checked, awaiting) == EncodeAll(w, RecordsOf(w, rba, ops, checked, awaiting))
  {
    hide AllFit, RecordsOf, EncodeAll, AllWellFormed;
    CycleWellFormed(w, rba, ops, checked, awaiting);
  }

  lemma RestStep(w: Width, rba: nat, ops: seq<Operation>, checked: bool, awaiting: nat, p: Plan)
    requires AllFit(w, ops) && rba % 2 == 0 && rba < 0xFFFF && !Finished(ops, checked, awaiting)
    requires p == NextPlan(w, ops, checked, awaiting)
    ensures p.wcount + p.rcount <= |ops| && AllFit(w, ops[p.wcount + p.rcount..])
    ensures WellFormed(w, RecordOf(w, rba, ops, p)) && |Encode(w, RecordOf(w, rba, ops, p))| == PlanLength(w, p)
    ensures RestBytes(w, rba, ops, checked, awaiting)
            == Encode(w, RecordOf(w, rba, ops, p)) + RestBytes(w, rba, ops[p.wcount + p.rcount..], checked, p.awaiting)
  {
    hide *;
    PlanEncoded(w, rba, ops, p, checked, awaiting);
    FitTail(w, ops, p.wcount + p.rcount);
    RecordsOfStep(w, rba, ops, checked, awaiting);
    RestJoins(w, rba, ops, ops[p.wcount + p.rcount..], checked, awaiting, p.awaiting, RecordOf(w, rba, ops, p));
  }

  lemma RestJoins(w: Width, rba: nat, ops: seq<Operation>, rest: seq<Operation>, checked: bool, awaiting: nat, awaiting': nat,
                  r: Record)
    requires AllFit(w, ops) && AllFit(w, rest) && rba < 0xFFFF && WellFormed(w, r)
    requires RecordsOf(w, rba, ops, checked, awaiting) == [r] + RecordsOf(w, rba, rest, checked, awaiting')
    ensures RestBytes(w, rba, ops, checked, awaiting) == Encode(w, r) + RestBytes(w, rba, rest, checked, awaiting')
  {
    hide *;
    RestIs(w, rba, ops, checked, awaiting);
    RestIs(w, rba, rest, checked, awaiting');
    EncodeAllCons(w, r, RecordsOf(w, rba, rest, checked, awaiting'));
  }

  lemma OverflowStep(w: Width, room: nat, ops: seq<Operation>, checked: bool, awaiting: nat)
    requires !Finished(ops, checked, awaiting)
    ensures var p := NextPlan(w, ops, checked, awaiting);
            var n := p.wcount + p.rcount;
            OverflowAt(w, room, ops, checked, awaiting)
            == if PlanLength(w, p) > room then 0
               else n + OverflowAt(w, room - PlanLength(w, p), ops[n..], checked, p.awaiting)
  {
    hide NextPlan, PlanLength;
  }

  lemma UnderwayStep(w: Width, cap: Cap, s: Sent, f0: Frames, f1: Frames, f: Frames, partial: Bytes, from: nat, awaiting: nat,
                     p: Plan, more: Bytes)
    requires AllFit(w, s.cycle.ops) && s.rba % 2 == 0 && s.rba < 0xFFFF
    requires Underway(w, cap, s, f0, f1, partial, from, awaiting)
    requires !Finished(s.cycle.ops[from..], s.checked, awaiting)
    requires p == NextPlan(w, s.cycle.ops[from..], s.checked, awaiting)
    requires WellFormed(w, RecordOf(w, s.rba, s.cycle.ops[from..], p))
    requires more == Encode(w, RecordOf(w, s.rba, s.cycle.ops[from..], p))
    requires Mid(cap, f0, f, partial + more)
    ensures Underway(w, cap, s, f0, f, partial + more, from + p.wcount + p.rcount, p.awaiting)
  {
    hide *;
    UnderwayFacts(w, cap, s, f0, f1, partial, from, awaiting);
    RestAfter(w, s, from, awaiting, p);
    ConcatAssoc(partial, more, RestBytes(w, s.rba, s.cycle.ops[from + p.wcount + p.rcount..], s.checked, p.awaiting));
    if cap.Packet? {
      MidRoom(cap, f0, f, partial + more);
      OverflowStep(w, cap.room - |partial|, s.cycle.ops[from..], s.checked, awaiting);
    }
    UnderwayIs(w, cap, s, f0, f, partial + more, from + p.wcount + p.rcount, p.awaiting);
  }

  lemma MidRoom(cap: Cap, f0: Frames, f: Frames, partial: Bytes)
    requires Mid(cap, f0, f, partial) && cap.Packet?
    ensures |partial| <= cap.room
  {
  }

  lemma UnderwayFacts(w: Width, cap: Cap, s: Sent, f0: Frames, f: Frames, partial: Bytes, from: nat, awaiting: nat)
    requires AllFit(w, s.cycle.ops) && s.rba < 0xFFFF
    requires Underway(w, cap, s, f0, f, partial, from, awaiting)
    ensures from <= |s.cycle.ops| && Mid(cap, f0, f, partial) && AllFit(w, s.cycle.ops[from..])
    ensures partial + RestBytes(w, s.rba, s.cycle.ops[from..], s.checked, awaiting) == CycleBytes(w, s)
    ensures cap.Packet? ==>
              |partial| <= cap.room
              && OverflowAt(w, cap.room, s.cycle.ops, s.checked, 0)
                 == from + OverflowAt(w, cap.room - |partial|, s.cycle.ops[from..], s.checked, awaiting)
  {
    hide Fits, RestBytes, OverflowAt, CycleBytes;
  }

  lemma UnderwayIs(w: Width, cap: Cap, s: Sent, f0: Frames, f: Frames, partial: Bytes, from: nat, awaiting: nat)
    requires AllFit(w, s.cycle.ops) && s.rba < 0xFFFF
    requires from <= |s.cycle.ops| && Mid(cap, f0, f, partial) && AllFit(w, s.cycle.ops[from..])
    requires partial + RestBytes(w, s.rba, s.cycle.ops[from..], s.checked, awaiting) == CycleBytes(w, s)
    requires cap.Packet? ==>
               |partial| <= cap.room
               && OverflowAt(w, cap.room, s.cycle.ops, s.checked, 0)
                  == from + OverflowAt(w, cap.room - |partial|, s.cycle.ops[from..], s.checked, awaiting)
    ensures Underway(w, cap, s, f0, f, partial, from, awaiting)
  {
    hide Fits, RestBytes, OverflowAt, CycleBytes;
  }

  lemma RestAfter(w: Width, s: Sent, from: nat, awaiting: nat, p: Plan)
    requires AllFit(w, s.cycle.ops) && s.rba % 2 == 0 && s.rba < 0xFFFF && from <= |s.cycle.ops|
    requires !Finished(s.cycle.ops[from..], s.checked, awaiting)
    requires p == NextPlan(w, s.cycle.ops[from..], s.checked, awaiting)
    ensures p.wcount + p.rcount <= |s.cycle.ops| - from
    ensures s.cycle.ops[from..][p.wcount + p.rcount..] == s.cycle.ops[from + p.wcount + p.rcount..]
    ensures AllFit(w, s.cycle.ops[from..]) && AllFit(w, s.cycle.ops[from + p.wcount + p.rcount..])
    ensures var r := RecordOf(w, s.rba, s.cycle.ops[from..], p);
            && WellFormed(w, r) && |Encode(w, r)| == PlanLength(w, p)
            && RestBytes(w, s.rba, s.cycle.ops[from..], s.checked, awaiting)
               == Encode(w, r) + RestBytes(w, s.rba, s.cycle.ops[from + p.wcount + p.rcount..], s.checked, p.awaiting)
  {
    hide *;
    FitTail(w, s.cycle.ops, from);
    assert s.cycle.ops[from..][p.wcount + p.rcount..] == s.cycle.ops[from + p.wcount + p.rcount..];
    RestStep(w, s.rba, s.cycle.ops[from..], s.checked, awaiting, p);
  }

  /** A record that does not fit means that the cycle does not fit. */
  lemma UnderwayStuck(w: Width, cap: Cap, s: Sent, f0: Frames, f1: Frames, partial: Bytes, from: nat, awaiting: nat, p: Plan)
    requires AllFit(w, s.cycle.ops) && s.rba % 2 == 0 && s.rba < 0xFFFF && cap.Packet?
    requires Underway(w, cap, s, f0, f1, partial, from, awaiting)
    requires !Finished(s.cycle.ops[from..], s.checked, awaiting)
    requires p == NextPlan(w, s.cycle.ops[from..], s.checked, awaiting)
    requires |partial| + PlanLength(w, p) > cap.room
    ensures !cap.Holds(|CycleBytes(w, s)|) && OverflowAt(w, cap.room, s.cycle.ops, s.checked, 0) == from
    ensures Place(cap, f0, CycleBytes(w, s)) == Emptied(f0)
  {
    TooLong(cap.room, f0, CycleBytes(w, s));
    UnderwayFacts(w, cap, s, f0, f1, partial, from, awaiting);
    hide *;
    hide Underway;
    RestAfter(w, s, from, awaiting, p);
    OverflowStep(w, cap.room - |partial|, s.cycle.ops[from..], s.checked, awaiting);
  }

  lemma TooLong(room: nat, f: Frames, bytes: Bytes)
    ensures |bytes| > room ==> Place(Packet(room), f, bytes) == Emptied(f) && !Packet(room).Holds(|bytes|)
  {
  }

  lemma UnderwayEnd(w: Width, cap: Cap, s: Sent, f0: Frames, f: Frames, partial: Bytes, from: nat, awaiting: nat)
    requires AllFit(w, s.cycle.ops) && s.rba < 0xFFFF && s.cycle.ops != []
    requires Underway(w, cap, s, f0, f, partial, from, awaiting)
    requires Finished(s.cycle.ops[from..], s.checked, awaiting)
    ensures partial == CycleBytes(w, s) && partial != [] && cap.Holds(|partial|)
    ensures Place(cap, f0, partial) == f.(current := f.current + [partial])
  {
    assert RestBytes(w, s.rba, s.cycle.ops[from..], s.checked, awaiting) == [];
    NilConcat(partial);
    CycleNotEmpty(w, s);
    hide RestBytes, OverflowAt, CycleBytes, Fits;
    NilConcat([partial]);
  }

  lemma CycleNotEmpty(w: Width, s: Sent)
    requires AllFit(w, s.cycle.ops) && s.rba < 0xFFFF && s.cycle.ops != []
    ensures CycleBytes(w, s) != []
  {
    CycleWellFormed(w, s.rba, s.cycle.ops, s.checked, 0);
    CycleClosedOnce(w, s.rba, s.cycle.ops, s.checked, 0);
    var rs := RecordsFor(w, s);
    EncodeLength(w, rs[0]);
    AlignmentFits(w);
    hide RecordsOf, Encode, WellFormed, RecordAlignment, Fits;
  }

  /** Plans, makes room for and writes the next record of a cycle. */
  method PackNext(w: Width, cap: Cap, buf: array<Byte>, link: Channel, wptr0: nat, cptr0: nat, s: Sent, from: nat,
                  awaiting: nat, hasReads0: bool, ghost f0: Frames, ghost f1: Frames, ghost out0: seq<seq<Byte>>,
                  ghost partial: Bytes, ghost h: Head)
    returns (ok: bool, p: Plan, wptr: nat, cptr: nat, hasReads: bool, ghost f: Frames, ghost out: seq<seq<Byte>>)
    requires buf.Length == BUFFER && wptr0 <= BUFFER && (cap.Packet? ==> RecordAlignment(w) + cap.room <= BUFFER)
    requires AllFit(w, s.cycle.ops) && s.rba % 2 == 0 && s.rba < 0xFFFF
    requires Countable(s.cycle.ops, from, s.checked, awaiting) && !Finished(s.cycle.ops[from..], s.checked, awaiting)
    requires Buffered(w, cap, f1, buf[..wptr0], cptr0, out0, partial) && Mid(cap, f0, f1, partial)
    requires cap.Packet? ==> Heads(w, buf[..wptr0], cptr0, hasReads0, out0, h)
    modifies buf, link`sent
    ensures |out0| <= |out| && out[..|out0|] == out0 && link.sent == old(link.sent) + out[|out0|..]
    ensures p == NextPlan(w, s.cycle.ops[from..], s.checked, awaiting) && wptr <= BUFFER
    ensures Countable(s.cycle.ops, from + p.wcount + p.rcount, s.checked, p.awaiting)
    ensures WellFormed(w, RecordOf(w, s.rba, s.cycle.ops[from..], p))
    ensures ok ==> var grown := partial + Encode(w, RecordOf(w, s.rba, s.cycle.ops[from..], p));
                   Buffered(w, cap, f, buf[..wptr], cptr, out, grown) && Mid(cap, f0, f, grown)
    ensures !ok ==> cap.Packet? && |partial| + PlanLength(w, p) > cap.room && f == Emptied(f0)
                    && Buffered(w, cap, f, buf[..wptr], cptr, out, partial) && cptr == RecordAlignment(w)
    ensures cap.Packet? ==>
              var (fits, h1) := Taken(cap.room, h, PlanLength(w, p), Asks(p));
              ok == fits && Heads(w, buf[..wptr], cptr, hasReads, out, if ok then h1 else Roomed(cap.room, h, PlanLength(w, p)))
  {
    hide *;
    CountableWithin(s.cycle.ops, from, s.checked, awaiting);
    p := PlanRecord(w, s.cycle.ops, from, s.checked, awaiting);
    PackFacts(w, s, from, awaiting, p);
    if cap.Packet? {
      LineLength(w, cap.room, f1, buf[..wptr0], cptr0, out0, partial);
    }
    ok, wptr, cptr, hasReads, f, out := MakeRoom(w, cap, buf, link, PlanLength(w, p), wptr0, cptr0, hasReads0, f1, out0,
                                                 partial, h);
    ghost var line, asked, h1 := buf[..wptr], hasReads, if cap.Packet? then Roomed(cap.room, h, PlanLength(w, p)) else h;
    if cap.Packet? {
      MidStep(cap.room, f0, f1, f, partial, PlanLength(w, p));
      HeadsLength(w, line, cptr, asked, out, h1);
      TakenRoomed(cap.room, h, PlanLength(w, p), Asks(p));
    } else {
      MidStream(f0, f1, f, partial);
    }
    if ok {
      hasReads := hasReads || p.status || p.rcount > 0;
      AsksIs(p);
      wptr := EmitBehind(w, cap, buf, wptr, cptr, s, from, awaiting, p, f, out, partial);
      if cap.Packet? {
        HeadsGrow(w, line, cptr, asked, out, h1, buf[|line|..wptr], Asks(p));
        assert buf[..wptr] == line + buf[|line|..wptr];
      }
    }
  }

  /** The record of a plan can be emitted, and never outgrows the buffer. */
  lemma PackFacts(w: Width, s: Sent, from: nat, awaiting: nat, p: Plan)
    requires AllFit(w, s.cycle.ops) && s.rba % 2 == 0 && s.rba < 0xFFFF && from <= |s.cycle.ops|
    requires p == NextPlan(w, s.cycle.ops[from..], s.checked, awaiting)
    ensures p.wcount + p.rcount <= |s.cycle.ops| - from
    ensures WellFormed(w, RecordOf(w, s.rba, s.cycle.ops[from..], p))
    ensures |Encode(w, RecordOf(w, s.rba, s.cycle.ops[from..], p))| == PlanLength(w, p) <= BUFFER
  {
    hide *;
    FitTail(w, s.cycle.ops, from);
    PlanEncoded(w, s.rba, s.cycle.ops[from..], p, s.checked, awaiting);
    EncodeLength(w, RecordOf(w, s.rba, s.cycle.ops[from..], p));
    BufferSize();
  }

  lemma CountableWithin(ops: seq<Operation>, from: nat, checked: bool, awaiting: nat)
    requires Countable(ops, from, checked, awaiting)
    ensures from <= |ops|
  {
  }

  lemma BufferSize()
    ensures BUFFER == 4104
  {
  }

  lemma MidStream(f0: Frames, f1: Frames, f: Frames, partial: Bytes)
    requires Mid(Stream, f0, f1, partial) && f == f1
    ensures forall more: Bytes :: Mid(Stream, f0, f, partial + more)
  {
  }

  method EmitBehind(w: Width, cap: Cap, buf: array<Byte>, wptr: nat, ghost cptr: nat, s: Sent, from: nat,
                    ghost awaiting: nat, p: Plan, ghost f: Frames, ghost out: seq<seq<Byte>>, ghost partial: Bytes)
    returns (next: nat)
    requires from <= |s.cycle.ops| && AllFit(w, s.cycle.ops) && s.rba % 2 == 0 && s.rba < 0xFFFF
    requires p == NextPlan(w, s.cycle.ops[from..], s.checked, awaiting)
    requires WellFormed(w, RecordOf(w, s.rba, s.cycle.ops[from..], p))
    requires wptr + PlanLength(w, p) <= buf.Length
    requires cap.Packet? ==> wptr + PlanLength(w, p) <= RecordAlignment(w) + cap.room
    requires Buffered(w, cap, f, buf[..wptr], cptr, out, partial)
    modifies buf
    ensures next == wptr + PlanLength(w, p) && buf[..wptr] == old(buf[..wptr])
    ensures Buffered(w, cap, f, buf[..next], cptr, out,
                     partial + Encode(w, RecordOf(w, s.rba, s.cycle.ops[from..], p)))
  {
    hide *;
    ghost var line := buf[..wptr];
    next := EmitRecord(w, buf, wptr, s.rba, s.cycle.ops, from, p, s.checked, awaiting);
    ghost var more := Encode(w, RecordOf(w, s.rba, s.cycle.ops[from..], p));
    assert buf[..next] == line + more;
    BufferedGrows(w, cap, f, line, cptr, out, partial, more);
  }

  // ---------------------------------------------------------------------------
  // One cycle
  // ---------------------------------------------------------------------------

  /** readback is set exactly when something sent so far will be answered; until then every bus operation awaits. */
  ghost predicate Heard(ops: seq<Operation>, from: nat, checked: bool, awaiting: nat, readback: bool) {
    && from <= |ops|
    && (readback ==> !Silent(ops, checked, 0))
    && (!readback ==> awaiting == CountBus(ops[..from]) && forall i :: 0 <= i < from ==> !ops[i].IsRead())
  }

  /** What a plan says about the operations it takes. */
  lemma PlanHeard(w: Width, ops: seq<Operation>, checked: bool, awaiting: nat, p: Plan)
    requires p == NextPlan(w, ops, checked, awaiting)
    ensures p.wcount + p.rcount <= |ops|
    ensures p.rcount > 0 ==> ops[p.wcount].IsRead()
    ensures p.status ==> checked && p.rcount == 0 && awaiting + CountBus(ops[..p.wcount]) > 0
    ensures !p.status ==> p.awaiting == awaiting + CountBus(ops[..p.wcount + p.rcount])
    ensures forall i :: 0 <= i < p.wcount ==> !ops[i].IsRead()
  {
    PlanIsRoomy(w, ops, checked, awaiting);
    PlanWritesIsChain(w, ops, checked, awaiting);
    assert ops[p.wcount..p.wcount] == [];
    hide PlanWrites, PlanReads, Roomy;
    if p.wcount > 0 {
      ChainIsWrites(w, ops[..p.wcount], ops[0], ops[0].address, PlanWrites(w, ops, checked, awaiting).1);
      assert forall i :: 0 <= i < p.wcount ==> ops[..p.wcount][i] == ops[i];
    }
    PlanReadsRead(w, ops, p.wcount, checked, awaiting + CountBus(ops[..p.wcount]));
  }

  lemma PlanReadsRead(w: Width, ops: seq<Operation>, k: nat, checked: bool, awaiting: nat)
    requires k <= |ops|
    ensures PlanReads(w, ops, k, checked, awaiting) > 0 ==> k < |ops| && ops[k].IsRead()
  {
  }

  lemma HeardStep(w: Width, ops: seq<Operation>, from: nat, checked: bool, awaiting: nat, readback: bool, p: Plan)
    requires Heard(ops, from, checked, awaiting, readback) && p == NextPlan(w, ops[from..], checked, awaiting)
    ensures Heard(ops, from + p.wcount + p.rcount, checked, p.awaiting, readback || p.status || p.rcount > 0)
  {
    var n := p.wcount + p.rcount;
    hide NextPlan, CountBus, Silent;
    PlanHeard(w, ops[from..], checked, awaiting, p);
    Prefix(ops, from, from + n);
    assert ops[from..][..n] == ops[from..from + n];
    if !readback {
      if p.status {
        StatusHeard(ops, checked);
      } else if p.rcount > 0 {
        ReadHeard(ops, from + p.wcount, checked);
      } else {
        assert forall i :: from <= i < from + n ==> ops[i] == ops[from..][i - from];
      }
    }
  }

  lemma StatusHeard(ops: seq<Operation>, checked: bool)
    ensures checked && CountBus(ops) > 0 ==> !Silent(ops, checked, 0)
  {
    hide CountBus;
  }

  lemma ReadHeard(ops: seq<Operation>, i: nat, checked: bool)
    requires i < |ops|
    ensures ops[i].IsRead() ==> !Silent(ops, checked, 0)
  {
    hide CountBus;
  }

  lemma Prefix(ops: seq<Operation>, from: nat, to: nat)
    requires from <= to <= |ops|
    ensures CountBus(ops[..to]) == CountBus(ops[..from]) + CountBus(ops[from..to])
    ensures CountBus(ops[..to]) <= CountBus(ops)
  {
    CountBusSplit(ops, 0, from, to);
    CountBusSplit(ops, 0, to, |ops|);
    assert ops[0..to] == ops[..to] && ops[0..from] == ops[..from] && ops[0..|ops|] == ops;
  }

  lemma HeardEnd(ops: seq<Operation>, from: nat, checked: bool, awaiting: nat, readback: bool)
    requires Heard(ops, from, checked, awaiting, readback) && Finished(ops[from..], checked, awaiting)
    ensures readback <==> !Silent(ops, checked, 0)
  {
    assert from == |ops| && ops[..from] == ops;
  }

  /** A finished cycle joins the collected ones. */
  lemma BufferedDone(w: Width, cap: Cap, f: Frames, line: seq<Byte>, cptr: nat, out: seq<seq<Byte>>, bytes: Bytes)
    requires Buffered(w, cap, f, line, cptr, out, bytes) && bytes != []
    ensures Buffered(w, cap, f.(current := f.current + [bytes]), line, |line|, out, [])
  {
    FlatConcat(f.current, [bytes]);
    FlatOne(bytes);
    hide HeaderBytes, ArePackets, RecordAlignment;
    if cap.Packet? {
      var h := RecordAlignment(w);
      assert line[h..] == line[h..cptr] + line[cptr..];
      assert line[h..|line|] == line[h..];
    }
    NilConcat(Flat(f.current + [bytes]));
  }

  /** A cycle that does not fit is dropped: the buffer goes back to its header. */
  lemma BufferedDropped(w: Width, room: nat, f: Frames, line: seq<Byte>, out: seq<seq<Byte>>, partial: Bytes)
    requires Buffered(w, Packet(room), f, line, RecordAlignment(w), out, partial)
    ensures Buffered(w, Packet(room), f, line[..RecordAlignment(w)], RecordAlignment(w), out, [])
  {
    hide HeaderBytes, ArePackets;
    var h := RecordAlignment(w);
    assert line[h..h] == [];
    assert line[..h][..h] == line[..h] && line[..h][h..h] == [];
    hide RecordAlignment;
  }

  /** A cycle partly packed: at operations and the records for them are in the buffer. */
  ghost predicate Packs(w: Width, cap: Cap, s: Sent, f0: Frames, f: Frames, line: seq<Byte>, cptr: nat,
                        out: seq<seq<Byte>>, partial: Bytes, at: nat, awaiting: nat, readback: bool, cycleEnd: bool)
    requires AllFit(w, s.cycle.ops) && s.rba < 0xFFFF
  {
    && at <= |s.cycle.ops| && Countable(s.cycle.ops, at, s.checked, awaiting)
    && Buffered(w, cap, f, line, cptr, out, partial)
    && Underway(w, cap, s, f0, f, partial, at, awaiting)
    && Heard(s.cycle.ops, at, s.checked, awaiting, readback)
    && (cycleEnd <==> Finished(s.cycle.ops[at..], s.checked, awaiting))
  }

  /** A cycle that ran out of room at an operation. */
  ghost predicate RanOut(w: Width, cap: Cap, s: Sent, f0: Frames, f: Frames, line: seq<Byte>, cptr: nat,
                         out: seq<seq<Byte>>, at: nat)
    requires AllFit(w, s.cycle.ops) && s.rba < 0xFFFF
  {
    && cap.Packet? && !cap.Holds(|CycleBytes(w, s)|) && at == OverflowAt(w, cap.room, s.cycle.ops, s.checked, 0)
    && f == Place(cap, f0, CycleBytes(w, s)) && Buffered(w, cap, f, line, cptr, out, [])
  }

  lemma PacksFacts(w: Width, cap: Cap, s: Sent, f0: Frames, f: Frames, line: seq<Byte>, cptr: nat, out: seq<seq<Byte>>,
                   partial: Bytes, at: nat, awaiting: nat, readback: bool)
    requires AllFit(w, s.cycle.ops) && s.rba < 0xFFFF
    requires Packs(w, cap, s, f0, f, line, cptr, out, partial, at, awaiting, readback, false)
    ensures at <= |s.cycle.ops| && Countable(s.cycle.ops, at, s.checked, awaiting)
    ensures !Finished(s.cycle.ops[at..], s.checked, awaiting)
    ensures Buffered(w, cap, f, line, cptr, out, partial) && Mid(cap, f0, f, partial)
  {
    hide Fits, Buffered, Heard, Countable, Finished, Mid;
  }

  lemma PacksMore(w: Width, cap: Cap, s: Sent, f0: Frames, f1: Frames, line1: seq<Byte>, cptr1: nat, out1: seq<seq<Byte>>,
                  partial: Bytes, at: nat, awaiting: nat, readback: bool, p: Plan,
                  f: Frames, line: seq<Byte>, cptr: nat, out: seq<seq<Byte>>, more: Bytes)
    requires AllFit(w, s.cycle.ops) && s.rba % 2 == 0 && s.rba < 0xFFFF
    requires Packs(w, cap, s, f0, f1, line1, cptr1, out1, partial, at, awaiting, readback, false)
    requires p == NextPlan(w, s.cycle.ops[at..], s.checked, awaiting)
    requires Countable(s.cycle.ops, at + p.wcount + p.rcount, s.checked, p.awaiting)
    requires WellFormed(w, RecordOf(w, s.rba, s.cycle.ops[at..], p))
    requires more == Encode(w, RecordOf(w, s.rba, s.cycle.ops[at..], p))
    requires Buffered(w, cap, f, line, cptr, out, partial + more) && Mid(cap, f0, f, partial + more)
    ensures at + p.wcount + p.rcount <= |s.cycle.ops|
    ensures Packs(w, cap, s, f0, f, line, cptr, out, partial + more, at + p.wcount + p.rcount, p.awaiting,
                  readback || p.status || p.rcount > 0, p.last)
    ensures p.wcount + p.rcount > 0 || p.awaiting < awaiting
  {
    hide Fits, Buffered, Heard, Countable, Finished, Underway, Mid, NextPlan, RecordOf, WellFormed, Encode;
    UnderwayStep(w, cap, s, f0, f1, f, partial, at, awaiting, p, more);
    HeardStep(w, s.cycle.ops, at, s.checked, awaiting, readback, p);
    LastPlan(w, s.cycle.ops[at..], s.checked, awaiting);
    PlanProgress(w, s.cycle.ops[at..], s.checked, awaiting);
    assert s.cycle.ops[at..][p.wcount + p.rcount..] == s.cycle.ops[at + p.wcount + p.rcount..];
  }

  lemma PacksStuck(w: Width, cap: Cap, s: Sent, f0: Frames, f1: Frames, line1: seq<Byte>, cptr1: nat, out1: seq<seq<Byte>>,
                   partial: Bytes, at: nat, awaiting: nat, readback: bool, p: Plan,
                   line: seq<Byte>, out: seq<seq<Byte>>)
    requires AllFit(w, s.cycle.ops) && s.rba % 2 == 0 && s.rba < 0xFFFF && cap.Packet?
    requires Packs(w, cap, s, f0, f1, line1, cptr1, out1, partial, at, awaiting, readback, false)
    requires p == NextPlan(w, s.cycle.ops[at..], s.checked, awaiting) && |partial| + PlanLength(w, p) > cap.room
    requires Buffered(w, cap, Emptied(f0), line, RecordAlignment(w), out, partial)
    ensures RecordAlignment(w) <= |line|
    ensures RanOut(w, cap, s, f0, Emptied(f0), line[..RecordAlignment(w)], RecordAlignment(w), out, at)
  {
    BufferedDropped(w, cap.room, Emptied(f0), line, out, partial);
    hide Fits, Buffered, Heard, Countable, Finished, Underway, NextPlan, RecordAlignment, PlanLength, CycleBytes, Place,
         Emptied, OverflowAt;
    UnderwayStuck(w, cap, s, f0, f1, partial, at, awaiting, p);
    LineLength(w, cap.room, Emptied(f0), line, RecordAlignment(w), out, partial);
  }

  /** One record of a cycle. */
  method PackStep(w: Width, cap: Cap, buf: array<Byte>, link: Channel, wptr0: nat, cptr0: nat, s: Sent, hasReads0: bool,
                  at0: nat, awaiting0: nat, readback0: bool,
                  ghost f0: Frames, ghost f1: Frames, ghost out1: seq<seq<Byte>>, ghost partial1: Bytes, ghost h1: Head)
    returns (ok: bool, at: nat, awaiting: nat, readback: bool, cycleEnd: bool, wptr: nat, cptr: nat, hasReads: bool,
             ghost f: Frames, ghost out: seq<seq<Byte>>, ghost partial: Bytes, ghost h: Head)
    requires buf.Length == BUFFER && wptr0 <= BUFFER && (cap.Packet? ==> RecordAlignment(w) + cap.room <= BUFFER)
    requires AllFit(w, s.cycle.ops) && s.rba % 2 == 0 && s.rba < 0xFFFF
    requires Packs(w, cap, s, f0, f1, buf[..wptr0], cptr0, out1, partial1, at0, awaiting0, readback0, false)
    requires cap.Packet? ==> Heads(w, buf[..wptr0], cptr0, hasReads0, out1, h1)
    modifies buf, link`sent
    ensures |out1| <= |out| && out[..|out1|] == out1 && link.sent == old(link.sent) + out[|out1|..]
    ensures wptr <= BUFFER
    ensures ok ==> Packs(w, cap, s, f0, f, buf[..wptr], cptr, out, partial, at, awaiting, readback, cycleEnd)
    ensures ok ==> at0 <= at <= |s.cycle.ops| && (at0 < at || awaiting < awaiting0)
    ensures !ok ==> RanOut(w, cap, s, f0, f, buf[..wptr], cptr, out, at)
    ensures cap.Packet? ==>
              && Heads(w, buf[..wptr], cptr, hasReads, out, h) && at0 <= |s.cycle.ops|
              && CycleTaken(w, cap.room, h1, s.cycle.ops[at0..], s.checked, awaiting0)
                 == if ok then CycleTaken(w, cap.room, h, s.cycle.ops[at..], s.checked, awaiting) else h
  {
    hide *;
    PacksFacts(w, cap, s, f0, f1, buf[..wptr0], cptr0, out1, partial1, at0, awaiting0, readback0);
    at, awaiting, readback, cycleEnd, partial := at0, awaiting0, readback0, false, partial1;
    ghost var line1 := buf[..wptr0];
    var p;
    ok, p, wptr, cptr, hasReads, f, out := PackNext(w, cap, buf, link, wptr0, cptr0, s, at0, awaiting0, hasReads0, f0, f1,
                                                    out1, partial1, h1);
    h := h1;
    if cap.Packet? {
      TakenNext(w, cap.room, h1, s.cycle.ops, at0, s.checked, awaiting0, p);
      h := Taken(cap.room, h1, PlanLength(w, p), Asks(p)).1;
    }
    if !ok {
      PacksStuck(w, cap, s, f0, f1, line1, cptr0, out1, partial1, at0, awaiting0, readback0, p, buf[..wptr], out);
      assert buf[..wptr][..RecordAlignment(w)] == buf[..RecordAlignment(w)];
      HeadsDropped(w, cap.room, buf[..wptr], cptr, hasReads, out, h1, PlanLength(w, p), Asks(p));
      wptr := RecordAlignment(w);
    } else {
      ghost var more := Encode(w, RecordOf(w, s.rba, s.cycle.ops[at0..], p));
      PacksMore(w, cap, s, f0, f1, line1, cptr0, out1, partial1, at0, awaiting0, readback0, p, f, buf[..wptr], cptr, out,
                more);
      at, awaiting, readback := at0 + p.wcount + p.rcount, p.awaiting, readback || p.status || p.rcount > 0;
      partial, cycleEnd := partial1 + more, p.last;
    }
  }

  /** The record that did not fit takes its cycle with it. */
  lemma HeadsDropped(w: Width, room: nat, line: seq<Byte>, cptr: nat, asked: bool, out: seq<seq<Byte>>, h: Head, length: nat,
                     asks: bool)
    requires Heads(w, line, cptr, asked, out, Roomed(room, h, length)) && cptr == RecordAlignment(w)
    requires !Taken(room, h, length, asks).0
    ensures RecordAlignment(w) <= |line|
    ensures Heads(w, line[..RecordAlignment(w)], cptr, asked, out, Taken(room, h, length, asks).1)
  {
    HeaderLong(w, line);
    hide RecordAlignment, Roomed;
    assert line[..RecordAlignment(w)][2] == line[2];
  }

  lemma TakenNext(w: Width, room: nat, h: Head, ops: seq<Operation>, at: nat, checked: bool, awaiting: nat, p: Plan)
    requires at <= |ops| && !Finished(ops[at..], checked, awaiting) && p == NextPlan(w, ops[at..], checked, awaiting)
    ensures at + p.wcount + p.rcount <= |ops|
    ensures var (ok, h1) := Taken(room, h, PlanLength(w, p), Asks(p));
            CycleTaken(w, room, h, ops[at..], checked, awaiting)
            == if ok then CycleTaken(w, room, h1, ops[at + p.wcount + p.rcount..], checked, p.awaiting) else h1
  {
    hide *;
    TakenStep(w, room, h, ops[at..], checked, awaiting);
    assert ops[at..][p.wcount + p.rcount..] == ops[at + p.wcount + p.rcount..];
  }

  /** Packs one cycle behind those already in the buffer. readback tells whether answers will come; at is where the
      cycle ran out of room. */
  method PackCycle(w: Width, cap: Cap, buf: array<Byte>, link: Channel, wptr0: nat, cptr0: nat, s: Sent, hasReads0: bool,
                   ghost f0: Frames, ghost out0: seq<seq<Byte>>, ghost h0: Head)
    returns (ok: bool, at: nat, readback: bool, wptr: nat, cptr: nat, hasReads: bool, ghost f: Frames,
             ghost out: seq<seq<Byte>>)
    requires buf.Length == BUFFER && wptr0 <= BUFFER && (cap.Packet? ==> RecordAlignment(w) + cap.room <= BUFFER)
    requires AllFit(w, s.cycle.ops) && s.rba % 2 == 0 && s.rba < 0xFFFF && 0 < |s.cycle.ops| < 0x1_0000
    requires Buffered(w, cap, f0, buf[..wptr0], cptr0, out0, [])
    requires cap.Packet? ==> Heads(w, buf[..wptr0], cptr0, hasReads0, out0, h0)
    modifies buf, link`sent
    ensures |out0| <= |out| && out[..|out0|] == out0 && link.sent == old(link.sent) + out[|out0|..]
    ensures ok <==> cap.Holds(|CycleBytes(w, s)|)
    ensures ok ==> (readback <==> !Unanswered(s))
    ensures !ok ==> cap.Packet? && at == OverflowAt(w, cap.room, s.cycle.ops, s.checked, 0)
    ensures f == Place(cap, f0, CycleBytes(w, s))
    ensures wptr <= BUFFER && Buffered(w, cap, f, buf[..wptr], cptr, out, [])
    ensures cap.Packet? ==>
              Heads(w, buf[..wptr], cptr, hasReads, out, CycleTaken(w, cap.room, h0, s.cycle.ops, s.checked, 0))
  {
    hide *;
    ghost var partial: Bytes, h := [], h0;
    assert s.cycle.ops[0..] == s.cycle.ops;
    var awaiting, cycleEnd := 0, false;
    PackStarts(w, cap, s, f0, buf[..wptr0], cptr0, out0);
    ok, at, readback, wptr, cptr, hasReads, f, out := true, 0, false, wptr0, cptr0, hasReads0, f0, out0;
    while ok && !cycleEnd
      invariant wptr <= BUFFER && (ok ==> at <= |s.cycle.ops|)
      invariant |out0| <= |out| && out[..|out0|] == out0 && link.sent == old(link.sent) + out[|out0|..]
      invariant ok ==> Packs(w, cap, s, f0, f, buf[..wptr], cptr, out, partial, at, awaiting, readback, cycleEnd)
      invariant !ok ==> RanOut(w, cap, s, f0, f, buf[..wptr], cptr, out, at)
      invariant cap.Packet? ==>
                  && Heads(w, buf[..wptr], cptr, hasReads, out, h)
                  && CycleTaken(w, cap.room, h0, s.cycle.ops, s.checked, 0)
                     == if ok then CycleTaken(w, cap.room, h, s.cycle.ops[at..], s.checked, awaiting) else h
      decreases ok, |s.cycle.ops| - at, awaiting
    {
      ghost var out1 := out;
      ok, at, awaiting, readback, cycleEnd, wptr, cptr, hasReads, f, out, partial, h :=
        PackStep(w, cap, buf, link, wptr, cptr, s, hasReads, at, awaiting, readback, f0, f, out, partial, h);
      SentMore(old(link.sent), link.sent, out0, out1, out);
    }
    if ok {
      PacksEnd(w, cap, s, f0, f, buf[..wptr], cptr, out, partial, at, awaiting, readback);
      if cap.Packet? {
        HeadsDone(w, cap.room, buf[..wptr], cptr, hasReads, out, h, s.cycle.ops[at..], s.checked, awaiting);
      }
      f := f.(current := f.current + [partial]);
      cptr := wptr;
    } else {
      RanOutFacts(w, cap, s, f0, f, buf[..wptr], cptr, out, at);
    }
  }

  /** A finished cycle counts as collected. */
  lemma HeadsDone(w: Width, room: nat, line: seq<Byte>, cptr: nat, asked: bool, out: seq<seq<Byte>>, h: Head,
                  rest: seq<Operation>, checked: bool, awaiting: nat)
    requires Heads(w, line, cptr, asked, out, h) && Finished(rest, checked, awaiting)
    ensures Heads(w, line, |line|, asked, out, CycleTaken(w, room, h, rest, checked, awaiting))
  {
    hide RecordAlignment;
  }

  lemma PacksEnd(w: Width, cap: Cap, s: Sent, f0: Frames, f: Frames, line: seq<Byte>, cptr: nat, out: seq<seq<Byte>>,
                 partial: Bytes, at: nat, awaiting: nat, readback: bool)
    requires AllFit(w, s.cycle.ops) && s.rba < 0xFFFF && s.cycle.ops != []
    requires Packs(w, cap, s, f0, f, line, cptr, out, partial, at, awaiting, readback, true)
    ensures at <= |s.cycle.ops| && Finished(s.cycle.ops[at..], s.checked, awaiting)
    ensures cap.Holds(|CycleBytes(w, s)|) && (readback <==> !Unanswered(s))
    ensures f.(current := f.current + [partial]) == Place(cap, f0, CycleBytes(w, s))
    ensures Buffered(w, cap, f.(current := f.current + [partial]), line, |line|, out, [])
  {
    hide Fits, Buffered, Heard, Countable, Finished, Underway, CycleBytes, Place, OverflowAt, Silent;
    UnderwayEnd(w, cap, s, f0, f, partial, at, awaiting);
    HeardEnd(s.cycle.ops, at, s.checked, awaiting, readback);
    BufferedDone(w, cap, f, line, cptr, out, partial);
  }

  lemma RanOutFacts(w: Width, cap: Cap, s: Sent, f0: Frames, f: Frames, line: seq<Byte>, cptr: nat,
                    out: seq<seq<Byte>>, at: nat)
    requires AllFit(w, s.cycle.ops) && s.rba < 0xFFFF && RanOut(w, cap, s, f0, f, line, cptr, out, at)
    ensures cap.Packet? && !cap.Holds(|CycleBytes(w, s)|) && at == OverflowAt(w, cap.room, s.cycle.ops, s.checked, 0)
    ensures f == Place(cap, f0, CycleBytes(w, s)) && Buffered(w, cap, f, line, cptr, out, [])
  {
  }

  lemma PackStarts(w: Width, cap: Cap, s: Sent, f: Frames, line: seq<Byte>, cptr: nat, out: seq<seq<Byte>>)
    requires AllFit(w, s.cycle.ops) && s.rba % 2 == 0 && s.rba < 0xFFFF && 0 < |s.cycle.ops| < 0x1_0000
    requires Buffered(w, cap, f, line, cptr, out, [])
    ensures Packs(w, cap, s, f, f, line, cptr, out, [], 0, 0, false, false)
  {
    hide Fits, HeaderBytes, ArePackets, RecordAlignment;
    UnderwayStart(w, cap, s, f);
    assert s.cycle.ops[..0] == [];
  }

  lemma SentMore<T>(was: seq<T>, now: seq<T>, out0: seq<T>, out1: seq<T>, out: seq<T>)
    requires |out0| <= |out1| <= |out| && out1[..|out0|] == out0 && out[..|out1|] == out1
    requires now == was + out1[|out0|..] + out[|out1|..]
    ensures out[..|out0|] == out0 && now == was + out[|out0|..]
  {
    assert out1 == out0 + out1[|out0|..];
    assert out == out1 + out[|out1|..];
    assert out[|out0|..] == out1[|out0|..] + out[|out1|..];
  }

  // ---------------------------------------------------------------------------
  // The whole device
  // ---------------------------------------------------------------------------

  /** The sending side of a connection; an mtu of 0 means a stream. */
  class Device {
    const handle: nat
    const w: Width
    const mtu: nat
    const link: Channel
    var connected: bool
    var ready: seq<Ready>

    constructor (handle: nat, w: Width, mtu: nat, link: Channel)
      ensures this.handle == handle && this.w == w && this.mtu == mtu && this.link == link && connected && ready == []
    {
      this.handle, this.w, this.mtu, this.link := handle, w, mtu, link;
      connected, ready := true, [];
    }

    /** The MTU leaves room for a header and fits the buffer; lists are no longer than 16-bit handles allow. */
    predicate Flushable()
      reads this
    {
      && (mtu != 0 ==> RecordAlignment(w) <= mtu <= BUFFER)
      && forall i :: 0 <= i < |ready| ==> |ready[i].ops| < 0x1_0000
    }

    /** A message with its header is no longer than the MTU. */
    function Capacity(): (cap: Cap)
      requires mtu != 0 ==> RecordAlignment(w) <= mtu
      ensures forall n: nat :: cap.Holds(n) <==> (mtu == 0 || RecordAlignment(w) + n <= mtu)
    {
      if mtu == 0 then Stream else Packet(mtu - RecordAlignment(w))
    }
  }

  /** out is what a flush with these frames sends. */
  predicate Messages(w: Width, cap: Cap, f: Frames, out: seq<seq<Byte>>) {
    match cap
    case Stream => Flat(out) == Flat(f.current)
    case Packet(_) => ArePackets(w, out, Finish(f))
  }

  /** Prepares the buffer: a packet starts with its header. */
  method Begin(w: Width, cap: Cap, buf: array<Byte>) returns (wptr: nat)
    requires buf.Length == BUFFER
    modifies buf
    ensures wptr <= BUFFER && Buffered(w, cap, NOTHING, buf[..wptr], wptr, [], [])
    ensures cap.Packet? ==> Heads(w, buf[..wptr], wptr, false, [], EMPTY)
  {
    wptr := 0;
    if cap.Packet? {
      AlignmentFits(w);
      var h := RecordAlignment(w);
      assert 4 <= h <= 8;
      hide *;
      Clear(buf, 0, h);
      assert buf[4..h] == buf[0..h][4..];
      buf[0], buf[1], buf[2], buf[3] := 0x4E, 0x6F, 0x10, WidthByte(w);
      wptr := h;
      HeaderStarts(w, cap.room, buf[..h], buf[4..h]);
      HeadsStart(w, buf[..h]);
    } else {
      StreamStarts(w, buf[..0]);
    }
  }

  lemma HeadsStart(w: Width, line: seq<Byte>)
    requires |line| == RecordAlignment(w) >= 4 && line[2] == 0x10
    ensures Heads(w, line, |line|, false, [], EMPTY)
  {
    hide RecordAlignment;
    assert Flagged([]) == [];
  }

  lemma HeaderStarts(w: Width, room: nat, line: seq<Byte>, zeros: seq<Byte>)
    requires |line| == RecordAlignment(w) && line[..4] == [0x4E, 0x6F, 0x10, WidthByte(w)]
    requires line[4..] == zeros == seq(|line| - 4, _ => 0)
    ensures Buffered(w, Packet(room), NOTHING, line, |line|, [], [])
  {
    AlignmentFits(w);
    hide RecordAlignment;
    assert forall i :: 0 <= i < 4 ==> line[i] == line[..4][i];
    assert forall i :: 4 <= i < |line| ==> line[i] == zeros[i - 4];
    assert line[..|line|] == line;
  }

  lemma StreamStarts(w: Width, line: seq<Byte>)
    requires line == []
    ensures Buffered(w, Stream, NOTHING, line, 0, [], [])
  {
  }

  /** Sends what is left in the buffer. */
  method End(w: Width, cap: Cap, buf: array<Byte>, link: Channel, wptr: nat, cptr: nat, hasReads: bool, ghost f: Frames,
             ghost out0: seq<seq<Byte>>, ghost h: Head)
    returns (ghost out: seq<seq<Byte>>)
    requires buf.Length == BUFFER && wptr <= BUFFER && Buffered(w, cap, f, buf[..wptr], cptr, out0, [])
    requires cap.Packet? ==> Heads(w, buf[..wptr], cptr, hasReads, out0, h)
    modifies buf, link`sent
    ensures |out0| <= |out| && out[..|out0|] == out0 && link.sent == old(link.sent) + out[|out0|..]
    ensures Messages(w, cap, f, out)
    ensures cap.Packet? ==> Flagged(out) == if h.collected > 0 then SentOff(h).sent else h.sent
  {
    out := out0;
    if cap.Stream? {
      NilConcat(Flat(f.current));
      if wptr != 0 {
        link.Send(buf[..wptr]);
        FlatConcat(out0, [buf[..wptr]]);
        FlatOne(buf[..wptr]);
        out := out + [buf[..wptr]];
      } else {
        NilConcat(Flat(out));
      }
    } else {
      LineLength(w, cap.room, f, buf[..wptr], cptr, out0, []);
      BufferedParts(w, cap.room, f, buf[..wptr], cptr, out0, []);
      FlatNoneEmpty(f.current);
      HeadsLength(w, buf[..wptr], cptr, hasReads, out0, h);
      HeadsShow(w, buf[..wptr], cptr, hasReads, out0, h);
      if wptr != RecordAlignment(w) {
        ghost var line := buf[..wptr];
        assert cptr == wptr && line[RecordAlignment(w)..] == Flat(f.current) by {
          assert line[RecordAlignment(w)..wptr] == line[RecordAlignment(w)..];
        }
        HeaderLong(w, line);
        hide RecordAlignment, HeaderBytes, Flat, NoneEmpty, Heads, Flagged;
        MarkHeader(w, buf, wptr, hasReads);
        link.Send(buf[..wptr]);
        FlagsMore(out0, buf[..wptr]);
        out := out + [buf[..wptr]];
        assert buf[..wptr][..RecordAlignment(w)] == buf[..RecordAlignment(w)];
        assert IsPacket(w, buf[..wptr], f.current);
      }
    }
  }

  lemma HeadsShow(w: Width, line: seq<Byte>, cptr: nat, asked: bool, out: seq<seq<Byte>>, h: Head)
    requires Heads(w, line, cptr, asked, out, h)
    ensures |line| > 2 && h.asked == asked && h.promised == (line[2] == 0x14) && h.sent == Flagged(out)
  {
  }

  lemma FlagsMore(out: seq<seq<Byte>>, message: seq<Byte>)
    requires |message| > 2
    ensures Flagged(out + [message]) == Flagged(out) + [message[2] == 0x14]
  {
  }

  /** What the socket and the buffer hold once the cycles of f have been dealt with. */
  ghost predicate FlushedSoFar(w: Width, cap: Cap, f: Flushed, queue0: seq<Response>, queue: seq<Response>, rba: nat,
                               callbacks: seq<Callback>, line: seq<Byte>, cptr: nat, out: seq<seq<Byte>>)
  {
    && Buffered(w, cap, f.frames, line, cptr, out, [])
    && queue == queue0 + f.queue && rba == f.rba && callbacks == f.callbacks
  }

  /** One cycle of the ready list. */
  method FlushCycle(w: Width, cap: Cap, device: nat, socket: Socket, buf: array<Byte>, link: Channel, c: Ready,
                    memory: bool, wptr0: nat, cptr0: nat, hasReads0: bool, callbacks0: seq<Callback>,
                    ghost f0: Flushed, ghost queue0: seq<Response>, ghost out0: seq<seq<Byte>>, ghost h0: Head)
    returns (wptr: nat, cptr: nat, hasReads: bool, callbacks: seq<Callback>, ghost f: Flushed,
             ghost out: seq<seq<Byte>>)
    requires buf.Length == BUFFER && wptr0 <= BUFFER && (cap.Packet? ==> RecordAlignment(w) + cap.room <= BUFFER)
    requires socket.Valid() && |c.ops| < 0x1_0000
    requires FlushedSoFar(w, cap, f0, queue0, socket.Queue(), socket.rba, callbacks0, buf[..wptr0], cptr0, out0)
    requires cap.Packet? ==> Heads(w, buf[..wptr0], cptr0, hasReads0, out0, h0)
    modifies socket, buf, link`sent
    ensures |out0| <= |out| && out[..|out0|] == out0 && link.sent == old(link.sent) + out[|out0|..]
    ensures socket.Valid() && socket.done == old(socket.done) && socket.timeCache == old(socket.timeCache)
    ensures wptr <= BUFFER && f0.rba == old(socket.rba)
    ensures f == FlushOne(w, cap, device, (socket.timeCache + 5) % 0x1_0000, f0, c, memory)
    ensures FlushedSoFar(w, cap, f, queue0, socket.Queue(), socket.rba, callbacks, buf[..wptr], cptr, out)
    ensures cap.Packet? ==> Heads(w, buf[..wptr], cptr, hasReads, out, ReadyTaken(w, cap.room, h0, c, memory))
  {
    hide Buffered, CheckAll, Place, CycleBytes, NextAddress, OverflowAt, RecordAlignment, NewResponse, Unanswered, Heads,
         CycleTaken;
    wptr, cptr, hasReads, callbacks, out := wptr0, cptr0, hasReads0, callbacks0, out0;
    ghost var deadline := (socket.timeCache + 5) % 0x1_0000;
    CheckAllFirstBad(w, c.ops);
    f := FlushOne(w, cap, device, deadline, f0, c, memory);
    if c.dead {
      callbacks := callbacks + [Callback(Cycle(c.handle, device, []), None, OOM)];
      return;
    }
    if c.ops == [] {
      callbacks := callbacks + [Callback(Cycle(c.handle, device, []), None, OK)];
      return;
    }
    var ops, bad, reason := CheckOperations(w, c.ops);
    var cycle := Cycle(c.handle, device, ops);
    if bad < |ops| {
      callbacks := callbacks + [Callback(cycle, Some(bad), reason)];
      return;
    }
    if !memory {
      callbacks := callbacks + [Callback(cycle, None, OOM)];
      return;
    }
    var s := Sent(socket.rba, (socket.timeCache + 5) % 0x1_0000, ops[0].checked, cycle);
    wptr, cptr, hasReads, callbacks, out :=
      SendCycle(w, cap, socket, buf, link, s, wptr0, cptr0, hasReads0, callbacks0, f0, queue0, out0, h0);
  }

  method SendCycle(w: Width, cap: Cap, socket: Socket, buf: array<Byte>, link: Channel, s: Sent,
                   wptr0: nat, cptr0: nat, hasReads0: bool, callbacks0: seq<Callback>,
                   ghost f0: Flushed, ghost queue0: seq<Response>, ghost out0: seq<seq<Byte>>, ghost h0: Head)
    returns (wptr: nat, cptr: nat, hasReads: bool, callbacks: seq<Callback>, ghost out: seq<seq<Byte>>)
    requires buf.Length == BUFFER && wptr0 <= BUFFER && (cap.Packet? ==> RecordAlignment(w) + cap.room <= BUFFER)
    requires socket.Valid() && AllFit(w, s.cycle.ops) && 0 < |s.cycle.ops| < 0x1_0000
    requires s.rba == socket.rba && s.deadline == (socket.timeCache + 5) % 0x1_0000
    requires FlushedSoFar(w, cap, f0, queue0, socket.Queue(), socket.rba, callbacks0, buf[..wptr0], cptr0, out0)
    requires cap.Packet? ==> Heads(w, buf[..wptr0], cptr0, hasReads0, out0, h0)
    modifies socket, buf, link`sent
    ensures |out0| <= |out| && out[..|out0|] == out0 && link.sent == old(link.sent) + out[|out0|..]
    ensures socket.Valid() && socket.done == old(socket.done) && socket.timeCache == old(socket.timeCache)
    ensures wptr <= BUFFER && f0.rba == s.rba
    ensures FlushedSoFar(w, cap, SendOne(w, cap, f0, s), queue0, socket.Queue(), socket.rba, callbacks, buf[..wptr], cptr, out)
    ensures cap.Packet? ==>
              Heads(w, buf[..wptr], cptr, hasReads, out, CycleTaken(w, cap.room, h0, s.cycle.ops, s.checked, 0))
  {
    hide Buffered, Place, CycleBytes, NextAddress, OverflowAt, RecordAlignment, Unanswered, FindRead, FindBus, Fits, Heads,
         CycleTaken;
    callbacks := callbacks0;
    var ok, at, readback;
    ghost var frames;
    ok, at, readback, wptr, cptr, hasReads, frames, out :=
      PackCycle(w, cap, buf, link, wptr0, cptr0, s, hasReads0, f0.frames, out0, h0);
    if !ok {
      callbacks := callbacks + [Callback(s.cycle, Some(at), OVERFLOW)];
    } else if !readback {
      callbacks := callbacks + [Callback(s.cycle, Some(0), OK)];
    } else {
      var write := FindReadFrom(s.cycle.ops, 0);
      var status := |s.cycle.ops|;
      if s.checked {
        status := FindBusFrom(s.cycle.ops, 0);
      }
      ConcatAssoc(queue0, f0.queue, [ResponseFor(s)]);
      socket.Push(Response(s.rba, s.deadline, s.cycle, write, status));
    }
  }

  /** The pass over the closed cycles, oldest first. */
  method FlushList(w: Width, cap: Cap, device: nat, socket: Socket, buf: array<Byte>, link: Channel, list: seq<Ready>,
                   memory: seq<bool>, wptr0: nat, ghost f0: Flushed)
    returns (wptr: nat, cptr: nat, hasReads: bool, callbacks: seq<Callback>, ghost f: Flushed,
             ghost out: seq<seq<Byte>>)
    requires buf.Length == BUFFER && wptr0 <= BUFFER && (cap.Packet? ==> RecordAlignment(w) + cap.room <= BUFFER)
    requires socket.Valid() && |memory| == |list| && forall i :: 0 <= i < |list| ==> |list[i].ops| < 0x1_0000
    requires f0 == Flushed([], [], [], NOTHING, socket.rba)
    requires Buffered(w, cap, NOTHING, buf[..wptr0], wptr0, [], [])
    requires cap.Packet? ==> Heads(w, buf[..wptr0], wptr0, false, [], EMPTY)
    modifies socket, buf, link`sent
    ensures socket.Valid() && socket.done == old(socket.done) && socket.timeCache == old(socket.timeCache)
    ensures f == FlushAll(w, cap, device, (socket.timeCache + 5) % 0x1_0000, f0, list, memory)
    ensures wptr <= BUFFER && link.sent == old(link.sent) + out
    ensures FlushedSoFar(w, cap, f, old(socket.Queue()), socket.Queue(), socket.rba, callbacks, buf[..wptr], cptr, out)
    ensures cap.Packet? ==> Heads(w, buf[..wptr], cptr, hasReads, out, FlushTaken(w, cap.room, EMPTY, list, memory))
  {
    hide *;
    wptr, cptr, hasReads, callbacks, f, out := wptr0, wptr0, false, [], f0, [];
    ghost var h := EMPTY;
    ghost var q0, deadline := socket.Queue(), (socket.timeCache + 5) % 0x1_0000;
    FlushStarts(w, cap, list, memory, socket, q0, f, buf[..wptr], cptr);
    for i := 0 to |list|
      invariant wptr <= BUFFER && socket.Valid() && Claimable(f.rba)
      invariant FlushedSoFar(w, cap, f, q0, socket.Queue(), socket.rba, callbacks, buf[..wptr], cptr, out)
      invariant FlushAll(w, cap, device, deadline, f, list[i..], memory[i..])
                == FlushAll(w, cap, device, deadline, f0, list, memory)
      invariant link.sent == old(link.sent) + out
      invariant socket.done == old(socket.done) && socket.timeCache == old(socket.timeCache)
      invariant cap.Packet? ==>
                  && Heads(w, buf[..wptr], cptr, hasReads, out, h)
                  && FlushTaken(w, cap.room, h, list[i..], memory[i..]) == FlushTaken(w, cap.room, EMPTY, list, memory)
    {
      ghost var out1 := out;
      if cap.Packet? {
        FlushTakenNext(w, cap.room, h, list, memory, i);
      }
      FlushNext(w, cap, device, deadline, f, list, memory, i);
      wptr, cptr, hasReads, callbacks, f, out :=
        FlushCycle(w, cap, device, socket, buf, link, list[i], memory[i], wptr, cptr, hasReads, callbacks, f, q0, out, h);
      if cap.Packet? {
        h := ReadyTaken(w, cap.room, h, list[i], memory[i]);
      }
      SentMore(old(link.sent), link.sent, [], out1, out);
    }
    FlushEnds(w, cap, device, deadline, f, list[|list|..], memory[|list|..]);
    if cap.Packet? {
      FlushTakenEnds(w, cap.room, h, list[|list|..], memory[|list|..]);
    }
  }

  lemma FlushTakenNext(w: Width, room: nat, h: Head, cycles: seq<Ready>, memory: seq<bool>, i: nat)
    requires |memory| == |cycles| && i < |cycles|
    ensures FlushTaken(w, room, h, cycles[i..], memory[i..])
            == FlushTaken(w, room, ReadyTaken(w, room, h, cycles[i], memory[i]), cycles[i + 1..], memory[i + 1..])
  {
    hide ReadyTaken;
    assert cycles[i..][1..] == cycles[i + 1..] && memory[i..][1..] == memory[i + 1..];
  }

  lemma FlushTakenEnds(w: Width, room: nat, h: Head, cycles: seq<Ready>, memory: seq<bool>)
    requires cycles == [] && memory == []
    ensures FlushTaken(w, room, h, cycles, memory) == h
  {
  }

  /** Flushes a device: every closed cycle, oldest first, gets its fate, and the messages go out. memory tells, cycle by
      cycle, whether a response could be allocated. */
  method Flush(device: Device, socket: Socket, memory: seq<bool>)
    returns (status: Status, callbacks: seq<Callback>, ghost f: Flushed, ghost out: seq<seq<Byte>>)
    requires socket.Valid() && device.Flushable() && |memory| == |device.ready|
    modifies device`ready, socket, device.link`sent
    ensures device.connected == old(device.connected)
    ensures !device.connected ==>
              status == FAIL && callbacks == [] && device.ready == old(device.ready)
              && socket.Queue() == old(socket.Queue()) && socket.rba == old(socket.rba)
              && device.link.sent == old(device.link.sent) && out == []
    ensures device.connected ==>
              && status == OK && device.ready == []
              && f == FlushAll(device.w, device.Capacity(), device.handle, (socket.timeCache + 5) % 0x1_0000,
                               Flushed([], [], [], NOTHING, old(socket.rba)), Reverse(old(device.ready)), memory)
              && callbacks == f.callbacks
              && socket.Queue() == old(socket.Queue()) + f.queue && socket.rba == f.rba
              && device.link.sent == old(device.link.sent) + out && Messages(device.w, device.Capacity(), f.frames, out)
              && (device.mtu != 0 ==>
                    Flagged(out) == PromisesOf(device.w, device.Capacity().room, Reverse(old(device.ready)), memory))
    ensures socket.Valid() && socket.done == old(socket.done) && socket.timeCache == old(socket.timeCache)
  {
    callbacks, f, out := [], Flushed([], [], [], NOTHING, socket.rba), [];
    if !device.connected {
      return FAIL, callbacks, f, out;
    }
    callbacks, f, out := FlushInto(device.w, device.Capacity(), device.handle, device.ready, socket, device.link, memory);
    device.ready := [];
    status := OK;
  }

  /** Flushes closed cycles, latest first in the list, over a link. */
  method FlushInto(w: Width, cap: Cap, device: nat, ready: seq<Ready>, socket: Socket, link: Channel, memory: seq<bool>)
    returns (callbacks: seq<Callback>, ghost f: Flushed, ghost out: seq<seq<Byte>>)
    requires cap.Packet? ==> RecordAlignment(w) + cap.room <= BUFFER
    requires socket.Valid() && |memory| == |ready| && forall i :: 0 <= i < |ready| ==> |ready[i].ops| < 0x1_0000
    modifies socket, link`sent
    ensures socket.Valid() && socket.done == old(socket.done) && socket.timeCache == old(socket.timeCache)
    ensures Claimable(old(socket.rba))
    ensures f == FlushAll(w, cap, device, (socket.timeCache + 5) % 0x1_0000,
                          Flushed([], [], [], NOTHING, old(socket.rba)), Reverse(ready), memory)
    ensures callbacks == f.callbacks && socket.Queue() == old(socket.Queue()) + f.queue && socket.rba == f.rba
    ensures link.sent == old(link.sent) + out && Messages(w, cap, f.frames, out)
    ensures cap.Packet? ==> Flagged(out) == PromisesOf(w, cap.room, Reverse(ready), memory)
  {
    hide *;
    ClaimableAddress(socket);
    var buf := new Byte[BUFFER](_ => 0);
    var wptr := Begin(w, cap, buf);
    var list := Flip(ready);
    ReverseShort(ready);
    f := Flushed([], [], [], NOTHING, socket.rba);
    var cptr, hasReads;
    wptr, cptr, hasReads, callbacks, f, out := FlushList(w, cap, device, socket, buf, link, list, memory, wptr, f);
    FlushedParts(w, cap, f, old(socket.Queue()), socket.Queue(), socket.rba, callbacks, buf[..wptr], cptr, out);
    ghost var out1 := out;
    ghost var h := EMPTY;
    if cap.Packet? {
      h := FlushTaken(w, cap.room, EMPTY, list, memory);
      PromisesAre(w, cap.room, list, memory);
    }
    out := End(w, cap, buf, link, wptr, cptr, hasReads, f.frames, out, h);
    SentMore(old(link.sent), link.sent, [], out1, out);
  }

  lemma ClaimableAddress(socket: Socket)
    requires socket.Valid()
    ensures Claimable(socket.rba)
  {
  }

  lemma ReverseShort(ready: seq<Ready>)
    requires forall i :: 0 <= i < |ready| ==> |ready[i].ops| < 0x1_0000
    ensures |Reverse(ready)| == |ready| && forall i :: 0 <= i < |ready| ==> |Reverse(ready)[i].ops| < 0x1_0000
  {
  }

  lemma FlushStarts(w: Width, cap: Cap, list: seq<Ready>, memory: seq<bool>, socket: Socket, q: seq<Response>,
                    f: Flushed, line: seq<Byte>, cptr: nat)
    requires |memory| == |list| && socket.Valid() && f.rba == socket.rba
    requires f.frames == NOTHING && f.queue == [] && f.callbacks == [] && Buffered(w, cap, NOTHING, line, cptr, [], [])
    ensures list[0..] == list && memory[0..] == memory && Claimable(f.rba)
    ensures FlushedSoFar(w, cap, f, q, q, f.rba, [], line, cptr, [])
  {
    hide Buffered, Sound;
    NilConcat(q);
  }

  lemma FlushNext(w: Width, cap: Cap, device: nat, deadline: nat, f: Flushed, cycles: seq<Ready>, memory: seq<bool>,
                  i: nat)
    requires Claimable(f.rba) && |memory| == |cycles| && i < |cycles|
    ensures var g := FlushOne(w, cap, device, deadline, f, cycles[i], memory[i]);
            Claimable(g.rba)
            && FlushAll(w, cap, device, deadline, f, cycles[i..], memory[i..])
               == FlushAll(w, cap, device, deadline, g, cycles[i + 1..], memory[i + 1..])
  {
    hide FlushOne;
    FlushOneClaims(w, cap, device, deadline, f, cycles[i], memory[i]);
    assert cycles[i..][1..] == cycles[i + 1..] && memory[i..][1..] == memory[i + 1..];
  }

  lemma FlushEnds(w: Width, cap: Cap, device: nat, deadline: nat, f: Flushed, cycles: seq<Ready>, memory: seq<bool>)
    requires cycles == [] && memory == [] && Claimable(f.rba)
    ensures FlushAll(w, cap, device, deadline, f, cycles, memory) == f
  {
  }

  lemma FlushedParts(w: Width, cap: Cap, f: Flushed, q0: seq<Response>, q: seq<Response>, rba: nat,
                     callbacks: seq<Callback>, line: seq<Byte>, cptr: nat, out: seq<seq<Byte>>)
    requires FlushedSoFar(w, cap, f, q0, q, rba, callbacks, line, cptr, out)
    ensures Buffered(w, cap, f.frames, line, cptr, out, [])
    ensures q == q0 + f.queue && rba == f.rba && callbacks == f.callbacks
  {
    hide Buffered;
  }
}
