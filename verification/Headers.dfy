/** What the no-reads promises in the packet headers of a flush are worth. */
module Headers {
  import opened Seqs
  import opened Widths
  import opened Operations
  import opened Validate
  import opened Records
  import opened Packing
  import opened PackingFacts
  import opened Runs
  import opened Exchange
  import opened Emitter
  import opened Buffer
  import opened Framing
  import opened Sockets
  import opened Flushing
  import opened Promises

  /** Some record asks for answers. */
  predicate Reading(rs: seq<Record>) {
    exists i :: 0 <= i < |rs| && rs[i].raddrs != []
  }

  /** A packet: its records; those of them that were already packed when the packet before it was sent; the records packed
      since then, up to when this one was sent; and whether its header promises no reads. */
  datatype Parcel = Parcel(records: seq<Record>, kept: seq<Record>, window: seq<Record>, promised: bool)

  /** The sender's buffer, record by record. */
  datatype Pile = Pile(collected: seq<Record>, partial: seq<Record>, kept: seq<Record>, window: seq<Record>, promised: bool,
                       sent: seq<Parcel>)

  const NO_PILE: Pile := Pile([], [], [], [], false, [])

  function Off(p: Pile): Pile {
    var promised := p.promised || !Reading(p.window);
    Pile([], p.partial, p.partial, [], promised, p.sent + [Parcel(p.collected, p.kept, p.window, promised)])
  }

  function RecordBytes(w: Width, r: Record): nat {
    RecordAlignment(w) + (RunWords(|r.wvals|) + RunWords(|r.raddrs|)) * Alignment(w)
  }

  function Bytes(w: Width, rs: seq<Record>): nat {
    if rs == [] then 0 else RecordBytes(w, rs[0]) + Bytes(w, rs[1..])
  }

  function Fitted(w: Width, room: nat, p: Pile, r: Record): Pile {
    if p.collected != [] && Bytes(w, p.collected) + Bytes(w, p.partial) + RecordBytes(w, r) > room then Off(p) else p
  }

  function Put(w: Width, room: nat, p: Pile, r: Record): (bool, Pile) {
    var q := Fitted(w, room, p, r);
    if Bytes(w, q.collected) + Bytes(w, q.partial) + RecordBytes(w, r) <= room
    then (true, q.(partial := q.partial + [r], window := q.window + [r])) else (false, q.(partial := []))
  }

  /** The records of a cycle. */
  function PutAll(w: Width, room: nat, p: Pile, rs: seq<Record>): Pile
    decreases rs
  {
    if rs == [] then p.(collected := p.collected + p.partial, partial := [])
    else
      var (ok, q) := Put(w, room, p, rs[0]);
      if ok then PutAll(w, room, q, rs[1..]) else q
  }

  /** What the sender sees of it. */
  function Shown(w: Width, p: Pile): Head {
    Head(Bytes(w, p.collected), Bytes(w, p.partial), Reading(p.window), p.promised,
         seq(|p.sent|, i requires 0 <= i < |p.sent| => p.sent[i].promised))
  }

  // ---------------------------------------------------------------------------
  // The sender keeps this book
  // ---------------------------------------------------------------------------

  lemma BytesPositive(w: Width, rs: seq<Record>)
    ensures Bytes(w, rs) == 0 <==> rs == []
  {
    AlignmentFits(w);
    hide Alignment, RecordAlignment;
  }

  lemma {:induction false} BytesConcat(w: Width, a: seq<Record>, b: seq<Record>)
    ensures Bytes(w, a + b) == Bytes(w, a) + Bytes(w, b)
  {
    hide RecordBytes;
    if a == [] {
      assert a + b == b;
    } else {
      assert (a + b)[1..] == a[1..] + b;
      BytesConcat(w, a[1..], b);
    }
  }

  lemma BytesOne(w: Width, r: Record)
    ensures Bytes(w, [r]) == RecordBytes(w, r)
  {
    hide RecordBytes;
    assert [r][1..] == [];
  }

  lemma ReadingMore(rs: seq<Record>, r: Record)
    ensures Reading(rs + [r]) <==> Reading(rs) || r.raddrs != []
  {
    if Reading(rs) {
      var i :| 0 <= i < |rs| && rs[i].raddrs != [];
      assert (rs + [r])[i].raddrs != [];
    }
    assert (rs + [r])[|rs|] == r;
  }

  lemma OffShown(w: Width, p: Pile)
    ensures Shown(w, Off(p)) == SentOff(Shown(w, p))
  {
    hide Reading, RecordBytes;
    assert Reading([]) == false by { NothingReads(); }
  }

  lemma NothingReads()
    ensures !Reading([])
  {
  }

  lemma PutShown(w: Width, room: nat, p: Pile, r: Record)
    ensures var (ok, q) := Put(w, room, p, r);
            Taken(room, Shown(w, p), RecordBytes(w, r), r.raddrs != []) == (ok, Shown(w, q))
  {
    hide RecordBytes, Off, SentOff;
    BytesPositive(w, p.collected);
    OffShown(w, p);
    var q := Fitted(w, room, p, r);
    assert Roomed(room, Shown(w, p), RecordBytes(w, r)) == Shown(w, q);
    hide Fitted, Roomed;
    BytesConcat(w, q.partial, [r]);
    BytesOne(w, r);
    ReadingMore(q.window, r);
    hide Reading;
    TakenRoomed(room, Shown(w, p), RecordBytes(w, r), r.raddrs != []);
    hide Taken;
  }

  lemma RecordPlanned(w: Width, rba: nat, ops: seq<Operation>, p: Plan)
    requires p.wcount + p.rcount <= |ops| && (p.status ==> p.rcount == 0)
    ensures RecordBytes(w, RecordOf(w, rba, ops, p)) == PlanLength(w, p)
    ensures RecordOf(w, rba, ops, p).raddrs != [] <==> Asks(p)
  {
    PlannedLength(w, p, if p.status then 1 else p.rcount);
    hide Alignment, RecordAlignment, PlanLength, PlanSelect;
  }

  /** The records of a cycle are what the sender plans one by one. */
  lemma {:induction false} CycleShown(w: Width, room: nat, p: Pile, rba: nat, ops: seq<Operation>, checked: bool,
                                      awaiting: nat)
    ensures Shown(w, PutAll(w, room, p, RecordsOf(w, rba, ops, checked, awaiting)))
            == CycleTaken(w, room, Shown(w, p), ops, checked, awaiting)
    decreases |ops|, awaiting
  {
    hide *;
    var rs := RecordsOf(w, rba, ops, checked, awaiting);
    if Finished(ops, checked, awaiting) {
      CycleOver(w, room, p, rba, ops, checked, awaiting);
    } else {
      var plan := NextPlan(w, ops, checked, awaiting);
      var rest := ops[plan.wcount + plan.rcount..];
      var r, more := RecordOf(w, rba, ops, plan), RecordsOf(w, rba, rest, checked, plan.awaiting);
      CycleGoesOn(w, rba, ops, checked, awaiting);
      RecordPlanned(w, rba, ops, plan);
      TakenStep(w, room, Shown(w, p), ops, checked, awaiting);
      PutShown(w, room, p, r);
      PutAllStep(w, room, p, r, more);
      if Put(w, room, p, r).0 {
        CycleShown(w, room, Put(w, room, p, r).1, rba, rest, checked, plan.awaiting);
      }
    }
  }

  lemma CycleOver(w: Width, room: nat, p: Pile, rba: nat, ops: seq<Operation>, checked: bool, awaiting: nat)
    requires Finished(ops, checked, awaiting)
    ensures Shown(w, PutAll(w, room, p, RecordsOf(w, rba, ops, checked, awaiting)))
            == CycleTaken(w, room, Shown(w, p), ops, checked, awaiting)
  {
    hide Reading, RecordBytes;
    BytesConcat(w, p.collected, p.partial);
  }

  lemma CycleGoesOn(w: Width, rba: nat, ops: seq<Operation>, checked: bool, awaiting: nat)
    requires !Finished(ops, checked, awaiting)
    ensures var plan := NextPlan(w, ops, checked, awaiting);
            var n := plan.wcount + plan.rcount;
            && n <= |ops| && (plan.status ==> plan.rcount == 0) && (n > 0 || plan.awaiting < awaiting)
            && RecordsOf(w, rba, ops, checked, awaiting)
               == [RecordOf(w, rba, ops, plan)] + RecordsOf(w, rba, ops[n..], checked, plan.awaiting)
  {
    hide NextPlan, RecordOf;
    PlanProgress(w, ops, checked, awaiting);
  }

  lemma PutAllStep(w: Width, room: nat, p: Pile, r: Record, more: seq<Record>)
    ensures var (ok, q) := Put(w, room, p, r);
            PutAll(w, room, p, [r] + more) == if ok then PutAll(w, room, q, more) else q
  {
    hide Put;
    assert ([r] + more)[1..] == more;
  }

  // ---------------------------------------------------------------------------
  // The packets are those of the flush
  // ---------------------------------------------------------------------------

  /** The frames hold the bytes of the records in the book. */
  ghost predicate Same(w: Width, p: Pile, f: Frames) {
    && p.partial == [] && AllWellFormed(w, p.collected) && Flat(f.current) == EncodeAll(w, p.collected)
    && (p.collected == [] <==> f.current == [])
    && |f.packets| == |p.sent|
    && forall i :: 0 <= i < |p.sent| ==>
         AllWellFormed(w, p.sent[i].records) && Flat(f.packets[i]) == EncodeAll(w, p.sent[i].records)
  }

  /** Where the records of a cycle go: behind the collected ones if there is room for all of them; else the collected ones
      have been sent, and the cycle stands alone, or is dropped if it is too long even then. */
  lemma {:induction false} CyclePut(w: Width, room: nat, p: Pile, rs: seq<Record>)
    requires rs != [] || p.partial != []
    requires Bytes(w, p.partial) <= room && (p.collected != [] ==> Bytes(w, p.collected) + Bytes(w, p.partial) <= room)
    ensures var q, all := PutAll(w, room, p, rs), p.partial + rs;
            q.partial == []
            && if Bytes(w, p.collected) + Bytes(w, all) <= room then q.collected == p.collected + all && q.sent == p.sent
               else
                 && q.collected == (if Bytes(w, all) <= room then all else [])
                 && (if p.collected == [] then q.sent == p.sent
                     else |q.sent| == |p.sent| + 1 && q.sent[..|p.sent|] == p.sent && q.sent[|p.sent|].records == p.collected)
    decreases rs
  {
    if rs == [] {
      NilConcat(p.partial);
      BytesConcat(w, p.collected, p.partial);
    } else {
      var r, rest := rs[0], rs[1..];
      assert p.partial + rs == (p.partial + [r]) + rest;
      var (ok, q) := Put(w, room, p, r);
      SplitBytes(w, p.partial, r, rest);
      PutPut(w, room, p, r);
      assert rs == [r] + rest;
      assert PutAll(w, room, p, rs) == if ok then PutAll(w, room, q, rest) else q;
      hide PutAll, Put, Bytes;
      if ok {
        CyclePut(w, room, q, rest);
      }
    }
  }

  lemma SplitBytes(w: Width, partial: seq<Record>, r: Record, rest: seq<Record>)
    ensures Bytes(w, partial + ([r] + rest)) == Bytes(w, partial) + RecordBytes(w, r) + Bytes(w, rest)
    ensures Bytes(w, partial + [r]) == Bytes(w, partial) + RecordBytes(w, r)
    ensures Bytes(w, []) == 0
  {
    hide RecordBytes;
    BytesConcat(w, partial, [r] + rest);
    BytesConcat(w, [r], rest);
    BytesOne(w, r);
    BytesConcat(w, partial, [r]);
  }

  /** One record put, in lengths. */
  lemma PutPut(w: Width, room: nat, p: Pile, r: Record)
    ensures var (ok, q) := Put(w, room, p, r);
            var total := Bytes(w, p.partial) + RecordBytes(w, r);
            var sends := p.collected != [] && Bytes(w, p.collected) + total > room;
            && q.collected == (if sends then [] else p.collected)
            && (if sends then |q.sent| == |p.sent| + 1 && q.sent[..|p.sent|] == p.sent && q.sent[|p.sent|].records == p.collected
                else q.sent == p.sent)
            && (ok <==> (if sends then 0 else Bytes(w, p.collected)) + total <= room)
            && q.partial == if ok then p.partial + [r] else []
  {
    hide RecordBytes, Reading;
  }

  lemma {:induction false} BytesEncoded(w: Width, rs: seq<Record>)
    requires AllWellFormed(w, rs)
    ensures |EncodeAll(w, rs)| == Bytes(w, rs)
  {
    hide WellFormed, Encode, RecordBytes;
    if rs != [] {
      EncodeLength(w, rs[0]);
      BytesEncoded(w, rs[1..]);
      OneEncoded(w, rs[0]);
    }
  }

  lemma OneEncoded(w: Width, r: Record)
    requires WellFormed(w, r)
    ensures |Encode(w, r)| == RecordBytes(w, r)
  {
    EncodeLength(w, r);
    hide WellFormed, Alignment, RecordAlignment, Encode;
  }

  function ReadyPut(w: Width, room: nat, p: Pile, rba: nat, c: Ready, memory: bool): Pile {
    if Passes(w, c, memory) then
      var ops := CheckAll(w, c.ops).0;
      PutAll(w, room, p, RecordsOf(w, rba, ops, ops[0].checked, 0))
    else p
  }

  /** The book of a flush. */
  function Booked(w: Width, room: nat, device: nat, deadline: nat, f: Flushed, cycles: seq<Ready>, memory: seq<bool>,
                  p: Pile): Pile
    requires Claimable(f.rba) && |memory| == |cycles|
    decreases cycles
  {
    if cycles == [] then p
    else
      FlushOneClaims(w, Packet(room), device, deadline, f, cycles[0], memory[0]);
      Booked(w, room, device, deadline, FlushOne(w, Packet(room), device, deadline, f, cycles[0], memory[0]), cycles[1..],
             memory[1..], ReadyPut(w, room, p, f.rba, cycles[0], memory[0]))
  }

  lemma ReadyShown(w: Width, room: nat, p: Pile, rba: nat, c: Ready, memory: bool)
    ensures Shown(w, ReadyPut(w, room, p, rba, c, memory)) == ReadyTaken(w, room, Shown(w, p), c, memory)
  {
    if Passes(w, c, memory) {
      var ops := CheckAll(w, c.ops).0;
      hide RecordsOf, PutAll, CycleTaken, Shown, CheckAll;
      CycleShown(w, room, p, rba, ops, ops[0].checked, 0);
    }
  }

  lemma {:induction false} BookShown(w: Width, room: nat, device: nat, deadline: nat, f: Flushed, cycles: seq<Ready>,
                                     memory: seq<bool>, p: Pile)
    requires Claimable(f.rba) && |memory| == |cycles|
    ensures Shown(w, Booked(w, room, device, deadline, f, cycles, memory, p))
            == FlushTaken(w, room, Shown(w, p), cycles, memory)
    decreases cycles
  {
    hide Shown, ReadyPut, ReadyTaken, FlushOne;
    if cycles != [] {
      FlushOneClaims(w, Packet(room), device, deadline, f, cycles[0], memory[0]);
      ReadyShown(w, room, p, f.rba, cycles[0], memory[0]);
      BookShown(w, room, device, deadline, FlushOne(w, Packet(room), device, deadline, f, cycles[0], memory[0]), cycles[1..],
                memory[1..], ReadyPut(w, room, p, f.rba, cycles[0], memory[0]));
    }
  }

  /** A cycle in the book and in the frames. */
  lemma CycleSame(w: Width, room: nat, p: Pile, f: Frames, rs: seq<Record>)
    requires Same(w, p, f) && Bytes(w, p.collected) <= room && rs != [] && AllWellFormed(w, rs)
    ensures var q := PutAll(w, room, p, rs);
            Same(w, q, AddCycle(room, f, EncodeAll(w, rs))) && Bytes(w, q.collected) <= room
  {
    var q, g := PutAll(w, room, p, rs), AddCycle(room, f, EncodeAll(w, rs));
    NilConcat(rs);
    NilBytes(w);
    CyclePut(w, room, p, rs);
    BytesEncoded(w, rs);
    BytesEncoded(w, p.collected);
    EncodeAllConcat(w, p.collected, rs);
    BytesConcat(w, p.collected, rs);
    FlatConcat(f.current, [EncodeAll(w, rs)]);
    FlatOne(EncodeAll(w, rs));
    hide PutAll, EncodeAll, Flat, WellFormed, Bytes;
    SameAdded(w, room, p, f, rs, q, g);
  }

  lemma NilBytes(w: Width)
    ensures Bytes(w, []) == 0 && EncodeAll(w, []) == [] && Flat([]) == []
  {
  }

  lemma SameAdded(w: Width, room: nat, p: Pile, f: Frames, rs: seq<Record>, q: Pile, g: Frames)
    requires Same(w, p, f) && rs != [] && AllWellFormed(w, rs) && g == AddCycle(room, f, EncodeAll(w, rs))
    requires |EncodeAll(w, rs)| == Bytes(w, rs) && |Flat(f.current)| == Bytes(w, p.collected)
    requires Flat(f.current + [EncodeAll(w, rs)]) == Flat(f.current) + EncodeAll(w, rs) && Flat([EncodeAll(w, rs)]) == EncodeAll(w, rs)
    requires Flat([]) == [] && EncodeAll(w, []) == []
    requires AllWellFormed(w, p.collected + rs)
    requires EncodeAll(w, p.collected + rs) == EncodeAll(w, p.collected) + EncodeAll(w, rs)
    requires q.partial == []
    requires if Bytes(w, p.collected) + Bytes(w, rs) <= room then q.collected == p.collected + rs && q.sent == p.sent
             else
               && q.collected == (if Bytes(w, rs) <= room then rs else [])
               && (if p.collected == [] then q.sent == p.sent
                   else |q.sent| == |p.sent| + 1 && q.sent[..|p.sent|] == p.sent && q.sent[|p.sent|].records == p.collected)
    ensures Same(w, q, g)
  {
    hide EncodeAll, Flat, Bytes, WellFormed;
    assert forall i :: 0 <= i < |p.sent| && p.sent == q.sent[..|p.sent|] ==> q.sent[i] == p.sent[i];
  }

  lemma CycleRecords(w: Width, s: Sent)
    requires AllFit(w, s.cycle.ops) && s.rba < 0xFFFF && s.cycle.ops != []
    ensures var rs := RecordsOf(w, s.rba, s.cycle.ops, s.checked, 0);
            rs != [] && AllWellFormed(w, rs) && CycleBytes(w, s) == EncodeAll(w, rs)
  {
    CycleWellFormed(w, s.rba, s.cycle.ops, s.checked, 0);
    CycleClosedOnce(w, s.rba, s.cycle.ops, s.checked, 0);
    hide RecordsOf, EncodeAll, WellFormed, AllFit;
  }

  lemma OneSame(w: Width, room: nat, device: nat, deadline: nat, f: Flushed, c: Ready, memory: bool, p: Pile)
    requires Claimable(f.rba) && Same(w, p, f.frames) && Bytes(w, p.collected) <= room
    ensures var q := ReadyPut(w, room, p, f.rba, c, memory);
            Same(w, q, FlushOne(w, Packet(room), device, deadline, f, c, memory).frames) && Bytes(w, q.collected) <= room
  {
    FlushOneIs(w, Packet(room), device, deadline, f, c, memory);
    ReadyPutIs(w, room, p, f.rba, c, memory);
    BelowTop(f.rba);
    hide FlushOne, SendOne, CheckAll, AllFit, Same, Bytes, Claimable, ReadyPut;
    if Passes(w, c, memory) {
      var s := Attempt(w, device, deadline, f, c);
      AttemptIs(w, device, deadline, f, c);
      SendFrames(w, room, f, s);
      CycleRecords(w, s);
      CycleSame(w, room, p, f.frames, RecordsOf(w, s.rba, s.cycle.ops, s.checked, 0));
    }
  }

  lemma BelowTop(rba: nat)
    requires Claimable(rba)
    ensures rba < 0xFFFF
  {
  }

  lemma AttemptIs(w: Width, device: nat, deadline: nat, f: Flushed, c: Ready)
    requires c.ops != []
    ensures var s, ops := Attempt(w, device, deadline, f, c), CheckAll(w, c.ops).0;
            s.rba == f.rba && s.cycle.ops == ops && ops != [] && s.checked == ops[0].checked
  {
    hide CheckAll;
  }

  lemma ReadyPutIs(w: Width, room: nat, p: Pile, rba: nat, c: Ready, memory: bool)
    ensures Passes(w, c, memory) ==>
              c.ops != []
              && ReadyPut(w, room, p, rba, c, memory)
                 == PutAll(w, room, p, RecordsOf(w, rba, CheckAll(w, c.ops).0, CheckAll(w, c.ops).0[0].checked, 0))
    ensures !Passes(w, c, memory) ==> ReadyPut(w, room, p, rba, c, memory) == p
  {
    hide CheckAll, PutAll, RecordsOf;
  }

  lemma {:induction false} BookSame(w: Width, room: nat, device: nat, deadline: nat, f: Flushed, cycles: seq<Ready>,
                                    memory: seq<bool>, p: Pile)
    requires Claimable(f.rba) && |memory| == |cycles| && Same(w, p, f.frames) && Bytes(w, p.collected) <= room
    ensures Same(w, Booked(w, room, device, deadline, f, cycles, memory, p),
                 FlushAll(w, Packet(room), device, deadline, f, cycles, memory).frames)
    decreases cycles
  {
    hide FlushOne, ReadyPut, Same, Bytes, Claimable;
    if cycles != [] {
      FlushOneClaims(w, Packet(room), device, deadline, f, cycles[0], memory[0]);
      OneSame(w, room, device, deadline, f, cycles[0], memory[0], p);
      BookSame(w, room, device, deadline, FlushOne(w, Packet(room), device, deadline, f, cycles[0], memory[0]), cycles[1..],
               memory[1..], ReadyPut(w, room, p, f.rba, cycles[0], memory[0]));
    }
  }

  // ---------------------------------------------------------------------------
  // What a promise says
  // ---------------------------------------------------------------------------

  /** The packets of the book: the first has kept nothing; each record of a packet was kept from before the packet before it
      was sent, or packed since; and a packet promises no reads exactly if, for it or for a packet before it, no record
      packed since the packet before that one reads. */
  ghost predicate Booking(sent: seq<Parcel>) {
    && (sent != [] ==> sent[0].kept == [])
    && (forall i, r :: 0 <= i < |sent| && r in sent[i].records ==> r in sent[i].kept || r in sent[i].window)
    && (forall i :: 0 <= i < |sent| ==> (sent[i].promised <==> exists k :: 0 <= k <= i && !Reading(sent[k].window)))
  }

  ghost predicate Balanced(p: Pile) {
    && Booking(p.sent)
    && (p.sent == [] ==> p.kept == [])
    && (forall r :: r in p.collected || r in p.partial ==> r in p.kept || r in p.window)
    && (p.promised <==> exists k :: 0 <= k < |p.sent| && !Reading(p.sent[k].window))
  }

  lemma OffBalanced(p: Pile)
    requires Balanced(p)
    ensures Balanced(Off(p))
  {
    hide Reading;
    var q, n := Off(p), |p.sent|;
    assert q.sent == p.sent + [Parcel(p.collected, p.kept, p.window, q.promised)];
    hide Off;
    BookedMore(p.sent, q.sent[n]);
    assert forall k :: 0 <= k < n ==> q.sent[k] == p.sent[k];
  }

  lemma BookedMore(sent: seq<Parcel>, last: Parcel)
    requires Booking(sent) && (sent == [] ==> last.kept == [])
    requires forall r :: r in last.records ==> r in last.kept || r in last.window
    requires last.promised <==> !Reading(last.window) || exists k :: 0 <= k < |sent| && !Reading(sent[k].window)
    ensures Booking(sent + [last])
  {
    hide Reading;
    var all, n := sent + [last], |sent|;
    assert forall k :: 0 <= k < n ==> all[k] == sent[k];
    forall i | 0 <= i < |all|
      ensures all[i].promised <==> exists k :: 0 <= k <= i && !Reading(all[k].window)
    {
      if i < n {
        assert (exists k :: 0 <= k <= i && !Reading(all[k].window)) <==> (exists k :: 0 <= k <= i && !Reading(sent[k].window));
      } else {
        assert all[n] == last;
        if k :| 0 <= k < n && !Reading(sent[k].window) {
          assert !Reading(all[k].window);
        }
      }
    }
  }

  lemma PutBalanced(w: Width, room: nat, p: Pile, r: Record)
    requires Balanced(p)
    ensures Balanced(Put(w, room, p, r).1)
  {
    OffBalanced(p);
    hide Reading, Bytes, RecordBytes, Off, Booking;
  }

  lemma {:induction false} PutAllBalanced(w: Width, room: nat, p: Pile, rs: seq<Record>)
    requires Balanced(p)
    ensures Balanced(PutAll(w, room, p, rs))
    decreases rs
  {
    if rs == [] {
      hide Booking, Reading;
    } else {
      PutBalanced(w, room, p, rs[0]);
      hide Put, Balanced;
      if Put(w, room, p, rs[0]).0 {
        PutAllBalanced(w, room, Put(w, room, p, rs[0]).1, rs[1..]);
      }
    }
  }

  lemma {:induction false} BookBalanced(w: Width, room: nat, device: nat, deadline: nat, f: Flushed, cycles: seq<Ready>,
                                        memory: seq<bool>, p: Pile)
    requires Claimable(f.rba) && |memory| == |cycles| && Balanced(p)
    ensures Balanced(Booked(w, room, device, deadline, f, cycles, memory, p))
    decreases cycles
  {
    hide FlushOne, Balanced, PutAll, CheckAll, RecordsOf;
    if cycles != [] {
      FlushOneClaims(w, Packet(room), device, deadline, f, cycles[0], memory[0]);
      if Passes(w, cycles[0], memory[0]) {
        var ops := CheckAll(w, cycles[0].ops).0;
        PutAllBalanced(w, room, p, RecordsOf(w, f.rba, ops, ops[0].checked, 0));
      }
      BookBalanced(w, room, device, deadline, FlushOne(w, Packet(room), device, deadline, f, cycles[0], memory[0]), cycles[1..],
                   memory[1..], ReadyPut(w, room, p, f.rba, cycles[0], memory[0]));
    }
  }

  /** The packets of a flush, record by record. */
  function Parcels(w: Width, room: nat, device: nat, deadline: nat, rba: nat, cycles: seq<Ready>, memory: seq<bool>)
    : seq<Parcel>
    requires Claimable(rba) && |memory| == |cycles|
  {
    var p := Booked(w, room, device, deadline, Flushed([], [], [], NOTHING, rba), cycles, memory, NO_PILE);
    if p.collected != [] then Off(p).sent else p.sent
  }

  /** The parcels are what a flush sends, and their promises are those in its headers. A promise in the header of packet i is
      there exactly if no record packed between some packet up to i and the one before that reads. So it is true of the
      first packet; later ones may hold reads that were already packed when the packet before was sent, or promise only
      because an earlier one did. */
  lemma PromisesExact(w: Width, room: nat, device: nat, deadline: nat, rba: nat, cycles: seq<Ready>, memory: seq<bool>)
    requires Claimable(rba) && |memory| == |cycles|
    ensures var parcels := Parcels(w, room, device, deadline, rba, cycles, memory);
            var packets := Finish(FlushAll(w, Packet(room), device, deadline, Flushed([], [], [], NOTHING, rba), cycles,
                                           memory).frames);
            var promises := PromisesOf(w, room, cycles, memory);
            && Booking(parcels) && |parcels| == |packets| == |promises|
            && (forall i :: 0 <= i < |parcels| ==>
                  && promises[i] == parcels[i].promised
                  && AllWellFormed(w, parcels[i].records) && Flat(packets[i]) == EncodeAll(w, parcels[i].records))
            && (parcels != [] && promises[0] ==> !Reading(parcels[0].records))
  {
    var f0 := Flushed([], [], [], NOTHING, rba);
    var p := Booked(w, room, device, deadline, f0, cycles, memory, NO_PILE);
    NilBytes(w);
    NothingReads();
    assert Same(w, NO_PILE, NOTHING) && Balanced(NO_PILE) && Shown(w, NO_PILE) == EMPTY;
    BookSame(w, room, device, deadline, f0, cycles, memory, NO_PILE);
    BookShown(w, room, device, deadline, f0, cycles, memory, NO_PILE);
    BookBalanced(w, room, device, deadline, f0, cycles, memory, NO_PILE);
    hide Booked, FlushAll, FlushTaken, Reading, Flat, EncodeAll, Bytes, WellFormed;
    BytesPositive(w, p.collected);
    OffShown(w, p);
    OffBalanced(p);
    FirstHonest(Parcels(w, room, device, deadline, rba, cycles, memory));
  }

  lemma FirstHonest(sent: seq<Parcel>)
    requires Booking(sent)
    ensures sent != [] && sent[0].promised ==> !Reading(sent[0].records)
  {
    if sent != [] && sent[0].promised && Reading(sent[0].records) {
      var i :| 0 <= i < |sent[0].records| && sent[0].records[i].raddrs != [];
      var r := sent[0].records[i];
      assert r in sent[0].records && r in sent[0].window;
      var j :| 0 <= j < |sent[0].window| && sent[0].window[j] == r;
      assert Reading(sent[0].window);
    }
  }

  // ---------------------------------------------------------------------------
  // A promise that is broken
  // ---------------------------------------------------------------------------

  /** A cycle of one unchecked operation takes one record, which reads iff the operation does. */
  lemma OneRecord(w: Width, rba: nat, op: Operation)
    ensures var rs := RecordsOf(w, rba, [op], false, 0);
            |rs| == 1 && (rs[0].raddrs != [] <==> op.IsRead()) && RecordBytes(w, rs[0]) == RecordAlignment(w) + 2 * Alignment(w)
  {
    var p := NextPlan(w, [op], false, 0);
    WritesMaximal(w, [op], false, 0);
    ReadsMaximal(w, [op], false, 0);
    StatusExact(w, [op], false, 0);
    assert p.wcount == (if op.IsRead() then 0 else 1) && p.rcount == 1 - p.wcount && !p.status;
    hide NextPlan, Alignment, RecordAlignment, PlanSelect, WriteWordsOf;
    assert [op][1..] == [];
    assert RecordsOf(w, rba, [], false, p.awaiting) == [];
  }

  lemma OneAccepted(w: Width, c: Ready)
    requires !c.dead && |c.ops| == 1 && Acceptable(w, c.ops[0]) && !c.ops[0].checked
    ensures Passes(w, c, true)
    ensures var ops := CheckAll(w, c.ops).0; |ops| == 1 && !ops[0].checked && ops[0].IsRead() == c.ops[0].IsRead()
  {
    CheckAllFirstBad(w, c.ops);
    CheckAllKeeps(w, c.ops);
    hide CheckAll, Acceptable, Fits, Check;
  }

  lemma OneBooked(w: Width, room: nat, p: Pile, rba: nat, c: Ready)
    requires !c.dead && |c.ops| == 1 && Acceptable(w, c.ops[0]) && !c.ops[0].checked
    ensures exists r: Record ::
              && ReadyPut(w, room, p, rba, c, true) == PutAll(w, room, p, [r])
              && (r.raddrs != [] <==> c.ops[0].IsRead()) && RecordBytes(w, r) == RecordAlignment(w) + 2 * Alignment(w)
  {
    OneAccepted(w, c);
    var ops := CheckAll(w, c.ops).0;
    ReadyPutIs(w, room, p, rba, c, true);
    OneRecord(w, rba, ops[0]);
    hide CheckAll, RecordsOf, PutAll, ReadyPut, RecordBytes, Alignment, RecordAlignment;
    assert ops == [ops[0]];
    var rs := RecordsOf(w, rba, [ops[0]], false, 0);
    assert rs == [rs[0]];
  }

  /** One write and then one read, each a cycle of its own, in packets that hold one of them: the header of the second packet
      promises no reads, because that of the first did. */
  lemma PromiseBroken(w: Width, room: nat, device: nat, deadline: nat, rba: nat, c1: Ready, c2: Ready)
    requires Claimable(rba) && !c1.dead && !c2.dead && |c1.ops| == 1 && |c2.ops| == 1
    requires Acceptable(w, c1.ops[0]) && !c1.ops[0].checked && !c1.ops[0].IsRead()
    requires Acceptable(w, c2.ops[0]) && !c2.ops[0].checked && c2.ops[0].IsRead()
    requires RecordAlignment(w) + 2 * Alignment(w) <= room < 2 * (RecordAlignment(w) + 2 * Alignment(w))
    ensures var parcels := Parcels(w, room, device, deadline, rba, [c1, c2], [true, true]);
            && |parcels| == 2 && Reading(parcels[1].records)
            && PromisesOf(w, room, [c1, c2], [true, true]) == [true, true]
  {
    hide ReadyPut, PutAll, Acceptable, RecordBytes, RecordAlignment, Alignment, FlushOne, Reading, Claimable, PromisesOf;
    PromisesExact(w, room, device, deadline, rba, [c1, c2], [true, true]);
    var f0 := Flushed([], [], [], NOTHING, rba);
    var f1 := FlushOne(w, Packet(room), device, deadline, f0, c1, true);
    FlushOneClaims(w, Packet(room), device, deadline, f0, c1, true);
    var p1 := ReadyPut(w, room, NO_PILE, rba, c1, true);
    var p2 := ReadyPut(w, room, p1, f1.rba, c2, true);
    BookTwo(w, room, device, deadline, f0, c1, c2);
    OneBooked(w, room, NO_PILE, rba, c1);
    OneBooked(w, room, p1, f1.rba, c2);
    var r1: Record :| p1 == PutAll(w, room, NO_PILE, [r1]) && r1.raddrs == []
                      && RecordBytes(w, r1) == RecordAlignment(w) + 2 * Alignment(w);
    var r2: Record :| p2 == PutAll(w, room, p1, [r2]) && r2.raddrs != []
                      && RecordBytes(w, r2) == RecordAlignment(w) + 2 * Alignment(w);
    TwoPut(w, room, r1, r2);
    hide Booked, Off;
    assert PromisesOf(w, room, [c1, c2], [true, true]) == [true, true];
  }

  lemma BookTwo(w: Width, room: nat, device: nat, deadline: nat, f: Flushed, c1: Ready, c2: Ready)
    requires Claimable(f.rba)
    ensures var f1 := FlushOne(w, Packet(room), device, deadline, f, c1, true);
            Booked(w, room, device, deadline, f, [c1, c2], [true, true], NO_PILE)
            == ReadyPut(w, room, ReadyPut(w, room, NO_PILE, f.rba, c1, true), f1.rba, c2, true)
  {
    hide FlushOne, ReadyPut, Claimable;
    FlushOneClaims(w, Packet(room), device, deadline, f, c1, true);
    var f1 := FlushOne(w, Packet(room), device, deadline, f, c1, true);
    FlushOneClaims(w, Packet(room), device, deadline, f1, c2, true);
    var p1 := ReadyPut(w, room, NO_PILE, f.rba, c1, true);
    BookNext(w, room, device, deadline, f, [c1, c2], [true, true], NO_PILE);
    assert [c1, c2][1..] == [c2] && [true, true][1..] == [true];
    hide Booked;
    BookNext(w, room, device, deadline, f1, [c2], [true], p1);
    assert [c2][1..] == [] && [true][1..] == [];
    BookNone(w, room, device, deadline, FlushOne(w, Packet(room), device, deadline, f1, c2, true),
             ReadyPut(w, room, p1, f1.rba, c2, true));
  }

  lemma BookNext(w: Width, room: nat, device: nat, deadline: nat, f: Flushed, cycles: seq<Ready>, memory: seq<bool>, p: Pile)
    requires Claimable(f.rba) && |memory| == |cycles| && cycles != []
    ensures var g := FlushOne(w, Packet(room), device, deadline, f, cycles[0], memory[0]);
            && Claimable(g.rba)
            && Booked(w, room, device, deadline, f, cycles, memory, p)
               == Booked(w, room, device, deadline, g, cycles[1..], memory[1..],
                         ReadyPut(w, room, p, f.rba, cycles[0], memory[0]))
  {
    hide FlushOne, ReadyPut, Claimable;
    FlushOneClaims(w, Packet(room), device, deadline, f, cycles[0], memory[0]);
  }

  lemma BookNone(w: Width, room: nat, device: nat, deadline: nat, f: Flushed, p: Pile)
    requires Claimable(f.rba)
    ensures Booked(w, room, device, deadline, f, [], [], p) == p
  {
  }

  lemma TwoPut(w: Width, room: nat, r1: Record, r2: Record)
    requires r1.raddrs == [] && r2.raddrs != [] && RecordBytes(w, r1) == RecordBytes(w, r2)
    requires 0 < RecordBytes(w, r1) <= room < 2 * RecordBytes(w, r1)
    ensures var p := PutAll(w, room, PutAll(w, room, NO_PILE, [r1]), [r2]);
            p.collected == [r2]
            && Off(p).sent == [Parcel([r1], [], [r1], true), Parcel([r2], [], [r2], true)] && Reading([r2]) && !Reading([r1])
  {
    hide RecordBytes;
    BytesOne(w, r1);
    BytesOne(w, r2);
    NilBytes(w);
    OneReads(r1);
    OneReads(r2);
    assert [r1][1..] == [] && [r2][1..] == [];
    hide Reading, Bytes;
    PutOne(w, room, NO_PILE, r1);
    var p1 := PutAll(w, room, NO_PILE, [r1]);
    assert [] + [r1] == [r1];
    assert p1 == Pile([r1], [], [], [r1], false, []);
    assert Off(p1) == Pile([], [], [], [], true, [Parcel([r1], [], [r1], true)]);
    assert Fitted(w, room, p1, r2) == Off(p1);
    assert [] + [r2] == [r2];
    assert Put(w, room, p1, r2) == (true, Pile([], [r2], [], [r2], true, [Parcel([r1], [], [r1], true)]));
    PutOne(w, room, p1, r2);
  }

  lemma OneReads(r: Record)
    ensures Reading([r]) <==> r.raddrs != []
  {
    assert [r][0] == r;
  }

  lemma PutOne(w: Width, room: nat, p: Pile, r: Record)
    ensures var (ok, q) := Put(w, room, p, r);
            PutAll(w, room, p, [r]) == if ok then q.(collected := q.collected + q.partial, partial := []) else q
  {
    hide Put;
    assert [r][1..] == [];
  }
}
