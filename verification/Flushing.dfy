/** What flushing a device does: the fate of each closed cycle, the packets, and the responses left in flight. */
module Flushing {
  import opened Seqs
  import opened Options
  import opened Words
  import opened Widths
  import opened Operations
  import opened Validate
  import opened Records
  import opened Packing
  import opened PackingFacts
  import opened Responses
  import opened Exchange
  import opened Buffer
  import opened Framing
  import opened Sockets
  import opened Emitter

  /** A closed cycle waiting to be sent; dead when memory ran out while it was being filled. */
  datatype Ready = Ready(handle: nat, dead: bool, ops: seq<Operation>)

  /** The operations of a cycle as they are once it is closed: the last one added comes last, and the first one tells
      whether the cycle is checked. */
  predicate ClosedFrom(added: seq<Operation>, checked: bool, closed: seq<Operation>) {
    && |closed| == |added|
    && forall i :: 0 <= i < |closed| ==>
         closed[i] == if i == 0 && checked then added[|added| - 1].(checked := true) else added[|added| - 1 - i]
  }

  /** A callback made while flushing, with the position of the operation it names. */
  datatype Callback = Callback(cycle: Cycle, at: Option<nat>, status: Status)

  /** How much payload one message carries: a packet's MTU less its header, or anything on a stream. */
  datatype Cap = Stream | Packet(room: nat)
  {
    predicate Holds(n: nat) {
      Packet? ==> n <= room
    }
  }

  function Place(cap: Cap, f: Frames, cycle: Bytes): Frames {
    match cap
    case Stream => f.(current := f.current + [cycle])
    case Packet(room) => AddCycle(room, f, cycle)
  }

  /** Callbacks made, cycles put on the wire, responses registered, messages, and the next return address. */
  datatype Flushed = Flushed(
    callbacks: seq<Callback>, sent: seq<Sent>, queue: seq<Response>, frames: Frames, rba: nat)

  /** The bytes of the records for the operations left in a cycle. */
  function RestBytes(w: Width, rba: nat, ops: seq<Operation>, checked: bool, awaiting: nat): Bytes
    requires AllFit(w, ops) && rba < 0xFFFF
  {
    CycleWellFormed(w, rba, ops, checked, awaiting);
    EncodeAll(w, RecordsOf(w, rba, ops, checked, awaiting))
  }

  /** The bytes of a cycle on the wire. */
  function CycleBytes(w: Width, s: Sent): Bytes
    requires AllFit(w, s.cycle.ops) && s.rba < 0xFFFF
  {
    RestBytes(w, s.rba, s.cycle.ops, s.checked, 0)
  }

  /** The position at which a cycle runs out of room: the first operation of the record that does not fit, or |ops|
      when that record only reads the status of the operations before it. */
  function OverflowAt(w: Width, room: nat, ops: seq<Operation>, checked: bool, awaiting: nat): (at: nat)
    ensures at <= |ops|
    decreases |ops|, awaiting
  {
    if Finished(ops, checked, awaiting) then |ops|
    else
      PlanProgress(w, ops, checked, awaiting);
      var p := NextPlan(w, ops, checked, awaiting);
      var n := p.wcount + p.rcount;
      if PlanLength(w, p) > room then 0
      else n + OverflowAt(w, room - PlanLength(w, p), ops[n..], checked, p.awaiting)
  }

  /** A cycle that has passed validation and found memory for its response. */
  function SendOne(w: Width, cap: Cap, f: Flushed, s: Sent): Flushed
    requires AllFit(w, s.cycle.ops) && Claimable(f.rba) && s.rba == f.rba
  {
    var bytes := CycleBytes(w, s);
    var placed := f.(frames := Place(cap, f.frames, bytes));
    if !cap.Holds(|bytes|) then
      var at := OverflowAt(w, cap.room, s.cycle.ops, s.checked, 0);
      placed.(callbacks := f.callbacks + [Callback(s.cycle, Some(at), OVERFLOW)])
    else if Unanswered(s) then
      placed.(callbacks := f.callbacks + [Callback(s.cycle, Some(0), OK)], sent := f.sent + [s])
    else
      placed.(sent := f.sent + [s], queue := f.queue + [ResponseFor(s)], rba := NextAddress(f.rba))
  }

  /** What flushing does with one cycle. memory tells whether a response can be allocated for it. */
  function FlushOne(w: Width, cap: Cap, device: nat, deadline: nat, f: Flushed, c: Ready, memory: bool): Flushed
    requires Claimable(f.rba)
  {
    var (ops, bad, reason) := CheckAll(w, c.ops);
    var cycle := Cycle(c.handle, device, ops);
    CheckAllFirstBad(w, c.ops);
    if c.dead then f.(callbacks := f.callbacks + [Callback(Cycle(c.handle, device, []), None, OOM)])
    else if c.ops == [] then f.(callbacks := f.callbacks + [Callback(cycle, None, OK)])
    else if bad < |ops| then f.(callbacks := f.callbacks + [Callback(cycle, Some(bad), reason)])
    else if !memory then f.(callbacks := f.callbacks + [Callback(cycle, None, OOM)])
    else SendOne(w, cap, f, Sent(f.rba, deadline, ops[0].checked, cycle))
  }

  lemma FlushOneClaims(w: Width, cap: Cap, device: nat, deadline: nat, f: Flushed, c: Ready, memory: bool)
    requires Claimable(f.rba)
    ensures Claimable(FlushOne(w, cap, device, deadline, f, c, memory).rba)
  {
    hide CheckAll, Place, CycleBytes, NextAddress, OverflowAt;
    NextAddressValue(f.rba);
    CheckAllFirstBad(w, c.ops);
  }

  /** All closed cycles, oldest first. */
  function FlushAll(w: Width, cap: Cap, device: nat, deadline: nat, f: Flushed, cycles: seq<Ready>, memory: seq<bool>)
    : Flushed
    requires Claimable(f.rba) && |memory| == |cycles|
    decreases cycles
  {
    if cycles == [] then f
    else
      FlushOneClaims(w, cap, device, deadline, f, cycles[0], memory[0]);
      FlushAll(w, cap, device, deadline, FlushOne(w, cap, device, deadline, f, cycles[0], memory[0]), cycles[1..],
               memory[1..])
  }

  // ---------------------------------------------------------------------------
  // Exactly one fate each
  // ---------------------------------------------------------------------------

  function CalledBack(cs: seq<Callback>): seq<nat> {
    if cs == [] then [] else [cs[0].cycle.handle] + CalledBack(cs[1..])
  }

  function InFlight(q: seq<Response>): seq<nat> {
    if q == [] then [] else [q[0].cycle.handle] + InFlight(q[1..])
  }

  function Handles(cycles: seq<Ready>): seq<nat> {
    if cycles == [] then [] else [cycles[0].handle] + Handles(cycles[1..])
  }

  lemma {:induction false} CalledBackSnoc(cs: seq<Callback>, c: Callback)
    ensures CalledBack(cs + [c]) == CalledBack(cs) + [c.cycle.handle]
  {
    if cs == [] {
      assert [c][1..] == [];
      NilConcat([c]);
    } else {
      assert (cs + [c])[1..] == cs[1..] + [c];
      CalledBackSnoc(cs[1..], c);
    }
  }

  lemma {:induction false} InFlightSnoc(q: seq<Response>, r: Response)
    ensures InFlight(q + [r]) == InFlight(q) + [r.cycle.handle]
  {
    if q == [] {
      assert [r][1..] == [];
      NilConcat([r]);
    } else {
      assert (q + [r])[1..] == q[1..] + [r];
      InFlightSnoc(q[1..], r);
    }
  }

  /** Who has had a callback or awaits one. */
  function FatesOf(f: Flushed): multiset<nat> {
    multiset(CalledBack(f.callbacks)) + multiset(InFlight(f.queue))
  }

  lemma OneFate(w: Width, cap: Cap, device: nat, deadline: nat, f: Flushed, c: Ready, memory: bool)
    requires Claimable(f.rba)
    ensures FatesOf(FlushOne(w, cap, device, deadline, f, c, memory)) == FatesOf(f) + multiset{c.handle}
  {
    hide CheckAll, Place, CycleBytes, NextAddress, OverflowAt, FindRead, FindBus, FatesOf;
    var g := FlushOne(w, cap, device, deadline, f, c, memory);
    CheckAllFirstBad(w, c.ops);
    if g.queue == f.queue {
      var k := g.callbacks[|f.callbacks|];
      assert g.callbacks == f.callbacks + [k] && k.cycle.handle == c.handle;
      FateCalled(f, g, k);
    } else {
      var r := g.queue[|f.queue|];
      assert g.queue == f.queue + [r] && r.cycle.handle == c.handle && g.callbacks == f.callbacks;
      FateFlies(f, g, r);
    }
  }

  lemma FateCalled(f: Flushed, g: Flushed, k: Callback)
    requires g.queue == f.queue && g.callbacks == f.callbacks + [k]
    ensures FatesOf(g) == FatesOf(f) + multiset{k.cycle.handle}
  {
    CalledBackSnoc(f.callbacks, k);
    hide CalledBack, InFlight;
  }

  lemma FateFlies(f: Flushed, g: Flushed, r: Response)
    requires g.callbacks == f.callbacks && g.queue == f.queue + [r]
    ensures FatesOf(g) == FatesOf(f) + multiset{r.cycle.handle}
  {
    InFlightSnoc(f.queue, r);
    hide CalledBack, InFlight;
  }

  /** Every cycle flushed gets exactly one callback now or exactly one response in flight, never both. */
  lemma {:induction false} FlushAccounts(w: Width, cap: Cap, device: nat, deadline: nat, f: Flushed, cycles: seq<Ready>,
                                         memory: seq<bool>)
    requires Claimable(f.rba) && |memory| == |cycles|
    ensures FatesOf(FlushAll(w, cap, device, deadline, f, cycles, memory))
            == FatesOf(f) + multiset(Handles(cycles))
    decreases cycles
  {
    hide FlushOne, FatesOf;
    if cycles != [] {
      FlushOneClaims(w, cap, device, deadline, f, cycles[0], memory[0]);
      OneFate(w, cap, device, deadline, f, cycles[0], memory[0]);
      var g := FlushOne(w, cap, device, deadline, f, cycles[0], memory[0]);
      FlushAccounts(w, cap, device, deadline, g, cycles[1..], memory[1..]);
    }
  }

  // ---------------------------------------------------------------------------
  // Conservation
  // ---------------------------------------------------------------------------

  predicate Packable(w: Width, sent: seq<Sent>) {
    forall i :: 0 <= i < |sent| ==> AllFit(w, sent[i].cycle.ops) && sent[i].rba < 0xFFFF
  }

  /** The bytes of each cycle sent. */
  function Encodings(w: Width, sent: seq<Sent>): (r: seq<Bytes>)
    requires Packable(w, sent)
    ensures |r| == |sent|
    ensures forall i :: 0 <= i < |sent| ==> r[i] == CycleBytes(w, sent[i])
  {
    seq(|sent|, i requires 0 <= i < |sent| => CycleBytes(w, sent[i]))
  }

  /** The messages carry exactly the cycles sent, whole, in order and within the limit. */
  ghost predicate Conserved(w: Width, cap: Cap, f: Flushed) {
    && Packable(w, f.sent)
    && Concat(f.frames.packets) + f.frames.current == Encodings(w, f.sent)
    && (match cap
        case Stream => f.frames.packets == []
        case Packet(room) => WithinCap(room, f.frames))
  }

  lemma PlaceConserves(w: Width, cap: Cap, f: Flushed, s: Sent)
    requires Conserved(w, cap, f) && AllFit(w, s.cycle.ops) && s.rba < 0xFFFF
    ensures var bytes := CycleBytes(w, s);
            Conserved(w, cap, f.(frames := Place(cap, f.frames, bytes),
                                 sent := if cap.Holds(|bytes|) then f.sent + [s] else f.sent))
  {
    var bytes := CycleBytes(w, s);
    hide CycleBytes, AllFit;
    assert Packable(w, f.sent + [s]);
    assert Encodings(w, f.sent + [s]) == Encodings(w, f.sent) + [bytes];
    if cap.Packet? {
      AddCycleWithin(cap.room, f.frames, bytes);
      FittingOne(cap.room, bytes);
      NilConcat(Encodings(w, f.sent));
      hide AddCycle, WithinCap;
    } else {
      ConcatAssoc(Concat(f.frames.packets), f.frames.current, [bytes]);
    }
  }

  lemma FittingOne(room: nat, bytes: Bytes)
    ensures Fitting(room, [bytes]) == if |bytes| <= room then [bytes] else []
  {
    assert [bytes][1..] == [];
  }

  lemma OneConserved(w: Width, cap: Cap, device: nat, deadline: nat, f: Flushed, c: Ready, memory: bool)
    requires Claimable(f.rba) && Conserved(w, cap, f)
    ensures Conserved(w, cap, FlushOne(w, cap, device, deadline, f, c, memory))
  {
    CheckAllFirstBad(w, c.ops);
    var ops := CheckAll(w, c.ops).0;
    hide CheckAll, CycleBytes, AllFit, Place, Encodings, Check, Fits, WithinCap, Concat;
    if !c.dead && c.ops != [] && CheckAll(w, c.ops).1 == |ops| && memory {
      PlaceConserves(w, cap, f, Sent(f.rba, deadline, ops[0].checked, Cycle(c.handle, device, ops)));
    }
  }

  /** Nothing sent is lost, repeated, reordered or cut. */
  lemma {:induction false} FlushConserves(w: Width, cap: Cap, device: nat, deadline: nat, f: Flushed,
                                          cycles: seq<Ready>, memory: seq<bool>)
    requires Claimable(f.rba) && |memory| == |cycles| && Conserved(w, cap, f)
    ensures Conserved(w, cap, FlushAll(w, cap, device, deadline, f, cycles, memory))
    decreases cycles
  {
    hide FlushOne, Conserved;
    if cycles != [] {
      FlushOneClaims(w, cap, device, deadline, f, cycles[0], memory[0]);
      OneConserved(w, cap, device, deadline, f, cycles[0], memory[0]);
      var g := FlushOne(w, cap, device, deadline, f, cycles[0], memory[0]);
      FlushConserves(w, cap, device, deadline, g, cycles[1..], memory[1..]);
    }
  }

  // ---------------------------------------------------------------------------
  // Overflow
  // ---------------------------------------------------------------------------

  /** The cycle passes every check made before it is packed. */
  predicate Passes(w: Width, c: Ready, memory: bool) {
    !c.dead && c.ops != [] && CheckAll(w, c.ops).1 == |c.ops| && memory
  }

  /** The cycle as it would go onto the wire. */
  function Attempt(w: Width, device: nat, deadline: nat, f: Flushed, c: Ready): Sent
    requires c.ops != []
  {
    var ops := CheckAll(w, c.ops).0;
    Sent(f.rba, deadline, ops[0].checked, Cycle(c.handle, device, ops))
  }

  /** A cycle that does not pass gets a callback, for another reason than overflow, and changes nothing else. */
  lemma FlushOneIs(w: Width, cap: Cap, device: nat, deadline: nat, f: Flushed, c: Ready, memory: bool)
    requires Claimable(f.rba)
    ensures Passes(w, c, memory) ==> AllFit(w, CheckAll(w, c.ops).0)
    ensures var g := FlushOne(w, cap, device, deadline, f, c, memory);
            if Passes(w, c, memory) then g == SendOne(w, cap, f, Attempt(w, device, deadline, f, c))
            else exists k: Callback :: k.status != OVERFLOW && g == f.(callbacks := f.callbacks + [k])
  {
    CheckAllFirstBad(w, c.ops);
    var (ops, bad, reason) := CheckAll(w, c.ops);
    if bad < |ops| {
      NeverOverflow(w, c.ops[bad]);
    }
    hide CheckAll, SendOne, AllFit, Check, Acceptable, Fits, Claimable;
    var g := FlushOne(w, cap, device, deadline, f, c, memory);
    if !Passes(w, c, memory) {
      var k := g.callbacks[|f.callbacks|];
      assert k.status != OVERFLOW && g == f.(callbacks := f.callbacks + [k]);
    }
  }

  /** The step from f to g made a callback that reports an overflow. */
  predicate ReportsOverflow(f: Flushed, g: Flushed) {
    |g.callbacks| > |f.callbacks| && g.callbacks[|f.callbacks|].status == OVERFLOW
  }

  /** Nothing on the wire, no address claimed, nothing awaited. */
  predicate LeavesNoTrace(f: Flushed, g: Flushed) {
    && g.sent == f.sent && g.queue == f.queue && g.rba == f.rba
    && Concat(g.frames.packets) + g.frames.current == Concat(f.frames.packets) + f.frames.current
  }

  lemma SendOverflow(w: Width, room: nat, f: Flushed, s: Sent)
    requires AllFit(w, s.cycle.ops) && Claimable(f.rba) && s.rba == f.rba
    ensures var g := SendOne(w, Packet(room), f, s);
            && (ReportsOverflow(f, g) <==> |CycleBytes(w, s)| > room)
            && (|CycleBytes(w, s)| > room ==> LeavesNoTrace(f, g))
  {
    var bytes := CycleBytes(w, s);
    SendOneIs(w, room, f, s, bytes);
    if |bytes| > room {
      DroppedFrames(room, f.frames, bytes);
      hide SendOne, CycleBytes, AddCycle, Concat, Claimable, AllFit;
    } else {
      hide SendOne, CycleBytes, AddCycle, Concat, Claimable, AllFit, LeavesNoTrace;
    }
  }

  /** The three fates of a cycle that is put into packets. */
  lemma SendOneIs(w: Width, room: nat, f: Flushed, s: Sent, bytes: Bytes)
    requires AllFit(w, s.cycle.ops) && Claimable(f.rba) && s.rba == f.rba && bytes == CycleBytes(w, s)
    ensures var g := SendOne(w, Packet(room), f, s);
            var frames := AddCycle(room, f.frames, bytes);
            if |bytes| > room then
              |g.callbacks| == |f.callbacks| + 1 && g.callbacks[|f.callbacks|].status == OVERFLOW
              && g == f.(frames := frames, callbacks := g.callbacks)
            else g.callbacks == f.callbacks || g.callbacks == f.callbacks + [Callback(s.cycle, Some(0), OK)]
  {
    hide CycleBytes, NextAddress, OverflowAt, ResponseFor, Unanswered, AllFit, AddCycle, Claimable;
  }

  lemma OtherReason(f: Flushed, k: Callback)
    requires k.status != OVERFLOW
    ensures !ReportsOverflow(f, f.(callbacks := f.callbacks + [k]))
  {
  }

  /** The cycle passes every check, and its encoding is longer than a packet has room for. */
  predicate Overflows(w: Width, room: nat, device: nat, deadline: nat, f: Flushed, c: Ready, memory: bool)
    requires Claimable(f.rba)
  {
    CheckAllFirstBad(w, c.ops);
    Passes(w, c, memory) && |CycleBytes(w, Attempt(w, device, deadline, f, c))| > room
  }

  /** A cycle is reported as overflowing exactly when it passes validation, has memory for its response, and its encoded
      length exceeds the room in a packet; it then contributes no bytes, claims no address and awaits nothing. */
  lemma OverflowExact(w: Width, room: nat, device: nat, deadline: nat, f: Flushed, c: Ready, memory: bool)
    requires Claimable(f.rba)
    ensures Passes(w, c, memory) ==> AllFit(w, CheckAll(w, c.ops).0)
    ensures var g := FlushOne(w, Packet(room), device, deadline, f, c, memory);
            (ReportsOverflow(f, g) <==> Overflows(w, room, device, deadline, f, c, memory))
            && (ReportsOverflow(f, g) ==> LeavesNoTrace(f, g))
  {
    FlushOneIs(w, Packet(room), device, deadline, f, c, memory);
    var g := FlushOne(w, Packet(room), device, deadline, f, c, memory);
    if Passes(w, c, memory) {
      SendOverflow(w, room, f, Attempt(w, device, deadline, f, c));
    } else {
      var k: Callback :| k.status != OVERFLOW && g == f.(callbacks := f.callbacks + [k]);
      OtherReason(f, k);
    }
    hide FlushOne, SendOne, CheckAll, CycleBytes, AllFit, Concat, Claimable, ReportsOverflow, LeavesNoTrace;
  }

  lemma NeverOverflow(w: Width, op: Operation)
    ensures Check(w, op).1 != OVERFLOW
  {
    hide And, RefineNibble, AddressMasked, ValueMasked;
  }

  lemma DroppedFrames(room: nat, f: Frames, cycle: Bytes)
    ensures |cycle| > room ==>
              Concat(AddCycle(room, f, cycle).packets) + AddCycle(room, f, cycle).current == Concat(f.packets) + f.current
  {
    hide Flat;
    if |cycle| > room {
      ConcatSnoc(f.packets, f.current);
      NilConcat(Concat(f.packets) + f.current);
      NilConcat(Concat(f.packets));
    }
  }

  // ---------------------------------------------------------------------------
  // Claims
  // ---------------------------------------------------------------------------

  /** The responses in flight have claimed the addresses from start on, n claims having been made before. */
  predicate ClaimedFrom(start: nat, n: nat, f: Flushed) {
    && f.rba == AddressAfter(start, n + |f.queue|)
    && forall k :: 0 <= k < |f.queue| ==> f.queue[k].address == AddressAfter(start, n + k)
  }

  lemma OneClaims(w: Width, cap: Cap, device: nat, deadline: nat, f: Flushed, c: Ready, memory: bool, start: nat, n: nat)
    requires Claimable(f.rba) && ClaimedFrom(start, n, f)
    ensures ClaimedFrom(start, n, FlushOne(w, cap, device, deadline, f, c, memory))
  {
    FlushOneIs(w, cap, device, deadline, f, c, memory);
    if Passes(w, c, memory) {
      SendClaims(w, cap, f, Attempt(w, device, deadline, f, c), start, n);
    }
    hide FlushOne, SendOne, CheckAll, AllFit, Claimable, AddressAfter;
  }

  lemma SendClaims(w: Width, cap: Cap, f: Flushed, s: Sent, start: nat, n: nat)
    requires AllFit(w, s.cycle.ops) && Claimable(f.rba) && s.rba == f.rba && ClaimedFrom(start, n, f)
    ensures ClaimedFrom(start, n, SendOne(w, cap, f, s))
  {
    hide *;
    SendQueue(w, cap, f, s);
    QueueClaims(f, SendOne(w, cap, f, s), ResponseFor(s), start, n);
  }

  lemma QueueClaims(f: Flushed, g: Flushed, r: Response, start: nat, n: nat)
    requires (g.queue == f.queue && g.rba == f.rba)
             || (g.queue == f.queue + [r] && r.address == f.rba && g.rba == NextAddress(f.rba))
    requires ClaimedFrom(start, n, f)
    ensures ClaimedFrom(start, n, g)
  {
    ClaimNext(start, n + |f.queue|);
    hide AddressAfter, NextAddress;
  }

  lemma ClaimNext(start: nat, n: nat)
    ensures AddressAfter(start, n + 1) == NextAddress(AddressAfter(start, n))
  {
  }

  lemma SendQueue(w: Width, cap: Cap, f: Flushed, s: Sent)
    requires AllFit(w, s.cycle.ops) && Claimable(f.rba) && s.rba == f.rba
    ensures var g := SendOne(w, cap, f, s);
            || (g.queue == f.queue && g.rba == f.rba)
            || (g.queue == f.queue + [ResponseFor(s)] && ResponseFor(s).address == s.rba && g.rba == NextAddress(f.rba))
  {
    hide Place, CycleBytes, NextAddress, OverflowAt, AllFit, FindRead, FindBus, Unanswered, Claimable;
  }

  /** Each response registered by a flush claims the next address in turn. */
  lemma {:induction false} FlushClaims(w: Width, cap: Cap, device: nat, deadline: nat, f: Flushed, cycles: seq<Ready>,
                                       memory: seq<bool>, start: nat, n: nat)
    requires Claimable(f.rba) && |memory| == |cycles| && ClaimedFrom(start, n, f)
    ensures ClaimedFrom(start, n, FlushAll(w, cap, device, deadline, f, cycles, memory))
    decreases cycles
  {
    hide FlushOne, ClaimedFrom;
    if cycles != [] {
      FlushOneClaims(w, cap, device, deadline, f, cycles[0], memory[0]);
      OneClaims(w, cap, device, deadline, f, cycles[0], memory[0], start, n);
      FlushClaims(w, cap, device, deadline, FlushOne(w, cap, device, deadline, f, cycles[0], memory[0]), cycles[1..],
                  memory[1..], start, n);
    }
  }

  // ---------------------------------------------------------------------------
  // Packets are filled
  // ---------------------------------------------------------------------------

  /** No packet could have taken the first cycle of the next one as well. */
  predicate Filled(room: nat, f: Frames) {
    && (forall i :: 0 <= i < |f.packets| ==> f.packets[i] != []) && (f.packets != [] ==> f.current != [])
    && (forall i {:trigger f.packets[i]} :: 0 <= i < |f.packets| - 1 ==> |Flat(f.packets[i])| + |f.packets[i + 1][0]| > room)
    && (f.packets != [] ==> |Flat(f.packets[|f.packets| - 1])| + |f.current[0]| > room)
  }

  lemma AddFilled(room: nat, f: Frames, cycle: Bytes)
    requires Filled(room, f) && |cycle| <= room
    ensures Filled(room, AddCycle(room, f, cycle))
  {
    hide Flat;
  }

  lemma SendFilled(w: Width, room: nat, f: Flushed, s: Sent)
    requires AllFit(w, s.cycle.ops) && Claimable(f.rba) && s.rba == f.rba && Filled(room, f.frames)
    ensures var g := SendOne(w, Packet(room), f, s); !ReportsOverflow(f, g) ==> Filled(room, g.frames)
  {
    hide Filled, CycleBytes, AddCycle, AllFit;
    var bytes := CycleBytes(w, s);
    SendOverflow(w, room, f, s);
    SendFrames(w, room, f, s);
    hide SendOne, ReportsOverflow, LeavesNoTrace;
    if |bytes| <= room {
      AddFilled(room, f.frames, bytes);
    }
  }

  lemma SendFrames(w: Width, room: nat, f: Flushed, s: Sent)
    requires AllFit(w, s.cycle.ops) && Claimable(f.rba) && s.rba == f.rba && s.rba < 0xFFFF
    ensures SendOne(w, Packet(room), f, s).frames == AddCycle(room, f.frames, CycleBytes(w, s))
  {
    hide SendOne, CycleBytes, AddCycle, AllFit, Claimable;
    SendPlaces(w, Packet(room), f, s);
  }

  lemma SendPlaces(w: Width, cap: Cap, f: Flushed, s: Sent)
    requires AllFit(w, s.cycle.ops) && Claimable(f.rba) && s.rba == f.rba && s.rba < 0xFFFF
    ensures SendOne(w, cap, f, s).frames == Place(cap, f.frames, CycleBytes(w, s))
  {
    hide Place, CycleBytes, AllFit, OverflowAt, Unanswered, NextAddress, NewResponse, Claimable, FindRead, FindBus;
  }

  lemma OneFilled(w: Width, room: nat, device: nat, deadline: nat, f: Flushed, c: Ready, memory: bool)
    requires Claimable(f.rba) && Filled(room, f.frames)
    ensures var g := FlushOne(w, Packet(room), device, deadline, f, c, memory);
            !ReportsOverflow(f, g) ==> Filled(room, g.frames)
  {
    FlushOneIs(w, Packet(room), device, deadline, f, c, memory);
    if Passes(w, c, memory) {
      SendFilled(w, room, f, Attempt(w, device, deadline, f, c));
    }
    hide FlushOne, SendOne, CheckAll, AllFit, Claimable, Filled, ReportsOverflow;
  }
}
