/** Why a flush calls back: each closed cycle's fate in the terms of the interface. */
module Fates {
  import opened Seqs
  import opened Options
  import opened Widths
  import opened Operations
  import opened Validate
  import opened Records
  import Slave
  import opened Packing
  import opened PackingFacts
  import opened Responses
  import opened Exchange
  import opened Emitter
  import opened Sockets
  import opened Flushing

  /** Operation i is the first that the port cannot carry, and status says why: no size is offered that the port has; or
      the size is narrower than the port and not exactly one endian is given; or the address is unaligned or out of range;
      or the datum is. */
  ghost predicate Refused(w: Width, ops: seq<Operation>, i: nat, status: Status) {
    && i < |ops| && (forall j :: 0 <= j < i ==> Acceptable(w, ops[j])) && !Acceptable(w, ops[i])
    && (forall s: nat | AskedSize(w, ops[i], s) ::
          status == if !EndianGiven(w, ops[i], s) then ENDIAN else if !AddressGood(w, ops[i], s) then ADDRESS else WIDTH)
    && ((forall s: nat :: !AskedSize(w, ops[i], s)) ==> status == WIDTH)
  }

  /** The operations as they are packed. */
  ghost predicate ReportedAll(w: Width, ops: seq<Operation>, out: seq<Operation>) {
    && |out| == |ops|
    && forall i :: 0 <= i < |ops| ==>
         Acceptable(w, ops[i]) && forall s: nat | AskedSize(w, ops[i], s) :: out[i] == Reported(w, ops[i], s)
  }

  /** Nothing comes back for a cycle: it reads nothing, and no bus operation has to be checked. */
  predicate NothingBack(ops: seq<Operation>) {
    && (forall i :: 0 <= i < |ops| ==> !ops[i].IsRead())
    && (ops != [] && ops[0].checked ==> forall i :: 0 <= i < |ops| ==> ops[i].config)
  }

  /** What became of one cycle: the return address it could have, its operations as packed, the callback made during the
      flush, and the cycle sent. */
  datatype Fate = Fate(rba: nat, out: seq<Operation>, called: Option<Callback>, sent: Option<Sent>)

  function AsSent(device: nat, deadline: nat, c: Ready, fate: Fate): Sent {
    Sent(fate.rba, deadline, c.ops != [] && c.ops[0].checked, Cycle(c.handle, device, fate.out))
  }

  /** The first j of the records fit into room, and the one behind them does not. */
  ghost predicate CutAt(w: Width, room: nat, rs: seq<Record>, j: nat) {
    j < |rs| && AllWellFormed(w, rs) && |EncodeAll(w, rs[..j])| <= room < |EncodeAll(w, rs[..j + 1])|
  }

  /** The first record that does not fit into room starts with operation at, or, when at is the end of the list, it only
      reads the status. */
  ghost predicate RunsOut(w: Width, room: nat, s: Sent, at: nat) {
    at <= |s.cycle.ops|
    && exists j: nat, awaiting: nat ::
         j < |RecordsFor(w, s)| && CutAt(w, room, RecordsFor(w, s), j)
         && RecordsFor(w, s)[j..] == RecordsOf(w, s.rba, s.cycle.ops[at..], s.checked, awaiting)
  }

  /** The fate of a cycle:
      - one that ran out of memory is called back with OOM, without its operations;
      - an empty one with OK;
      - one with an operation that the port cannot carry with that operation and the reason;
      - one that finds no memory for its response with OOM;
      - one too long for a packet with OVERFLOW and the first operation that did not fit;
      - of the others, which are sent, one to which nothing comes back with OK and its first operation;
      - and any other is not called back yet. */
  ghost predicate Explained(w: Width, cap: Cap, device: nat, deadline: nat, c: Ready, memory: bool, fate: Fate) {
    var s := AsSent(device, deadline, c, fate);
    if c.dead then fate.called == Some(Callback(Cycle(c.handle, device, []), None, OOM)) && fate.sent == None
    else if c.ops == [] then fate.called == Some(Callback(Cycle(c.handle, device, []), None, OK)) && fate.sent == None
    else if exists i: nat :: i < |c.ops| && !Acceptable(w, c.ops[i]) then
      && fate.sent == None && fate.called.Some? && fate.called.value.at.Some?
      && fate.called.value.cycle == Cycle(c.handle, device, fate.out) && |fate.out| == |c.ops|
      && Refused(w, c.ops, fate.called.value.at.value, fate.called.value.status)
    else
      && ReportedAll(w, c.ops, fate.out) && AllFit(w, fate.out) && fate.rba < 0xFFFF
      && if !memory then fate.called == Some(Callback(s.cycle, None, OOM)) && fate.sent == None
         else if !cap.Holds(|CycleBytes(w, s)|) then
           && fate.sent == None && fate.called.Some? && fate.called.value.at.Some?
           && fate.called.value == Callback(s.cycle, fate.called.value.at, OVERFLOW)
           && cap.Packet? && RunsOut(w, cap.room, s, fate.called.value.at.value)
         else
           && fate.sent == Some(s)
           && fate.called == if NothingBack(c.ops) then Some(Callback(s.cycle, Some(0), OK)) else None
  }

  function Called(fates: seq<Fate>): seq<Callback> {
    if fates == [] then [] else (if fates[0].called.Some? then [fates[0].called.value] else []) + Called(fates[1..])
  }

  function Sendings(fates: seq<Fate>): seq<Sent> {
    if fates == [] then [] else (if fates[0].sent.Some? then [fates[0].sent.value] else []) + Sendings(fates[1..])
  }

  // ---------------------------------------------------------------------------
  // Running out of room
  // ---------------------------------------------------------------------------

  lemma CutFirst(w: Width, room: nat, r: Record, more: seq<Record>)
    requires WellFormed(w, r) && AllWellFormed(w, more) && |Encode(w, r)| > room
    ensures CutAt(w, room, [r] + more, 0)
  {
    var rs := [r] + more;
    assert rs[..0] == [] && rs[..1] == [r] && [r][1..] == [];
    assert EncodeAll(w, []) == [] && EncodeAll(w, [r]) == Encode(w, r) + EncodeAll(w, []);
    hide Encode, WellFormed;
  }

  lemma CutLater(w: Width, room: nat, r: Record, more: seq<Record>, j: nat)
    requires WellFormed(w, r) && AllWellFormed(w, more) && |Encode(w, r)| <= room && CutAt(w, room - |Encode(w, r)|, more, j)
    ensures CutAt(w, room, [r] + more, j + 1)
  {
    var rs := [r] + more;
    assert rs[..j + 1] == [r] + more[..j] && rs[..j + 2] == [r] + more[..j + 1];
    assert ([r] + more[..j])[1..] == more[..j] && ([r] + more[..j + 1])[1..] == more[..j + 1];
    hide Encode, WellFormed;
  }

  lemma {:induction false} RoomRunsOut(w: Width, room: nat, rba: nat, ops: seq<Operation>, checked: bool, awaiting: nat)
    requires AllFit(w, ops) && rba < 0xFFFF && |RestBytes(w, rba, ops, checked, awaiting)| > room
    ensures var rs, at := RecordsOf(w, rba, ops, checked, awaiting), OverflowAt(w, room, ops, checked, awaiting);
            exists j: nat, aw: nat :: j < |rs| && CutAt(w, room, rs, j) && rs[j..] == RecordsOf(w, rba, ops[at..], checked, aw)
    decreases |ops|, awaiting
  {
    hide RecordsOf, NextPlan, RecordOf, RestBytes, PlanLength, OverflowAt, CutAt, AllFit, Finished, WellFormed, Encode;
    var rs, at := RecordsOf(w, rba, ops, checked, awaiting), OverflowAt(w, room, ops, checked, awaiting);
    RestLength(w, rba, ops, checked, awaiting);
    var p := NextPlan(w, ops, checked, awaiting);
    var n := p.wcount + p.rcount;
    var r, more := RecordOf(w, rba, ops, p), RecordsOf(w, rba, ops[n..], checked, p.awaiting);
    OverflowStep(w, room, ops, checked, awaiting);
    if PlanLength(w, p) > room {
      CutFirst(w, room, r, more);
      assert rs[0..] == rs && ops[0..] == ops;
    } else {
      var later := OverflowAt(w, room - PlanLength(w, p), ops[n..], checked, p.awaiting);
      RoomRunsOut(w, room - PlanLength(w, p), rba, ops[n..], checked, p.awaiting);
      var j: nat, aw: nat :|
        CutAt(w, room - PlanLength(w, p), more, j)
        && j < |more| && later <= |ops[n..]| && more[j..] == RecordsOf(w, rba, ops[n..][later..], checked, aw);
      CutLater(w, room, r, more, j);
      assert rs[j + 1..] == more[j..];
      assert ops[at..] == ops[n..][later..];
    }
  }

  /** The bytes left are those of the next record and those behind it. */
  lemma RestLength(w: Width, rba: nat, ops: seq<Operation>, checked: bool, awaiting: nat)
    requires AllFit(w, ops) && rba < 0xFFFF && |RestBytes(w, rba, ops, checked, awaiting)| > 0
    ensures !Finished(ops, checked, awaiting)
    ensures var p := NextPlan(w, ops, checked, awaiting);
            var n := p.wcount + p.rcount;
            var r, more := RecordOf(w, rba, ops, p), RecordsOf(w, rba, ops[n..], checked, p.awaiting);
            && AllFit(w, ops[n..]) && (n > 0 || p.awaiting < awaiting)
            && RecordsOf(w, rba, ops, checked, awaiting) == [r] + more
            && WellFormed(w, r) && AllWellFormed(w, more)
            && |Encode(w, r)| == PlanLength(w, p)
            && |RestBytes(w, rba, ops, checked, awaiting)|
               == PlanLength(w, p) + |RestBytes(w, rba, ops[n..], checked, p.awaiting)|
  {
    hide NextPlan, RecordOf, Encode, PlanLength, Fits, WellFormed;
    NothingLeft(w, rba, ops, checked, awaiting);
    var p := NextPlan(w, ops, checked, awaiting);
    var n := p.wcount + p.rcount;
    var r, more := RecordOf(w, rba, ops, p), RecordsOf(w, rba, ops[n..], checked, p.awaiting);
    PlanProgress(w, ops, checked, awaiting);
    RecordWellFormed(w, rba, ops, checked, awaiting);
    PlannedBytes(w, rba, ops, p);
    assert AllFit(w, ops[n..]);
    CycleWellFormed(w, rba, ops[n..], checked, p.awaiting);
    assert RecordsOf(w, rba, ops, checked, awaiting) == [r] + more;
    hide RecordsOf, Finished, AllFit;
    EncodeCons(w, r, more);
  }

  lemma NothingLeft(w: Width, rba: nat, ops: seq<Operation>, checked: bool, awaiting: nat)
    requires AllFit(w, ops) && rba < 0xFFFF
    ensures Finished(ops, checked, awaiting) ==> RestBytes(w, rba, ops, checked, awaiting) == []
  {
    hide Fits, Encode;
  }

  lemma EncodeCons(w: Width, r: Record, more: seq<Record>)
    requires WellFormed(w, r) && AllWellFormed(w, more)
    ensures AllWellFormed(w, [r] + more) && |EncodeAll(w, [r] + more)| == |Encode(w, r)| + |EncodeAll(w, more)|
  {
    hide Encode, WellFormed;
    assert ([r] + more)[1..] == more;
  }

  lemma OverflowStep(w: Width, room: nat, ops: seq<Operation>, checked: bool, awaiting: nat)
    requires !Finished(ops, checked, awaiting)
    ensures var p := NextPlan(w, ops, checked, awaiting);
            var n := p.wcount + p.rcount;
            if PlanLength(w, p) > room then OverflowAt(w, room, ops, checked, awaiting) == 0
            else
              var later := OverflowAt(w, room - PlanLength(w, p), ops[n..], checked, p.awaiting);
              later <= |ops[n..]| && OverflowAt(w, room, ops, checked, awaiting) == n + later
  {
    hide NextPlan, PlanLength;
  }

  // ---------------------------------------------------------------------------
  // One cycle
  // ---------------------------------------------------------------------------

  lemma AcceptedIsReported(w: Width, op: Operation)
    requires Acceptable(w, op)
    ensures forall s: nat | AskedSize(w, op, s) :: Check(w, op).0 == Reported(w, op, s)
  {
    CheckStores(w, op);
    WidestIsAsked(w, op);
    hide Check, Reported, RefineNibble, AddressGood, ValueGood;
  }

  lemma AllReported(w: Width, ops: seq<Operation>)
    requires CheckAll(w, ops).1 == |ops|
    ensures ReportedAll(w, ops, CheckAll(w, ops).0) && AllFit(w, CheckAll(w, ops).0)
    ensures forall i :: 0 <= i < |ops| ==> Acceptable(w, ops[i])
  {
    CheckAllFirstBad(w, ops);
    CheckAllStores(w, ops);
    hide CheckAll, Check, Acceptable, AskedSize, Reported, Fits;
    forall i | 0 <= i < |ops|
      ensures Acceptable(w, ops[i]) && forall s: nat | AskedSize(w, ops[i], s) :: CheckAll(w, ops).0[i] == Reported(w, ops[i], s)
    {
      AcceptedIsReported(w, ops[i]);
    }
  }

  lemma FirstRefused(w: Width, ops: seq<Operation>)
    requires CheckAll(w, ops).1 < |ops|
    ensures var (out, bad, reason) := CheckAll(w, ops); Refused(w, ops, bad, reason)
  {
    CheckAllFirstBad(w, ops);
    var (out, bad, reason) := CheckAll(w, ops);
    CheckRefuses(w, ops[bad]);
    hide CheckAll, Check, Acceptable, AskedSize, Fits, EndianGiven, AddressGood, ValueGood;
  }

  lemma {:induction false} NoneCounted(ops: seq<Operation>)
    ensures CountBus(ops) == 0 <==> forall i :: 0 <= i < |ops| ==> ops[i].config
  {
    if ops != [] {
      NoneCounted(ops[1..]);
      assert forall i :: 0 < i < |ops| ==> ops[i] == ops[1..][i - 1];
    }
  }

  lemma AnswersForeseen(device: nat, deadline: nat, c: Ready, fate: Fate)
    requires c.ops != [] && |fate.out| == |c.ops|
    requires forall i :: 0 <= i < |c.ops| ==> fate.out[i] == c.ops[i].(format := fate.out[i].format)
    ensures Unanswered(AsSent(device, deadline, c, fate)) <==> NothingBack(c.ops)
  {
    NoneCounted(fate.out);
    hide CountBus;
    assert forall i :: 0 <= i < |c.ops| ==>
        fate.out[i].config == c.ops[i].config && fate.out[i].IsRead() == c.ops[i].IsRead();
  }

  /** The step from f to g is this fate. */
  predicate Befalls(f: Flushed, g: Flushed, fate: Fate) {
    && fate.rba == f.rba
    && g.callbacks == f.callbacks + Called([fate]) && g.sent == f.sent + Sendings([fate])
  }

  lemma OneCalled(f: Flushed, g: Flushed, fate: Fate)
    ensures Called([fate]) == if fate.called.Some? then [fate.called.value] else []
    ensures Sendings([fate]) == if fate.sent.Some? then [fate.sent.value] else []
  {
    assert [fate][1..] == [];
  }

  /** The fate of a cycle that the port can carry, given whether it fits and where it would run out of room. */
  function GoodFate(device: nat, deadline: nat, c: Ready, out: seq<Operation>, rba: nat, memory: bool, fits: bool, at: nat): Fate
    requires out != []
  {
    var s := Sent(rba, deadline, out[0].checked, Cycle(c.handle, device, out));
    Fate(rba, out,
         if !memory then Some(Callback(s.cycle, None, OOM))
         else if !fits then Some(Callback(s.cycle, Some(at), OVERFLOW))
         else if NothingBack(c.ops) then Some(Callback(s.cycle, Some(0), OK)) else None,
         if memory && fits then Some(s) else None)
  }

  lemma SendStep(w: Width, cap: Cap, f: Flushed, s: Sent, at: nat)
    requires Claimable(f.rba) && AllFit(w, s.cycle.ops) && s.rba == f.rba && s.rba < 0xFFFF
    requires cap.Packet? ==> at == OverflowAt(w, cap.room, s.cycle.ops, s.checked, 0)
    ensures var g, fits := SendOne(w, cap, f, s), cap.Holds(|CycleBytes(w, s)|);
            && g.callbacks == f.callbacks + (if !fits then [Callback(s.cycle, Some(at), OVERFLOW)]
                                             else if Unanswered(s) then [Callback(s.cycle, Some(0), OK)] else [])
            && g.sent == f.sent + if fits then [s] else []
  {
    hide SendOne, CycleBytes, OverflowAt, Unanswered, AllFit, Claimable;
    NilConcat(f.callbacks);
    NilConcat(f.sent);
    SendParts(w, cap, f, s);
  }

  lemma SendParts(w: Width, cap: Cap, f: Flushed, s: Sent)
    requires Claimable(f.rba) && AllFit(w, s.cycle.ops) && s.rba == f.rba && s.rba < 0xFFFF
    ensures var g, fits := SendOne(w, cap, f, s), cap.Holds(|CycleBytes(w, s)|);
            && (!fits ==> cap.Packet? && g.sent == f.sent
                          && g.callbacks == f.callbacks + [Callback(s.cycle, Some(OverflowAt(w, cap.room, s.cycle.ops, s.checked, 0)),
                                                                    OVERFLOW)])
            && (fits ==> g.sent == f.sent + [s]
                         && g.callbacks == if Unanswered(s) then f.callbacks + [Callback(s.cycle, Some(0), OK)] else f.callbacks)
  {
    hide CycleBytes, OverflowAt, Place, NextAddress, Unanswered, AllFit, NewResponse, Claimable;
  }

  lemma GoodExplained(w: Width, cap: Cap, device: nat, deadline: nat, c: Ready, memory: bool, out: seq<Operation>, rba: nat,
                      at: nat)
    requires !c.dead && c.ops != [] && ReportedAll(w, c.ops, out) && AllFit(w, out) && rba < 0xFFFF
    requires forall i :: 0 <= i < |c.ops| ==> Acceptable(w, c.ops[i])
    requires out[0].checked == c.ops[0].checked
    requires var s := Sent(rba, deadline, out[0].checked, Cycle(c.handle, device, out));
             !cap.Holds(|CycleBytes(w, s)|) ==> RunsOut(w, cap.room, s, at)
    ensures var s := Sent(rba, deadline, out[0].checked, Cycle(c.handle, device, out));
            Explained(w, cap, device, deadline, c, memory,
                      GoodFate(device, deadline, c, out, rba, memory, cap.Holds(|CycleBytes(w, s)|), at))
  {
    assert |out| == |c.ops|;
    hide CycleBytes, RunsOut, ReportedAll, AllFit, Acceptable, NothingBack, Refused;
    var s := Sent(rba, deadline, out[0].checked, Cycle(c.handle, device, out));
    var fate := GoodFate(device, deadline, c, out, rba, memory, cap.Holds(|CycleBytes(w, s)|), at);
    assert AsSent(device, deadline, c, fate) == s;
  }

  /** What was sent, and why not. */
  lemma SendExplained(w: Width, cap: Cap, device: nat, deadline: nat, f: Flushed, c: Ready, out: seq<Operation>)
    returns (fate: Fate)
    requires Claimable(f.rba) && !c.dead && c.ops != [] && ReportedAll(w, c.ops, out) && AllFit(w, out)
    requires forall i :: 0 <= i < |c.ops| ==> Acceptable(w, c.ops[i])
    requires forall i :: 0 <= i < |c.ops| ==> out[i] == c.ops[i].(format := out[i].format)
    ensures var s := Sent(f.rba, deadline, out[0].checked, Cycle(c.handle, device, out));
            Befalls(f, SendOne(w, cap, f, s), fate) && Explained(w, cap, device, deadline, c, true, fate)
  {
    assert f.rba < 0xFFFF && |out| == |c.ops|;
    var s := Sent(f.rba, deadline, out[0].checked, Cycle(c.handle, device, out));
    assert out[0].checked == c.ops[0].checked;
    hide ReportedAll, AllFit, Acceptable, OverflowAt, CycleBytes, RunsOut, NothingBack, Explained, Claimable, Unanswered, SendOne;
    var fits := cap.Holds(|CycleBytes(w, s)|);
    var at := if cap.Packet? then OverflowAt(w, cap.room, out, s.checked, 0) else 0;
    if !fits {
      SendRunsOut(w, cap.room, s);
    }
    fate := GoodFate(device, deadline, c, out, f.rba, true, fits, at);
    GoodExplained(w, cap, device, deadline, c, true, out, f.rba, at);
    SendStep(w, cap, f, s, at);
    assert AsSent(device, deadline, c, fate) == s;
    AnswersForeseen(device, deadline, c, fate);
    OneCalled(f, SendOne(w, cap, f, s), fate);
  }

  lemma OverflowWithin(w: Width, room: nat, ops: seq<Operation>, checked: bool, awaiting: nat)
    ensures OverflowAt(w, room, ops, checked, awaiting) <= |ops|
  {
  }

  lemma SendRunsOut(w: Width, room: nat, s: Sent)
    requires AllFit(w, s.cycle.ops) && s.rba < 0xFFFF && |CycleBytes(w, s)| > room
    ensures RunsOut(w, room, s, OverflowAt(w, room, s.cycle.ops, s.checked, 0))
  {
    hide CutAt, RecordsOf, OverflowAt, AllFit, RestBytes;
    OverflowWithin(w, room, s.cycle.ops, s.checked, 0);
    RoomRunsOut(w, room, s.rba, s.cycle.ops, s.checked, 0);
    var rs, at := RecordsFor(w, s), OverflowAt(w, room, s.cycle.ops, s.checked, 0);
    var j: nat, aw: nat :|
      j < |rs| && CutAt(w, room, rs, j) && rs[j..] == RecordsOf(w, s.rba, s.cycle.ops[at..], s.checked, aw);
    assert RecordsFor(w, s)[j..] == RecordsOf(w, s.rba, s.cycle.ops[at..], s.checked, aw);
  }

  lemma OneExplained(w: Width, cap: Cap, device: nat, deadline: nat, f: Flushed, c: Ready, memory: bool)
    returns (fate: Fate)
    requires Claimable(f.rba)
    ensures Befalls(f, FlushOne(w, cap, device, deadline, f, c, memory), fate)
    ensures Explained(w, cap, device, deadline, c, memory, fate)
  {
    hide Explained, Befalls;
    var (out, bad, reason) := CheckAll(w, c.ops);
    CheckAllKeeps(w, c.ops);
    if c.dead || c.ops == [] {
      fate := BareExplained(w, cap, device, deadline, f, c, memory);
    } else if bad < |c.ops| {
      fate := BadExplained(w, cap, device, deadline, f, c, memory);
    } else {
      AllReported(w, c.ops);
      hide CheckAll, SendOne, ReportedAll, AllFit, Acceptable;
      if memory {
        fate := SendExplained(w, cap, device, deadline, f, c, out);
      } else {
        fate := NoMemoryExplained(w, cap, device, deadline, f, c, out);
      }
    }
  }

  lemma BareExplained(w: Width, cap: Cap, device: nat, deadline: nat, f: Flushed, c: Ready, memory: bool)
    returns (fate: Fate)
    requires Claimable(f.rba) && (c.dead || c.ops == [])
    ensures Befalls(f, FlushOne(w, cap, device, deadline, f, c, memory), fate)
    ensures Explained(w, cap, device, deadline, c, memory, fate)
  {
    fate := Fate(f.rba, [], Some(Callback(Cycle(c.handle, device, []), None, if c.dead then OOM else OK)), None);
    OneCalled(f, FlushOne(w, cap, device, deadline, f, c, memory), fate);
    NilConcat(f.sent);
    hide SendOne, ReportedAll, AllFit, Acceptable, Refused, RunsOut, CycleBytes, Called, Sendings;
  }

  lemma BadExplained(w: Width, cap: Cap, device: nat, deadline: nat, f: Flushed, c: Ready, memory: bool)
    returns (fate: Fate)
    requires Claimable(f.rba) && !c.dead && c.ops != [] && CheckAll(w, c.ops).1 < |c.ops|
    ensures Befalls(f, FlushOne(w, cap, device, deadline, f, c, memory), fate)
    ensures Explained(w, cap, device, deadline, c, memory, fate)
  {
    var (out, bad, reason) := CheckAll(w, c.ops);
    FirstRefused(w, c.ops);
    fate := Fate(f.rba, out, Some(Callback(Cycle(c.handle, device, out), Some(bad), reason)), None);
    OneCalled(f, FlushOne(w, cap, device, deadline, f, c, memory), fate);
    NilConcat(f.sent);
    assert !Acceptable(w, c.ops[bad]);
    hide CheckAll, SendOne, ReportedAll, AllFit, Acceptable, Refused, RunsOut, CycleBytes, Called, Sendings;
  }

  lemma NoMemoryExplained(w: Width, cap: Cap, device: nat, deadline: nat, f: Flushed, c: Ready, out: seq<Operation>)
    returns (fate: Fate)
    requires Claimable(f.rba) && !c.dead && c.ops != [] && out == CheckAll(w, c.ops).0 && CheckAll(w, c.ops).1 == |c.ops|
    ensures Befalls(f, FlushOne(w, cap, device, deadline, f, c, false), fate)
    ensures Explained(w, cap, device, deadline, c, false, fate)
  {
    AllReported(w, c.ops);
    fate := Fate(f.rba, out, Some(Callback(Cycle(c.handle, device, out), None, OOM)), None);
    OneCalled(f, FlushOne(w, cap, device, deadline, f, c, false), fate);
    NilConcat(f.sent);
    hide CheckAll, SendOne, ReportedAll, AllFit, Acceptable, Refused, RunsOut, CycleBytes, Called, Sendings;
  }

  // ---------------------------------------------------------------------------
  // A whole flush
  // ---------------------------------------------------------------------------

  /** Each cycle of a flush has had its fate, in order. */
  ghost predicate AllExplained(w: Width, cap: Cap, device: nat, deadline: nat, f: Flushed, cycles: seq<Ready>,
                               memory: seq<bool>, g: Flushed, fates: seq<Fate>)
    requires |memory| == |cycles|
  {
    && |fates| == |cycles|
    && (forall i :: 0 <= i < |cycles| ==> Explained(w, cap, device, deadline, cycles[i], memory[i], fates[i]))
    && g.callbacks == f.callbacks + Called(fates) && g.sent == f.sent + Sendings(fates)
  }

  /** The callbacks and the cycles sent are exactly those that the fates of the cycles tell. */
  lemma {:induction false} FlushExplained(w: Width, cap: Cap, device: nat, deadline: nat, f: Flushed, cycles: seq<Ready>,
                                          memory: seq<bool>)
    requires Claimable(f.rba) && |memory| == |cycles|
    ensures exists fates ::
              AllExplained(w, cap, device, deadline, f, cycles, memory,
                           FlushAll(w, cap, device, deadline, f, cycles, memory), fates)
    decreases cycles
  {
    hide FlushOne, Explained;
    var all := FlushAll(w, cap, device, deadline, f, cycles, memory);
    if cycles == [] {
      NilConcat(f.callbacks);
      NilConcat(f.sent);
      assert AllExplained(w, cap, device, deadline, f, cycles, memory, all, []);
    } else {
      var g := FlushOne(w, cap, device, deadline, f, cycles[0], memory[0]);
      FlushOneClaims(w, cap, device, deadline, f, cycles[0], memory[0]);
      var fate := OneExplained(w, cap, device, deadline, f, cycles[0], memory[0]);
      FlushExplained(w, cap, device, deadline, g, cycles[1..], memory[1..]);
      assert all == FlushAll(w, cap, device, deadline, g, cycles[1..], memory[1..]);
      var more :| AllExplained(w, cap, device, deadline, g, cycles[1..], memory[1..], all, more);
      FatesCons(w, cap, device, deadline, f, cycles, memory, g, fate, more, all);
    }
  }

  lemma FatesCons(w: Width, cap: Cap, device: nat, deadline: nat, f: Flushed, cycles: seq<Ready>, memory: seq<bool>,
                  g: Flushed, fate: Fate, more: seq<Fate>, all: Flushed)
    requires cycles != [] && |memory| == |cycles| && Befalls(f, g, fate)
    requires Explained(w, cap, device, deadline, cycles[0], memory[0], fate)
    requires AllExplained(w, cap, device, deadline, g, cycles[1..], memory[1..], all, more)
    ensures AllExplained(w, cap, device, deadline, f, cycles, memory, all, [fate] + more)
  {
    hide Explained;
    var fates := [fate] + more;
    assert fates[1..] == more;
    assert forall i :: 0 < i < |cycles| ==>
        cycles[i] == cycles[1..][i - 1] && memory[i] == memory[1..][i - 1] && fates[i] == more[i - 1];
    OneCalled(f, g, fate);
    assert Called(fates) == Called([fate]) + Called(more) && Sendings(fates) == Sendings([fate]) + Sendings(more);
    ConcatAssoc(f.callbacks, Called([fate]), Called(more));
    ConcatAssoc(f.sent, Sendings([fate]), Sendings(more));
  }

  /** The bytes of the cycle as it is packed are no more than a message can carry. */
  ghost predicate FitsMessage(w: Width, cap: Cap, device: nat, deadline: nat, c: Ready, fate: Fate) {
    var s := AsSent(device, deadline, c, fate);
    AllFit(w, s.cycle.ops) && s.rba < 0xFFFF && cap.Holds(|CycleBytes(w, s)|)
  }

  /** What the statuses of a flush mean. A cycle is reported as OK exactly when it is empty, or when it is sent and nothing
      is to come back; as out of memory exactly when memory ran out while it was filled or for its response; as too long
      exactly when nothing else is wrong with it; and for the other reasons exactly when the port cannot carry it. */
  lemma StatusesExact(w: Width, cap: Cap, device: nat, deadline: nat, c: Ready, memory: bool, fate: Fate)
    requires Explained(w, cap, device, deadline, c, memory, fate)
    ensures var good := forall i :: 0 <= i < |c.ops| ==> Acceptable(w, c.ops[i]);
            var fits := FitsMessage(w, cap, device, deadline, c, fate);
            var status := if fate.called.Some? then Some(fate.called.value.status) else None;
            && (status == Some(OK) <==> !c.dead && (c.ops == [] || (good && memory && fits && NothingBack(c.ops))))
            && (status == Some(OOM) <==> c.dead || (c.ops != [] && good && !memory))
            && (status == Some(OVERFLOW) <==> !c.dead && c.ops != [] && good && memory && !fits)
            && (status == Some(WIDTH) || status == Some(ENDIAN) || status == Some(ADDRESS) <==> !c.dead && !good)
            && (status == None <==> !c.dead && c.ops != [] && good && memory && fits && !NothingBack(c.ops))
            && (fate.sent.Some? <==> !c.dead && c.ops != [] && good && memory && fits)
  {
    RefusedStatus(w, c, fate);
    hide CycleBytes, Acceptable, NothingBack, RunsOut, ReportedAll, AllFit, Refused;
  }

  lemma RefusedStatus(w: Width, c: Ready, fate: Fate)
    ensures fate.called.Some? && fate.called.value.at.Some?
            && Refused(w, c.ops, fate.called.value.at.value, fate.called.value.status) ==>
              fate.called.value.status == WIDTH || fate.called.value.status == ENDIAN || fate.called.value.status == ADDRESS
  {
    if fate.called.Some? && fate.called.value.at.Some? && fate.called.value.at.value < |c.ops| {
      WidestIsAsked(w, c.ops[fate.called.value.at.value]);
    }
    hide RefineNibble, EndianGiven, AddressGood, Acceptable, AskedSize;
  }

  /** A flush in which no cycle is too long fills its packets: none could have taken the first cycle of the next one. */
  lemma {:induction false} FlushFills(w: Width, room: nat, device: nat, deadline: nat, f: Flushed, cycles: seq<Ready>,
                                      memory: seq<bool>)
    requires Claimable(f.rba) && |memory| == |cycles| && Filled(room, f.frames)
    ensures var g := FlushAll(w, Packet(room), device, deadline, f, cycles, memory);
            (forall i :: |f.callbacks| <= i < |g.callbacks| ==> g.callbacks[i].status != OVERFLOW) ==> Filled(room, g.frames)
    decreases cycles
  {
    hide FlushOne, Filled, Explained;
    if cycles != [] {
      var g := FlushOne(w, Packet(room), device, deadline, f, cycles[0], memory[0]);
      FlushOneClaims(w, Packet(room), device, deadline, f, cycles[0], memory[0]);
      OneFilled(w, room, device, deadline, f, cycles[0], memory[0]);
      var fate := OneExplained(w, Packet(room), device, deadline, f, cycles[0], memory[0]);
      FlushExplained(w, Packet(room), device, deadline, g, cycles[1..], memory[1..]);
      var all := FlushAll(w, Packet(room), device, deadline, g, cycles[1..], memory[1..]);
      assert FlushAll(w, Packet(room), device, deadline, f, cycles, memory) == all;
      var more :| AllExplained(w, Packet(room), device, deadline, g, cycles[1..], memory[1..], all, more);
      assert all.callbacks[..|g.callbacks|] == g.callbacks;
      if !ReportsOverflow(f, g) {
        FlushFills(w, room, device, deadline, g, cycles[1..], memory[1..]);
      } else {
        assert all.callbacks[|f.callbacks|] == g.callbacks[|f.callbacks|];
      }
    }
  }

  // ---------------------------------------------------------------------------
  // Checked and silent cycles
  // ---------------------------------------------------------------------------

  /** The read of the error register that returns to rba | 1. */
  function StatusRead(w: Width, rba: nat): Slave.Access {
    Slave.ConfigRead(w.data, 8 - w.data, Slave.ToConfig(rba + 1))
  }

  lemma {:induction false} StatusInTrace(w: Width, rba: nat, ops: seq<Operation>, checked: bool, awaiting: nat)
    ensures StatusRead(w, rba) in StepAccesses(w, rba, Trace(w, ops, checked, awaiting))
            <==> checked && awaiting + CountBus(ops) > 0
    decreases |ops|, awaiting
  {
    hide AccessOf;
    var steps := Trace(w, ops, checked, awaiting);
    if Finished(ops, checked, awaiting) {
    } else if Full(w, checked, awaiting) || ops == [] {
      assert steps == [ReadStatus] + Trace(w, ops, checked, 0);
      assert StepAccesses(w, rba, steps)[0] == StatusRead(w, rba);
    } else {
      var rest := Trace(w, ops[1..], checked, Charge(ops[0], awaiting));
      StatusInTrace(w, rba, ops[1..], checked, Charge(ops[0], awaiting));
      NoStatus(w, rba, ops[0]);
      assert steps == [Do(ops[0])] + rest && steps[1..] == rest;
      assert StepAccesses(w, rba, steps) == [AccessOf(w, rba, ops[0])] + StepAccesses(w, rba, rest);
    }
  }

  lemma NoStatus(w: Width, rba: nat, op: Operation)
    ensures AccessOf(w, rba, op) != StatusRead(w, rba)
  {
    hide ConfigReadAddress, Mirror;
  }

  /** Closing decides about checking: of a cycle whose operations are as the interface makes them, the records that are
      sent read the error register iff the cycle was closed with checking and holds a bus operation. */
  lemma ClosedIsChecked(w: Width, cap: Cap, device: nat, deadline: nat, handle: nat, added: seq<Operation>, checked: bool,
                        closed: seq<Operation>, memory: bool, fate: Fate)
    requires forall i :: 0 <= i < |added| ==> !added[i].checked
    requires ClosedFrom(added, checked, closed)
    requires Explained(w, cap, device, deadline, Ready(handle, false, closed), memory, fate) && fate.sent.Some?
    ensures AllFit(w, fate.sent.value.cycle.ops)
    ensures StatusRead(w, fate.sent.value.rba) in Slave.MeaningAll(w, RecordsFor(w, fate.sent.value))
            <==> checked && exists i :: 0 <= i < |added| && added[i].IsBus()
  {
    hide Slave.MeaningAll, StepAccesses, Trace, RecordsOf, StatusRead, CountBus, Explained, AllFit;
    var s := fate.sent.value;
    var c := Ready(handle, false, closed);
    SentAsClosed(w, cap, device, deadline, c, memory, fate);
    PackingKeepsMeaning(w, s.rba, s.cycle.ops, s.checked, 0);
    StatusInTrace(w, s.rba, s.cycle.ops, s.checked, 0);
    NoneCounted(s.cycle.ops);
    SameBus(added, checked, closed, s.cycle.ops);
  }

  lemma SameBus(added: seq<Operation>, checked: bool, closed: seq<Operation>, out: seq<Operation>)
    requires ClosedFrom(added, checked, closed) && |out| == |closed|
    requires forall i :: 0 <= i < |closed| ==> out[i].config == closed[i].config
    ensures (exists i :: 0 <= i < |added| && added[i].IsBus()) <==> !forall i :: 0 <= i < |out| ==> out[i].config
  {
    var n := |added|;
    if i :| 0 <= i < n && added[i].IsBus() {
      assert out[n - 1 - i].config == closed[n - 1 - i].config == added[i].config;
    }
    if i :| 0 <= i < n && !out[i].config {
      assert added[n - 1 - i].config == closed[i].config;
    }
  }

  lemma SentAsClosed(w: Width, cap: Cap, device: nat, deadline: nat, c: Ready, memory: bool, fate: Fate)
    requires Explained(w, cap, device, deadline, c, memory, fate) && fate.sent.Some? && !c.dead
    ensures var s := fate.sent.value;
            && c.ops != [] && |s.cycle.ops| == |c.ops| && s.checked == c.ops[0].checked && AllFit(w, s.cycle.ops)
            && forall i :: 0 <= i < |c.ops| ==> s.cycle.ops[i].config == c.ops[i].config
  {
    hide CycleBytes, RunsOut, NothingBack, AllFit, Refused;
    forall i | 0 <= i < |c.ops|
      ensures fate.out[i].config == c.ops[i].config
    {
      var size: nat :| AskedSize(w, c.ops[i], size);
    }
  }
}
