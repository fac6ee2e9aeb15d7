/** Whole packets of cycles, sent, performed, answered and matched against the responses in flight. */
module Exchange {
  import opened Seqs
  import opened Words
  import opened Widths
  import opened Operations
  import opened Records
  import opened Slave
  import opened SlaveFacts
  import opened Packing
  import opened PackingFacts
  import opened Responses
  import opened RoundTrip

  // ---------------------------------------------------------------------------
  // An end of the link
  // ---------------------------------------------------------------------------

  /** An end whose own devices are local, and whose config space takes answers for the cycles it has in flight. */
  function EndBus<D>(local: Bus<D>): Bus<(Inbox, D)> {
    Bus(
      (s: (Inbox, D), size, addrB, addrL, value) =>
        var (d, fail) := local.write(s.1, size, addrB, addrL, value); ((s.0, d), fail),
      (s: (Inbox, D), size, addrB, addrL) =>
        var (d, value, fail) := local.read(s.1, size, addrB, addrL); ((s.0, d), value, fail),
      (s: (Inbox, D), size, addr, value) => (WriteConfig(s.0, size, addr, value), s.1),
      (s: (Inbox, D)) => local.sdbOffset(s.1))
  }

  /** Config writes, one after another. */
  function WriteAll(box: Inbox, answers: seq<Access>): Inbox
    decreases answers
  {
    if answers == [] then box
    else if answers[0].ConfigWrite?
    then WriteAll(WriteConfig(box, answers[0].size, answers[0].addr, answers[0].value), answers[1..])
    else WriteAll(box, answers[1..])
  }

  predicate AllConfig(answers: seq<Access>) {
    forall i :: 0 <= i < |answers| ==> answers[i].ConfigWrite?
  }

  /** Every access is a config write to the given return address, or to that address with bit 0 set. */
  predicate Addressed(rba: nat, answers: seq<Access>) {
    forall i :: 0 <= i < |answers| ==>
      answers[i].ConfigWrite? && (answers[i].addr == rba || answers[i].addr == rba + 1)
  }

  lemma {:induction false} EndTakesConfig<D>(local: Bus<D>, box: Inbox, d: D, error: nat, answers: seq<Access>)
    requires AllConfig(answers)
    ensures Answers(EndBus(local), State((box, d), error), answers)
            == (State((WriteAll(box, answers), d), error), [])
    decreases answers
  {
    if answers != [] {
      var a := answers[0];
      EndTakesConfig(local, WriteConfig(box, a.size, a.addr, a.value), d, error, answers[1..]);
    }
  }

  lemma {:induction false} WriteAllConcat(box: Inbox, a: seq<Access>, b: seq<Access>)
    ensures WriteAll(box, a + b) == WriteAll(WriteAll(box, a), b)
    decreases a
  {
    hide WriteConfig;
    if a == [] {
      assert a + b == b;
    } else {
      assert (a + b)[1..] == a[1..] + b;
      if a[0].ConfigWrite? {
        WriteAllConcat(WriteConfig(box, a[0].size, a[0].addr, a[0].value), a[1..], b);
      } else {
        WriteAllConcat(box, a[1..], b);
      }
    }
  }

  // ---------------------------------------------------------------------------
  // One response among others
  // ---------------------------------------------------------------------------

  lemma SelectsBoth(rba: nat)
    requires rba % 2 == 0 && rba < 0x1_0000
    ensures Selects(rba) == rba && Selects(rba + 1) == rba
  {
  }

  /** Answers to one return address only touch the first response that has it. */
  lemma {:induction false} OnlyItsOwn(box: Inbox, i: nat, rba: nat, answers: seq<Access>)
    requires rba % 2 == 0 && rba < 0x1_0000 && Addressed(rba, answers)
    requires i < |box.queue| && i == Match(box.queue, rba)
    ensures match Feed(box.queue[i], answers)
            case Waiting(r) => r.address == rba && WriteAll(box, answers) == Mailbox(box.queue[i := r], box.done)
            case Matched(c, rest) =>
              rest == [] ==>
              WriteAll(box, answers) == Mailbox(box.queue[..i] + box.queue[i + 1..], box.done + [c])
    decreases answers
  {
    if answers == [] {
      assert box.queue[i := box.queue[i]] == box.queue;
    } else {
      var a := answers[0];
      SelectsBoth(rba);
      assert Addressed(rba, answers[1..]) by {
        assert forall j :: 0 <= j < |answers| - 1 ==> answers[1..][j] == answers[j + 1];
      }
      var box1 := WriteConfig(box, a.size, a.addr, a.value);
      AcceptKeepsAddress(box.queue[i], a.size, a.addr, a.value);
      match Accept(box.queue[i], a.size, a.addr, a.value)
      case Pending(r) =>
        MatchAfter(box.queue, i, r, rba);
        hide Accept, Match, Selects, WriteConfig;
        OnlyItsOwn(box1, i, rba, answers[1..]);
        var fed := Feed(r, answers[1..]);
        UpdateTwice(box.queue, i, r, if fed.Waiting? then fed.response else r);
      case Done(c) =>
    }
  }

  lemma UpdateTwice<T>(q: seq<T>, i: nat, x: T, y: T)
    requires i < |q|
    ensures q[i := x][i := y] == q[i := y]
    ensures q[i := x][..i] == q[..i] && q[i := x][i + 1..] == q[i + 1..]
  {
  }

  lemma AcceptKeepsAddress(r: Response, size: nat, addr: nat, value: nat)
    requires Sound(r)
    ensures var v := Accept(r, size, addr, value); v.Pending? ==> v.response.address == r.address
  {
    hide Mark, FindRead, FindBus, FinalStatus;
  }

  lemma {:induction false} MatchAfter(q: seq<Response>, i: nat, r: Response, rba: nat)
    requires i < |q| && i == Match(q, rba) && r.address == rba
    ensures Match(q[i := r], rba) == i
    decreases q
  {
    if i > 0 {
      assert q[i := r][1..] == q[1..][i - 1 := r];
      MatchAfter(q[1..], i - 1, r, rba);
    }
  }

  lemma {:induction false} AnswersAddressed<S>(w: Width, rba: nat, bus: Bus<S>, st: State<S>, steps: seq<Step>)
    ensures Addressed(rba, Answers(bus, st, StepAccesses(w, rba, steps)).1)
    decreases steps
  {
    hide Perform, Mirror, ConfigReadAddress;
    if steps != [] {
      var a := StepAccess(w, rba, steps[0]);
      AnswersAddressed(w, rba, bus, Perform(bus, st, a).0, steps[1..]);
      assert StepAccesses(w, rba, steps)[1..] == StepAccesses(w, rba, steps[1..]);
    }
  }

  // ---------------------------------------------------------------------------
  // One cycle
  // ---------------------------------------------------------------------------

  /** A cycle as it goes onto the wire. */
  datatype Sent = Sent(rba: nat, deadline: nat, checked: bool, cycle: Cycle)

  predicate Sendable(w: Width, s: Sent) {
    && AllFit(w, s.cycle.ops) && s.rba % 2 == 0 && s.rba < 0xFFFF
    && forall i :: 0 <= i < |s.cycle.ops| ==> !s.cycle.ops[i].error
  }

  function RecordsFor(w: Width, s: Sent): seq<Record> {
    RecordsOf(w, s.rba, s.cycle.ops, s.checked, 0)
  }

  /** Nothing will come back, so the callback is made at once and no response is registered. */
  predicate Unanswered(s: Sent) {
    Silent(s.cycle.ops, s.checked, 0)
  }

  function ResponseFor(s: Sent): Response {
    NewResponse(s.rba, s.deadline, s.cycle, s.checked)
  }

  /** The remote end's state afterwards, and the cycle's callback. */
  function Expected<S>(w: Width, bus: Bus<S>, st: State<S>, s: Sent): (State<S>, Completion) {
    var (st1, ops) := Outcome(w, s.rba, bus, st, s.checked, s.cycle.ops);
    (st1, Completion(s.cycle.(ops := ops), FinalStatus(ops)))
  }

  lemma {:induction false} OutcomeState<S>(w: Width, rba: nat, bus: Bus<S>, st: State<S>, ops: seq<Operation>,
                                           checked: bool, awaiting: nat)
    ensures Answers(bus, st, StepAccesses(w, rba, Trace(w, ops, checked, awaiting))).0
            == Outcome(w, rba, bus, st, checked, ops).0
    decreases |ops|, awaiting
  {
    hide AccessOf, Performed;
    if Finished(ops, checked, awaiting) {
    } else if Full(w, checked, awaiting) || ops == [] {
      OutcomeState(w, rba, bus, st, ops, checked, 0);
      var rest := Trace(w, ops, checked, 0);
      var accesses := StepAccesses(w, rba, [ReadStatus] + rest);
      assert ([ReadStatus] + rest)[1..] == rest;
      assert accesses[0] == StepAccess(w, rba, ReadStatus) && accesses[1..] == StepAccesses(w, rba, rest);
      assert Perform(bus, st, accesses[0]).0 == st;
    } else {
      var rest := Trace(w, ops[1..], checked, Charge(ops[0], awaiting));
      var accesses := StepAccesses(w, rba, [Do(ops[0])] + rest);
      assert ([Do(ops[0])] + rest)[1..] == rest;
      assert accesses[0] == AccessOf(w, rba, ops[0]) && accesses[1..] == StepAccesses(w, rba, rest);
      hide Perform;
      OutcomeState(w, rba, bus, Perform(bus, st, AccessOf(w, rba, ops[0])).0, ops[1..], checked,
                   Charge(ops[0], awaiting));
    }
  }

  /** What the remote end does with a cycle, and what it answers. */
  function CycleAnswers<S>(w: Width, bus: Bus<S>, st: State<S>, s: Sent): (State<S>, seq<Access>) {
    Answers(bus, st, MeaningAll(w, RecordsFor(w, s)))
  }

  /** Exactly one callback, on the last answer, with every operation's own result; other responses are untouched. */
  lemma CycleCompletes<S>(w: Width, bus: Bus<S>, st: State<S>, s: Sent, box: Inbox, i: nat)
    requires Sendable(w, s)
    requires !Unanswered(s) ==> i < |box.queue| && i == Match(box.queue, s.rba) && box.queue[i] == ResponseFor(s)
    ensures var (st1, answers) := CycleAnswers(w, bus, st, s);
            var (st2, completion) := Expected(w, bus, st, s);
            && st1 == st2
            && Addressed(s.rba, answers)
            && (answers == [] <==> Unanswered(s))
            && WriteAll(box, answers)
               == if Unanswered(s) then box
                  else Mailbox(box.queue[..i] + box.queue[i + 1..], box.done + [completion])
  {
    var all := s.cycle.ops;
    var final := Outcome(w, s.rba, bus, st, s.checked, all).1;
    PackingKeepsMeaning(w, s.rba, all, s.checked, 0);
    AnswersAddressed(w, s.rba, bus, st, Trace(w, all, s.checked, 0));
    OutcomeState(w, s.rba, bus, st, all, s.checked, 0);
    AnswersEmpty(bus, st, StepAccesses(w, s.rba, Trace(w, all, s.checked, 0)));
    SilentTrace(w, s.rba, all, s.checked, 0);
    assert all[0..] == all;
    if !Unanswered(s) {
      var r := ResponseFor(s);
      StartsProgress(w, bus, st, s);
      Journey(w, s.rba, bus, s.checked, all, final, 0, 0, 0, st, r);
      OnlyItsOwn(box, i, s.rba, CycleAnswers(w, bus, st, s).1);
    }
  }

  lemma StartsProgress<S>(w: Width, bus: Bus<S>, st: State<S>, s: Sent)
    requires Sendable(w, s)
    ensures var all := s.cycle.ops;
            Progress(w, s.rba, bus, s.checked, all, Outcome(w, s.rba, bus, st, s.checked, all).1, 0, 0, 0, st,
                     ResponseFor(s))
  {
    hide Fits;
    var all := s.cycle.ops;
    var final := Outcome(w, s.rba, bus, st, s.checked, all).1;
    assert all[0..] == all && final[0..] == final && all[0..0] == [];
    OutcomeShape(w, s.rba, bus, st, s.checked, all);
  }

  lemma {:induction false} OutcomeShape<S>(w: Width, rba: nat, bus: Bus<S>, st: State<S>, checked: bool,
                                           ops: seq<Operation>)
    ensures var out := Outcome(w, rba, bus, st, checked, ops).1;
            SameShape(out, ops) && ErrorsWhereChecked(ops, out, checked)
    decreases ops
  {
    hide Perform, AccessOf, Failed;
    if ops != [] {
      OutcomeShape(w, rba, bus, Perform(bus, st, AccessOf(w, rba, ops[0])).0, checked, ops[1..]);
    }
  }

  // ---------------------------------------------------------------------------
  // A packet of cycles
  // ---------------------------------------------------------------------------

  function RequestOf(w: Width, cycles: seq<Sent>): seq<Record> {
    if cycles == [] then [] else RecordsFor(w, cycles[0]) + RequestOf(w, cycles[1..])
  }

  /** The responses registered for a packet, in sending order. */
  function ResponsesFor(cycles: seq<Sent>): (q: seq<Response>)
    ensures AllSound(q) && |q| <= |cycles|
    ensures forall r :: r in q ==> exists s :: s in cycles && s.rba == r.address
  {
    if cycles == [] then []
    else if Unanswered(cycles[0]) then ResponsesFor(cycles[1..])
    else [ResponseFor(cycles[0])] + ResponsesFor(cycles[1..])
  }

  /** An inbox that awaits the answers to cycles, with older responses before them and newer ones behind. */
  function Awaiting(older: seq<Response>, cycles: seq<Sent>, newer: seq<Response>, done: seq<Completion>): (box: Inbox)
    requires AllSound(older) && AllSound(newer)
    ensures box == Mailbox(older + (ResponsesFor(cycles) + newer), done)
  {
    var all := older + (ResponsesFor(cycles) + newer);
    assert AllSound(all) by {
      hide Sound;
      assert forall i :: 0 <= i < |all| ==> Sound(all[i]);
    }
    Mailbox(all, done)
  }

  /** The remote end's state after a packet, and the callbacks of its answered cycles in order. */
  function ExpectedAll<S>(w: Width, bus: Bus<S>, st: State<S>, cycles: seq<Sent>): (State<S>, seq<Completion>)
    decreases cycles
  {
    if cycles == [] then (st, []) else
      var (st1, c) := Expected(w, bus, st, cycles[0]);
      var (st2, rest) := ExpectedAll(w, bus, st1, cycles[1..]);
      (st2, if Unanswered(cycles[0]) then rest else [c] + rest)
  }

  /** All cycles can be sent, and no two that await answers share a return address. */
  predicate AllSendable(w: Width, cycles: seq<Sent>) {
    && (forall i :: 0 <= i < |cycles| ==> Sendable(w, cycles[i]))
    && forall i, j :: 0 <= i < j < |cycles| && !Unanswered(cycles[i]) && !Unanswered(cycles[j]) ==>
         cycles[i].rba != cycles[j].rba
  }

  /** No older response waits on an address used by the cycles. */
  predicate Apart(q: seq<Response>, cycles: seq<Sent>) {
    forall i, j :: 0 <= i < |q| && 0 <= j < |cycles| && !Unanswered(cycles[j]) ==> q[i].address != cycles[j].rba
  }

  lemma {:induction false} MatchPast(before: seq<Response>, after: seq<Response>, rba: nat)
    requires forall i :: 0 <= i < |before| ==> before[i].address != rba
    requires after != [] && after[0].address == rba
    ensures Match(before + after, rba) == |before|
    decreases before
  {
    if before == [] {
      assert before + after == after;
    } else {
      assert (before + after)[1..] == before[1..] + after;
      MatchPast(before[1..], after, rba);
    }
  }

  /** Every answered cycle of a packet gets its own single callback, in order; responses of other packets are untouched. */
  lemma {:induction false} PacketCompletes<S>(w: Width, bus: Bus<S>, st: State<S>, cycles: seq<Sent>,
                                              older: seq<Response>, newer: seq<Response>, done: seq<Completion>)
    requires AllSendable(w, cycles) && AllSound(older) && AllSound(newer) && Apart(older, cycles)
    ensures var (st1, answers) := Answers(bus, st, MeaningAll(w, RequestOf(w, cycles)));
            var (st2, completions) := ExpectedAll(w, bus, st, cycles);
            && st1 == st2
            && AllConfig(answers)
            && WriteAll(Awaiting(older, cycles, newer, done), answers) == Mailbox(older + newer, done + completions)
    decreases cycles
  {
    if cycles == [] {
      NilConcat(newer);
      NilConcat(done);
    } else {
      PacketStep(w, bus, st, cycles, older, newer, done);
      var (st1, c) := Expected(w, bus, st, cycles[0]);
      assert AllSendable(w, cycles[1..]) && Apart(older, cycles[1..]) by { TailSendable(w, cycles, older); }
      PacketCompletes(w, bus, st1, cycles[1..], older, newer, if Unanswered(cycles[0]) then done else done + [c]);
      hide Answers, Expected, RecordsFor, ResponsesFor, Unanswered, AllSendable, Apart;
      ConcatAssoc(done, [c], ExpectedAll(w, bus, st1, cycles[1..]).1);
    }
  }

  lemma TailSendable(w: Width, cycles: seq<Sent>, older: seq<Response>)
    requires cycles != [] && AllSendable(w, cycles) && Apart(older, cycles)
    ensures AllSendable(w, cycles[1..]) && Apart(older, cycles[1..])
  {
    hide Sendable;
  }

  /** The first cycle of a packet, with the answers to the rest still to come. */
  lemma PacketStep<S>(w: Width, bus: Bus<S>, st: State<S>, cycles: seq<Sent>, older: seq<Response>,
                      newer: seq<Response>, done: seq<Completion>)
    requires cycles != [] && AllSendable(w, cycles) && AllSound(older) && AllSound(newer) && Apart(older, cycles)
    ensures var (st1, c) := Expected(w, bus, st, cycles[0]);
            var (stN, answers) := Answers(bus, st, MeaningAll(w, RequestOf(w, cycles)));
            var (stM, more) := Answers(bus, st1, MeaningAll(w, RequestOf(w, cycles[1..])));
            && stN == stM
            && (AllConfig(more) ==> AllConfig(answers))
            && WriteAll(Awaiting(older, cycles, newer, done), answers)
               == WriteAll(Awaiting(older, cycles[1..], newer, if Unanswered(cycles[0]) then done else done + [c]), more)
  {
    var s := cycles[0];
    var st1 := Expected(w, bus, st, s).0;
    var (_, first) := CycleAnswers(w, bus, st, s);
    var rest := MeaningAll(w, RequestOf(w, cycles[1..]));
    FirstCycle(w, bus, st, cycles, older, newer, done);
    MeaningAllConcat(w, RecordsFor(w, s), RequestOf(w, cycles[1..]));
    AnswersConcat(bus, st, MeaningAll(w, RecordsFor(w, s)), rest);
    WriteAllConcat(Awaiting(older, cycles, newer, done), first, Answers(bus, st1, rest).1);
    hide Expected, Unanswered, RecordsFor, Answers, WriteAll, Awaiting, Addressed, AllSendable, Apart;
    AllConfigConcat(first, Answers(bus, st1, rest).1);
  }

  lemma AllConfigConcat(a: seq<Access>, b: seq<Access>)
    ensures AllConfig(a + b) <==> AllConfig(a) && AllConfig(b)
  {
    assert forall i :: 0 <= i < |a| ==> (a + b)[i] == a[i];
    assert forall i :: 0 <= i < |b| ==> (a + b)[|a| + i] == b[i];
  }

  lemma FirstCycle<S>(w: Width, bus: Bus<S>, st: State<S>, cycles: seq<Sent>, older: seq<Response>,
                      newer: seq<Response>, done: seq<Completion>)
    requires cycles != [] && AllSendable(w, cycles) && AllSound(older) && AllSound(newer) && Apart(older, cycles)
    ensures var (st1, c) := Expected(w, bus, st, cycles[0]);
            var (st2, first) := CycleAnswers(w, bus, st, cycles[0]);
            && st1 == st2 && AllConfig(first)
            && WriteAll(Awaiting(older, cycles, newer, done), first)
               == Awaiting(older, cycles[1..], newer, if Unanswered(cycles[0]) then done else done + [c])
  {
    var s := cycles[0];
    var box := Awaiting(older, cycles, newer, done);
    assert Sendable(w, s);
    assert !Unanswered(s) ==> forall i :: 0 <= i < |older| ==> older[i].address != s.rba;
    assert Unanswered(s) ==> ResponsesFor(cycles) == ResponsesFor(cycles[1..]);
    hide Sendable, AllSendable, Apart, Expected, CycleAnswers;
    if !Unanswered(s) {
      assert ResponsesFor(cycles) == [ResponseFor(s)] + ResponsesFor(cycles[1..]);
      ConcatAssoc([ResponseFor(s)], ResponsesFor(cycles[1..]), newer);
      MatchPast(older, ResponsesFor(cycles) + newer, s.rba);
      SplitQueue(older, ResponseFor(s), ResponsesFor(cycles[1..]) + newer);
    }
    hide ResponseFor, Unanswered, Match;
    CycleCompletes(w, bus, st, s, box, |older|);
  }

  lemma SplitQueue(others: seq<Response>, r: Response, more: seq<Response>)
    ensures var q := others + ([r] + more);
            q[|others|] == r && q[..|others|] == others && q[|others| + 1..] == more
  {
  }

  // ---------------------------------------------------------------------------
  // Bytes out, bytes back
  // ---------------------------------------------------------------------------

  lemma {:induction false} RequestWellFormed(w: Width, cycles: seq<Sent>)
    requires forall i :: 0 <= i < |cycles| ==> Sendable(w, cycles[i])
    ensures AllWellFormed(w, RequestOf(w, cycles))
    decreases cycles
  {
    hide WellFormed, Fits;
    if cycles != [] {
      var s := cycles[0];
      assert Sendable(w, s);
      CycleWellFormed(w, s.rba, s.cycle.ops, s.checked, 0);
      RequestWellFormed(w, cycles[1..]);
    }
  }

  /** What an end does with the bytes of a packet: its state and the bytes of its reply. */
  function Serve<S>(w: Width, bus: Bus<S>, st: State<S>, packet: seq<Byte>): (State<S>, seq<Byte>) {
    var rs := ParseAll(w, packet).0;
    var (st1, _, reply) := Respond(w, bus, st, false, rs);
    ParsedAllWellFormed(w, packet);
    RespondFits(w, bus, st, false, rs);
    (st1, EncodeAll(w, reply))
  }

  /** Serving encoded records performs their meaning, and serving the reply performs the answers. */
  lemma ServeMeans<S>(w: Width, bus: Bus<S>, st: State<S>, rs: seq<Record>)
    requires AllWellFormed(w, rs)
    ensures var (st1, bytes) := Serve(w, bus, st, EncodeAll(w, rs));
            var reply := ParseAll(w, bytes).0;
            && ParseAll(w, bytes).1 == [] && EncodeAllOf(w, reply) == bytes
            && (st1, MeaningAll(w, reply)) == Answers(bus, st, MeaningAll(w, rs))
  {
    ParseAllOfEncodeAll(w, rs, []);
    NoRecordInNothing(w);
    NilConcat(EncodeAll(w, rs));
    NilConcat(rs);
    RespondFits(w, bus, st, false, rs);
    var out := Respond(w, bus, st, false, rs).2;
    ParseAllOfEncodeAll(w, out, []);
    NilConcat(EncodeAll(w, out));
    NilConcat(out);
    ReplyMeansAnswers(w, bus, st, false, rs);
    hide Respond, Answers, MeaningAll, ParseAll, EncodeAll, WellFormed;
  }

  function EncodeAllOf(w: Width, rs: seq<Record>): seq<Byte> {
    if AllWellFormed(w, rs) then EncodeAll(w, rs) else []
  }

  /** The full round trip. A packet of cycles is encoded, served by the remote end, and its reply bytes are served by
      the sender. Then the remote devices have seen every operation in program order; every cycle that expects answers
      has had exactly one callback, in sending order, with each read holding the remote value cut to its size and each
      bus operation of a checked cycle flagged if and only if it failed; and no other response has been touched. */
  lemma PacketRoundTrip<S, D>(w: Width, remote: Bus<S>, st: State<S>, local: Bus<D>, d: D, error: nat,
                              cycles: seq<Sent>, older: seq<Response>, newer: seq<Response>, done: seq<Completion>)
    requires AllSendable(w, cycles) && AllSound(older) && AllSound(newer) && Apart(older, cycles)
    ensures AllWellFormed(w, RequestOf(w, cycles))
    ensures var (st1, bytes) := Serve(w, remote, st, EncodeAll(w, RequestOf(w, cycles)));
            var box := Awaiting(older, cycles, newer, done);
            var (st2, completions) := ExpectedAll(w, remote, st, cycles);
            && st1 == st2
            && Serve(w, EndBus(local), State((box, d), error), bytes)
               == (State((Mailbox(older + newer, done + completions), d), error), [])
  {
    assert AllWellFormed(w, RequestOf(w, cycles)) by {
      RequestWellFormed(w, cycles);
    }
    var rs := RequestOf(w, cycles);
    var box := Awaiting(older, cycles, newer, done);
    ServeMeans(w, remote, st, rs);
    PacketCompletes(w, remote, st, cycles, older, newer, done);
    var (st1, bytes) := Serve(w, remote, st, EncodeAll(w, rs));
    var reply := ParseAll(w, bytes).0;
    ReplyServed(w, local, box, d, error, bytes);
  }

  lemma ReadsShow(w: Width, r: Record)
    ensures r.raddrs != [] ==>
            |Writes(w, r)| < |Meaning(w, r)| && Meaning(w, r)[|Writes(w, r)|].IsRead()
  {
    if r.raddrs != [] {
      assert Meaning(w, r)[|Writes(w, r)|] == Reads(w, r)[0];
    }
  }

  /** A request without reads gets no reply. */
  lemma {:induction false} NoReadsNoReply<S>(w: Width, bus: Bus<S>, st: State<S>, rs: seq<Record>)
    requires AllConfig(MeaningAll(w, rs))
    ensures Respond(w, bus, st, false, rs).2 == []
    decreases rs
  {
    hide Perform, WriteMeaning;
    if rs != [] {
      var m, rest := Meaning(w, rs[0]), MeaningAll(w, rs[1..]);
      assert AllConfig(m) by { assert forall i :: 0 <= i < |m| ==> m[i] == (m + rest)[i]; }
      assert AllConfig(rest) by { assert forall i :: 0 <= i < |rest| ==> rest[i] == (m + rest)[|m| + i]; }
      ReadsShow(w, rs[0]);
      assert rs[0].raddrs == [];
      NoReadsNoReply(w, bus, Run(bus, st, m).0, rs[1..]);
    }
  }

  /** A reply made of config writes is taken without any answer. */
  lemma ReplyServed<D>(w: Width, local: Bus<D>, box: Inbox, d: D, error: nat, bytes: seq<Byte>)
    requires AllConfig(MeaningAll(w, ParseAll(w, bytes).0))
    ensures Serve(w, EndBus(local), State((box, d), error), bytes)
            == (State((WriteAll(box, MeaningAll(w, ParseAll(w, bytes).0)), d), error), [])
  {
    var rs := ParseAll(w, bytes).0;
    var st := State((box, d), error);
    ReplyMeansAnswers(w, EndBus(local), st, false, rs);
    EndTakesConfig(local, box, d, error, MeaningAll(w, rs));
    NoReadsNoReply(w, EndBus(local), st, rs);
  }
}
