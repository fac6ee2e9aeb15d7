/** A flush and everything that follows it: the packets reach the other end, their replies come back, every cycle in
    flight gets its callback. */
module Delivery {
  import opened Seqs
  import opened Widths
  import opened Operations
  import opened Validate
  import opened Records
  import opened Slave
  import opened PackingFacts
  import opened Responses
  import opened Exchange
  import opened Buffer
  import opened Framing
  import opened Sockets
  import opened Flushing

  // ---------------------------------------------------------------------------
  // Packets of cycles, one after another
  // ---------------------------------------------------------------------------

  /** Payloads are served in order, each with a fresh error register, and each reply is served by the sender. */
  function Deliver<S, D>(w: Width, remote: Bus<S>, s: S, local: Bus<D>, end: (Inbox, D), payloads: seq<Bytes>)
    : (S, (Inbox, D))
    decreases payloads
  {
    if payloads == [] then (s, end)
    else
      var (st, reply) := Serve(w, remote, State(s, 0), payloads[0]);
      var (end1, _) := Serve(w, EndBus(local), State(end, 0), reply);
      Deliver(w, remote, st.s, local, end1.s, payloads[1..])
  }

  /** The bytes of each group of cycles. */
  ghost predicate Carries(w: Width, payloads: seq<Bytes>, groups: seq<seq<Sent>>) {
    && |payloads| == |groups|
    && forall i :: 0 <= i < |groups| ==>
         AllWellFormed(w, RequestOf(w, groups[i])) && payloads[i] == EncodeAll(w, RequestOf(w, groups[i]))
  }

  /** What the remote end should end up as, and the callbacks its answers should cause. */
  function ExpectedGroups<S>(w: Width, remote: Bus<S>, s: S, groups: seq<seq<Sent>>): (S, seq<Completion>)
    decreases groups
  {
    if groups == [] then (s, [])
    else
      var (st, first) := ExpectedAll(w, remote, State(s, 0), groups[0]);
      var (s', rest) := ExpectedGroups(w, remote, st.s, groups[1..]);
      (s', first + rest)
  }

  lemma ResponsesConcat(a: seq<Sent>, b: seq<Sent>)
    ensures ResponsesFor(a + b) == ResponsesFor(a) + ResponsesFor(b)
    decreases a
  {
    hide Unanswered, ResponseFor;
    if a == [] {
      assert a + b == b;
    } else {
      assert (a + b)[1..] == a[1..] + b;
      ResponsesConcat(a[1..], b);
    }
  }

  lemma SendableParts(w: Width, a: seq<Sent>, b: seq<Sent>, older: seq<Response>)
    requires AllSendable(w, a + b) && Apart(older, a + b)
    ensures AllSendable(w, a) && AllSendable(w, b) && Apart(older, a) && Apart(older, b)
  {
    hide Sendable, Unanswered;
    var all := a + b;
    assert forall i :: 0 <= i < |a| ==> all[i] == a[i];
    assert forall i :: 0 <= i < |b| ==> all[|a| + i] == b[i];
  }

  lemma FirstPacket<S, D>(w: Width, remote: Bus<S>, s: S, local: Bus<D>, d: D, payloads: seq<Bytes>, g: seq<Sent>,
                          older: seq<Response>, newer: seq<Response>, done: seq<Completion>)
    requires payloads != [] && AllWellFormed(w, RequestOf(w, g)) && payloads[0] == EncodeAll(w, RequestOf(w, g))
    requires AllSound(older) && AllSound(newer) && AllSendable(w, g) && Apart(older, g)
    ensures AllSound(older + newer)
    ensures var (st, first) := ExpectedAll(w, remote, State(s, 0), g);
            Deliver(w, remote, s, local, (Awaiting(older, g, newer, done), d), payloads)
            == Deliver(w, remote, st.s, local, (Mailbox(older + newer, done + first), d), payloads[1..])
  {
    InboxSound(older, newer);
    PacketRoundTrip(w, remote, State(s, 0), local, d, 0, g, older, newer, done);
    hide AllSendable, Apart, Serve, ExpectedAll, RequestOf, EncodeAll, AllSound, Awaiting, EndBus, AllWellFormed;
  }

  /** All groups complete, in order. */
  lemma {:induction false} DeliverCompletes<S, D>(w: Width, remote: Bus<S>, s: S, local: Bus<D>, d: D,
                                                  payloads: seq<Bytes>, groups: seq<seq<Sent>>,
                                                  older: seq<Response>, done: seq<Completion>)
    requires Carries(w, payloads, groups) && AllSound(older)
    requires AllSendable(w, Concat(groups)) && Apart(older, Concat(groups))
    ensures AllSound(older + ResponsesFor(Concat(groups)))
    ensures var (s', completions) := ExpectedGroups(w, remote, s, groups);
            Deliver(w, remote, s, local, (Mailbox(older + ResponsesFor(Concat(groups)), done), d), payloads)
            == (s', (Mailbox(older, done + completions), d))
    decreases groups
  {
    InboxSound(older, ResponsesFor(Concat(groups)));
    if groups == [] {
      NilConcat(older);
      NilConcat(done);
    } else {
      var g, rest := groups[0], Concat(groups[1..]);
      var newer := ResponsesFor(rest);
      var (st, first) := ExpectedAll(w, remote, State(s, 0), g);
      assert Concat(groups) == g + rest;
      CarriesParts(w, payloads, groups);
      hide Concat, AllSendable, Apart, Carries, Serve, ExpectedAll, RequestOf, ResponsesFor, EncodeAll, Sound, AllSound,
           Deliver;
      ResponsesConcat(g, rest);
      SendableParts(w, g, rest, older);
      InboxSound(older, newer);
      FirstPacket(w, remote, s, local, d, payloads, g, older, newer, done);
      DeliverCompletes(w, remote, st.s, local, d, payloads[1..], groups[1..], older, done + first);
      ConcatAssoc(done, first, ExpectedGroups(w, remote, st.s, groups[1..]).1);
    }
  }

  lemma CarriesParts(w: Width, payloads: seq<Bytes>, groups: seq<seq<Sent>>)
    requires Carries(w, payloads, groups) && groups != []
    ensures payloads != [] && AllWellFormed(w, RequestOf(w, groups[0])) && payloads[0] == EncodeAll(w, RequestOf(w, groups[0]))
    ensures Carries(w, payloads[1..], groups[1..])
  {
    hide AllWellFormed, RequestOf, EncodeAll;
  }

  lemma InboxSound(a: seq<Response>, b: seq<Response>)
    requires AllSound(a) && AllSound(b)
    ensures AllSound(a + b)
  {
    hide Sound;
  }

  // ---------------------------------------------------------------------------
  // What a flush leaves behind
  // ---------------------------------------------------------------------------

  /** Operations as they are queued: no error has been reported yet. */
  predicate Clean(c: Ready) {
    forall i :: 0 <= i < |c.ops| ==> !c.ops[i].error
  }

  /** Everything sent can be packed, and the responses in flight are those of the cycles sent, in order. */
  ghost predicate Orderly(w: Width, f: Flushed) {
    && (forall i :: 0 <= i < |f.sent| ==> Sendable(w, f.sent[i]) && f.sent[i].cycle.ops != [])
    && f.queue == ResponsesFor(f.sent)
  }

  lemma OneOrderly(w: Width, cap: Cap, device: nat, deadline: nat, f: Flushed, c: Ready, memory: bool)
    requires Claimable(f.rba) && Orderly(w, f) && Clean(c)
    ensures Orderly(w, FlushOne(w, cap, device, deadline, f, c, memory))
  {
    CheckAllFirstBad(w, c.ops);
    CheckAllKeeps(w, c.ops);
    var (ops, bad, _) := CheckAll(w, c.ops);
    hide CheckAll, CycleBytes, AllFit, Place, Check, Fits, ResponseFor, Unanswered, OverflowAt, NextAddress;
    if !c.dead && c.ops != [] && bad == |ops| && memory {
      var s := Sent(f.rba, deadline, ops[0].checked, Cycle(c.handle, device, ops));
      ResponsesConcat(f.sent, [s]);
      ResponsesOne(s);
      NilConcat(f.queue);
    }
  }

  lemma ResponsesOne(s: Sent)
    ensures ResponsesFor([s]) == if Unanswered(s) then [] else [ResponseFor(s)]
  {
    hide Unanswered, ResponseFor;
    assert [s][1..] == [];
    NilConcat([ResponseFor(s)]);
  }

  lemma {:induction false} FlushOrderly(w: Width, cap: Cap, device: nat, deadline: nat, f: Flushed, cycles: seq<Ready>,
                                        memory: seq<bool>)
    requires Claimable(f.rba) && |memory| == |cycles| && Orderly(w, f)
    requires forall i :: 0 <= i < |cycles| ==> Clean(cycles[i])
    ensures Orderly(w, FlushAll(w, cap, device, deadline, f, cycles, memory))
    decreases cycles
  {
    hide FlushOne, Orderly, Clean;
    if cycles != [] {
      FlushOneClaims(w, cap, device, deadline, f, cycles[0], memory[0]);
      OneOrderly(w, cap, device, deadline, f, cycles[0], memory[0]);
      var g := FlushOne(w, cap, device, deadline, f, cycles[0], memory[0]);
      FlushOrderly(w, cap, device, deadline, g, cycles[1..], memory[1..]);
    }
  }

  /** No two responses wait on the same address. */
  predicate AllApart(q: seq<Response>) {
    forall i, j :: 0 <= i < j < |q| ==> q[i].address != q[j].address
  }

  /** Addresses claimed within one period are all different. */
  lemma ClaimedApart(start: nat, q: seq<Response>, ns: seq<nat>)
    requires Claimable(start) && Claimed(start, q, ns) && (|q| > 0 ==> ns[|q| - 1] - ns[0] < 16384)
    ensures AllApart(q)
  {
    forall i, j | 0 <= i < j < |q|
      ensures q[i].address != q[j].address
    {
      OthersDiffer(start, q, ns, i);
    }
  }

  /** An answered cycle's response stands behind those of the cycles sent before it. */
  lemma ResponseAt(cycles: seq<Sent>, i: nat)
    requires i < |cycles| && !Unanswered(cycles[i])
    ensures var k := |ResponsesFor(cycles[..i])|;
            k < |ResponsesFor(cycles)| && ResponsesFor(cycles)[k] == ResponseFor(cycles[i])
            && |ResponsesFor(cycles[..i + 1])| == k + 1
  {
    hide Unanswered, ResponseFor;
    assert cycles == cycles[..i] + ([cycles[i]] + cycles[i + 1..]);
    assert cycles[..i + 1] == cycles[..i] + [cycles[i]];
    ResponsesConcat(cycles[..i], [cycles[i]] + cycles[i + 1..]);
    ResponsesConcat(cycles[..i], [cycles[i]]);
    ResponsesConcat([cycles[i]], cycles[i + 1..]);
    ResponsesOne(cycles[i]);
  }

  lemma ResponsesGrow(cycles: seq<Sent>, i: nat, j: nat)
    requires i <= j <= |cycles|
    ensures |ResponsesFor(cycles[..i])| <= |ResponsesFor(cycles[..j])|
  {
    assert cycles[..j] == cycles[..i] + cycles[i..j];
    ResponsesConcat(cycles[..i], cycles[i..j]);
  }

  lemma AddressAt(cycles: seq<Sent>, i: nat)
    requires i < |cycles| && !Unanswered(cycles[i])
    ensures var k := |ResponsesFor(cycles[..i])|;
            k < |ResponsesFor(cycles)| && ResponsesFor(cycles)[k].address == cycles[i].rba
            && |ResponsesFor(cycles[..i + 1])| == k + 1
  {
    hide Unanswered, ResponsesFor, FindRead, FindBus;
    ResponseAt(cycles, i);
  }

  lemma ApartParts(older: seq<Response>, q: seq<Response>)
    requires AllApart(older + q)
    ensures AllApart(q)
    ensures forall i, k :: 0 <= i < |older| && 0 <= k < |q| ==> older[i].address != q[k].address
  {
    var all := older + q;
    assert forall k :: 0 <= k < |q| ==> all[|older| + k] == q[k];
    assert forall i :: 0 <= i < |older| ==> all[i] == older[i];
  }

  lemma {:induction false} DistinctSendable(w: Width, sent: seq<Sent>)
    requires (forall i :: 0 <= i < |sent| ==> Sendable(w, sent[i])) && AllApart(ResponsesFor(sent))
    ensures AllSendable(w, sent)
  {
    hide Sendable, Unanswered, ResponsesFor;
    forall i, j | 0 <= i < j < |sent| && !Unanswered(sent[i]) && !Unanswered(sent[j])
      ensures sent[i].rba != sent[j].rba
    {
      AddressAt(sent, i);
      AddressAt(sent, j);
      ResponsesGrow(sent, i + 1, j);
    }
  }

  lemma {:induction false} ApartFrom(older: seq<Response>, sent: seq<Sent>)
    requires forall i, k :: 0 <= i < |older| && 0 <= k < |ResponsesFor(sent)| ==>
               older[i].address != ResponsesFor(sent)[k].address
    ensures Apart(older, sent)
  {
    hide Unanswered, ResponsesFor;
    forall i, j | 0 <= i < |older| && 0 <= j < |sent| && !Unanswered(sent[j])
      ensures older[i].address != sent[j].rba
    {
      AddressAt(sent, j);
    }
  }

  lemma {:induction false} ApartSendable(w: Width, sent: seq<Sent>, older: seq<Response>)
    requires (forall i :: 0 <= i < |sent| ==> Sendable(w, sent[i])) && AllApart(older + ResponsesFor(sent))
    ensures AllSendable(w, sent) && Apart(older, sent)
  {
    hide *;
    ApartParts(older, ResponsesFor(sent));
    DistinctSendable(w, sent);
    ApartFrom(older, sent);
  }

  // ---------------------------------------------------------------------------
  // Packets hold cycles
  // ---------------------------------------------------------------------------

  /** The cycles in each packet. */
  function Regroup(packets: seq<seq<Bytes>>, sent: seq<Sent>): seq<seq<Sent>>
    requires |Concat(packets)| == |sent|
  {
    if packets == [] then [] else [sent[..|packets[0]|]] + Regroup(packets[1..], sent[|packets[0]|..])
  }

  lemma {:induction false} FlatEncodings(w: Width, g: seq<Sent>)
    requires forall i :: 0 <= i < |g| ==> Sendable(w, g[i])
    ensures Packable(w, g) && AllWellFormed(w, RequestOf(w, g))
    ensures Flat(Encodings(w, g)) == EncodeAll(w, RequestOf(w, g))
    decreases g
  {
    assert forall i :: 0 <= i < |g| ==> Sendable(w, g[i]) && AllFit(w, g[i].cycle.ops);
    hide Sendable, AllFit;
    RequestWellFormed(w, g);
    if g != [] {
      FlatEncodings(w, g[1..]);
      assert Encodings(w, g)[1..] == Encodings(w, g[1..]);
      FirstEncoded(w, g);
    }
  }

  lemma FirstEncoded(w: Width, g: seq<Sent>)
    requires g != [] && AllFit(w, g[0].cycle.ops) && g[0].rba < 0xFFFF
    requires AllWellFormed(w, RequestOf(w, g)) && AllWellFormed(w, RequestOf(w, g[1..]))
    ensures EncodeAll(w, RequestOf(w, g)) == CycleBytes(w, g[0]) + EncodeAll(w, RequestOf(w, g[1..]))
  {
    hide AllFit, EncodeAll, AllWellFormed;
    CycleWellFormed(w, g[0].rba, g[0].cycle.ops, g[0].checked, 0);
    EncodeAllConcat(w, RecordsFor(w, g[0]), RequestOf(w, g[1..]));
  }

  /** Packets whose contents are the encodings of cycles, in order, carry those cycles. */
  lemma {:induction false} PacketsCarry(w: Width, packets: seq<seq<Bytes>>, sent: seq<Sent>, payloads: seq<Bytes>)
    requires forall i :: 0 <= i < |sent| ==> Sendable(w, sent[i])
    requires Packable(w, sent) && Concat(packets) == Encodings(w, sent)
    requires |payloads| == |packets| && forall i :: 0 <= i < |payloads| ==> payloads[i] == Flat(packets[i])
    ensures Concat(Regroup(packets, sent)) == sent
    ensures Carries(w, payloads, Regroup(packets, sent))
    decreases packets
  {
    if packets != [] {
      var n := |packets[0]|;
      var a, b := sent[..n], sent[n..];
      assert sent == a + b && forall i :: 0 <= i < |b| ==> b[i] == sent[n + i];
      hide Sendable, CycleBytes;
      SplitEncodings(w, packets, sent, n);
      FlatEncodings(w, a);
      PacketsCarry(w, packets[1..], b, payloads[1..]);
      CarriesCons(w, payloads, a, Regroup(packets[1..], b));
    }
  }

  lemma SplitEncodings(w: Width, packets: seq<seq<Bytes>>, sent: seq<Sent>, n: nat)
    requires packets != [] && n == |packets[0]| && Packable(w, sent) && Concat(packets) == Encodings(w, sent)
    ensures n <= |sent| && Packable(w, sent[..n]) && Packable(w, sent[n..])
    ensures packets[0] == Encodings(w, sent[..n]) && Concat(packets[1..]) == Encodings(w, sent[n..])
  {
    hide AllFit, CycleBytes;
    var all := Encodings(w, sent);
    assert all[..n] == packets[0] && all[n..] == Concat(packets[1..]);
  }

  lemma CarriesCons(w: Width, payloads: seq<Bytes>, g: seq<Sent>, groups: seq<seq<Sent>>)
    requires payloads != [] && Carries(w, payloads[1..], groups)
    requires AllWellFormed(w, RequestOf(w, g)) && payloads[0] == EncodeAll(w, RequestOf(w, g))
    ensures Carries(w, payloads, [g] + groups)
  {
    hide AllWellFormed, RequestOf, EncodeAll;
    assert forall i :: 0 < i < |payloads| ==> payloads[i] == payloads[1..][i - 1] && ([g] + groups)[i] == groups[i - 1];
  }

  // ---------------------------------------------------------------------------
  // The whole flush
  // ---------------------------------------------------------------------------

  /** A flush over packets: its payloads reach the remote end in order and every reply comes back. Then the remote
      devices have seen each cycle sent, in order; each cycle that was sent and expects answers has had its one callback
      with its own results; and the responses that were in flight before are as they were. */
  lemma FlushRoundTrip<S, D>(w: Width, room: nat, device: nat, deadline: nat, rba: nat, cycles: seq<Ready>,
                             memory: seq<bool>, f: Flushed, payloads: seq<Bytes>, remote: Bus<S>, s: S,
                             local: Bus<D>, d: D, older: seq<Response>, done: seq<Completion>)
    requires Claimable(rba) && |memory| == |cycles| && forall i :: 0 <= i < |cycles| ==> Clean(cycles[i])
    requires f == FlushAll(w, Packet(room), device, deadline, Flushed([], [], [], NOTHING, rba), cycles, memory)
    requires |payloads| == |Finish(f.frames)|
    requires forall i :: 0 <= i < |payloads| ==> payloads[i] == Flat(Finish(f.frames)[i])
    requires AllSound(older) && AllApart(older + f.queue)
    ensures AllSound(older + f.queue)
    ensures |Concat(Finish(f.frames))| == |f.sent|
    ensures var groups := Regroup(Finish(f.frames), f.sent);
            var (s', completions) := ExpectedGroups(w, remote, s, groups);
            && Concat(groups) == f.sent
            && Deliver(w, remote, s, local, (Mailbox(older + f.queue, done), d), payloads)
               == (s', (Mailbox(older, done + completions), d))
  {
    FlushFacts(w, Packet(room), device, deadline, rba, cycles, memory, f);
    hide FlushAll, Finish, Conserved, Sendable, AllSound, AllApart, Sound;
    ApartSendable(w, f.sent, older);
    PacketsCarry(w, Finish(f.frames), f.sent, payloads);
    DeliverCompletes(w, remote, s, local, d, payloads, Regroup(Finish(f.frames), f.sent), older, done);
  }

  lemma FlushFacts(w: Width, cap: Cap, device: nat, deadline: nat, rba: nat, cycles: seq<Ready>, memory: seq<bool>,
                   f: Flushed)
    requires Claimable(rba) && |memory| == |cycles| && forall i :: 0 <= i < |cycles| ==> Clean(cycles[i])
    requires f == FlushAll(w, cap, device, deadline, Flushed([], [], [], NOTHING, rba), cycles, memory)
    ensures f.queue == ResponsesFor(f.sent)
    ensures forall i :: 0 <= i < |f.sent| ==> Sendable(w, f.sent[i]) && f.sent[i].cycle.ops != []
    ensures Packable(w, f.sent) && Concat(Finish(f.frames)) == Encodings(w, f.sent)
  {
    var f0 := Flushed([], [], [], NOTHING, rba);
    assert Orderly(w, f0) && Conserved(w, cap, f0) by {
      assert Encodings(w, []) == [];
      assert Flat([]) == [];
    }
    FlushOrderly(w, cap, device, deadline, f0, cycles, memory);
    FlushConserves(w, cap, device, deadline, f0, cycles, memory);
    hide FlushAll, Sendable, Encodings, AllFit, WithinCap;
    FinishConcat(f.frames);
  }

  lemma FinishConcat(f: Frames)
    ensures Concat(Finish(f)) == Concat(f.packets) + f.current
  {
    ConcatSnoc(f.packets, f.current);
    NilConcat(Concat(f.packets));
  }
}
