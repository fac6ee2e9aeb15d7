/** A flush over a stream: the network cuts the bytes where it likes, in both directions. */
module Streams {
  import opened Seqs
  import opened Words
  import opened Widths
  import opened Operations
  import opened Records
  import opened Slave
  import opened SlaveFacts
  import opened SlaveLoop
  import opened PackingFacts
  import opened Responses
  import opened Exchange
  import opened Buffer
  import opened Framing
  import opened Sockets
  import opened Flushing
  import opened Master
  import opened Delivery
  import opened Link

  // ---------------------------------------------------------------------------
  // A stream served call by call
  // ---------------------------------------------------------------------------

  /** Runs of records, each of which ends where a cycle is closed. */
  predicate CycleCuts(cuts: seq<seq<Record>>) {
    forall i :: 0 <= i < |cuts| ==> cuts[i] != [] && cuts[i][|cuts[i]| - 1].cyc
  }

  /** Serves the runs in order, each with a fresh error register: the state and all of the reply. */
  function ServeCuts<S>(w: Width, bus: Bus<S>, s0: S, cuts: seq<seq<Record>>): (S, seq<Record>)
    decreases cuts
  {
    if cuts == [] then (s0, [])
    else
      var (end, _, out) := Respond(w, bus, State(s0, 0), false, cuts[0]);
      var (s, more) := ServeCuts(w, bus, end.s, cuts[1..]);
      (s, out + more)
  }

  /** The state and the line after some runs. */
  ghost predicate Replied<S>(w: Width, bus: Bus<S>, s0: S, before: seq<seq<Byte>>, cuts: seq<seq<Record>>, s: S,
                             sent: seq<seq<Byte>>)
  {
    var (s', out) := ServeCuts(w, bus, s0, cuts);
    s == s' && AllWellFormed(w, out) && Flat(sent) == Flat(before) + EncodeAll(w, out)
  }

  /** n records of the stream have been served, in the given runs, and their whole reply is on the link. */
  ghost predicate Streamed<S>(w: Width, bus: Bus<S>, s0: S, stream: seq<Byte>, before: seq<seq<Byte>>,
                              cuts: seq<seq<Record>>, n: nat, s: S, pending: seq<Byte>, sent: seq<seq<Byte>>)
  {
    && CycleCuts(cuts) && Remains(w, stream, n, pending) && Concat(cuts) == ParseAll(w, stream).0[..n]
    && Replied(w, bus, s0, before, cuts, s, sent)
  }

  lemma {:induction false} ServeCutsSnoc<S>(w: Width, bus: Bus<S>, s0: S, cuts: seq<seq<Record>>, cut: seq<Record>)
    ensures var (s, out) := ServeCuts(w, bus, s0, cuts);
            var (end, _, more) := Respond(w, bus, State(s, 0), false, cut);
            ServeCuts(w, bus, s0, cuts + [cut]) == (end.s, out + more)
    decreases cuts
  {
    hide Respond;
    if cuts == [] {
      assert [cut][1..] == [] && cuts + [cut] == [cut];
      var (end, _, more) := Respond(w, bus, State(s0, 0), false, cut);
      assert ServeCuts(w, bus, end.s, [cut][1..]) == (end.s, []);
      NilConcat(more);
    } else {
      var (end, _, first) := Respond(w, bus, State(s0, 0), false, cuts[0]);
      assert (cuts + [cut])[1..] == cuts[1..] + [cut];
      ServeCutsSnoc(w, bus, end.s, cuts[1..], cut);
      var (s, out) := ServeCuts(w, bus, end.s, cuts[1..]);
      ConcatAssoc(first, out, Respond(w, bus, State(s, 0), false, cut).2);
    }
  }

  lemma StreamStarts<S>(w: Width, bus: Bus<S>, s0: S, stream: seq<Byte>, before: seq<seq<Byte>>)
    ensures Streamed(w, bus, s0, stream, before, [], 0, s0, stream, before)
  {
    var rs := ParseAll(w, stream).0;
    assert rs[..0] == [] && rs[0..] == rs;
    NilConcat(Flat(before));
  }

  lemma RemainsOn(w: Width, stream: seq<Byte>, n: nat, pending: seq<Byte>, k: nat, pending': seq<Byte>)
    requires Remains(w, stream, n, pending) && Remains(w, pending, k, pending')
    ensures Remains(w, stream, n + k, pending')
    ensures ParseAll(w, stream).0[..n] + ParseAll(w, pending).0[..k] == ParseAll(w, stream).0[..n + k]
  {
    var (rs, rest) := ParseAll(w, stream);
    hide ParseAll;
    assert rs[n..][..k] == rs[n..n + k] && rs[n..][k..] == rs[n + k..] && rs[..n] + rs[n..n + k] == rs[..n + k];
  }

  /** What a call that kept the link put on it. */
  lemma AnsweredBytes<S>(w: Width, bus: Bus<S>, s: S, message: seq<Byte>, before: seq<seq<Byte>>, k: nat, s': S,
                         sent: seq<seq<Byte>>)
    requires Answered(w, bus, s, message, [], before, k, s', sent)
    ensures k <= |ParseAll(w, message).0|
    ensures var (end, _, more) := Respond(w, bus, State(s, 0), false, ParseAll(w, message).0[..k]);
            s' == end.s && AllWellFormed(w, more) && Flat(sent) == Flat(before) + EncodeAll(w, more)
  {
    var cut := ParseAll(w, message).0[..k];
    hide ParseAll;
    ReadsAreAnswered(w, bus, State(s, 0), false, cut);
    NilConcat(Flat(before));
    hide Respond, WellFormed, HasReads, Flat;
  }

  lemma CutAdded<S>(w: Width, bus: Bus<S>, s0: S, before: seq<seq<Byte>>, cuts: seq<seq<Record>>, s: S,
                    sent: seq<seq<Byte>>, cut: seq<Record>, sent': seq<seq<Byte>>)
    requires Replied(w, bus, s0, before, cuts, s, sent)
    requires AllWellFormed(w, Respond(w, bus, State(s, 0), false, cut).2)
    requires Flat(sent') == Flat(sent) + EncodeAll(w, Respond(w, bus, State(s, 0), false, cut).2)
    ensures Replied(w, bus, s0, before, cuts + [cut], Respond(w, bus, State(s, 0), false, cut).0.s, sent')
  {
    var out, more := ServeCuts(w, bus, s0, cuts).1, Respond(w, bus, State(s, 0), false, cut).2;
    EncodeAllConcat(w, out, more);
    ConcatAssoc(Flat(before), EncodeAll(w, out), EncodeAll(w, more));
    ServeCutsSnoc(w, bus, s0, cuts, cut);
    hide Respond, ServeCuts, EncodeAll, WellFormed, Flat;
  }

  /** One more call, which served k records. */
  lemma StreamGoesOn<S>(w: Width, bus: Bus<S>, s0: S, stream: seq<Byte>, before: seq<seq<Byte>>, cuts: seq<seq<Record>>,
                        n: nat, s: S, pending: seq<Byte>, sent: seq<seq<Byte>>, k: nat, s': S, pending': seq<Byte>,
                        sent': seq<seq<Byte>>)
    requires Streamed(w, bus, s0, stream, before, cuts, n, s, pending, sent)
    requires Answered(w, bus, s, pending, [], sent, k, s', sent') && Remains(w, pending, k, pending')
    ensures k <= |ParseAll(w, pending).0|
    ensures var cut := ParseAll(w, pending).0[..k];
            Streamed(w, bus, s0, stream, before, if k == 0 then cuts else cuts + [cut], n + k, s', pending', sent')
  {
    hide ParseAll, Answered, Replied, Respond, Concat;
    AnsweredBytes(w, bus, s, pending, sent, k, s', sent');
    RemainsOn(w, stream, n, pending, k, pending');
    CutClosed(w, bus, s, pending, sent, k, s', sent');
    var cut := ParseAll(w, pending).0[..k];
    if k == 0 {
      NothingAdded(w, bus, s0, before, cuts, s, sent, cut, sent');
    } else {
      CutAdded(w, bus, s0, before, cuts, s, sent, cut, sent');
      ConcatSnoc(cuts, cut);
    }
  }

  lemma NothingAdded<S>(w: Width, bus: Bus<S>, s0: S, before: seq<seq<Byte>>, cuts: seq<seq<Record>>, s: S,
                        sent: seq<seq<Byte>>, cut: seq<Record>, sent': seq<seq<Byte>>)
    requires Replied(w, bus, s0, before, cuts, s, sent) && cut == []
    requires AllWellFormed(w, Respond(w, bus, State(s, 0), false, cut).2)
    requires Flat(sent') == Flat(sent) + EncodeAll(w, Respond(w, bus, State(s, 0), false, cut).2)
    ensures Replied(w, bus, s0, before, cuts, Respond(w, bus, State(s, 0), false, cut).0.s, sent')
  {
    NilConcat(Flat(sent));
    hide ServeCuts, Flat, WellFormed;
  }

  lemma CutClosed<S>(w: Width, bus: Bus<S>, s: S, message: seq<Byte>, before: seq<seq<Byte>>, k: nat, s': S,
                     sent: seq<seq<Byte>>)
    requires Answered(w, bus, s, message, [], before, k, s', sent)
    ensures k <= |ParseAll(w, message).0|
    ensures var cut := ParseAll(w, message).0[..k]; cut != [] ==> cut[|cut| - 1].cyc
  {
    hide ParseAll, Respond, HasReads;
  }

  /** Takes calls until everything on the link has been served, or a call drops the link. */
  method ServeLink<S>(w: Width, bus: Bus<S>, s0: S, link: Channel)
    returns (s: S, alive: bool, ghost cuts: seq<seq<Record>>)
    requires link.Valid()
    modifies link
    ensures alive ==>
              var (rs, rest) := ParseAll(w, old(link.Pending()));
              && rest == [] && CycleCuts(cuts) && Concat(cuts) == rs
              && Replied(w, bus, s0, old(link.sent), cuts, s, link.sent)
  {
    hide *;
    ghost var stream, before := link.Pending(), link.sent;
    StreamStarts(w, bus, s0, stream, before);
    s, alive, cuts := s0, true, [];
    ghost var n: nat := 0;
    var buf := new Byte[4104](_ => 0);
    while alive
      invariant link.Valid()
      invariant alive ==> Streamed(w, bus, s0, stream, before, cuts, n, s, link.Pending(), link.sent)
      decreases |link.Pending()|, alive
    {
      ghost var pending, sent := link.Pending(), link.sent;
      var len := link.Recv(buf, 0);
      if len == 0 {
        StreamEnds(w, bus, s0, stream, before, cuts, n, s, pending, link.sent);
        return;
      }
      assert buf[0..len] == buf[..len];
      ghost var s1 := s;
      ghost var k;
      s, alive, k := ServeStream(w, bus, s, buf, len, link);
      if alive {
        StreamGoesOn(w, bus, s0, stream, before, cuts, n, s1, pending, sent, k, s, link.Pending(), link.sent);
        cuts, n := if k == 0 then cuts else cuts + [ParseAll(w, pending).0[..k]], n + k;
      }
    }
  }

  lemma StreamEnds<S>(w: Width, bus: Bus<S>, s0: S, stream: seq<Byte>, before: seq<seq<Byte>>, cuts: seq<seq<Record>>,
                      n: nat, s: S, pending: seq<Byte>, sent: seq<seq<Byte>>)
    requires Streamed(w, bus, s0, stream, before, cuts, n, s, pending, sent) && pending == []
    ensures var (rs, rest) := ParseAll(w, stream); rest == [] && CycleCuts(cuts) && Concat(cuts) == rs
    ensures Replied(w, bus, s0, before, cuts, s, sent)
  {
    NoRecordInNothing(w);
    var rs := ParseAll(w, stream).0;
    hide ParseAll, Replied, Concat;
    assert n == |rs| && rs[..n] == rs;
  }

  // ---------------------------------------------------------------------------
  // Runs of records are runs of cycles
  // ---------------------------------------------------------------------------

  predicate NoneIdle(sent: seq<Sent>) {
    forall i :: 0 <= i < |sent| ==> sent[i].cycle.ops != []
  }

  lemma {:induction false} RequestConcat(w: Width, a: seq<Sent>, b: seq<Sent>)
    ensures RequestOf(w, a + b) == RequestOf(w, a) + RequestOf(w, b)
  {
    hide RecordsFor;
    if a == [] {
      assert a + b == b;
      NilConcat(RequestOf(w, b));
    } else {
      assert (a + b)[1..] == a[1..] + b;
      RequestConcat(w, a[1..], b);
      ConcatAssoc(RecordsFor(w, a[0]), RequestOf(w, a[1..]), RequestOf(w, b));
    }
  }

  lemma RequestFirst(w: Width, sent: seq<Sent>, n: nat)
    requires 0 < n <= |sent|
    ensures RequestOf(w, sent) == RecordsFor(w, sent[0]) + RequestOf(w, sent[1..])
    ensures RequestOf(w, sent[..n]) == RecordsFor(w, sent[0]) + RequestOf(w, sent[1..][..n - 1])
    ensures n == 1 ==> RequestOf(w, sent[1..][..n - 1]) == []
  {
    hide RecordsFor;
    assert sent[..n][1..] == sent[1..][..n - 1];
  }

  /** Where a request closes a cycle, whole cycles end. */
  lemma {:induction false} CutAt(w: Width, sent: seq<Sent>, c: nat) returns (n: nat)
    requires NoneIdle(sent) && 0 < c <= |RequestOf(w, sent)| && RequestOf(w, sent)[c - 1].cyc
    ensures n <= |sent| && |RequestOf(w, sent[..n])| == c
    decreases sent
  {
    assert sent != [];
    SentRecords(w, sent[0]);
    RequestFirst(w, sent, 1);
    hide RequestOf, RecordsFor;
    var first := RecordsFor(w, sent[0]);
    assert c <= |first| ==> RequestOf(w, sent)[c - 1] == first[c - 1];
    n := 1;
    if c > |first| {
      n := CutAt(w, sent[1..], c - |first|);
      n := n + 1;
      RequestFirst(w, sent, n);
    }
  }

  /** A run of a request that ends where a cycle is closed is the encoding of whole cycles. */
  lemma {:induction false} CutFirst(w: Width, sent: seq<Sent>, cut: seq<Record>, rest: seq<Record>) returns (n: nat)
    requires NoneIdle(sent) && cut != [] && cut[|cut| - 1].cyc && RequestOf(w, sent) == cut + rest
    ensures n <= |sent| && RequestOf(w, sent[..n]) == cut && RequestOf(w, sent[n..]) == rest
  {
    hide RequestOf, NoneIdle;
    n := CutAt(w, sent, |cut|);
    assert sent[..n] + sent[n..] == sent;
    RequestConcat(w, sent[..n], sent[n..]);
    DropConcat(RequestOf(w, sent[..n]), RequestOf(w, sent[n..]));
    DropConcat(cut, rest);
  }

  lemma SentRecords(w: Width, s: Sent)
    requires s.cycle.ops != []
    ensures RecordsFor(w, s) != [] && ClosedOnce(RecordsFor(w, s))
  {
    CycleClosedOnce(w, s.rba, s.cycle.ops, s.checked, 0);
  }

  /** The groups of cycles behind the runs. */
  ghost predicate Groups(w: Width, sent: seq<Sent>, cuts: seq<seq<Record>>, groups: seq<seq<Sent>>) {
    && |groups| == |cuts| && Concat(groups) == sent
    && forall i :: 0 <= i < |cuts| ==> RequestOf(w, groups[i]) == cuts[i]
  }

  lemma {:induction false} CutsAreGroups(w: Width, sent: seq<Sent>, cuts: seq<seq<Record>>)
    returns (groups: seq<seq<Sent>>)
    requires NoneIdle(sent)
    requires CycleCuts(cuts) && Concat(cuts) == RequestOf(w, sent)
    ensures Groups(w, sent, cuts, groups)
    decreases cuts
  {
    hide *;
    if cuts == [] {
      NoGroups(w, sent, cuts);
      groups := [];
    } else {
      CutsTail(cuts);
      var n := CutFirst(w, sent, cuts[0], Concat(cuts[1..]));
      NoneIdleTail(sent, n);
      var more := CutsAreGroups(w, sent[n..], cuts[1..]);
      groups := [sent[..n]] + more;
      GroupsCons(w, sent, cuts, n, more);
    }
  }

  lemma NoGroups(w: Width, sent: seq<Sent>, cuts: seq<seq<Record>>)
    requires NoneIdle(sent) && cuts == [] && Concat(cuts) == RequestOf(w, sent)
    ensures Groups(w, sent, cuts, [])
  {
    NoRequest(w, sent);
    hide RequestOf, NoneIdle;
  }

  lemma CutsTail(cuts: seq<seq<Record>>)
    requires CycleCuts(cuts) && cuts != []
    ensures cuts[0] != [] && cuts[0][|cuts[0]| - 1].cyc
    ensures CycleCuts(cuts[1..]) && Concat(cuts) == cuts[0] + Concat(cuts[1..])
  {
  }

  lemma NoneIdleTail(sent: seq<Sent>, n: nat)
    requires NoneIdle(sent) && n <= |sent|
    ensures NoneIdle(sent[n..])
  {
  }

  lemma GroupsCons(w: Width, sent: seq<Sent>, cuts: seq<seq<Record>>, n: nat, more: seq<seq<Sent>>)
    requires cuts != [] && n <= |sent| && RequestOf(w, sent[..n]) == cuts[0] && Groups(w, sent[n..], cuts[1..], more)
    ensures Groups(w, sent, cuts, [sent[..n]] + more)
  {
    hide RequestOf;
    var groups := [sent[..n]] + more;
    assert groups[1..] == more && sent == sent[..n] + sent[n..];
    assert forall i :: 0 < i < |cuts| ==> groups[i] == more[i - 1] && cuts[i] == cuts[1..][i - 1];
  }

  lemma NoRequest(w: Width, sent: seq<Sent>)
    requires NoneIdle(sent)
    ensures RequestOf(w, sent) == [] ==> sent == []
  {
    if sent != [] {
      SentRecords(w, sent[0]);
    }
  }

  // ---------------------------------------------------------------------------
  // The answers come back
  // ---------------------------------------------------------------------------

  /** One run of cycles: the other end's state, and its answers with those of later runs still to come. */
  lemma CutCompletes<S>(w: Width, remote: Bus<S>, s: S, g: seq<Sent>, cut: seq<Record>, older: seq<Response>,
                        newer: seq<Response>, done: seq<Completion>)
    requires cut == RequestOf(w, g) && AllSendable(w, g) && AllSound(older) && AllSound(newer) && Apart(older, g)
    ensures AllSound(older + newer)
    ensures var (end, _, out) := Respond(w, remote, State(s, 0), false, cut);
            var (st, completions) := ExpectedAll(w, remote, State(s, 0), g);
            && end == st && AllConfig(MeaningAll(w, out))
            && WriteAll(Awaiting(older, g, newer, done), MeaningAll(w, out)) == Mailbox(older + newer, done + completions)
  {
    InboxSound(older, newer);
    PacketCompletes(w, remote, State(s, 0), g, older, newer, done);
    ReplyMeansAnswers(w, remote, State(s, 0), false, cut);
    hide Respond, ExpectedAll, MeaningAll, WriteAll, RequestOf, AllConfig, AllSendable, Apart, Sound, Answers;
  }

  lemma AwaitingFirst(g: seq<Sent>, rest: seq<Sent>, older: seq<Response>, done: seq<Completion>)
    requires AllSound(older)
    ensures AllSound(older + ResponsesFor(g + rest))
    ensures Awaiting(older, g, ResponsesFor(rest), done) == Mailbox(older + ResponsesFor(g + rest), done)
  {
    InboxSound(older, ResponsesFor(g + rest));
    ResponsesConcat(g, rest);
    hide ResponsesFor, Sound;
  }

  /** All runs: the other end performs them, and its answers complete every cycle that expects any. */
  lemma {:induction false} CutsComplete<S>(w: Width, remote: Bus<S>, s: S, groups: seq<seq<Sent>>,
                                           cuts: seq<seq<Record>>, older: seq<Response>, done: seq<Completion>)
    requires |groups| == |cuts| && forall i :: 0 <= i < |cuts| ==> RequestOf(w, groups[i]) == cuts[i]
    requires AllSendable(w, Concat(groups)) && AllSound(older) && Apart(older, Concat(groups))
    ensures AllSound(older + ResponsesFor(Concat(groups)))
    ensures var (s', out) := ServeCuts(w, remote, s, cuts);
            var (s'', completions) := ExpectedGroups(w, remote, s, groups);
            && s' == s'' && AllConfig(MeaningAll(w, out))
            && WriteAll(Mailbox(older + ResponsesFor(Concat(groups)), done), MeaningAll(w, out))
               == Mailbox(older, done + completions)
    decreases groups
  {
    if groups == [] {
      NilConcat(older);
      NilConcat(done);
    } else {
      var g, rest := groups[0], Concat(groups[1..]);
      var (st, first) := ExpectedAll(w, remote, State(s, 0), g);
      var (end, _, out) := Respond(w, remote, State(s, 0), false, cuts[0]);
      var more := ServeCuts(w, remote, end.s, cuts[1..]).1;
      assert Concat(groups) == g + rest;
      hide Concat, AllSendable, Apart, ExpectedAll, RequestOf, ResponsesFor, Sound, AllSound, AllConfig, Respond, MeaningAll,
           WriteAll;
      SendableParts(w, g, rest, older);
      AwaitingFirst(g, rest, older, done);
      CutCompletes(w, remote, s, g, cuts[0], older, ResponsesFor(rest), done);
      CutsComplete(w, remote, end.s, groups[1..], cuts[1..], older, done + first);
      MeaningAllConcat(w, out, more);
      AllConfigConcat(MeaningAll(w, out), MeaningAll(w, more));
      WriteAllConcat(Mailbox(older + ResponsesFor(g + rest), done), MeaningAll(w, out), MeaningAll(w, more));
      ConcatAssoc(done, first, ExpectedGroups(w, remote, st.s, groups[1..]).1);
    }
  }

  /** However the reply is cut, the sender takes it as one, and answers nothing. */
  lemma {:induction false} CutsWrite<D>(w: Width, local: Bus<D>, box: Inbox, d: D, cuts: seq<seq<Record>>)
    requires AllConfig(MeaningAll(w, Concat(cuts)))
    ensures ServeCuts(w, EndBus(local), (box, d), cuts) == ((WriteAll(box, MeaningAll(w, Concat(cuts))), d), [])
    decreases cuts
  {
    if cuts != [] {
      var a, b := cuts[0], Concat(cuts[1..]);
      assert Concat(cuts) == a + b;
      hide Concat, Respond, MeaningAll, AllConfig, WriteAll, EndBus;
      MeaningAllConcat(w, a, b);
      AllConfigConcat(MeaningAll(w, a), MeaningAll(w, b));
      ReplyMeansAnswers(w, EndBus(local), State((box, d), 0), false, a);
      EndTakesConfig(local, box, d, 0, MeaningAll(w, a));
      NoReadsNoReply(w, EndBus(local), State((box, d), 0), a);
      CutsWrite(w, local, WriteAll(box, MeaningAll(w, a)), d, cuts[1..]);
      WriteAllConcat(box, MeaningAll(w, a), MeaningAll(w, b));
    } else {
      NothingMeant(w);
    }
  }

  lemma NothingMeant(w: Width)
    ensures MeaningAll(w, []) == [] && Concat<Record>([]) == []
  {
  }

  // ---------------------------------------------------------------------------
  // A flush over a stream
  // ---------------------------------------------------------------------------

  /** At the end (s, end), the cycles sent have been served in some groups, in order, each group with a fresh error
      register. If no two of the responses in flight share an address, the remote devices have seen exactly that, each
      cycle that expects answers has had its one callback with its own results, and the responses that were in flight
      before are still waiting. */
  ghost predicate CompletedIn<S, D>(w: Width, remote: Bus<S>, s0: S, sent: seq<Sent>, queue: seq<Response>,
                                    older: seq<Response>, done: seq<Completion>, d: D, s: S, end: (Inbox, D),
                                    groups: seq<seq<Sent>>)
  {
    && Concat(groups) == sent && AllSound(older)
    && (AllApart(older + queue) ==>
          var (s', completions) := ExpectedGroups(w, remote, s0, groups);
          s == s' && end == (Mailbox(older, done + completions), d))
  }

  /** The bytes of a stream flush are the records of the cycles sent. */
  lemma StreamBytes(w: Width, device: nat, deadline: nat, rba: nat, cycles: seq<Ready>, memory: seq<bool>, f: Flushed,
                    out: seq<seq<Byte>>)
    requires Claimable(rba) && |memory| == |cycles| && forall i :: 0 <= i < |cycles| ==> Clean(cycles[i])
    requires f == FlushAll(w, Stream, device, deadline, Flushed([], [], [], NOTHING, rba), cycles, memory)
    requires Messages(w, Stream, f.frames, out)
    ensures ParseAll(w, Flat(out)) == (RequestOf(w, f.sent), [])
  {
    var f0 := Flushed([], [], [], NOTHING, rba);
    FlushFacts(w, Stream, device, deadline, rba, cycles, memory, f);
    assert Conserved(w, Stream, f0) by {
      assert Encodings(w, []) == [];
    }
    FlushConserves(w, Stream, device, deadline, f0, cycles, memory);
    assert Concat(f.frames.packets) + f.frames.current == f.frames.current;
    hide FlushAll, Sendable, Encodings, Packable, ParseAll, RequestOf, EncodeAll, WellFormed, Flat;
    FlatEncodings(w, f.sent);
    var rs := RequestOf(w, f.sent);
    ParseAllOfEncodeAll(w, rs, []);
    NoRecordInNothing(w);
    NilConcat(EncodeAll(w, rs));
    NilConcat(rs);
  }

  /** Both directions were served to the end. */
  lemma StreamRoundTrip<S, D>(w: Width, remote: Bus<S>, s0: S, local: Bus<D>, d: D, sent: seq<Sent>,
                              older: seq<Response>, done: seq<Completion>, groups: seq<seq<Sent>>,
                              cuts: seq<seq<Record>>, back: seq<seq<Record>>)
    requires (forall i :: 0 <= i < |sent| ==> Sendable(w, sent[i])) && Groups(w, sent, cuts, groups)
    requires AllSound(older) && AllApart(older + ResponsesFor(sent)) && Concat(back) == ServeCuts(w, remote, s0, cuts).1
    ensures AllSound(older + ResponsesFor(sent))
    ensures var (s, completions) := ExpectedGroups(w, remote, s0, groups);
            && ServeCuts(w, remote, s0, cuts).0 == s
            && ServeCuts(w, EndBus(local), (Mailbox(older + ResponsesFor(sent), done), d), back)
               == ((Mailbox(older, done + completions), d), [])
  {
    ApartSendable(w, sent, older);
    hide AllSendable, Apart, Sound, AllApart, ServeCuts, Concat, AllConfig, MeaningAll, WriteAll, EndBus, RequestOf,
         ExpectedGroups, Sendable, ResponsesFor;
    CutsComplete(w, remote, s0, groups, cuts, older, done);
    CutsWrite(w, local, Mailbox(older + ResponsesFor(sent), done), d, back);
  }

  /** A call that kept the link put the encoded reply on it. */
  lemma ReplyBytes<S>(w: Width, bus: Bus<S>, s0: S, cuts: seq<seq<Record>>, s: S, sent: seq<seq<Byte>>)
    requires Replied(w, bus, s0, [], cuts, s, sent)
    ensures s == ServeCuts(w, bus, s0, cuts).0 && ParseAll(w, Flat(sent)).0 == ServeCuts(w, bus, s0, cuts).1
  {
    var out := ServeCuts(w, bus, s0, cuts).1;
    ParseAllOfEncodeAll(w, out, []);
    NoRecordInNothing(w);
    NilConcat(EncodeAll(w, out));
    NilConcat(out);
    assert Flat([]) == [];
    hide ServeCuts, ParseAll, EncodeAll, WellFormed;
  }

  /** The network cuts a stream into chunks but loses nothing. */
  ghost predicate Lossless(network: seq<Byte> -> seq<seq<Byte>>) {
    forall b: seq<Byte> :: Flat(network(b)) == b && NoneEmpty(network(b))
  }

  /** The bytes of a flush cross the network and so do those of the reply; the network cuts both where it likes. If both
      ends keep the link, everything sent is complete. */
  method StreamTravels<S, D>(w: Width, network: seq<Byte> -> seq<seq<Byte>>, remote: Bus<S>, s0: S, local: Bus<D>, d: D,
                             bytes: seq<Byte>, box: Inbox, ghost sent: seq<Sent>, ghost older: seq<Response>,
                             ghost done: seq<Completion>)
    returns (alive: bool, s: S, end: (Inbox, D), ghost groups: seq<seq<Sent>>)
    requires Lossless(network)
    requires ParseAll(w, bytes) == (RequestOf(w, sent), []) && NoneIdle(sent)
    requires forall i :: 0 <= i < |sent| ==> Sendable(w, sent[i])
    requires AllSound(older) && AllSound(older + ResponsesFor(sent)) && box == Mailbox(older + ResponsesFor(sent), done)
    ensures alive ==> CompletedIn(w, remote, s0, sent, ResponsesFor(sent), older, done, d, s, end, groups)
  {
    hide *;
    end, groups := (box, d), [];
    NetworkKeeps(network, bytes);
    var there := new Channel(network(bytes));
    PendingIs(there);
    ghost var cuts;
    s, alive, cuts := ServeLink(w, remote, s0, there);
    if !alive {
      return;
    }
    groups := CutsAreGroups(w, sent, cuts);
    ReplyBytes(w, remote, s0, cuts, s, there.sent);
    var reply := Flat(there.sent);
    NetworkKeeps(network, reply);
    var here := new Channel(network(reply));
    PendingIs(here);
    ghost var back;
    end, alive, back := ServeLink(w, EndBus(local), (box, d), here);
    if alive {
      ReplyBytes(w, EndBus(local), (box, d), back, end, here.sent);
      AllServed(w, remote, s0, local, d, sent, older, done, groups, cuts, back, s, end);
    }
  }

  lemma PendingIs(link: Channel)
    ensures link.Pending() == Flat(link.chunks)
  {
  }

  lemma NetworkKeeps(network: seq<Byte> -> seq<seq<Byte>>, bytes: seq<Byte>)
    requires Lossless(network)
    ensures Flat(network(bytes)) == bytes && forall i :: 0 <= i < |network(bytes)| ==> network(bytes)[i] != []
  {
    hide Flat;
  }

  lemma AllServed<S, D>(w: Width, remote: Bus<S>, s0: S, local: Bus<D>, d: D, sent: seq<Sent>, older: seq<Response>,
                        done: seq<Completion>, groups: seq<seq<Sent>>, cuts: seq<seq<Record>>,
                        back: seq<seq<Record>>, s: S, end: (Inbox, D))
    requires (forall i :: 0 <= i < |sent| ==> Sendable(w, sent[i])) && Groups(w, sent, cuts, groups)
    requires AllSound(older) && AllSound(older + ResponsesFor(sent))
    requires Concat(back) == ServeCuts(w, remote, s0, cuts).1 && s == ServeCuts(w, remote, s0, cuts).0
    requires end == ServeCuts(w, EndBus(local), (Mailbox(older + ResponsesFor(sent), done), d), back).0
    ensures CompletedIn(w, remote, s0, sent, ResponsesFor(sent), older, done, d, s, end, groups)
  {
    if AllApart(older + ResponsesFor(sent)) {
      StreamRoundTrip(w, remote, s0, local, d, sent, older, done, groups, cuts, back);
    }
    hide AllApart, ServeCuts, Concat, Sound, Sendable, ResponsesFor, ExpectedGroups, EndBus;
  }

  /** A device is flushed over a stream, the other end serves the stream call by call, and so does this end with the reply:
      if both keep the link, everything sent is complete. */
  method FlushStreams<S, D>(device: Device, socket: Socket, memory: seq<bool>, network: seq<Byte> -> seq<seq<Byte>>,
                            remote: Bus<S>, s0: S, local: Bus<D>, d: D)
    returns (callbacks: seq<Callback>, ghost f: Flushed, alive: bool, s: S, end: (Inbox, D),
             ghost groups: seq<seq<Sent>>)
    requires socket.Valid() && device.Flushable() && |memory| == |device.ready| && device.connected && device.mtu == 0
    requires forall i :: 0 <= i < |device.ready| ==> Clean(device.ready[i])
    requires Lossless(network)
    modifies device`ready, socket, device.link`sent
    ensures socket.Valid() && device.ready == [] && Claimable(old(socket.rba))
    ensures f == FlushAll(device.w, Stream, device.handle, (socket.timeCache + 5) % 0x1_0000,
                          Flushed([], [], [], NOTHING, old(socket.rba)), Reverse(old(device.ready)), memory)
    ensures callbacks == f.callbacks && socket.Queue() == old(socket.Queue()) + f.queue
    ensures alive ==> CompletedIn(device.w, remote, s0, f.sent, f.queue, old(socket.Queue()), old(socket.done), d, s, end,
                                  groups)
  {
    hide *;
    ghost var older, done, rba := socket.Queue(), socket.done, socket.rba;
    ghost var cycles, deadline := Reverse(device.ready), (socket.timeCache + 5) % 0x1_0000;
    ReverseClean(device.ready);
    CapacityStream(device);
    var messages, box;
    callbacks, messages, box, f := FlushMessages(device, socket, memory);
    StreamBytes(device.w, device.handle, deadline, rba, cycles, memory, f, messages);
    StreamFacts(device.w, device.handle, deadline, rba, cycles, memory, f);
    alive, s, end, groups := StreamTravels(device.w, network, remote, s0, local, d, Flat(messages), box, f.sent, older,
                                           done);
  }

  lemma CapacityStream(device: Device)
    requires device.mtu == 0
    ensures device.Capacity() == Stream
  {
  }

  lemma StreamFacts(w: Width, device: nat, deadline: nat, rba: nat, cycles: seq<Ready>, memory: seq<bool>, f: Flushed)
    requires Claimable(rba) && |memory| == |cycles| && forall i :: 0 <= i < |cycles| ==> Clean(cycles[i])
    requires f == FlushAll(w, Stream, device, deadline, Flushed([], [], [], NOTHING, rba), cycles, memory)
    ensures f.queue == ResponsesFor(f.sent) && NoneIdle(f.sent)
    ensures forall i :: 0 <= i < |f.sent| ==> Sendable(w, f.sent[i])
  {
    FlushFacts(w, Stream, device, deadline, rba, cycles, memory, f);
    hide FlushAll, Sendable, ResponsesFor;
  }

  // ---------------------------------------------------------------------------
  // A stream that delivers cycle by cycle keeps its link
  // ---------------------------------------------------------------------------

  /** The reply to a request that closes its cycle with its last record does the same. */
  lemma {:induction false} ReplyClosedOnce<S>(w: Width, bus: Bus<S>, st: State<S>, open: bool, rs: seq<Record>)
    requires rs != [] && ClosedOnce(rs)
    ensures ClosedOnce(Respond(w, bus, st, open, rs).2)
    ensures open ==> Respond(w, bus, st, open, rs).2 != []
    decreases rs
  {
    var (st1, values) := Run(bus, st, Meaning(w, rs[0]));
    var first := ReplyTo(w, open, rs[0], values);
    assert rs[0].cyc <==> |rs| == 1;
    hide Run, Meaning, ReplyWords;
    if |rs| == 1 {
      assert rs[1..] == [];
      NilConcat(first);
    } else {
      assert forall i :: 0 <= i < |rs[1..]| ==> rs[1..][i] == rs[i + 1];
      ReplyClosedOnce(w, bus, st1, LeavesOpen(open, rs[0]), rs[1..]);
      ClosedOnceCons(first, Respond(w, bus, st1, LeavesOpen(open, rs[0]), rs[1..]).2);
    }
  }

  lemma ClosedOnceCons(first: seq<Record>, rest: seq<Record>)
    requires ClosedOnce(rest) && |first| <= 1 && (first != [] ==> !first[0].cyc && rest != [])
    ensures ClosedOnce(first + rest)
  {
    assert forall i :: |first| <= i < |first + rest| ==> (first + rest)[i] == rest[i - |first|];
  }

  lemma CycleIsOneCycle(w: Width, s: Sent)
    requires Sendable(w, s) && s.cycle.ops != []
    ensures OneCycle(w, CycleBytes(w, s))
  {
    SentRecords(w, s);
    CycleWellFormed(w, s.rba, s.cycle.ops, s.checked, 0);
    var rs := RecordsFor(w, s);
    ParseAllOfEncodeAll(w, rs, []);
    NoRecordInNothing(w);
    NilConcat(EncodeAll(w, rs));
    NilConcat(rs);
    hide ParseAll, EncodeAll, RecordsFor, WellFormed, AllFit;
  }

  /** The reply to one cycle is nothing or one cycle. */
  lemma ReplyIsOneCycle<S>(w: Width, bus: Bus<S>, s0: S, bytes: seq<Byte>)
    requires OneCycle(w, bytes)
    ensures var reply := Exchange.Serve(w, bus, State(s0, 0), bytes).1;
            reply != [] ==> OneCycle(w, reply) && |reply| >= RecordAlignment(w)
  {
    var rs := ParseAll(w, bytes).0;
    var out := Respond(w, bus, State(s0, 0), false, rs).2;
    ParsedAllWellFormed(w, bytes);
    RespondFits(w, bus, State(s0, 0), false, rs);
    ReplyClosedOnce(w, bus, State(s0, 0), false, rs);
    ParseAllOfEncodeAll(w, out, []);
    NoRecordInNothing(w);
    NilConcat(EncodeAll(w, out));
    NilConcat(out);
    NoBytesNoRecords(w, out);
    hide Respond, EncodeAll, WellFormed, RecordAlignment, ParseAll;
    if out != [] {
      RecordToCome(w, EncodeAll(w, out));
    }
  }

  /** The first chunk of what crosses the network holds a record header, if there is one. */
  ghost predicate Headed(w: Width, network: seq<Byte> -> seq<seq<Byte>>) {
    forall b: seq<Byte> :: |b| >= RecordAlignment(w) ==>
      network(b) != [] && |network(b)[0]| >= RecordAlignment(w)
  }

  /** One cycle crosses the network and is served in one call. */
  method ServeCycle<S>(w: Width, network: seq<Byte> -> seq<seq<Byte>>, bus: Bus<S>, s0: S, bytes: seq<Byte>)
    returns (s: S, reply: seq<Byte>)
    requires Lossless(network) && Headed(w, network) && OneCycle(w, bytes)
    ensures var (st, answer) := Exchange.Serve(w, bus, State(s0, 0), bytes); s == st.s && reply == answer
  {
    hide *;
    NetworkKeeps(network, bytes);
    var link := new Channel(network(bytes));
    PendingIs(link);
    FirstChunk(w, network, bytes);
    var buf := new Byte[4104](_ => 0);
    var len := link.Recv(buf, 0);
    assert buf[0..len] == buf[..len];
    HeaderSmall(w);
    var alive;
    ghost var k;
    s, alive, k := ServeStream(w, bus, s0, buf, len, link);
    AnsweredBytes(w, bus, s0, bytes, [], k, s, link.sent);
    ServedWhole(w, bus, s0, bytes, k);
    reply := Flat(link.sent);
    NoChunks();
    NilConcat(reply);
  }

  lemma NoChunks()
    ensures Flat([]) == []
  {
  }

  lemma FirstChunk(w: Width, network: seq<Byte> -> seq<seq<Byte>>, bytes: seq<Byte>)
    requires Headed(w, network) && OneCycle(w, bytes)
    ensures network(bytes) != [] && |network(bytes)[0]| >= RecordAlignment(w)
  {
    hide RecordAlignment, ParseAll;
    RecordToCome(w, bytes);
  }

  lemma ServedWhole<S>(w: Width, bus: Bus<S>, s0: S, bytes: seq<Byte>, k: nat)
    requires k == |ParseAll(w, bytes).0|
    ensures var (end, _, out) := Respond(w, bus, State(s0, 0), false, ParseAll(w, bytes).0[..k]);
            AllWellFormed(w, out) && Exchange.Serve(w, bus, State(s0, 0), bytes) == (end, EncodeAll(w, out))
  {
    ParsedAllWellFormed(w, bytes);
    RespondFits(w, bus, State(s0, 0), false, ParseAll(w, bytes).0);
    hide ParseAll, Respond, EncodeAll, WellFormed;
    assert ParseAll(w, bytes).0[..k] == ParseAll(w, bytes).0;
  }

  /** The cycles of a flush cross the network one after another, each followed by its reply. The network cuts each cycle
      and each reply where it likes, but never inside the first record header: then no link is dropped, and everything
      sent is complete. */
  method CyclesTravel<S, D>(w: Width, network: seq<Byte> -> seq<seq<Byte>>, remote: Bus<S>, s0: S, local: Bus<D>, d: D,
                            cycles: seq<Bytes>, box: Inbox, ghost sent: seq<Sent>, ghost older: seq<Response>,
                            ghost done: seq<Completion>)
    returns (s: S, end: (Inbox, D))
    requires Lossless(network) && Headed(w, network) && NoneIdle(sent)
    requires forall i :: 0 <= i < |sent| ==> Sendable(w, sent[i])
    requires Packable(w, sent) && cycles == Encodings(w, sent)
    requires AllSound(older) && AllSound(older + ResponsesFor(sent)) && box == Mailbox(older + ResponsesFor(sent), done)
    ensures CompletedIn(w, remote, s0, sent, ResponsesFor(sent), older, done, d, s, end, Singles(sent))
  {
    hide *;
    s, end := s0, (box, d);
    assert cycles[0..] == cycles;
    for i := 0 to |cycles|
      invariant Delivery.Deliver(w, remote, s, local, end, cycles[i..]) == Delivery.Deliver(w, remote, s0, local, (box, d), cycles)
    {
      DeliverNext(w, remote, s, local, end, cycles, i);
      EncodingIsOneCycle(w, sent, i);
      var reply;
      ghost var s1 := s;
      s, reply := ServeCycle(w, network, remote, s, cycles[i]);
      ReplyIsOneCycle(w, remote, s1, cycles[i]);
      if reply != [] {
        var silence;
        end, silence := ServeCycle(w, network, EndBus(local), end, reply);
      } else {
        NothingServed(w, EndBus(local), State(end, 0));
      }
    }
    DeliverNone(w, remote, s, local, end, cycles[|cycles|..]);
    SinglesComplete(w, remote, s0, local, d, sent, older, done, s, end);
  }

  lemma DeliverNext<S, D>(w: Width, remote: Bus<S>, s: S, local: Bus<D>, end: (Inbox, D), payloads: seq<Bytes>, i: nat)
    requires i < |payloads|
    ensures var (st, reply) := Exchange.Serve(w, remote, State(s, 0), payloads[i]);
            Delivery.Deliver(w, remote, s, local, end, payloads[i..])
            == Delivery.Deliver(w, remote, st.s, local, Exchange.Serve(w, EndBus(local), State(end, 0), reply).0.s,
                                payloads[i + 1..])
  {
    hide Exchange.Serve, EndBus;
    assert payloads[i..][1..] == payloads[i + 1..];
  }

  lemma DeliverNone<S, D>(w: Width, remote: Bus<S>, s: S, local: Bus<D>, end: (Inbox, D), payloads: seq<Bytes>)
    requires payloads == []
    ensures Delivery.Deliver(w, remote, s, local, end, payloads) == (s, end)
  {
  }

  lemma EncodingIsOneCycle(w: Width, sent: seq<Sent>, i: nat)
    requires NoneIdle(sent) && (forall i :: 0 <= i < |sent| ==> Sendable(w, sent[i])) && Packable(w, sent)
    requires i < |Encodings(w, sent)|
    ensures OneCycle(w, Encodings(w, sent)[i])
  {
    hide Sendable, OneCycle, CycleBytes;
    CycleIsOneCycle(w, sent[i]);
  }

  /** Each cycle in a group of its own. */
  function Singles(sent: seq<Sent>): (groups: seq<seq<Sent>>)
    ensures |groups| == |sent| && forall i :: 0 <= i < |sent| ==> groups[i] == [sent[i]]
    ensures Concat(groups) == sent
  {
    if sent == [] then [] else
      assert [sent[0]] + sent[1..] == sent;
      [[sent[0]]] + Singles(sent[1..])
  }

  lemma SinglesComplete<S, D>(w: Width, remote: Bus<S>, s0: S, local: Bus<D>, d: D, sent: seq<Sent>,
                              older: seq<Response>, done: seq<Completion>, s: S, end: (Inbox, D))
    requires (forall i :: 0 <= i < |sent| ==> Sendable(w, sent[i])) && Packable(w, sent)
    requires AllSound(older) && AllSound(older + ResponsesFor(sent))
    requires (s, end)
             == Delivery.Deliver(w, remote, s0, local, (Mailbox(older + ResponsesFor(sent), done), d), Encodings(w, sent))
    ensures CompletedIn(w, remote, s0, sent, ResponsesFor(sent), older, done, d, s, end, Singles(sent))
  {
    if AllApart(older + ResponsesFor(sent)) {
      ApartSendable(w, sent, older);
      SinglesCarry(w, sent);
      DeliverCompletes(w, remote, s0, local, d, Encodings(w, sent), Singles(sent), older, done);
    }
    hide AllApart, Sound, Sendable, ResponsesFor, ExpectedGroups, EndBus, Delivery.Deliver, Concat, Encodings, Singles;
  }

  lemma OneCarried(w: Width, s: Sent)
    requires Sendable(w, s) && Packable(w, [s])
    ensures AllWellFormed(w, RequestOf(w, [s])) && CycleBytes(w, s) == EncodeAll(w, RequestOf(w, [s]))
  {
    hide Sendable, CycleBytes, RequestOf, WellFormed, EncodeAll;
    FlatEncodings(w, [s]);
    assert Encodings(w, [s]) == [CycleBytes(w, s)];
    FlatOne(CycleBytes(w, s));
  }

  lemma SingleCarried(w: Width, sent: seq<Sent>, i: nat)
    requires i < |sent| && Sendable(w, sent[i]) && Packable(w, sent)
    ensures AllWellFormed(w, RequestOf(w, Singles(sent)[i]))
    ensures Encodings(w, sent)[i] == EncodeAll(w, RequestOf(w, Singles(sent)[i]))
  {
    assert Packable(w, [sent[i]]);
    hide *;
    OneCarried(w, sent[i]);
  }

  lemma SinglesCarry(w: Width, sent: seq<Sent>)
    requires (forall i :: 0 <= i < |sent| ==> Sendable(w, sent[i])) && Packable(w, sent)
    ensures Carries(w, Encodings(w, sent), Singles(sent))
  {
    hide Sendable, Packable, AllWellFormed, RequestOf, EncodeAll, Encodings, Singles;
    var payloads, groups := Encodings(w, sent), Singles(sent);
    forall i | 0 <= i < |payloads|
      ensures AllWellFormed(w, RequestOf(w, groups[i])) && payloads[i] == EncodeAll(w, RequestOf(w, groups[i]))
    {
      SingleCarried(w, sent, i);
    }
  }
}
