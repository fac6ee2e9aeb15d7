/** Responses in flight, and what a config-space write from the remote end does to them. */
module Responses {
  import opened Words
  import opened Operations

  /** A cycle that has been sent. */
  datatype Cycle = Cycle(handle: nat, device: nat, ops: seq<Operation>)

  /** Cursors are positions in cycle.ops; |cycle.ops| stands for EB_NULL. */
  datatype Response = Response(address: nat, deadline: nat, cycle: Cycle, writeCursor: nat, statusCursor: nat)

  predicate Sound(r: Response) {
    r.writeCursor <= |r.cycle.ops| && r.statusCursor <= |r.cycle.ops|
  }

  /** The callback a finished cycle gets. */
  datatype Completion = Completion(cycle: Cycle, status: Status)

  /** The response registered for a cycle that has just been sent. */
  function NewResponse(address: nat, deadline: nat, cycle: Cycle, checked: bool): (r: Response)
    ensures Sound(r)
  {
    Response(address, deadline, cycle, FindRead(cycle.ops, 0), if checked then FindBus(cycle.ops, 0) else |cycle.ops|)
  }

  // ---------------------------------------------------------------------------
  // One word
  // ---------------------------------------------------------------------------

  function Min(a: nat, b: nat): nat {
    if a <= b then a else b
  }

  /** Gives the next n bus operations from i the low n bits of value, oldest highest; returns where it stopped. */
  function Mark(ops: seq<Operation>, i: nat, n: nat, value: nat): (r: (seq<Operation>, nat))
    requires i <= |ops|
    ensures |r.0| == |ops| && i <= r.1 <= |ops|
    decreases |ops| - i
  {
    if n == 0 || i == |ops| then (ops, i)
    else if ops[i].config then Mark(ops, i + 1, n, value)
    else Mark(ops[i := ops[i].(error := ops[i].error || Bit(value, n - 1))], i + 1, n - 1, value)
  }

  /** The status a finished cycle reports. */
  function FinalStatus(ops: seq<Operation>): Status {
    if exists i :: 0 <= i < |ops| && ops[i].error then SEGFAULT else OK
  }

  datatype Verdict = Pending(response: Response) | Done(completion: Completion)

  /** A read-back word. */
  function TakeRead(r: Response, value: nat): Response
    requires Sound(r) && r.writeCursor < |r.cycle.ops|
  {
    var ops := r.cycle.ops[r.writeCursor := r.cycle.ops[r.writeCursor].(value := value)];
    r.(cycle := r.cycle.(ops := ops), writeCursor := FindRead(ops, r.writeCursor + 1))
  }

  /** The bus operations a status word of the given size reports on. */
  function StatusCount(r: Response, size: nat): nat
    requires Sound(r)
  {
    Min(8 * size, CountBus(r.cycle.ops[r.statusCursor..]))
  }

  /** A status word. */
  function TakeStatus(r: Response, size: nat, value: nat): Response
    requires Sound(r)
  {
    var (ops, next) := Mark(r.cycle.ops, r.statusCursor, StatusCount(r, size), value);
    r.(cycle := r.cycle.(ops := ops), statusCursor := FindBus(ops, next))
  }

  /** What a word written to r's address does. Bit 0 of the address tells status from read-back. */
  function Accept(r: Response, size: nat, addr: nat, value: nat): (v: Verdict)
    requires Sound(r)
    ensures v.Pending? ==> Sound(v.response)
  {
    if addr % 2 == 0 && r.writeCursor == |r.cycle.ops| then Done(Completion(r.cycle, FAIL))
    else if addr % 2 == 1 && StatusCount(r, size) == 0 then Done(Completion(r.cycle, FAIL))
    else
      var r' := if addr % 2 == 0 then TakeRead(r, value) else TakeStatus(r, size, value);
      if r'.writeCursor == |r'.cycle.ops| && r'.statusCursor == |r'.cycle.ops|
      then Done(Completion(r'.cycle, FinalStatus(r'.cycle.ops)))
      else Pending(r')
  }

  // ---------------------------------------------------------------------------
  // The queue
  // ---------------------------------------------------------------------------

  predicate AllSound(q: seq<Response>) {
    forall i :: 0 <= i < |q| ==> Sound(q[i])
  }

  /** The return address a config-space address selects. */
  function Selects(addr: nat): nat {
    addr % 0x1_0000 - addr % 2
  }

  /** The first response with the given return address; |q| if there is none. */
  function Match(q: seq<Response>, address: nat): (i: nat)
    ensures i <= |q|
    ensures i < |q| ==> q[i].address == address
    ensures forall j :: 0 <= j < i ==> q[j].address != address
  {
    if q == [] || q[0].address == address then 0 else 1 + Match(q[1..], address)
  }

  /** Responses in flight in the order they were sent, and the callbacks made so far. */
  datatype Mailbox = Mailbox(queue: seq<Response>, done: seq<Completion>)

  type Inbox = m: Mailbox | AllSound(m.queue) witness Mailbox([], [])

  /** eb_socket_write_config. */
  function WriteConfig(s: Inbox, size: nat, addr: nat, value: nat): Inbox {
    var i := Match(s.queue, Selects(addr));
    if i == |s.queue| then s
    else match Accept(s.queue[i], size, addr, value)
      case Pending(r) => Mailbox(s.queue[i := r], s.done)
      case Done(c) => Mailbox(s.queue[..i] + s.queue[i + 1..], s.done + [c])
  }

  /** No word of this kind is expected any more: no read waits for its value, or no bus operation for its status. */
  predicate Unexpected(r: Response, addr: nat)
    requires Sound(r)
  {
    if addr % 2 == 0 then r.writeCursor == |r.cycle.ops|
    else forall i :: r.statusCursor <= i < |r.cycle.ops| ==> r.cycle.ops[i].config
  }

  /** A word ends the cycle it belongs to with FAIL exactly when it is not expected; the operations are then called back as
      they were. No other word causes FAIL: a cycle is also complete once nothing is expected any more, and then reports
      SEGFAULT if some operation failed and OK if none did. */
  lemma FailsExactly(s: Inbox, i: nat, size: nat, addr: nat, value: nat)
    requires i == Match(s.queue, addr % 0x1_0000 - addr % 2) && i < |s.queue| && size > 0
    ensures Sound(s.queue[i])
    ensures var r, s' := s.queue[i], WriteConfig(s, size, addr, value);
            if Unexpected(r, addr) then
              s' == Mailbox(s.queue[..i] + s.queue[i + 1..], s.done + [Completion(r.cycle, FAIL)])
            else
              || (s'.done == s.done && |s'.queue| == |s.queue|
                  && (s'.queue[i].writeCursor < |r.cycle.ops| || s'.queue[i].statusCursor < |r.cycle.ops|))
              || exists c: Completion ::
                   && s' == Mailbox(s.queue[..i] + s.queue[i + 1..], s.done + [c])
                   && c.status == if exists j :: 0 <= j < |c.cycle.ops| && c.cycle.ops[j].error then SEGFAULT else OK
  {
    var r := s.queue[i];
    assert r in s.queue;
    AcceptExactly(r, size, addr, value);
    hide Mark, FindRead, FindBus, CountBus, Accept, Unexpected;
    if Accept(r, size, addr, value).Done? {
      var c := Accept(r, size, addr, value).completion;
      assert WriteConfig(s, size, addr, value) == Mailbox(s.queue[..i] + s.queue[i + 1..], s.done + [c]);
    }
  }

  lemma AcceptExactly(r: Response, size: nat, addr: nat, value: nat)
    requires Sound(r) && size > 0
    ensures match Accept(r, size, addr, value)
            case Pending(r') =>
              !Unexpected(r, addr) && |r'.cycle.ops| == |r.cycle.ops|
              && (r'.writeCursor < |r.cycle.ops| || r'.statusCursor < |r.cycle.ops|)
            case Done(c) =>
              if Unexpected(r, addr) then c == Completion(r.cycle, FAIL)
              else c.status == if exists j :: 0 <= j < |c.cycle.ops| && c.cycle.ops[j].error then SEGFAULT else OK
  {
    NoBusLeft(r.cycle.ops, r.statusCursor);
    hide Mark, FindRead, FindBus, CountBus;
  }

  lemma {:induction false} NoBusLeft(ops: seq<Operation>, i: nat)
    requires i <= |ops|
    ensures CountBus(ops[i..]) == 0 <==> forall j :: i <= j < |ops| ==> ops[j].config
    decreases |ops| - i
  {
    if i < |ops| {
      NoBusLeft(ops, i + 1);
      assert ops[i..][1..] == ops[i + 1..];
    }
  }

  // ---------------------------------------------------------------------------
  // Facts about marking
  // ---------------------------------------------------------------------------

  /** The two lists hold the same operations up to values and error flags. */
  predicate SameShape(a: seq<Operation>, b: seq<Operation>) {
    |a| == |b| && forall i :: 0 <= i < |a| ==> a[i].kind == b[i].kind && a[i].config == b[i].config
  }

  lemma {:induction false} SameCursors(a: seq<Operation>, b: seq<Operation>, i: nat)
    requires SameShape(a, b) && i <= |a|
    ensures FindRead(a, i) == FindRead(b, i) && FindBus(a, i) == FindBus(b, i)
    decreases |a| - i
  {
    if i < |a| {
      SameCursors(a, b, i + 1);
    }
  }

  lemma {:induction false} SameCount(a: seq<Operation>, b: seq<Operation>)
    requires SameShape(a, b)
    ensures CountBus(a) == CountBus(b)
    decreases |a|
  {
    if a != [] {
      SameCount(a[1..], b[1..]);
    }
  }

  lemma {:induction false} NoBusBetween(ops: seq<Operation>, i: nat, k: nat)
    requires i <= k <= |ops| && CountBus(ops[i..k]) == 0
    ensures FindBus(ops, i) == FindBus(ops, k)
    decreases k - i
  {
    if i < k {
      assert ops[i..k][1..] == ops[i + 1..k];
      NoBusBetween(ops, i + 1, k);
    }
  }

  lemma {:induction false} NoBusAfter(ops: seq<Operation>, i: nat)
    requires i <= |ops|
    ensures FindBus(ops, i) == |ops| <==> CountBus(ops[i..]) == 0
    decreases |ops| - i
  {
    if i < |ops| {
      assert ops[i..][1..] == ops[i + 1..];
      NoBusAfter(ops, i + 1);
    }
  }

  /** An operation after its share of a status word. */
  function Marked(ops: seq<Operation>, j: nat, k: nat, value: nat): Operation
    requires j < k <= |ops|
  {
    if ops[j].config then ops[j]
    else ops[j].(error := ops[j].error || Bit(value, CountBus(ops[j + 1..k])))
  }

  /** out is ops with the bus operations in i..k marked, and the cursor at next moves on to what follows k. */
  ghost predicate GroupMarked(ops: seq<Operation>, i: nat, k: nat, value: nat, out: seq<Operation>, next: nat)
    requires i <= k <= |ops| && next <= |out|
  {
    && SameShape(out, ops)
    && (forall j :: 0 <= j < i || k <= j < |ops| ==> out[j] == ops[j])
    && (forall j :: i <= j < k ==> out[j] == Marked(ops, j, k, value))
    && FindBus(out, next) == FindBus(ops, k)
  }

  lemma {:induction false} MarkGroup(ops: seq<Operation>, i: nat, k: nat, value: nat)
    requires i <= k <= |ops|
    ensures var (out, next) := Mark(ops, i, CountBus(ops[i..k]), value);
            GroupMarked(ops, i, k, value, out, next)
    decreases k - i
  {
    hide Bit, Marked;
    if i < k {
      assert ops[i..k][1..] == ops[i + 1..k];
      var n := CountBus(ops[i..k]);
      if n == 0 {
        NoneMarked(ops, i, k, value);
      } else if ops[i].config {
        hide FindBus, SameShape;
        MarkGroup(ops, i + 1, k, value);
        MarkSkip(ops, i, k, value);
      } else {
        var ops' := ops[i := ops[i].(error := ops[i].error || Bit(value, n - 1))];
        assert ops'[i + 1..k] == ops[i + 1..k];
        MarkGroup(ops', i + 1, k, value);
        var (out, next) := Mark(ops', i + 1, n - 1, value);
        MarkOne(ops, i, k, value, ops', out, next);
      }
    }
  }

  lemma MarkSkip(ops: seq<Operation>, i: nat, k: nat, value: nat)
    requires i < k <= |ops| && ops[i].config
    ensures Marked(ops, i, k, value) == ops[i]
  {
  }

  lemma MarkOne(ops: seq<Operation>, i: nat, k: nat, value: nat, ops': seq<Operation>, out: seq<Operation>, next: nat)
    requires i < k <= |ops| && !ops[i].config && CountBus(ops[i..k]) > 0 && next <= |out|
    requires ops' == ops[i := ops[i].(error := ops[i].error || Bit(value, CountBus(ops[i..k]) - 1))]
    requires GroupMarked(ops', i + 1, k, value, out, next)
    ensures GroupMarked(ops, i, k, value, out, next)
  {
    assert SameShape(ops', ops);
    SameCursors(ops', ops, k);
    MarkedLater(ops, ops', i, k, value);
    MarkedFirst(ops, i, k, value);
    hide Marked, Bit, CountBus, FindBus;
    assert out[i] == ops'[i];
  }

  lemma MarkedFirst(ops: seq<Operation>, i: nat, k: nat, value: nat)
    requires i < k <= |ops| && !ops[i].config
    ensures CountBus(ops[i..k]) > 0
    ensures Marked(ops, i, k, value) == ops[i].(error := ops[i].error || Bit(value, CountBus(ops[i..k]) - 1))
  {
    assert ops[i..k][1..] == ops[i + 1..k];
  }

  lemma MarkedLater(ops: seq<Operation>, ops': seq<Operation>, i: nat, k: nat, value: nat)
    requires i < k <= |ops| == |ops'| && forall j :: i < j < |ops| ==> ops'[j] == ops[j]
    ensures forall j :: i + 1 <= j < k ==> Marked(ops', j, k, value) == Marked(ops, j, k, value)
  {
    forall j | i + 1 <= j < k
      ensures Marked(ops', j, k, value) == Marked(ops, j, k, value)
    {
      assert ops'[j + 1..k] == ops[j + 1..k];
    }
  }

  lemma {:induction false} NoneMarked(ops: seq<Operation>, i: nat, k: nat, value: nat)
    requires i <= k <= |ops| && CountBus(ops[i..k]) == 0
    ensures forall j :: i <= j < k ==> Marked(ops, j, k, value) == ops[j]
    ensures FindBus(ops, i) == FindBus(ops, k)
    decreases k - i
  {
    if i < k {
      assert ops[i..k][1..] == ops[i + 1..k];
      NoneMarked(ops, i + 1, k, value);
    }
  }
}
