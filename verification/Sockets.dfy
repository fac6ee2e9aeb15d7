/** The socket's queue of responses in flight: two lists, a lazy flip, 16-bit addresses and 16-bit deadlines. */
module Sockets {
  import opened Seqs
  import opened Words
  import opened Operations
  import opened Responses

  // ---------------------------------------------------------------------------
  // One word for one response
  // ---------------------------------------------------------------------------

  /** Counts the bus operations from a cursor on, up to a limit. */
  method CountStatus(ops: seq<Operation>, cursor: nat, limit: nat) returns (n: nat)
    requires cursor <= |ops| && limit > 0
    ensures n == Min(limit, CountBus(ops[cursor..]))
  {
    n := 0;
    var i := cursor;
    while i < |ops|
      invariant cursor <= i <= |ops| && n < limit
      invariant CountBus(ops[cursor..]) == n + CountBus(ops[i..])
    {
      assert ops[i..][1..] == ops[i + 1..];
      if !ops[i].config {
        n := n + 1;
        if n == limit {
          break;
        }
      }
      i := i + 1;
    }
  }

  /** Hands out n status bits, oldest operation first and highest bit first; skips config operations. */
  method MarkStatus(ops0: seq<Operation>, cursor: nat, n: nat, value: nat) returns (ops: seq<Operation>, i: nat)
    requires cursor <= |ops0| && n <= CountBus(ops0[cursor..])
    ensures (ops, i) == Mark(ops0, cursor, n, value)
  {
    hide Bit;
    ops, i := ops0, cursor;
    var left: nat := n;
    while left > 0
      invariant cursor <= i <= |ops| && left <= CountBus(ops[i..])
      invariant Mark(ops0, cursor, n, value) == Mark(ops, i, left, value)
      decreases |ops| - i
    {
      assert i < |ops| && ops[i..][1..] == ops[i + 1..];
      var op := ops[i];
      if !op.config {
        left := left - 1;
        ghost var tail := ops[i + 1..];
        ops := ops[i := op.(error := op.error || Bit(value, left))];
        assert ops[i + 1..] == tail;
      }
      i := i + 1;
    }
  }

  /** Looks for an error flag. */
  method StatusOf(ops: seq<Operation>) returns (status: Status)
    ensures status == FinalStatus(ops)
  {
    status := OK;
    for i := 0 to |ops|
      invariant status == if exists j :: 0 <= j < i && ops[j].error then SEGFAULT else OK
    {
      if ops[i].error {
        status := SEGFAULT;
      }
    }
  }

  /** Moves the cursors of a response for one received word; fail means the word was not expected. */
  method MoveCursors(r: Response, size: nat, addr: nat, value: nat) returns (r': Response, fail: bool)
    requires Sound(r) && size > 0
    ensures fail == if addr % 2 == 0 then r.writeCursor == |r.cycle.ops| else StatusCount(r, size) == 0
    ensures Sound(r') && (fail ==> r'.cycle == r.cycle) && r'.address == r.address && r'.deadline == r.deadline
    ensures !fail ==> r' == if addr % 2 == 0 then TakeRead(r, value) else TakeStatus(r, size, value)
  {
    hide Mark, FindRead, FindBus, CountBus;
    r', fail := r, false;
    var ops := r.cycle.ops;
    if addr % 2 == 0 {
      if r.writeCursor == |ops| {
        fail := true;
      } else {
        ops := ops[r.writeCursor := ops[r.writeCursor].(value := value)];
        var next := FindReadFrom(ops, r.writeCursor + 1);
        r' := r.(cycle := r.cycle.(ops := ops), writeCursor := next);
      }
    } else {
      var n := CountStatus(ops, r.statusCursor, 8 * size);
      fail := n == 0;
      var marked, next := MarkStatus(ops, r.statusCursor, n, value);
      next := FindBusFrom(marked, next);
      NothingMarked(ops, r.statusCursor, value);
      r' := r.(cycle := r.cycle.(ops := marked), statusCursor := next);
    }
  }

  lemma NothingMarked(ops: seq<Operation>, cursor: nat, value: nat)
    requires cursor <= |ops|
    ensures Mark(ops, cursor, 0, value) == (ops, cursor)
  {
  }

  // ---------------------------------------------------------------------------
  // Deadlines
  // ---------------------------------------------------------------------------

  const TIME: nat := 0x1_0000_0000

  /** When a 16-bit deadline expires, judged from a 32-bit clock reading. */
  function TimeoutOf(deadline: nat, timeCache: nat): nat
    requires timeCache < TIME
  {
    var udelta := (deadline - timeCache % 0x1_0000) % 0x1_0000;
    var sdelta := if udelta < 0x8000 then udelta else udelta - 0x1_0000;
    (timeCache + sdelta) % TIME
  }

  /** The signed distance between two clock readings, on the circle of 32-bit times, is less than half of 2^16. */
  predicate Near(t: nat, timeCache: nat) {
    (t - timeCache + 0x8000) % TIME < 0x1_0000
  }

  /** Truncating a time to 16 bits and recovering it is exact for the times near the clock, and for no others. */
  lemma TimeoutExact(t: nat, timeCache: nat)
    requires t < TIME && timeCache < TIME
    ensures TimeoutOf(t % 0x1_0000, timeCache) == t <==> Near(t, timeCache)
  {
    var d := if t >= timeCache then t - timeCache else t - timeCache + TIME;
    var udelta := (t % 0x1_0000 - timeCache % 0x1_0000) % 0x1_0000;
    LowOfDistance(t, timeCache, d);
    assert udelta == d % 0x1_0000;
    var sdelta := if udelta < 0x8000 then udelta else udelta - 0x1_0000;
    SameTime(t, timeCache, d, sdelta);
    NearDistance(t, timeCache, d);
    assert TimeoutOf(t % 0x1_0000, timeCache) == (timeCache + sdelta) % TIME;
    hide *;
    SignExtended(d);
  }

  lemma LowOfDistance(t: nat, c: nat, d: nat)
    requires t < TIME && c < TIME && d == if t >= c then t - c else t - c + TIME
    ensures (t % 0x1_0000 - c % 0x1_0000) % 0x1_0000 == d % 0x1_0000
  {
  }

  lemma SameTime(t: nat, c: nat, d: nat, s: int)
    requires t < TIME && c < TIME && d == (if t >= c then t - c else t - c + TIME) && -0x8000 <= s < 0x8000
    ensures (c + s) % TIME == t <==> d == if s >= 0 then s else s + TIME
  {
  }

  lemma NearDistance(t: nat, c: nat, d: nat)
    requires t < TIME && c < TIME && d == if t >= c then t - c else t - c + TIME
    ensures Near(t, c) <==> d < 0x8000 || d >= TIME - 0x8000
  {
  }

  lemma SignExtended(d: nat)
    requires d < TIME
    ensures var u := d % 0x1_0000;
            (d == if u < 0x8000 then u else u - 0x1_0000 + TIME) <==> d < 0x8000 || d >= TIME - 0x8000
  {
  }

  /** Times that do not wrap are near when they are within 2^15 seconds. */
  lemma NearIsClose(t: nat, timeCache: nat)
    requires t < TIME && timeCache < TIME
    ensures timeCache - 0x8000 <= t < timeCache + 0x8000 ==> Near(t, timeCache)
  {
  }

  /** q's responses were sent with the deadlines ts, in order, by a clock that has reached timeCache. */
  predicate Timed(q: seq<Response>, ts: seq<nat>, timeCache: nat) {
    && |ts| == |q|
    && (forall i :: 0 <= i < |q| ==> q[i].deadline == ts[i] % 0x1_0000)
    && (forall i, j :: 0 <= i < j < |ts| ==> ts[i] <= ts[j])
    && (forall i :: 0 <= i < |ts| ==> ts[i] <= timeCache + 5)
  }

  /** No deadline is long past, or beyond the last second of 32-bit time. */
  predicate AllNear(ts: seq<nat>, timeCache: nat) {
    forall i :: 0 <= i < |ts| ==> timeCache <= ts[i] + 0x8000 && ts[i] < TIME
  }

  lemma TimedPush(q: seq<Response>, ts: seq<nat>, timeCache: nat, r: Response)
    requires Timed(q, ts, timeCache) && r.deadline == (timeCache + 5) % 0x1_0000
    ensures Timed(q + [r], ts + [timeCache + 5], timeCache)
  {
  }

  lemma TimedRemove(q: seq<Response>, ts: seq<nat>, timeCache: nat, i: nat)
    requires Timed(q, ts, timeCache) && i < |q|
    ensures Timed(q[..i] + q[i + 1..], ts[..i] + ts[i + 1..], timeCache)
  {
  }

  lemma TimedLater(q: seq<Response>, ts: seq<nat>, timeCache: nat, now: nat)
    requires Timed(q, ts, timeCache) && timeCache <= now
    ensures Timed(q, ts, now)
  {
  }

  /** A deadline has passed. */
  predicate Overdue(r: Response, timeCache: nat, now: nat)
    requires timeCache < TIME
  {
    TimeoutOf(r.deadline, timeCache) <= now
  }

  /** In a queue of near deadlines, the 16-bit test is the real one for every response. */
  lemma OverdueExact(q: seq<Response>, ts: seq<nat>, timeCache: nat, now: nat)
    requires Timed(q, ts, timeCache) && AllNear(ts, timeCache) && timeCache < TIME
    ensures forall i :: 0 <= i < |q| ==> (Overdue(q[i], timeCache, now) <==> ts[i] <= now)
  {
    forall i | 0 <= i < |q|
      ensures Overdue(q[i], timeCache, now) <==> ts[i] <= now
    {
      NearIsClose(ts[i], timeCache);
      TimeoutExact(ts[i], timeCache);
    }
  }

  function TimedOut(q: seq<Response>): (s: seq<Completion>)
    ensures |s| == |q|
    ensures forall i :: 0 <= i < |q| ==> s[i] == Completion(q[i].cycle, TIMEOUT)
  {
    if q == [] then [] else [Completion(q[0].cycle, TIMEOUT)] + TimedOut(q[1..])
  }

  lemma {:induction false} TimedOutConcat(a: seq<Response>, b: seq<Response>)
    ensures TimedOut(a + b) == TimedOut(a) + TimedOut(b)
  {
    if a == [] {
      assert a + b == b;
    } else {
      assert (a + b)[1..] == a[1..] + b;
      TimedOutConcat(a[1..], b);
    }
  }

  // ---------------------------------------------------------------------------
  // Responses of one device
  // ---------------------------------------------------------------------------

  function Of(q: seq<Response>, device: nat): seq<Response> {
    if q == [] then [] else (if q[0].cycle.device == device then [q[0]] else []) + Of(q[1..], device)
  }

  function NotOf(q: seq<Response>, device: nat): seq<Response> {
    if q == [] then [] else (if q[0].cycle.device == device then [] else [q[0]]) + NotOf(q[1..], device)
  }

  lemma {:induction false} FilterConcat(a: seq<Response>, b: seq<Response>, device: nat)
    ensures Of(a + b, device) == Of(a, device) + Of(b, device)
    ensures NotOf(a + b, device) == NotOf(a, device) + NotOf(b, device)
  {
    if a == [] {
      assert a + b == b;
    } else {
      assert (a + b)[1..] == a[1..] + b;
      FilterConcat(a[1..], b, device);
      var mine := a[0].cycle.device == device;
      ConcatAssoc(if mine then [a[0]] else [], Of(a[1..], device), Of(b, device));
      ConcatAssoc(if mine then [] else [a[0]], NotOf(a[1..], device), NotOf(b, device));
    }
  }

  lemma {:induction false} FilterReverse(q: seq<Response>, device: nat)
    ensures Of(Reverse(q), device) == Reverse(Of(q, device))
    ensures NotOf(Reverse(q), device) == Reverse(NotOf(q, device))
  {
    if q != [] {
      FilterReverse(q[1..], device);
      FilterConcat(Reverse(q[1..]), [q[0]], device);
      FilterCons(q[0], q[1..], device);
      assert q == [q[0]] + q[1..];
      ReverseConcat([q[0]], q[1..]);
      ReverseConcat(Of([q[0]], device), Of(q[1..], device));
      ReverseConcat(NotOf([q[0]], device), NotOf(q[1..], device));
      hide *;
    }
  }

  lemma FilterCons(r: Response, q: seq<Response>, device: nat)
    ensures Of([r] + q, device) == Of([r], device) + Of(q, device)
    ensures NotOf([r] + q, device) == NotOf([r], device) + NotOf(q, device)
    ensures Reverse([r]) == [r]
    ensures Reverse(Of([r], device)) == Of([r], device) && Reverse(NotOf([r], device)) == NotOf([r], device)
  {
    assert [r][1..] == [];
    FilterConcat([r], q, device);
  }

  lemma {:induction false} FilterSound(q: seq<Response>, device: nat)
    requires AllSound(q)
    ensures AllSound(Of(q, device)) && AllSound(NotOf(q, device))
  {
    if q != [] {
      FilterSound(q[1..], device);
    }
  }

  /** No response is lost or made up, and each lands on its own side. */
  lemma {:induction false} FilterPartition(q: seq<Response>, device: nat)
    ensures multiset(Of(q, device)) + multiset(NotOf(q, device)) == multiset(q)
    ensures forall r :: r in Of(q, device) ==> r.cycle.device == device
    ensures forall r :: r in NotOf(q, device) ==> r.cycle.device != device
  {
    if q != [] {
      FilterPartition(q[1..], device);
      assert q == [q[0]] + q[1..];
    }
  }

  /** Reverses a list in place. */
  method Flip<T>(list: seq<T>) returns (flipped: seq<T>)
    ensures flipped == Reverse(list)
  {
    flipped := [];
    var rest := list;
    while rest != []
      invariant Reverse(list) == Reverse(rest) + flipped
      decreases |rest|
    {
      ConcatAssoc(Reverse(rest[1..]), [rest[0]], flipped);
      flipped, rest := [rest[0]] + flipped, rest[1..];
    }
  }

  /** Moves a list's entries onto the front of two others: one for the given device, one for the rest. */
  method FilterInflight(good0: seq<Response>, bad0: seq<Response>, device: nat, list: seq<Response>)
    returns (good: seq<Response>, bad: seq<Response>)
    ensures good == Reverse(NotOf(list, device)) + good0
    ensures bad == Reverse(Of(list, device)) + bad0
  {
    good, bad := good0, bad0;
    var rest := list;
    while rest != []
      invariant Reverse(NotOf(rest, device)) + good == Reverse(NotOf(list, device)) + good0
      invariant Reverse(Of(rest, device)) + bad == Reverse(Of(list, device)) + bad0
      decreases |rest|
    {
      var r := rest[0];
      if r.cycle.device == device {
        ReverseConcat([r], Of(rest[1..], device));
        ConcatAssoc(Reverse(Of(rest[1..], device)), [r], bad);
        bad := [r] + bad;
      } else {
        ReverseConcat([r], NotOf(rest[1..], device));
        ConcatAssoc(Reverse(NotOf(rest[1..], device)), [r], good);
        good := [r] + good;
      }
      rest := rest[1..];
    }
  }

  // ---------------------------------------------------------------------------
  // Return addresses
  // ---------------------------------------------------------------------------

  predicate Claimable(rba: nat) {
    rba % 2 == 0 && 0x8000 <= rba < 0x1_0000
  }

  /** The address the next response will claim: 0x8000 | (rba + 2), in 16 bits. */
  function NextAddress(rba: nat): nat {
    Or(0x8000, (rba + 2) % 0x1_0000)
  }

  /** The offset of an address above 0x8000. */
  function Wheel(x: nat): nat {
    x % 0x8000
  }

  lemma NextAddressValue(rba: nat)
    requires Claimable(rba)
    ensures NextAddress(rba) == 0x8000 + Wheel(rba - 0x8000 + 2) && Claimable(NextAddress(rba))
  {
    hide Or;
    if rba == 0xFFFE {
      assert Or(0x8000, 0) == 0x8000 by { OrZero(0x8000); }
    } else {
      SmallMod(rba + 2, 0x1_0000);
      SmallMod(rba - 0x8000 + 2, 0x8000);
      TopBit(rba + 2);
    }
  }

  lemma OrZero(x: nat)
    ensures Or(x, 0) == x
  {
  }

  lemma TopBit(x: nat)
    requires 0x8000 <= x < 0x1_0000
    ensures Or(0x8000, x) == x
  {
    Pow2Values();
    Pow2Add(7, 8);
    OrAbsorbs(x, 15);
  }

  /** Setting a bit that is already the top one changes nothing. */
  lemma {:induction false} OrAbsorbs(x: nat, k: nat)
    requires Pow2(k) <= x < 2 * Pow2(k)
    ensures Or(Pow2(k), x) == x
  {
    if k > 0 {
      OrAbsorbs(x / 2, k - 1);
    }
  }

  /** The address after n more claims. */
  function AddressAfter(rba: nat, n: nat): nat {
    if n == 0 then rba else NextAddress(AddressAfter(rba, n - 1))
  }

  lemma {:induction false} AddressAfterValue(rba: nat, n: nat)
    requires Claimable(rba)
    ensures AddressAfter(rba, n) == 0x8000 + Wheel(rba - 0x8000 + 2 * n)
    ensures Claimable(AddressAfter(rba, n))
  {
    if n > 0 {
      AddressAfterValue(rba, n - 1);
      NextOffset(AddressAfter(rba, n - 1), rba - 0x8000 + 2 * (n - 1));
      assert rba - 0x8000 + 2 * (n - 1) + 2 == rba - 0x8000 + 2 * n;
      hide Wheel, NextAddress, Claimable;
    }
  }

  lemma NextOffset(a: nat, x: nat)
    requires Claimable(a) && a == 0x8000 + Wheel(x)
    ensures NextAddress(a) == 0x8000 + Wheel(x + 2) && Claimable(NextAddress(a))
  {
    NextAddressValue(a);
    RollOver(x);
    hide *;
  }

  lemma RollOver(x: nat)
    ensures Wheel(Wheel(x) + 2) == Wheel(x + 2)
  {
  }

  /** Addresses repeat with period 16384 and not before. */
  lemma AddressPeriod(rba: nat, i: nat, j: nat)
    requires Claimable(rba) && i <= j
    ensures AddressAfter(rba, i) == AddressAfter(rba, j) <==> (j - i) % 16384 == 0
  {
    AddressAfterValue(rba, i);
    AddressAfterValue(rba, j);
    assert (rba - 0x8000) % 2 == 0;
    SameEven(rba - 0x8000, i, j);
    hide *;
  }

  lemma SameEven(x: nat, i: nat, j: nat)
    requires x % 2 == 0 && i <= j
    ensures Wheel(x + 2 * i) == Wheel(x + 2 * j) <==> (j - i) % 16384 == 0
  {
    Even(x + 2 * i);
    Even(x + 2 * j);
    hide Wheel;
    assert (x + 2 * i) / 2 == x / 2 + i && (x + 2 * j) / 2 == x / 2 + j;
    SameResidue(x / 2 + i, x / 2 + j);
  }

  lemma Even(y: nat)
    requires y % 2 == 0
    ensures Wheel(y) == 2 * ((y / 2) % 16384)
  {
  }

  lemma SameResidue(a: nat, b: nat)
    requires a <= b
    ensures a % 16384 == b % 16384 <==> (b - a) % 16384 == 0
  {
  }

  /** q's responses were the claims numbered ns, counted from the address start. */
  predicate Claimed(start: nat, q: seq<Response>, ns: seq<nat>) {
    && |ns| == |q|
    && (forall i :: 0 <= i < |q| ==> q[i].address == AddressAfter(start, ns[i]))
    && (forall i, j :: 0 <= i < j < |ns| ==> ns[i] < ns[j])
  }

  lemma ClaimedPush(start: nat, q: seq<Response>, ns: seq<nat>, n: nat, r: Response)
    requires Claimed(start, q, ns) && (|ns| > 0 ==> ns[|ns| - 1] < n) && r.address == AddressAfter(start, n)
    ensures Claimed(start, q + [r], ns + [n])
  {
  }

  lemma ClaimedRemove(start: nat, q: seq<Response>, ns: seq<nat>, i: nat)
    requires Claimed(start, q, ns) && i < |q|
    ensures Claimed(start, q[..i] + q[i + 1..], ns[..i] + ns[i + 1..])
  {
  }

  /** If the responses in flight are among the last 16384 claims, a reply address, with or without the status bit,
      selects exactly the response that claimed it. */
  lemma RoutesToOwner(start: nat, q: seq<Response>, ns: seq<nat>, i: nat, addr: nat)
    requires Claimable(start) && Claimed(start, q, ns) && i < |q|
    requires ns[|q| - 1] - ns[0] < 16384
    ensures Claimable(q[i].address)
    ensures addr == q[i].address || addr == q[i].address + 1 ==> Match(q, Selects(addr)) == i
  {
    AddressAfterValue(start, ns[i]);
    hide *;
    SelectsOwn(q[i].address, addr);
    OthersDiffer(start, q, ns, i);
    MatchOnly(q, i);
  }

  lemma SelectsOwn(own: nat, addr: nat)
    requires Claimable(own)
    ensures addr == own || addr == own + 1 ==> Selects(addr) == own
  {
  }

  lemma OthersDiffer(start: nat, q: seq<Response>, ns: seq<nat>, i: nat)
    requires Claimable(start) && Claimed(start, q, ns) && i < |q| && ns[|q| - 1] - ns[0] < 16384
    ensures forall j :: 0 <= j < |q| && j != i ==> q[j].address != q[i].address
  {
    hide AddressAfter, Claimable;
    forall j | 0 <= j < |q| && j != i
      ensures q[j].address != q[i].address
    {
      Distinct(start, ns, i, j);
    }
  }

  lemma Distinct(start: nat, ns: seq<nat>, i: nat, j: nat)
    requires Claimable(start) && forall i, j :: 0 <= i < j < |ns| ==> ns[i] < ns[j]
    requires i < |ns| && j < |ns| && i != j && ns[|ns| - 1] - ns[0] < 16384
    ensures AddressAfter(start, ns[i]) != AddressAfter(start, ns[j])
  {
    hide *;
    Within(ns, i, j);
    if i < j {
      AddressPeriod(start, ns[i], ns[j]);
    } else {
      AddressPeriod(start, ns[j], ns[i]);
    }
  }

  lemma Within(ns: seq<nat>, i: nat, j: nat)
    requires forall i, j :: 0 <= i < j < |ns| ==> ns[i] < ns[j]
    requires i < |ns| && j < |ns| && i != j && ns[|ns| - 1] - ns[0] < 16384
    ensures 0 < (if i < j then ns[j] - ns[i] else ns[i] - ns[j]) < 16384
  {
  }

  lemma {:induction false} MatchOnly(q: seq<Response>, i: nat)
    requires i < |q| && forall j :: 0 <= j < |q| && j != i ==> q[j].address != q[i].address
    ensures Match(q, q[i].address) == i
    decreases q
  {
    if i > 0 {
      assert q[0].address != q[i].address;
      MatchOnly(q[1..], i - 1);
    }
  }

  // ---------------------------------------------------------------------------
  // The history of a queue
  // ---------------------------------------------------------------------------

  /** What is known of a queue's past: every response made one of the claimed claims of an address, in order, and, as
      long as the clock has been steady, was given a deadline five seconds ahead of it. */
  ghost predicate Dated(q: seq<Response>, rba: nat, timeCache: nat, deadlines: seq<nat>, claims: seq<nat>, claimed: nat,
                        steady: bool)
  {
    && Claimed(0x8000, q, claims) && (forall i :: 0 <= i < |claims| ==> claims[i] < claimed)
    && rba == AddressAfter(0x8000, claimed)
    && |deadlines| == |q| && (steady ==> Timed(q, deadlines, timeCache))
  }

  lemma DatedPush(q: seq<Response>, rba: nat, timeCache: nat, deadlines: seq<nat>, claims: seq<nat>, claimed: nat,
                  steady: bool, r: Response)
    requires Dated(q, rba, timeCache, deadlines, claims, claimed, steady)
    requires r.address == rba && r.deadline == (timeCache + 5) % 0x1_0000
    ensures Dated(q + [r], NextAddress(rba), timeCache, deadlines + [timeCache + 5], claims + [claimed], claimed + 1, steady)
  {
    ClaimedPush(0x8000, q, claims, claimed, r);
    if steady {
      TimedPush(q, deadlines, timeCache, r);
    }
    hide Claimed, Timed, NextAddress;
  }

  lemma DatedRemove(q: seq<Response>, rba: nat, timeCache: nat, deadlines: seq<nat>, claims: seq<nat>, claimed: nat,
                    steady: bool, i: nat)
    requires Dated(q, rba, timeCache, deadlines, claims, claimed, steady) && i < |q|
    ensures Dated(q[..i] + q[i + 1..], rba, timeCache, deadlines[..i] + deadlines[i + 1..], claims[..i] + claims[i + 1..],
                  claimed, steady)
  {
    ClaimedRemove(0x8000, q, claims, i);
    if steady {
      TimedRemove(q, deadlines, timeCache, i);
    }
    hide AddressAfter;
  }

  lemma DatedUpdate(q: seq<Response>, rba: nat, timeCache: nat, deadlines: seq<nat>, claims: seq<nat>, claimed: nat,
                    steady: bool, i: nat, r: Response)
    requires Dated(q, rba, timeCache, deadlines, claims, claimed, steady)
    requires i < |q| && r.address == q[i].address && r.deadline == q[i].deadline
    ensures Dated(q[i := r], rba, timeCache, deadlines, claims, claimed, steady)
  {
    hide AddressAfter;
  }

  lemma DatedLater(q: seq<Response>, rba: nat, timeCache: nat, deadlines: seq<nat>, claims: seq<nat>, claimed: nat,
                   steady: bool, now: nat)
    requires Dated(q, rba, timeCache, deadlines, claims, claimed, steady)
    ensures Dated(q, rba, now, deadlines, claims, claimed, steady && timeCache <= now)
  {
    if steady && timeCache <= now {
      TimedLater(q, deadlines, timeCache, now);
    }
    hide AddressAfter, Claimed, Timed;
  }

  lemma DatedLengths(q: seq<Response>, rba: nat, timeCache: nat, deadlines: seq<nat>, claims: seq<nat>, claimed: nat,
                     steady: bool)
    requires Dated(q, rba, timeCache, deadlines, claims, claimed, steady)
    ensures |deadlines| == |q| == |claims|
  {
    hide AddressAfter, Timed;
  }

  /** The entries of xs that belong to the responses of other devices. */
  function Kept<T>(q: seq<Response>, xs: seq<T>, device: nat): (r: seq<T>)
    requires |xs| == |q|
    ensures |r| == |NotOf(q, device)|
    ensures forall x :: x in r ==> x in xs
  {
    if q == [] then []
    else (if q[0].cycle.device == device then [] else [xs[0]]) + Kept(q[1..], xs[1..], device)
  }

  lemma ClaimedCons(start: nat, r: Response, n: nat, q: seq<Response>, ns: seq<nat>)
    requires Claimed(start, q, ns) && r.address == AddressAfter(start, n) && forall m :: m in ns ==> n < m
    ensures Claimed(start, [r] + q, [n] + ns)
  {
    hide AddressAfter;
    var all := [n] + ns;
    assert forall j :: 0 < j < |all| ==> all[j] == ns[j - 1] && ns[j - 1] in ns && ([r] + q)[j] == q[j - 1];
  }

  lemma ClaimedTail(start: nat, q: seq<Response>, ns: seq<nat>)
    requires Claimed(start, q, ns) && q != []
    ensures Claimed(start, q[1..], ns[1..]) && q[0].address == AddressAfter(start, ns[0])
    ensures forall m :: m in ns[1..] ==> ns[0] < m
  {
    hide AddressAfter;
  }

  lemma {:induction false} ClaimedKept(start: nat, q: seq<Response>, ns: seq<nat>, device: nat)
    requires Claimed(start, q, ns)
    ensures Claimed(start, NotOf(q, device), Kept(q, ns, device))
  {
    if q != [] {
      ClaimedTail(start, q, ns);
      hide Claimed, AddressAfter;
      ClaimedKept(start, q[1..], ns[1..], device);
      if q[0].cycle.device != device {
        ClaimedCons(start, q[0], ns[0], NotOf(q[1..], device), Kept(q[1..], ns[1..], device));
      }
    }
  }

  lemma TimedCons(r: Response, t: nat, q: seq<Response>, ts: seq<nat>, timeCache: nat)
    requires Timed(q, ts, timeCache) && r.deadline == t % 0x1_0000 && t <= timeCache + 5 && forall u :: u in ts ==> t <= u
    ensures Timed([r] + q, [t] + ts, timeCache)
  {
    var all := [t] + ts;
    assert forall j :: 0 < j < |all| ==> all[j] == ts[j - 1] && ts[j - 1] in ts && ([r] + q)[j] == q[j - 1];
  }

  lemma TimedTail(q: seq<Response>, ts: seq<nat>, timeCache: nat)
    requires Timed(q, ts, timeCache) && q != []
    ensures Timed(q[1..], ts[1..], timeCache) && q[0].deadline == ts[0] % 0x1_0000 && ts[0] <= timeCache + 5
    ensures forall u :: u in ts[1..] ==> ts[0] <= u
  {
  }

  lemma {:induction false} TimedKept(q: seq<Response>, ts: seq<nat>, timeCache: nat, device: nat)
    requires Timed(q, ts, timeCache)
    ensures Timed(NotOf(q, device), Kept(q, ts, device), timeCache)
  {
    if q != [] {
      TimedTail(q, ts, timeCache);
      hide Timed;
      TimedKept(q[1..], ts[1..], timeCache, device);
      if q[0].cycle.device != device {
        TimedCons(q[0], ts[0], NotOf(q[1..], device), Kept(q[1..], ts[1..], device), timeCache);
      }
    }
  }

  lemma DatedKept(q: seq<Response>, rba: nat, timeCache: nat, deadlines: seq<nat>, claims: seq<nat>, claimed: nat,
                  steady: bool, device: nat)
    requires Dated(q, rba, timeCache, deadlines, claims, claimed, steady)
    ensures |deadlines| == |q| == |claims|
    ensures Dated(NotOf(q, device), rba, timeCache, Kept(q, deadlines, device), Kept(q, claims, device), claimed, steady)
  {
    ClaimedKept(0x8000, q, claims, device);
    if steady {
      TimedKept(q, deadlines, timeCache, device);
    }
    var kept := Kept(q, claims, device);
    assert forall i :: 0 <= i < |kept| ==> kept[i] in claims;
    hide AddressAfter, NotOf, Kept;
  }

  // ---------------------------------------------------------------------------
  // The socket
  // ---------------------------------------------------------------------------

  /** What part of a socket the queue needs. done lists the callbacks made. */
  class Socket {
    var firstResponse: seq<Response>
    var lastResponse: seq<Response>
    var rba: nat
    var timeCache: nat
    var done: seq<Completion>

    ghost var deadlines: seq<nat>
    ghost var claims: seq<nat>
    ghost var claimed: nat
    ghost var steady: bool

    /** steady tells that the clock has never been set back; claimed counts the addresses claimed so far. */
    ghost predicate Valid()
      reads this
    {
      && AllSound(firstResponse) && AllSound(lastResponse) && Claimable(rba) && timeCache < TIME
      && Dated(Queue(), rba, timeCache, deadlines, claims, claimed, steady)
    }

    /** The queue in sending order: first, then last backwards. */
    function Queue(): seq<Response>
      reads this
    {
      firstResponse + Reverse(lastResponse)
    }

    function Box(): (box: Inbox)
      reads this
      requires Valid()
      ensures box == Mailbox(Queue(), done)
    {
      QueueSound(firstResponse, lastResponse);
      Mailbox(Queue(), done)
    }

    constructor ()
      ensures Valid() && Queue() == [] && done == [] && rba == 0x8000 && timeCache == 0 && steady && claimed == 0
    {
      firstResponse, lastResponse, rba, timeCache, done := [], [], 0x8000, 0, [];
      deadlines, claims, claimed, steady := [], [], 0, true;
    }

    /** Queues the response of a cycle just sent, and claims its address. */
    method Push(r: Response)
      requires Valid() && Sound(r) && r.address == rba && r.deadline == (timeCache + 5) % 0x1_0000
      modifies this
      ensures Valid() && Queue() == old(Queue()) + [r]
      ensures rba == NextAddress(old(rba)) && timeCache == old(timeCache) && done == old(done)
      ensures claimed == old(claimed) + 1 && steady == old(steady)
    {
      NextAddressValue(rba);
      DatedPush(Queue(), rba, timeCache, deadlines, claims, claimed, steady, r);
      hide Dated, Claimable, Sound, NextAddress;
      ReverseConcat([r], lastResponse);
      ConcatAssoc(firstResponse, Reverse(lastResponse), [r]);
      lastResponse := [r] + lastResponse;
      rba := NextAddress(rba);
      deadlines, claims, claimed := deadlines + [timeCache + 5], claims + [claimed], claimed + 1;
    }

    /** Takes one word written to config space; completed tells whether a callback was made. */
    method WriteWord(size: nat, addr: nat, value: nat) returns (completed: bool)
      requires Valid() && size > 0
      modifies this
      ensures Valid() && Box() == WriteConfig(old(Box()), size, addr, value)
      ensures completed <==> |done| > |old(done)|
      ensures rba == old(rba) && timeCache == old(timeCache) && claimed == old(claimed) && steady == old(steady)
    {
      SelectsMask(addr);
      var i, found := Find(addr);
      if !found {
        NoMatch(Queue(), Selects(addr));
        return false;
      }
      MatchFront(firstResponse, Reverse(lastResponse), Selects(addr), i);
      completed := Take(i, size, addr, value);
    }

    /** Walks first, and joins last to its end when it runs out. */
    method Find(addr: nat) returns (i: nat, found: bool)
      requires Valid()
      modifies this`firstResponse, this`lastResponse
      ensures Valid() && Queue() == old(Queue())
      ensures found ==> i < |firstResponse| && firstResponse[i].address == And(addr, 0xFFFE)
                        && forall j :: 0 <= j < i ==> firstResponse[j].address != And(addr, 0xFFFE)
      ensures !found ==> forall j :: 0 <= j < |Queue()| ==> Queue()[j].address != And(addr, 0xFFFE)
    {
      hide And;
      i, found := 0, false;
      while !found
        invariant Valid() && Queue() == old(Queue()) && i <= |firstResponse|
        invariant found ==> i < |firstResponse| && firstResponse[i].address == And(addr, 0xFFFE)
        invariant forall j :: 0 <= j < i ==> firstResponse[j].address != And(addr, 0xFFFE)
        decreases !found, |firstResponse| + |lastResponse| - i, |lastResponse|
      {
        if i == |firstResponse| {
          if lastResponse == [] {
            return;
          }
          var flipped := Flip(lastResponse);
          QueueSound(firstResponse, lastResponse);
          firstResponse, lastResponse := firstResponse + flipped, [];
          NilConcat(firstResponse);
        } else if firstResponse[i].address == And(addr, 0xFFFE) {
          found := true;
        } else {
          i := i + 1;
        }
      }
    }

    /** Gives the word to the response at position i of first. */
    method Take(i: nat, size: nat, addr: nat, value: nat) returns (completed: bool)
      requires Valid() && size > 0 && i < |firstResponse|
      modifies this`firstResponse, this`done, this`deadlines, this`claims
      ensures Valid()
      ensures match Accept(old(firstResponse[i]), size, addr, value)
              case Pending(r) => !completed && Queue() == old(Queue())[i := r] && done == old(done)
              case Done(c) => completed && Queue() == old(Queue())[..i] + old(Queue())[i + 1..] && done == old(done) + [c]
    {
      hide TakeRead, TakeStatus, StatusCount, FinalStatus, Dated, Claimable;
      ghost var q, tail := firstResponse, Reverse(lastResponse);
      assert Queue()[i] == firstResponse[i];
      assert Sound(firstResponse[i]);
      var r, fail := MoveCursors(firstResponse[i], size, addr, value);
      completed := fail || (r.writeCursor == |r.cycle.ops| && r.statusCursor == |r.cycle.ops|);
      if completed {
        var status := StatusOf(r.cycle.ops);
        DatedRemove(Queue(), rba, timeCache, deadlines, claims, claimed, steady, i);
        DatedLengths(Queue(), rba, timeCache, deadlines, claims, claimed, steady);
        firstResponse := firstResponse[..i] + firstResponse[i + 1..];
        done := done + [Completion(r.cycle, if fail then FAIL else status)];
        deadlines, claims := deadlines[..i] + deadlines[i + 1..], claims[..i] + claims[i + 1..];
        RemoveFront(q, tail, i);
      } else {
        DatedUpdate(Queue(), rba, timeCache, deadlines, claims, claimed, steady, i, r);
        firstResponse := firstResponse[i := r];
        UpdateFront(q, tail, i, r);
      }
    }

    /** Times out every response of a device, oldest first; the others stay in order. */
    method KillInflight(device: nat)
      requires Valid()
      modifies this`firstResponse, this`lastResponse, this`done, this`deadlines, this`claims
      ensures Valid() && Queue() == NotOf(old(Queue()), device)
      ensures done == old(done) + TimedOut(Of(old(Queue()), device))
    {
      DatedKept(Queue(), rba, timeCache, deadlines, claims, claimed, steady, device);
      hide Of, NotOf, Reverse, Sound, TimedOut, Claimable, Dated, Kept;
      ghost var q := Queue();
      var good, bad := SplitInflight(device);
      firstResponse, lastResponse := good, [];
      NoneBehind(good);
      deadlines, claims := Kept(q, deadlines, device), Kept(q, claims, device);
      Expire(bad);
    }

    /** Splits the queue into the responses of other devices and those of the given one. */
    method SplitInflight(device: nat) returns (good: seq<Response>, bad: seq<Response>)
      requires Valid()
      ensures good == NotOf(Queue(), device) && bad == Of(Queue(), device) && AllSound(good)
    {
      FilterQueue(firstResponse, lastResponse, device);
      hide Of, NotOf, Reverse, Sound, Claimable, Dated;
      good, bad := FilterInflight([], [], device, lastResponse);
      var front := Flip(firstResponse);
      good, bad := FilterInflight(good, bad, device, front);
    }

    /** Makes the timeout callbacks of a list of responses. */
    method Expire(list: seq<Response>)
      modifies this`done
      ensures done == old(done) + TimedOut(list)
    {
      for i := 0 to |list|
        invariant done == old(done) + TimedOut(list[..i])
      {
        assert list[..i + 1] == list[..i] + [list[i]];
        TimedOutConcat(list[..i], [list[i]]);
        ConcatAssoc(old(done), TimedOut(list[..i]), TimedOut([list[i]]));
        done := done + [Completion(list[i].cycle, TIMEOUT)];
      }
    }

    /** When the oldest response expires; 0 when nothing is in flight. */
    method Timeout() returns (t: nat)
      requires Valid()
      modifies this`firstResponse, this`lastResponse
      ensures Valid() && Queue() == old(Queue())
      ensures old(firstResponse) != [] ==> firstResponse == old(firstResponse)
      ensures t == if Queue() == [] then 0 else TimeoutOf(Queue()[0].deadline, timeCache)
    {
      if firstResponse == [] {
        QueueSound(firstResponse, lastResponse);
        firstResponse := Flip(lastResponse);
        lastResponse := [];
        NilConcat(firstResponse);
      }
      if firstResponse != [] {
        t := TimeoutOf(firstResponse[0].deadline, timeCache);
      } else {
        t := 0;
      }
    }

    /** Expires the overdue responses at the front of first, then sets the clock. */
    method Check(now: nat) returns (expired: nat)
      requires Valid() && now < TIME
      modifies this
      ensures Valid() && expired <= |old(Queue())|
      ensures Queue() == old(Queue())[expired..]
      ensures done == old(done) + TimedOut(old(Queue())[..expired])
      ensures forall i :: 0 <= i < expired ==> Overdue(old(Queue())[i], old(timeCache), now)
      ensures firstResponse == [] || !Overdue(Queue()[0], old(timeCache), now)
      ensures timeCache == now && rba == old(rba) && claimed == old(claimed)
      ensures steady == (old(steady) && old(timeCache) <= now)
    {
      hide TimeoutOf, Dated, Claimable, Sound;
      ghost var q := Queue();
      expired := 0;
      var late := firstResponse != [];
      while late
        invariant Valid() && expired <= |q| && Queue() == q[expired..]
        invariant done == old(done) + TimedOut(q[..expired])
        invariant forall i :: 0 <= i < expired ==> Overdue(q[i], timeCache, now)
        invariant late ==> firstResponse != []
        invariant !late ==> firstResponse == [] || !Overdue(Queue()[0], timeCache, now)
        invariant rba == old(rba) && timeCache == old(timeCache) && claimed == old(claimed) && steady == old(steady)
        decreases late, |firstResponse|
      {
        var t := Timeout();
        if t <= now {
          NextExpired(q, expired, firstResponse, Reverse(lastResponse));
          ConcatAssoc(old(done), TimedOut(q[..expired]), [Completion(firstResponse[0].cycle, TIMEOUT)]);
          ExpireFirst();
          expired := expired + 1;
          late := firstResponse != [];
        } else {
          late := false;
        }
      }
      DatedLater(Queue(), rba, timeCache, deadlines, claims, claimed, steady, now);
      steady := steady && timeCache <= now;
      timeCache := now;
    }

    /** Takes the oldest response off the queue, with a timeout. */
    method ExpireFirst()
      requires Valid() && firstResponse != []
      modifies this`firstResponse, this`done, this`deadlines, this`claims
      ensures Valid() && firstResponse == old(firstResponse)[1..] && lastResponse == old(lastResponse)
      ensures done == old(done) + [Completion(old(firstResponse)[0].cycle, TIMEOUT)]
    {
      hide Dated, Claimable, Sound;
      DatedRemove(Queue(), rba, timeCache, deadlines, claims, claimed, steady, 0);
      DatedLengths(Queue(), rba, timeCache, deadlines, claims, claimed, steady);
      ghost var first, tail := firstResponse, Reverse(lastResponse);
      done := done + [Completion(firstResponse[0].cycle, TIMEOUT)];
      firstResponse := firstResponse[1..];
      deadlines, claims := deadlines[..0] + deadlines[1..], claims[..0] + claims[1..];
      assert (first + tail)[..0] + (first + tail)[1..] == first[1..] + tail;
    }
  }

  /** Over any run of a socket: while no more than 16384 addresses have been claimed since the oldest response in flight,
      a reply to an address, with or without the status bit, reaches exactly the response that claimed it. */
  lemma RepliesFindTheirOwner(s: Socket, i: nat, addr: nat)
    requires s.Valid() && i < |s.Queue()| && s.claimed - s.claims[0] <= 16384
    ensures addr == s.Queue()[i].address || addr == s.Queue()[i].address + 1 ==> Match(s.Queue(), Selects(addr)) == i
  {
    assert Claimable(0x8000);
    assert s.claims[|s.claims| - 1] < s.claimed;
    hide AddressAfter, Match, Selects, AllSound;
    RoutesToOwner(0x8000, s.Queue(), s.claims, i, addr);
  }

  /** Over any run with a clock that is not set back: deadlines along the queue never decrease, and for deadlines that are
      not long past the 16-bit test is the true one. */
  lemma TimeoutsAreTrue(s: Socket, now: nat)
    requires s.Valid() && s.steady
    ensures |s.deadlines| == |s.Queue()|
    ensures forall i, j :: 0 <= i < j < |s.deadlines| ==> s.deadlines[i] <= s.deadlines[j]
    ensures AllNear(s.deadlines, s.timeCache) ==>
              forall i :: 0 <= i < |s.Queue()| ==> (Overdue(s.Queue()[i], s.timeCache, now) <==> s.deadlines[i] <= now)
  {
    hide Claimed, AddressAfter, AllSound, Overdue;
    if AllNear(s.deadlines, s.timeCache) {
      OverdueExact(s.Queue(), s.deadlines, s.timeCache, now);
    }
  }

  lemma NoneBehind(first: seq<Response>)
    ensures first + Reverse<Response>([]) == first
  {
  }

  lemma QueueSound(first: seq<Response>, last: seq<Response>)
    requires AllSound(first) && AllSound(last)
    ensures AllSound(first + Reverse(last)) && AllSound(Reverse(last))
  {
  }

  lemma SelectsMask(addr: nat)
    ensures And(addr, 0xFFFE) == Selects(addr)
  {
    Pow2Values();
    AndMask(addr, 16, 1);
  }

  lemma MatchFront(first: seq<Response>, rest: seq<Response>, address: nat, i: nat)
    requires i < |first| && first[i].address == address && forall j :: 0 <= j < i ==> first[j].address != address
    ensures Match(first + rest, address) == i
  {
    var m := Match(first + rest, address);
    assert (first + rest)[i] == first[i];
    assert m < |first| ==> (first + rest)[m] == first[m];
  }

  lemma NoMatch(q: seq<Response>, address: nat)
    requires forall j :: 0 <= j < |q| ==> q[j].address != address
    ensures Match(q, address) == |q|
  {
  }

  lemma RemoveFront(first: seq<Response>, rest: seq<Response>, i: nat)
    requires i < |first|
    ensures first[..i] + first[i + 1..] + rest == (first + rest)[..i] + (first + rest)[i + 1..]
  {
  }

  lemma UpdateFront(first: seq<Response>, rest: seq<Response>, i: nat, r: Response)
    requires i < |first|
    ensures first[i := r] + rest == (first + rest)[i := r]
  {
  }

  lemma FilterQueue(first: seq<Response>, last: seq<Response>, device: nat)
    requires AllSound(first) && AllSound(last)
    ensures var q := first + Reverse(last);
            && AllSound(NotOf(q, device))
            && NotOf(q, device) + [] == Reverse(NotOf(Reverse(first), device)) + (Reverse(NotOf(last, device)) + [])
            && NotOf(q, device) + [] == NotOf(q, device)
            && Of(q, device) == Reverse(Of(Reverse(first), device)) + (Reverse(Of(last, device)) + [])
  {
    var q := first + Reverse(last);
    QueueSound(first, last);
    FilterSound(q, device);
    hide AllSound, Of, NotOf, Reverse;
    NilConcat(NotOf(q, device));
    FilterConcat(first, Reverse(last), device);
    FilterReverse(last, device);
    FilterReverse(Reverse(first), device);
    ReverseReverse(first);
    NilConcat(Reverse(NotOf(last, device)));
    NilConcat(Reverse(Of(last, device)));
  }

  lemma NextExpired(q: seq<Response>, k: nat, first: seq<Response>, rest: seq<Response>)
    requires k <= |q| && first != [] && first + rest == q[k..]
    ensures k < |q| && q[k] == first[0] && first[1..] + rest == q[k + 1..]
    ensures TimedOut(q[..k + 1]) == TimedOut(q[..k]) + [Completion(first[0].cycle, TIMEOUT)]
  {
    assert (first + rest)[0] == first[0] && (first + rest)[1..] == first[1..] + rest;
    assert q[k..][0] == q[k] && q[k..][1..] == q[k + 1..];
    assert q[..k + 1] == q[..k] + [q[k]];
    TimedOutConcat(q[..k], [q[k]]);
  }

  /** What step 1 of a check leaves: no response that was not overdue has been expired, and either the front list is
      used up or nothing in the whole queue is overdue. */
  lemma CheckedQueue(q: seq<Response>, ts: seq<nat>, timeCache: nat, now: nat, expired: nat)
    requires Timed(q, ts, timeCache) && AllNear(ts, timeCache) && timeCache < TIME && expired <= |q|
    requires forall i :: 0 <= i < expired ==> Overdue(q[i], timeCache, now)
    ensures forall i :: 0 <= i < expired ==> ts[i] <= now
    ensures expired < |q| && !Overdue(q[expired], timeCache, now) ==> forall i :: expired <= i < |q| ==> now < ts[i]
  {
    OverdueExact(q, ts, timeCache, now);
  }
}
