/** The life of cycles, from opening to their one callback, over the cell pool and the socket. */
module Lifecycle {
  import opened Seqs
  import opened Widths
  import opened Operations
  import opened Validate
  import opened Responses
  import opened Sockets
  import opened Memory
  import opened Framing
  import opened Flushing
  import Exchange
  import opened Accounts

  /** No cell is free and the pool cannot grow. */
  predicate NoCell(chain: seq<nat>, size: nat, granted: bool) {
    chain == [] && !(granted && size != FULL)
  }

  lemma NoCellIs(chain: seq<nat>, size: nat, granted: bool)
    ensures NoCell(chain, size, granted) <==> chain == [] && !(granted && size != FULL)
  {
  }

  /** Every response in flight names the device that its cycle was opened on. */
  ghost predicate Matching(cycles: Cycles, q: seq<Response>) {
    forall i :: 0 <= i < |q| ==>
      q[i].cycle.handle in cycles && cycles[q[i].cycle.handle].device == q[i].cycle.device
  }

  function CompletedHandles(list: seq<Completion>): seq<nat> {
    if list == [] then [] else [list[0].cycle.handle] + CompletedHandles(list[1..])
  }

  /** The log entry of a callback for the cycle with a given handle. */
  function EndOf(cycles: Cycles, c: nat, status: Status): End {
    CalledBack(if c in cycles then cycles[c].token else 0, status)
  }

  /** The log entries of finished responses. */
  function Ends(cycles: Cycles, list: seq<Completion>): (ends: seq<End>)
    ensures |ends| == |list|
  {
    seq(|list|, i requires 0 <= i < |list| =>
      EndOf(cycles, list[i].cycle.handle, list[i].status))
  }

  class Library {
    const pool: Pool<()>
    const socket: Socket
    var cycles: Cycles
    var devices: Devices
    var log: seq<End>
    var issued: nat
    ghost var owner: Owners

    /** The books balance while the given cycles wait for their answers. */
    ghost predicate Books(waiting: multiset<nat>)
      reads this, pool
    {
      pool.Valid() && owner.Keys == pool.live && Good(cycles, devices, owner, log, issued, waiting)
    }

    ghost predicate Valid()
      reads this, pool, socket
    {
      && Books(multiset(InFlight(socket.Queue())))
      && socket.Valid() && Matching(cycles, socket.Queue())
    }

    constructor ()
      ensures Valid() && cycles == map[] && devices == map[] && log == [] && issued == 0 && fresh(pool) && fresh(socket)
    {
      pool := new Pool<()>();
      socket := new Socket();
      cycles, devices, log, issued, owner := map[], map[], [], 0, map[];
      new;
      hide *;
      EmptyGood();
      BooksAre(this, multiset(InFlight([])));
      ValidIs(this);
    }

    /** Returns cells to the pool. */
    method FreeCells(cells: seq<nat>)
      requires pool.Valid() && NoDuplicates(cells) && Members(cells) <= pool.live
      modifies pool
      ensures pool.Valid() && pool.live == old(pool.live) - Members(cells)
    {
      hide *;
      assert cells[..0] == [];
      for i := 0 to |cells|
        invariant pool.Valid() && pool.live == old(pool.live) - Members(cells[..i])
      {
        NextMember(cells, i);
        pool.Free(cells[i]);
      }
      assert cells[..|cells|] == cells;
    }

    /** Returns all cells of a cycle. */
    method FreeRecord(c: nat, r: Record)
      requires pool.Valid() && NoDuplicates(r.cells) && Members(r.cells) <= pool.live && c in pool.live - Members(r.cells)
      requires r.stage.Flying? ==> r.stage.response in pool.live - Members(r.cells) && r.stage.response != c
      modifies pool
      ensures pool.Valid() && pool.live == old(pool.live) - CellsOf(c, r)
    {
      hide Members, NoDuplicates, Partition, Linked;
      FreeCells(r.cells);
      pool.Free(c);
      if r.stage.Flying? {
        pool.Free(r.stage.response);
      }
    }

    /** Ends a cycle: frees its operations, its own cell and its response, once each, and logs how it ended. */
    method Retire(c: nat, end: End, dev: Device, ghost waiting: multiset<nat>, ghost waiting': multiset<nat>)
      requires Books(waiting) && c in cycles && end.token == cycles[c].token
      requires cycles[c].device in devices
      requires EndStep(cycles[c].stage, c, devices[cycles[c].device], dev, waiting, waiting')
      modifies this, pool
      ensures Books(waiting')
      ensures cycles == old(cycles) - {c} && devices == old(devices)[old(cycles[c].device) := dev]
      ensures log == old(log) + [end] && issued == old(issued)
    {
      hide *;
      var r := cycles[c];
      BooksFacts(this, waiting);
      RetiredCells(cycles, devices, owner, log, issued, waiting, c);
      EndGood(cycles, devices, owner, log, issued, waiting, c, end, dev, waiting');
      FreeRecord(c, r);
      KeysWithout(owner, CellsOf(c, r));
      devices := devices[r.device := dev];
      cycles := cycles - {c};
      log := log + [end];
      owner := owner - CellsOf(c, r);
      BooksAre(this, waiting');
    }

    /** A device of the user's, or one that only serves. */
    method AddDevice(passive: bool, granted: bool) returns (d: nat)
      requires Valid()
      modifies this, pool
      ensures Valid() && cycles == old(cycles) && log == old(log) && issued == old(issued)
      ensures d != NULL ==> d !in old(devices) && devices == old(devices)[d := Device(0, [], passive, true)]
      ensures d == NULL ==> devices == old(devices)
    {
      hide *;
      ghost var waiting := multiset(InFlight(socket.Queue()));
      ValidFacts(this);
      BooksFacts(this, waiting);
      d := pool.New(granted);
      if d != NULL {
        DeviceGood(cycles, devices, owner, log, issued, waiting, d, passive);
        devices := devices[d := Device(0, [], passive, true)];
        owner := owner[d := DeviceCell];
      }
      BooksAre(this, waiting);
      ValidIs(this);
    }

    /** eb_cycle_open: refused without memory, or on a device that only serves. */
    method OpenCycle(d: nat, granted: bool) returns (status: Status, c: nat)
      requires Valid() && d in devices
      modifies this, pool
      ensures Valid() && log == old(log)
      ensures status == OK <==> c != NULL
      ensures status == OK ==>
                && c !in old(cycles) && !old(devices)[d].passive && issued == old(issued) + 1
                && cycles == old(cycles)[c := Record(old(issued), d, Open, false, [], [])]
                && devices == old(devices)[d := old(devices)[d].(unready := Increment(old(devices)[d].unready))]
      ensures status == OOM <==> NoCell(old(pool.chain), old(pool.size), granted)
      ensures status != OK ==>
                (status == OOM || (status == FAIL && old(devices)[d].passive))
                && cycles == old(cycles) && devices == old(devices) && issued == old(issued)
    {
      hide *;
      ghost var waiting := multiset(InFlight(socket.Queue()));
      ValidFacts(this);
      BooksFacts(this, waiting);
      NoCellIs(pool.chain, pool.size, granted);
      c := pool.New(granted);
      status := OOM;
      if c != NULL {
        if devices[d].passive {
          pool.Free(c);
          status, c := FAIL, NULL;
        } else {
          FreshCell(cycles, devices, owner, log, issued, waiting, c);
          OpenGood(cycles, devices, owner, log, issued, waiting, c, d);
          MatchingOpen(cycles, socket.Queue(), c, Record(issued, d, Open, false, [], []));
          cycles := cycles[c := Record(issued, d, Open, false, [], [])];
          devices := devices[d := devices[d].(unready := Increment(devices[d].unready))];
          owner := owner[c := CycleCell];
          issued := issued + 1;
          status := OK;
        }
      }
      BooksAre(this, waiting);
      ValidIs(this);
    }

    /** eb_cycle_doop: adds an operation in front of the others. Without memory the cycle loses its operations and is
        dead from then on; a dead cycle takes no more operations. */
    method DoOperation(c: nat, op: Operation, granted: bool) returns (added: bool)
      requires Valid() && c in cycles && cycles[c].stage == Open
      modifies this, pool
      ensures Valid() && devices == old(devices) && log == old(log) && issued == old(issued)
      ensures cycles.Keys == old(cycles).Keys && forall k :: k in cycles && k != c ==> cycles[k] == old(cycles)[k]
      ensures var r, r' := old(cycles)[c], cycles[c];
              && r' == r.(dead := r'.dead, cells := r'.cells, ops := r'.ops)
              && r'.dead == (r.dead || (!added && r'.dead))
              && (added ==> !r.dead && !r'.dead && r'.ops == [op] + r.ops && |r'.cells| == 1 + |r.cells| && r'.cells[1..] == r.cells)
              && (!added ==> r'.dead && r'.ops == [] && r'.cells == [])
              && (added <==> !r.dead && !NoCell(old(pool.chain), old(pool.size), granted))
    {
      hide *;
      ghost var waiting := multiset(InFlight(socket.Queue()));
      ValidFacts(this);
      BooksFacts(this, waiting);
      RetiredCells(cycles, devices, owner, log, issued, waiting, c);
      DeadIsEmpty(cycles, devices, owner, log, issued, waiting, c);
      NoCellIs(pool.chain, pool.size, granted);
      var h := pool.New(granted);
      var r := cycles[c];
      if h == NULL {
        KillGood(cycles, devices, owner, log, issued, waiting, c);
        FreeCells(r.cells);
        KeysWithout(owner, Members(r.cells));
        r := r.(dead := true, cells := [], ops := []);
        owner := owner - Members(cycles[c].cells);
        added := false;
      } else if r.dead {
        pool.Free(h);
        assert cycles[c := r] == cycles;
        added := false;
      } else {
        AddGood(cycles, devices, owner, log, issued, waiting, c, h, op);
        r := r.(cells := [h] + r.cells, ops := [op] + r.ops);
        owner := owner[h := OpOf(c)];
        added := true;
      }
      MatchingUpdate(cycles, socket.Queue(), c, r);
      cycles := cycles[c := r];
      BooksAre(this, waiting);
      ValidIs(this);
    }

    /** eb_cycle_close and eb_cycle_close_silently: the operations go into program order, the first one tells whether
        errors are checked, and the cycle joins its device's closed list. */
    method CloseCycle(c: nat, checked: bool)
      requires Valid() && c in cycles && cycles[c].stage == Open
      modifies this
      ensures Valid() && log == old(log) && issued == old(issued)
      ensures var r := old(cycles)[c];
              && r.device in old(devices)
              && var dev := old(devices)[r.device];
                 devices == old(devices)[r.device := dev.(unready := Decrement(dev.unready), ready := [c] + dev.ready)]
      ensures c in cycles && ClosedFrom(old(cycles)[c].ops, checked, cycles[c].ops)
      ensures var r := old(cycles)[c];
              cycles == old(cycles)[c := r.(stage := Closed, cells := Reverse(r.cells), ops := cycles[c].ops)]
    {
      hide *;
      ghost var waiting := multiset(InFlight(socket.Queue()));
      ValidFacts(this);
      BooksFacts(this, waiting);
      RetiredCells(cycles, devices, owner, log, issued, waiting, c);
      DeadIsEmpty(cycles, devices, owner, log, issued, waiting, c);
      var r := cycles[c];
      var cells := Flip(r.cells);
      var ops := InProgramOrder(r.ops, checked);
      ReverseMembers(r.cells);
      var r' := r.(stage := Closed, cells := cells, ops := ops);
      CloseGood(cycles, devices, owner, log, issued, waiting, c, r');
      MatchingUpdate(cycles, socket.Queue(), c, r');
      var dev := devices[r.device];
      cycles := cycles[c := r'];
      devices := devices[r.device := dev.(unready := Decrement(dev.unready), ready := [c] + dev.ready)];
      BooksAre(this, waiting);
      ValidIs(this);
    }

    /** eb_cycle_abort: the cycle ends without a callback. */
    method AbortCycle(c: nat)
      requires Valid() && c in cycles && cycles[c].stage == Open
      modifies this, pool
      ensures Valid() && cycles == old(cycles) - {c} && issued == old(issued)
      ensures log == old(log) + [Aborted(old(cycles)[c].token)]
      ensures var d := old(cycles)[c].device;
              d in old(devices)
              && devices == old(devices)[d := old(devices)[d].(unready := Decrement(old(devices)[d].unready))]
    {
      hide *;
      ghost var waiting := multiset(InFlight(socket.Queue()));
      ValidFacts(this);
      BooksFacts(this, waiting);
      GoodCycle(cycles, devices, owner, log, issued, waiting, c);
      var dev := devices[cycles[c].device];
      dev := dev.(unready := Decrement(dev.unready));
      AbortStep(c, devices[cycles[c].device], waiting);
      MatchingRemove(cycles, devices, owner, log, issued, socket.Queue(), c);
      Retire(c, Aborted(cycles[c].token), dev, waiting, waiting);
      ValidIs(this);
    }

    /** Ends the cycles of a list of finished responses, with the callbacks the list names. */
    method RetireAll(list: seq<Completion>, ghost rest: multiset<nat>)
      requires Books(multiset(CompletedHandles(list)) + rest)
      modifies this, pool
      ensures Books(rest)
      ensures devices == old(devices) && issued == old(issued)
      ensures log == old(log) + Ends(old(cycles), list)
      ensures cycles.Keys == old(cycles).Keys - Members(CompletedHandles(list))
      ensures forall k :: k in cycles ==> cycles[k] == old(cycles)[k]
    {
      hide *;
      RetireStarts(list, cycles, log);
      for i := 0 to |list|
        invariant Books(multiset(CompletedHandles(list[i..])) + rest)
        invariant devices == old(devices) && issued == old(issued)
        invariant log == old(log) + Ends(old(cycles), list[..i])
        invariant cycles.Keys == old(cycles).Keys - Members(CompletedHandles(list[..i]))
        invariant forall k :: k in cycles ==> cycles[k] == old(cycles)[k]
      {
        ghost var waiting := multiset(CompletedHandles(list[i..])) + rest;
        ghost var waiting' := multiset(CompletedHandles(list[i + 1..])) + rest;
        var c := list[i].cycle.handle;
        NextCompleted(list, i, rest);
        BooksFacts(this, waiting);
        FlyingCycle(cycles, devices, owner, log, issued, waiting, waiting', c);
        NextEnd(old(cycles), cycles, list, i);
        ConcatAssoc(old(log), Ends(old(cycles), list[..i]), [CalledBack(cycles[c].token, list[i].status)]);
        Retire(c, CalledBack(cycles[c].token, list[i].status), devices[cycles[c].device], waiting, waiting');
      }
      RetireEnds(list, rest);
    }

    /** A word written to config space by the other end. At most one cycle ends, with one callback. */
    method Reply(size: nat, addr: nat, value: nat) returns (completed: bool)
      requires Valid() && size > 0
      modifies this, pool, socket
      ensures Valid() && devices == old(devices) && issued == old(issued)
      ensures socket.Box() == WriteConfig(old(socket.Box()), size, addr, value)
      ensures !completed ==> cycles == old(cycles) && log == old(log) && socket.done == old(socket.done)
      ensures completed ==> exists c: Completion ::
                socket.done == old(socket.done) + [c] && EndedWith(old(cycles), cycles, old(log), log, c)
    {
      hide *;
      ValidFacts(this);
      ghost var box := socket.Box();
      var n := |socket.done|;
      completed := socket.WriteWord(size, addr, value);
      BoxParts(socket);
      ghost var box' := socket.Box();
      ReplyEffect(box, size, addr, value);
      ghost var waiting := multiset(InFlight(socket.Queue()));
      if completed {
        var c := socket.done[n];
        FinishedReply(cycles, box, box', c);
        ghost var before, was := cycles, log;
        BooksFacts(this, multiset(CompletedHandles([c])) + waiting);
        ListedBefore(cycles, devices, owner, log, issued, waiting, c);
        RetireAll([c], waiting);
        OneEndedWith(before, cycles, was, log, c);
        BooksFacts(this, waiting);
        MatchingLeft(before, cycles, devices, owner, log, issued, socket.Queue());
      } else {
        QuietReply(cycles, box, box');
      }
      ValidIs(this);
    }

    /** Step 1 of a socket check: the overdue responses at the front of the queue end with a timeout, oldest first. */
    method Check(now: nat) returns (expired: nat)
      requires Valid() && now < TIME
      modifies this, pool, socket
      ensures Valid() && devices == old(devices) && issued == old(issued)
      ensures expired <= |old(socket.Queue())| && socket.Queue() == old(socket.Queue())[expired..]
      ensures forall i :: 0 <= i < expired ==> Overdue(old(socket.Queue())[i], old(socket.timeCache), now)
      ensures socket.firstResponse == [] || !Overdue(socket.Queue()[0], old(socket.timeCache), now)
      ensures log == old(log) + Ends(old(cycles), TimedOut(old(socket.Queue())[..expired]))
      ensures cycles.Keys == old(cycles).Keys - Members(InFlight(old(socket.Queue())[..expired]))
      ensures forall c :: c in cycles && c in old(cycles) ==> cycles[c] == old(cycles)[c]
    {
      hide *;
      ValidFacts(this);
      ghost var q := socket.Queue();
      var n := |socket.done|;
      expired := socket.Check(now);
      var list := socket.done[n..];
      CutQueue(cycles, q, expired);
      assert list == TimedOut(q[..expired]);
      ghost var before := cycles;
      RetireAll(list, multiset(InFlight(socket.Queue())));
      BooksFacts(this, multiset(InFlight(socket.Queue())));
      MatchingLeft(before, cycles, devices, owner, log, issued, socket.Queue());
      ValidIs(this);
    }

    /** Ends the closed cycles of a device with timeouts, oldest first. */
    method RetireClosed(d: nat, list: seq<nat>, ghost waiting: multiset<nat>)
      requires Books(waiting) && d in devices && list == Reverse(devices[d].ready)
      modifies this, pool
      ensures Books(waiting) && issued == old(issued)
      ensures devices == old(devices)[d := old(devices)[d].(ready := [])]
      ensures log == old(log) + TimeoutEnds(old(cycles), list)
      ensures cycles.Keys == old(cycles).Keys - Members(list) && forall k :: k in cycles ==> cycles[k] == old(cycles)[k]
      ensures forall c :: c in list ==> ClosedOf(old(cycles), d, c)
    {
      hide *;
      BooksFacts(this, waiting);
      ReorderGood(cycles, devices, owner, log, issued, waiting, d, list);
      devices := devices[d := devices[d].(ready := list)];
      BooksAre(this, waiting);
      ClosedStarts(list, cycles, log, devices, old(devices), d);
      for i := 0 to |list|
        invariant Books(waiting) && issued == old(issued)
        invariant d in devices && devices == old(devices)[d := old(devices)[d].(ready := list[i..])]
        invariant log == old(log) + TimeoutEnds(old(cycles), list[..i])
        invariant cycles.Keys == old(cycles).Keys - Members(list[..i]) && forall k :: k in cycles ==> cycles[k] == old(cycles)[k]
        invariant forall j :: 0 <= j < i ==> ClosedOf(old(cycles), d, list[j])
      {
        var c := list[i];
        BooksFacts(this, waiting);
        ClosedNext(cycles, devices, owner, log, issued, waiting, d, list, i);
        ClosedEnd(old(cycles), cycles, list, i, d);
        ConcatAssoc(old(log), TimeoutEnds(old(cycles), list[..i]), [CalledBack(cycles[c].token, TIMEOUT)]);
        Retire(c, CalledBack(cycles[c].token, TIMEOUT), devices[d].(ready := list[i + 1..]), waiting, waiting);
      }
      ClosedEnds(list);
    }

    /** eb_device_close: refused while the count of open cycles is not zero; otherwise every cycle of the device in flight
        or closed ends with a timeout, those in flight first, and the device goes. The count has 8 bits: when a positive
        multiple of 256 cycles is open, the device goes from under them, and exactly then the library is left broken. */
    method CloseDevice(d: nat) returns (status: Status)
      requires Valid() && d in devices
      modifies this, pool, socket
      ensures issued == old(issued)
      ensures status == if |OpenOf(old(cycles), d)| % 256 != 0 then BUSY else OK
      ensures Valid() <==> status == BUSY || OpenOf(old(cycles), d) == {}
      ensures status == BUSY ==> cycles == old(cycles) && devices == old(devices) && log == old(log)
      ensures status == OK ==>
                && devices == old(devices) - {d}
                && (forall c :: c in cycles <==>
                      c in old(cycles) && (old(cycles)[c].device != d || old(cycles)[c].stage.Open?))
                && (forall c :: c in cycles && c in old(cycles) ==> cycles[c] == old(cycles)[c])
                && socket.Queue() == NotOf(old(socket.Queue()), d)
                && log == old(log) + Ends(old(cycles), TimedOut(Of(old(socket.Queue()), d)))
                          + TimeoutEnds(old(cycles), Reverse(old(devices)[d].ready))
    {
      hide *;
      ghost var q := socket.Queue();
      ValidFacts(this);
      BooksFacts(this, multiset(InFlight(q)));
      UnreadyTells(cycles, devices, owner, log, issued, multiset(InFlight(q)), d);
      if devices[d].unready != 0 {
        return BUSY;
      }
      var n := |socket.done|;
      socket.KillInflight(d);
      var list := socket.done[n..];
      KilledQueue(cycles, q, d);
      NotOpenOf(cycles, devices, owner, log, issued, q, d);
      assert list == TimedOut(Of(q, d));
      ghost var waiting := multiset(InFlight(socket.Queue()));
      RetireAll(list, waiting);
      ghost var flown := cycles;
      var closed := Flip(devices[d].ready);
      RetireClosed(d, closed, waiting);
      BooksFacts(this, waiting);
      TimeoutsSame(old(cycles), flown, closed, d);
      OnlyOpenLeft(old(cycles), flown, cycles, devices, owner, log, issued, socket.Queue(), q, d, closed);
      FreeDevice(d, waiting);
      DevicesLeft(old(devices), d);
      StrandedOrNot(this, old(cycles), d);
      status := OK;
    }

    /** Gives a device's cell back. */
    method FreeDevice(d: nat, ghost waiting: multiset<nat>)
      requires Books(waiting) && d in devices
      modifies this`devices, this`owner, pool
      ensures devices == old(devices) - {d}
      ensures (forall c :: c in cycles ==> cycles[c].device != d) ==> Books(waiting)
    {
      hide *;
      BooksFacts(this, waiting);
      DeviceOwned(cycles, devices, owner, log, issued, waiting, d);
      if forall c :: c in cycles ==> cycles[c].device != d {
        RemoveDeviceGood(cycles, devices, owner, log, issued, waiting, d);
      }
      pool.Free(d);
      devices := devices - {d};
      owner := owner - {d};
      if forall c :: c in cycles ==> cycles[c].device != d {
        BooksAre(this, waiting);
      }
    }

    /** The other end has broken the protocol, or the link has closed: a device that only serves goes; one of the user's
        stays, without its link. */
    method LoseLink(d: nat)
      requires Valid() && d in devices
      modifies this, pool, socket
      ensures Valid() && issued == old(issued) && cycles == old(cycles) && log == old(log)
      ensures socket.Queue() == old(socket.Queue())
      ensures devices == if old(devices)[d].passive then old(devices) - {d}
                         else old(devices)[d := old(devices)[d].(connected := false)]
    {
      hide *;
      ghost var q := socket.Queue();
      ValidFacts(this);
      BooksFacts(this, multiset(InFlight(q)));
      if devices[d].passive {
        PassiveIdle(cycles, devices, owner, log, issued, q, d);
        var status := CloseDevice(d);
        NothingTimedOut(old(cycles), log, old(log));
        assert cycles == old(cycles);
      } else {
        UnlinkedGood(cycles, devices, owner, log, issued, multiset(InFlight(q)), d);
        devices := devices[d := devices[d].(connected := false)];
        BooksAre(this, multiset(InFlight(q)));
        ValidIs(this);
      }
    }

    /** Puts the oldest closed cycle of a device into flight, with the response cell h. */
    method Launch(d: nat, c: nat, rest: seq<nat>, h: nat, r: Response)
      requires socket.Valid() && Matching(cycles, socket.Queue()) && Sound(r)
      requires pool.Valid() && h in pool.live && owner.Keys == pool.live - {h}
      requires Good(cycles, devices, owner, log, issued, multiset(InFlight(socket.Queue())))
      requires c in cycles && cycles[c].stage == Closed && cycles[c].device == d && d in devices
      requires multiset(devices[d].ready) == multiset(rest) + multiset{c}
      requires r.cycle.handle == c && r.cycle.device == d
      requires r.address == socket.rba && r.deadline == (socket.timeCache + 5) % 0x1_0000
      modifies this, socket
      ensures Valid() && issued == old(issued) && log == old(log)
      ensures devices == old(devices)[d := old(devices)[d].(ready := rest)]
      ensures cycles == old(cycles)[c := old(cycles)[c].(stage := Flying(h))]
      ensures socket.Queue() == old(socket.Queue()) + [r] && socket.rba == NextAddress(old(socket.rba))
      ensures socket.timeCache == old(socket.timeCache) && socket.done == old(socket.done)
    {
      hide *;
      ghost var q := socket.Queue();
      FlyGood(cycles, devices, owner, log, issued, multiset(InFlight(q)), c, h, rest);
      QueueGrows(cycles, q, r, c, d, Flying(h));
      cycles := cycles[c := cycles[c].(stage := Flying(h))];
      devices := devices[d := devices[d].(ready := rest)];
      owner := owner[h := ResponseOf(c)];
      socket.Push(r);
      BooksAre(this, multiset(InFlight(socket.Queue())));
      ValidIs(this);
    }

    /** Ends the oldest closed cycle of a device at once; h is a response cell that turned out not to be needed. */
    method EndAtOnce(d: nat, c: nat, rest: seq<nat>, h: nat, status: Status)
      requires socket.Valid() && Matching(cycles, socket.Queue())
      requires pool.Valid() && (if h == NULL then owner.Keys == pool.live else h in pool.live && owner.Keys == pool.live - {h})
      requires Good(cycles, devices, owner, log, issued, multiset(InFlight(socket.Queue())))
      requires c in cycles && cycles[c].stage == Closed && cycles[c].device == d && d in devices
      requires EndStep(Closed, c, devices[d], devices[d].(ready := rest), multiset(InFlight(socket.Queue())),
                       multiset(InFlight(socket.Queue())))
      modifies this, pool
      ensures Valid() && issued == old(issued) && log == old(log) + [CalledBack(old(cycles)[c].token, status)]
      ensures devices == old(devices)[d := old(devices)[d].(ready := rest)]
      ensures cycles == old(cycles) - {c}
    {
      hide *;
      ghost var waiting := multiset(InFlight(socket.Queue()));
      if h != NULL {
        pool.Free(h);
      }
      BooksAre(this, waiting);
      MatchingRemove(cycles, devices, owner, log, issued, socket.Queue(), c);
      Retire(c, CalledBack(cycles[c].token, status), devices[d].(ready := rest), waiting, waiting);
      ValidIs(this);
    }

    /** A response cell, for a cycle that passes validation. */
    method AllocateResponse(w: Width, r: Record, granted: bool) returns (h: nat)
      requires pool.Valid()
      modifies pool
      ensures pool.Valid() && pool.live == (if h == NULL then old(pool.live) else old(pool.live) + {h})
      ensures h != NULL ==> h !in old(pool.live)
      ensures h != NULL <==> Sendworthy(w, r) && !NoCell(old(pool.chain), old(pool.size), granted)
    {
      hide *;
      h := NULL;
      NoCellIs(pool.chain, pool.size, granted);
      if Sendworthy(w, r) {
        h := pool.New(granted);
      }
    }

    /** Flushes the oldest closed cycle of a device: it ends at once or goes into flight. The response cell is allocated
        only for a cycle that passes validation, and given back when no answer is expected. */
    method FlushOldest(d: nat, w: Width, cap: Cap, c: nat, rest: seq<nat>, granted: bool, ghost f: Flushed)
      returns (callback: seq<Callback>, ghost memory: bool)
      requires Valid() && d in devices && devices[d].ready == [c] + rest && f.rba == socket.rba
      modifies this, pool, socket
      ensures Valid() && issued == old(issued) && devices == old(devices)[d := old(devices)[d].(ready := rest)]
      ensures c in old(cycles) && Claimable(f.rba)
      ensures memory <==> Sendworthy(w, old(cycles)[c]) && !NoCell(old(pool.chain), old(pool.size), granted)
      ensures FlushedTo(FlushOne(w, cap, d, (socket.timeCache + 5) % 0x1_0000, f,
                                 Ready(c, old(cycles)[c].dead, old(cycles)[c].ops), memory),
                        f, callback, socket.rba, old(socket.Queue()), socket.Queue())
      ensures log == old(log) + CallbackEnds(old(cycles), callback)
      ensures forall i :: 0 <= i < |callback| ==> callback[i].cycle.handle == c
      ensures cycles.Keys <= old(cycles).Keys
      ensures forall k :: k in old(cycles) && k != c ==> k in cycles && cycles[k] == old(cycles)[k]
      ensures socket.timeCache == old(socket.timeCache) && socket.done == old(socket.done)
    {
      hide *;
      ghost var q := socket.Queue();
      ValidFacts(this);
      BooksFacts(this, multiset(InFlight(q)));
      OldestClosed(cycles, devices, owner, log, issued, multiset(InFlight(q)), d, c, rest);
      SocketFacts(socket);
      var h := AllocateResponse(w, cycles[c], granted);
      memory := h != NULL;
      var g := Outcome(w, cap, d, (socket.timeCache + 5) % 0x1_0000, socket.rba, Ready(c, cycles[c].dead, cycles[c].ops), h != NULL);
      OutcomeAlone(w, cap, d, (socket.timeCache + 5) % 0x1_0000, f, Ready(c, cycles[c].dead, cycles[c].ops), memory, q);
      callback := g.callbacks;
      if g.queue == [] {
        OneCallback(cycles, c, callback);
        EndAtOnce(d, c, rest, h, callback[0].status);
      } else {
        NoCallback(cycles, callback, log);
        Launch(d, c, rest, h, g.queue[0]);
      }
    }

    /** eb_device_flush, as far as cycles and cells are concerned: every closed cycle of the device, oldest first, ends or
        goes into flight as the flush of the same cycles prescribes. grants tells whether memory can grow. */
    method FlushDevice(d: nat, w: Width, cap: Cap, grants: seq<bool>)
      returns (status: Status, callbacks: seq<Callback>, ghost f: Flushed, ghost memory: seq<bool>)
      requires Valid() && d in devices && |grants| == |devices[d].ready|
      modifies this, pool, socket
      ensures Valid() && issued == old(issued) && socket.timeCache == old(socket.timeCache)
      ensures status == if old(devices)[d].connected then OK else FAIL
      ensures status == FAIL ==> cycles == old(cycles) && devices == old(devices) && log == old(log)
      ensures status == OK ==>
                && devices == old(devices)[d := old(devices)[d].(ready := [])]
                && Claimable(old(socket.rba)) && |memory| == |old(devices)[d].ready|
                && f == FlushAll(w, cap, d, (socket.timeCache + 5) % 0x1_0000,
                                 Flushed([], [], [], NOTHING, old(socket.rba)),
                                 Readies(old(cycles), Reverse(old(devices)[d].ready)), memory)
                && callbacks == f.callbacks && socket.rba == f.rba && socket.Queue() == old(socket.Queue()) + f.queue
                && log == old(log) + CallbackEnds(old(cycles), callbacks)
      ensures cycles.Keys <= old(cycles).Keys
      ensures forall c :: c in old(cycles) && !ClosedOf(old(cycles), d, c) ==> c in cycles && cycles[c] == old(cycles)[c]
    {
      hide *;
      callbacks, f, memory := [], Flushed([], [], [], NOTHING, socket.rba), [];
      if !devices[d].connected {
        return FAIL, callbacks, f, memory;
      }
      ghost var q0 := socket.Queue();
      var list := Flip(devices[d].ready);
      ValidFacts(this);
      BooksFacts(this, multiset(InFlight(q0)));
      SocketFacts(socket);
      ReadyDistinct(cycles, devices, owner, log, issued, multiset(InFlight(q0)), d);
      ReverseMembers(devices[d].ready);
      ReorderGood(cycles, devices, owner, log, issued, multiset(InFlight(q0)), d, list);
      devices := devices[d := devices[d].(ready := list)];
      BooksAre(this, multiset(InFlight(q0)));
      ValidIs(this);
      callbacks, f, memory := FlushEach(d, w, cap, list, grants, f);
      status := OK;
    }

    /** Flushes a list of closed cycles, one after another. */
    method FlushEach(d: nat, w: Width, cap: Cap, list: seq<nat>, grants: seq<bool>, ghost f0: Flushed)
      returns (callbacks: seq<Callback>, ghost f: Flushed, ghost memory: seq<bool>)
      requires Valid() && d in devices && devices[d].ready == list && NoDuplicates(list) && |grants| == |list|
      requires f0.callbacks == [] && f0.queue == [] && f0.rba == socket.rba && Claimable(f0.rba)
      requires forall c :: c in list ==> c in cycles
      modifies this, pool, socket
      ensures Valid() && issued == old(issued) && socket.timeCache == old(socket.timeCache)
      ensures devices == old(devices)[d := old(devices)[d].(ready := [])] && |memory| == |list|
      ensures f == FlushAll(w, cap, d, (socket.timeCache + 5) % 0x1_0000, f0, Readies(old(cycles), list), memory)
      ensures callbacks == f.callbacks && socket.rba == f.rba && socket.Queue() == old(socket.Queue()) + f.queue
      ensures log == old(log) + CallbackEnds(old(cycles), callbacks)
      ensures cycles.Keys <= old(cycles).Keys
      ensures forall k :: k in old(cycles) && k !in list ==> k in cycles && cycles[k] == old(cycles)[k]
    {
      hide *;
      callbacks, f, memory := [], f0, [];
      ghost var deadline := (socket.timeCache + 5) % 0x1_0000;
      FlushStarts(w, cap, d, deadline, f, list, cycles, log, socket.Queue());
      for i := 0 to |list|
        invariant Valid() && issued == old(issued) && socket.timeCache == old(socket.timeCache)
        invariant d in devices && devices == old(devices)[d := old(devices)[d].(ready := list[i..])]
        invariant |memory| == i && Claimable(f.rba) && f.rba == socket.rba && callbacks == f.callbacks
        invariant f == FlushAll(w, cap, d, deadline, f0, Readies(old(cycles), list[..i]), memory)
        invariant socket.Queue() == old(socket.Queue()) + f.queue
        invariant log == old(log) + CallbackEnds(old(cycles), callbacks)
        invariant cycles.Keys <= old(cycles).Keys
        invariant forall k :: k in old(cycles) && k !in list[..i] ==> k in cycles && cycles[k] == old(cycles)[k]
      {
        var c := list[i];
        ghost var f1, q1, cycles1 := f, socket.Queue(), cycles;
        ListNext(list, i);
        var callback;
        ghost var granted;
        callback, granted := FlushOldest(d, w, cap, c, list[i + 1..], grants[i], f);
        f := FlushOne(w, cap, d, deadline, f1, Ready(c, cycles1[c].dead, cycles1[c].ops), granted);
        FlushedOneMore(w, cap, d, deadline, f0, f1, f, old(cycles), cycles1, list, i, memory, granted, callback, socket.rba,
                       old(socket.Queue()), q1, socket.Queue());
        EndsOn(old(cycles), cycles1, old(log), callbacks, callback, c);
        memory := memory + [granted];
        callbacks := callbacks + callback;
      }
      assert list[..|list|] == list && list[|list|..] == [];
    }
  }

  lemma ValidFacts(l: Library)
    requires l.Valid()
    ensures l.Books(multiset(InFlight(l.socket.Queue()))) && l.socket.Valid() && Matching(l.cycles, l.socket.Queue())
  {
    hide Good;
  }

  lemma ValidIs(l: Library)
    requires l.Books(multiset(InFlight(l.socket.Queue()))) && l.socket.Valid() && Matching(l.cycles, l.socket.Queue())
    ensures l.Valid()
  {
    hide Good;
  }

  lemma BooksFacts(l: Library, waiting: multiset<nat>)
    requires l.Books(waiting)
    ensures l.pool.Valid() && l.owner.Keys == l.pool.live
    ensures Good(l.cycles, l.devices, l.owner, l.log, l.issued, waiting)
  {
    hide Good;
  }

  lemma BooksAre(l: Library, waiting: multiset<nat>)
    requires l.pool.Valid() && l.owner.Keys == l.pool.live
    requires Good(l.cycles, l.devices, l.owner, l.log, l.issued, waiting)
    ensures l.Books(waiting)
  {
    hide Good;
  }

  lemma KeysWithout(owner: Owners, gone: set<nat>)
    ensures (owner - gone).Keys == owner.Keys - gone
  {
  }

  lemma NextMember(cells: seq<nat>, i: nat)
    requires NoDuplicates(cells) && i < |cells|
    ensures cells[i] in Members(cells) && cells[i] !in Members(cells[..i])
    ensures Members(cells[..i + 1]) == Members(cells[..i]) + {cells[i]}
  {
    assert cells[..i + 1] == cells[..i] + [cells[i]];
  }

  lemma RetiredCells(cycles: Cycles, devices: Devices, owner: Owners, log: seq<End>, issued: nat, waiting: multiset<nat>, c: nat)
    requires Good(cycles, devices, owner, log, issued, waiting) && c in cycles
    ensures var r := cycles[c];
            && NoDuplicates(r.cells) && Members(r.cells) <= owner.Keys && c in owner && c !in Members(r.cells)
            && (r.stage.Flying? ==>
                  r.stage.response in owner && r.stage.response !in Members(r.cells) && r.stage.response != c)
  {
    hide Accounted, Listed, Awaited, NoDuplicates;
  }

  lemma EmptyGood()
    ensures Good(map[], map[], map[], [], 0, multiset(InFlight([]))) && Matching(map[], [])
  {
  }

  lemma GoodCycle(cycles: Cycles, devices: Devices, owner: Owners, log: seq<End>, issued: nat, waiting: multiset<nat>, c: nat)
    requires Good(cycles, devices, owner, log, issued, waiting) && c in cycles
    ensures cycles[c].device in devices && !devices[cycles[c].device].passive
    ensures waiting[c] == if cycles[c].stage.Flying? then 1 else 0
  {
    hide Owned, Tidy, Accounted, Counts, Lists;
    assert waiting[c] == if InAir(cycles, c) then 1 else 0;
  }

  lemma AbortStep(c: nat, dev: Device, waiting: multiset<nat>)
    ensures EndStep(Open, c, dev, dev.(unready := Decrement(dev.unready)), waiting, waiting)
  {
  }

  lemma DeadIsEmpty(cycles: Cycles, devices: Devices, owner: Owners, log: seq<End>, issued: nat, waiting: multiset<nat>,
                    c: nat)
    requires Good(cycles, devices, owner, log, issued, waiting) && c in cycles
    ensures |cycles[c].ops| == |cycles[c].cells| && (cycles[c].dead ==> cycles[c].cells == [] && cycles[c].ops == [])
  {
    hide Owned, Accounted, Listed, Awaited, NoDuplicates;
  }

  lemma DeviceGood(cycles: Cycles, devices: Devices, owner: Owners, log: seq<End>, issued: nat, waiting: multiset<nat>,
                   d: nat, passive: bool)
    requires Good(cycles, devices, owner, log, issued, waiting) && d !in owner
    ensures d !in devices
    ensures Good(cycles, devices[d := Device(0, [], passive, true)], owner[d := DeviceCell], log, issued, waiting)
  {
    hide *;
    GoodFacts(cycles, devices, owner, log, issued, waiting);
    FreshCell(cycles, devices, owner, log, issued, waiting, d);
    var dev := Device(0, [], passive, true);
    OwnedNewDevice(cycles, devices, owner, d, dev);
    ListedNewDevice(cycles, devices, d, dev);
    GoodIs(cycles, devices[d := dev], owner[d := DeviceCell], log, issued, waiting);
  }

  lemma FreshCell(cycles: Cycles, devices: Devices, owner: Owners, log: seq<End>, issued: nat, waiting: multiset<nat>, h: nat)
    requires Good(cycles, devices, owner, log, issued, waiting) && h !in owner
    ensures h !in cycles && h !in devices
  {
    hide Tidy, Accounted, Listed, Awaited;
  }

  lemma OwnedNewDevice(cycles: Cycles, devices: Devices, owner: Owners, d: nat, dev: Device)
    requires Owned(cycles, devices, owner) && d !in owner
    ensures Owned(cycles, devices[d := dev], owner[d := DeviceCell])
  {
  }

  lemma ListedNewDevice(cycles: Cycles, devices: Devices, d: nat, dev: Device)
    requires Listed(cycles, devices) && d !in devices && dev.unready == 0 && dev.ready == []
    ensures Listed(cycles, devices[d := dev])
  {
    assert forall c :: c in cycles ==> cycles[c].device != d by { hide Counts, Lists; }
    assert OpenOf(cycles, d) == {};
    assert forall c :: !ClosedOf(cycles, d, c);
    assert Counts(cycles, d, 0) && Lists(cycles, d, []);
    hide Counts, Lists;
  }

  lemma MatchingOpen(cycles: Cycles, q: seq<Response>, c: nat, r: Record)
    requires Matching(cycles, q) && c !in cycles
    ensures Matching(cycles[c := r], q)
  {
  }

  lemma MatchingUpdate(cycles: Cycles, q: seq<Response>, c: nat, r: Record)
    requires Matching(cycles, q) && c in cycles && r.device == cycles[c].device
    ensures Matching(cycles[c := r], q)
  {
  }

  /** Responses are about cycles in flight, so one that is not can go. */
  lemma MatchingRemove(cycles: Cycles, devices: Devices, owner: Owners, log: seq<End>, issued: nat, q: seq<Response>, c: nat)
    requires Matching(cycles, q) && Good(cycles, devices, owner, log, issued, multiset(InFlight(q)))
    requires c in cycles && !cycles[c].stage.Flying?
    ensures Matching(cycles - {c}, q)
  {
    hide Owned, Tidy, Accounted, Listed;
    InFlightHas(q);
    assert multiset(InFlight(q))[c] == if InAir(cycles, c) then 1 else 0;
    hide Good;
  }

  lemma {:induction false} InFlightHas(q: seq<Response>)
    ensures |InFlight(q)| == |q|
    ensures forall i :: 0 <= i < |q| ==> InFlight(q)[i] == q[i].cycle.handle && q[i].cycle.handle in multiset(InFlight(q))
  {
    if q != [] {
      InFlightHas(q[1..]);
      var hs := InFlight(q);
      forall i | 0 <= i < |q|
        ensures hs[i] == q[i].cycle.handle && hs[i] in multiset(hs)
      {
        if i > 0 {
          assert hs[i] == InFlight(q[1..])[i - 1];
        }
      }
    }
  }

  /** Reverses a cycle's list and marks its first operation if errors are to be reported. */
  method InProgramOrder(added: seq<Operation>, checked: bool) returns (ops: seq<Operation>)
    ensures |ops| == |added| && ClosedFrom(added, checked, ops)
  {
    ops := Flip(added);
    if checked && ops != [] {
      ops := ops[0 := ops[0].(checked := true)];
    }
  }

  lemma ReverseMembers(s: seq<nat>)
    requires NoDuplicates(s)
    ensures NoDuplicates(Reverse(s)) && |Reverse(s)| == |s|
    ensures forall h :: h in Reverse(s) <==> h in s
  {
    var t := Reverse(s);
    forall i, j | 0 <= i < j < |t|
      ensures t[i] != t[j]
    {
      assert t[i] == s[|s| - 1 - i] && t[j] == s[|s| - 1 - j];
    }
    forall h
      ensures h in t <==> h in s
    {
      if h in s {
        var i :| 0 <= i < |s| && s[i] == h;
        assert t[|s| - 1 - i] == h;
      }
    }
  }

  // ---------------------------------------------------------------------------
  // Ending cycles in flight
  // ---------------------------------------------------------------------------

  lemma RetireStarts(list: seq<Completion>, cycles: Cycles, log: seq<End>)
    ensures list[0..] == list && list[..0] == []
    ensures log + Ends(cycles, []) == log && Members(CompletedHandles([])) == {}
  {
  }

  lemma NextCompleted(list: seq<Completion>, i: nat, rest: multiset<nat>)
    requires i < |list|
    ensures multiset(CompletedHandles(list[i..])) + rest
            == (multiset(CompletedHandles(list[i + 1..])) + rest) + multiset{list[i].cycle.handle}
    ensures Members(CompletedHandles(list[..i + 1])) == Members(CompletedHandles(list[..i])) + {list[i].cycle.handle}
  {
    assert list[i..][1..] == list[i + 1..];
    assert list[..i + 1] == list[..i] + [list[i]];
    CompletedSnoc(list[..i], list[i]);
  }

  lemma {:induction false} CompletedSnoc(list: seq<Completion>, c: Completion)
    ensures CompletedHandles(list + [c]) == CompletedHandles(list) + [c.cycle.handle]
  {
    if list == [] {
      assert [c][1..] == [];
    } else {
      assert (list + [c])[1..] == list[1..] + [c];
      CompletedSnoc(list[1..], c);
    }
  }

  lemma FlyingCycle(cycles: Cycles, devices: Devices, owner: Owners, log: seq<End>, issued: nat, waiting: multiset<nat>,
                    waiting': multiset<nat>, c: nat)
    requires Good(cycles, devices, owner, log, issued, waiting) && waiting == waiting' + multiset{c}
    ensures c in cycles && cycles[c].device in devices
    ensures EndStep(cycles[c].stage, c, devices[cycles[c].device], devices[cycles[c].device], waiting, waiting')
    ensures devices[cycles[c].device := devices[cycles[c].device]] == devices
  {
    hide Owned, Tidy, Accounted, Counts, Lists;
    assert waiting[c] == if InAir(cycles, c) then 1 else 0;
    assert waiting[c] > 0;
  }

  lemma NextEnd(cycles: Cycles, cycles': Cycles, list: seq<Completion>, i: nat)
    requires i < |list| && list[i].cycle.handle in cycles' && (forall k :: k in cycles' ==> k in cycles && cycles'[k] == cycles[k])
    ensures Ends(cycles, list[..i + 1])
            == Ends(cycles, list[..i]) + [CalledBack(cycles'[list[i].cycle.handle].token, list[i].status)]
  {
  }

  lemma RetireEnds(list: seq<Completion>, rest: multiset<nat>)
    ensures list[|list|..] == [] && list[..|list|] == list
    ensures multiset(CompletedHandles([])) + rest == rest
  {
  }

  lemma BoxParts(socket: Socket)
    requires socket.Valid()
    ensures socket.Box().queue == socket.Queue() && socket.Box().done == socket.done
  {
  }

  /** Same cycles, same devices, in the same places. */
  predicate SameFlights(q: seq<Response>, q': seq<Response>) {
    |q| == |q'| && forall i :: 0 <= i < |q| ==>
      q'[i].cycle.handle == q[i].cycle.handle && q'[i].cycle.device == q[i].cycle.device
  }

  lemma {:induction false} SameInFlight(q: seq<Response>, q': seq<Response>)
    requires SameFlights(q, q')
    ensures InFlight(q') == InFlight(q)
    decreases q
  {
    if q != [] {
      SameInFlight(q[1..], q'[1..]);
    }
  }

  lemma AcceptKeepsCycle(r: Response, size: nat, addr: nat, value: nat)
    requires Sound(r)
    ensures match Accept(r, size, addr, value)
            case Pending(r') => r'.cycle.handle == r.cycle.handle && r'.cycle.device == r.cycle.device
            case Done(c) => c.cycle.handle == r.cycle.handle
  {
    hide Mark, FindRead, FindBus, FinalStatus, StatusCount;
  }

  /** A word leaves the queue's cycles alone. */
  ghost predicate Quiet(box: Inbox, box': Inbox) {
    box'.done == box.done && SameFlights(box.queue, box'.queue)
  }

  /** A word finishes exactly one cycle of the queue. */
  ghost predicate Finishes(box: Inbox, box': Inbox, c: Completion) {
    && box'.done == box.done + [c] && (forall r :: r in box'.queue ==> r in box.queue)
    && multiset(InFlight(box.queue)) == multiset{c.cycle.handle} + multiset(InFlight(box'.queue))
  }

  lemma ReplyEffect(box: Inbox, size: nat, addr: nat, value: nat)
    ensures var box' := WriteConfig(box, size, addr, value);
            Quiet(box, box') || exists c :: Finishes(box, box', c)
  {
    var q := box.queue;
    var i := Match(q, Selects(addr));
    var box' := WriteConfig(box, size, addr, value);
    if i < |q| {
      AcceptKeepsCycle(q[i], size, addr, value);
      var verdict := Accept(q[i], size, addr, value);
      if verdict.Done? {
        assert box' == Mailbox(q[..i] + q[i + 1..], box.done + [verdict.completion]);
        hide *;
        OneFinished(box, box', i, verdict.completion);
      } else {
        assert box' == Mailbox(q[i := verdict.response], box.done);
        hide Accept, Match, Selects, WriteConfig, AllSound;
      }
    }
  }

  lemma OneFinished(box: Inbox, box': Inbox, i: nat, c: Completion)
    requires i < |box.queue| && c.cycle.handle == box.queue[i].cycle.handle
    requires box'.queue == box.queue[..i] + box.queue[i + 1..] && box'.done == box.done + [c]
    ensures Finishes(box, box', c)
  {
    CutOne(box.queue, i);
    hide InFlight, AllSound;
  }

  lemma FinishedReply(cycles: Cycles, box: Inbox, box': Inbox, c: Completion)
    requires Quiet(box, box') || exists c' :: Finishes(box, box', c')
    requires |box'.done| > |box.done| && c == box'.done[|box.done|] && Matching(cycles, box.queue)
    ensures box'.done == box.done + [c] && Matching(cycles, box'.queue)
    ensures multiset(InFlight(box.queue)) == multiset(CompletedHandles([c])) + multiset(InFlight(box'.queue))
  {
    var c' :| Finishes(box, box', c');
    assert c' == c;
    SameBooks(cycles, box.queue, box'.queue);
    assert [c][1..] == [];
    assert CompletedHandles([c]) == [c.cycle.handle];
  }

  lemma QuietReply(cycles: Cycles, box: Inbox, box': Inbox)
    requires Quiet(box, box') || exists c' :: Finishes(box, box', c')
    requires |box'.done| <= |box.done| && Matching(cycles, box.queue)
    ensures box'.done == box.done && Matching(cycles, box'.queue) && InFlight(box'.queue) == InFlight(box.queue)
  {
    SameBooks(cycles, box.queue, box'.queue);
  }

  /** Exactly this cycle has ended, with this callback. */
  ghost predicate EndedWith(cycles: Cycles, cycles': Cycles, log: seq<End>, log': seq<End>, c: Completion) {
    && c.cycle.handle in cycles && cycles'.Keys == cycles.Keys - {c.cycle.handle}
    && (forall k :: k in cycles' ==> cycles'[k] == cycles[k])
    && log' == log + [CalledBack(cycles[c.cycle.handle].token, c.status)]
  }

  lemma InFlightOne(r: Response)
    ensures InFlight([r]) == [r.cycle.handle]
  {
    assert [r][1..] == [];
  }

  lemma CutOne(q: seq<Response>, i: nat)
    requires i < |q|
    ensures multiset(InFlight(q)) == multiset{q[i].cycle.handle} + multiset(InFlight(q[..i] + q[i + 1..]))
  {
    hide InFlight;
    var a, b := q[..i], q[i + 1..];
    assert q == a + ([q[i]] + b);
    InFlightConcat(a, [q[i]] + b);
    InFlightConcat([q[i]], b);
    InFlightConcat(a, b);
    InFlightOne(q[i]);
  }

  lemma {:induction false} InFlightConcat(a: seq<Response>, b: seq<Response>)
    ensures InFlight(a + b) == InFlight(a) + InFlight(b)
  {
    if a == [] {
      assert a + b == b;
    } else {
      assert (a + b)[1..] == a[1..] + b;
      InFlightConcat(a[1..], b);
    }
  }

  lemma SameBooks(cycles: Cycles, q: seq<Response>, q': seq<Response>)
    requires Matching(cycles, q)
    ensures SameFlights(q, q') ==> Matching(cycles, q') && InFlight(q') == InFlight(q)
    ensures (forall r :: r in q' ==> r in q) ==> Matching(cycles, q')
  {
    if SameFlights(q, q') {
      SameInFlight(q, q');
    }
    if forall r :: r in q' ==> r in q {
      forall i | 0 <= i < |q'|
        ensures q'[i].cycle.handle in cycles && cycles[q'[i].cycle.handle].device == q'[i].cycle.device
      {
        assert q'[i] in q;
      }
    }
  }

  lemma ListedBefore(cycles: Cycles, devices: Devices, owner: Owners, log: seq<End>, issued: nat, waiting: multiset<nat>,
                     c: Completion)
    requires Good(cycles, devices, owner, log, issued, multiset(CompletedHandles([c])) + waiting)
    ensures c.cycle.handle in cycles
  {
    assert [c][1..] == [];
    assert CompletedHandles([c]) == [c.cycle.handle];
    hide Owned, Tidy, Accounted, Listed;
    var all := multiset(CompletedHandles([c])) + waiting;
    assert all[c.cycle.handle] == if InAir(cycles, c.cycle.handle) then 1 else 0;
  }

  lemma OneEndedWith(cycles: Cycles, cycles': Cycles, log: seq<End>, log': seq<End>, c: Completion)
    requires c.cycle.handle in cycles && cycles'.Keys == cycles.Keys - Members(CompletedHandles([c]))
    requires (forall k :: k in cycles' ==> cycles'[k] == cycles[k]) && log' == log + Ends(cycles, [c])
    ensures EndedWith(cycles, cycles', log, log', c)
  {
    assert [c][1..] == [];
    assert CompletedHandles([c]) == [c.cycle.handle];
    assert Ends(cycles, [c]) == [CalledBack(cycles[c.cycle.handle].token, c.status)];
  }

  /** The responses left are about cycles that are still there. */
  lemma MatchingLeft(before: Cycles, cycles: Cycles, devices: Devices, owner: Owners, log: seq<End>, issued: nat,
                     q: seq<Response>)
    requires Matching(before, q) && forall k :: k in cycles ==> k in before && cycles[k] == before[k]
    requires Good(cycles, devices, owner, log, issued, multiset(InFlight(q)))
    ensures Matching(cycles, q)
  {
    InFlightHas(q);
    hide Owned, Tidy, Accounted, Listed, InFlight;
    forall i | 0 <= i < |q|
      ensures q[i].cycle.handle in cycles
    {
      assert multiset(InFlight(q))[q[i].cycle.handle] == if InAir(cycles, q[i].cycle.handle) then 1 else 0;
    }
  }

  lemma {:induction false} TimedOutHandles(q: seq<Response>)
    ensures CompletedHandles(TimedOut(q)) == InFlight(q)
  {
    if q != [] {
      TimedOutHandles(q[1..]);
      assert TimedOut(q)[1..] == TimedOut(q[1..]);
    }
  }

  lemma CutQueue(cycles: Cycles, q: seq<Response>, k: nat)
    requires k <= |q| && Matching(cycles, q)
    ensures multiset(InFlight(q)) == multiset(CompletedHandles(TimedOut(q[..k]))) + multiset(InFlight(q[k..]))
    ensures CompletedHandles(TimedOut(q[..k])) == InFlight(q[..k]) && Matching(cycles, q[k..])
  {
    assert q == q[..k] + q[k..];
    InFlightConcat(q[..k], q[k..]);
    TimedOutHandles(q[..k]);
  }

  // ---------------------------------------------------------------------------
  // Closing a device
  // ---------------------------------------------------------------------------

  /** The log entries of cycles that time out before they were sent. */
  function TimeoutEnds(cycles: Cycles, list: seq<nat>): (ends: seq<End>)
    ensures |ends| == |list|
  {
    seq(|list|, i requires 0 <= i < |list| =>
      EndOf(cycles, list[i], TIMEOUT))
  }

  lemma ReverseMultiset(s: seq<nat>)
    ensures multiset(Reverse(s)) == multiset(s)
  {
    if s != [] {
      ReverseMultiset(s[1..]);
      assert s == [s[0]] + s[1..];
    }
  }

  /** The order of a device's list does not matter to the books. */
  lemma ReorderGood(cycles: Cycles, devices: Devices, owner: Owners, log: seq<End>, issued: nat, waiting: multiset<nat>,
                    d: nat, list: seq<nat>)
    requires Good(cycles, devices, owner, log, issued, waiting) && d in devices && list == Reverse(devices[d].ready)
    ensures Good(cycles, devices[d := devices[d].(ready := list)], owner, log, issued, waiting)
  {
    ReverseMultiset(devices[d].ready);
    hide *;
    GoodFacts(cycles, devices, owner, log, issued, waiting);
    OwnedDevice(cycles, devices, owner, d, devices[d].(ready := list));
    ListedReorder(cycles, devices, d, list);
    GoodIs(cycles, devices[d := devices[d].(ready := list)], owner, log, issued, waiting);
  }

  lemma ListedReorder(cycles: Cycles, devices: Devices, d: nat, list: seq<nat>)
    requires Listed(cycles, devices) && d in devices && multiset(list) == multiset(devices[d].ready)
    ensures Listed(cycles, devices[d := devices[d].(ready := list)])
  {
    hide Counts;
    assert Lists(cycles, d, list);
    hide Lists;
  }

  lemma ClosedStarts(list: seq<nat>, cycles: Cycles, log: seq<End>, devices: Devices, devices0: Devices, d: nat)
    ensures list[0..] == list && list[..0] == []
    ensures log + TimeoutEnds(cycles, []) == log && Members([]) == {}
  {
  }

  lemma ClosedNext(cycles: Cycles, devices: Devices, owner: Owners, log: seq<End>, issued: nat, waiting: multiset<nat>,
                   d: nat, list: seq<nat>, i: nat)
    requires Good(cycles, devices, owner, log, issued, waiting)
    requires d in devices && i < |list| && devices[d].ready == list[i..]
    ensures ClosedOf(cycles, d, list[i])
    ensures list[i] in cycles && cycles[list[i]].stage == Closed && cycles[list[i]].device == d
    ensures EndStep(Closed, list[i], devices[d], devices[d].(ready := list[i + 1..]), waiting, waiting)
    ensures devices[d].(ready := list[i + 1..]).(ready := []) == devices[d].(ready := [])
  {
    hide Owned, Tidy, Accounted, Awaited, Counts;
    assert list[i..] == [list[i]] + list[i + 1..];
    assert multiset(list[i..])[list[i]] >= 1;
  }

  lemma ClosedEnd(cycles: Cycles, cycles': Cycles, list: seq<nat>, i: nat, d: nat)
    requires i < |list| && (forall k :: k in cycles' ==> k in cycles && cycles'[k] == cycles[k])
    requires ClosedOf(cycles', d, list[i])
    ensures ClosedOf(cycles, d, list[i])
    ensures TimeoutEnds(cycles, list[..i + 1]) == TimeoutEnds(cycles, list[..i]) + [CalledBack(cycles'[list[i]].token, TIMEOUT)]
    ensures Members(list[..i + 1]) == Members(list[..i]) + {list[i]}
  {
    assert list[..i + 1] == list[..i] + [list[i]];
  }

  lemma ClosedEnds(list: seq<nat>)
    ensures list[|list|..] == [] && list[..|list|] == list
  {
  }

  lemma UnreadyTells(cycles: Cycles, devices: Devices, owner: Owners, log: seq<End>, issued: nat, waiting: multiset<nat>,
                     d: nat)
    requires Good(cycles, devices, owner, log, issued, waiting) && d in devices
    ensures devices[d].unready == |OpenOf(cycles, d)| % 256
  {
    hide Owned, Tidy, Accounted, Awaited, Lists;
    assert Counts(cycles, d, devices[d].unready);
  }

  lemma DeviceOwned(cycles: Cycles, devices: Devices, owner: Owners, log: seq<End>, issued: nat, waiting: multiset<nat>, d: nat)
    requires Good(cycles, devices, owner, log, issued, waiting) && d in devices
    ensures d in owner
  {
    hide Tidy, Accounted, Listed, Awaited;
  }

  /** n cycles open on device 128, one after another. */
  function ManyOpen(n: nat): Cycles {
    if n == 0 then map[] else ManyOpen(n - 1)[128 + n := Record(n - 1, 128, Open, false, [], [])]
  }

  function ManyOwners(n: nat): Owners {
    if n == 0 then map[128 := DeviceCell] else ManyOwners(n - 1)[128 + n := CycleCell]
  }

  lemma {:induction false} ManyKeys(n: nat)
    ensures forall h :: h in ManyOwners(n) ==> 128 <= h <= 128 + n
    ensures forall c :: c in ManyOpen(n) ==> 128 < c <= 128 + n
    ensures |OpenOf(ManyOpen(n), 128)| == n
  {
    if n == 0 {
      assert OpenOf(map[], 128) == {};
    } else {
      ManyKeys(n - 1);
      OneOpened(ManyOpen(n - 1), 128 + n, Record(n - 1, 128, Open, false, [], []), 128);
      hide OpenOf;
    }
  }

  /** Opening n cycles on a fresh device. */
  lemma {:induction false} ManyGood(n: nat)
    ensures Good(ManyOpen(n), map[128 := Device(n % 256, [], false, true)], ManyOwners(n), [], n, multiset{})
  {
    hide *;
    if n == 0 {
      ManyNone();
    } else {
      ManyGood(n - 1);
      ManyKeys(n - 1);
      OneMore(n);
      ManyNext(n);
      OpenGood(ManyOpen(n - 1), map[128 := Device((n - 1) % 256, [], false, true)], ManyOwners(n - 1), [], n - 1,
               multiset{}, 128 + n, 128);
    }
  }

  lemma ManyNone()
    ensures Good(ManyOpen(0), map[128 := Device(0 % 256, [], false, true)], ManyOwners(0), [], 0, multiset{})
  {
    hide Good;
    EmptyGood();
    DeviceGood(map[], map[], map[], [], 0, multiset{}, 128, false);
  }

  lemma ManyNext(n: nat)
    requires n > 0
    ensures ManyOpen(n) == ManyOpen(n - 1)[128 + n := Record(n - 1, 128, Open, false, [], [])]
    ensures ManyOwners(n) == ManyOwners(n - 1)[128 + n := CycleCell]
  {
  }

  lemma OneOpened(cycles: Cycles, c: nat, r: Record, d: nat)
    requires c !in cycles && r.stage.Open? && r.device == d
    ensures |OpenOf(cycles[c := r], d)| == |OpenOf(cycles, d)| + 1
  {
    OpenOfUpdate(cycles, c, r, d);
    assert c !in OpenOf(cycles, d);
  }

  lemma OneMore(n: nat)
    requires n > 0
    ensures var devices: Devices := map[128 := Device((n - 1) % 256, [], false, true)];
            devices[128 := devices[128].(unready := Increment(devices[128].unready))] == map[128 := Device(n % 256, [], false, true)]
  {
  }

  /** With 256 cycles open on a device its count is zero again, so nothing keeps it from being closed. */
  lemma CloseWraps()
    ensures var cycles, devices := ManyOpen(256), map[128 := Device(0, [], false, true)];
            && Good(cycles, devices, ManyOwners(256), [], 256, multiset{})
            && devices[128].unready == 0 && |OpenOf(cycles, 128)| == 256
  {
    ManyGood(256);
    ManyKeys(256);
    hide ManyOpen, ManyOwners, Good, OpenOf;
  }

  /** Once the others have ended, only open cycles can have lost their device. */
  lemma StrandedOrNot(l: Library, before: Cycles, d: nat)
    requires d !in l.devices && forall c :: c in l.cycles && c in before ==> l.cycles[c] == before[c]
    requires forall c :: c in l.cycles <==> c in before && (before[c].device != d || before[c].stage.Open?)
    requires (forall c :: c in l.cycles ==> l.cycles[c].device != d) ==> l.Books(multiset(InFlight(l.socket.Queue())))
    requires l.socket.Valid() && Matching(l.cycles, l.socket.Queue())
    ensures l.Valid() <==> OpenOf(before, d) == {}
  {
    if OpenOf(before, d) == {} {
      forall c | c in l.cycles
        ensures l.cycles[c].device != d
      {
        assert c !in OpenOf(before, d);
      }
      ValidIs(l);
    } else {
      var c :| c in OpenOf(before, d);
      assert c in l.cycles && l.cycles[c].device !in l.devices;
      if l.Valid() {
        ValidFacts(l);
        BooksFacts(l, multiset(InFlight(l.socket.Queue())));
        GoodCycle(l.cycles, l.devices, l.owner, l.log, l.issued, multiset(InFlight(l.socket.Queue())), c);
        assert false;
      }
    }
  }

  /** A device that only serves has no cycles. */
  lemma PassiveIdle(cycles: Cycles, devices: Devices, owner: Owners, log: seq<End>, issued: nat, q: seq<Response>, d: nat)
    requires Good(cycles, devices, owner, log, issued, multiset(InFlight(q))) && Matching(cycles, q)
    requires d in devices && devices[d].passive
    ensures (forall c :: c in cycles ==> cycles[c].device != d) && OpenOf(cycles, d) == {} && devices[d].ready == []
    ensures Of(q, d) == [] && NotOf(q, d) == q
  {
    hide Owned, Tidy, Accounted, Awaited, Counts;
    assert forall c :: !ClosedOf(cycles, d, c);
    assert multiset(devices[d].ready) == multiset{};
    assert |multiset(devices[d].ready)| == |devices[d].ready|;
    hide Lists, Listed;
    NoneOf(q, d);
  }

  lemma {:induction false} NoneOf(q: seq<Response>, d: nat)
    requires forall i :: 0 <= i < |q| ==> q[i].cycle.device != d
    ensures Of(q, d) == [] && NotOf(q, d) == q
  {
    if q != [] {
      NoneOf(q[1..], d);
    }
  }

  lemma NothingTimedOut(cycles: Cycles, log: seq<End>, before: seq<End>)
    ensures before + Ends(cycles, TimedOut([])) + TimeoutEnds(cycles, Reverse([])) == before
  {
  }

  lemma UnlinkedGood(cycles: Cycles, devices: Devices, owner: Owners, log: seq<End>, issued: nat, waiting: multiset<nat>,
                     d: nat)
    requires Good(cycles, devices, owner, log, issued, waiting) && d in devices
    ensures Good(cycles, devices[d := devices[d].(connected := false)], owner, log, issued, waiting)
  {
    hide *;
    GoodFacts(cycles, devices, owner, log, issued, waiting);
    OwnedDevice(cycles, devices, owner, d, devices[d].(connected := false));
    ListedUnlinked(cycles, devices, d);
    GoodIs(cycles, devices[d := devices[d].(connected := false)], owner, log, issued, waiting);
  }

  lemma ListedUnlinked(cycles: Cycles, devices: Devices, d: nat)
    requires Listed(cycles, devices) && d in devices
    ensures Listed(cycles, devices[d := devices[d].(connected := false)])
  {
    hide Counts, Lists;
  }

  lemma {:induction false} FilterInFlight(q: seq<Response>, d: nat)
    ensures multiset(InFlight(q)) == multiset(InFlight(Of(q, d))) + multiset(InFlight(NotOf(q, d)))
  {
    if q != [] {
      FilterInFlight(q[1..], d);
      FilterCons(q[0], q[1..], d);
      FilterOne(q[0], d);
      assert q == [q[0]] + q[1..];
      hide InFlight, Of, NotOf;
      InFlightConcat([q[0]], q[1..]);
      InFlightConcat(Of([q[0]], d), Of(q[1..], d));
      InFlightConcat(NotOf([q[0]], d), NotOf(q[1..], d));
    }
  }

  lemma FilterOne(r: Response, d: nat)
    ensures multiset(InFlight([r])) == multiset(InFlight(Of([r], d))) + multiset(InFlight(NotOf([r], d)))
  {
    assert [r][1..] == [];
  }

  lemma {:induction false} FilterSides(q: seq<Response>, d: nat)
    ensures forall r :: r in NotOf(q, d) ==> r in q && r.cycle.device != d
    ensures forall r :: r in Of(q, d) ==> r in q && r.cycle.device == d
  {
    if q != [] {
      FilterSides(q[1..], d);
    }
  }

  lemma HandlesOf(cycles: Cycles, q: seq<Response>, d: nat)
    requires Matching(cycles, q)
    ensures (forall r :: r in q ==> r.cycle.device == d) ==> forall c :: c in InFlight(q) ==> c in cycles && cycles[c].device == d
    ensures (forall r :: r in q ==> r.cycle.device != d) ==> forall c :: c in InFlight(q) ==> c in cycles && cycles[c].device != d
  {
    InFlightHas(q);
    hide InFlight;
    forall c | c in InFlight(q)
      ensures c in cycles && exists r :: r in q && cycles[c].device == r.cycle.device
    {
      var i :| 0 <= i < |InFlight(q)| && InFlight(q)[i] == c;
      assert q[i] in q && cycles[c].device == q[i].cycle.device;
    }
  }

  lemma KilledQueue(cycles: Cycles, q: seq<Response>, d: nat)
    requires Matching(cycles, q)
    ensures multiset(InFlight(q)) == multiset(CompletedHandles(TimedOut(Of(q, d)))) + multiset(InFlight(NotOf(q, d)))
    ensures CompletedHandles(TimedOut(Of(q, d))) == InFlight(Of(q, d))
    ensures Matching(cycles, NotOf(q, d))
    ensures forall c :: c in InFlight(Of(q, d)) ==> c in cycles && cycles[c].device == d
    ensures forall c :: c in InFlight(NotOf(q, d)) ==> c in cycles && cycles[c].device != d
  {
    hide InFlight, Of, NotOf, TimedOut, CompletedHandles, Matching, SameFlights;
    FilterInFlight(q, d);
    FilterSides(q, d);
    TimedOutHandles(Of(q, d));
    SameBooks(cycles, q, NotOf(q, d));
    SameBooks(cycles, q, Of(q, d));
    HandlesOf(cycles, Of(q, d), d);
    HandlesOf(cycles, NotOf(q, d), d);
  }

  lemma TimeoutsSame(cycles: Cycles, flown: Cycles, closed: seq<nat>, d: nat)
    requires (forall k :: k in flown ==> k in cycles && flown[k] == cycles[k]) && forall c :: c in closed ==> ClosedOf(flown, d, c)
    ensures TimeoutEnds(flown, closed) == TimeoutEnds(cycles, closed)
  {
    assert forall i :: 0 <= i < |closed| ==> closed[i] in closed;
  }

  /** Once its cycles in flight and its closed cycles have ended, a device has only open ones left. */
  lemma OnlyOpenLeft(cycles: Cycles, flown: Cycles, left: Cycles, devices: Devices, owner: Owners, log: seq<End>,
                     issued: nat, queue: seq<Response>, q: seq<Response>, d: nat, closed: seq<nat>)
    requires Good(left, devices, owner, log, issued, multiset(InFlight(queue))) && queue == NotOf(q, d) && Matching(cycles, q)
    requires d in devices && devices[d].ready == []
    requires forall c :: c in InFlight(Of(q, d)) ==> c in cycles && !cycles[c].stage.Open?
    requires flown.Keys == cycles.Keys - Members(InFlight(Of(q, d))) && left.Keys == flown.Keys - Members(closed)
    requires (forall k :: k in flown ==> flown[k] == cycles[k]) && (forall k :: k in left ==> left[k] == flown[k])
    requires forall c :: c in closed ==> ClosedOf(flown, d, c)
    ensures forall c :: c in left <==> c in cycles && (cycles[c].device != d || cycles[c].stage.Open?)
    ensures forall c :: c in left ==> left[c] == cycles[c]
    ensures Matching(left, queue)
  {
    KilledQueue(cycles, q, d);
    hide Owned, Tidy, Accounted, Counts, InFlight, Of, NotOf, TimedOut, CompletedHandles;
    forall c | c in left && left[c].device == d
      ensures left[c].stage.Open?
    {
      assert !ClosedOf(left, d, c);
      assert InAir(left, c) ==> multiset(InFlight(queue))[c] == 1;
      assert InAir(left, c) ==> c in InFlight(queue);
    }
    forall c | c in cycles && (cycles[c].device != d || cycles[c].stage.Open?)
      ensures c in left
    {
      assert c !in InFlight(Of(q, d)) && c !in closed;
    }
    MatchingLeft(cycles, left, devices, owner, log, issued, queue);
  }

  lemma NotOpenOf(cycles: Cycles, devices: Devices, owner: Owners, log: seq<End>, issued: nat, q: seq<Response>, d: nat)
    requires Good(cycles, devices, owner, log, issued, multiset(InFlight(q)))
    ensures forall c :: c in InFlight(Of(q, d)) ==> c in cycles && !cycles[c].stage.Open?
  {
    FilterInFlight(q, d);
    hide Owned, Tidy, Accounted, Listed, InFlight, Of;
    forall c | c in InFlight(Of(q, d))
      ensures c in cycles && !cycles[c].stage.Open?
    {
      assert c in multiset(InFlight(Of(q, d))) && c in multiset(InFlight(q));
      assert multiset(InFlight(q))[c] == if InAir(cycles, c) then 1 else 0;
    }
  }

  lemma RemoveDeviceGood(cycles: Cycles, devices: Devices, owner: Owners, log: seq<End>, issued: nat, waiting: multiset<nat>,
                         d: nat)
    requires Good(cycles, devices, owner, log, issued, waiting) && d in devices
    requires forall c :: c in cycles ==> cycles[c].device != d
    ensures d in owner && Good(cycles, devices - {d}, owner - {d}, log, issued, waiting)
  {
    hide *;
    GoodFacts(cycles, devices, owner, log, issued, waiting);
    OwnedWithout(cycles, devices, owner, d);
    ListedWithout(cycles, devices, d);
    GoodIs(cycles, devices - {d}, owner - {d}, log, issued, waiting);
  }

  lemma OwnedWithout(cycles: Cycles, devices: Devices, owner: Owners, d: nat)
    requires Owned(cycles, devices, owner) && d in devices
    ensures d in owner && Owned(cycles, devices - {d}, owner - {d})
  {
  }

  lemma ListedWithout(cycles: Cycles, devices: Devices, d: nat)
    requires Listed(cycles, devices) && forall c :: c in cycles ==> cycles[c].device != d
    ensures Listed(cycles, devices - {d})
  {
    hide Counts, Lists;
  }

  lemma DevicesLeft(devices: Devices, d: nat)
    requires d in devices
    ensures devices[d := devices[d].(ready := [])] - {d} == devices - {d}
  {
  }

  // ---------------------------------------------------------------------------
  // Flushing
  // ---------------------------------------------------------------------------

  /** The cycle passes every check made before a response is allocated. */
  predicate Sendworthy(w: Width, r: Record) {
    !r.dead && r.ops != [] && CheckAll(w, r.ops).1 == |r.ops|
  }

  /** The log entries of callbacks made while flushing. */
  function CallbackEnds(cycles: Cycles, list: seq<Callback>): (ends: seq<End>)
    ensures |ends| == |list|
  {
    seq(|list|, i requires 0 <= i < |list| =>
      EndOf(cycles, list[i].cycle.handle, list[i].status))
  }

  lemma OneCallback(cycles: Cycles, c: nat, list: seq<Callback>)
    requires |list| == 1 && list[0].cycle.handle == c && c in cycles
    ensures CallbackEnds(cycles, list) == [CalledBack(cycles[c].token, list[0].status)]
  {
  }

  lemma SocketFacts(socket: Socket)
    requires socket.Valid()
    ensures Claimable(socket.rba)
  {
  }

  lemma OldestClosed(cycles: Cycles, devices: Devices, owner: Owners, log: seq<End>, issued: nat, waiting: multiset<nat>,
                     d: nat, c: nat, rest: seq<nat>)
    requires Good(cycles, devices, owner, log, issued, waiting) && d in devices && devices[d].ready == [c] + rest
    ensures c in cycles && cycles[c].stage == Closed && cycles[c].device == d && |cycles[c].ops| == |cycles[c].cells|
    ensures EndStep(Closed, c, devices[d], devices[d].(ready := rest), waiting, waiting)
    ensures multiset(devices[d].ready) == multiset(rest) + multiset{c}
  {
    hide Owned, Accounted, Awaited, Counts, NoDuplicates;
    assert multiset(devices[d].ready)[c] >= 1;
    assert ClosedOf(cycles, d, c);
  }

  lemma NoCallback(cycles: Cycles, list: seq<Callback>, log: seq<End>)
    ensures list == [] ==> log + CallbackEnds(cycles, list) == log
  {
  }

  /** What flushing one cycle comes to, starting from nothing. */
  function Outcome(w: Width, cap: Cap, d: nat, deadline: nat, rba: nat, c: Ready, memory: bool): Flushed
    requires Claimable(rba)
  {
    FlushOne(w, cap, d, deadline, Flushed([], [], [], NOTHING, rba), c, memory)
  }

  /** The callbacks, the queue and the return address have moved on from f to g. */
  ghost predicate FlushedTo(g: Flushed, f: Flushed, callbacks: seq<Callback>, rba: nat, q: seq<Response>, q': seq<Response>) {
    && g.callbacks == f.callbacks + callbacks && g.rba == rba
    && |f.queue| <= |g.queue| && g.queue[..|f.queue|] == f.queue && q' == q + g.queue[|f.queue|..]
  }

  /** What flushing does with a cycle does not depend on the cycles before it, but for the return address. */
  lemma OutcomeAlone(w: Width, cap: Cap, d: nat, deadline: nat, f: Flushed, c: Ready, memory: bool, q: seq<Response>)
    requires Claimable(f.rba)
    ensures var g0 := Outcome(w, cap, d, deadline, f.rba, c, memory);
            && FlushedTo(FlushOne(w, cap, d, deadline, f, c, memory), f, g0.callbacks, g0.rba, q, q + g0.queue)
            && (if g0.queue == [] then |g0.callbacks| == 1 && g0.callbacks[0].cycle.handle == c.handle
                                       && g0.rba == f.rba && q + g0.queue == q
                else memory && |g0.queue| == 1 && g0.callbacks == [] && Sound(g0.queue[0]) && g0.rba == NextAddress(f.rba)
                     && g0.queue[0].cycle.handle == c.handle && g0.queue[0].cycle.device == d && q + g0.queue == q + [g0.queue[0]]
                     && g0.queue[0].address == f.rba && g0.queue[0].deadline == deadline)
  {
    CheckAllFirstBad(w, c.ops);
    hide CheckAll, Place, CycleBytes, NextAddress, OverflowAt, FindRead, FindBus, Exchange.Unanswered, AllFit;
  }

  lemma QueueGrows(cycles: Cycles, q: seq<Response>, r: Response, c: nat, d: nat, stage: Stage)
    requires Matching(cycles, q) && c in cycles && cycles[c].device == d && r.cycle.handle == c && r.cycle.device == d
    ensures multiset(InFlight(q + [r])) == multiset(InFlight(q)) + multiset{c}
    ensures Matching(cycles[c := cycles[c].(stage := stage)], q + [r])
  {
    InFlightConcat(q, [r]);
    InFlightOne(r);
    hide InFlight;
  }

  function ReadyOf(cycles: Cycles, c: nat): Ready {
    if c in cycles then Ready(c, cycles[c].dead, cycles[c].ops) else Ready(c, false, [])
  }

  /** A device's closed cycles as they are flushed. */
  function Readies(cycles: Cycles, list: seq<nat>): (r: seq<Ready>)
    ensures |r| == |list|
  {
    seq(|list|, i requires 0 <= i < |list| => ReadyOf(cycles, list[i]))
  }

  lemma ReadiesSnoc(cycles: Cycles, list: seq<nat>, i: nat)
    requires i < |list|
    ensures Readies(cycles, list[..i + 1]) == Readies(cycles, list[..i]) + [ReadyOf(cycles, list[i])]
  {
    hide ReadyOf;
  }

  lemma {:induction false} FlushSnoc(w: Width, cap: Cap, d: nat, deadline: nat, f: Flushed, cycles: seq<Ready>,
                                     memory: seq<bool>, c: Ready, m: bool)
    requires Claimable(f.rba) && |memory| == |cycles|
    ensures Claimable(FlushAll(w, cap, d, deadline, f, cycles, memory).rba)
    ensures FlushAll(w, cap, d, deadline, f, cycles + [c], memory + [m])
            == FlushOne(w, cap, d, deadline, FlushAll(w, cap, d, deadline, f, cycles, memory), c, m)
    decreases cycles
  {
    hide FlushOne, Claimable;
    FlushOneClaims(w, cap, d, deadline, f, c, m);
    if cycles == [] {
      assert (cycles + [c])[1..] == [] && (memory + [m])[1..] == [];
    } else {
      FlushOneClaims(w, cap, d, deadline, f, cycles[0], memory[0]);
      assert (cycles + [c])[1..] == cycles[1..] + [c] && (memory + [m])[1..] == memory[1..] + [m];
      FlushSnoc(w, cap, d, deadline, FlushOne(w, cap, d, deadline, f, cycles[0], memory[0]), cycles[1..], memory[1..], c, m);
    }
  }

  lemma FlushStarts(w: Width, cap: Cap, d: nat, deadline: nat, f: Flushed, list: seq<nat>, cycles: Cycles, log: seq<End>,
                    q: seq<Response>)
    requires Claimable(f.rba) && f.queue == []
    ensures list[0..] == list && list[..0] == [] && q + f.queue == q
    ensures FlushAll(w, cap, d, deadline, f, Readies(cycles, []), []) == f
    ensures log + CallbackEnds(cycles, []) == log
  {
  }

  lemma ListNext(list: seq<nat>, i: nat)
    requires NoDuplicates(list) && i < |list|
    ensures list[i..] == [list[i]] + list[i + 1..] && list[i] !in list[..i]
    ensures list[..i + 1] == list[..i] + [list[i]]
  {
  }

  lemma ReadyDistinct(cycles: Cycles, devices: Devices, owner: Owners, log: seq<End>, issued: nat, waiting: multiset<nat>,
                      d: nat)
    requires Good(cycles, devices, owner, log, issued, waiting) && d in devices
    ensures NoDuplicates(devices[d].ready)
    ensures forall c :: c in devices[d].ready ==> c in cycles && ClosedOf(cycles, d, c)
  {
    hide Owned, Tidy, Accounted, Awaited, Counts;
    var ready := devices[d].ready;
    forall i, j | 0 <= i < j < |ready|
      ensures ready[i] != ready[j]
    {
      TwiceIn(ready, i, j);
      assert multiset(ready)[ready[i]] <= 1;
    }
    forall c | c in ready
      ensures c in cycles && ClosedOf(cycles, d, c)
    {
      assert multiset(ready)[c] >= 1;
    }
  }

  lemma TwiceIn(s: seq<nat>, i: nat, j: nat)
    requires i < j < |s|
    ensures s[i] == s[j] ==> multiset(s)[s[i]] >= 2
  {
    assert s == s[..j] + ([s[j]] + s[j + 1..]);
    assert s[..j][i] == s[i];
    assert multiset(s) == multiset(s[..j]) + multiset([s[j]] + s[j + 1..]);
    assert s[i] in multiset(s[..j]);
    assert ([s[j]] + s[j + 1..])[0] == s[j];
  }

  lemma FlushedOneMore(w: Width, cap: Cap, d: nat, deadline: nat, f0: Flushed, f: Flushed, g: Flushed, cycles: Cycles,
                       cycles1: Cycles, list: seq<nat>, i: nat, memory: seq<bool>, m: bool, callback: seq<Callback>,
                       rba: nat, q0: seq<Response>, q: seq<Response>, q': seq<Response>)
    requires Claimable(f0.rba) && Claimable(f.rba) && |memory| == i < |list|
    requires f == FlushAll(w, cap, d, deadline, f0, Readies(cycles, list[..i]), memory)
    requires list[i] in cycles && list[i] in cycles1 && cycles1[list[i]] == cycles[list[i]]
    requires g == FlushOne(w, cap, d, deadline, f, Ready(list[i], cycles1[list[i]].dead, cycles1[list[i]].ops), m)
    requires FlushedTo(g, f, callback, rba, q, q') && q == q0 + f.queue
    ensures g == FlushAll(w, cap, d, deadline, f0, Readies(cycles, list[..i + 1]), memory + [m]) && Claimable(g.rba)
    ensures g.callbacks == f.callbacks + callback && g.rba == rba && q' == q0 + g.queue
  {
    FlushedOn(g, f, callback, rba, q0, q, q');
    ReadiesSnoc(cycles, list, i);
    assert ReadyOf(cycles, list[i]) == Ready(list[i], cycles[list[i]].dead, cycles[list[i]].ops);
    hide *;
    FlushSnoc(w, cap, d, deadline, f0, Readies(cycles, list[..i]), memory, ReadyOf(cycles, list[i]), m);
    FlushOneClaims(w, cap, d, deadline, f, ReadyOf(cycles, list[i]), m);
  }

  lemma FlushedOn(g: Flushed, f: Flushed, callbacks: seq<Callback>, rba: nat, q0: seq<Response>, q: seq<Response>,
                  q': seq<Response>)
    requires FlushedTo(g, f, callbacks, rba, q, q') && q == q0 + f.queue
    ensures g.callbacks == f.callbacks + callbacks && g.rba == rba && q' == q0 + g.queue
  {
    assert g.queue == f.queue + g.queue[|f.queue|..];
    ConcatAssoc(q0, f.queue, g.queue[|f.queue|..]);
  }

  lemma EndsOn(cycles: Cycles, cycles1: Cycles, log: seq<End>, before: seq<Callback>, more: seq<Callback>, c: nat)
    requires c in cycles && c in cycles1 && cycles1[c] == cycles[c]
    requires forall i :: 0 <= i < |more| ==> more[i].cycle.handle == c
    ensures log + CallbackEnds(cycles, before) + CallbackEnds(cycles1, more) == log + CallbackEnds(cycles, before + more)
  {
    assert CallbackEnds(cycles1, more) == CallbackEnds(cycles, more);
    assert CallbackEnds(cycles, before + more) == CallbackEnds(cycles, before) + CallbackEnds(cycles, more);
    ConcatAssoc(log, CallbackEnds(cycles, before), CallbackEnds(cycles, more));
  }

  // ---------------------------------------------------------------------------
  // Over whole runs
  // ---------------------------------------------------------------------------

  /** Whatever has been done with a library: a cycle that was opened and is no longer there has ended exactly once, by one
      callback or by being aborted, and one that is still there has not ended. */
  lemma EndsOnce(l: Library, t: nat)
    requires l.Valid() && t < l.issued
    ensures EndedOnce(l.log, t) <==> forall c :: c in l.cycles ==> l.cycles[c].token != t
    ensures !Ended(l.log, t) <==> exists c :: c in l.cycles && l.cycles[c].token == t
  {
    BooksFacts(l, multiset(InFlight(l.socket.Queue())));
    hide Owned, Tidy, Listed, Awaited;
    if Ended(l.log, t) {
      LoggedOnce(l.log, t);
    }
  }

  /** Both fields that double as tags are unambiguous: the code can tell a cycle that ran out of memory and a device that
      only serves by comparing the field with their own handle. */
  lemma TagsTell(l: Library)
    requires l.Valid()
    ensures forall c :: c in l.cycles ==> (OpsField(c, l.cycles[c]) == c <==> l.cycles[c].dead)
    ensures forall d :: d in l.devices ==> (LinkField(d, l.devices[d]) == d <==> l.devices[d].passive)
  {
    BooksFacts(l, multiset(InFlight(l.socket.Queue())));
    NullIsNoHandle(l.pool.size, l.pool.chain, l.pool.live);
    hide Owned, Tidy, Accounted, Listed, Awaited, OpsField, LinkField;
    forall c | c in l.cycles
      ensures OpsField(c, l.cycles[c]) == c <==> l.cycles[c].dead
    {
      DeadTag(l.cycles, l.devices, l.owner, c);
    }
    forall d | d in l.devices
      ensures LinkField(d, l.devices[d]) == d <==> l.devices[d].passive
    {
      PassiveTag(l.cycles, l.devices, l.owner, d);
    }
  }

  /** Once the last cycle is gone, every cell but the devices' has been given back and nothing is in flight. */
  lemma AllGivenBack(l: Library)
    requires l.Valid() && l.cycles == map[]
    ensures forall t: nat | t < l.issued :: EndedOnce(l.log, t)
    ensures l.pool.live == l.devices.Keys && l.socket.Queue() == []
  {
    var q := l.socket.Queue();
    BooksFacts(l, multiset(InFlight(q)));
    AllEndOnce(l.cycles, l.devices, l.owner, l.log, l.issued, multiset(InFlight(q)));
    InFlightHas(q);
    hide Good;
    assert |multiset(InFlight(q))| == |InFlight(q)| == |q|;
  }
}
