/** Who owns which cell, and what has become of every cycle ever opened. */
module Accounts {
  import opened Operations
  import opened Memory

  /** Where a cycle is in its life; a cycle in flight owns a response cell. */
  datatype Stage = Open | Closed | Flying(response: nat)

  /** A cycle's cell. token numbers the cycle among all that were ever opened; cells are the handles of its operations. */
  datatype Record = Record(token: nat, device: nat, stage: Stage, dead: bool, cells: seq<nat>, ops: seq<Operation>)

  /** A device's cell: how many of its cycles are open (in 8 bits), its closed cycles (latest first), whether it only
      serves, and whether its link is up. */
  datatype Device = Device(unready: nat, ready: seq<nat>, passive: bool, connected: bool)

  type Cycles = map<nat, Record>
  type Devices = map<nat, Device>

  /** What a live cell is used for. */
  datatype Owner = CycleCell | OpOf(cycle: nat) | ResponseOf(cycle: nat) | DeviceCell

  type Owners = map<nat, Owner>

  /** How a cycle ended: its one callback, or an abort by its owner. */
  datatype End = CalledBack(token: nat, status: Status) | Aborted(token: nat)

  // ---------------------------------------------------------------------------
  // Invariants
  // ---------------------------------------------------------------------------

  /** Every cell in use has one owner, and every owner knows its cells. */
  ghost predicate Owned(cycles: Cycles, devices: Devices, owner: Owners) {
    && (forall c :: c in cycles <==> c in owner && owner[c] == CycleCell)
    && (forall d :: d in devices <==> d in owner && owner[d] == DeviceCell)
    && (forall c, h :: c in cycles && h in cycles[c].cells ==> h in owner && owner[h] == OpOf(c))
    && (forall h :: h in owner && owner[h].OpOf? ==>
          owner[h].cycle in cycles && h in cycles[owner[h].cycle].cells)
    && (forall c :: c in cycles && cycles[c].stage.Flying? ==>
          cycles[c].stage.response in owner && owner[cycles[c].stage.response] == ResponseOf(c))
    && (forall h :: h in owner && owner[h].ResponseOf? ==>
          owner[h].cycle in cycles && cycles[owner[h].cycle].stage == Flying(h))
  }

  /** Operation lists have no cell twice, and a dead cycle has none. */
  ghost predicate Tidy(cycles: Cycles) {
    forall c :: c in cycles ==>
      && NoDuplicates(cycles[c].cells) && |cycles[c].ops| == |cycles[c].cells|
      && (cycles[c].dead ==> cycles[c].cells == [])
  }

  predicate Ended(log: seq<End>, token: nat) {
    exists i :: 0 <= i < |log| && log[i].token == token
  }

  /** Every cycle ever opened is either still there or has ended, and none has ended twice. */
  ghost predicate Accounted(cycles: Cycles, log: seq<End>, issued: nat) {
    && (forall c :: c in cycles ==> cycles[c].token < issued && !Ended(log, cycles[c].token))
    && (forall c, c' :: c in cycles && c' in cycles && cycles[c].token == cycles[c'].token ==> c == c')
    && (forall i :: 0 <= i < |log| ==> log[i].token < issued)
    && (forall i, j :: 0 <= i < j < |log| ==> log[i].token != log[j].token)
    && (forall t: nat :: t < issued ==> Ended(log, t) || exists c :: c in cycles && cycles[c].token == t)
  }

  ghost function OpenOf(cycles: Cycles, d: nat): set<nat> {
    set c | c in cycles && cycles[c].stage.Open? && cycles[c].device == d
  }

  predicate ClosedOf(cycles: Cycles, d: nat, c: nat) {
    c in cycles && cycles[c].stage.Closed? && cycles[c].device == d
  }

  /** A device counts its open cycles, in 8 bits. */
  ghost predicate Counts(cycles: Cycles, d: nat, unready: nat) {
    unready == |OpenOf(cycles, d)| % 256
  }

  /** A device lists its closed cycles, each once. */
  ghost predicate Lists(cycles: Cycles, d: nat, ready: seq<nat>) {
    forall c :: multiset(ready)[c] == if ClosedOf(cycles, d, c) then 1 else 0
  }

  ghost predicate Listed(cycles: Cycles, devices: Devices) {
    && (forall c :: c in cycles ==> cycles[c].device in devices && !devices[cycles[c].device].passive)
    && (forall d :: d in devices ==> Counts(cycles, d, devices[d].unready) && Lists(cycles, d, devices[d].ready))
  }

  predicate InAir(cycles: Cycles, c: nat) {
    c in cycles && cycles[c].stage.Flying?
  }

  /** The cycles in flight are exactly those that wait in the response queue. */
  ghost predicate Awaited(cycles: Cycles, waiting: multiset<nat>) {
    forall c :: waiting[c] == if InAir(cycles, c) then 1 else 0
  }

  ghost predicate Good(cycles: Cycles, devices: Devices, owner: Owners, log: seq<End>, issued: nat, waiting: multiset<nat>) {
    Owned(cycles, devices, owner) && Tidy(cycles) && Accounted(cycles, log, issued) && Listed(cycles, devices)
    && Awaited(cycles, waiting)
  }

  // ---------------------------------------------------------------------------
  // Changing one cycle's record
  // ---------------------------------------------------------------------------

  lemma OpenOfUpdate(cycles: Cycles, c: nat, r: Record, d: nat)
    ensures OpenOf(cycles[c := r], d)
            == if r.stage.Open? && r.device == d then OpenOf(cycles, d) + {c} else OpenOf(cycles, d) - {c}
  {
  }

  lemma OpenOfRemove(cycles: Cycles, c: nat, d: nat)
    ensures OpenOf(cycles - {c}, d) == OpenOf(cycles, d) - {c}
  {
  }

  lemma ClosedOfUpdate(cycles: Cycles, c: nat, r: Record, d: nat, k: nat)
    ensures ClosedOf(cycles[c := r], d, k)
            == if k == c then r.stage.Closed? && r.device == d else ClosedOf(cycles, d, k)
  {
  }

  lemma ClosedOfRemove(cycles: Cycles, c: nat, d: nat, k: nat)
    ensures ClosedOf(cycles - {c}, d, k) == (k != c && ClosedOf(cycles, d, k))
  {
  }

  /** Other devices do not notice what happens to a cycle of device d. */
  lemma OthersKeep(cycles: Cycles, c: nat, r: Record, e: nat, dev: Device)
    requires r.device != e && (c in cycles ==> cycles[c].device != e)
    requires Counts(cycles, e, dev.unready) && Lists(cycles, e, dev.ready)
    ensures Counts(cycles[c := r], e, dev.unready) && Lists(cycles[c := r], e, dev.ready)
  {
    OpenOfUpdate(cycles, c, r, e);
    assert OpenOf(cycles, e) - {c} == OpenOf(cycles, e);
    forall k
      ensures ClosedOf(cycles[c := r], e, k) == ClosedOf(cycles, e, k)
    {
      ClosedOfUpdate(cycles, c, r, e, k);
    }
  }

  lemma OthersKeepRemoved(cycles: Cycles, c: nat, e: nat, dev: Device)
    requires c in cycles && cycles[c].device != e
    requires Counts(cycles, e, dev.unready) && Lists(cycles, e, dev.ready)
    ensures Counts(cycles - {c}, e, dev.unready) && Lists(cycles - {c}, e, dev.ready)
  {
    OpenOfRemove(cycles, c, e);
    assert OpenOf(cycles, e) - {c} == OpenOf(cycles, e);
    forall k
      ensures ClosedOf(cycles - {c}, e, k) == ClosedOf(cycles, e, k)
    {
      ClosedOfRemove(cycles, c, e, k);
    }
  }

  lemma ListedUpdate(cycles: Cycles, devices: Devices, c: nat, r: Record, d: nat, dev: Device)
    requires Listed(cycles, devices) && d in devices && r.device == d && (c in cycles ==> cycles[c].device == d)
    requires !dev.passive && Counts(cycles[c := r], d, dev.unready) && Lists(cycles[c := r], d, dev.ready)
    ensures Listed(cycles[c := r], devices[d := dev])
  {
    var devices' := devices[d := dev];
    forall e | e in devices'
      ensures Counts(cycles[c := r], e, devices'[e].unready) && Lists(cycles[c := r], e, devices'[e].ready)
    {
      if e != d {
        assert e in devices;
        OthersKeep(cycles, c, r, e, devices[e]);
      }
    }
    hide Counts, Lists;
  }

  lemma ListedRemove(cycles: Cycles, devices: Devices, c: nat, d: nat, dev: Device)
    requires Listed(cycles, devices) && d in devices && c in cycles && cycles[c].device == d
    requires !dev.passive && Counts(cycles - {c}, d, dev.unready) && Lists(cycles - {c}, d, dev.ready)
    ensures Listed(cycles - {c}, devices[d := dev])
  {
    var devices' := devices[d := dev];
    forall e | e in devices'
      ensures Counts(cycles - {c}, e, devices'[e].unready) && Lists(cycles - {c}, e, devices'[e].ready)
    {
      if e != d {
        assert e in devices;
        OthersKeepRemoved(cycles, c, e, devices[e]);
      }
    }
    hide Counts, Lists;
  }

  /** A step that keeps a cycle's token keeps the account. */
  lemma AccountedUpdate(cycles: Cycles, log: seq<End>, issued: nat, c: nat, r: Record)
    requires Accounted(cycles, log, issued) && c in cycles && r.token == cycles[c].token
    ensures Accounted(cycles[c := r], log, issued)
  {
    var cycles' := cycles[c := r];
    hide Ended;
    forall t: nat | t < issued && !Ended(log, t)
      ensures exists k :: k in cycles' && cycles'[k].token == t
    {
      var k :| k in cycles && cycles[k].token == t;
      assert k in cycles' && cycles'[k].token == t;
    }
  }

  /** A new cycle takes the next token. */
  lemma AccountedOpen(cycles: Cycles, log: seq<End>, issued: nat, c: nat, r: Record)
    requires Accounted(cycles, log, issued) && c !in cycles && r.token == issued
    ensures Accounted(cycles[c := r], log, issued + 1)
  {
    var cycles' := cycles[c := r];
    forall t: nat | t < issued + 1 && !Ended(log, t)
      ensures exists k :: k in cycles' && cycles'[k].token == t
    {
      var k: nat := c;
      if t != issued {
        k :| k in cycles && cycles[k].token == t;
      }
      assert k in cycles' && cycles'[k].token == t;
    }
  }

  /** A cycle that goes is logged, once. */
  lemma AccountedEnd(cycles: Cycles, log: seq<End>, issued: nat, c: nat, end: End)
    requires Accounted(cycles, log, issued) && c in cycles && end.token == cycles[c].token
    ensures Accounted(cycles - {c}, log + [end], issued)
  {
    var log', cycles' := log + [end], cycles - {c};
    assert log'[|log|] == end;
    assert forall i :: 0 <= i < |log| ==> log'[i] == log[i];
    forall t: nat
      ensures Ended(log', t) <==> Ended(log, t) || t == end.token
    {
      if Ended(log, t) {
        var i :| 0 <= i < |log| && log[i].token == t;
        assert log'[i].token == t;
      }
    }
    hide Ended;
    forall t: nat | t < issued && !Ended(log', t)
      ensures exists k :: k in cycles' && cycles'[k].token == t
    {
      var k :| k in cycles && cycles[k].token == t;
      assert k in cycles' && cycles'[k].token == t;
    }
  }

  // ---------------------------------------------------------------------------
  // Cells
  // ---------------------------------------------------------------------------

  lemma OwnedOpen(cycles: Cycles, devices: Devices, owner: Owners, c: nat, r: Record)
    requires Owned(cycles, devices, owner) && c !in owner && r.cells == [] && !r.stage.Flying?
    ensures c !in cycles && Owned(cycles[c := r], devices, owner[c := CycleCell])
  {
  }

  /** A step that neither takes nor returns cells. */
  lemma OwnedSame(cycles: Cycles, devices: Devices, owner: Owners, c: nat, r: Record)
    requires Owned(cycles, devices, owner) && c in cycles && !cycles[c].stage.Flying? && !r.stage.Flying?
    requires forall h :: h in r.cells <==> h in cycles[c].cells
    ensures Owned(cycles[c := r], devices, owner)
  {
  }

  lemma OwnedAdd(cycles: Cycles, devices: Devices, owner: Owners, c: nat, r: Record, h: nat)
    requires Owned(cycles, devices, owner) && c in cycles && h !in owner
    requires r.stage == cycles[c].stage && r.cells == [h] + cycles[c].cells
    ensures h !in cycles[c].cells && Owned(cycles[c := r], devices, owner[h := OpOf(c)])
  {
    assert h !in cycles && h !in devices;
  }

  lemma OwnedFly(cycles: Cycles, devices: Devices, owner: Owners, c: nat, r: Record, h: nat)
    requires Owned(cycles, devices, owner) && c in cycles && !cycles[c].stage.Flying? && h !in owner
    requires r.stage == Flying(h) && r.cells == cycles[c].cells
    ensures Owned(cycles[c := r], devices, owner[h := ResponseOf(c)])
  {
    assert h !in cycles && h !in devices;
  }

  /** All cells a cycle holds. */
  ghost function CellsOf(c: nat, r: Record): set<nat> {
    {c} + Members(r.cells) + (if r.stage.Flying? then {r.stage.response} else {})
  }

  lemma OwnedEnd(cycles: Cycles, devices: Devices, owner: Owners, c: nat)
    requires Owned(cycles, devices, owner) && c in cycles
    ensures CellsOf(c, cycles[c]) <= owner.Keys
    ensures Owned(cycles - {c}, devices, owner - CellsOf(c, cycles[c]))
  {
    var r := cycles[c];
    var gone := CellsOf(c, r);
    forall h | h in gone
      ensures h in owner && (owner[h] == CycleCell ==> h == c) && owner[h] != DeviceCell
      ensures owner[h].OpOf? || owner[h].ResponseOf? ==> owner[h].cycle == c
    {
      if h != c && h in r.cells {
        assert owner[h] == OpOf(c);
      }
    }
    forall h | h in owner && (owner[h].OpOf? || owner[h].ResponseOf?) && owner[h].cycle == c
      ensures h in gone
    {
    }
    hide CellsOf;
    OwnedLeft(cycles, devices, owner, c, gone);
  }

  /** All that is owned for one cycle, and nothing else. */
  ghost predicate Belongings(owner: Owners, c: nat, gone: set<nat>) {
    && c in gone
    && (forall h :: h in gone ==>
          h in owner && (owner[h] == CycleCell ==> h == c) && owner[h] != DeviceCell
          && (owner[h].OpOf? || owner[h].ResponseOf? ==> owner[h].cycle == c))
    && (forall h :: h in owner && (owner[h].OpOf? || owner[h].ResponseOf?) && owner[h].cycle == c ==> h in gone)
  }

  lemma OperationsLeft(cycles: Cycles, devices: Devices, owner: Owners, c: nat, gone: set<nat>)
    requires Owned(cycles, devices, owner) && c in cycles && Belongings(owner, c, gone)
    ensures var rest, left := cycles - {c}, owner - gone;
            forall e, h :: e in rest && h in rest[e].cells ==> h in left && left[h] == OpOf(e)
  {
    forall e, h | e in cycles && e != c && h in cycles[e].cells
      ensures h in owner && h !in gone && owner[h] == OpOf(e)
    {
      assert owner[h] == OpOf(e);
    }
  }

  lemma OperationsListed(cycles: Cycles, devices: Devices, owner: Owners, c: nat, gone: set<nat>)
    requires Owned(cycles, devices, owner) && c in cycles && Belongings(owner, c, gone)
    ensures var rest, left := cycles - {c}, owner - gone;
            forall h :: h in left && left[h].OpOf? ==> left[h].cycle in rest && h in rest[left[h].cycle].cells
  {
  }

  lemma ResponsesLeft(cycles: Cycles, devices: Devices, owner: Owners, c: nat, gone: set<nat>)
    requires Owned(cycles, devices, owner) && c in cycles && Belongings(owner, c, gone)
    ensures var rest, left := cycles - {c}, owner - gone;
            && (forall e :: e in rest && rest[e].stage.Flying? ==>
                  rest[e].stage.response in left && left[rest[e].stage.response] == ResponseOf(e))
            && (forall h :: h in left && left[h].ResponseOf? ==>
                  left[h].cycle in rest && rest[left[h].cycle].stage == Flying(h))
  {
    forall e | e in cycles && e != c && cycles[e].stage.Flying?
      ensures var h := cycles[e].stage.response; h in owner && h !in gone && owner[h] == ResponseOf(e)
    {
      assert owner[cycles[e].stage.response] == ResponseOf(e);
    }
  }

  lemma CellsLeft(cycles: Cycles, devices: Devices, owner: Owners, c: nat, gone: set<nat>)
    requires Owned(cycles, devices, owner) && c in cycles && Belongings(owner, c, gone)
    ensures var rest, left := cycles - {c}, owner - gone;
            && (forall e :: e in rest <==> e in left && left[e] == CycleCell)
            && (forall d :: d in devices <==> d in left && left[d] == DeviceCell)
  {
  }

  lemma OwnedLeft(cycles: Cycles, devices: Devices, owner: Owners, c: nat, gone: set<nat>)
    requires Owned(cycles, devices, owner) && c in cycles && Belongings(owner, c, gone)
    ensures Owned(cycles - {c}, devices, owner - gone)
  {
    hide Owned, Belongings;
    CellsLeft(cycles, devices, owner, c, gone);
    OperationsLeft(cycles, devices, owner, c, gone);
    OperationsListed(cycles, devices, owner, c, gone);
    ResponsesLeft(cycles, devices, owner, c, gone);
    OwnedFrom(cycles - {c}, devices, owner - gone);
  }

  lemma OwnedFrom(cycles: Cycles, devices: Devices, owner: Owners)
    requires forall c :: c in cycles <==> c in owner && owner[c] == CycleCell
    requires forall d :: d in devices <==> d in owner && owner[d] == DeviceCell
    requires forall c, h :: c in cycles && h in cycles[c].cells ==> h in owner && owner[h] == OpOf(c)
    requires forall h :: h in owner && owner[h].OpOf? ==> owner[h].cycle in cycles && h in cycles[owner[h].cycle].cells
    requires forall c :: c in cycles && cycles[c].stage.Flying? ==>
               cycles[c].stage.response in owner && owner[cycles[c].stage.response] == ResponseOf(c)
    requires forall h :: h in owner && owner[h].ResponseOf? ==>
               owner[h].cycle in cycles && cycles[owner[h].cycle].stage == Flying(h)
    ensures Owned(cycles, devices, owner)
  {
  }

  lemma OwnedEmptied(cycles: Cycles, devices: Devices, owner: Owners, c: nat, r: Record)
    requires Owned(cycles, devices, owner) && c in cycles && r.stage == cycles[c].stage && r.cells == []
    ensures Owned(cycles[c := r], devices, owner - Members(cycles[c].cells))
  {
    var gone := Members(cycles[c].cells);
    assert forall h :: h in gone ==> h in owner && owner[h] == OpOf(c);
    assert forall h :: h in owner && owner[h] == OpOf(c) ==> h in gone;
    var left := owner - gone;
    assert forall h :: h in left <==> h in owner && owner[h] != OpOf(c);
    assert forall h :: h in left ==> left[h] == owner[h];
    hide CellsOf;
  }

  lemma OwnedDevice(cycles: Cycles, devices: Devices, owner: Owners, d: nat, dev: Device)
    requires Owned(cycles, devices, owner) && d in devices
    ensures Owned(cycles, devices[d := dev], owner)
  {
  }

  // ---------------------------------------------------------------------------
  // Steps
  // ---------------------------------------------------------------------------

  /** Eight-bit arithmetic. */
  function Increment(n: nat): nat {
    (n + 1) % 256
  }

  function Decrement(n: nat): nat {
    (n + 255) % 256
  }

  lemma OpenGood(cycles: Cycles, devices: Devices, owner: Owners, log: seq<End>, issued: nat, waiting: multiset<nat>,
                 c: nat, d: nat)
    requires Good(cycles, devices, owner, log, issued, waiting)
    requires c !in owner && d in devices && !devices[d].passive
    ensures Good(cycles[c := Record(issued, d, Open, false, [], [])],
                 devices[d := devices[d].(unready := Increment(devices[d].unready))],
                 owner[c := CycleCell], log, issued + 1, waiting)
  {
    var r := Record(issued, d, Open, false, [], []);
    var dev := devices[d].(unready := Increment(devices[d].unready));
    hide *;
    GoodFacts(cycles, devices, owner, log, issued, waiting);
    OwnedOpen(cycles, devices, owner, c, r);
    OwnedDevice(cycles[c := r], devices, owner[c := CycleCell], d, dev);
    AccountedOpen(cycles, log, issued, c, r);
    ListedDevice(cycles, devices, d);
    OneMoreOpen(cycles, c, r, d, devices[d]);
    ListedUpdate(cycles, devices, c, r, d, dev);
    NotInAir(cycles, c);
    AwaitedGround(cycles, waiting, c, r);
    NoneTwice();
    TidyUpdate(cycles, c, r);
    GoodIs(cycles[c := r], devices[d := dev], owner[c := CycleCell], log, issued + 1, waiting);
  }

  lemma NoneTwice()
    ensures NoDuplicates([])
  {
  }

  lemma NotInAir(cycles: Cycles, c: nat)
    ensures c !in cycles || !cycles[c].stage.Flying? ==> !InAir(cycles, c)
  {
  }

  lemma GoodFacts(cycles: Cycles, devices: Devices, owner: Owners, log: seq<End>, issued: nat, waiting: multiset<nat>)
    requires Good(cycles, devices, owner, log, issued, waiting)
    ensures Owned(cycles, devices, owner) && Tidy(cycles) && Accounted(cycles, log, issued) && Listed(cycles, devices)
    ensures Awaited(cycles, waiting)
  {
    hide Owned, Tidy, Accounted, Listed, Awaited;
  }

  lemma GoodIs(cycles: Cycles, devices: Devices, owner: Owners, log: seq<End>, issued: nat, waiting: multiset<nat>)
    requires Owned(cycles, devices, owner) && Tidy(cycles) && Accounted(cycles, log, issued) && Listed(cycles, devices)
    requires Awaited(cycles, waiting)
    ensures Good(cycles, devices, owner, log, issued, waiting)
  {
    hide Owned, Tidy, Accounted, Listed, Awaited;
  }

  lemma ListedDevice(cycles: Cycles, devices: Devices, d: nat)
    requires Listed(cycles, devices) && d in devices
    ensures Counts(cycles, d, devices[d].unready) && Lists(cycles, d, devices[d].ready)
  {
    hide Counts, Lists;
  }

  lemma ListedCycle(cycles: Cycles, devices: Devices, c: nat)
    requires Listed(cycles, devices) && c in cycles
    ensures cycles[c].device in devices && !devices[cycles[c].device].passive
  {
    hide Counts, Lists;
  }

  lemma OneMoreOpen(cycles: Cycles, c: nat, r: Record, d: nat, dev: Device)
    requires c !in cycles && r.stage == Open && r.device == d
    requires Counts(cycles, d, dev.unready) && Lists(cycles, d, dev.ready)
    ensures Counts(cycles[c := r], d, Increment(dev.unready)) && Lists(cycles[c := r], d, dev.ready)
  {
    OpenOfUpdate(cycles, c, r, d);
    forall k
      ensures ClosedOf(cycles[c := r], d, k) == ClosedOf(cycles, d, k)
    {
      ClosedOfUpdate(cycles, c, r, d, k);
    }
  }

  lemma TidyUpdate(cycles: Cycles, c: nat, r: Record)
    requires Tidy(cycles) && NoDuplicates(r.cells) && |r.ops| == |r.cells| && (r.dead ==> r.cells == [])
    ensures Tidy(cycles[c := r])
  {
    hide NoDuplicates;
  }

  lemma AwaitedGround(cycles: Cycles, waiting: multiset<nat>, c: nat, r: Record)
    requires Awaited(cycles, waiting) && !r.stage.Flying? && !InAir(cycles, c)
    ensures Awaited(cycles[c := r], waiting)
  {
    forall k
      ensures InAir(cycles[c := r], k) == InAir(cycles, k)
    {
    }
  }

  /** A record change that keeps token, device and stage. */
  lemma SameGood(cycles: Cycles, devices: Devices, owner: Owners, owner': Owners, log: seq<End>, issued: nat,
                 waiting: multiset<nat>, c: nat, r: Record)
    requires Good(cycles, devices, owner, log, issued, waiting) && c in cycles
    requires r.token == cycles[c].token && r.device == cycles[c].device && r.stage == cycles[c].stage
    requires Owned(cycles[c := r], devices, owner')
    requires NoDuplicates(r.cells) && |r.ops| == |r.cells| && (r.dead ==> r.cells == [])
    ensures Good(cycles[c := r], devices, owner', log, issued, waiting)
  {
    var d := r.device;
    hide *;
    GoodFacts(cycles, devices, owner, log, issued, waiting);
    AccountedUpdate(cycles, log, issued, c, r);
    TidyUpdate(cycles, c, r);
    ListedCycle(cycles, devices, c);
    ListedDevice(cycles, devices, d);
    SameStage(cycles, c, r, d, devices[d]);
    ListedUpdate(cycles, devices, c, r, d, devices[d]);
    assert devices[d := devices[d]] == devices;
    AwaitedSame(cycles, waiting, c, r);
    GoodIs(cycles[c := r], devices, owner', log, issued, waiting);
  }

  lemma AwaitedSame(cycles: Cycles, waiting: multiset<nat>, c: nat, r: Record)
    requires Awaited(cycles, waiting) && c in cycles && r.stage == cycles[c].stage
    ensures Awaited(cycles[c := r], waiting)
  {
    forall k
      ensures InAir(cycles[c := r], k) == InAir(cycles, k)
    {
    }
  }

  lemma SameStage(cycles: Cycles, c: nat, r: Record, d: nat, dev: Device)
    requires c in cycles && r.stage == cycles[c].stage && r.device == cycles[c].device == d
    requires Counts(cycles, d, dev.unready) && Lists(cycles, d, dev.ready)
    ensures Counts(cycles[c := r], d, dev.unready) && Lists(cycles[c := r], d, dev.ready)
  {
    assert OpenOf(cycles[c := r], d) == OpenOf(cycles, d);
    forall k
      ensures ClosedOf(cycles[c := r], d, k) == ClosedOf(cycles, d, k)
    {
    }
  }

  lemma AddGood(cycles: Cycles, devices: Devices, owner: Owners, log: seq<End>, issued: nat, waiting: multiset<nat>,
                c: nat, h: nat, op: Operation)
    requires Good(cycles, devices, owner, log, issued, waiting) && c in cycles && !cycles[c].dead && h !in owner
    ensures var r := cycles[c].(cells := [h] + cycles[c].cells, ops := [op] + cycles[c].ops);
            Good(cycles[c := r], devices, owner[h := OpOf(c)], log, issued, waiting)
  {
    var r := cycles[c].(cells := [h] + cycles[c].cells, ops := [op] + cycles[c].ops);
    OwnedAdd(cycles, devices, owner, c, r, h);
    NoDuplicatesCons(h, cycles[c].cells);
    SameGood(cycles, devices, owner, owner[h := OpOf(c)], log, issued, waiting, c, r);
  }

  lemma NoDuplicatesCons(h: nat, cells: seq<nat>)
    requires NoDuplicates(cells) && h !in cells
    ensures NoDuplicates([h] + cells)
  {
    var all := [h] + cells;
    assert forall i :: 0 < i < |all| ==> all[i] == cells[i - 1] && cells[i - 1] in cells;
  }

  lemma KillGood(cycles: Cycles, devices: Devices, owner: Owners, log: seq<End>, issued: nat, waiting: multiset<nat>,
                 c: nat)
    requires Good(cycles, devices, owner, log, issued, waiting) && c in cycles
    ensures var gone := Members(cycles[c].cells);
            Good(cycles[c := cycles[c].(dead := true, cells := [], ops := [])], devices, owner - gone, log, issued, waiting)
  {
    var r := cycles[c].(dead := true, cells := [], ops := []);
    OwnedEmptied(cycles, devices, owner, c, r);
    SameGood(cycles, devices, owner, owner - Members(cycles[c].cells), log, issued, waiting, c, r);
  }

  /** Closing: one open cycle less, one more listed. */
  lemma CloseGood(cycles: Cycles, devices: Devices, owner: Owners, log: seq<End>, issued: nat, waiting: multiset<nat>,
                  c: nat, r: Record)
    requires Good(cycles, devices, owner, log, issued, waiting) && c in cycles && cycles[c].stage == Open
    requires r.token == cycles[c].token && r.device == cycles[c].device && r.stage == Closed && r.dead == cycles[c].dead
    requires |r.ops| == |r.cells| == |cycles[c].cells| && NoDuplicates(r.cells)
    requires forall h :: h in r.cells <==> h in cycles[c].cells
    ensures r.device in devices
    ensures var dev := devices[r.device];
            Good(cycles[c := r],
                 devices[r.device := dev.(unready := Decrement(dev.unready), ready := [c] + dev.ready)],
                 owner, log, issued, waiting)
  {
    var d := r.device;
    GoodFacts(cycles, devices, owner, log, issued, waiting);
    ListedCycle(cycles, devices, c);
    var dev := devices[d].(unready := Decrement(devices[d].unready), ready := [c] + devices[d].ready);
    hide *;
    OwnedSame(cycles, devices, owner, c, r);
    OwnedDevice(cycles[c := r], devices, owner, d, dev);
    AccountedUpdate(cycles, log, issued, c, r);
    TidyUpdate(cycles, c, r);
    ListedDevice(cycles, devices, d);
    OneClosed(cycles, c, r, d, devices[d]);
    ListedUpdate(cycles, devices, c, r, d, dev);
    NotInAir(cycles, c);
    AwaitedGround(cycles, waiting, c, r);
    GoodIs(cycles[c := r], devices[d := dev], owner, log, issued, waiting);
  }

  lemma OneLess(n: nat)
    requires n > 0
    ensures Decrement(n % 256) == (n - 1) % 256
  {
  }

  lemma OneClosed(cycles: Cycles, c: nat, r: Record, d: nat, dev: Device)
    requires c in cycles && cycles[c].stage == Open && cycles[c].device == d && r.stage == Closed && r.device == d
    requires Counts(cycles, d, dev.unready) && Lists(cycles, d, dev.ready)
    ensures Counts(cycles[c := r], d, Decrement(dev.unready)) && Lists(cycles[c := r], d, [c] + dev.ready)
  {
    OpenOfUpdate(cycles, c, r, d);
    assert c in OpenOf(cycles, d);
    OneLess(|OpenOf(cycles, d)|);
    assert multiset([c] + dev.ready) == multiset{c} + multiset(dev.ready);
    forall k
      ensures multiset([c] + dev.ready)[k] == if ClosedOf(cycles[c := r], d, k) then 1 else 0
    {
      ClosedOfUpdate(cycles, c, r, d, k);
    }
  }

  /** Sent: off the closed list, into the response queue. */
  lemma FlyGood(cycles: Cycles, devices: Devices, owner: Owners, log: seq<End>, issued: nat, waiting: multiset<nat>,
                c: nat, h: nat, ready: seq<nat>)
    requires Good(cycles, devices, owner, log, issued, waiting) && c in cycles && cycles[c].stage == Closed && h !in owner
    requires cycles[c].device in devices
    requires multiset(devices[cycles[c].device].ready) == multiset(ready) + multiset{c}
    ensures var d := cycles[c].device;
            Good(cycles[c := cycles[c].(stage := Flying(h))], devices[d := devices[d].(ready := ready)],
                 owner[h := ResponseOf(c)], log, issued, waiting + multiset{c})
  {
    var d := cycles[c].device;
    var r := cycles[c].(stage := Flying(h));
    var dev := devices[d].(ready := ready);
    hide *;
    GoodFacts(cycles, devices, owner, log, issued, waiting);
    ListedCycle(cycles, devices, c);
    OwnedFly(cycles, devices, owner, c, r, h);
    OwnedDevice(cycles[c := r], devices, owner[h := ResponseOf(c)], d, dev);
    AccountedUpdate(cycles, log, issued, c, r);
    TidyKeep(cycles, c, r);
    ListedDevice(cycles, devices, d);
    OneSent(cycles, c, r, d, devices[d], ready);
    ListedUpdate(cycles, devices, c, r, d, dev);
    AwaitedFly(cycles, waiting, c, r);
    GoodIs(cycles[c := r], devices[d := dev], owner[h := ResponseOf(c)], log, issued, waiting + multiset{c});
  }

  lemma TidyKeep(cycles: Cycles, c: nat, r: Record)
    requires Tidy(cycles) && c in cycles && r.cells == cycles[c].cells && |r.ops| == |cycles[c].ops| && r.dead == cycles[c].dead
    ensures Tidy(cycles[c := r])
  {
    hide NoDuplicates;
  }

  lemma OneSent(cycles: Cycles, c: nat, r: Record, d: nat, dev: Device, ready: seq<nat>)
    requires c in cycles && cycles[c].stage == Closed && cycles[c].device == d && r.stage.Flying? && r.device == d
    requires Counts(cycles, d, dev.unready) && Lists(cycles, d, dev.ready)
    requires multiset(dev.ready) == multiset(ready) + multiset{c}
    ensures Counts(cycles[c := r], d, dev.unready) && Lists(cycles[c := r], d, ready)
  {
    assert OpenOf(cycles[c := r], d) == OpenOf(cycles, d);
    forall k
      ensures multiset(ready)[k] == if ClosedOf(cycles[c := r], d, k) then 1 else 0
    {
      ClosedOfUpdate(cycles, c, r, d, k);
      assert multiset(dev.ready)[k] == multiset(ready)[k] + multiset{c}[k];
    }
  }

  lemma AwaitedFly(cycles: Cycles, waiting: multiset<nat>, c: nat, r: Record)
    requires Awaited(cycles, waiting) && r.stage.Flying? && !InAir(cycles, c)
    ensures Awaited(cycles[c := r], waiting + multiset{c})
  {
    forall k
      ensures InAir(cycles[c := r], k) == (k == c || InAir(cycles, k))
    {
    }
  }

  /** The end of a cycle: its cells go back, its end is logged, and lists and counts that mentioned it no longer do. */
  lemma EndGood(cycles: Cycles, devices: Devices, owner: Owners, log: seq<End>, issued: nat, waiting: multiset<nat>,
                c: nat, end: End, dev: Device, waiting': multiset<nat>)
    requires Good(cycles, devices, owner, log, issued, waiting) && c in cycles && end.token == cycles[c].token
    requires cycles[c].device in devices && EndStep(cycles[c].stage, c, devices[cycles[c].device], dev, waiting, waiting')
    ensures CellsOf(c, cycles[c]) <= owner.Keys
    ensures Good(cycles - {c}, devices[cycles[c].device := dev], owner - CellsOf(c, cycles[c]), log + [end], issued, waiting')
  {
    var d := cycles[c].device;
    hide *;
    GoodFacts(cycles, devices, owner, log, issued, waiting);
    ListedCycle(cycles, devices, c);
    OwnedEnd(cycles, devices, owner, c);
    OwnedDevice(cycles - {c}, devices, owner - CellsOf(c, cycles[c]), d, dev);
    AccountedEnd(cycles, log, issued, c, end);
    TidyRemove(cycles, c);
    ListedDevice(cycles, devices, d);
    OneEnded(cycles, c, d, devices[d], dev, waiting, waiting');
    ListedRemove(cycles, devices, c, d, dev);
    GoodIs(cycles - {c}, devices[d := dev], owner - CellsOf(c, cycles[c]), log + [end], issued, waiting');
  }

  /** How the device and the queue account for the end of a cycle that was in the given stage. */
  ghost predicate EndStep(stage: Stage, c: nat, dev: Device, dev': Device, waiting: multiset<nat>, waiting': multiset<nat>) {
    match stage
    case Open => dev' == dev.(unready := Decrement(dev.unready)) && waiting' == waiting
    case Closed =>
      dev' == dev.(ready := dev'.ready) && multiset(dev.ready) == multiset(dev'.ready) + multiset{c} && waiting' == waiting
    case Flying(_) => dev' == dev && waiting == waiting' + multiset{c}
  }

  lemma TidyRemove(cycles: Cycles, c: nat)
    requires Tidy(cycles)
    ensures Tidy(cycles - {c})
  {
    hide NoDuplicates;
  }

  lemma OneEnded(cycles: Cycles, c: nat, d: nat, dev: Device, dev': Device, waiting: multiset<nat>, waiting': multiset<nat>)
    requires c in cycles && cycles[c].device == d && EndStep(cycles[c].stage, c, dev, dev', waiting, waiting')
    requires Counts(cycles, d, dev.unready) && Lists(cycles, d, dev.ready) && Awaited(cycles, waiting)
    ensures dev'.passive == dev.passive
    ensures Counts(cycles - {c}, d, dev'.unready) && Lists(cycles - {c}, d, dev'.ready) && Awaited(cycles - {c}, waiting')
  {
    OpenOfRemove(cycles, c, d);
    if cycles[c].stage.Open? {
      assert c in OpenOf(cycles, d);
      OneLess(|OpenOf(cycles, d)|);
    } else {
      assert OpenOf(cycles, d) - {c} == OpenOf(cycles, d);
    }
    ListsEnded(cycles, c, d, dev, dev', waiting, waiting');
    AwaitedEnded(cycles, c, dev, dev', waiting, waiting');
  }

  lemma ListsEnded(cycles: Cycles, c: nat, d: nat, dev: Device, dev': Device, waiting: multiset<nat>, waiting': multiset<nat>)
    requires c in cycles && cycles[c].device == d && EndStep(cycles[c].stage, c, dev, dev', waiting, waiting')
    requires Lists(cycles, d, dev.ready)
    ensures Lists(cycles - {c}, d, dev'.ready)
  {
    hide Decrement;
    forall k
      ensures multiset(dev'.ready)[k] == if ClosedOf(cycles - {c}, d, k) then 1 else 0
    {
      ClosedOfRemove(cycles, c, d, k);
      if cycles[c].stage.Closed? {
        assert multiset(dev.ready)[k] == multiset(dev'.ready)[k] + multiset{c}[k];
      }
    }
  }

  lemma AwaitedEnded(cycles: Cycles, c: nat, dev: Device, dev': Device, waiting: multiset<nat>, waiting': multiset<nat>)
    requires c in cycles && EndStep(cycles[c].stage, c, dev, dev', waiting, waiting') && Awaited(cycles, waiting)
    ensures Awaited(cycles - {c}, waiting')
  {
    hide Decrement;
    forall k
      ensures waiting'[k] == if InAir(cycles - {c}, k) then 1 else 0
    {
      assert InAir(cycles - {c}, k) == (k != c && InAir(cycles, k));
      if cycles[c].stage.Flying? {
        assert waiting[k] == waiting'[k] + multiset{c}[k];
      }
    }
  }

  // ---------------------------------------------------------------------------
  // Conclusions
  // ---------------------------------------------------------------------------

  /** Exactly one entry of the log is about this cycle. */
  ghost predicate EndedOnce(log: seq<End>, token: nat) {
    exists i :: 0 <= i < |log| && log[i].token == token && forall j :: 0 <= j < |log| && j != i ==> log[j].token != token
  }

  lemma LoggedOnce(log: seq<End>, token: nat)
    requires forall i, j :: 0 <= i < j < |log| ==> log[i].token != log[j].token
    requires Ended(log, token)
    ensures EndedOnce(log, token)
  {
    var i :| 0 <= i < |log| && log[i].token == token;
    assert forall j :: 0 <= j < |log| && j != i ==> log[j].token != token;
  }

  /** When no cycle is left, every cycle ever opened has ended exactly once, and only device cells are still in use. */
  lemma AllEndOnce(cycles: Cycles, devices: Devices, owner: Owners, log: seq<End>, issued: nat, waiting: multiset<nat>)
    requires Good(cycles, devices, owner, log, issued, waiting) && cycles == map[]
    ensures forall t: nat | t < issued :: EndedOnce(log, t)
    ensures owner.Keys == devices.Keys && waiting == multiset{}
  {
    forall t: nat | t < issued
      ensures EndedOnce(log, t)
    {
      assert Ended(log, t);
      LoggedOnce(log, t);
    }
    assert forall h :: h in owner <==> h in devices;
    forall c
      ensures c !in waiting
    {
      assert !InAir(cycles, c);
    }
  }

  /** A cycle's operation field holds the handle of its first operation, NULL, or its own handle once memory ran out. */
  function OpsField(c: nat, r: Record): nat {
    if r.dead then c else if r.cells == [] then NULL else r.cells[0]
  }

  /** Reading that field back is unambiguous: it names the cycle itself exactly when the cycle is dead. */
  lemma DeadTag(cycles: Cycles, devices: Devices, owner: Owners, c: nat)
    requires Owned(cycles, devices, owner) && c in cycles && NULL !in owner
    ensures OpsField(c, cycles[c]) == c <==> cycles[c].dead
    ensures OpsField(c, cycles[c]) == NULL <==> !cycles[c].dead && cycles[c].cells == []
  {
    if cycles[c].cells != [] {
      assert cycles[c].cells[0] in cycles[c].cells;
    }
  }

  /** A device's link field holds the handle of its latest closed cycle, NULL, or its own handle if it only serves. */
  function LinkField(d: nat, dev: Device): nat {
    if dev.passive then d else if dev.ready == [] then NULL else dev.ready[0]
  }

  /** It names the device itself exactly when the device only serves. */
  lemma PassiveTag(cycles: Cycles, devices: Devices, owner: Owners, d: nat)
    requires Owned(cycles, devices, owner) && Listed(cycles, devices) && d in devices && NULL !in owner
    ensures LinkField(d, devices[d]) == d <==> devices[d].passive
    ensures LinkField(d, devices[d]) == NULL <==> !devices[d].passive && devices[d].ready == []
  {
    var ready := devices[d].ready;
    if ready != [] {
      assert ready[0] in multiset(ready);
      assert Lists(cycles, d, ready) && multiset(ready)[ready[0]] >= 1;
      assert ClosedOf(cycles, d, ready[0]);
    }
    hide Counts, Lists;
  }
}
