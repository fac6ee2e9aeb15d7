/** The sorted list of local devices and the place of the SDB window between them. */
module Handlers {
  import opened Words
  import opened Operations
  import opened SdbRecords

  /** An attached device. pointer tells devices apart; a device may lack a read or a write callback. */
  datatype Handler = Handler(pointer: nat, device: SdbDevice, readable: bool, writable: bool)
  {
    const first: nat := device.component.first
    const last: nat := device.component.last

    /** SDB_WISHBONE_LITTLE_ENDIAN */
    const littleEndian: bool := (device.busSpecific / 0x80) % 2 == 1

    predicate Has(address: nat) {
      first <= address <= last
    }
  }

  /** SDB_REQUIRED_SIZE */
  const WINDOW: nat := 0x1_0000

  /** The most devices that may be attached: SDB_REQUIRED_SIZE / sizeof(struct sdb_empty). */
  const LIMIT: nat := 1024

  predicate Range(h: Handler) {
    h.first <= h.last < WORD
  }

  predicate Overlap(a: Handler, b: Handler) {
    a.first <= b.last && b.first <= a.last
  }

  /** Ascending and pairwise disjoint. */
  predicate Sorted(hs: seq<Handler>) {
    && (forall i :: 0 <= i < |hs| ==> Range(hs[i]))
    && (forall i, j :: 0 <= i < j < |hs| ==> hs[i].last < hs[j].first)
  }

  /** Two devices overlap exactly when they share an address. */
  lemma OverlapShares(a: Handler, b: Handler)
    requires Range(a) && Range(b)
    ensures Overlap(a, b) <==> exists address: nat :: a.Has(address) && b.Has(address)
  {
    if Overlap(a, b) {
      var address := if a.first <= b.first then b.first else a.first;
      assert a.Has(address) && b.Has(address);
    }
  }

  /** The position of the device that answers an address; |hs| if there is none. */
  function Find(hs: seq<Handler>, address: nat): (i: nat)
    ensures i <= |hs|
    ensures i < |hs| ==> hs[i].Has(address)
    ensures forall j :: 0 <= j < i ==> !hs[j].Has(address)
  {
    if hs == [] || hs[0].Has(address) then 0 else 1 + Find(hs[1..], address)
  }

  /** A device that has an address is the one that answers it, wherever it stands in the list. */
  lemma {:induction false} UniqueTarget(hs: seq<Handler>, address: nat, i: nat)
    requires Sorted(hs) && i < |hs| && hs[i].Has(address)
    ensures Find(hs, address) == i
    decreases i
  {
    if i > 0 {
      assert hs[0].last < hs[i].first;
      UniqueTarget(hs[1..], address, i - 1);
    }
  }

  // ---------------------------------------------------------------------------
  // Where a new device goes
  // ---------------------------------------------------------------------------

  /** Inserting behind the devices that end before h keeps the list sorted when nothing overlaps. */
  lemma InsertSorted(hs: seq<Handler>, k: nat, h: Handler)
    requires Sorted(hs) && Range(h) && k <= |hs|
    requires forall i :: 0 <= i < k ==> hs[i].last < h.first
    requires forall i :: k <= i < |hs| ==> h.last < hs[i].first
    ensures Sorted(hs[..k] + [h] + hs[k..])
  {
    var all := hs[..k] + [h] + hs[k..];
    assert forall i :: 0 <= i < k ==> all[i] == hs[i];
    assert all[k] == h;
    assert forall i :: k < i < |all| ==> all[i] == hs[i - 1];
  }

  lemma PrefixSorted(hs: seq<Handler>, k: nat)
    requires Sorted(hs) && k <= |hs|
    ensures Sorted(hs[..k])
  {
  }

  // ---------------------------------------------------------------------------
  // The SDB window
  // ---------------------------------------------------------------------------

  /** The end of a device, aligned upwards to 8 bytes, in 64 bits. */
  function AlignUp(last: nat): nat {
    var end := (last + 1) % WORD;
    var up := (end + 7) % WORD;
    up - up % 8
  }

  /** There seems to be room for the window between from and first. */
  predicate Gap(from: nat, first: nat) {
    (first - from) % WORD >= WINDOW
  }

  /** Scans for a gap from device i on: the position before which there is one (|hs| if none), and where it starts. */
  function Scan(hs: seq<Handler>, i: nat, from: nat): (r: (nat, nat))
    requires i <= |hs|
    ensures i <= r.0 <= |hs|
    decreases |hs| - i
  {
    if i == |hs| || Gap(from, hs[i].first) then (i, from) else Scan(hs, i + 1, AlignUp(hs[i].last))
  }

  /** The scan ran off the end of the address space. */
  predicate NoSpace(hs: seq<Handler>) {
    Scan(hs, 0, 0).0 == |hs| && hs != [] && Scan(hs, 0, 0).1 > WORD - 1 - WINDOW
  }

  /** No device overlaps the window at offset, and the window ends inside the address space. */
  predicate Clear(hs: seq<Handler>, offset: nat) {
    && offset % 8 == 0 && offset + WINDOW <= WORD
    && forall i :: 0 <= i < |hs| ==> hs[i].last < offset || offset + WINDOW <= hs[i].first
  }

  predicate Aligned(hs: seq<Handler>) {
    forall i :: 0 <= i < |hs| ==> hs[i].first % 8 == 0
  }

  lemma AlignUpValue(last: nat)
    requires last < WORD - 8
    ensures last < AlignUp(last) <= last + 8 && AlignUp(last) % 8 == 0 && AlignUp(last) < WORD
    ensures forall first: nat :: last < first && first % 8 == 0 ==> AlignUp(last) <= first
  {
    var up := last + 8;
    assert (last + 1) % WORD == last + 1 && up % WORD == up;
    assert AlignUp(last) == up - up % 8;
    forall first: nat | last < first && first % 8 == 0
      ensures AlignUp(last) <= first
    {
      assert (first - (up - up % 8)) % 8 == 0;
    }
  }

  lemma AlignUpTop(last: nat)
    requires WORD - 8 <= last < WORD
    ensures AlignUp(last) == 0
  {
    if last + 1 < WORD {
      assert (last + 1) % WORD == last + 1;
      assert (last + 8) % WORD == last + 8 - WORD < 8;
    }
  }

  /** A scan that passes a device starts its window behind the last one it passed, and saw no gap before the first. */
  lemma {:induction false} ScanPassed(hs: seq<Handler>, i: nat, from: nat)
    requires i <= |hs| && Scan(hs, i, from).0 > i
    ensures Scan(hs, i, from).1 == AlignUp(hs[Scan(hs, i, from).0 - 1].last) && !Gap(from, hs[i].first)
    decreases |hs| - i
  {
    if Scan(hs, i + 1, AlignUp(hs[i].last)).0 > i + 1 {
      ScanPassed(hs, i + 1, AlignUp(hs[i].last));
    }
  }

  /** Where the scan stops there is a gap, as the code tests it. */
  lemma {:induction false} ScanStops(hs: seq<Handler>, i: nat, from: nat)
    requires i <= |hs|
    ensures var (stop, offset) := Scan(hs, i, from); stop < |hs| ==> Gap(offset, hs[stop].first)
    decreases |hs| - i
  {
    if i < |hs| && !Gap(from, hs[i].first) {
      ScanStops(hs, i + 1, AlignUp(hs[i].last));
    }
  }

  /** The first device from i on that reaches offset or beyond; |hs| if there is none. */
  function Reaching(hs: seq<Handler>, i: nat, offset: nat): (m: nat)
    requires i <= |hs|
    ensures i <= m <= |hs|
    ensures forall j :: i <= j < m ==> hs[j].last < offset
    ensures m < |hs| ==> offset <= hs[m].last
    decreases |hs| - i
  {
    if i == |hs| || offset <= hs[i].last then i else Reaching(hs, i + 1, offset)
  }

  /** The condition under which the window the scan finds is clear: the end of the devices passed has not wrapped around,
      the window ends inside the address space, and the first device that reaches into it or beyond it starts behind it.
      Only one device is looked at. */
  predicate Honest(hs: seq<Handler>) {
    var (stop, offset) := Scan(hs, 0, 0);
    var m := Reaching(hs, stop, offset);
    && (stop > 0 ==> hs[stop - 1].last < WORD - 8)
    && offset + WINDOW <= WORD
    && (m < |hs| ==> offset + WINDOW <= hs[m].first)
  }

  lemma PassedBelow(hs: seq<Handler>, stop: nat)
    requires Sorted(hs) && 0 < stop <= |hs|
    ensures forall j :: 0 <= j < stop ==> hs[j].last <= hs[stop - 1].last
  {
    forall j | 0 <= j < stop
      ensures hs[j].last <= hs[stop - 1].last
    {
      if j < stop - 1 {
        assert hs[j].last < hs[stop - 1].first;
      }
    }
  }

  /** For every list the attach code can hold, the window is clear exactly then. */
  lemma WindowAlways(hs: seq<Handler>)
    requires Sorted(hs)
    ensures Clear(hs, Scan(hs, 0, 0).1) <==> Honest(hs)
  {
    var (stop, offset) := Scan(hs, 0, 0);
    if stop > 0 {
      ScanPassed(hs, 0, 0);
      PassedBelow(hs, stop);
    }
    if stop > 0 && hs[stop - 1].last >= WORD - 8 {
      AlignUpTop(hs[stop - 1].last);
      assert hs[0].first < WINDOW;
      assert !Clear(hs, offset);
    } else {
      if stop > 0 {
        AlignUpValue(hs[stop - 1].last);
      }
      ClearIsReaching(hs, stop, offset);
    }
  }

  lemma ClearIsReaching(hs: seq<Handler>, stop: nat, offset: nat)
    requires Sorted(hs) && stop <= |hs| && offset % 8 == 0 && forall j :: 0 <= j < stop ==> hs[j].last < offset
    ensures var m := Reaching(hs, stop, offset);
            Clear(hs, offset) <==> offset + WINDOW <= WORD && (m < |hs| ==> offset + WINDOW <= hs[m].first)
  {
    var m := Reaching(hs, stop, offset);
    if m < |hs| {
      assert forall j :: m < j < |hs| ==> hs[m].first <= hs[m].last < hs[j].first;
    }
  }

  /** Each device but the last ends below the top of the address space, and the next one does not start in the bytes that
      alignment skips behind it. */
  predicate Spaced(hs: seq<Handler>) {
    forall i {:trigger hs[i]} :: 0 <= i < |hs| - 1 ==> hs[i].last < WORD - 8 && AlignUp(hs[i].last) <= hs[i + 1].first
  }

  lemma AlignedSpaced(hs: seq<Handler>)
    requires Sorted(hs) && Aligned(hs)
    ensures Spaced(hs)
  {
    forall i | 0 <= i < |hs| - 1
      ensures hs[i].last < WORD - 8 && AlignUp(hs[i].last) <= hs[i + 1].first
    {
      assert hs[i].last < hs[i + 1].first && hs[i + 1].first % 8 == 0 && hs[i + 1].first < WORD;
      assert hs[i].last < WORD - 8;
      AlignUpValue(hs[i].last);
    }
  }

  /** For spaced devices: the window is clear exactly when there is a gap before some device, or no device at all, or
      the last device ends more than 8 bytes below the top. Otherwise its end wraps around, the scan does not notice, and
      the window covers the devices at the bottom. */
  lemma WindowExact(hs: seq<Handler>)
    requires Sorted(hs) && Spaced(hs) && !NoSpace(hs)
    ensures Clear(hs, Scan(hs, 0, 0).1)
            <==> hs == [] || Scan(hs, 0, 0).0 < |hs| || hs[|hs| - 1].last < WORD - 8
  {
    var (stop, offset) := Scan(hs, 0, 0);
    WindowAlways(hs);
    ScanStops(hs, 0, 0);
    if stop > 0 {
      ScanPassed(hs, 0, 0);
    }
    hide Scan, Clear, AlignUp;
    if stop < |hs| {
      assert stop > 0 ==> hs[stop - 1].last < WORD - 8 && offset <= hs[stop].first;
      TrueGap(hs[stop], offset);
    }
  }

  /** Without wrapping, the gap the code sees is one. */
  lemma TrueGap(h: Handler, from: nat)
    requires Range(h) && from <= h.first && Gap(from, h.first)
    ensures from + WINDOW <= h.first && from + WINDOW <= WORD && from <= h.last
  {
    assert (h.first - from) % WORD == h.first - from;
  }

  /** Devices that start at multiples of 8 are spaced. If they also end more than 8 bytes below the top of the address
      space, the window is clear or there is no room for one. */
  lemma WindowClear(hs: seq<Handler>)
    requires Sorted(hs) && Aligned(hs) && forall j :: 0 <= j < |hs| ==> hs[j].last < WORD - 8
    ensures !NoSpace(hs) ==> Clear(hs, Scan(hs, 0, 0).1)
  {
    AlignedSpaced(hs);
    if !NoSpace(hs) {
      WindowExact(hs);
    }
  }

  /** The distance to the next device is computed in 64 bits without a sign. So a device that starts in the bytes that
      alignment skips always looks far away, the scan stops before it, and if it reaches beyond those bytes the window is
      put over it. */
  lemma GapWraps(hs: seq<Handler>)
    requires Sorted(hs)
    ensures var (stop, offset) := Scan(hs, 0, 0);
            stop < |hs| && hs[stop].first < offset <= hs[stop].last ==> !Clear(hs, offset)
    ensures forall i, from: nat :: 0 <= i < |hs| && hs[i].first < from < WORD - WINDOW ==> Scan(hs, i, from) == (i, from)
  {
    forall i, from: nat | 0 <= i < |hs| && hs[i].first < from < WORD - WINDOW
      ensures Scan(hs, i, from) == (i, from)
    {
      assert (hs[i].first - from) % WORD == hs[i].first - from + WORD;
    }
  }

  /** A place for the window, as the code may choose it: it does not take the very top of the address space. */
  predicate WindowAt(hs: seq<Handler>, offset: nat) {
    Clear(hs, offset) && offset + WINDOW < WORD
  }

  /** Spaced devices, the last of which ends below the top too. */
  predicate Fair(hs: seq<Handler>) {
    Spaced(hs) && (hs != [] ==> hs[|hs| - 1].last < WORD - 8)
  }

  /** No window lies below the place that the scan has reached, and none below the place that it chooses. */
  lemma {:induction false} ScanLowest(hs: seq<Handler>, i: nat, from: nat)
    requires Sorted(hs) && Fair(hs) && i <= |hs| && from == if i == 0 then 0 else AlignUp(hs[i - 1].last)
    requires forall offset: nat :: WindowAt(hs, offset) ==> from <= offset
    ensures forall offset: nat :: WindowAt(hs, offset) ==> Scan(hs, i, from).1 <= offset
    decreases |hs| - i
  {
    if i < |hs| && !Gap(from, hs[i].first) {
      var up := AlignUp(hs[i].last);
      FairStart(hs, i);
      forall offset: nat | WindowAt(hs, offset)
        ensures up <= offset
      {
        StepPast(hs[i], from, offset);
      }
      ScanLowest(hs, i + 1, up);
    }
  }

  lemma FairStart(hs: seq<Handler>, i: nat)
    requires Sorted(hs) && Fair(hs) && i < |hs|
    ensures hs[i].last < WORD - 8 && (i > 0 ==> AlignUp(hs[i - 1].last) <= hs[i].first)
  {
  }

  /** A window behind from that a device leaves no room for before itself lies behind the device. */
  lemma StepPast(h: Handler, from: nat, offset: nat)
    requires Range(h) && h.last < WORD - 8 && from <= h.first && !Gap(from, h.first) && from <= offset && offset % 8 == 0
    requires h.last < offset || offset + WINDOW <= h.first
    ensures AlignUp(h.last) <= offset
  {
    assert (h.first - from) % WORD == h.first - from;
    AlignUpValue(h.last);
  }

  /** For spaced devices below the top: the search fails exactly when there are devices and no window fits, and otherwise
      it finds the lowest window that does. */
  lemma SearchComplete(hs: seq<Handler>)
    requires Sorted(hs) && Fair(hs)
    ensures NoSpace(hs) <==> hs != [] && forall offset: nat :: !WindowAt(hs, offset)
    ensures !NoSpace(hs) ==> WindowAt(hs, Scan(hs, 0, 0).1)
    ensures forall offset: nat :: WindowAt(hs, offset) ==> Scan(hs, 0, 0).1 <= offset
  {
    ScanLowest(hs, 0, 0);
    var offset := Scan(hs, 0, 0).1;
    if NoSpace(hs) {
      assert offset + WINDOW >= WORD;
    } else {
      WindowExact(hs);
      Below(hs);
      assert WindowAt(hs, offset);
    }
  }

  /** When the last device reaches into the last 8 bytes its end wraps around, and the search never fails. */
  lemma TopWraps(hs: seq<Handler>)
    requires Sorted(hs) && hs != [] && hs[|hs| - 1].last >= WORD - 8
    ensures !NoSpace(hs)
  {
    if Scan(hs, 0, 0).0 == |hs| {
      ScanPassed(hs, 0, 0);
      AlignUpTop(hs[|hs| - 1].last);
    }
  }

  /** found tells whether the window can be put anywhere, and offset is the lowest place. */
  ghost predicate Decided(hs: seq<Handler>, found: bool, offset: nat) {
    && (found <==> exists other: nat :: WindowAt(hs, other))
    && (found ==> LowestWindow(hs, offset))
  }

  lemma SearchDecides(hs: seq<Handler>)
    requires Sorted(hs) && hs != []
    ensures Fair(hs) ==> Decided(hs, !NoSpace(hs), Scan(hs, 0, 0).1)
  {
    if Fair(hs) {
      SearchComplete(hs);
    }
    hide NoSpace, Scan, WindowAt, Fair;
  }

  /** The window is put as low as it can be. */
  ghost predicate LowestWindow(hs: seq<Handler>, offset: nat) {
    WindowAt(hs, offset) && forall other: nat :: WindowAt(hs, other) ==> offset <= other
  }

  /** A window that the scan chooses ends below the top. */
  lemma Below(hs: seq<Handler>)
    requires Sorted(hs) && Fair(hs) && !NoSpace(hs)
    ensures Scan(hs, 0, 0).1 + WINDOW < WORD
  {
    var (stop, offset) := Scan(hs, 0, 0);
    if stop < |hs| {
      ScanStops(hs, 0, 0);
      if stop > 0 {
        ScanPassed(hs, 0, 0);
      }
      FairStart(hs, stop);
      TrueGap(hs[stop], offset);
    }
  }

  function Example(pointer: nat, first: nat, last: nat): Handler {
    Handler(pointer, SdbDevice(0, 1, 0, 7, Component(first, last, Product(0, 0, 0, 0, []))), true, true)
  }

  /** For example: one device of four bytes at 0, another that follows it at once. */
  lemma UnalignedWindow()
    ensures var hs := [Example(1, 0, 3), Example(2, 4, 0xFF)];
            Sorted(hs) && !NoSpace(hs) && Scan(hs, 0, 0) == (1, 8) && !Clear(hs, 8)
  {
    var hs := [Example(1, 0, 3), Example(2, 4, 0xFF)];
    assert AlignUp(3) == 8;
    assert !Gap(0, 0);
    assert Scan(hs, 0, 0) == Scan(hs, 1, 8);
    GapWraps(hs);
  }

  /** An aligned device that takes the whole address space gets the window put over its start. */
  lemma AlignedWindow()
    ensures var hs := [Example(1, 0, WORD - 1)];
            Sorted(hs) && Aligned(hs) && !NoSpace(hs) && Scan(hs, 0, 0) == (1, 0) && !Clear(hs, 0)
  {
    var hs := [Example(1, 0, WORD - 1)];
    AlignUpTop(WORD - 1);
    assert !Gap(0, 0);
    assert Scan(hs, 0, 0) == Scan(hs, 1, 0);
  }

  // ---------------------------------------------------------------------------
  // Attaching and detaching
  // ---------------------------------------------------------------------------

  /** The socket's devices. */
  class Map {
    var handlers: seq<Handler>
    var sdbOffset: nat

    predicate Valid()
      reads this
    {
      Sorted(handlers)
    }

    constructor ()
      ensures Valid() && handlers == [] && sdbOffset == 0
    {
      handlers, sdbOffset := [], 0;
    }

    /** Finds the place of a new device, or a device it overlaps. */
    method FindPlace(h: Handler) returns (ok: bool, k: nat)
      requires Valid() && Range(h)
      ensures ok <==> forall i :: 0 <= i < |handlers| ==> !Overlap(h, handlers[i])
      ensures ok ==> k <= |handlers|
      ensures ok ==> forall i :: 0 <= i < k ==> handlers[i].last < h.first
      ensures ok ==> forall i :: k <= i < |handlers| ==> h.last < handlers[i].first
    {
      k := 0;
      while k < |handlers|
        invariant k <= |handlers| && forall i :: 0 <= i < k ==> handlers[i].last < h.first
      {
        if h.first <= handlers[k].last && handlers[k].first <= h.last {
          assert Overlap(h, handlers[k]);
          return false, k;
        }
        if h.first < handlers[k].last {
          break;
        }
        k := k + 1;
      }
      ok := true;
      assert forall i :: k < i < |handlers| ==> handlers[k].last < handlers[i].first;
    }

    /** Looks for a place for the SDB window. */
    method FindWindow() returns (i: nat, from: nat)
      ensures (i, from) == Scan(handlers, 0, 0)
    {
      i, from := 0, 0;
      while i < |handlers|
        invariant i <= |handlers| && Scan(handlers, 0, 0) == Scan(handlers, i, from)
      {
        if (handlers[i].first - from) % WORD >= WINDOW {
          return;
        }
        from := (handlers[i].last + 1) % WORD;
        from := (from + 7) % WORD;
        from := from - from % 8;
        i := i + 1;
      }
    }

    /** eb_socket_attach. Refused without memory, for a reversed range, for too many devices, and exactly when the range
        overlaps a device; and, where the scan can be trusted, exactly when no window is left for the SDB table, which is
        put as low as it can be. When no place is left for the SDB window the code takes the new device out by cutting the list
        where it was put: the devices above it are lost with it. */
    method Attach(h: Handler, granted: bool) returns (status: Status)
      requires Valid() && h.first < WORD && h.last < WORD
      modifies this
      ensures Valid()
      ensures !granted ==> status == OOM
      ensures granted ==>
                var hs := old(handlers);
                if h.first > h.last then status == ADDRESS
                else if |hs| >= LIMIT then status == OOM
                else if exists i :: 0 <= i < |hs| && Overlap(h, hs[i]) then status == ADDRESS
                else exists k :: 0 <= k <= |hs| && Placed(hs, h, k)
                                 && var hs' := hs[..k] + [h] + hs[k..];
                                    && (if NoSpace(hs') then status == ADDRESS && handlers == hs[..k]
                                        else status == OK && handlers == hs' && sdbOffset == Scan(hs', 0, 0).1)
                                    && (Fair(hs') ==> Decided(hs', status == OK, sdbOffset))
      ensures Refused(old(handlers), h, granted) ==> handlers == old(handlers)
      ensures status != OK ==> sdbOffset == old(sdbOffset)
    {
      if !granted {
        return OOM;
      }
      if h.first > h.last {
        return ADDRESS;
      }
      if |handlers| >= LIMIT {
        return OOM;
      }
      var ok, k := FindPlace(h);
      if !ok {
        return ADDRESS;
      }
      ghost var hs := handlers;
      handlers := handlers[..k] + [h] + handlers[k..];
      InsertSorted(hs, k, h);
      PrefixSorted(hs, k);
      assert Placed(hs, h, k);
      SearchDecides(handlers);
      hide Fair, Decided, Sorted;
      var i, from := FindWindow();
      if i == |handlers| && handlers != [] && from > WORD - 1 - WINDOW {
        handlers := handlers[..k];
        assert handlers == hs[..k];
        return ADDRESS;
      }
      sdbOffset := from;
      status := OK;
    }

    /** eb_socket_detach. */
    method Detach(pointer: nat) returns (status: Status)
      requires Valid()
      modifies this`handlers
      ensures Valid()
      ensures status == if exists i :: 0 <= i < |old(handlers)| && old(handlers)[i].pointer == pointer then OK else ADDRESS
      ensures status == ADDRESS ==> handlers == old(handlers)
      ensures status == OK ==> exists i :: 0 <= i < |old(handlers)| && Removed(old(handlers), pointer, i)
                                           && handlers == old(handlers)[..i] + old(handlers)[i + 1..]
      ensures sdbOffset == old(sdbOffset) && (Clear(old(handlers), sdbOffset) ==> Clear(handlers, sdbOffset))
    {
      var i := 0;
      while i < |handlers|
        invariant i <= |handlers| && forall j :: 0 <= j < i ==> handlers[j].pointer != pointer
      {
        if handlers[i].pointer == pointer {
          break;
        }
        i := i + 1;
      }
      if i == |handlers| {
        return ADDRESS;
      }
      RemoveSorted(handlers, i);
      if Clear(handlers, sdbOffset) {
        RemoveClear(handlers, i, sdbOffset);
      }
      assert Removed(handlers, pointer, i);
      handlers := handlers[..i] + handlers[i + 1..];
      status := OK;
    }
  }

  /** k is the place of h: behind the devices below it and before those above. */
  predicate Placed(hs: seq<Handler>, h: Handler, k: nat)
    requires k <= |hs|
  {
    && (forall i :: 0 <= i < k ==> hs[i].last < h.first)
    && (forall i :: k <= i < |hs| ==> h.last < hs[i].first)
  }

  /** The first device with the given pointer. */
  predicate Removed(hs: seq<Handler>, pointer: nat, i: nat)
    requires i < |hs|
  {
    hs[i].pointer == pointer && forall j :: 0 <= j < i ==> hs[j].pointer != pointer
  }

  /** The refusals that come before the list is touched. */
  predicate Refused(hs: seq<Handler>, h: Handler, granted: bool) {
    !granted || h.first > h.last || |hs| >= LIMIT || exists i :: 0 <= i < |hs| && Overlap(h, hs[i])
  }

  lemma RemoveSorted(hs: seq<Handler>, i: nat)
    requires Sorted(hs) && i < |hs|
    ensures Sorted(hs[..i] + hs[i + 1..])
  {
  }

  /** A window that was clear stays clear when a device goes. */
  lemma RemoveClear(hs: seq<Handler>, i: nat, offset: nat)
    requires Clear(hs, offset) && i < |hs|
    ensures Clear(hs[..i] + hs[i + 1..], offset)
  {
  }

  /** A device that leaves no room for the window is refused, and the device above it is lost. */
  lemma AttachLoses()
    ensures var hs, h := [Example(1, 0x18000, WORD - 9)], Example(2, 0x8000, 0x8FFF);
            Sorted(hs) && Range(h) && Placed(hs, h, 0) && NoSpace(hs[..0] + [h] + hs[0..]) && hs[..0] != hs
  {
    var hs, h := [Example(1, 0x18000, WORD - 9)], Example(2, 0x8000, 0x8FFF);
    var all := [h] + hs;
    assert hs[..0] + [h] + hs[0..] == all;
    assert AlignUp(0x8FFF) == 0x9000 && AlignUp(WORD - 9) == WORD - 8;
    assert !Gap(0, 0x8000) && !Gap(0x9000, 0x18000);
    assert Scan(all, 2, WORD - 8) == (2, WORD - 8);
    assert Scan(all, 1, 0x9000) == Scan(all, 2, WORD - 8);
    assert Scan(all, 0, 0) == Scan(all, 1, 0x9000);
  }

  /** Taking a device out again by cutting the list restores it exactly when no device lies above the new one. */
  lemma CutRestores(hs: seq<Handler>, h: Handler, k: nat)
    requires Sorted(hs) && k <= |hs| && Placed(hs, h, k) && Range(h)
    ensures hs[..k] == hs <==> forall i :: 0 <= i < |hs| ==> hs[i].last < h.first
  {
    if k < |hs| {
      assert Range(hs[k]) && h.last < hs[k].first;
      assert |hs[..k]| < |hs|;
    } else {
      assert hs[..k] == hs;
    }
  }
}
