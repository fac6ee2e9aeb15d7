/** The cell pool: one growing array of union cells, 16-bit handles, and a free list threaded through unused cells. */
module Memory {

  /** EB_NULL, which is also EB_END_OF_FREE. */
  const NULL: nat := 0xFFFF

  /** Handles below this are never handed out: the array starts at this size without any storage. */
  const FIRST: nat := 128

  const FULL: nat := 0x1_0000

  /** A cell holds either the next free handle or an owner's data. */
  datatype Cell<T> = Link(next: nat) | Item(value: T)

  /** The handles an array of the given size can ever hand out. */
  predicate Handle(size: nat, h: nat) {
    FIRST <= h < size && h != NULL
  }

  predicate Doubling(size: nat) {
    size == 128 || size == 256 || size == 512 || size == 1024 || size == 2048 || size == 4096 || size == 8192
    || size == 16384 || size == 32768 || size == 65536
  }

  /** Every handle of the pool, as a set. */
  ghost function Handles(size: nat): (s: set<nat>)
    ensures forall h :: h in s <==> Handle(size, h)
  {
    set h: nat | h < size && Handle(size, h)
  }

  lemma {:induction false} HandleCount(size: nat)
    requires FIRST <= size <= FULL
    ensures |Handles(size)| == (if size == FULL then FULL - FIRST - 1 else size - FIRST)
    decreases size
  {
    if size == FIRST {
      assert Handles(size) == {};
    } else {
      HandleCount(size - 1);
      OneMoreHandle(size - 1);
      hide Handles;
    }
  }

  lemma OneMoreHandle(size: nat)
    requires FIRST <= size
    ensures Handles(size + 1) == if size == NULL then Handles(size) else Handles(size) + {size}
    ensures size !in Handles(size)
  {
  }

  function After(chain: seq<nat>, i: nat): nat {
    if i + 1 < |chain| then chain[i + 1] else NULL
  }

  /** The free list starts at free, follows the links of cells and ends at NULL. */
  predicate Linked<T>(cells: seq<Cell<T>>, free: nat, chain: seq<nat>) {
    && free == (if chain == [] then NULL else chain[0])
    && (forall i :: 0 <= i < |chain| ==> chain[i] < |cells| && chain[i] != NULL)
    && (forall i :: 0 <= i < |chain| ==> cells[chain[i]] == Link(After(chain, i)))
  }

  predicate NoDuplicates(chain: seq<nat>) {
    forall i, j :: 0 <= i < j < |chain| ==> chain[i] != chain[j]
  }

  ghost function Members(s: seq<nat>): (m: set<nat>)
    ensures forall h :: h in m <==> h in s
  {
    set h | h in s
  }

  /** Each handle is on the free list or live, and never both. */
  ghost predicate Partition(size: nat, chain: seq<nat>, live: set<nat>) {
    && NoDuplicates(chain)
    && (forall h :: h in chain ==> h !in live)
    && (forall h :: Handle(size, h) <==> h in chain || h in live)
  }

  /** The handles added by growing from size to next, in order. */
  ghost function NewChain(size: nat, next: nat): (chain: seq<nat>)
    requires size < next
    ensures |chain| == (if next == FULL then next - size - 1 else next - size)
    ensures forall k :: 0 <= k < |chain| ==> chain[k] == size + k
  {
    seq(if next == FULL then next - size - 1 else next - size, k requires 0 <= k => size + k)
  }

  /** Each new cell links to the next one; the link of the last is cut. 16-bit links wrap. */
  method LinkNew<T>(cells: seq<Cell<T>>, size: nat, next: nat) returns (grown: seq<Cell<T>>)
    requires |cells| <= size < next <= FULL
    ensures |grown| == next && grown[..|cells|] == cells
    ensures forall j :: size <= j < next - 1 ==> grown[j] == Link(j + 1)
    ensures grown[next - 1] == Link(NULL)
  {
    grown := cells + seq(next - |cells|, _ => Link(NULL));
    for i := size to next
      invariant |grown| == next && grown[..|cells|] == cells
      invariant forall j :: size <= j < i ==> grown[j] == Link((j + 1) % 0x1_0000)
    {
      grown := grown[i := Link((i + 1) % 0x1_0000)];
    }
    grown := grown[next - 1 := Link(NULL)];
  }

  lemma Grown<T>(cells: seq<Cell<T>>, grown: seq<Cell<T>>, size: nat, next: nat, live: set<nat>)
    requires FIRST <= size < next <= FULL && (next == FULL ==> size < NULL) && Partition(size, [], live)
    requires |grown| == next && grown[next - 1] == Link(NULL)
    requires forall j :: size <= j < next - 1 ==> grown[j] == Link(j + 1)
    ensures Linked(grown, size, NewChain(size, next)) && Partition(next, NewChain(size, next), live)
  {
    var chain := NewChain(size, next);
    forall h: nat | Handle(next, h)
      ensures h in chain || h in live
    {
      if h >= size {
        assert chain[h - size] == h;
      } else {
        assert Handle(size, h);
      }
    }
    forall h | h in chain
      ensures h !in live && Handle(next, h)
    {
      var k :| 0 <= k < |chain| && chain[k] == h;
      assert !Handle(size, h);
    }
    assert forall h :: h in live ==> Handle(size, h);
  }

  class Pool<T> {
    var cells: seq<Cell<T>>
    var size: nat
    var free: nat
    var used: nat
    ghost var chain: seq<nat>
    ghost var live: set<nat>

    ghost predicate Valid()
      reads this
    {
      && Doubling(size) && |cells| == (if size == FIRST then 0 else size)
      && Linked(cells, free, chain) && Partition(size, chain, live)
      && used == |live|
    }

    constructor ()
      ensures Valid() && live == {} && size == FIRST
    {
      cells, size, free, used := [], FIRST, NULL, 0;
      chain, live := [], {};
    }

    /** Doubles the array. granted tells whether the system gave the memory. */
    method Expand(granted: bool) returns (ok: bool)
      requires Valid() && free == NULL
      modifies this
      ensures Valid() && live == old(live) && used == old(used)
      ensures ok <==> granted && old(size) != FULL
      ensures size == if ok then 2 * old(size) else old(size)
      ensures |old(cells)| <= |cells| && cells[..|old(cells)|] == old(cells)
      ensures ok ==> chain != []
    {
      if size == FULL || !granted {
        return false;
      }
      var next := size + size;
      var grown := LinkNew(cells, size, next);
      chain := NewChain(size, next);
      Grown(cells, grown, size, next, live);
      cells, free, size := grown, size, next;
      ok := true;
    }

    /** Allocates a cell; NULL when there is none and the array cannot grow. */
    method New(granted: bool) returns (h: nat)
      requires Valid()
      modifies this
      ensures Valid()
      ensures h == NULL <==> old(chain) == [] && !(granted && old(size) != FULL)
      ensures h == NULL ==> live == old(live)
      ensures h != NULL ==> h !in old(live) && live == old(live) + {h} && Handle(size, h)
      ensures old(size) <= size && forall k | k in old(live) :: k < |old(cells)| && k < |cells| && cells[k] == old(cells[k])
    {
      if free == NULL {
        var ok := Expand(granted);
        if !ok {
          return NULL;
        }
      }
      h := free;
      TakeFirst(cells, size, free, chain, live);
      free := cells[h].next;
      used := used + 1;
      live, chain := live + {h}, chain[1..];
    }

    /** Returns a live cell to the pool. */
    method Free(h: nat)
      requires Valid() && h in live
      modifies this
      ensures Valid() && live == old(live) - {h} && size == old(size)
      ensures |cells| == |old(cells)| && forall k | k in live :: k < |cells| && cells[k] == old(cells[k])
    {
      PutFirst(cells, size, free, chain, live, h);
      cells := cells[h := Link(free)];
      free := h;
      used := used - 1;
      live, chain := live - {h}, [h] + chain;
    }

    /** Fills a live cell. */
    method Write(h: nat, value: T)
      requires Valid() && h in live
      modifies this`cells
      ensures Valid() && cells == old(cells)[h := Item(value)]
    {
      cells := cells[h := Item(value)];
    }
  }

  lemma TakeFirst<T>(cells: seq<Cell<T>>, size: nat, free: nat, chain: seq<nat>, live: set<nat>)
    requires Linked(cells, free, chain) && Partition(size, chain, live) && chain != []
    ensures Handle(size, free) && free < |cells| && cells[free].Link?
    ensures Linked(cells, cells[free].next, chain[1..]) && Partition(size, chain[1..], live + {free})
  {
    assert cells[chain[0]] == Link(After(chain, 0));
    LinkedRest(cells, free, chain);
    PartitionTake(size, chain, live);
  }

  lemma LinkedRest<T>(cells: seq<Cell<T>>, free: nat, chain: seq<nat>)
    requires Linked(cells, free, chain) && chain != []
    ensures Linked(cells, After(chain, 0), chain[1..])
  {
    forall i: nat | i < |chain| - 1
      ensures cells[chain[1..][i]] == Link(After(chain[1..], i))
    {
      assert cells[chain[i + 1]] == Link(After(chain, i + 1));
    }
  }

  lemma PartitionTake(size: nat, chain: seq<nat>, live: set<nat>)
    requires Partition(size, chain, live) && chain != []
    ensures Handle(size, chain[0]) && Partition(size, chain[1..], live + {chain[0]})
  {
    assert chain == [chain[0]] + chain[1..];
    assert chain[0] in chain;
  }

  lemma PutFirst<T>(cells: seq<Cell<T>>, size: nat, free: nat, chain: seq<nat>, live: set<nat>, h: nat)
    requires Linked(cells, free, chain) && Partition(size, chain, live) && h in live && |cells| == size > FIRST
    ensures Linked(cells[h := Link(free)], h, [h] + chain) && Partition(size, [h] + chain, live - {h})
  {
    assert Handle(size, h);
    LinkedCons(cells, free, chain, h);
    PartitionPut(size, chain, live, h);
  }

  lemma LinkedCons<T>(cells: seq<Cell<T>>, free: nat, chain: seq<nat>, h: nat)
    requires Linked(cells, free, chain) && h !in chain && h < |cells| && h != NULL
    ensures Linked(cells[h := Link(free)], h, [h] + chain)
  {
    var chain' := [h] + chain;
    forall i: nat | 0 < i < |chain'|
      ensures cells[h := Link(free)][chain'[i]] == Link(After(chain', i))
    {
      assert chain'[i] == chain[i - 1] && chain[i - 1] in chain && After(chain', i) == After(chain, i - 1);
    }
  }

  lemma PartitionPut(size: nat, chain: seq<nat>, live: set<nat>, h: nat)
    requires Partition(size, chain, live) && h in live
    ensures Partition(size, [h] + chain, live - {h})
  {
    var chain' := [h] + chain;
    assert forall i: nat :: 0 < i < |chain'| ==> chain'[i] == chain[i - 1] && chain[i - 1] in chain;
    assert forall k: nat :: k in chain' <==> k == h || k in chain;
  }

  /** Growing until the limit, allocation fails only when every handle there can be is live: 65407 cells. */
  lemma OnlyWhenFull(size: nat, chain: seq<nat>, live: set<nat>)
    requires Partition(size, chain, live) && chain == [] && size == FULL
    ensures |live| == 65407
  {
    forall h: nat
      ensures h in live <==> h in Handles(FULL)
    {
      assert Handle(FULL, h) <==> h in live;
    }
    assert live == Handles(FULL);
    HandleCount(FULL);
  }

  /** NULL is neither live nor free. */
  lemma NullIsNoHandle(size: nat, chain: seq<nat>, live: set<nat>)
    requires Partition(size, chain, live)
    ensures NULL !in live && NULL !in chain
  {
    assert !Handle(size, NULL);
  }
}
