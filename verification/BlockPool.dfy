// The fixed-block pool allocator of d4np/mem/pool.c over byte-addressed memory: the free-list
// pointers live inside the free slots, eight bytes each, little-endian.
module BlockPool {
  import opened Common
  import opened Words

  const POINTER_SIZE: nat := 8
  const MAX_ALIGN: nat := 16
  const NULL: nat := 0

  // ---- sizes -------------------------------------------------------------------------------------

  // The slot must hold a free-list pointer.
  function SlotSize(blockSize: nat): nat {
    if blockSize < POINTER_SIZE then POINTER_SIZE else blockSize
  }

  // The slot stride in unbounded arithmetic.
  function TrueStride(blockSize: nat): nat {
    Rounded(SlotSize(blockSize), MAX_ALIGN)
  }

  // The stride is the least multiple of 16 that holds a block and a free-list pointer of 8 bytes.
  lemma StrideIsLeast(blockSize: nat, k: nat)
    ensures TrueStride(blockSize) >= blockSize && TrueStride(blockSize) >= 8 && TrueStride(blockSize) % 16 == 0
    ensures 16 * k >= blockSize && 16 * k >= 8 ==> 16 * k >= TrueStride(blockSize)
  {
    RoundedIsLeast(SlotSize(blockSize), MAX_ALIGN);
  }

  // The size computation of init: OVERFLOW exactly when the true total does not fit 64 bits.
  method InitSizes(blockSize: nat, blockCount: nat, gotMemory: bool) returns (status: Status, stride: nat, total: nat)
    requires blockSize < WORD && blockCount < WORD
    ensures status == INVALID_ARGUMENT <==> blockSize == 0 || blockCount == 0
    ensures status == OVERFLOW <==> blockSize > 0 && blockCount > 0 && TrueStride(blockSize) * blockCount >= WORD
    ensures status == OUT_OF_MEMORY <==>
            blockSize > 0 && blockCount > 0 && TrueStride(blockSize) * blockCount < WORD && !gotMemory
    ensures status == OK ==> stride == TrueStride(blockSize) && total == stride * blockCount < WORD
  {
    stride, total := 0, 0;
    if blockSize == 0 || blockCount == 0 {
      return INVALID_ARGUMENT, stride, total;
    }
    var slot := SlotSize(blockSize);
    assert Pow2(4) == MAX_ALIGN;
    RoundUpExact(slot, 4);
    RoundedIsLeast(slot, MAX_ALIGN);
    stride := RoundUp(slot, MAX_ALIGN);
    if stride < slot {
      MulAtLeast(blockCount, TrueStride(blockSize));
      return OVERFLOW, stride, total;
    }
    OverflowExact(blockCount, stride);
    if stride != 0 && blockCount > WORD_MAX / stride {
      return OVERFLOW, stride, total;
    }
    total := stride * blockCount;
    status := if gotMemory then OK else OUT_OF_MEMORY;
  }

  // ---- pointers in memory ------------------------------------------------------------------------------

  function ToBytes(x: nat, n: nat): (b: seq<Byte>)
    ensures |b| == n
  {
    if n == 0 then [] else [(x % 256) as Byte] + ToBytes(x / 256, n - 1)
  }

  function FromBytes(b: seq<Byte>): nat {
    if b == [] then 0 else b[0] as nat + 256 * FromBytes(b[1..])
  }

  lemma {:induction false} BytesRoundTrip(x: nat, n: nat)
    requires x < Pow2(8 * n)
    ensures FromBytes(ToBytes(x, n)) == x
    decreases n
  {
    if n == 0 {
    } else {
      var q := Pow2(8 * (n - 1));
      Pow2Eight(8 * (n - 1));
      assert x / 256 < q;
      BytesRoundTrip(x / 256, n - 1);
      assert ToBytes(x, n)[1..] == ToBytes(x / 256, n - 1);
    }
  }

  lemma Pow2Eight(k: nat)
    ensures Pow2(k + 8) == 256 * Pow2(k)
  {
    assert Pow2(k + 2) == 4 * Pow2(k);
    assert Pow2(k + 4) == 4 * Pow2(k + 2);
    assert Pow2(k + 6) == 4 * Pow2(k + 4);
    assert Pow2(k + 8) == 4 * Pow2(k + 6);
  }

  function Load(mem: seq<Byte>, at: nat): nat
    requires at + POINTER_SIZE <= |mem|
  {
    FromBytes(mem[at..at + POINTER_SIZE])
  }

  function Store(mem: seq<Byte>, at: nat, x: nat): (m: seq<Byte>)
    requires at + POINTER_SIZE <= |mem|
    ensures |m| == |mem|
  {
    mem[..at] + ToBytes(x, POINTER_SIZE) + mem[at + POINTER_SIZE..]
  }

  lemma LoadStore(mem: seq<Byte>, at: nat, x: nat)
    requires at + POINTER_SIZE <= |mem| && x < WORD
    ensures Load(Store(mem, at, x), at) == x
  {
    Pow2Word();
    BytesRoundTrip(x, 8);
    assert Store(mem, at, x)[at..at + POINTER_SIZE] == ToBytes(x, POINTER_SIZE);
  }

  // Memory outside [lo, hi) is the same, so pointers stored there are too.
  predicate SameOutside(m: seq<Byte>, m': seq<Byte>, lo: nat, hi: nat) {
    |m| == |m'| && forall k :: 0 <= k < |m| && !(lo <= k < hi) ==> m'[k] == m[k]
  }

  lemma LoadFrame(m: seq<Byte>, m': seq<Byte>, lo: nat, hi: nat, at: nat)
    requires SameOutside(m, m', lo, hi) && at + POINTER_SIZE <= |m|
    requires at + POINTER_SIZE <= lo || hi <= at
    ensures Load(m', at) == Load(m, at)
  {
    assert m'[at..at + POINTER_SIZE] == m[at..at + POINTER_SIZE];
  }

  method StorePointer(mem: array<Byte>, at: nat, x: nat)
    requires at + POINTER_SIZE <= mem.Length
    modifies mem
    ensures mem[..] == Store(old(mem[..]), at, x)
  {
    var bytes := ToBytes(x, POINTER_SIZE);
    forall k | 0 <= k < POINTER_SIZE {
      mem[at + k] := bytes[k];
    }
    assert mem[..] == old(mem[..])[..at] + bytes + old(mem[..])[at + POINTER_SIZE..];
  }

  // ---- slots ---------------------------------------------------------------------------------------

  datatype Geometry = Geometry(base: nat, blockSize: nat, stride: nat, count: nat)

  // A block of `count` slots of `stride` bytes at an aligned, non-NULL address.
  ghost predicate Laid(g: Geometry) {
    && 0 < g.base && g.base % MAX_ALIGN == 0
    && 0 < g.blockSize <= g.stride && POINTER_SIZE <= g.stride && g.stride % MAX_ALIGN == 0
    && g.base + Size(g) <= WORD
  }

  // Where slot `slot` starts inside the block: `slot * stride`.
  function Offset(g: Geometry, slot: nat): nat {
    if slot == 0 then 0 else Offset(g, slot - 1) + g.stride
  }

  function Size(g: Geometry): nat {
    Offset(g, g.count)
  }

  lemma {:induction false} OffsetIsProduct(g: Geometry, slot: nat)
    ensures Offset(g, slot) == slot * g.stride
    decreases slot
  {
    if slot == 0 {
    } else {
      OffsetIsProduct(g, slot - 1);
      assert slot * g.stride == (slot - 1) * g.stride + g.stride;
    }
  }

  // Distinct slots do not overlap.
  lemma {:induction false} SlotsApart(g: Geometry, i: nat, j: nat)
    requires i < j
    ensures Offset(g, i) + g.stride <= Offset(g, j)
    decreases j
  {
    if i + 1 == j {
    } else {
      SlotsApart(g, i, j - 1);
    }
  }

  function Addr(g: Geometry, slot: nat): nat {
    g.base + Offset(g, slot)
  }

  // What the owner of a block at `ptr` relies on: it is aligned, not NULL, inside the memory of the
  // pool and on a slot boundary.
  ghost predicate Placed(g: Geometry, ptr: nat) {
    && ptr != NULL && ptr % MAX_ALIGN == 0
    && g.base <= ptr && ptr + g.blockSize <= g.base + Size(g)
    && g.stride > 0 && (ptr - g.base) % g.stride == 0
  }

  // The bytes of the blocks at `p` and `q` are disjoint.
  predicate Apart(g: Geometry, p: nat, q: nat) {
    p + g.blockSize <= q || q + g.blockSize <= p
  }

  lemma SlotPlacement(g: Geometry, i: nat)
    requires Laid(g) && i < g.count
    ensures Placed(g, Addr(g, i))
  {
    SlotsApart(g, i, g.count);
    OffsetIsProduct(g, i);
    DivModUnique(i * g.stride, g.stride, i, 0);
    MultipleOfAlign(g.base, i, g.stride);
  }

  lemma SlotsDisjoint(g: Geometry, i: nat, j: nat)
    requires Laid(g)
    ensures Apart(g, Addr(g, i), Addr(g, j)) <==> i != j
  {
    if i < j {
      SlotsApart(g, i, j);
    } else if j < i {
      SlotsApart(g, j, i);
    }
  }

  lemma MultipleOfAlign(base: nat, i: nat, stride: nat)
    requires base % MAX_ALIGN == 0 && stride % MAX_ALIGN == 0
    ensures (base + i * stride) % MAX_ALIGN == 0
  {
    var b, q := base / MAX_ALIGN, stride / MAX_ALIGN;
    assert i * stride == (i * q) * MAX_ALIGN;
    DivModUnique(base + i * stride, MAX_ALIGN, b + i * q, 0);
  }

  // The sizes init computes, at any aligned non-NULL address the allocator may return, are laid out
  // as a block.
  lemma InitIsLaid(base: nat, blockSize: nat, blockCount: nat)
    requires blockSize > 0 && base > 0 && base % MAX_ALIGN == 0
    requires base + TrueStride(blockSize) * blockCount <= WORD
    ensures Laid(Geometry(base, blockSize, TrueStride(blockSize), blockCount))
  {
    RoundedIsLeast(SlotSize(blockSize), MAX_ALIGN);
    OffsetIsProduct(Geometry(base, blockSize, TrueStride(blockSize), blockCount), blockCount);
  }

  // ---- the free list --------------------------------------------------------------------------------

  // The address of the `i`-th slot on the list, NULL past its end.
  function ListAddr(g: Geometry, order: seq<nat>, i: nat): nat {
    if i < |order| then Addr(g, order[i]) else NULL
  }

  // `order` is the free list from `head`: acyclic, each slot's first bytes pointing at the next.
  ghost predicate FreeList(g: Geometry, mem: seq<Byte>, head: nat, order: seq<nat>) {
    && |mem| == Size(g)
    && head == ListAddr(g, order, 0)
    && (forall i :: 0 <= i < |order| ==> order[i] < g.count)
    && (forall i, j :: 0 <= i < j < |order| ==> order[i] != order[j])
    && (forall i :: 0 <= i < |order| ==> LinkAt(g, mem, order, i))
  }

  // The `i`-th slot of the list points at the next one.
  ghost predicate LinkAt(g: Geometry, mem: seq<Byte>, order: seq<nat>, i: nat) {
    i < |order| && LinkIs(g, mem, order[i], ListAddr(g, order, i + 1))
  }

  ghost predicate LinkIs(g: Geometry, mem: seq<Byte>, slot: nat, target: nat) {
    Offset(g, slot) + POINTER_SIZE <= |mem| && Load(mem, Offset(g, slot)) == target
  }

  // Free and live slots partition the block.
  ghost predicate Partition(g: Geometry, order: seq<nat>, live: set<nat>) {
    && (forall s: nat :: s < g.count ==> (s in live <==> s !in order))
    && (forall s :: s in live ==> s < g.count)
  }

  // Changing the bytes of one slot keeps the links of all others.
  lemma LinkFrame(g: Geometry, mem: seq<Byte>, mem': seq<Byte>, slot: nat, other: nat, target: nat)
    requires Laid(g) && slot < g.count && other < g.count && slot != other
    requires SameOutside(mem, mem', Offset(g, slot), Offset(g, slot) + g.stride)
    requires |mem| == Size(g) && LinkIs(g, mem, other, target)
    ensures LinkIs(g, mem', other, target)
  {
    if slot < other {
      SlotsApart(g, slot, other);
    } else {
      SlotsApart(g, other, slot);
    }
    LoadFrame(mem, mem', Offset(g, slot), Offset(g, slot) + g.stride, Offset(g, other));
  }

  // Arbitrary writes into a slot that is not on the list never disturb the list.
  lemma WriteKeepsList(g: Geometry, mem: seq<Byte>, mem': seq<Byte>, head: nat, order: seq<nat>, slot: nat)
    requires Laid(g) && FreeList(g, mem, head, order) && slot < g.count && slot !in order
    requires SameOutside(mem, mem', Offset(g, slot), Offset(g, slot) + g.stride)
    ensures FreeList(g, mem', head, order)
  {
    forall i | 0 <= i < |order|
      ensures LinkAt(g, mem', order, i)
    {
      assert LinkAt(g, mem, order, i);
      LinkFrame(g, mem, mem', slot, order[i], ListAddr(g, order, i + 1));
    }
  }

  // Taking the head slot off the list leaves the list of its link.
  lemma PopKeepsList(g: Geometry, mem: seq<Byte>, head: nat, order: seq<nat>)
    requires Laid(g) && FreeList(g, mem, head, order) && order != []
    ensures LinkIs(g, mem, order[0], ListAddr(g, order, 1))
    ensures FreeList(g, mem, ListAddr(g, order, 1), order[1..])
  {
    var rest := order[1..];
    assert LinkAt(g, mem, order, 0);
    forall i | 0 <= i < |rest|
      ensures LinkAt(g, mem, rest, i)
    {
      assert LinkAt(g, mem, order, i + 1);
    }
  }

  // Storing the old head in a slot off the list and making it the head pushes the slot.
  lemma PushKeepsList(g: Geometry, mem: seq<Byte>, head: nat, order: seq<nat>, slot: nat)
    requires Laid(g) && FreeList(g, mem, head, order) && slot < g.count && slot !in order
    ensures Offset(g, slot) + POINTER_SIZE <= |mem|
    ensures FreeList(g, Store(mem, Offset(g, slot), head), Addr(g, slot), [slot] + order)
  {
    SlotsApart(g, slot, g.count);
    var mem' := Store(mem, Offset(g, slot), head);
    HeadFits(g, order);
    LoadStore(mem, Offset(g, slot), head);
    WriteKeepsList(g, mem, mem', head, order, slot);
    ListCons(g, mem', head, order, slot);
  }

  lemma ListCons(g: Geometry, mem: seq<Byte>, head: nat, order: seq<nat>, slot: nat)
    requires FreeList(g, mem, head, order) && slot < g.count && slot !in order && LinkIs(g, mem, slot, head)
    ensures FreeList(g, mem, Addr(g, slot), [slot] + order)
  {
    var order' := [slot] + order;
    forall i | 0 <= i < |order'|
      ensures LinkAt(g, mem, order', i)
    {
      assert i > 0 ==> LinkAt(g, mem, order, i - 1);
      assert ListAddr(g, order', i + 1) == ListAddr(g, order, i);
    }
  }

  lemma HeadFits(g: Geometry, order: seq<nat>)
    requires Laid(g) && forall i :: 0 <= i < |order| ==> order[i] < g.count
    ensures ListAddr(g, order, 0) < WORD
  {
    if order != [] {
      SlotsApart(g, order[0], g.count);
    }
  }

  // Link a slot that starts at `at` in front of the list.
  method PushSlot(g: Geometry, mem: array<Byte>, at: nat, head: nat, ghost order: seq<nat>, ghost slot: nat)
    requires Laid(g) && FreeList(g, mem[..], head, order) && slot < g.count && slot !in order && at == Offset(g, slot)
    modifies mem
    ensures FreeList(g, mem[..], Addr(g, slot), [slot] + order)
    ensures SameOutside(old(mem[..]), mem[..], at, at + POINTER_SIZE)
  {
    PushKeepsList(g, mem[..], head, order, slot);
    StorePointer(mem, at, head);
  }

  // Follow the link stored in the first slot of the list.
  method NextOf(g: Geometry, mem: array<Byte>, head: nat, ghost order: seq<nat>) returns (next: nat)
    requires Laid(g) && FreeList(g, mem[..], head, order) && order != []
    ensures FreeList(g, mem[..], next, order[1..])
  {
    PopKeepsList(g, mem[..], head, order);
    next := Load(mem[..], head - g.base);
  }

  // `order` lists the slots from `from` on, in address order.
  ghost predicate Ascending(order: seq<nat>, from: nat) {
    forall k :: 0 <= k < |order| ==> order[k] == from + k
  }

  // The threading loop of init: from the last slot down to the first.
  method ThreadFreeList(g: Geometry, mem: array<Byte>) returns (head: nat, ghost order: seq<nat>)
    requires Laid(g) && mem.Length == Size(g)
    modifies mem
    ensures FreeList(g, mem[..], head, order) && |order| == g.count && Ascending(order, 0)
  {
    head, order := NULL, [];
    var i: nat := g.count;
    while i > 0
      invariant i <= g.count && |order| == g.count - i && Ascending(order, i)
      invariant FreeList(g, mem[..], head, order)
    {
      i := i - 1;
      assert i !in order;
      PushSlot(g, mem, Offset(g, i), head, order, i);
      head, order := Addr(g, i), [i] + order;
    }
  }

  lemma AllFree(g: Geometry, order: seq<nat>)
    requires |order| == g.count && Ascending(order, 0)
    ensures Partition(g, order, {})
  {
    forall s: nat | s < g.count
      ensures s in order
    {
      assert order[s] == s;
    }
  }

  lemma {:induction false} BelowCount(s: set<nat>, n: nat)
    requires forall x: nat :: x in s <==> x < n
    ensures |s| == n
  {
    if n > 0 {
      BelowCount(s - {n - 1}, n - 1);
    } else {
      assert s == {};
    }
  }

  // The free list holds exactly the slots that are not live.
  lemma {:induction false} PartitionCount(g: Geometry, order: seq<nat>, live: set<nat>)
    requires Partition(g, order, live)
    requires forall i :: 0 <= i < |order| ==> order[i] < g.count
    requires forall i, j :: 0 <= i < j < |order| ==> order[i] != order[j]
    ensures |order| + |live| == g.count
    decreases |order|
  {
    if order == [] {
      BelowCount(live, g.count);
    } else {
      PartitionPop(g, order, live);
      PartitionCount(g, order[1..], live + {order[0]});
    }
  }

  lemma PartitionPop(g: Geometry, order: seq<nat>, live: set<nat>)
    requires Partition(g, order, live) && order != [] && order[0] < g.count
    requires forall i, j :: 0 <= i < j < |order| ==> order[i] != order[j]
    ensures order[0] !in live && Partition(g, order[1..], live + {order[0]})
  {
    assert order[0] in order;
    assert order == [order[0]] + order[1..];
  }

  lemma PartitionPush(g: Geometry, order: seq<nat>, live: set<nat>, slot: nat)
    requires Partition(g, order, live) && slot in live
    ensures Partition(g, [slot] + order, live - {slot}) && slot < g.count && slot !in order
  {
  }

  // The slot at the head of the list is well placed and apart from every live one.
  lemma HeadPlacement(g: Geometry, order: seq<nat>, live: set<nat>)
    requires Laid(g) && Partition(g, order, live) && (order != [] ==> order[0] < g.count)
    ensures ListAddr(g, order, 0) == NULL <==> order == []
    ensures order != [] ==>
              Placed(g, Addr(g, order[0])) && forall s :: s in live ==> Apart(g, Addr(g, order[0]), Addr(g, s))
  {
    if order != [] {
      SlotPlacement(g, order[0]);
      assert order[0] in order;
      forall s | s in live
        ensures Apart(g, Addr(g, order[0]), Addr(g, s))
      {
        SlotsDisjoint(g, order[0], s);
      }
    }
  }

  class Pool {
    const g: Geometry
    const mem: array<Byte>
    var freeList: nat
    var freeCount: nat
    ghost var order: seq<nat>
    ghost var live: set<nat>

    ghost predicate Valid()
      reads this, mem
    {
      Laid(g) && FreeList(g, mem[..], freeList, order) && Partition(g, order, live) && freeCount == |order|
    }

    // Init after its size computation: one block at address `g.base`, holding arbitrary bytes,
    // with every slot threaded onto the free list in address order.
    constructor (g: Geometry)
      requires Laid(g)
      ensures Valid() && this.g == g && live == {} && freeCount == g.count && fresh(mem)
    {
      this.g := g;
      mem := new Byte[Size(g)];
      freeList, freeCount := NULL, g.count;
      order, live := [], {};
      new;
      freeList, order := ThreadFreeList(g, mem);
      AllFree(g, order);
    }

    // NULL exactly when every slot is live; otherwise a slot that was not, untouched memory.
    method Alloc() returns (ptr: nat)
      requires Valid()
      modifies this
      ensures Valid()
      ensures ptr == NULL <==> |old(live)| == g.count
      ensures ptr == NULL ==> live == old(live) && order == old(order)
      ensures ptr != NULL ==>
                && old(order) != [] && order == old(order)[1..]
                && ptr == Addr(g, old(order)[0]) && old(order)[0] !in old(live) && live == old(live) + {old(order)[0]}
      ensures ptr != NULL ==> Placed(g, ptr) && forall s :: s in old(live) ==> Apart(g, ptr, Addr(g, s))
    {
      PartitionCount(g, order, live);
      HeadPlacement(g, order, live);
      ptr := freeList;
      if freeList != NULL {
        TakeFirst();
      }
    }

    method TakeFirst()
      requires Valid() && order != []
      modifies this
      ensures Valid()
      ensures order == old(order)[1..] && old(order)[0] !in old(live) && live == old(live) + {old(order)[0]}
    {
      ghost var m, rest, more := mem[..], order[1..], live + {order[0]};
      var next := NextOf(g, mem, freeList, order);
      PartitionPop(g, order, live);
      freeList, freeCount, order, live := next, freeCount - 1, rest, more;
      assert mem[..] == m;
    }

    // Returning a live slot pushes it; no byte of another slot changes.  NULL is a no-op.
    method Free(ptr: nat, ghost slot: nat)
      requires Valid() && (ptr == NULL || (slot in live && ptr == Addr(g, slot)))
      modifies this, mem
      ensures Valid()
      ensures ptr == NULL ==> live == old(live) && order == old(order) && mem[..] == old(mem[..])
      ensures ptr != NULL ==> live == old(live) - {slot} && order == [slot] + old(order)
      ensures ptr != NULL ==> SameOutside(old(mem[..]), mem[..], Offset(g, slot), Offset(g, slot) + POINTER_SIZE)
    {
      if ptr != NULL {
        PutBack(ptr, slot);
      }
    }

    method PutBack(ptr: nat, ghost slot: nat)
      requires Valid() && slot in live && ptr == Addr(g, slot)
      modifies this, mem
      ensures Valid()
      ensures live == old(live) - {slot} && order == [slot] + old(order)
      ensures SameOutside(old(mem[..]), mem[..], Offset(g, slot), Offset(g, slot) + POINTER_SIZE)
    {
      ghost var longer, fewer := [slot] + order, live - {slot};
      PartitionPush(g, order, live, slot);
      PushSlot(g, mem, ptr - g.base, freeList, order, slot);
      ghost var m := mem[..];
      freeList, freeCount, order, live := ptr, freeCount + 1, longer, fewer;
      assert mem[..] == m;
    }

    // The client may store anything anywhere inside a live block.
    method ClientWrite(slot: nat, offset: nat, b: Byte)
      requires Valid() && slot in live && offset < g.blockSize
      modifies mem
      ensures Valid()
      ensures Offset(g, slot) + offset < mem.Length && mem[..] == old(mem[..])[Offset(g, slot) + offset := b]
    {
      ghost var before := mem[..];
      SlotsApart(g, slot, g.count);
      mem[Offset(g, slot) + offset] := b;
      WriteKeepsList(g, before, mem[..], freeList, order, slot);
    }

    method Available() returns (n: nat)
      requires Valid()
      ensures n + |live| == g.count
    {
      PartitionCount(g, order, live);
      n := freeCount;
    }
  }

  // What the allocator promises about a block of `total` bytes.
  predicate Usable(block: nat, total: nat) {
    block % MAX_ALIGN == 0 && block + total <= WORD
  }

  // The whole of init; `block` is what the allocator answers, NULL when it has no memory.
  method Init(blockSize: nat, blockCount: nat, block: nat) returns (status: Status, pool: Pool?)
    requires blockSize < WORD && blockCount < WORD
    requires block != NULL && TrueStride(blockSize) * blockCount < WORD ==>
               Usable(block, TrueStride(blockSize) * blockCount)
    ensures status == INVALID_ARGUMENT <==> blockSize == 0 || blockCount == 0
    ensures status == OVERFLOW <==> blockSize > 0 && blockCount > 0 && TrueStride(blockSize) * blockCount >= WORD
    ensures status == OUT_OF_MEMORY <==>
            blockSize > 0 && blockCount > 0 && TrueStride(blockSize) * blockCount < WORD && block == NULL
    ensures status == OK <==> pool != null
    ensures pool != null ==>
              && fresh(pool) && fresh(pool.mem) && pool.Valid()
              && pool.g == Geometry(block, blockSize, TrueStride(blockSize), blockCount)
              && pool.live == {} && pool.freeCount == blockCount
  {
    pool := null;
    var stride, total;
    status, stride, total := InitSizes(blockSize, blockCount, block != NULL);
    if status == OK {
      InitIsLaid(block, blockSize, blockCount);
      pool := new Pool(Geometry(block, blockSize, stride, blockCount));
    }
  }
}
