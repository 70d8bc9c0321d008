// The lock-free single-producer / single-consumer linked queue of
// d4np/concurrency/atomic_queue.c, as interleaved allocation, load, copy, publish and free steps
// over an explicit heap.  The allocator may hand out an address again once it has been freed, and
// fresh memory holds arbitrary bytes.
module AtomicQueue {
  import opened Common

  type Addr = nat

  datatype Node<V> = Node(next: Option<Addr>, data: V)

  // enqueue: allocate, clear the link, copy the element in, link it after `q->tail`, move `q->tail`.
  datatype Producer<V> =
    | PIdle | PFresh(n: Addr, v: V) | PCleared(n: Addr, v: V) | PFilled(n: Addr, v: V) | PLinked(n: Addr)

  // dequeue: load `q->head->next`, copy the element out, move `q->head`, free the old head.
  // `out` says whether the caller passed a buffer.
  datatype Consumer<V> =
    | CIdle | CLoaded(next: Addr, out: bool) | CCopied(next: Addr, out: bool, got: Option<V>) | CMoved(retired: Addr)

  // A completed dequeue: whether the caller passed a buffer, and what was copied into it.
  datatype Delivery<V> = Delivery(out: bool, got: Option<V>)

  // destroy: for each node, load its link, then free it.
  datatype Destroyer = NotStarted | AtNode(cur: Addr) | Loaded(cur: Addr, next: Option<Addr>) | Destroyed

  datatype State<V> = State(
    heap: map<Addr, Node<V>>,
    head: Addr,
    tail: Addr,
    producer: Producer<V>,
    consumer: Consumer<V>,
    destroyer: Destroyer,
    // history: the chain of nodes from head, values published, completed dequeues, allocator calls
    chain: seq<Addr>,
    published: seq<V>,
    delivered: seq<Delivery<V>>,
    allocations: nat,
    frees: nat)

  datatype Event<V> =
    | Allocate(n: Addr, junk: Node<V>, v: V)
    | ClearNext
    | CopyIn
    | Publish
    | MoveTail
    | LoadNext(out: bool)
    | FoundEmpty
    | CopyOut
    | Discard
    | MoveHead
    | FreeOld
    | StartDestroy
    | DestroyLoad
    | DestroyFree

  // Init with its dummy node at address `d`.
  function Initial<V>(d: Addr, junk: V): State<V> {
    State(map[d := Node(None, junk)], d, d, PIdle, CIdle, NotStarted, [d], [], [], 1, 0)
  }

  // The addresses a step reads or writes through a pointer, or hands to free.
  function Touched<V>(s: State<V>, e: Event<V>): set<Addr> {
    match e
    case ClearNext => if s.producer.PFresh? then {s.producer.n} else {}
    case CopyIn => if s.producer.PCleared? then {s.producer.n} else {}
    case Publish => {s.tail}
    case LoadNext(_) => {s.head}
    case FoundEmpty => {s.head}
    case CopyOut => if s.consumer.CLoaded? then {s.consumer.next} else {}
    case FreeOld => if s.consumer.CMoved? then {s.consumer.retired} else {}
    case DestroyLoad => if s.destroyer.AtNode? then {s.destroyer.cur} else {}
    case DestroyFree => if s.destroyer.Loaded? then {s.destroyer.cur} else {}
    case _ => {}
  }

  // Where each role's program counter allows the step, memory safety aside.
  predicate Ready<V>(s: State<V>, e: Event<V>) {
    match e
    case Allocate(n, _, _) => s.destroyer.NotStarted? && s.producer.PIdle? && n !in s.heap
    case ClearNext => s.producer.PFresh?
    case CopyIn => s.producer.PCleared?
    case Publish => s.producer.PFilled?
    case MoveTail => s.producer.PLinked?
    case LoadNext(_) => s.destroyer.NotStarted? && s.consumer.CIdle? && (s.head in s.heap ==> s.heap[s.head].next.Some?)
    case FoundEmpty => s.destroyer.NotStarted? && s.consumer.CIdle? && (s.head in s.heap ==> s.heap[s.head].next.None?)
    case CopyOut => s.consumer.CLoaded? && s.consumer.out
    case Discard => s.consumer.CLoaded? && !s.consumer.out
    case MoveHead => s.consumer.CCopied?
    case FreeOld => s.consumer.CMoved?
    case StartDestroy => s.destroyer.NotStarted? && s.producer.PIdle? && s.consumer.CIdle?
    case DestroyLoad => s.destroyer.AtNode?
    case DestroyFree => s.destroyer.Loaded?
  }

  // Every pointer the step goes through designates live memory.
  predicate Safe<V>(s: State<V>, e: Event<V>) {
    forall a :: a in Touched(s, e) ==> a in s.heap
  }

  function Apply<V>(s: State<V>, e: Event<V>): State<V>
    requires Ready(s, e) && Safe(s, e)
  {
    assert forall a :: a in Touched(s, e) ==> a in s.heap;
    match e
    case Allocate(n, junk, v) =>
      s.(heap := s.heap[n := junk], producer := PFresh(n, v), allocations := s.allocations + 1)
    case ClearNext =>
      var n := s.producer.n;
      assert n in Touched(s, e);
      s.(heap := s.heap[n := s.heap[n].(next := None)], producer := PCleared(n, s.producer.v))
    case CopyIn =>
      var n := s.producer.n;
      assert n in Touched(s, e);
      s.(heap := s.heap[n := s.heap[n].(data := s.producer.v)], producer := PFilled(n, s.producer.v))
    case Publish =>
      var n := s.producer.n;
      assert s.tail in Touched(s, e);
      s.(heap := s.heap[s.tail := s.heap[s.tail].(next := Some(n))], producer := PLinked(n),
         chain := s.chain + [n], published := s.published + [s.producer.v])
    case MoveTail => s.(tail := s.producer.n, producer := PIdle)
    case LoadNext(out) =>
      assert s.head in Touched(s, e);
      s.(consumer := CLoaded(s.heap[s.head].next.value, out))
    case FoundEmpty => s
    case CopyOut =>
      var x := s.consumer.next;
      assert x in Touched(s, e);
      s.(consumer := CCopied(x, s.consumer.out, Some(s.heap[x].data)))
    case Discard => s.(consumer := CCopied(s.consumer.next, s.consumer.out, None))
    case MoveHead =>
      s.(head := s.consumer.next, consumer := CMoved(s.head),
         delivered := s.delivered + [Delivery(s.consumer.out, s.consumer.got)],
         chain := if s.chain == [] then [] else s.chain[1..])
    case FreeOld => s.(heap := s.heap - {s.consumer.retired}, consumer := CIdle, frees := s.frees + 1)
    case StartDestroy => s.(destroyer := AtNode(s.head))
    case DestroyLoad =>
      var c := s.destroyer.cur;
      assert c in Touched(s, e);
      s.(destroyer := Loaded(c, s.heap[c].next))
    case DestroyFree =>
      s.(heap := s.heap - {s.destroyer.cur}, frees := s.frees + 1,
         chain := if s.chain == [] then [] else s.chain[1..],
         destroyer := match s.destroyer.next case None => Destroyed case Some(x) => AtNode(x))
  }

  ghost predicate Run<V>(s: State<V>, es: seq<Event<V>>, t: State<V>)
    decreases |es|
  {
    if es == [] then s == t
    else Ready(s, es[0]) && Safe(s, es[0]) && Run(Apply(s, es[0]), es[1..], t)
  }

  ghost predicate Reachable<V(!new)>(s: State<V>) {
    exists d, junk, es :: Run(Initial(d, junk), es, s)
  }

  // ---- invariant -----------------------------------------------------------------------------

  // The node the producer has allocated but not yet published, if any.
  function Private<V>(s: State<V>): set<Addr> {
    match s.producer
    case PFresh(n, _) => {n}
    case PCleared(n, _) => {n}
    case PFilled(n, _) => {n}
    case _ => {}
  }

  // The node the consumer has unlinked but not yet freed, if any.
  function Retired<V>(s: State<V>): set<Addr> {
    if s.consumer.CMoved? then {s.consumer.retired} else {}
  }

  ghost predicate Distinct(chain: seq<Addr>) {
    forall i, j :: 0 <= i < j < |chain| ==> chain[i] != chain[j]
  }

  // The live heap is exactly the chain, the unpublished node and the retired node, all disjoint.
  ghost predicate Ownership<V>(s: State<V>) {
    && (forall a :: a in s.heap <==> a in s.chain || a in Private(s) || a in Retired(s))
    && (forall a :: a in s.chain ==> a !in Private(s) && a !in Retired(s))
    && Private(s) !! Retired(s)
    && Distinct(s.chain)
  }

  // Along the chain each link leads to the next node and the last link is NULL.
  ghost predicate Linked<V>(heap: map<Addr, Node<V>>, chain: seq<Addr>) {
    && (forall i :: 0 <= i < |chain| ==> chain[i] in heap)
    && (forall i :: 0 <= i < |chain| - 1 ==> heap[chain[i]].next == Some(chain[i + 1]))
    && (chain != [] ==> heap[chain[|chain| - 1]].next == None)
  }

  // The data of every node after the dummy is the oldest undelivered values in order.
  ghost predicate Carries<V>(heap: map<Addr, Node<V>>, chain: seq<Addr>, pending: seq<V>) {
    && |chain| == |pending| + 1
    && forall i :: 0 <= i < |pending| ==> chain[i + 1] in heap && heap[chain[i + 1]].data == pending[i]
  }

  ghost predicate Pointers<V>(s: State<V>) {
    && (s.destroyer.NotStarted? ==> s.chain != [] && s.head == s.chain[0])
    && (s.destroyer.NotStarted? && !s.producer.PLinked? ==> s.tail == s.chain[|s.chain| - 1])
    && (s.producer.PLinked? ==> s.chain != [] && s.producer.n == s.chain[|s.chain| - 1])
    && (s.producer.PCleared? ==> s.producer.n in s.heap && s.heap[s.producer.n].next == None)
    && (s.producer.PFilled? ==> s.producer.n in s.heap && s.heap[s.producer.n] == Node(None, s.producer.v))
    && (s.consumer.CLoaded? || s.consumer.CCopied? ==> |s.chain| >= 2 && s.consumer.next == s.chain[1])
    && (s.consumer.CCopied? ==>
          s.consumer.next in s.heap && Delivers(s.consumer.out, s.consumer.got, s.heap[s.consumer.next].data))
  }

  ghost predicate Destroying<V>(s: State<V>) {
    && (!s.destroyer.NotStarted? ==> s.producer.PIdle? && s.consumer.CIdle?)
    && (s.destroyer.AtNode? || s.destroyer.Loaded? ==> s.chain != [] && s.destroyer.cur == s.chain[0])
    && (s.destroyer.Loaded? ==> s.destroyer.next == (if |s.chain| >= 2 then Some(s.chain[1]) else None))
    && (s.destroyer.Destroyed? ==> s.chain == [])
  }

  // A caller with a buffer gets the value, one without gets nothing.
  ghost predicate Delivers<V>(out: bool, got: Option<V>, v: V) {
    got == if out then Some(v) else None
  }

  ghost predicate Values<V>(s: State<V>) {
    && |s.delivered| <= |s.published|
    && (forall i :: 0 <= i < |s.delivered| ==> Delivers(s.delivered[i].out, s.delivered[i].got, s.published[i]))
    && (s.destroyer.NotStarted? ==> Carries(s.heap, s.chain, s.published[|s.delivered|..]))
  }

  ghost predicate Accounts<V>(s: State<V>) {
    s.allocations == s.frees + |s.heap|
  }

  ghost predicate Inv<V>(s: State<V>) {
    Ownership(s) && Linked(s.heap, s.chain) && Pointers(s) && Destroying(s) && Values(s) && Accounts(s)
  }

  lemma InitialInv<V>(d: Addr, junk: V)
    ensures Inv(Initial(d, junk))
  {
  }

  // No step ever goes through a pointer to freed memory, and the consumer and the destroyer never
  // go through a pointer to the producer's unpublished node.
  lemma InvSafe<V>(s: State<V>, e: Event<V>)
    requires Inv(s) && Ready(s, e)
    ensures Safe(s, e)
    ensures e.LoadNext? || e.FoundEmpty? || e.CopyOut? || e.FreeOld? ==> Touched(s, e) !! Private(s)
    ensures e.ClearNext? || e.CopyIn? || e.Publish? ==> Touched(s, e) !! Retired(s)
  {
  }

  // ---- the chain under the heap operations ------------------------------------------------------

  // Writing or freeing a cell off the chain leaves the chain and its values alone.
  lemma Frame<V>(heap: map<Addr, Node<V>>, heap': map<Addr, Node<V>>, chain: seq<Addr>, pending: seq<V>)
    requires Linked(heap, chain)
    requires forall a :: a in chain ==> a in heap' && heap'[a] == heap[a]
    ensures Linked(heap', chain)
    ensures Carries(heap, chain, pending) ==> Carries(heap', chain, pending)
  {
  }

  lemma MembersTail(chain: seq<Addr>)
    requires chain != [] && Distinct(chain)
    ensures forall a :: a in chain[1..] <==> a in chain && a != chain[0]
    ensures Distinct(chain[1..])
  {
    assert chain == [chain[0]] + chain[1..];
  }

  // Linking a cleared node behind the last one extends the chain by it and appends its value.
  lemma ChainAppend<V>(heap: map<Addr, Node<V>>, chain: seq<Addr>, pending: seq<V>, n: Addr, v: V)
    requires Linked(heap, chain) && Distinct(chain) && chain != []
    requires n !in chain && n in heap && heap[n] == Node(None, v)
    ensures var last := chain[|chain| - 1]; var heap' := heap[last := heap[last].(next := Some(n))];
            Linked(heap', chain + [n]) && Distinct(chain + [n]) &&
            (Carries(heap, chain, pending) ==> Carries(heap', chain + [n], pending + [v]))
  {
  }

  // Dropping the first node drops the oldest value.
  lemma ChainTail<V>(heap: map<Addr, Node<V>>, chain: seq<Addr>, pending: seq<V>)
    requires Linked(heap, chain) && chain != []
    ensures Linked(heap, chain[1..])
    ensures Carries(heap, chain, pending) && pending != [] ==>
              heap[chain[1]].data == pending[0] && Carries(heap, chain[1..], pending[1..])
  {
    var rest := chain[1..];
    assert forall i :: 0 <= i < |rest| ==> rest[i] == chain[i + 1];
  }

  // ---- preservation ----------------------------------------------------------------------------

  lemma StepAllocate<V>(s: State<V>, e: Event<V>)
    requires Inv(s) && Ready(s, e) && e.Allocate?
    ensures Inv(Apply(s, e))
  {
    Frame(s.heap, Apply(s, e).heap, s.chain, s.published[|s.delivered|..]);
  }

  lemma StepFill<V>(s: State<V>, e: Event<V>)
    requires Inv(s) && Ready(s, e) && Safe(s, e)
    requires e.ClearNext? || e.CopyIn?
    ensures Inv(Apply(s, e))
  {
    var t := Apply(s, e);
    assert t.chain == s.chain && t.published == s.published && t.delivered == s.delivered;
    Frame(s.heap, t.heap, s.chain, s.published[|s.delivered|..]);
    assert Private(t) == Private(s) && Retired(t) == Retired(s);
  }

  lemma PublishOwnership<V>(s: State<V>)
    requires Ownership(s) && Ready(s, Publish) && Safe(s, Publish)
    ensures Ownership(Apply(s, Publish))
    ensures Accounts(s) ==> Accounts(Apply(s, Publish))
  {
    var t := Apply(s, Publish);
    assert Private(s) == {s.producer.n} && Private(t) == {} && Retired(t) == Retired(s);
    assert s.tail in Touched(s, Publish);
  }

  lemma PublishValues<V>(s: State<V>)
    requires Inv(s) && Ready(s, Publish) && Safe(s, Publish)
    ensures Linked(Apply(s, Publish).heap, Apply(s, Publish).chain) && Values(Apply(s, Publish))
  {
    var t := Apply(s, Publish);
    var n, v := s.producer.n, s.producer.v;
    var pending := s.published[|s.delivered|..];
    ChainAppend(s.heap, s.chain, pending, n, v);
    assert t.published[|t.delivered|..] == pending + [v];
  }

  lemma PublishPointers<V>(s: State<V>)
    requires Inv(s) && Ready(s, Publish) && Safe(s, Publish)
    ensures Pointers(Apply(s, Publish)) && Destroying(Apply(s, Publish))
  {
    var t := Apply(s, Publish);
    assert t.chain[0] == s.chain[0];
    assert |s.chain| >= 2 ==> t.chain[1] == s.chain[1];
  }

  lemma StepPublish<V>(s: State<V>)
    requires Inv(s) && Ready(s, Publish) && Safe(s, Publish)
    ensures Inv(Apply(s, Publish))
  {
    PublishOwnership(s);
    PublishValues(s);
    PublishPointers(s);
  }

  lemma StepMoveTail<V>(s: State<V>)
    requires Inv(s) && Ready(s, MoveTail)
    ensures Inv(Apply(s, MoveTail))
  {
  }

  lemma StepConsumer<V>(s: State<V>, e: Event<V>)
    requires Inv(s) && Ready(s, e) && Safe(s, e)
    requires e.LoadNext? || e.FoundEmpty? || e.CopyOut? || e.Discard?
    ensures Inv(Apply(s, e))
  {
  }

  lemma MoveHeadOwnership<V>(s: State<V>)
    requires Ownership(s) && Ready(s, MoveHead) && s.chain != [] && s.head == s.chain[0]
    ensures Ownership(Apply(s, MoveHead))
    ensures Accounts(s) ==> Accounts(Apply(s, MoveHead))
  {
    MembersTail(s.chain);
    assert Retired(s) == {} && Retired(Apply(s, MoveHead)) == {s.head};
  }

  lemma MoveHeadValues<V>(s: State<V>)
    requires Inv(s) && Ready(s, MoveHead)
    ensures Linked(Apply(s, MoveHead).heap, Apply(s, MoveHead).chain) && Values(Apply(s, MoveHead))
  {
    var t := Apply(s, MoveHead);
    var pending := s.published[|s.delivered|..];
    ChainTail(s.heap, s.chain, pending);
    assert t.published[|t.delivered|..] == pending[1..];
  }

  lemma StepMoveHead<V>(s: State<V>)
    requires Inv(s) && Ready(s, MoveHead)
    ensures Inv(Apply(s, MoveHead))
  {
    MoveHeadOwnership(s);
    MoveHeadValues(s);
    var t := Apply(s, MoveHead);
    assert t.chain[|t.chain| - 1] == s.chain[|s.chain| - 1];
  }

  lemma StepFreeOld<V>(s: State<V>)
    requires Inv(s) && Ready(s, FreeOld) && Safe(s, FreeOld)
    ensures Inv(Apply(s, FreeOld))
  {
    Frame(s.heap, Apply(s, FreeOld).heap, s.chain, s.published[|s.delivered|..]);
  }

  lemma StepDestroy<V>(s: State<V>, e: Event<V>)
    requires Inv(s) && Ready(s, e) && Safe(s, e)
    requires e.StartDestroy? || e.DestroyLoad?
    ensures Inv(Apply(s, e))
  {
  }

  lemma StepDestroyFree<V>(s: State<V>)
    requires Inv(s) && Ready(s, DestroyFree) && Safe(s, DestroyFree)
    ensures Inv(Apply(s, DestroyFree))
  {
    DestroyFreeOwnership(s);
    var t := Apply(s, DestroyFree);
    ChainTail(s.heap, s.chain, []);
    Frame(s.heap, t.heap, t.chain, []);
    assert Destroying(t);
  }

  lemma DestroyFreeOwnership<V>(s: State<V>)
    requires Ownership(s) && Destroying(s) && Ready(s, DestroyFree)
    requires Accounts(s)
    ensures Ownership(Apply(s, DestroyFree)) && Accounts(Apply(s, DestroyFree))
  {
    MembersTail(s.chain);
    assert Private(s) == {} && Retired(s) == {};
    FreeOneCell(s.heap, s.destroyer.cur);
  }

  lemma FreeOneCell<V>(heap: map<Addr, Node<V>>, a: Addr)
    requires a in heap
    ensures |heap - {a}| == |heap| - 1
  {
    assert (heap - {a}).Keys == heap.Keys - {a};
  }

  lemma StepInv<V>(s: State<V>, e: Event<V>)
    requires Inv(s) && Ready(s, e)
    ensures Safe(s, e) && Inv(Apply(s, e))
  {
    InvSafe(s, e);
    match e
    case Allocate(_, _, _) => StepAllocate(s, e);
    case ClearNext => StepFill(s, e);
    case CopyIn => StepFill(s, e);
    case Publish => StepPublish(s);
    case MoveTail => StepMoveTail(s);
    case MoveHead => StepMoveHead(s);
    case FreeOld => StepFreeOld(s);
    case StartDestroy => StepDestroy(s, e);
    case DestroyLoad => StepDestroy(s, e);
    case DestroyFree => StepDestroyFree(s);
    case _ => StepConsumer(s, e);
  }

  lemma {:induction false} RunInv<V>(s: State<V>, es: seq<Event<V>>, t: State<V>)
    requires Inv(s) && Run(s, es, t)
    ensures Inv(t)
    decreases |es|
  {
    if es == [] {
    } else {
      StepInv(s, es[0]);
      RunInv(Apply(s, es[0]), es[1..], t);
    }
  }

  lemma ReachableInv<V(!new)>(s: State<V>)
    requires Reachable(s)
    ensures Inv(s)
  {
    var d, junk, es :| Run(Initial(d, junk), es, s);
    InitialInv(d, junk);
    RunInv(Initial(d, junk), es, s);
  }

  // ---- theorems over every run --------------------------------------------------------------------

  // Memory safety: in every reachable state, whatever step a role takes next goes only through
  // pointers to live memory, never through the other role's private node, and frees only live nodes.
  lemma NoUseAfterFree<V(!new)>(s: State<V>, e: Event<V>)
    requires Reachable(s) && Ready(s, e)
    ensures forall a :: a in Touched(s, e) ==> a in s.heap
    ensures e.LoadNext? || e.FoundEmpty? || e.CopyOut? || e.FreeOld? ==> Touched(s, e) !! Private(s)
    ensures e.ClearNext? || e.CopyIn? || e.Publish? ==> Touched(s, e) !! Retired(s)
  {
    ReachableInv(s);
    InvSafe(s, e);
  }

  ghost function PendingValues<V>(s: State<V>): seq<V>
    requires Linked(s.heap, s.chain) && s.chain != []
  {
    seq(|s.chain| - 1, i requires 0 <= i < |s.chain| - 1 => s.heap[s.chain[i + 1]].data)
  }

  // Each dequeue with a buffer delivers the value published in its turn, and one without delivers
  // nothing; the nodes after the head hold the values still to come, so an empty answer is given
  // exactly when everything published has been dequeued.
  lemma FifoDelivery<V(!new)>(s: State<V>)
    requires Reachable(s) && s.destroyer.NotStarted?
    ensures Linked(s.heap, s.chain) && s.chain != [] && s.chain[0] == s.head
    ensures |s.published| == |s.delivered| + |PendingValues(s)|
    ensures forall i :: 0 <= i < |s.delivered| ==> Delivers(s.delivered[i].out, s.delivered[i].got, s.published[i])
    ensures s.published[|s.delivered|..] == PendingValues(s)
    ensures s.consumer.CIdle? ==> (Ready(s, FoundEmpty) <==> |s.delivered| == |s.published|)
  {
    ReachableInv(s);
    assert PendingValues(s) == s.published[|s.delivered|..];
    assert |s.chain| > 1 ==> s.heap[s.chain[0]].next == Some(s.chain[1]);
  }

  // Every allocation is matched by exactly one free: the difference is always the live nodes, and
  // after destroy nothing is left.
  lemma EachNodeFreedOnce<V(!new)>(s: State<V>)
    requires Reachable(s)
    ensures s.allocations == s.frees + |s.heap|
    ensures s.destroyer.Destroyed? ==> s.heap == map[] && s.allocations == s.frees
  {
    ReachableInv(s);
    if s.destroyer.Destroyed? {
      assert s.heap.Keys == {};
    }
  }

  // Destroy, once started, frees the whole chain in two steps per node.
  lemma {:induction false} DestroyCompletes<V>(s: State<V>) returns (es: seq<Event<V>>, t: State<V>)
    requires Inv(s) && s.destroyer.AtNode?
    ensures |es| == 2 * |s.chain| && Run(s, es, t)
    ensures t.destroyer.Destroyed? && t.heap == map[] && t.allocations == t.frees
    decreases |s.chain|
  {
    var s2 := DestroyOne(s);
    if s2.destroyer.AtNode? {
      var fs;
      fs, t := DestroyCompletes(s2);
      es := [DestroyLoad, DestroyFree] + fs;
    } else {
      es, t := [DestroyLoad, DestroyFree], s2;
      assert t.heap.Keys == {};
    }
    assert es[1..][1..] == es[2..];
    assert Run(Apply(s, DestroyLoad), es[1..], t);
  }

  lemma DestroyOne<V>(s: State<V>) returns (t: State<V>)
    requires Inv(s) && s.destroyer.AtNode?
    ensures Safe(s, DestroyLoad) && Safe(Apply(s, DestroyLoad), DestroyFree)
    ensures t == Apply(Apply(s, DestroyLoad), DestroyFree) && Inv(t)
    ensures |t.chain| == |s.chain| - 1 && (t.destroyer.AtNode? || t.destroyer.Destroyed?)
  {
    StepInv(s, DestroyLoad);
    StepInv(Apply(s, DestroyLoad), DestroyFree);
    t := Apply(Apply(s, DestroyLoad), DestroyFree);
  }

  lemma {:induction false} RunExtend<V>(s: State<V>, es: seq<Event<V>>, t: State<V>, e: Event<V>)
    requires Run(s, es, t) && Ready(t, e) && Safe(t, e)
    ensures Run(s, es + [e], Apply(t, e))
    decreases |es|
  {
    if es == [] {
      assert Run(Apply(t, e), [], Apply(t, e));
    } else {
      RunExtend(Apply(s, es[0]), es[1..], t, e);
      assert (es + [e])[1..] == es[1..] + [e];
    }
  }

  // Between linking a node and moving `q->tail` the consumer may overtake the producer, so that
  // `q->tail` designates freed memory; `NoUseAfterFree` says it is not followed then.
  lemma TailMayDangle<V(!new)>(v: V)
    ensures exists s: State<V> :: Reachable(s) && s.tail !in s.heap
  {
    var s0 := Initial(0, v);
    var s, es := PublishOne(v);
    RunExtend(s0, es, s, LoadNext(true));
    s, es := Apply(s, LoadNext(true)), es + [LoadNext(true)];
    RunExtend(s0, es, s, CopyOut);
    s, es := Apply(s, CopyOut), es + [CopyOut];
    assert s.tail == 0 && s.consumer == CCopied(1, true, Some(v));
    RetireDummy(s0, es, s);
  }

  lemma RetireDummy<V(!new)>(s0: State<V>, es: seq<Event<V>>, s: State<V>)
    requires Run(s0, es, s) && s.consumer.CCopied? && s.head in s.heap && s.tail == s.head
    ensures exists fs, t :: Run(s0, fs, t) && t.tail !in t.heap
  {
    RunExtend(s0, es, s, MoveHead);
    var t := Apply(s, MoveHead);
    RunExtend(s0, es + [MoveHead], t, FreeOld);
    var u := Apply(t, FreeOld);
    assert u.tail !in u.heap;
  }

  lemma PublishOne<V(!new)>(v: V) returns (s: State<V>, es: seq<Event<V>>)
    ensures Run(Initial(0, v), es, s)
    ensures s.head == 0 && s.tail == 0 && s.producer.PLinked? && s.consumer.CIdle? && s.destroyer.NotStarted?
    ensures s.heap == map[0 := Node(Some(1), v), 1 := Node(None, v)]
  {
    var s0 := Initial(0, v);
    assert Run(s0, [], s0);
    var e1 := Allocate(1, Node(None, v), v);
    RunExtend(s0, [], s0, e1);
    var s1 := Apply(s0, e1);
    RunExtend(s0, [] + [e1], s1, ClearNext);
    var s2 := Apply(s1, ClearNext);
    RunExtend(s0, [] + [e1] + [ClearNext], s2, CopyIn);
    var s3 := Apply(s2, CopyIn);
    RunExtend(s0, [] + [e1] + [ClearNext] + [CopyIn], s3, Publish);
    s, es := Apply(s3, Publish), [] + [e1] + [ClearNext] + [CopyIn] + [Publish];
  }
}
