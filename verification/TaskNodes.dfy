// The memory of the thread pool's task nodes (d4np/concurrency/thread_pool.c): the step system of
// the pool over an explicit heap.  Submit allocates and fills a node before it takes the lock, the
// locked sections link and unlink it, and a worker reads it, runs its task and frees it after
// releasing the lock.  The allocator may hand out an address again once it has been freed.
module TaskNodes {
  import opened Common
  import opened Sums
  import P = ThreadPool

  type Addr = nat

  datatype Node = Node(task: P.Task, next: Option<Addr>)

  // The local variable `node` of a submitter: allocated, filled, or to be freed after a rejection.
  datatype Hand = NoNode | Fresh(n: Addr, task: P.Task) | Filled(n: Addr, task: P.Task) | Refused(n: Addr)

  // The local variable `node` of a worker: claimed, its function being called, or returned.
  datatype Grip = Nothing | Claimed(n: Addr) | Calling(n: Addr, task: P.Task) | Returned(n: Addr)

  datatype Owner = Queue | Submitter(j: nat) | Worker(i: nat)

  datatype State = State(
    pool: P.State,
    heap: map<Addr, Node>,
    qHead: Option<Addr>,
    qTail: Option<Addr>,
    hands: seq<Hand>,
    grips: seq<Grip>,
    // history: the queued nodes in order, who owns each node, allocator calls
    chain: seq<Addr>,
    owner: map<Addr, Owner>,
    allocations: nat,
    frees: nat)

  datatype Event =
    | Allocate(j: nat, n: Addr, junk: Node, task: P.Task)
    | Fill(j: nat)
    | FreeRefused(j: nat)
    | Call(i: nat)
    | FreeRun(i: nat)
    | Pool(step: P.Event)

  function Initial(n: nat, m: nat): State {
    State(P.Initial(n, m), map[], None, None, seq(m, _ => NoNode), seq(n, _ => Nothing), [], map[], 0, 0)
  }

  // Whether the code takes a step of the pool: workers look at the head pointer, everything else is
  // decided by the state of the pool.
  predicate PoolReady(s: State, c: P.Event) {
    match c
    case Enqueue(j, t) => P.Enabled(s.pool, c) && j < |s.hands| && s.hands[j].Filled? && s.hands[j].task == t
    case Reject(j) => P.Enabled(s.pool, c) && j < |s.hands| && s.hands[j].Filled?
    case Acquire(i) => P.Enabled(s.pool, c) && i < |s.grips| && s.grips[i].Nothing?
    case Claim(i) => i < |s.pool.workers| && i < |s.grips| && s.pool.workers[i].Holding? && s.qHead.Some?
    case Exit(i) => i < |s.pool.workers| && s.pool.workers[i].Holding? && s.qHead.None?
    case Finish(i) => P.Enabled(s.pool, c) && i < |s.grips| && s.grips[i].Calling?
    case _ => P.Enabled(s.pool, c)
  }

  predicate Ready(s: State, e: Event) {
    match e
    case Allocate(j, n, _, _) =>
      && !s.pool.phase.Spawning? && n !in s.heap
      && j < |s.hands| && s.hands[j].NoNode? && j < |s.pool.submitters| && s.pool.submitters[j].Ready?
    case Fill(j) => j < |s.hands| && s.hands[j].Fresh?
    case FreeRefused(j) => j < |s.hands| && s.hands[j].Refused?
    case Call(i) => i < |s.grips| && s.grips[i].Claimed?
    case FreeRun(i) => i < |s.grips| && s.grips[i].Returned?
    case Pool(c) => PoolReady(s, c)
  }

  // The addresses a step reads or writes through a pointer, or hands to free.
  function Touched(s: State, e: Event): set<Addr>
    requires Ready(s, e)
  {
    match e
    case Allocate(_, _, _, _) => {}
    case Fill(j) => {s.hands[j].n}
    case FreeRefused(j) => {s.hands[j].n}
    case Call(i) => {s.grips[i].n}
    case FreeRun(i) => {s.grips[i].n}
    case Pool(c) =>
      if c.Enqueue? && s.qTail.Some? then {s.qTail.value}
      else if c.Claim? then {s.qHead.value}
      else if c.Drain? then set a | a in s.chain
      else {}
  }

  // Every pointer the step goes through designates live memory.
  predicate Safe(s: State, e: Event)
    requires Ready(s, e)
  {
    forall a :: a in Touched(s, e) ==> a in s.heap
  }

  // The pool takes its own view of the step when it can.
  function Follow(p: P.State, c: P.Event): P.State {
    if P.Enabled(p, c) then P.Apply(p, c) else p
  }

  function Link(s: State, j: nat): State
    requires j < |s.hands| && s.hands[j].Filled? && (s.qTail.Some? ==> s.qTail.value in s.heap)
  {
    var n := s.hands[j].n;
    s.(heap := if s.qTail.Some? then s.heap[s.qTail.value := s.heap[s.qTail.value].(next := Some(n))] else s.heap,
       qHead := if s.qTail.Some? then s.qHead else Some(n),
       qTail := Some(n),
       hands := s.hands[j := NoNode],
       chain := s.chain + [n],
       owner := s.owner[n := Queue])
  }

  function Unlink(s: State, i: nat): State
    requires i < |s.grips| && s.qHead.Some? && s.qHead.value in s.heap
  {
    var n := s.qHead.value;
    s.(qHead := s.heap[n].next,
       qTail := if s.heap[n].next.None? then None else s.qTail,
       grips := s.grips[i := Claimed(n)],
       chain := if s.chain == [] then [] else s.chain[1..],
       owner := s.owner[n := Worker(i)])
  }

  function Release(s: State, n: Addr): State {
    s.(heap := s.heap - {n}, owner := s.owner - {n}, frees := s.frees + 1)
  }

  function FreeAll(s: State): State {
    var all := set a | a in s.chain;
    s.(heap := s.heap - all, owner := s.owner - all, frees := s.frees + |s.chain|, chain := [],
       qHead := None, qTail := None)
  }

  // The memory effect of a step of the pool.
  function PoolMemory(s: State, c: P.Event): State
    requires PoolReady(s, c) && Safe(s, Pool(c))
  {
    match c
    case Enqueue(j, _) =>
      assert s.qTail.Some? ==> s.qTail.value in Touched(s, Pool(c));
      Link(s, j)
    case Reject(j) => s.(hands := s.hands[j := Refused(s.hands[j].n)])
    case Claim(i) =>
      assert s.qHead.value in Touched(s, Pool(c));
      Unlink(s, i)
    case Finish(i) => s.(grips := s.grips[i := Returned(s.grips[i].n)])
    case Drain => FreeAll(s)
    case _ => s
  }

  function Apply(s: State, e: Event): State
    requires Ready(s, e) && Safe(s, e)
  {
    match e
    case Allocate(j, n, junk, t) =>
      s.(heap := s.heap[n := junk], owner := s.owner[n := Submitter(j)], hands := s.hands[j := Fresh(n, t)],
         allocations := s.allocations + 1)
    case Fill(j) =>
      s.(heap := s.heap[s.hands[j].n := Node(s.hands[j].task, None)],
         hands := s.hands[j := Filled(s.hands[j].n, s.hands[j].task)])
    case FreeRefused(j) => Release(s, s.hands[j].n).(hands := s.hands[j := NoNode])
    case Call(i) =>
      var n := s.grips[i].n;
      assert n in Touched(s, e);
      s.(grips := s.grips[i := Calling(n, s.heap[n].task)])
    case FreeRun(i) => Release(s, s.grips[i].n).(grips := s.grips[i := Nothing])
    case Pool(c) => PoolMemory(s, c).(pool := Follow(s.pool, c))
  }

  ghost predicate Run(s: State, es: seq<Event>, t: State)
    decreases |es|
  {
    if es == [] then s == t
    else Ready(s, es[0]) && Safe(s, es[0]) && Run(Apply(s, es[0]), es[1..], t)
  }

  ghost predicate Reachable(n: nat, m: nat, t: State) {
    n > 0 && exists es :: Run(Initial(n, m), es, t)
  }

  // ---- invariant ----------------------------------------------------------------------------------

  function HandNode(h: Hand): Option<Addr> {
    if h.NoNode? then None else Some(h.n)
  }

  function GripNode(g: Grip): Option<Addr> {
    if g.Nothing? then None else Some(g.n)
  }

  function AddrAt(chain: seq<Addr>, i: nat): Option<Addr> {
    if i < |chain| then Some(chain[i]) else None
  }

  ghost predicate Distinct(chain: seq<Addr>) {
    forall i, j :: 0 <= i < j < |chain| ==> chain[i] != chain[j]
  }

  // The list from the head pointer is `chain`, and it carries `queue`.
  ghost predicate Carries(heap: map<Addr, Node>, chain: seq<Addr>, queue: seq<P.Task>) {
    && |chain| == |queue|
    && forall i :: 0 <= i < |chain| ==> chain[i] in heap && heap[chain[i]] == Node(queue[i], AddrAt(chain, i + 1))
  }

  ghost predicate ListIs(s: State, queue: seq<P.Task>) {
    && Distinct(s.chain) && Carries(s.heap, s.chain, queue)
    && s.qHead == AddrAt(s.chain, 0)
    && s.qTail == (if s.chain == [] then None else Some(s.chain[|s.chain| - 1]))
  }

  ghost predicate Listed(s: State) {
    ListIs(s, s.pool.queue)
  }

  ghost predicate HandOk(s: State, j: nat)
    requires j < |s.hands| && j < |s.pool.submitters|
  {
    var h := s.hands[j];
    && (!h.NoNode? ==> h.n in s.heap && h.n in s.owner && s.owner[h.n] == Submitter(j) && s.pool.submitters[j].Ready?)
    && (h.Filled? ==> s.heap[h.n] == Node(h.task, None))
  }

  // Where a worker is with its node agrees with what the pool believes of it, and the task it reads
  // is the one it claimed.
  ghost predicate GripOk(s: State, i: nat)
    requires i < |s.grips|
  {
    var g := s.grips[i];
    && (!g.Nothing? ==> g.n in s.heap && g.n in s.owner && s.owner[g.n] == Worker(i) && i < |s.pool.workers|)
    && (g.Claimed? ==> Runs(s.pool, i, s.heap[g.n].task))
    && (g.Calling? ==> Runs(s.pool, i, g.task))
    && (g.Returned? ==> s.pool.workers[i].Waiting?)
    && (g.Nothing? && i < |s.pool.workers| ==> !s.pool.workers[i].Running?)
  }

  // Worker `i` runs task `t`, the one the pool recorded for it.
  ghost predicate Runs(p: P.State, i: nat, t: P.Task) {
    i < |p.workers| && p.workers[i].Running? && p.workers[i].id < |p.claimed| && p.claimed[p.workers[i].id] == t
  }

  ghost predicate Locals(s: State) {
    && |s.hands| == |s.pool.submitters| && |s.grips| == s.pool.threadCount
    && (forall j :: 0 <= j < |s.hands| ==> HandOk(s, j))
    && (forall i :: 0 <= i < |s.grips| ==> GripOk(s, i))
  }

  // The owner of a live node has a pointer to it.
  ghost predicate OwnerHolds(s: State, n: Addr)
    requires n in s.owner
  {
    match s.owner[n]
    case Queue => n in s.chain
    case Submitter(j) => j < |s.hands| && HandNode(s.hands[j]) == Some(n)
    case Worker(i) => i < |s.grips| && GripNode(s.grips[i]) == Some(n)
  }

  // Every live node has exactly one owner.
  ghost predicate Owned(s: State) {
    && s.owner.Keys == s.heap.Keys
    && (forall n :: n in s.owner ==> OwnerHolds(s, n))
    && (forall n :: n in s.chain ==> n in s.owner && s.owner[n] == Queue)
  }

  ghost predicate Accounts(s: State) {
    s.allocations == s.frees + |s.heap|
  }

  // The invariant of the memory, given that of the pool.
  ghost predicate Memory(s: State) {
    Listed(s) && Locals(s) && Owned(s) && Accounts(s)
  }

  ghost predicate Inv(s: State) {
    P.Inv(s.pool) && Memory(s)
  }

  lemma InitialInv(n: nat, m: nat)
    requires n > 0
    ensures Inv(Initial(n, m))
  {
    P.InitialInv(n, m);
  }

  // ---- safety and agreement with the pool ------------------------------------------------------------

  // No step goes through a pointer to freed memory, and each node is touched by its owner alone: the
  // nodes of the queue in the locked sections, all others by the thread whose variable points there.
  lemma MemorySafe(s: State, e: Event)
    requires Listed(s) && Locals(s) && Owned(s) && Ready(s, e)
    ensures Safe(s, e)
    ensures forall a :: a in Touched(s, e) ==> a in s.owner && s.owner[a] == Toucher(e)
  {
    if e.Fill? || e.FreeRefused? {
      assert HandOk(s, e.j);
    } else if e.Call? || e.FreeRun? {
      assert GripOk(s, e.i);
    } else if e.Pool? {
      LockedTouches(s, e.step);
    }
  }

  lemma LockedTouches(s: State, c: P.Event)
    requires Listed(s) && PoolReady(s, c)
    ensures forall a :: a in Touched(s, Pool(c)) ==> a in s.chain
  {
  }

  // Whose nodes a step touches.
  function Toucher(e: Event): Owner {
    match e
    case Allocate(j, _, _, _) => Submitter(j)
    case Fill(j) => Submitter(j)
    case FreeRefused(j) => Submitter(j)
    case Call(i) => Worker(i)
    case FreeRun(i) => Worker(i)
    case Pool(_) => Queue
  }

  // The tests the code makes on its pointers are those of the pool on its queue.
  lemma PoolAgrees(s: State, c: P.Event)
    requires Listed(s) && PoolReady(s, c)
    ensures P.Enabled(s.pool, c)
  {
  }

  // ---- preservation ----------------------------------------------------------------------------------

  // Cells off the chain may change.
  lemma CarriesFrame(heap: map<Addr, Node>, heap': map<Addr, Node>, chain: seq<Addr>, queue: seq<P.Task>)
    requires Carries(heap, chain, queue) && forall a :: a in chain ==> a in heap' && heap'[a] == heap[a]
    ensures Carries(heap', chain, queue)
  {
  }

  // The cell at `a`, if any, and its owner are the same in both states.
  ghost predicate SameCell(s: State, t: State, a: Option<Addr>) {
    a.Some? ==>
      && a.value in s.heap && a.value in t.heap && t.heap[a.value] == s.heap[a.value]
      && a.value in s.owner && a.value in t.owner && t.owner[a.value] == s.owner[a.value]
  }

  lemma HandKept(s: State, t: State, j: nat)
    requires j < |s.hands| == |t.hands| && j < |s.pool.submitters| && j < |t.pool.submitters|
    requires HandOk(s, j) && t.hands[j] == s.hands[j] && SameCell(s, t, HandNode(s.hands[j]))
    requires s.hands[j].NoNode? || t.pool.submitters[j] == s.pool.submitters[j]
    ensures HandOk(t, j)
  {
  }

  lemma GripKept(s: State, t: State, i: nat)
    requires i < |s.grips| == |t.grips|
    requires GripOk(s, i) && t.grips[i] == s.grips[i] && SameCell(s, t, GripNode(s.grips[i]))
    requires s.pool.claimed <= t.pool.claimed && |s.pool.workers| <= |t.pool.workers|
    requires if i < |s.pool.workers| && !s.grips[i].Nothing? then t.pool.workers[i] == s.pool.workers[i]
             else i < |t.pool.workers| ==> !t.pool.workers[i].Running?
    ensures GripOk(t, i)
  {
  }

  // A variable that points nowhere but to `n`.
  predicate AtMost(a: Option<Addr>, n: Addr) {
    a == None || a == Some(n)
  }

  // A step about node `n` keeps what every other node's owner has.
  lemma OwnersKept(s: State, t: State, n: Addr)
    requires Owned(s) && |t.hands| == |s.hands| && |t.grips| == |s.grips|
    requires forall k :: 0 <= k < |s.hands| ==> t.hands[k] == s.hands[k] || AtMost(HandNode(s.hands[k]), n)
    requires forall k :: 0 <= k < |s.grips| ==> t.grips[k] == s.grips[k] || AtMost(GripNode(s.grips[k]), n)
    requires forall a :: a in s.chain && a != n ==> a in t.chain
    requires forall a :: a in t.owner && a != n ==> a in s.owner && t.owner[a] == s.owner[a]
    ensures forall a :: a in t.owner && a != n ==> OwnerHolds(t, a)
  {
    forall a | a in t.owner && a != n
      ensures OwnerHolds(t, a)
    {
      assert OwnerHolds(s, a);
    }
  }

  // The node a step of one thread is about.
  function Subject(s: State, e: Event): Addr
    requires Ready(s, e) && !e.Pool?
  {
    match e
    case Allocate(_, n, _, _) => n
    case Fill(j) => s.hands[j].n
    case FreeRefused(j) => s.hands[j].n
    case Call(i) => s.grips[i].n
    case FreeRun(i) => s.grips[i].n
  }

  // A node that is not the queue's is not on its chain.
  lemma OffChain(s: State, n: Addr)
    requires Owned(s) && (n in s.owner ==> s.owner[n] != Queue)
    ensures n !in s.chain
  {
  }

  lemma OwnStepListed(s: State, e: Event)
    requires Listed(s) && Ready(s, e) && Safe(s, e) && !e.Pool? && Subject(s, e) !in s.chain
    ensures Listed(Apply(s, e))
  {
    CarriesFrame(s.heap, Apply(s, e).heap, s.chain, s.pool.queue);
  }

  lemma OwnStepAccounts(s: State, e: Event)
    requires Accounts(s) && Ready(s, e) && Safe(s, e) && !e.Pool?
    ensures Accounts(Apply(s, e))
  {
    var n := Subject(s, e);
    assert !e.Allocate? ==> n in Touched(s, e);
    assert (s.heap - {n}).Keys == s.heap.Keys - {n};
  }

  lemma OwnStepHands(s: State, e: Event)
    requires Memory(s) && Ready(s, e) && Safe(s, e) && !e.Pool?
    ensures forall j :: 0 <= j < |s.hands| ==> HandOk(Apply(s, e), j)
  {
    var t := Apply(s, e);
    MemorySafe(s, e);
    forall j | 0 <= j < |s.hands|
      ensures HandOk(t, j)
    {
      assert HandOk(s, j);
      if t.hands[j] == s.hands[j] {
        HandKept(s, t, j);
      }
    }
  }

  lemma OwnStepGrips(s: State, e: Event)
    requires Memory(s) && Ready(s, e) && Safe(s, e) && !e.Pool?
    ensures forall i :: 0 <= i < |s.grips| ==> GripOk(Apply(s, e), i)
  {
    var t := Apply(s, e);
    MemorySafe(s, e);
    forall i | 0 <= i < |s.grips|
      ensures GripOk(t, i)
    {
      assert GripOk(s, i);
      if t.grips[i] == s.grips[i] {
        GripKept(s, t, i);
      }
    }
  }

  lemma AllocateOwned(s: State, e: Event)
    requires Owned(s) && Ready(s, e) && e.Allocate?
    ensures Owned(Apply(s, e))
  {
    OffChain(s, e.n);
    OwnersKept(s, Apply(s, e), e.n);
  }

  lemma KeepStepOwned(s: State, e: Event)
    requires Owned(s) && Ready(s, e) && Safe(s, e) && (e.Fill? || e.Call?)
    requires Subject(s, e) in s.owner && s.owner[Subject(s, e)] == Toucher(e)
    ensures Owned(Apply(s, e))
  {
    OffChain(s, Subject(s, e));
    OwnersKept(s, Apply(s, e), Subject(s, e));
  }

  lemma FreeStepOwned(s: State, e: Event)
    requires Owned(s) && Ready(s, e) && Safe(s, e) && (e.FreeRefused? || e.FreeRun?)
    requires Subject(s, e) in s.owner && s.owner[Subject(s, e)] == Toucher(e)
    ensures Owned(Apply(s, e))
  {
    OffChain(s, Subject(s, e));
    OwnersKept(s, Apply(s, e), Subject(s, e));
  }

  // A thread's steps on its own node.
  lemma OwnStepMemory(s: State, e: Event)
    requires Memory(s) && Ready(s, e) && Safe(s, e) && !e.Pool?
    ensures Memory(Apply(s, e))
  {
    MemorySafe(s, e);
    assert !e.Allocate? ==> Subject(s, e) in Touched(s, e);
    OffChain(s, Subject(s, e));
    OwnStepListed(s, e);
    OwnStepAccounts(s, e);
    OwnStepHands(s, e);
    OwnStepGrips(s, e);
    if e.FreeRefused? || e.FreeRun? {
      FreeStepOwned(s, e);
    } else if e.Allocate? {
      AllocateOwned(s, e);
    } else {
      KeepStepOwned(s, e);
    }
  }

  // Linking a filled node behind the last one appends its task to the queue.
  lemma CarriesAppend(heap: map<Addr, Node>, chain: seq<Addr>, queue: seq<P.Task>, n: Addr, t: P.Task)
    requires Carries(heap, chain, queue) && Distinct(chain) && n !in chain && n in heap && heap[n] == Node(t, None)
    ensures var heap' := if chain == [] then heap
                         else var last := chain[|chain| - 1]; heap[last := heap[last].(next := Some(n))];
            Carries(heap', chain + [n], queue + [t]) && Distinct(chain + [n])
  {
  }

  lemma LinkListed(s: State, j: nat, queue: seq<P.Task>)
    requires ListIs(s, queue) && j < |s.hands| && s.hands[j].Filled?
    requires s.hands[j].n !in s.chain && s.hands[j].n in s.heap && s.heap[s.hands[j].n] == Node(s.hands[j].task, None)
    ensures ListIs(Link(s, j), queue + [s.hands[j].task]) && Link(s, j).heap.Keys == s.heap.Keys
  {
    CarriesAppend(s.heap, s.chain, queue, s.hands[j].n, s.hands[j].task);
  }

  lemma EnqueueListed(s: State, c: P.Event)
    requires Memory(s) && PoolReady(s, c) && c.Enqueue? && Safe(s, Pool(c))
    ensures Listed(Apply(s, Pool(c))) && Accounts(Apply(s, Pool(c)))
  {
    assert HandOk(s, c.j);
    var t := Apply(s, Pool(c));
    OffChain(s, s.hands[c.j].n);
    LinkListed(s, c.j, s.pool.queue);
    assert |t.heap| == |t.heap.Keys| && |s.heap| == |s.heap.Keys|;
  }

  lemma EnqueueLocals(s: State, c: P.Event)
    requires Memory(s) && PoolReady(s, c) && c.Enqueue? && Safe(s, Pool(c))
    ensures Locals(Apply(s, Pool(c)))
  {
    var t := Apply(s, Pool(c));
    MemorySafe(s, Pool(c));
    assert HandOk(s, c.j);
    forall j | 0 <= j < |s.hands|
      ensures HandOk(t, j)
    {
      assert HandOk(s, j);
      if j != c.j {
        HandKept(s, t, j);
      }
    }
    forall i | 0 <= i < |s.grips|
      ensures GripOk(t, i)
    {
      assert GripOk(s, i);
      GripKept(s, t, i);
    }
  }

  lemma EnqueueOwned(s: State, c: P.Event)
    requires Memory(s) && PoolReady(s, c) && c.Enqueue? && Safe(s, Pool(c))
    ensures Owned(Apply(s, Pool(c)))
  {
    assert HandOk(s, c.j);
    OwnersKept(s, Apply(s, Pool(c)), s.hands[c.j].n);
  }

  // Following the link of the first node leaves the rest of the queue.
  lemma CarriesTail(heap: map<Addr, Node>, chain: seq<Addr>, queue: seq<P.Task>)
    requires Carries(heap, chain, queue) && Distinct(chain) && chain != []
    ensures heap[chain[0]] == Node(queue[0], AddrAt(chain, 1))
    ensures Carries(heap, chain[1..], queue[1..]) && Distinct(chain[1..])
    ensures forall a :: a in chain[1..] <==> a in chain && a != chain[0]
  {
    var rest := chain[1..];
    assert chain == [chain[0]] + rest;
    forall i | 0 <= i < |rest|
      ensures rest[i] in heap && heap[rest[i]] == Node(queue[1..][i], AddrAt(rest, i + 1))
    {
      assert rest[i] == chain[i + 1] && AddrAt(rest, i + 1) == AddrAt(chain, i + 2);
    }
  }

  lemma UnlinkListed(s: State, i: nat, queue: seq<P.Task>)
    requires ListIs(s, queue) && i < |s.grips| && s.chain != []
    ensures ListIs(Unlink(s, i), queue[1..])
  {
    CarriesTail(s.heap, s.chain, queue);
  }

  lemma ClaimListed(s: State, c: P.Event)
    requires Memory(s) && PoolReady(s, c) && c.Claim? && Safe(s, Pool(c))
    ensures Listed(Apply(s, Pool(c))) && Accounts(Apply(s, Pool(c)))
  {
    UnlinkListed(s, c.i, s.pool.queue);
  }

  lemma ClaimLocals(s: State, c: P.Event)
    requires Memory(s) && PoolReady(s, c) && c.Claim? && Safe(s, Pool(c))
    ensures Locals(Apply(s, Pool(c)))
  {
    var t := Apply(s, Pool(c));
    CarriesTail(s.heap, s.chain, s.pool.queue);
    forall j | 0 <= j < |s.hands|
      ensures HandOk(t, j)
    {
      assert HandOk(s, j);
      HandKept(s, t, j);
    }
    forall i | 0 <= i < |s.grips|
      ensures GripOk(t, i)
    {
      assert GripOk(s, i);
      if i != c.i {
        GripKept(s, t, i);
      }
    }
  }

  lemma UnlinkOwned(s: State, i: nat, queue: seq<P.Task>)
    requires ListIs(s, queue) && Owned(s) && i < |s.grips| && s.grips[i].Nothing? && s.chain != []
    ensures Owned(Unlink(s, i))
  {
    CarriesTail(s.heap, s.chain, queue);
    OwnersKept(s, Unlink(s, i), s.chain[0]);
  }

  lemma ClaimOwned(s: State, c: P.Event)
    requires Memory(s) && PoolReady(s, c) && c.Claim? && Safe(s, Pool(c))
    ensures Owned(Apply(s, Pool(c)))
  {
    assert GripOk(s, c.i);
    UnlinkOwned(s, c.i, s.pool.queue);
    OwnedIgnoresPool(Unlink(s, c.i), Apply(s, Pool(c)).pool);
  }

  lemma OwnedIgnoresPool(s: State, p: P.State)
    requires Owned(s)
    ensures Owned(s.(pool := p))
  {
    forall n | n in s.owner
      ensures OwnerHolds(s.(pool := p), n)
    {
      assert OwnerHolds(s, n);
    }
  }

  // Rejecting only moves on in the submitter's own code.
  lemma RejectMemory(s: State, c: P.Event)
    requires Memory(s) && PoolReady(s, c) && c.Reject? && Safe(s, Pool(c))
    ensures Memory(Apply(s, Pool(c)))
  {
    var t := Apply(s, Pool(c));
    var n := s.hands[c.j].n;
    assert HandOk(s, c.j);
    forall j | 0 <= j < |s.hands|
      ensures HandOk(t, j)
    {
      assert HandOk(s, j);
    }
    forall i | 0 <= i < |s.grips|
      ensures GripOk(t, i)
    {
      assert GripOk(s, i);
      GripKept(s, t, i);
    }
    OwnersKept(s, t, n);
    assert OwnerHolds(t, n);
  }

  // ... and so does finishing a task in the worker's.
  lemma FinishMemory(s: State, c: P.Event)
    requires Memory(s) && PoolReady(s, c) && c.Finish? && Safe(s, Pool(c))
    ensures Memory(Apply(s, Pool(c)))
  {
    var t := Apply(s, Pool(c));
    var n := s.grips[c.i].n;
    assert GripOk(s, c.i);
    forall j | 0 <= j < |s.hands|
      ensures HandOk(t, j)
    {
      assert HandOk(s, j);
      HandKept(s, t, j);
    }
    forall i | 0 <= i < |s.grips|
      ensures GripOk(t, i)
    {
      assert GripOk(s, i);
      if i != c.i {
        GripKept(s, t, i);
      }
    }
    OwnersKept(s, t, n);
    assert OwnerHolds(t, n);
  }

  // The other steps of the pool leave the nodes alone.
  lemma QuietStepMemory(s: State, c: P.Event)
    requires Memory(s) && PoolReady(s, c) && Safe(s, Pool(c))
    requires !c.Enqueue? && !c.Reject? && !c.Claim? && !c.Finish? && !c.Drain?
    ensures Memory(Apply(s, Pool(c)))
  {
    var t := Apply(s, Pool(c));
    forall j | 0 <= j < |s.hands|
      ensures HandOk(t, j)
    {
      assert HandOk(s, j);
    }
    forall i | 0 <= i < |s.grips|
      ensures GripOk(t, i)
    {
      assert GripOk(s, i);
    }
    forall n | n in t.owner
      ensures OwnerHolds(t, n)
    {
      assert OwnerHolds(s, n);
    }
  }

  // The drain loop finds no node.
  lemma DrainMemory(s: State, c: P.Event)
    requires Memory(s) && PoolReady(s, c) && c.Drain? && Safe(s, Pool(c)) && s.pool.queue == []
    ensures Memory(Apply(s, Pool(c)))
  {
    var t := Apply(s, Pool(c));
    assert t.heap == s.heap && t.owner == s.owner && t.chain == s.chain == [];
    forall j | 0 <= j < |s.hands|
      ensures HandOk(t, j)
    {
      assert HandOk(s, j);
    }
    forall i | 0 <= i < |s.grips|
      ensures GripOk(t, i)
    {
      assert GripOk(s, i);
    }
    forall n | n in t.owner
      ensures OwnerHolds(t, n)
    {
      assert OwnerHolds(s, n);
    }
  }

  lemma PoolStepMemory(s: State, c: P.Event)
    requires Inv(s) && PoolReady(s, c) && Safe(s, Pool(c))
    ensures Memory(Apply(s, Pool(c)))
  {
    if c.Enqueue? {
      EnqueueListed(s, c);
      EnqueueLocals(s, c);
      EnqueueOwned(s, c);
    } else if c.Claim? {
      ClaimListed(s, c);
      ClaimLocals(s, c);
      ClaimOwned(s, c);
    } else if c.Reject? {
      RejectMemory(s, c);
    } else if c.Finish? {
      FinishMemory(s, c);
    } else if c.Drain? {
      P.DrainFindsNothing(s.pool);
      DrainMemory(s, c);
    } else {
      QuietStepMemory(s, c);
    }
  }

  // Every step the code can take is safe and keeps the invariants of the pool and of its memory.
  lemma StepInv(s: State, e: Event)
    requires Inv(s) && Ready(s, e)
    ensures Safe(s, e) && Inv(Apply(s, e))
  {
    MemorySafe(s, e);
    match e
    case Pool(c) =>
      PoolAgrees(s, c);
      P.StepInv(s.pool, c);
      PoolStepMemory(s, c);
    case _ => OwnStepMemory(s, e);
  }

  lemma PoolRunCons(p: P.State, c: P.Event, ps: seq<P.Event>, q: P.State)
    requires P.Enabled(p, c) && P.Run(P.Apply(p, c), ps, q)
    ensures P.Run(p, [c] + ps, q)
  {
    assert ([c] + ps)[1..] == ps;
  }

  // What a run is for the pool alone.
  function PoolEvents(es: seq<Event>): seq<P.Event> {
    if es == [] then [] else (if es[0].Pool? then [es[0].step] else []) + PoolEvents(es[1..])
  }

  lemma {:induction false} RunProjects(s: State, es: seq<Event>, t: State)
    requires Inv(s) && Run(s, es, t)
    ensures Inv(t) && P.Run(s.pool, PoolEvents(es), t.pool)
    decreases |es|
  {
    if es == [] {
    } else {
      StepInv(s, es[0]);
      RunProjects(Apply(s, es[0]), es[1..], t);
      if es[0].Pool? {
        PoolAgrees(s, es[0].step);
        PoolRunCons(s.pool, es[0].step, PoolEvents(es[1..]), t.pool);
      } else {
        assert PoolEvents(es) == PoolEvents(es[1..]);
      }
    }
  }

  // ---- theorems over every run ------------------------------------------------------------------------

  // With real nodes and pointers the pool does nothing the step system of the pool does not.
  lemma RefinesPool(n: nat, m: nat, s: State)
    requires Reachable(n, m, s)
    ensures P.Reachable(n, m, s.pool) && Memory(s)
  {
    var es :| Run(Initial(n, m), es, s);
    InitialInv(n, m);
    RunProjects(Initial(n, m), es, s);
  }

  lemma ReachableInv(n: nat, m: nat, s: State)
    requires Reachable(n, m, s)
    ensures Inv(s)
  {
    RefinesPool(n, m, s);
    P.ReachableInv(n, m, s.pool);
  }

  // In every reachable state every possible step goes only through pointers to live nodes that
  // belong to the thread that takes it, or to the queue in a locked section.
  lemma NoUseAfterFree(n: nat, m: nat, s: State, e: Event)
    requires Reachable(n, m, s) && Ready(s, e)
    ensures forall a :: a in Touched(s, e) ==> a in s.heap && a in s.owner && s.owner[a] == Toucher(e)
  {
    RefinesPool(n, m, s);
    MemorySafe(s, e);
  }

  // The list from the head pointer is the queue of the pool, and what a worker calls is the accepted
  // task whose number it claimed.
  lemma WorkersRunAcceptedTasks(n: nat, m: nat, s: State, i: nat)
    requires Reachable(n, m, s)
    ensures Carries(s.heap, s.chain, s.pool.queue) && s.qHead == AddrAt(s.chain, 0)
    ensures i < |s.grips| && s.grips[i].Calling? ==>
              i < |s.pool.workers| && s.pool.workers[i].Running? && s.pool.workers[i].id < |s.pool.accepted| &&
              s.grips[i].task == s.pool.accepted[s.pool.workers[i].id]
  {
    RefinesPool(n, m, s);
    P.ClaimedOnceInOrder(n, m, s.pool);
    if i < |s.grips| {
      assert GripOk(s, i);
    }
  }

  lemma ExitedGrips(s: State)
    requires Locals(s) && forall i :: 0 <= i < |s.pool.workers| ==> s.pool.workers[i].Exited?
    ensures forall i :: 0 <= i < |s.grips| ==> s.grips[i].Nothing?
  {
    forall i | 0 <= i < |s.grips|
      ensures s.grips[i].Nothing?
    {
      assert GripOk(s, i);
    }
  }

  // Some submitter has a pointer to the node.
  ghost predicate InSomeHand(s: State, n: Addr) {
    exists j :: 0 <= j < |s.hands| && HandNode(s.hands[j]) == Some(n)
  }

  // Without queued and claimed nodes, every live node is a submitter's.
  lemma OnlyHands(s: State)
    requires Owned(s) && s.chain == [] && forall i :: 0 <= i < |s.grips| ==> s.grips[i].Nothing?
    ensures forall a :: a in s.heap ==> InSomeHand(s, a)
  {
    forall a | a in s.heap
      ensures InSomeHand(s, a)
    {
      assert OwnerHolds(s, a);
    }
  }

  // Each node is freed exactly once: allocations less frees are the live nodes, and when the workers
  // are joined the only ones left are those of submitters on their way to a rejection.
  lemma EachNodeFreedOnce(n: nat, m: nat, s: State)
    requires Reachable(n, m, s)
    ensures s.allocations == s.frees + |s.heap|
    ensures s.pool.phase.Done? ==> forall a :: a in s.heap ==> InSomeHand(s, a)
  {
    RefinesPool(n, m, s);
    if s.pool.phase.Done? {
      P.DestroyFinishesEverything(n, m, s.pool);
      P.ReachableInv(n, m, s.pool);
      ExitedGrips(s);
      OnlyHands(s);
    }
  }

  // ---- every node is freed in the end ------------------------------------------------------------------

  // Everything but a new submission, the start-up and the decision to shut down.
  predicate Ongoing(e: Event) {
    match e
    case Allocate(_, _, _, _) => false
    case Pool(c) => P.Productive(c) || c.Enqueue? || c.Reject?
    case _ => true
  }

  ghost predicate AtRest(s: State) {
    forall e :: Ongoing(e) ==> !Ready(s, e)
  }

  lemma RestingHand(s: State, j: nat)
    requires Locals(s) && !s.pool.phase.Spawning? && AtRest(s) && j < |s.hands|
    ensures s.hands[j].NoNode?
  {
    assert HandOk(s, j);
    match s.hands[j]
    case NoNode =>
    case Fresh(_, _) => assert Ready(s, Fill(j));
    case Filled(_, t) =>
      if s.pool.phase.Serving? {
        assert Ready(s, Pool(P.Enqueue(j, t)));
      } else {
        assert Ready(s, Pool(P.Reject(j)));
      }
    case Refused(_) => assert Ready(s, FreeRefused(j));
  }

  lemma RestingGrip(s: State, i: nat)
    requires Locals(s) && AtRest(s) && i < |s.grips|
    ensures s.grips[i].Nothing?
  {
    assert GripOk(s, i);
    match s.grips[i]
    case Nothing =>
    case Claimed(_) => assert Ready(s, Call(i));
    case Calling(_, _) => assert Ready(s, Pool(P.Finish(i)));
    case Returned(_) => assert Ready(s, FreeRun(i));
  }

  // With no node in a worker's variable, a productive step of the pool is one the code can take.
  lemma ProductiveReady(s: State, c: P.Event)
    requires P.Phased(s.pool) && Memory(s) && P.Productive(c) && P.Enabled(s.pool, c)
    requires forall i :: 0 <= i < |s.grips| ==> s.grips[i].Nothing?
    ensures Ready(s, Pool(c))
  {
    if c.Acquire? || c.Claim? || c.Exit? || c.Finish? {
      assert GripOk(s, c.i);
    }
  }

  lemma RestingState(n: nat, m: nat, s: State)
    requires P.Reachable(n, m, s.pool) && Memory(s) && !s.pool.phase.Spawning? && AtRest(s)
    ensures s.heap == map[] && s.allocations == s.frees && P.AllFinished(s.pool)
    ensures s.pool.phase.Serving? || s.pool.phase.Done?
  {
    forall j | 0 <= j < |s.hands|
      ensures s.hands[j].NoNode?
    {
      RestingHand(s, j);
    }
    forall i | 0 <= i < |s.grips|
      ensures s.grips[i].Nothing?
    {
      RestingGrip(s, i);
    }
    RestingPool(n, m, s);
    OnlyHands(s);
    assert s.heap.Keys == {};
  }

  // The pool never rests on a node: when no step is left but a new submission or the decision to
  // shut down, every node has been freed, every accepted task has finished, and a shutdown is done.
  lemma RestIsClean(n: nat, m: nat, s: State)
    requires Reachable(n, m, s) && !s.pool.phase.Spawning? && AtRest(s)
    ensures s.heap == map[] && s.allocations == s.frees && P.AllFinished(s.pool)
    ensures s.pool.phase.Serving? || s.pool.phase.Done?
  {
    RefinesPool(n, m, s);
    RestingState(n, m, s);
  }

  lemma NothingProductive(s: State)
    requires P.Phased(s.pool) && Memory(s) && AtRest(s) && forall i :: 0 <= i < |s.grips| ==> s.grips[i].Nothing?
    ensures !P.CanProgress(s.pool)
  {
    forall c | P.Productive(c)
      ensures !P.Enabled(s.pool, c)
    {
      assert Ongoing(Pool(c));
      if P.Enabled(s.pool, c) {
        ProductiveReady(s, c);
      }
    }
  }

  lemma RestingPool(n: nat, m: nat, s: State)
    requires Memory(s) && P.Reachable(n, m, s.pool) && !s.pool.phase.Spawning? && AtRest(s)
    requires forall i :: 0 <= i < |s.grips| ==> s.grips[i].Nothing?
    ensures s.pool.queue == [] && P.AllFinished(s.pool) && (s.pool.phase.Serving? || s.pool.phase.Done?)
  {
    P.ReachableInv(n, m, s.pool);
    NothingProductive(s);
    if s.pool.queue != [] || !(s.pool.phase.Serving? || s.pool.phase.Done?) {
      P.Progress(n, m, s.pool);
    } else if s.pool.phase.Serving? {
      P.ServingRestIffFinished(n, m, s.pool);
    } else {
      P.DestroyFinishesEverything(n, m, s.pool);
    }
  }

  // What the node in a variable still costs: a filled one may be queued, which the measure of the
  // pool counts four times, and each unit of that measure may let a worker claim a node.
  function HandWeight(h: Hand): nat {
    match h
    case NoNode => 0
    case Fresh(_, _) => 14
    case Filled(_, _) => 13
    case Refused(_) => 1
  }

  function GripWeight(g: Grip): nat {
    match g
    case Nothing => 0
    case Claimed(_) => 2
    case Calling(_, _) => 1
    case Returned(_) => 1
  }

  function Measure(s: State): nat {
    3 * P.Measure(s.pool) + Sum(s.hands, HandWeight) + Sum(s.grips, GripWeight)
  }

  lemma OwnStepBounded(s: State, e: Event)
    requires Ready(s, e) && Safe(s, e) && !e.Pool?
    ensures if e.Allocate? then Measure(Apply(s, e)) == Measure(s) + 14 else Measure(Apply(s, e)) < Measure(s)
  {
    if e.Call? || e.FreeRun? {
      SumUpdate(s.grips, GripWeight, e.i, Apply(s, e).grips[e.i]);
    } else {
      SumUpdate(s.hands, HandWeight, e.j, Apply(s, e).hands[e.j]);
    }
  }

  // The weights a step of the pool adds to the variables, against what it takes from the pool.
  lemma PoolStepWeights(s: State, c: P.Event)
    requires PoolReady(s, c) && Safe(s, Pool(c)) && (c.Claim? ==> s.grips[c.i].Nothing?)
    ensures var t := Apply(s, Pool(c));
            && Sum(t.grips, GripWeight) == Sum(s.grips, GripWeight) + (if c.Claim? then 2 else 0)
            && Sum(t.hands, HandWeight) ==
               Sum(s.hands, HandWeight) - (if c.Enqueue? then 13 else if c.Reject? then 12 else 0)
  {
    if c.Claim? || c.Finish? {
      SumUpdate(s.grips, GripWeight, c.i, Apply(s, Pool(c)).grips[c.i]);
    } else if c.Enqueue? || c.Reject? {
      SumUpdate(s.hands, HandWeight, c.j, Apply(s, Pool(c)).hands[c.j]);
    }
  }

  lemma PoolStepDecreases(s: State, c: P.Event)
    requires P.Phased(s.pool) && Listed(s) && Locals(s) && !s.pool.phase.Spawning?
    requires PoolReady(s, c) && Safe(s, Pool(c))
    ensures Measure(Apply(s, Pool(c))) < Measure(s) && !Apply(s, Pool(c)).pool.phase.Spawning?
  {
    PoolAgrees(s, c);
    if c.Claim? {
      assert GripOk(s, c.i);
    }
    PoolStepWeights(s, c);
    P.StepBounded(s.pool, c);
    if c.BeginShutdown? {
      P.ShutdownDecreases(s.pool, c);
    }
  }

  function AllocationCount(es: seq<Event>): nat {
    if es == [] then 0 else (if es[0].Allocate? then 1 else 0) + AllocationCount(es[1..])
  }

  // Every schedule is bounded by the state it starts from and the submissions made meanwhile.
  lemma {:induction false} StepsBounded(s: State, es: seq<Event>, t: State)
    requires Inv(s) && !s.pool.phase.Spawning? && Run(s, es, t)
    ensures !t.pool.phase.Spawning? && |es| + Measure(t) <= Measure(s) + 15 * AllocationCount(es)
    decreases |es|
  {
    if es == [] {
    } else {
      StepInv(s, es[0]);
      if es[0].Pool? {
        PoolStepDecreases(s, es[0].step);
      } else {
        OwnStepBounded(s, es[0]);
      }
      StepsBounded(Apply(s, es[0]), es[1..], t);
    }
  }

  // So every node is freed in the end: without new submissions a schedule is bounded, and where it
  // can go no further nothing is left allocated.
  lemma EveryNodeIsFreed(n: nat, m: nat, s: State, es: seq<Event>, t: State)
    requires Reachable(n, m, s) && !s.pool.phase.Spawning? && Run(s, es, t)
    ensures |es| <= Measure(s) + 15 * AllocationCount(es)
    ensures AtRest(t) ==> t.heap == map[] && t.allocations == t.frees && P.AllFinished(t.pool)
  {
    ReachableInv(n, m, s);
    StepsBounded(s, es, t);
    RunRefinesPool(n, m, s, es, t);
    if AtRest(t) {
      RestingState(n, m, t);
    }
  }

  // Later states of a reachable one refine reachable states of the pool as well.
  lemma RunRefinesPool(n: nat, m: nat, s: State, es: seq<Event>, t: State)
    requires Reachable(n, m, s) && Run(s, es, t)
    ensures P.Reachable(n, m, t.pool) && Memory(t)
  {
    ReachableInv(n, m, s);
    RefinesPool(n, m, s);
    RunProjects(s, es, t);
    var ps0 :| P.Run(P.Initial(n, m), ps0, s.pool);
    P.RunConcat(P.Initial(n, m), ps0, s.pool, PoolEvents(es), t.pool);
  }
}
