// The thread pool of d4np/concurrency/thread_pool.c running on the mutex-and-condition-variable
// semaphore of d4np/concurrency/semaphore.c: the two step systems interleaved, with every wait and
// post of the pool spread over the steps of the semaphore code.  The pool changes its permit count
// where the semaphore changes its counter.
module PoolOnSemaphore {
  import opened Common
  import opened Sums
  import opened Words
  import P = ThreadPool
  import S = Semaphore

  // The threads of `sem` are, in this order, the workers, the submitters and the owner, which
  // starts and destroys the pool.
  datatype State = State(pool: P.State, sem: S.State)

  datatype Event = InSemaphore(call: S.Event) | InPool(step: P.Event)

  function Initial(n: nat, m: nat): State {
    State(P.Initial(n, m), S.Initial(n + m + 1, 0))
  }

  function SubmitterThread(p: P.State, j: nat): nat {
    p.threadCount + j
  }

  function OwnerThread(p: P.State): nat {
    p.threadCount + |p.submitters|
  }

  // Workers call wait at the top of their loop, submitters post what they owe, and the owner posts
  // once per worker; nobody calls trywait.
  predicate MayCall(p: P.State, e: S.Event) {
    match e
    case CallWait(i) => i < |p.workers| && p.workers[i].Waiting?
    case CallPost(i) =>
      if i < p.threadCount then false
      else if i < OwnerThread(p) then p.submitters[i - p.threadCount].Owing?
      else i == OwnerThread(p) && p.phase.Posting? && p.phase.posted < |p.workers|
    case CallTry(_) => false
    case _ => true
  }

  predicate Outside(s: State, i: nat) {
    S.At(s.sem, i, S.Idle)
  }

  // A step of the pool proper is taken by a thread that is not inside a semaphore function.
  predicate ActorOutside(s: State, e: P.Event) {
    match e
    case Enqueue(j, _) => Outside(s, SubmitterThread(s.pool, j))
    case Reject(j) => Outside(s, SubmitterThread(s.pool, j))
    case Claim(i) => Outside(s, i)
    case Exit(i) => Outside(s, i)
    case Finish(i) => Outside(s, i)
    case Post(_) => false
    case Acquire(_) => false
    case ShutdownPost => false
    case _ => Outside(s, OwnerThread(s.pool))
  }

  predicate Enabled(s: State, e: Event) {
    match e
    case InSemaphore(c) => S.Enabled(s.sem, c) && MayCall(s.pool, c)
    case InPool(c) =>
      P.Enabled(s.pool, c) && ActorOutside(s, c) && (c.Enqueue? ==> InMemory(s.pool, |s.pool.queue| + 1))
  }

  // A queued task takes a heap node and a worker an entry of the thread array, so together they are
  // fewer than a 64-bit address space has bytes; beyond that submit gets no memory.
  predicate InMemory(p: P.State, queued: nat) {
    queued + p.threadCount < WORD
  }

  // What a step inside the semaphore is for the pool.
  function View(p: P.State, e: S.Event): Option<P.Event> {
    match e
    case TakePermit(i) => Some(P.Acquire(i))
    case Increment(i) =>
      if i == OwnerThread(p) then Some(P.ShutdownPost)
      else if i >= p.threadCount then Some(P.Post(i - p.threadCount))
      else None
    case _ => None
  }

  function Follow(p: P.State, v: Option<P.Event>): P.State {
    if v.Some? && P.Enabled(p, v.value) then P.Apply(p, v.value) else p
  }

  function Apply(s: State, e: Event): State
    requires Enabled(s, e)
  {
    match e
    case InSemaphore(c) => State(Follow(s.pool, View(s.pool, c)), S.Apply(s.sem, c))
    case InPool(c) => s.(pool := P.Apply(s.pool, c))
  }

  ghost predicate Run(s: State, es: seq<Event>, t: State)
    decreases |es|
  {
    if es == [] then s == t else Enabled(s, es[0]) && Run(Apply(s, es[0]), es[1..], t)
  }

  ghost predicate Reachable(n: nat, m: nat, t: State) {
    0 < n < WORD && exists es :: Run(Initial(n, m), es, t)
  }

  // ---- invariant --------------------------------------------------------------------------------

  predicate WorkerFits(p: P.State, i: nat, t: S.Thread) {
    match t
    case Idle => true
    case LeavingWait => i < |p.workers| && p.workers[i].Holding?
    case _ => (t.WantWait? || t.Checking? || t.Sleeping? || t.Woken?) && i < |p.workers| && p.workers[i].Waiting?
  }

  predicate SubmitterFits(b: P.Submitter, t: S.Thread) {
    t.Idle? || ((t.WantPost? || t.Adding?) && b.Owing?) || (S.Posted(t) && b.Ready?)
  }

  predicate OwnerFits(p: P.State, t: S.Thread) {
    || t.Idle?
    || ((t.WantPost? || t.Adding?) && p.phase.Posting? && p.phase.posted < |p.workers|)
    || (S.Posted(t) && p.phase.Posting?)
  }

  // Where thread `i` is inside the semaphore agrees with what the pool believes of it.
  predicate Fits(p: P.State, i: nat, t: S.Thread) {
    if i < p.threadCount then WorkerFits(p, i, t)
    else if i < OwnerThread(p) then SubmitterFits(p.submitters[i - p.threadCount], t)
    else OwnerFits(p, t)
  }

  predicate Coupled(s: State) {
    && s.sem.count == s.pool.permits
    && |s.sem.threads| == OwnerThread(s.pool) + 1
    && forall i :: 0 <= i < |s.sem.threads| ==> Fits(s.pool, i, s.sem.threads[i])
  }

  ghost predicate Inv(s: State) {
    P.Inv(s.pool) && S.Inv(s.sem) && Coupled(s) && InMemory(s.pool, |s.pool.queue|)
  }

  lemma InitialInv(n: nat, m: nat)
    requires 0 < n < WORD
    ensures Inv(Initial(n, m))
  {
    P.InitialInv(n, m);
    S.InitialInv(n + m + 1, 0);
  }

  // The ledger bounds the permits by the queued tasks and the workers, so no post wraps.
  lemma IncrementFits(s: State, i: nat)
    requires Inv(s) && S.Enabled(s.sem, S.Increment(i))
    ensures s.sem.count < WORD_MAX
    ensures View(s.pool, S.Increment(i)).Some? && P.Enabled(s.pool, View(s.pool, S.Increment(i)).value)
  {
    var p := s.pool;
    assert Fits(p, i, s.sem.threads[i]);
    if i < OwnerThread(p) {
      SumMember(p.submitters, P.OwingWeight, i - p.threadCount);
    }
  }

  lemma TakeFits(s: State, i: nat)
    requires Inv(s) && S.Enabled(s.sem, S.TakePermit(i))
    ensures P.Enabled(s.pool, P.Acquire(i))
  {
    assert Fits(s.pool, i, s.sem.threads[i]);
  }

  // Whatever the semaphore does to its counter, the pool can follow.
  lemma ViewEnabled(s: State, e: S.Event)
    requires Inv(s) && S.Enabled(s.sem, e)
    ensures View(s.pool, e).Some? ==> P.Enabled(s.pool, View(s.pool, e).value)
  {
    match e
    case TakePermit(i) => TakeFits(s, i);
    case Increment(i) => IncrementFits(s, i);
    case _ =>
  }

  // A worker's or a submitter's own step of the pool changes nothing that other threads rely on.
  lemma MemberStepCoupled(s: State, e: P.Event)
    requires Inv(s) && Enabled(s, InPool(e))
    requires e.Claim? || e.Exit? || e.Finish? || e.Enqueue? || e.Reject?
    ensures Coupled(Apply(s, InPool(e)))
  {
    var t := Apply(s, InPool(e));
    forall i | 0 <= i < |t.sem.threads|
      ensures Fits(t.pool, i, t.sem.threads[i])
    {
      assert Fits(s.pool, i, s.sem.threads[i]);
    }
  }

  // The owner's steps change the phase, and spawning gives an idle thread its worker.
  lemma OwnerStepCoupled(s: State, e: P.Event)
    requires Inv(s) && Enabled(s, InPool(e))
    requires !e.Claim? && !e.Exit? && !e.Finish? && !e.Enqueue? && !e.Reject?
    ensures Coupled(Apply(s, InPool(e)))
  {
    var t := Apply(s, InPool(e));
    forall i | 0 <= i < |t.sem.threads|
      ensures Fits(t.pool, i, t.sem.threads[i])
    {
      assert Fits(s.pool, i, s.sem.threads[i]);
    }
  }

  // A step that leaves the counter alone moves one thread, and a signal wakes waiting workers.
  lemma QuietStepCoupled(s: State, e: S.Event)
    requires Inv(s) && Enabled(s, InSemaphore(e)) && !e.TakePermit? && !e.Increment?
    ensures Coupled(Apply(s, InSemaphore(e)))
  {
    var t := Apply(s, InSemaphore(e));
    assert Fits(s.pool, e.i, s.sem.threads[e.i]);
    forall i | 0 <= i < |t.sem.threads|
      ensures Fits(t.pool, i, t.sem.threads[i])
    {
      assert Fits(s.pool, i, s.sem.threads[i]);
    }
  }

  lemma TakeStepCoupled(s: State, e: S.Event)
    requires Inv(s) && Enabled(s, InSemaphore(e)) && e.TakePermit?
    ensures Coupled(Apply(s, InSemaphore(e)))
  {
    TakeFits(s, e.i);
    var t := Apply(s, InSemaphore(e));
    forall i | 0 <= i < |t.sem.threads|
      ensures Fits(t.pool, i, t.sem.threads[i])
    {
      assert Fits(s.pool, i, s.sem.threads[i]);
    }
  }

  lemma SubmitterPostCoupled(s: State, e: S.Event)
    requires Inv(s) && Enabled(s, InSemaphore(e)) && e.Increment? && e.i < OwnerThread(s.pool)
    ensures Coupled(Apply(s, InSemaphore(e)))
  {
    IncrementFits(s, e.i);
    SmallMod(s.sem.count + 1, WORD);
    var t := Apply(s, InSemaphore(e));
    forall i | 0 <= i < |t.sem.threads|
      ensures Fits(t.pool, i, t.sem.threads[i])
    {
      assert Fits(s.pool, i, s.sem.threads[i]);
    }
  }

  lemma OwnerPostCoupled(s: State, e: S.Event)
    requires Inv(s) && Enabled(s, InSemaphore(e)) && e.Increment? && e.i == OwnerThread(s.pool)
    ensures Coupled(Apply(s, InSemaphore(e)))
  {
    IncrementFits(s, e.i);
    SmallMod(s.sem.count + 1, WORD);
    var t := Apply(s, InSemaphore(e));
    forall i | 0 <= i < |t.sem.threads|
      ensures Fits(t.pool, i, t.sem.threads[i])
    {
      assert Fits(s.pool, i, s.sem.threads[i]);
    }
  }

  lemma StepCoupled(s: State, e: Event)
    requires Inv(s) && Enabled(s, e)
    ensures Coupled(Apply(s, e))
  {
    match e
    case InPool(c) =>
      if c.Claim? || c.Exit? || c.Finish? || c.Enqueue? || c.Reject? {
        MemberStepCoupled(s, c);
      } else {
        OwnerStepCoupled(s, c);
      }
    case InSemaphore(c) =>
      if c.TakePermit? {
        TakeStepCoupled(s, c);
      } else if !c.Increment? {
        QuietStepCoupled(s, c);
      } else if c.i < OwnerThread(s.pool) {
        SubmitterPostCoupled(s, c);
      } else {
        OwnerPostCoupled(s, c);
      }
  }

  lemma StepPool(s: State, e: Event)
    requires Inv(s) && Enabled(s, e)
    ensures P.Inv(Apply(s, e).pool)
  {
    match e
    case InPool(c) => P.StepInv(s.pool, c);
    case InSemaphore(c) =>
      ViewEnabled(s, c);
      if View(s.pool, c).Some? {
        P.StepInv(s.pool, View(s.pool, c).value);
      }
  }

  lemma StepSemaphore(s: State, e: Event)
    requires Inv(s) && Enabled(s, e)
    ensures S.Inv(Apply(s, e).sem)
  {
    if e.InSemaphore? {
      if e.call.Increment? {
        IncrementFits(s, e.call.i);
      }
      S.StepInv(s.sem, e.call);
    }
  }

  lemma StepInMemory(s: State, e: Event)
    requires Enabled(s, e) && InMemory(s.pool, |s.pool.queue|)
    ensures InMemory(Apply(s, e).pool, |Apply(s, e).pool.queue|)
  {
  }

  lemma StepInv(s: State, e: Event)
    requires Inv(s) && Enabled(s, e)
    ensures Inv(Apply(s, e))
  {
    StepPool(s, e);
    StepSemaphore(s, e);
    StepCoupled(s, e);
    StepInMemory(s, e);
  }

  // ---- every run is a run of the pool and a run of the semaphore -----------------------------------

  // What one step is for the pool alone: a step of the pool, or nothing.
  function Projected(s: State, e: Event): seq<P.Event> {
    match e
    case InPool(c) => [c]
    case InSemaphore(c) => if View(s.pool, c).Some? then [View(s.pool, c).value] else []
  }

  lemma StepProjects(s: State, e: Event)
    requires Inv(s) && Enabled(s, e)
    ensures P.Run(s.pool, Projected(s, e), Apply(s, e).pool)
  {
    var p := Apply(s, e).pool;
    if e.InSemaphore? {
      ViewEnabled(s, e.call);
    }
    assert P.Run(p, [], p);
  }

  lemma {:induction false} RunProjects(s: State, es: seq<Event>, t: State) returns (ps: seq<P.Event>, cs: seq<S.Event>)
    requires Inv(s) && Run(s, es, t)
    ensures Inv(t) && P.Run(s.pool, ps, t.pool) && S.Run(s.sem, cs, t.sem)
    decreases |es|
  {
    if es == [] {
      ps, cs := [], [];
    } else {
      var e, mid := es[0], Apply(s, es[0]);
      StepInv(s, e);
      StepProjects(s, e);
      ps, cs := RunProjects(mid, es[1..], t);
      P.RunConcat(s.pool, Projected(s, e), mid.pool, ps, t.pool);
      ps := Projected(s, e) + ps;
      if e.InSemaphore? {
        assert ([e.call] + cs)[1..] == cs;
        cs := [e.call] + cs;
      }
    }
  }

  // The pool on the real semaphore reaches only states of the pool on the abstract one, with the
  // counter as its permits; so every theorem about the pool's reachable states holds here.
  lemma RefinesPool(n: nat, m: nat, s: State)
    requires Reachable(n, m, s)
    ensures P.Reachable(n, m, s.pool) && s.sem.count == s.pool.permits
    ensures S.Reachable(n + m + 1, 0, s.sem)
    ensures Inv(s)
  {
    var es :| Run(Initial(n, m), es, s);
    InitialInv(n, m);
    var ps, cs := RunProjects(Initial(n, m), es, s);
  }

  // When destroy has joined the workers, no thread is inside any semaphore function, not even on its
  // way out of a post; so the semaphore, its mutex and its condition variable may be destroyed.
  lemma SemaphoreUnusedAtDestroy(n: nat, m: nat, s: State)
    requires Reachable(n, m, s)
    requires s.pool.phase.Done? || (s.pool.phase.Joining? && s.pool.phase.joined == |s.pool.workers|)
    ensures forall i :: 0 <= i < |s.sem.threads| ==> s.sem.threads[i].Idle?
    ensures s.sem.count == 0
  {
    RefinesPool(n, m, s);
    P.DestroyFinishesEverything(n, m, s.pool);
    forall i | 0 <= i < |s.sem.threads|
      ensures s.sem.threads[i].Idle?
    {
      assert Fits(s.pool, i, s.sem.threads[i]);
    }
  }

  // ---- no deadlock ----------------------------------------------------------------------------------

  // Everything but spurious wakeups, start-up, new submissions and their rejections.
  predicate Effective(e: Event) {
    match e
    case InSemaphore(c) => !c.Spurious?
    case InPool(c) => P.Productive(c)
  }

  ghost predicate CanMove(s: State) {
    exists e :: Effective(e) && Enabled(s, e)
  }

  // With every thread outside the semaphore or asleep in it, a productive step of the pool can be
  // taken or its semaphore call begun.
  lemma SettledMoves(s: State, e: P.Event)
    requires Inv(s) && P.Productive(e) && P.Enabled(s.pool, e)
    requires forall k :: 0 <= k < |s.sem.threads| ==> s.sem.threads[k].Idle? || s.sem.threads[k].Sleeping?
    requires (exists k :: S.At(s.sem, k, S.Sleeping)) ==> s.sem.count == 0
    ensures CanMove(s)
  {
    var owner := OwnerThread(s.pool);
    assert Fits(s.pool, owner, s.sem.threads[owner]);
    if e.Post? {
      var k := SubmitterThread(s.pool, e.j);
      assert Fits(s.pool, k, s.sem.threads[k]);
      assert Enabled(s, InSemaphore(S.CallPost(k)));
    } else if e.ShutdownPost? {
      assert Enabled(s, InSemaphore(S.CallPost(owner)));
    } else if e.Acquire? {
      assert !S.At(s.sem, e.i, S.Sleeping);
      assert Enabled(s, InSemaphore(S.CallWait(e.i)));
    } else {
      if e.Claim? || e.Exit? || e.Finish? {
        assert Fits(s.pool, e.i, s.sem.threads[e.i]);
      }
      assert Enabled(s, InPool(e));
    }
  }

  // The pool never hangs on its semaphore: as long as the pool has something to do, some thread can
  // take a step.
  lemma NoDeadlock(s: State)
    requires Inv(s) && P.CanProgress(s.pool)
    ensures CanMove(s)
  {
    if S.Quiescent(s.sem) {
      S.QuiescentMeansNoPermit(s.sem);
      var e :| P.Productive(e) && P.Enabled(s.pool, e);
      SettledMoves(s, e);
    } else {
      var c :| S.Internal(c) && S.Enabled(s.sem, c);
      assert Enabled(s, InSemaphore(c));
    }
  }

  // ---- termination ------------------------------------------------------------------------------------

  // How far a thread is from its next change of the counter; a signal may wake all `n` threads.
  function StepWeight(n: nat, t: S.Thread): nat {
    match t
    case Signalling => 8 + 5 * n
    case LeavingPost => 7
    case LeavingWait => 7
    case Idle => 6
    case WantWait => 5
    case WantPost => 5
    case Woken => 5
    case Checking => 4
    case Adding => 4
    case _ => 0
  }

  function Weight(n: nat): S.Thread -> nat {
    t => StepWeight(n, t)
  }

  // The weight a change of the counter may add is paid by one unit of the pool's measure.
  function Unit(s: State): nat {
    5 * |s.sem.threads| + 5
  }

  // `k` units.
  function Scaled(unit: nat, k: nat): nat {
    if k == 0 then 0 else Scaled(unit, k - 1) + unit
  }

  function Measure(s: State): nat {
    Scaled(Unit(s), P.Measure(s.pool)) + Sum(s.sem.threads, Weight(|s.sem.threads|))
  }

  lemma {:induction false} ScaledPlus(unit: nat, a: nat, d: nat)
    ensures Scaled(unit, a + d) == Scaled(unit, a) + Scaled(unit, d)
    decreases d
  {
    if d == 0 {
    } else {
      ScaledPlus(unit, a, d - 1);
    }
  }

  lemma ScaledLess(unit: nat, a: nat, b: nat)
    requires a < b
    ensures Scaled(unit, a) + unit <= Scaled(unit, b)
  {
    ScaledPlus(unit, a + 1, b - a - 1);
  }

  lemma FewerUnits(s: State, t: State)
    requires |t.sem.threads| == |s.sem.threads| && P.Measure(t.pool) < P.Measure(s.pool)
    requires Sum(t.sem.threads, Weight(|s.sem.threads|)) < Sum(s.sem.threads, Weight(|s.sem.threads|)) + Unit(s)
    ensures Measure(t) < Measure(s)
  {
    ScaledLess(Unit(s), P.Measure(t.pool), P.Measure(s.pool));
  }

  lemma {:induction false} WakeWeight(ts: seq<S.Thread>, woken: set<nat>, n: nat)
    requires forall k :: k in woken && k < |ts| ==> ts[k].Sleeping?
    ensures Sum(S.Wake(ts, woken), Weight(n)) <= Sum(ts, Weight(n)) + 5 * |ts|
  {
    if ts == [] {
    } else {
      var k := |ts| - 1;
      WakeWeight(ts[..k], woken, n);
      assert S.Wake(ts, woken)[..k] == S.Wake(ts[..k], woken);
    }
  }

  lemma SignalCloser(q: S.State, e: S.Event)
    requires S.Enabled(q, e) && e.Signal?
    ensures Sum(S.Apply(q, e).threads, Weight(|q.threads|)) < Sum(q.threads, Weight(|q.threads|))
  {
    WakeWeight(q.threads, e.woken, |q.threads|);
    SumUpdate(S.Wake(q.threads, e.woken), Weight(|q.threads|), e.i, S.LeavingPost);
  }

  // A step inside wait or post that leaves the counter alone brings its thread closer.
  lemma QuietStepCloser(q: S.State, e: S.Event)
    requires S.Enabled(q, e) && !e.TakePermit? && !e.Increment? && !e.Spurious?
    requires !e.CallTry? && !e.LockTry? && !e.TryTake? && !e.TryRefuse? && !e.UnlockTry?
    ensures |S.Apply(q, e).threads| == |q.threads|
    ensures Sum(S.Apply(q, e).threads, Weight(|q.threads|)) < Sum(q.threads, Weight(|q.threads|))
  {
    if e.Signal? {
      SignalCloser(q, e);
    } else {
      SumUpdate(q.threads, Weight(|q.threads|), e.i, S.Apply(q, e).threads[e.i]);
    }
  }

  lemma QuietStepDecreases(s: State, e: S.Event)
    requires Inv(s) && Enabled(s, InSemaphore(e)) && !e.TakePermit? && !e.Increment? && !e.Spurious?
    ensures Measure(Apply(s, InSemaphore(e))) < Measure(s)
  {
    NoTry(s, e);
    QuietStepCloser(s.sem, e);
    assert Apply(s, InSemaphore(e)).pool == s.pool;
  }

  lemma NoTry(s: State, e: S.Event)
    requires Coupled(s) && Enabled(s, InSemaphore(e))
    ensures !e.CallTry? && !e.LockTry? && !e.TryTake? && !e.TryRefuse? && !e.UnlockTry?
  {
    assert Fits(s.pool, e.i, s.sem.threads[e.i]);
  }

  lemma CounterStepWeight(q: S.State, e: S.Event)
    requires S.Enabled(q, e) && (e.TakePermit? || e.Increment?)
    ensures |S.Apply(q, e).threads| == |q.threads|
    ensures Sum(S.Apply(q, e).threads, Weight(|q.threads|)) < Sum(q.threads, Weight(|q.threads|)) + 5 * |q.threads| + 5
  {
    SumUpdate(q.threads, Weight(|q.threads|), e.i, S.Apply(q, e).threads[e.i]);
  }

  lemma CounterStepDecreases(s: State, e: S.Event)
    requires Inv(s) && Enabled(s, InSemaphore(e)) && (e.TakePermit? || e.Increment?)
    ensures Measure(Apply(s, InSemaphore(e))) < Measure(s)
  {
    var t := Apply(s, InSemaphore(e));
    CounterStepIsProductive(s, e);
    P.ProductiveDecreases(s.pool, View(s.pool, e).value);
    CounterStepWeight(s.sem, e);
    FewerUnits(s, t);
  }

  lemma CounterStepIsProductive(s: State, e: S.Event)
    requires Inv(s) && S.Enabled(s.sem, e) && (e.TakePermit? || e.Increment?)
    ensures var v := View(s.pool, e); v.Some? && P.Enabled(s.pool, v.value) && P.Productive(v.value)
  {
    ViewEnabled(s, e);
    if e.Increment? {
      IncrementFits(s, e.i);
    }
  }

  // What a step may add to the measure: a spurious wakeup one recheck, a submission four units.
  function Allowance(unit: nat, e: Event): nat {
    match e
    case InSemaphore(c) => if c.Spurious? then 5 else 0
    case InPool(c) => if c.Enqueue? then Scaled(unit, 4) else 0
  }

  lemma PoolMeasureBounded(s: State, p: P.State, paid: bool, gained: bool)
    requires P.Measure(p) + (if paid then 1 else 0) <= P.Measure(s.pool) + (if gained then 4 else 0)
    requires !(paid && gained)
    ensures Measure(s.(pool := p)) + (if paid then 1 else 0) <= Measure(s) + (if gained then Scaled(Unit(s), 4) else 0)
  {
    var a, b := P.Measure(p), P.Measure(s.pool) + (if gained then 4 else 0);
    ScaledPlus(Unit(s), P.Measure(s.pool), 4);
    if a < b {
      ScaledLess(Unit(s), a, b);
    }
  }

  lemma PoolStepBounded(s: State, e: P.Event)
    requires Inv(s) && !s.pool.phase.Spawning? && Enabled(s, InPool(e))
    ensures Measure(Apply(s, InPool(e))) + (if P.Productive(e) then 1 else 0) <=
            Measure(s) + Allowance(Unit(s), InPool(e))
  {
    P.StepBounded(s.pool, e);
    PoolMeasureBounded(s, P.Apply(s.pool, e), P.Productive(e), e.Enqueue?);
  }

  lemma SpuriousBounded(s: State, i: nat)
    requires Enabled(s, InSemaphore(S.Spurious(i)))
    ensures Measure(Apply(s, InSemaphore(S.Spurious(i)))) == Measure(s) + 5
  {
    SumUpdate(s.sem.threads, Weight(|s.sem.threads|), i, S.Woken);
  }

  lemma StepBounded(s: State, e: Event)
    requires Inv(s) && !s.pool.phase.Spawning? && Enabled(s, e)
    ensures Measure(Apply(s, e)) + (if Effective(e) then 1 else 0) <= Measure(s) + Allowance(Unit(s), e)
  {
    match e
    case InPool(c) => PoolStepBounded(s, c);
    case InSemaphore(c) =>
      if c.TakePermit? || c.Increment? {
        CounterStepDecreases(s, c);
      } else if c.Spurious? {
        SpuriousBounded(s, c.i);
      } else {
        QuietStepDecreases(s, c);
      }
  }

  lemma StepKeepsUnit(s: State, e: Event)
    requires Enabled(s, e) && !s.pool.phase.Spawning?
    ensures Unit(Apply(s, e)) == Unit(s) && !Apply(s, e).pool.phase.Spawning?
  {
  }

  function EffectiveCount(es: seq<Event>): nat {
    if es == [] then 0 else (if Effective(es[0]) then 1 else 0) + EffectiveCount(es[1..])
  }

  function TotalAllowance(unit: nat, es: seq<Event>): nat {
    if es == [] then 0 else Allowance(unit, es[0]) + TotalAllowance(unit, es[1..])
  }

  // The effective steps of every schedule are bounded by the state it starts from, the tasks
  // submitted meanwhile and the spurious wakeups.
  lemma {:induction false} StepsBounded(s: State, es: seq<Event>, t: State)
    requires Inv(s) && !s.pool.phase.Spawning? && Run(s, es, t)
    ensures EffectiveCount(es) + Measure(t) <= Measure(s) + TotalAllowance(Unit(s), es)
    decreases |es|
  {
    if es == [] {
    } else {
      StepInv(s, es[0]);
      StepBounded(s, es[0]);
      StepKeepsUnit(s, es[0]);
      StepsBounded(Apply(s, es[0]), es[1..], t);
    }
  }

  function SpuriousCount(es: seq<Event>): nat {
    if es == [] then 0
    else (if es[0].InSemaphore? && es[0].call.Spurious? then 1 else 0) + SpuriousCount(es[1..])
  }

  // During shutdown nothing is submitted, so only spurious wakeups prolong it.
  lemma {:induction false} ShutdownAllowance(s: State, es: seq<Event>, t: State, unit: nat)
    requires P.ShuttingDown(s.pool) && Run(s, es, t)
    ensures P.ShuttingDown(t.pool) && TotalAllowance(unit, es) == 5 * SpuriousCount(es)
    decreases |es|
  {
    if es == [] {
    } else {
      ShutdownAllowance(Apply(s, es[0]), es[1..], t, unit);
    }
  }

  lemma {:induction false} RunConcat(s: State, es: seq<Event>, t: State, fs: seq<Event>, u: State)
    requires Run(s, es, t) && Run(t, fs, u)
    ensures Run(s, es + fs, u)
    decreases |es|
  {
    if es == [] {
      assert es + fs == fs;
    } else {
      RunConcat(Apply(s, es[0]), es[1..], t, fs, u);
      assert (es + fs)[1..] == es[1..] + fs;
    }
  }

  lemma ReachableRun(n: nat, m: nat, s: State, es: seq<Event>, t: State)
    requires Reachable(n, m, s) && Run(s, es, t)
    ensures Reachable(n, m, t)
  {
    var es0 :| Run(Initial(n, m), es0, s);
    RunConcat(Initial(n, m), es0, s, es, t);
  }

  // At the end nobody has anything left to do.
  lemma DoneIsFinal(n: nat, m: nat, s: State)
    requires Reachable(n, m, s) && s.pool.phase.Done?
    ensures !CanMove(s)
  {
    RefinesPool(n, m, s);
    SemaphoreUnusedAtDestroy(n, m, s);
    P.DestroyFinishesEverything(n, m, s.pool);
    P.DoneIsFinal(s.pool);
    forall e | Effective(e)
      ensures !Enabled(s, e)
    {
      match e
      case InPool(c) => assert !P.Enabled(s.pool, c);
      case InSemaphore(c) =>
        if Enabled(s, e) {
          OnlyCalls(s.sem, c);
        }
    }
  }

  lemma OnlyCalls(q: S.State, e: S.Event)
    requires S.Enabled(q, e) && forall i :: 0 <= i < |q.threads| ==> q.threads[i].Idle?
    ensures e.CallWait? || e.CallTry? || e.CallPost?
  {
  }

  // Shutdown on the real semaphore terminates if the spurious wakeups are finitely many, without any
  // fairness assumption: every schedule makes at most `Measure(s)` effective steps and five for each
  // spurious wakeup, and it has run out of steps exactly when destroy is done; then every accepted
  // task has finished and no thread is inside the semaphore.
  lemma ShutdownTerminates(n: nat, m: nat, s: State, es: seq<Event>, t: State)
    requires Reachable(n, m, s) && P.ShuttingDown(s.pool) && Run(s, es, t)
    ensures EffectiveCount(es) <= Measure(s) + 5 * SpuriousCount(es)
    ensures !CanMove(t) <==> t.pool.phase.Done?
    ensures t.pool.phase.Done? ==> P.AllFinished(t.pool)
    ensures t.pool.phase.Done? ==> forall i :: 0 <= i < |t.sem.threads| ==> t.sem.threads[i].Idle?
  {
    RefinesPool(n, m, s);
    StepsBounded(s, es, t);
    ShutdownAllowance(s, es, t, Unit(s));
    ReachableRun(n, m, s, es, t);
    RefinesPool(n, m, t);
    if t.pool.phase.Done? {
      P.DestroyFinishesEverything(n, m, t.pool);
      SemaphoreUnusedAtDestroy(n, m, t);
      DoneIsFinal(n, m, t);
    } else {
      P.Progress(n, m, t.pool);
      NoDeadlock(t);
    }
  }

  // A serving pool that cannot move has finished everything it accepted; no lost wakeup or late
  // post ever leaves a task behind.
  lemma ServingRestHasFinished(n: nat, m: nat, s: State)
    requires Reachable(n, m, s) && s.pool.phase.Serving? && !CanMove(s)
    ensures P.AllFinished(s.pool) && s.sem.count == 0
    ensures forall i :: 0 <= i < |s.sem.threads| ==> s.sem.threads[i].Idle? || s.sem.threads[i].Sleeping?
  {
    RefinesPool(n, m, s);
    if P.CanProgress(s.pool) {
      NoDeadlock(s);
    }
    P.ServingRestIffFinished(n, m, s.pool);
    forall c | S.Internal(c)
      ensures !S.Enabled(s.sem, c)
    {
      assert Effective(InSemaphore(c)) && !Enabled(s, InSemaphore(c));
    }
    S.QuiescentMeansNoPermit(s.sem);
    AtRestNoPermit(s);
  }

  lemma AtRestNoPermit(s: State)
    requires Inv(s) && s.pool.phase.Serving? && P.AllFinished(s.pool)
    ensures s.sem.count == 0
  {
    var p := s.pool;
    var next := |p.claimed|;
    assert next !in p.finished;
  }
}
