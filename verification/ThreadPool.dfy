// The thread pool of d4np/concurrency/thread_pool.c as a step system: any number of workers and
// submitters, interleaved at the granularity of critical sections, semaphore operations, task
// completions and thread joins.  A submitter enqueues under the lock and posts its permit only
// after unlocking, so between the two it owes the semaphore a post.
module ThreadPool {
  import opened Sums

  datatype Task = Task(fn: nat, arg: nat)

  // `Running(id)` runs the task claimed `id`-th.
  datatype Worker = Waiting | Holding | Running(id: nat) | Exited

  datatype Submitter = Ready | Owing

  // `Posting` and `Joining` serve both destroy and the rollback of a failed init; they count the
  // shutdown posts made and the threads joined.  `Done` records what the drain loop freed.
  datatype Phase = Spawning | Serving | Posting(posted: nat) | Joining(joined: nat) | Done(drained: nat)

  datatype State = State(
    threadCount: nat,
    workers: seq<Worker>,
    submitters: seq<Submitter>,
    queue: seq<Task>,
    permits: nat,
    phase: Phase,
    // history
    accepted: seq<Task>,
    claimed: seq<Task>,
    finished: set<nat>)

  datatype Event =
    | SpawnOk
    | SpawnFail
    | InitDone
    | Enqueue(j: nat, task: Task)
    | Reject(j: nat)
    | Post(j: nat)
    | Acquire(i: nat)
    | Claim(i: nat)
    | Exit(i: nat)
    | Finish(i: nat)
    | BeginShutdown
    | ShutdownPost
    | StartJoin
    | Join
    | Drain

  function Initial(threadCount: nat, submitters: nat): State {
    State(threadCount, [], seq(submitters, _ => Ready), [], 0, Spawning, [], [], {})
  }

  predicate ShuttingDown(s: State) {
    s.phase.Posting? || s.phase.Joining? || s.phase.Done?
  }

  predicate Enabled(s: State, e: Event) {
    match e
    case SpawnOk => s.phase.Spawning? && |s.workers| < s.threadCount
    case SpawnFail => s.phase.Spawning? && |s.workers| < s.threadCount
    case InitDone => s.phase.Spawning? && |s.workers| == s.threadCount
    case Enqueue(j, _) => s.phase.Serving? && j < |s.submitters| && s.submitters[j].Ready?
    case Reject(j) => ShuttingDown(s) && j < |s.submitters| && s.submitters[j].Ready?
    case Post(j) => j < |s.submitters| && s.submitters[j].Owing?
    case Acquire(i) => i < |s.workers| && s.workers[i].Waiting? && s.permits > 0
    case Claim(i) => i < |s.workers| && s.workers[i].Holding? && s.queue != []
    case Exit(i) => i < |s.workers| && s.workers[i].Holding? && s.queue == []
    case Finish(i) => i < |s.workers| && s.workers[i].Running?
    case BeginShutdown => s.phase.Serving?
    case ShutdownPost => s.phase.Posting? && s.phase.posted < |s.workers|
    case StartJoin => s.phase.Posting? && s.phase.posted == |s.workers|
    case Join => s.phase.Joining? && s.phase.joined < |s.workers| && s.workers[s.phase.joined].Exited?
    case Drain => s.phase.Joining? && s.phase.joined == |s.workers|
  }

  function Apply(s: State, e: Event): State
    requires Enabled(s, e)
  {
    match e
    case SpawnOk => s.(workers := s.workers + [Waiting])
    case SpawnFail => s.(phase := Posting(0))
    case InitDone => s.(phase := Serving)
    case Enqueue(j, t) =>
      s.(queue := s.queue + [t], accepted := s.accepted + [t], submitters := s.submitters[j := Owing])
    case Reject(j) => s
    case Post(j) => s.(permits := s.permits + 1, submitters := s.submitters[j := Ready])
    case Acquire(i) => s.(permits := s.permits - 1, workers := s.workers[i := Holding])
    case Claim(i) =>
      s.(queue := s.queue[1..], claimed := s.claimed + [s.queue[0]],
         workers := s.workers[i := Running(|s.claimed|)])
    case Exit(i) => s.(workers := s.workers[i := Exited])
    case Finish(i) => s.(finished := s.finished + {s.workers[i].id}, workers := s.workers[i := Waiting])
    case BeginShutdown => s.(phase := Posting(0))
    case ShutdownPost => s.(permits := s.permits + 1, phase := Posting(s.phase.posted + 1))
    case StartJoin => s.(phase := Joining(0))
    case Join => s.(phase := Joining(s.phase.joined + 1))
    case Drain => s.(phase := Done(|s.queue|), queue := [])
  }

  ghost predicate Run(s: State, es: seq<Event>, t: State)
    decreases |es|
  {
    if es == [] then s == t else Enabled(s, es[0]) && Run(Apply(s, es[0]), es[1..], t)
  }

  ghost predicate Reachable(n: nat, m: nat, t: State) {
    n > 0 && exists es :: Run(Initial(n, m), es, t)
  }

  // ---- weights -----------------------------------------------------------------------------

  function HoldingWeight(w: Worker): nat { if w.Holding? then 1 else 0 }

  function ExitedWeight(w: Worker): nat { if w.Exited? then 1 else 0 }

  function BusyWeight(w: Worker): nat { if w.Holding? || w.Running? then 1 else 0 }

  function OwingWeight(b: Submitter): nat { if b.Owing? then 1 else 0 }

  function Holders(s: State): nat { Sum(s.workers, HoldingWeight) }

  function ExitedCount(s: State): nat { Sum(s.workers, ExitedWeight) }

  function Owed(s: State): nat { Sum(s.submitters, OwingWeight) }

  function ShutdownPosts(s: State): nat {
    match s.phase
    case Posting(k) => k
    case Joining(_) => |s.workers|
    case Done(_) => |s.workers|
    case _ => 0
  }

  // ---- invariant ---------------------------------------------------------------------------

  // Permits, wherever they are, pay for exactly the queued tasks and the exits still to come.
  predicate Ledger(s: State) {
    s.permits + Holders(s) + Owed(s) == |s.queue| + ShutdownPosts(s) - ExitedCount(s)
  }

  // Tasks are claimed in the order in which they were accepted, each once.
  predicate Fifo(s: State) {
    s.claimed + s.queue == s.accepted
  }

  predicate RunsFresh(s: State) {
    && (forall i :: 0 <= i < |s.workers| && s.workers[i].Running? ==>
          s.workers[i].id < |s.claimed| && s.workers[i].id !in s.finished)
    && (forall i, j :: 0 <= i < j < |s.workers| && s.workers[i].Running? && s.workers[j].Running? ==>
          s.workers[i].id != s.workers[j].id)
    && (forall id :: id in s.finished ==> id < |s.claimed|)
  }

  ghost predicate IsRun(s: State, id: nat) {
    exists i :: 0 <= i < |s.workers| && s.workers[i] == Running(id)
  }

  // Every claimed task has finished or is being run by some worker.
  ghost predicate ClaimsHeld(s: State) {
    forall id: nat :: id < |s.claimed| ==> id in s.finished || IsRun(s, id)
  }

  predicate Phased(s: State) {
    && |s.workers| <= s.threadCount
    && s.threadCount > 0
    && (s.phase.Spawning? ==> s.accepted == [])
    && (s.accepted != [] ==> |s.workers| == s.threadCount)
    && (s.phase.Serving? ==> |s.workers| == s.threadCount)
    && (s.phase.Posting? ==> s.phase.posted <= |s.workers|)
    && (s.phase.Joining? ==> s.phase.joined <= |s.workers|)
    && (s.phase.Joining? ==> forall i :: 0 <= i < s.phase.joined ==> s.workers[i].Exited?)
    && (s.phase.Done? ==> forall i :: 0 <= i < |s.workers| ==> s.workers[i].Exited?)
  }

  predicate ExitsLate(s: State) {
    ExitedCount(s) > 0 ==> ShuttingDown(s) && s.queue == []
  }

  predicate NothingDrained(s: State) {
    s.phase.Done? ==> s.phase.drained == 0
  }

  ghost predicate Inv(s: State) {
    && Ledger(s) && Fifo(s) && RunsFresh(s) && ClaimsHeld(s) && Phased(s) && ExitsLate(s) && NothingDrained(s)
  }

  // ---- preservation ------------------------------------------------------------------------

  lemma InitialInv(n: nat, m: nat)
    requires n > 0
    ensures Inv(Initial(n, m))
  {
    var s := Initial(n, m);
    SumZero(s.submitters, OwingWeight);
  }

  lemma WorkerWeights(ws: seq<Worker>, i: nat, w: Worker)
    requires i < |ws|
    ensures Sum(ws[i := w], HoldingWeight) == Sum(ws, HoldingWeight) - HoldingWeight(ws[i]) + HoldingWeight(w)
    ensures Sum(ws[i := w], ExitedWeight) == Sum(ws, ExitedWeight) - ExitedWeight(ws[i]) + ExitedWeight(w)
    ensures Sum(ws[i := w], BusyWeight) == Sum(ws, BusyWeight) - BusyWeight(ws[i]) + BusyWeight(w)
  {
    SumUpdate(ws, HoldingWeight, i, w);
    SumUpdate(ws, ExitedWeight, i, w);
    SumUpdate(ws, BusyWeight, i, w);
  }

  // At the end of the joins every worker has exited, so nothing is left to pay for.
  lemma AllExitedSettles(s: State)
    requires Ledger(s) && Phased(s) && ShuttingDown(s) && ExitsLate(s)
    requires forall i :: 0 <= i < |s.workers| ==> s.workers[i].Exited?
    requires |s.workers| > 0
    ensures s.permits == 0 && Owed(s) == 0 && s.queue == [] && ShutdownPosts(s) == |s.workers|
  {
    SumAtMostLength(s.workers, ExitedWeight);
  }

  lemma WorkerLedger(s: State, e: Event)
    requires Ledger(s) && Enabled(s, e)
    requires e.Acquire? || e.Claim? || e.Exit? || e.Finish?
    ensures Ledger(Apply(s, e))
  {
    var w := Apply(s, e).workers[e.i];
    WorkerWeights(s.workers, e.i, w);
  }

  lemma SubmitterLedger(s: State, e: Event)
    requires Ledger(s) && Enabled(s, e)
    requires e.Enqueue? || e.Post?
    ensures Ledger(Apply(s, e))
  {
    var b := Apply(s, e).submitters[e.j];
    SumUpdate(s.submitters, OwingWeight, e.j, b);
  }

  lemma StepLedger(s: State, e: Event)
    requires Inv(s) && Enabled(s, e)
    ensures Ledger(Apply(s, e))
  {
    match e
    case SpawnOk =>
      SumAppend(s.workers, HoldingWeight, Waiting);
      SumAppend(s.workers, ExitedWeight, Waiting);
    case Enqueue(_, _) => SubmitterLedger(s, e);
    case Post(_) => SubmitterLedger(s, e);
    case Acquire(_) => WorkerLedger(s, e);
    case Claim(_) => WorkerLedger(s, e);
    case Exit(_) => WorkerLedger(s, e);
    case Finish(_) => WorkerLedger(s, e);
    case Drain => DrainFindsNothing(s);
    case _ =>
  }

  // The defensive drain loop of destroy never finds a node.
  lemma DrainFindsNothing(s: State)
    requires Inv(s) && Enabled(s, Drain)
    ensures s.queue == []
  {
    if |s.workers| > 0 {
      AllExitedSettles(s);
    }
  }

  lemma StepFifo(s: State, e: Event)
    requires Inv(s) && Enabled(s, e)
    ensures Fifo(Apply(s, e))
  {
    if e.Drain? {
      DrainFindsNothing(s);
    }
  }

  lemma StepRuns(s: State, e: Event)
    requires RunsFresh(s) && Enabled(s, e)
    ensures RunsFresh(Apply(s, e))
  {
  }

  lemma StepClaims(s: State, e: Event)
    requires Inv(s) && Enabled(s, e)
    ensures ClaimsHeld(Apply(s, e))
  {
    var t := Apply(s, e);
    forall id: nat | id < |t.claimed| && id !in t.finished
      ensures IsRun(t, id)
    {
      if e.Claim? && id == |s.claimed| {
        assert t.workers[e.i] == Running(id);
      } else {
        var i :| 0 <= i < |s.workers| && s.workers[i] == Running(id);
        assert t.workers[i] == Running(id);
      }
    }
  }

  lemma StepPhased(s: State, e: Event)
    requires Inv(s) && Enabled(s, e)
    ensures Phased(Apply(s, e)) && NothingDrained(Apply(s, e))
  {
    if e.Drain? {
      DrainFindsNothing(s);
    }
  }

  lemma StepExits(s: State, e: Event)
    requires Inv(s) && Enabled(s, e)
    ensures ExitsLate(Apply(s, e))
  {
    match e
    case SpawnOk => SumAppend(s.workers, ExitedWeight, Waiting);
    case Acquire(i) => WorkerWeights(s.workers, i, Holding);
    case Claim(i) => WorkerWeights(s.workers, i, Running(|s.claimed|));
    case Exit(i) => SumMember(s.workers, HoldingWeight, i);
    case Finish(i) => WorkerWeights(s.workers, i, Waiting);
    case _ =>
  }

  lemma StepInv(s: State, e: Event)
    requires Inv(s) && Enabled(s, e)
    ensures Inv(Apply(s, e))
  {
    StepLedger(s, e);
    StepFifo(s, e);
    StepRuns(s, e);
    StepClaims(s, e);
    StepPhased(s, e);
    StepExits(s, e);
  }

  lemma {:induction false} RunInv(s: State, es: seq<Event>, t: State)
    requires Inv(s) && Run(s, es, t)
    ensures Inv(t)
    decreases |es|
  {
    if es == [] {
    } else {
      StepInv(s, es[0]);
      RunInv(Apply(s, es[0]), es[1..], t);
    }
  }

  // ---- safety over whole runs ---------------------------------------------------------------

  lemma ReachableInv(n: nat, m: nat, s: State)
    requires Reachable(n, m, s)
    ensures Inv(s)
  {
    var es :| Run(Initial(n, m), es, s);
    InitialInv(n, m);
    RunInv(Initial(n, m), es, s);
  }

  // The permit ledger, in every reachable state.
  lemma PermitLedger(n: nat, m: nat, s: State)
    requires Reachable(n, m, s)
    ensures s.permits + Holders(s) + Owed(s) == |s.queue| + ShutdownPosts(s) - ExitedCount(s)
  {
    ReachableInv(n, m, s);
  }

  // Each accepted task is claimed exactly once and in acceptance order, and is then either
  // finished or being run by exactly one worker.
  lemma ClaimedOnceInOrder(n: nat, m: nat, s: State)
    requires Reachable(n, m, s)
    ensures s.claimed + s.queue == s.accepted
    ensures forall id: nat :: id < |s.claimed| ==> (id in s.finished <==> !IsRun(s, id))
    ensures forall i, j ::
              0 <= i < j < |s.workers| && s.workers[i].Running? ==> s.workers[i] != s.workers[j]
  {
    ReachableInv(n, m, s);
    forall id: nat | id < |s.claimed| && IsRun(s, id)
      ensures id !in s.finished
    {
      var i :| 0 <= i < |s.workers| && s.workers[i] == Running(id);
    }
  }

  // No worker exits before shutdown, nor before every accepted task has been claimed.
  lemma ExitOnlyAfterEverythingClaimed(n: nat, m: nat, s: State, i: nat)
    requires Reachable(n, m, s) && i < |s.workers| && s.workers[i].Exited?
    ensures ShuttingDown(s) && s.claimed == s.accepted
  {
    ReachableInv(n, m, s);
    SumMember(s.workers, ExitedWeight, i);
  }

  lemma AllExitedFinished(s: State)
    requires Inv(s) && forall i :: 0 <= i < |s.workers| ==> s.workers[i].Exited?
    requires ShuttingDown(s)
    ensures s.claimed == s.accepted
    ensures forall id: nat :: id < |s.accepted| <==> id in s.finished
    ensures s.permits == 0 && Owed(s) == 0
  {
    if |s.workers| > 0 {
      AllExitedSettles(s);
    }
  }

  // When destroy (or the rollback of init) has joined every worker, every accepted task has
  // finished, no submitter still owes a post, the semaphore is at zero and the
  // drain loop freed nothing.
  lemma DestroyFinishesEverything(n: nat, m: nat, s: State)
    requires Reachable(n, m, s)
    requires s.phase.Done? || (s.phase.Joining? && s.phase.joined == |s.workers|)
    ensures s.claimed == s.accepted
    ensures forall id: nat :: id < |s.accepted| <==> id in s.finished
    ensures s.permits == 0 && s.queue == []
    ensures forall j :: 0 <= j < |s.submitters| ==> s.submitters[j].Ready?
    ensures s.phase.Done? ==> s.phase.drained == 0
  {
    ReachableInv(n, m, s);
    AllExitedFinished(s);
    forall j | 0 <= j < |s.submitters|
      ensures s.submitters[j].Ready?
    {
      SumMember(s.submitters, OwingWeight, j);
    }
  }

  // A pool whose init was rolled back never accepted anything.
  lemma RollbackAcceptsNothing(n: nat, m: nat, s: State)
    requires Reachable(n, m, s) && ShuttingDown(s) && |s.workers| < n
    ensures s.accepted == []
  {
    ReachableInv(n, m, s);
    var es :| Run(Initial(n, m), es, s);
    ThreadCountFixed(Initial(n, m), es, s);
  }

  lemma {:induction false} ThreadCountFixed(s: State, es: seq<Event>, t: State)
    requires Run(s, es, t)
    ensures t.threadCount == s.threadCount && |t.submitters| == |s.submitters|
    decreases |es|
  {
    if es == [] {
    } else {
      ThreadCountFixed(Apply(s, es[0]), es[1..], t);
    }
  }

  // ---- progress and termination --------------------------------------------------------------

  // Everything a worker, an owing submitter or the destroying thread does; what is left out is
  // starting up, new submissions and their rejections.
  predicate Productive(e: Event) {
    e.Post? || e.Acquire? || e.Claim? || e.Exit? || e.Finish? || e.ShutdownPost? || e.StartJoin? || e.Join? || e.Drain?
  }

  ghost predicate CanProgress(s: State) {
    exists e :: Productive(e) && Enabled(s, e)
  }

  // A free permit or an owed post can move as long as some worker has not exited.
  lemma PermitsMove(s: State)
    requires Inv(s) && |s.workers| > ExitedCount(s)
    requires |s.queue| + ShutdownPosts(s) > ExitedCount(s)
    ensures CanProgress(s)
  {
    SumAtMostLength(s.workers, ExitedWeight);
    var i :| 0 <= i < |s.workers| && !s.workers[i].Exited?;
    if s.workers[i].Running? {
      assert Enabled(s, Finish(i));
    } else if s.workers[i].Holding? {
      assert Enabled(s, Claim(i)) || Enabled(s, Exit(i));
    } else if s.permits > 0 {
      assert Enabled(s, Acquire(i));
    } else if Owed(s) > 0 {
      var j := SumPositive(s.submitters, OwingWeight);
      assert Enabled(s, Post(j));
    } else {
      var k := SumPositive(s.workers, HoldingWeight);
      assert Enabled(s, Claim(k)) || Enabled(s, Exit(k));
    }
  }

  // A queued task is never stranded, and shutdown never blocks before it is done.
  lemma Progress(n: nat, m: nat, s: State)
    requires Reachable(n, m, s)
    requires s.queue != [] || (ShuttingDown(s) && !s.phase.Done?)
    ensures CanProgress(s)
  {
    ReachableInv(n, m, s);
    SumAtMostLength(s.workers, ExitedWeight);
    match s.phase
    case Posting(k) =>
      assert Enabled(s, ShutdownPost) || Enabled(s, StartJoin);
    case Joining(k) =>
      if ExitedCount(s) == |s.workers| {
        assert Enabled(s, Join) || Enabled(s, Drain);
      } else {
        PermitsMove(s);
      }
    case _ =>
      if s.phase.Done? && |s.workers| > 0 {
        AllExitedSettles(s);
      } else {
        PermitsMove(s);
      }
  }

  function Measure(s: State): nat {
    |s.queue| + Sum(s.workers, BusyWeight) + 2 * s.permits + 3 * Owed(s) + PhaseMeasure(s)
  }

  function PhaseMeasure(s: State): nat {
    var n := |s.workers|;
    match s.phase
    case Posting(k) => 3 * (if k <= n then n - k else 0) + n + 2
    case Joining(k) => (if k <= n then n - k else 0) + 1
    case Done(_) => 0
    case _ => 4 * n + 3
  }

  lemma WorkerDecreases(s: State, e: Event)
    requires Enabled(s, e) && (e.Acquire? || e.Claim? || e.Exit? || e.Finish?)
    ensures Measure(Apply(s, e)) < Measure(s)
  {
    SumUpdate(s.workers, BusyWeight, e.i, Apply(s, e).workers[e.i]);
  }

  lemma ProductiveDecreases(s: State, e: Event)
    requires Phased(s) && Enabled(s, e) && Productive(e)
    ensures Measure(Apply(s, e)) < Measure(s)
  {
    if e.Acquire? || e.Claim? || e.Exit? || e.Finish? {
      WorkerDecreases(s, e);
    } else if e.Post? {
      SumUpdate(s.submitters, OwingWeight, e.j, Ready);
    }
  }

  function ProductiveCount(es: seq<Event>): nat {
    if es == [] then 0 else (if Productive(es[0]) then 1 else 0) + ProductiveCount(es[1..])
  }

  function EnqueueCount(es: seq<Event>): nat {
    if es == [] then 0 else (if es[0].Enqueue? then 1 else 0) + EnqueueCount(es[1..])
  }

  lemma EnqueueCosts(s: State, e: Event)
    requires Enabled(s, e) && e.Enqueue?
    ensures Measure(Apply(s, e)) == Measure(s) + 4
  {
    SumUpdate(s.submitters, OwingWeight, e.j, Owing);
  }

  lemma StepBounded(s: State, e: Event)
    requires Phased(s) && Enabled(s, e) && !s.phase.Spawning?
    ensures !Apply(s, e).phase.Spawning?
    ensures Measure(Apply(s, e)) + (if Productive(e) then 1 else 0) <= Measure(s) + (if e.Enqueue? then 4 else 0)
  {
    if Productive(e) {
      ProductiveDecreases(s, e);
    } else if e.Enqueue? {
      EnqueueCosts(s, e);
    }
  }

  lemma ShutdownDecreases(s: State, e: Event)
    requires Enabled(s, e) && e.BeginShutdown?
    ensures Measure(Apply(s, e)) < Measure(s)
  {
  }

  // Every accepted task makes room for at most four productive steps, whatever the schedule.
  lemma {:induction false} StepsBounded(s: State, es: seq<Event>, t: State)
    requires Inv(s) && !s.phase.Spawning? && Run(s, es, t)
    ensures !t.phase.Spawning? && ProductiveCount(es) + Measure(t) <= Measure(s) + 4 * EnqueueCount(es)
    decreases |es|
  {
    if es == [] {
    } else {
      StepInv(s, es[0]);
      StepBounded(s, es[0]);
      StepsBounded(Apply(s, es[0]), es[1..], t);
    }
  }

  lemma {:induction false} ShutdownAcceptsNothing(s: State, es: seq<Event>, t: State)
    requires ShuttingDown(s) && Run(s, es, t)
    ensures ShuttingDown(t) && EnqueueCount(es) == 0 && t.accepted == s.accepted
    decreases |es|
  {
    if es == [] {
    } else {
      ShutdownAcceptsNothing(Apply(s, es[0]), es[1..], t);
    }
  }

  // Once shutdown has begun the number of productive steps is bounded whatever the schedule.
  lemma ShutdownStepsBounded(s: State, es: seq<Event>, t: State)
    requires Inv(s) && ShuttingDown(s) && Run(s, es, t)
    ensures ShuttingDown(t) && ProductiveCount(es) + Measure(t) <= Measure(s)
  {
    StepsBounded(s, es, t);
    ShutdownAcceptsNothing(s, es, t);
  }

  ghost predicate AllFinished(s: State) {
    forall id: nat :: id < |s.accepted| ==> id in s.finished
  }

  // A serving pool has come to rest exactly when every accepted task has finished.
  lemma ServingRestIffFinished(n: nat, m: nat, s: State)
    requires Reachable(n, m, s) && s.phase.Serving?
    ensures !CanProgress(s) <==> AllFinished(s)
  {
    ReachableInv(n, m, s);
    if AllFinished(s) {
      AtRest(s);
    } else if s.queue != [] {
      Progress(n, m, s);
    } else {
      var id: nat :| id < |s.accepted| && id !in s.finished;
      assert IsRun(s, id);
      var i :| 0 <= i < |s.workers| && s.workers[i] == Running(id);
      assert Enabled(s, Finish(i));
    }
  }

  // With everything finished the ledger leaves no permit, no holder and no owed post.
  lemma AtRest(s: State)
    requires Inv(s) && s.phase.Serving? && AllFinished(s)
    ensures !CanProgress(s)
  {
    var next := |s.claimed|;
    assert next !in s.finished;
    forall e | Productive(e)
      ensures !Enabled(s, e)
    {
      if Enabled(s, e) && (e.Claim? || e.Exit?) {
        SumMember(s.workers, HoldingWeight, e.i);
      } else if Enabled(s, e) && e.Post? {
        SumMember(s.submitters, OwingWeight, e.j);
      }
    }
  }

  // A serving pool works off what it has accepted: the productive steps of every schedule are
  // bounded by its load and the tasks submitted meanwhile, and it comes to rest only with every
  // accepted task finished.
  lemma ServingCompletes(n: nat, m: nat, s: State, es: seq<Event>, t: State)
    requires Reachable(n, m, s) && s.phase.Serving? && Run(s, es, t) && t.phase.Serving?
    ensures ProductiveCount(es) <= Measure(s) + 4 * EnqueueCount(es)
    ensures !CanProgress(t) <==> AllFinished(t)
  {
    ReachableInv(n, m, s);
    StepsBounded(s, es, t);
    var es0 :| Run(Initial(n, m), es0, s);
    RunConcat(Initial(n, m), es0, s, es, t);
    ServingRestIffFinished(n, m, t);
  }

  // Shutdown terminates: from any reachable state in which it has begun, every schedule makes at
  // most `Measure(s)` productive steps, and a schedule that stops only when no productive step is
  // left has finished every accepted task and returned from destroy.
  lemma ShutdownTerminates(n: nat, m: nat, s: State, es: seq<Event>, t: State)
    requires Reachable(n, m, s) && ShuttingDown(s) && Run(s, es, t)
    ensures ProductiveCount(es) <= Measure(s)
    ensures !CanProgress(t) <==> t.phase.Done?
    ensures t.phase.Done? ==> forall id: nat :: id < |t.accepted| <==> id in t.finished
  {
    ReachableInv(n, m, s);
    ShutdownStepsBounded(s, es, t);
    var es0 :| Run(Initial(n, m), es0, s);
    RunConcat(Initial(n, m), es0, s, es, t);
    ReachableInv(n, m, t);
    if t.phase.Done? {
      DestroyFinishesEverything(n, m, t);
      DoneIsFinal(t);
    } else {
      Progress(n, m, t);
    }
  }

  lemma DoneIsFinal(s: State)
    requires s.phase.Done? && forall j :: 0 <= j < |s.submitters| ==> s.submitters[j].Ready?
    requires Phased(s)
    ensures !CanProgress(s)
  {
  }

  lemma {:induction false} RunConcat(s: State, es: seq<Event>, t: State, fs: seq<Event>, u: State)
    requires Run(s, es, t) && Run(t, fs, u)
    ensures Run(s, es + fs, u)
    decreases |es|
  {
    if es == [] {
      assert es + fs == fs;
    } else {
      RunConcat(Apply(s, es[0]), es[1..], t, fs, u);
      assert (es + fs)[1..] == es[1..] + fs;
    }
  }

  // ---- what the source comment claims, and when it is true ------------------------------------

  // The claim of the file comment: no worker exits while an accepted task has yet to finish.
  ghost predicate AllRunBeforeAnyExit(n: nat, m: nat) {
    forall s: State, i: nat ::
      Reachable(n, m, s) && i < |s.workers| && s.workers[i].Exited? ==>
        forall id: nat :: id < |s.accepted| ==> id in s.finished
  }

  function Idle(n: nat, k: nat, m: nat): State {
    Initial(n, m).(workers := seq(k, _ => Waiting))
  }

  function SpawnEvents(k: nat): seq<Event> {
    seq(k, _ => SpawnOk)
  }

  lemma {:induction false} SpawnRun(n: nat, m: nat, k: nat)
    requires k <= n
    ensures Run(Initial(n, m), SpawnEvents(k), Idle(n, k, m))
  {
    if k == 0 {
      assert Idle(n, 0, m) == Initial(n, m);
    } else {
      SpawnRun(n, m, k - 1);
      var s := Idle(n, k - 1, m);
      assert s.workers + [Waiting] == Idle(n, k, m).workers;
      assert Run(Apply(s, SpawnOk), [], Idle(n, k, m));
      assert Run(s, [SpawnOk], Idle(n, k, m));
      RunConcat(Initial(n, m), SpawnEvents(k - 1), s, [SpawnOk], Idle(n, k, m));
      assert SpawnEvents(k - 1) + [SpawnOk] == SpawnEvents(k);
    }
  }

  lemma StepReachable(n: nat, m: nat, s: State, e: Event)
    requires Reachable(n, m, s) && Enabled(s, e)
    ensures Reachable(n, m, Apply(s, e))
  {
    var es :| Run(Initial(n, m), es, s);
    assert Run(Apply(s, e), [], Apply(s, e));
    assert Run(s, [e], Apply(s, e));
    RunConcat(Initial(n, m), es, s, [e], Apply(s, e));
  }

  // With two workers one of them can exit while the other still runs the only task.
  lemma ExitWhileRunning(n: nat, m: nat)
    requires n >= 2 && m >= 1
    ensures !AllRunBeforeAnyExit(n, m)
  {
    var s0 := Idle(n, n, m);
    SpawnRun(n, m, n);
    assert Reachable(n, m, s0);
    StepReachable(n, m, s0, InitDone);
    var s1 := Apply(s0, InitDone);
    StepReachable(n, m, s1, Enqueue(0, Task(0, 0)));
    var s2 := Apply(s1, Enqueue(0, Task(0, 0)));
    StepReachable(n, m, s2, Post(0));
    var s3 := Apply(s2, Post(0));
    StepReachable(n, m, s3, Acquire(0));
    var s4 := Apply(s3, Acquire(0));
    StepReachable(n, m, s4, Claim(0));
    var s5 := Apply(s4, Claim(0));
    assert |s5.accepted| == 1 && s5.queue == [] && s5.finished == {} && s5.workers[1] == Waiting;
    ExitWhileRunningTail(n, m, s5);
  }

  lemma ExitWhileRunningTail(n: nat, m: nat, s5: State)
    requires Reachable(n, m, s5) && s5.phase.Serving? && |s5.workers| >= 2 && s5.workers[1] == Waiting
    requires |s5.accepted| == 1 && s5.queue == [] && s5.finished == {}
    ensures !AllRunBeforeAnyExit(n, m)
  {
    StepReachable(n, m, s5, BeginShutdown);
    var s6 := Apply(s5, BeginShutdown);
    StepReachable(n, m, s6, ShutdownPost);
    var s7 := Apply(s6, ShutdownPost);
    StepReachable(n, m, s7, Acquire(1));
    var s8 := Apply(s7, Acquire(1));
    StepReachable(n, m, s8, Exit(1));
    var s9 := Apply(s8, Exit(1));
    assert s9.workers[1].Exited? && 0 < |s9.accepted| && 0 !in s9.finished;
  }

  // The comment holds exactly for pools of one thread; for larger ones the accurate statement is
  // `ExitOnlyAfterEverythingClaimed` together with `DestroyFinishesEverything`.
  lemma CommentTrueOnlyForOneThread(n: nat, m: nat)
    requires n >= 1 && m >= 1
    ensures AllRunBeforeAnyExit(n, m) <==> n == 1
  {
    if n >= 2 {
      ExitWhileRunning(n, m);
    } else {
      forall s: State, i: nat | Reachable(n, m, s) && i < |s.workers| && s.workers[i].Exited?
        ensures forall id: nat :: id < |s.accepted| ==> id in s.finished
      {
        ReachableInv(n, m, s);
        var es :| Run(Initial(n, m), es, s);
        ThreadCountFixed(Initial(n, m), es, s);
        ExitOnlyAfterEverythingClaimed(n, m, s, i);
        AllExitedFinished(s);
      }
    }
  }
}
