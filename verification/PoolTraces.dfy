// The thread pool of d4np/concurrency/thread_pool.c described by its runs alone: which sequences of
// events are runs is decided by counting events, without any state, and the state after a run is a
// function of its events.
module PoolTraces {
  import opened Common
  import opened Sums
  import opened ThreadPool

  // ---- counting events -------------------------------------------------------------------------------

  function Spawn(e: Event): nat { if e.SpawnOk? then 1 else 0 }

  function Enqueued(e: Event): nat { if e.Enqueue? then 1 else 0 }

  function Posted(e: Event): nat { if e.Post? || e.ShutdownPost? then 1 else 0 }

  function Signalled(e: Event): nat { if e.ShutdownPost? then 1 else 0 }

  function Acquired(e: Event): nat { if e.Acquire? then 1 else 0 }

  function Claimed(e: Event): nat { if e.Claim? then 1 else 0 }

  function Joined(e: Event): nat { if e.Join? then 1 else 0 }

  function EnqueuedBy(j: nat): Event -> nat {
    (e: Event) => if e.Enqueue? && e.j == j then 1 else 0
  }

  function PostedBy(j: nat): Event -> nat {
    (e: Event) => if e.Post? && e.j == j then 1 else 0
  }

  predicate IsWorkerStep(e: Event, i: nat) {
    (e.Acquire? || e.Claim? || e.Exit? || e.Finish?) && e.i == i
  }

  // The latest step of worker `i`.
  function Last(es: seq<Event>, i: nat): Option<Event> {
    if es == [] then None
    else if IsWorkerStep(es[|es| - 1], i) then Some(es[|es| - 1])
    else Last(es[..|es| - 1], i)
  }

  predicate LastIs(es: seq<Event>, i: nat, e: Event) {
    Last(es, i) == Some(e)
  }

  // The worker is at the top of its loop.
  predicate AtTop(es: seq<Event>, i: nat) {
    Last(es, i) == None || LastIs(es, i, Finish(i))
  }

  predicate Ending(es: seq<Event>) {
    BeginShutdown in es || SpawnFail in es
  }

  // Submitter `j` has posted for everything it enqueued.
  predicate Settled(es: seq<Event>, j: nat) {
    Sum(es, EnqueuedBy(j)) == Sum(es, PostedBy(j))
  }

  // What the source lets happen next in a pool of `n` threads and `m` submitters, by what has
  // happened before.
  predicate Permitted(n: nat, m: nat, es: seq<Event>, e: Event) {
    match e
    case SpawnOk => InitDone !in es && !Ending(es) && Sum(es, Spawn) < n
    case SpawnFail => InitDone !in es && !Ending(es) && Sum(es, Spawn) < n
    case InitDone => InitDone !in es && !Ending(es) && Sum(es, Spawn) == n
    case Enqueue(j, _) => InitDone in es && !Ending(es) && j < m && Settled(es, j)
    case Reject(j) => Ending(es) && j < m && Settled(es, j)
    case Post(j) => j < m && !Settled(es, j)
    case Acquire(i) => i < Sum(es, Spawn) && AtTop(es, i) && Sum(es, Acquired) < Sum(es, Posted)
    case Claim(i) => LastIs(es, i, Acquire(i)) && Sum(es, Claimed) < Sum(es, Enqueued)
    case Exit(i) => LastIs(es, i, Acquire(i)) && Sum(es, Claimed) == Sum(es, Enqueued)
    case Finish(i) => LastIs(es, i, Claim(i))
    case BeginShutdown => InitDone in es && !Ending(es)
    case ShutdownPost => Ending(es) && StartJoin !in es && Sum(es, Signalled) < Sum(es, Spawn)
    case StartJoin => Ending(es) && StartJoin !in es && Sum(es, Signalled) == Sum(es, Spawn)
    case Join =>
      && StartJoin in es && Drain !in es && Sum(es, Joined) < Sum(es, Spawn)
      && LastIs(es, Sum(es, Joined), Exit(Sum(es, Joined)))
    case Drain => StartJoin in es && Drain !in es && Sum(es, Joined) == Sum(es, Spawn)
  }

  // Every event is permitted by those before it.
  predicate Legal(n: nat, m: nat, es: seq<Event>) {
    es == [] || (Legal(n, m, es[..|es| - 1]) && Permitted(n, m, es[..|es| - 1], es[|es| - 1]))
  }

  lemma {:induction false} LegalAt(n: nat, m: nat, es: seq<Event>, k: nat)
    requires Legal(n, m, es) && k < |es|
    ensures Permitted(n, m, es[..k], es[k])
    decreases |es|
  {
    var front := es[..|es| - 1];
    if k == |es| - 1 {
    } else {
      LegalAt(n, m, front, k);
      assert front[..k] == es[..k];
    }
  }

  // ---- the state as a function of the events -------------------------------------------------------------

  // The tasks submitted, in order.
  function Submitted(es: seq<Event>): (ts: seq<Task>)
    ensures |ts| == Sum(es, Enqueued)
  {
    if es == [] then []
    else Submitted(es[..|es| - 1]) + (if es[|es| - 1].Enqueue? then [es[|es| - 1].task] else [])
  }

  // The number of the task worker `i` claimed last.
  function ClaimNumber(es: seq<Event>, i: nat): nat {
    if es == [] then 0
    else if es[|es| - 1] == Claim(i) then Sum(es[..|es| - 1], Claimed)
    else ClaimNumber(es[..|es| - 1], i)
  }

  function FinishedTasks(es: seq<Event>): set<nat> {
    if es == [] then {}
    else
      FinishedTasks(es[..|es| - 1]) +
      (if es[|es| - 1].Finish? then {ClaimNumber(es[..|es| - 1], es[|es| - 1].i)} else {})
  }

  function PhaseOf(es: seq<Event>): Phase {
    if Drain in es then Done(0)
    else if StartJoin in es then Joining(Sum(es, Joined))
    else if Ending(es) then Posting(Sum(es, Signalled))
    else if InitDone in es then Serving
    else Spawning
  }

  function WorkerOf(es: seq<Event>, i: nat): Worker {
    match Last(es, i)
    case None => Waiting
    case Some(e) =>
      if e.Acquire? then Holding
      else if e.Claim? then Running(ClaimNumber(es, i))
      else if e.Exit? then Exited
      else Waiting
  }

  ghost predicate WorkersTrack(es: seq<Event>, s: State) {
    && |s.workers| == Sum(es, Spawn)
    && (forall i :: 0 <= i < |s.workers| ==> s.workers[i] == WorkerOf(es, i))
    && (forall i: nat :: |s.workers| <= i ==> Last(es, i) == None)
    && (forall i: nat :: Last(es, i).Some? ==> IsWorkerStep(Last(es, i).value, i))
  }

  predicate SubmittersTrack(m: nat, es: seq<Event>, s: State) {
    && |s.submitters| == m
    && forall j :: 0 <= j < m ==> Sum(es, EnqueuedBy(j)) == Sum(es, PostedBy(j)) + OwingWeight(s.submitters[j])
  }

  predicate PhaseTracks(n: nat, es: seq<Event>, s: State) {
    && s.threadCount == n && s.phase == PhaseOf(es)
    && (Drain in es ==> StartJoin in es) && (StartJoin in es ==> Ending(es)) && (BeginShutdown in es ==> InitDone in es)
    && !(SpawnFail in es && InitDone in es)
    && (!Ending(es) ==> Sum(es, Signalled) == 0) && (StartJoin !in es ==> Sum(es, Joined) == 0)
    && s.permits + Sum(es, Acquired) == Sum(es, Posted)
  }

  predicate TasksTrack(es: seq<Event>, s: State) {
    && Sum(es, Claimed) <= |Submitted(es)| && s.accepted == Submitted(es)
    && s.claimed == Submitted(es)[..Sum(es, Claimed)] && s.queue == Submitted(es)[Sum(es, Claimed)..]
    && s.finished == FinishedTasks(es)
  }

  ghost predicate Tracks(n: nat, m: nat, es: seq<Event>, s: State) {
    PhaseTracks(n, es, s) && WorkersTrack(es, s) && SubmittersTrack(m, es, s) && TasksTrack(es, s)
  }

  // ---- one step ----------------------------------------------------------------------------------------

  // The state enables exactly the steps the events permit.
  lemma EnabledIffPermitted(n: nat, m: nat, es: seq<Event>, s: State, e: Event)
    requires Tracks(n, m, es, s)
    ensures Enabled(s, e) <==> Permitted(n, m, es, e)
  {
    if e.Enqueue? || e.Reject? || e.Post? {
      SubmitIffPermitted(n, m, es, s, e);
    } else if e.Acquire? || e.Claim? || e.Exit? || e.Finish? {
      WorkIffPermitted(n, m, es, s, e);
    } else {
      OwnerIffPermitted(n, m, es, s, e);
    }
  }

  lemma SubmitIffPermitted(n: nat, m: nat, es: seq<Event>, s: State, e: Event)
    requires Tracks(n, m, es, s) && (e.Enqueue? || e.Reject? || e.Post?)
    ensures Enabled(s, e) <==> Permitted(n, m, es, e)
  {
  }

  lemma WorkIffPermitted(n: nat, m: nat, es: seq<Event>, s: State, e: Event)
    requires Tracks(n, m, es, s) && (e.Acquire? || e.Claim? || e.Exit? || e.Finish?)
    ensures Enabled(s, e) <==> Permitted(n, m, es, e)
  {
    assert e.i < |s.workers| ==> s.workers[e.i] == WorkerOf(es, e.i);
    assert Last(es, e.i).Some? ==> IsWorkerStep(Last(es, e.i).value, e.i);
  }

  lemma OwnerIffPermitted(n: nat, m: nat, es: seq<Event>, s: State, e: Event)
    requires Tracks(n, m, es, s)
    requires !e.Enqueue? && !e.Reject? && !e.Post? && !e.Acquire? && !e.Claim? && !e.Exit? && !e.Finish?
    ensures Enabled(s, e) <==> Permitted(n, m, es, e)
  {
    if e.Join? && s.phase.Joining? && s.phase.joined < |s.workers| {
      var i := s.phase.joined;
      assert s.workers[i] == WorkerOf(es, i);
      assert Last(es, i).Some? ==> IsWorkerStep(Last(es, i).value, i);
    }
  }

  lemma MemberAppend(es: seq<Event>, e: Event, x: Event)
    ensures x in es + [e] <==> x in es || x == e
  {
  }

  lemma StepPhase(n: nat, es: seq<Event>, s: State, e: Event)
    requires PhaseTracks(n, es, s) && Enabled(s, e) && (e.Drain? ==> s.queue == [])
    ensures PhaseTracks(n, es + [e], Apply(s, e))
  {
    SumAppend(es, Acquired, e);
    SumAppend(es, Posted, e);
    SumAppend(es, Signalled, e);
    SumAppend(es, Joined, e);
    MemberAppend(es, e, InitDone);
    MemberAppend(es, e, BeginShutdown);
    MemberAppend(es, e, SpawnFail);
    MemberAppend(es, e, StartJoin);
    MemberAppend(es, e, Drain);
  }

  lemma LastAppend(es: seq<Event>, e: Event, i: nat)
    ensures Last(es + [e], i) == if IsWorkerStep(e, i) then Some(e) else Last(es, i)
    ensures ClaimNumber(es + [e], i) == if e == Claim(i) then Sum(es, Claimed) else ClaimNumber(es, i)
  {
    assert (es + [e])[..|es|] == es;
  }

  lemma StepWorkers(es: seq<Event>, s: State, e: Event)
    requires WorkersTrack(es, s) && Enabled(s, e) && |s.claimed| == Sum(es, Claimed)
    ensures WorkersTrack(es + [e], Apply(s, e))
  {
    var t := Apply(s, e);
    SumAppend(es, Spawn, e);
    forall i: nat
      ensures |t.workers| <= i ==> Last(es + [e], i) == None
      ensures Last(es + [e], i).Some? ==> IsWorkerStep(Last(es + [e], i).value, i)
    {
      LastAppend(es, e, i);
    }
    forall i | 0 <= i < |t.workers|
      ensures t.workers[i] == WorkerOf(es + [e], i)
    {
      LastAppend(es, e, i);
    }
  }

  lemma StepSubmitters(m: nat, es: seq<Event>, s: State, e: Event)
    requires SubmittersTrack(m, es, s) && Enabled(s, e)
    ensures SubmittersTrack(m, es + [e], Apply(s, e))
  {
    var t := Apply(s, e);
    forall j | 0 <= j < m
      ensures Sum(es + [e], EnqueuedBy(j)) == Sum(es + [e], PostedBy(j)) + OwingWeight(t.submitters[j])
    {
      SumAppend(es, EnqueuedBy(j), e);
      SumAppend(es, PostedBy(j), e);
    }
  }

  lemma StepTasks(es: seq<Event>, s: State, e: Event)
    requires TasksTrack(es, s) && Enabled(s, e) && (e.Drain? ==> s.queue == [])
    requires e.Finish? ==> s.workers[e.i] == Running(ClaimNumber(es, e.i))
    ensures TasksTrack(es + [e], Apply(s, e))
  {
    SumAppend(es, Claimed, e);
    assert (es + [e])[..|es|] == es;
  }

  lemma StepTracks(n: nat, m: nat, es: seq<Event>, s: State, e: Event)
    requires Tracks(n, m, es, s) && Enabled(s, e) && (e.Drain? ==> s.queue == [])
    ensures Tracks(n, m, es + [e], Apply(s, e))
  {
    if e.Finish? {
      assert s.workers[e.i] == WorkerOf(es, e.i);
    }
    StepPhase(n, es, s, e);
    StepWorkers(es, s, e);
    StepSubmitters(m, es, s, e);
    StepTasks(es, s, e);
  }

  // ---- whole runs ----------------------------------------------------------------------------------------

  lemma InitialTracks(n: nat, m: nat)
    ensures Tracks(n, m, [], Initial(n, m))
  {
  }

  lemma {:induction false} RunSplit(s: State, es: seq<Event>, t: State) returns (mid: State)
    requires es != [] && Run(s, es, t)
    ensures Run(s, es[..|es| - 1], mid) && Enabled(mid, es[|es| - 1]) && t == Apply(mid, es[|es| - 1])
    decreases |es|
  {
    if |es| == 1 {
      mid := s;
    } else {
      var rest, k := es[1..], |es| - 1;
      mid := RunSplit(Apply(s, es[0]), rest, t);
      assert rest[..k - 1] == es[..k][1..];
    }
  }

  lemma RunStep(s: State, es: seq<Event>, t: State, e: Event)
    requires Run(s, es, t) && Enabled(t, e)
    ensures Run(s, es + [e], Apply(t, e))
  {
    assert Run(Apply(t, e), [], Apply(t, e));
    assert Run(t, [e], Apply(t, e));
    RunConcat(s, es, t, [e], Apply(t, e));
  }

  lemma DrainedEmpty(n: nat, m: nat, s: State, e: Event)
    requires Reachable(n, m, s) && Enabled(s, e)
    ensures e.Drain? ==> s.queue == []
  {
    ReachableInv(n, m, s);
    if e.Drain? {
      DrainFindsNothing(s);
    }
  }

  // The state after a run is determined by its events, and each of them was permitted.
  lemma {:induction false} RunTracks(n: nat, m: nat, es: seq<Event>, s: State)
    requires n > 0 && Run(Initial(n, m), es, s)
    ensures Tracks(n, m, es, s) && Legal(n, m, es)
    decreases |es|
  {
    if es == [] {
      InitialTracks(n, m);
    } else {
      var k := |es| - 1;
      var mid := RunSplit(Initial(n, m), es, s);
      RunTracks(n, m, es[..k], mid);
      assert Reachable(n, m, mid);
      DrainedEmpty(n, m, mid, es[k]);
      EnabledIffPermitted(n, m, es[..k], mid, es[k]);
      StepTracks(n, m, es[..k], mid, es[k]);
      assert es[..k] + [es[k]] == es;
    }
  }

  // Every sequence of permitted events is a run.
  lemma {:induction false} LegalRuns(n: nat, m: nat, es: seq<Event>) returns (s: State)
    requires n > 0 && Legal(n, m, es)
    ensures Run(Initial(n, m), es, s)
    decreases |es|
  {
    if es == [] {
      s := Initial(n, m);
    } else {
      var k := |es| - 1;
      var mid := LegalRuns(n, m, es[..k]);
      RunTracks(n, m, es[..k], mid);
      EnabledIffPermitted(n, m, es[..k], mid, es[k]);
      RunStep(Initial(n, m), es[..k], mid, es[k]);
      s := Apply(mid, es[k]);
      assert es[..k] + [es[k]] == es;
    }
  }

  // The runs of the pool are exactly the sequences in which every event is permitted by those before
  // it: the pool is specified without its state.
  lemma RunsAreLegal(n: nat, m: nat, es: seq<Event>)
    requires n > 0
    ensures CanHappen(n, m, es) <==> Legal(n, m, es)
  {
    if CanHappen(n, m, es) {
      var s :| Run(Initial(n, m), es, s);
      RunTracks(n, m, es, s);
    } else if Legal(n, m, es) {
      var s := LegalRuns(n, m, es);
    }
  }

  ghost predicate CanHappen(n: nat, m: nat, es: seq<Event>) {
    exists s :: Run(Initial(n, m), es, s)
  }

  // What a pool holds after a run: the tasks submitted, claimed in that order, and the finished ones.
  lemma HistoryIsTrace(n: nat, m: nat, es: seq<Event>, s: State)
    requires n > 0 && Run(Initial(n, m), es, s)
    ensures s.accepted == Submitted(es) && s.finished == FinishedTasks(es)
    ensures Sum(es, Claimed) <= |Submitted(es)| && s.claimed == Submitted(es)[..Sum(es, Claimed)]
    ensures s.permits + Sum(es, Acquired) == Sum(es, Posted)
    ensures s.phase == PhaseOf(es)
  {
    RunTracks(n, m, es, s);
  }

  // ---- how submissions are answered -------------------------------------------------------------------------

  // A submission is refused only after shutdown has begun, or init has failed, and accepted only
  // before.
  lemma AnswersOfSubmit(n: nat, m: nat, es: seq<Event>, s: State, k: nat)
    requires n > 0 && Run(Initial(n, m), es, s) && k < |es|
    ensures es[k].Reject? ==> BeginShutdown in es[..k] || SpawnFail in es[..k]
    ensures es[k].Enqueue? ==> InitDone in es[..k] && BeginShutdown !in es[..k] && SpawnFail !in es[..k]
  {
    RunTracks(n, m, es, s);
    LegalAt(n, m, es, k);
  }

  // A pool that has been initialised and not told to shut down accepts any task from any submitter
  // that owes no post, whatever is queued or running, and can be told to shut down.
  lemma ServingAccepts(n: nat, m: nat, es: seq<Event>, s: State, j: nat, task: Task) returns (t: State)
    requires n > 0 && Run(Initial(n, m), es, s) && InitDone in es && BeginShutdown !in es
    requires j < m && Settled(es, j)
    ensures Run(Initial(n, m), es + [Enqueue(j, task)], t) && t.accepted == s.accepted + [task]
    ensures Enabled(s, BeginShutdown)
  {
    RunTracks(n, m, es, s);
    EnabledIffPermitted(n, m, es, s, Enqueue(j, task));
    EnabledIffPermitted(n, m, es, s, BeginShutdown);
    RunStep(Initial(n, m), es, s, Enqueue(j, task));
    t := Apply(s, Enqueue(j, task));
  }

  // Once shutdown has begun every submission is refused, at once and without effect.
  lemma ShutdownRefuses(n: nat, m: nat, es: seq<Event>, s: State, j: nat, task: Task)
    requires n > 0 && Run(Initial(n, m), es, s) && Ending(es) && j < m && Settled(es, j)
    ensures Enabled(s, Reject(j)) && Apply(s, Reject(j)) == s && !Enabled(s, Enqueue(j, task))
  {
    RunTracks(n, m, es, s);
    EnabledIffPermitted(n, m, es, s, Reject(j));
    EnabledIffPermitted(n, m, es, s, Enqueue(j, task));
  }

  // Init may fail at any thread; what has been started is then shut down.
  lemma InitMayFail(n: nat, m: nat, k: nat) returns (s: State)
    requires k < n
    ensures Run(Initial(n, m), SpawnEvents(k) + [SpawnFail], s) && |s.workers| == k && s.phase == Posting(0)
  {
    SpawnRun(n, m, k);
    RunStep(Initial(n, m), SpawnEvents(k), Idle(n, k, m), SpawnFail);
    s := Apply(Idle(n, k, m), SpawnFail);
  }
}
