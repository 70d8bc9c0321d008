// Submissions to the thread pool of d4np/concurrency/thread_pool.c with real task nodes: how each is
// answered, and that the pool over its nodes can do everything the pool can.
module NodeTraces {
  import opened Common
  import opened Sums
  import opened TaskNodes
  import P = ThreadPool
  import T = PoolTraces

  // ---- the answers of a run ----------------------------------------------------------------------------

  lemma {:induction false} PoolEventsMember(es: seq<Event>, c: P.Event)
    ensures c in PoolEvents(es) <==> Pool(c) in es
  {
    if es == [] {
    } else {
      PoolEventsMember(es[1..], c);
      assert es == [es[0]] + es[1..];
    }
  }

  // The state before event `k` of a run.
  lemma {:induction false} RunAt(s: State, es: seq<Event>, t: State, k: nat) returns (mid: State)
    requires Run(s, es, t) && k < |es|
    ensures Run(s, es[..k], mid) && Ready(mid, es[k])
    decreases k
  {
    if k == 0 {
      mid := s;
    } else {
      mid := RunAt(Apply(s, es[0]), es[1..], t, k - 1);
      assert es[1..][..k - 1] == es[..k][1..];
    }
  }

  // A submission is refused only after shutdown has begun, or init has failed, and accepted only
  // before.
  lemma AnswersOfSubmit(n: nat, m: nat, es: seq<Event>, s: State, k: nat)
    requires n > 0 && Run(Initial(n, m), es, s) && k < |es| && es[k].Pool?
    ensures es[k].step.Reject? ==> Pool(P.BeginShutdown) in es[..k] || Pool(P.SpawnFail) in es[..k]
    ensures es[k].step.Enqueue? ==>
              Pool(P.InitDone) in es[..k] && Pool(P.BeginShutdown) !in es[..k] && Pool(P.SpawnFail) !in es[..k]
  {
    var mid := RunAt(Initial(n, m), es, s, k);
    InitialInv(n, m);
    RunProjects(Initial(n, m), es[..k], mid);
    T.RunTracks(n, m, PoolEvents(es[..k]), mid.pool);
    PoolAgrees(mid, es[k].step);
    T.EnabledIffPermitted(n, m, PoolEvents(es[..k]), mid.pool, es[k].step);
    PoolEventsMember(es[..k], P.BeginShutdown);
    PoolEventsMember(es[..k], P.SpawnFail);
    PoolEventsMember(es[..k], P.InitDone);
  }

  // ---- calls left to themselves ------------------------------------------------------------------------

  lemma {:induction false} RunExtend(s: State, es: seq<Event>, t: State, e: Event)
    requires Run(s, es, t) && Ready(t, e) && Safe(t, e)
    ensures Run(s, es + [e], Apply(t, e))
    decreases |es|
  {
    if es == [] {
      assert Run(Apply(t, e), [], Apply(t, e));
    } else {
      RunExtend(Apply(s, es[0]), es[1..], t, e);
      assert (es + [e])[1..] == es[1..] + [e];
    }
  }

  // One more step of a run that began in a reachable state.
  lemma Extend(n: nat, m: nat, s: State, es: seq<Event>, t: State, e: Event) returns (fs: seq<Event>, u: State)
    requires Run(s, es, t) && Reachable(n, m, t) && Ready(t, e)
    ensures Safe(t, e) && fs == es + [e] && u == Apply(t, e) && Run(s, fs, u) && Reachable(n, m, u)
  {
    NoUseAfterFree(n, m, t, e);
    RunExtend(s, es, t, e);
    var es0 :| Run(Initial(n, m), es0, t);
    RunExtend(Initial(n, m), es0, t, e);
    fs, u := es + [e], Apply(t, e);
  }

  // A submitter outside submit that has posted for all its tasks.
  predicate Free(s: State, j: nat) {
    j < |s.hands| && s.hands[j].NoNode? && j < |s.pool.submitters| && s.pool.submitters[j].Ready?
  }

  // The first half of submit: a filled node.
  lemma PrepareNode(n: nat, m: nat, s: State, es: seq<Event>, t: State, j: nat, a: Addr, task: P.Task)
    returns (fs: seq<Event>, u: State)
    requires Run(s, es, t) && Reachable(n, m, t) && !t.pool.phase.Spawning? && Free(t, j) && a !in t.heap
    ensures Run(s, fs, u) && Reachable(n, m, u)
    ensures u.pool == t.pool && u.grips == t.grips && u.hands == t.hands[j := Filled(a, task)]
    ensures u.heap.Keys == t.heap.Keys + {a} && u.frees == t.frees
  {
    fs, u := Extend(n, m, s, es, t, Allocate(j, a, Node(task, None), task));
    fs, u := Extend(n, m, s, fs, u, Fill(j));
    assert u.hands == t.hands[j := Filled(a, task)];
  }

  // A submission to a serving pool that runs alone is accepted, whatever is queued, running or being
  // submitted by others.
  lemma SubmitAccepted(n: nat, m: nat, s: State, j: nat, a: Addr, task: P.Task) returns (es: seq<Event>, t: State)
    requires Reachable(n, m, s) && s.pool.phase.Serving? && Free(s, j) && a !in s.heap
    ensures Run(s, es, t) && t.pool.accepted == s.pool.accepted + [task] && t.pool.queue == s.pool.queue + [task]
    ensures t.hands == s.hands && t.grips == s.grips
  {
    assert Run(s, [], s);
    es, t := PrepareNode(n, m, s, [], s, j, a, task);
    es, t := QueueNode(n, m, s, es, t, j);
    assert s.hands[j := NoNode] == s.hands;
  }

  // The phase of the pool is told by the events of the run.
  lemma PhaseIsTrace(n: nat, m: nat, es: seq<Event>, s: State)
    requires n > 0 && Run(Initial(n, m), es, s)
    ensures s.pool.phase == T.PhaseOf(PoolEvents(es))
    ensures Pool(P.InitDone) in es && Pool(P.BeginShutdown) !in es ==> s.pool.phase.Serving?
  {
    InitialInv(n, m);
    RunProjects(Initial(n, m), es, s);
    T.RunTracks(n, m, PoolEvents(es), s.pool);
    PoolEventsMember(es, P.BeginShutdown);
    PoolEventsMember(es, P.InitDone);
  }

  // After any run that has initialised the pool and not told it to shut down, every free submitter
  // can have any task accepted.
  lemma ServingAccepts(n: nat, m: nat, es: seq<Event>, s: State, j: nat, a: Addr, task: P.Task)
    returns (fs: seq<Event>, t: State)
    requires n > 0 && Run(Initial(n, m), es, s) && Pool(P.InitDone) in es && Pool(P.BeginShutdown) !in es
    requires Free(s, j) && a !in s.heap
    ensures Run(s, fs, t) && t.pool.accepted == s.pool.accepted + [task]
  {
    PhaseIsTrace(n, m, es, s);
    fs, t := SubmitAccepted(n, m, s, j, a, task);
  }

  // In the middle of submit there is always a next step: a fresh node is filled, a filled one queued
  // while the pool serves and refused once it shuts down, and a refused one freed.
  lemma SubmitNeverBlocked(n: nat, m: nat, s: State, j: nat)
    requires Reachable(n, m, s) && j < |s.hands|
    ensures s.hands[j].Fresh? ==> Ready(s, Fill(j))
    ensures s.hands[j].Filled? ==> (Ready(s, Pool(P.Enqueue(j, s.hands[j].task))) <==> s.pool.phase.Serving?)
    ensures s.hands[j].Filled? ==> (Ready(s, Pool(P.Reject(j))) <==> P.ShuttingDown(s.pool))
    ensures s.hands[j].Refused? ==> Ready(s, FreeRefused(j))
  {
    RefinesPool(n, m, s);
    assert HandOk(s, j);
  }

  lemma QueueNode(n: nat, m: nat, s: State, es: seq<Event>, t: State, j: nat) returns (fs: seq<Event>, u: State)
    requires Run(s, es, t) && Reachable(n, m, t) && t.pool.phase.Serving?
    requires j < |t.hands| && t.hands[j].Filled? && j < |t.pool.submitters| && t.pool.submitters[j].Ready?
    ensures Run(s, fs, u) && u.pool == P.Apply(t.pool, P.Enqueue(j, t.hands[j].task))
    ensures u.hands == t.hands[j := NoNode] && u.grips == t.grips
  {
    fs, u := Extend(n, m, s, es, t, Pool(P.Enqueue(j, t.hands[j].task)));
  }

  // One to a pool that is shutting down is refused, and leaves no node behind.
  lemma SubmitRefused(n: nat, m: nat, s: State, j: nat, a: Addr, task: P.Task) returns (es: seq<Event>, t: State)
    requires Reachable(n, m, s) && P.ShuttingDown(s.pool) && Free(s, j) && a !in s.heap
    ensures Run(s, es, t) && t.pool == s.pool && t.hands == s.hands && t.grips == s.grips
    ensures t.heap.Keys == s.heap.Keys && t.frees == s.frees + 1
  {
    assert Run(s, [], s);
    es, t := PrepareNode(n, m, s, [], s, j, a, task);
    es, t := RefuseNode(n, m, s, es, t, j);
    assert s.hands[j := NoNode] == s.hands;
  }

  lemma RefuseNode(n: nat, m: nat, s: State, es: seq<Event>, t: State, j: nat) returns (fs: seq<Event>, u: State)
    requires Run(s, es, t) && Reachable(n, m, t) && P.ShuttingDown(t.pool)
    requires j < |t.hands| && t.hands[j].Filled? && j < |t.pool.submitters| && t.pool.submitters[j].Ready?
    ensures Run(s, fs, u) && u.pool == t.pool && u.hands == t.hands[j := NoNode] && u.grips == t.grips
    ensures u.heap.Keys == t.heap.Keys - {t.hands[j].n} && u.frees == t.frees + 1
  {
    fs, u := Extend(n, m, s, es, t, Pool(P.Reject(j)));
    fs, u := Extend(n, m, s, fs, u, FreeRefused(j));
    assert u.hands == t.hands[j := NoNode];
  }

  // ---- every run of the pool is one with nodes -----------------------------------------------------------

  lemma {:induction false} UpperBound(h: set<nat>) returns (b: nat)
    ensures forall a :: a in h ==> a < b
  {
    if h == {} {
      b := 0;
    } else {
      var x :| x in h;
      var c := UpperBound(h - {x});
      assert forall a :: a in h ==> a == x || a in h - {x};
      b := if x < c then c else x + 1;
    }
  }

  // Between calls: no submitter has a node, and a worker has one exactly while it runs its task.
  ghost predicate Calm(s: State) {
    && |s.hands| == |s.pool.submitters| && |s.pool.workers| <= |s.grips|
    && (forall j :: 0 <= j < |s.hands| ==> s.hands[j].NoNode?)
    && (forall i :: 0 <= i < |s.grips| ==> s.grips[i].Nothing? || s.grips[i].Calling?)
    && (forall i :: 0 <= i < |s.pool.workers| ==> (s.grips[i].Calling? <==> s.pool.workers[i].Running?))
  }

  lemma RealizeSubmission(n: nat, m: nat, s: State, es: seq<Event>, t: State, c: P.Event)
    returns (fs: seq<Event>, u: State)
    requires Run(s, es, t) && Reachable(n, m, t) && Calm(t) && P.Enabled(t.pool, c) && (c.Enqueue? || c.Reject?)
    ensures Run(s, fs, u) && Calm(u) && u.pool == P.Apply(t.pool, c)
  {
    var a := UpperBound(t.heap.Keys);
    fs, u := PrepareNode(n, m, s, es, t, c.j, a, if c.Enqueue? then c.task else P.Task(0, 0));
    if c.Enqueue? {
      fs, u := QueueNode(n, m, s, fs, u, c.j);
    } else {
      fs, u := RefuseNode(n, m, s, fs, u, c.j);
    }
  }

  // The head pointer is NULL exactly when the pool's queue is empty.
  lemma HeadTest(n: nat, m: nat, s: State)
    requires Reachable(n, m, s)
    ensures s.qHead.Some? <==> s.pool.queue != []
  {
    RefinesPool(n, m, s);
  }

  lemma RealizeClaim(n: nat, m: nat, s: State, es: seq<Event>, t: State, c: P.Event) returns (fs: seq<Event>, u: State)
    requires Run(s, es, t) && Reachable(n, m, t) && Calm(t) && P.Enabled(t.pool, c) && c.Claim?
    ensures Run(s, fs, u) && Calm(u) && u.pool == P.Apply(t.pool, c)
  {
    HeadTest(n, m, t);
    fs, u := Extend(n, m, s, es, t, Pool(c));
    fs, u := Extend(n, m, s, fs, u, Call(c.i));
  }

  lemma RealizeFinish(n: nat, m: nat, s: State, es: seq<Event>, t: State, c: P.Event) returns (fs: seq<Event>, u: State)
    requires Run(s, es, t) && Reachable(n, m, t) && Calm(t) && P.Enabled(t.pool, c) && c.Finish?
    ensures Run(s, fs, u) && Calm(u) && u.pool == P.Apply(t.pool, c)
  {
    fs, u := Extend(n, m, s, es, t, Pool(c));
    fs, u := Extend(n, m, s, fs, u, FreeRun(c.i));
  }

  lemma RealizeQuiet(n: nat, m: nat, s: State, es: seq<Event>, t: State, c: P.Event) returns (fs: seq<Event>, u: State)
    requires Run(s, es, t) && Reachable(n, m, t) && Calm(t) && P.Enabled(t.pool, c)
    requires !c.Enqueue? && !c.Reject? && !c.Claim? && !c.Finish?
    requires c.SpawnOk? ==> |t.pool.workers| < |t.grips| && t.grips[|t.pool.workers|].Nothing?
    ensures Run(s, fs, u) && Calm(u) && u.pool == P.Apply(t.pool, c)
  {
    HeadTest(n, m, t);
    fs, u := Extend(n, m, s, es, t, Pool(c));
  }

  // A thread that has yet to be spawned has no node.
  lemma SpawnSlot(n: nat, m: nat, s: State, c: P.Event)
    requires Reachable(n, m, s) && P.Enabled(s.pool, c) && c.SpawnOk?
    ensures |s.pool.workers| < |s.grips| && s.grips[|s.pool.workers|].Nothing?
  {
    RefinesPool(n, m, s);
    assert GripOk(s, |s.pool.workers|);
  }

  lemma RealizeStep(n: nat, m: nat, s: State, es: seq<Event>, t: State, c: P.Event) returns (fs: seq<Event>, u: State)
    requires Run(s, es, t) && Reachable(n, m, t) && Calm(t) && P.Enabled(t.pool, c)
    ensures Run(s, fs, u) && Calm(u) && u.pool == P.Apply(t.pool, c)
  {
    if c.Enqueue? || c.Reject? {
      fs, u := RealizeSubmission(n, m, s, es, t, c);
    } else if c.Claim? {
      fs, u := RealizeClaim(n, m, s, es, t, c);
    } else if c.Finish? {
      fs, u := RealizeFinish(n, m, s, es, t, c);
    } else {
      if c.SpawnOk? {
        SpawnSlot(n, m, t, c);
      }
      fs, u := RealizeQuiet(n, m, s, es, t, c);
    }
  }

  // The pool over its nodes can do whatever the pool can: every state the pool reaches it reaches too.
  lemma {:induction false} RealizesPool(n: nat, m: nat, ps: seq<P.Event>, p: P.State) returns (es: seq<Event>, s: State)
    requires n > 0 && P.Run(P.Initial(n, m), ps, p)
    ensures Run(Initial(n, m), es, s) && Calm(s) && s.pool == p
    decreases |ps|
  {
    if ps == [] {
      es, s := [], Initial(n, m);
    } else {
      var k := |ps| - 1;
      var q := T.RunSplit(P.Initial(n, m), ps, p);
      es, s := RealizesPool(n, m, ps[..k], q);
      es, s := RealizeStep(n, m, Initial(n, m), es, s, ps[k]);
    }
  }
}
