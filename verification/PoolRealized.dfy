// The thread pool on the mutex-and-condition-variable semaphore can do everything the pool can: each
// wait and post of the pool is carried out by the steps of d4np/concurrency/semaphore.c, and
// submissions are answered as without them.
module PoolRealized {
  import opened Common
  import opened Sums
  import opened Words
  import opened PoolOnSemaphore
  import P = ThreadPool
  import S = Semaphore
  import T = PoolTraces

  lemma RunStep(s: State, es: seq<Event>, t: State, e: Event)
    requires Run(s, es, t) && Enabled(t, e)
    ensures Run(s, es + [e], Apply(t, e))
  {
    assert Run(Apply(t, e), [], Apply(t, e));
    assert Run(t, [e], Apply(t, e));
    RunConcat(s, es, t, [e], Apply(t, e));
  }

  lemma Extend(s: State, es: seq<Event>, t: State, e: Event) returns (fs: seq<Event>, u: State)
    requires Run(s, es, t) && Enabled(t, e)
    ensures fs == es + [e] && u == Apply(t, e) && Run(s, fs, u)
  {
    RunStep(s, es, t, e);
    fs, u := es + [e], Apply(t, e);
  }

  // A submitter outside the semaphore that owes no post has its task accepted while the pool serves
  // and there is memory, and refused once it shuts down, wherever all other threads are.
  lemma SubmitNeverBlocked(s: State, j: nat, task: P.Task)
    requires j < |s.pool.submitters| && s.pool.submitters[j].Ready? && Outside(s, SubmitterThread(s.pool, j))
    ensures InMemory(s.pool, |s.pool.queue| + 1) ==>
              (Enabled(s, InPool(P.Enqueue(j, task))) <==> s.pool.phase.Serving?)
    ensures Enabled(s, InPool(P.Reject(j))) <==> P.ShuttingDown(s.pool)
  {
  }

  // ---- calls between quiet states --------------------------------------------------------------------------

  // No thread is inside the semaphore, and its counter is the pool's permit count.
  ghost predicate Quiet(s: State) {
    && |s.sem.threads| == OwnerThread(s.pool) + 1 && s.sem.count == s.pool.permits
    && |s.pool.workers| <= s.pool.threadCount
    && forall i :: 0 <= i < |s.sem.threads| ==> s.sem.threads[i].Idle?
  }

  // Only thread `i` is inside the semaphore, at `t`.
  ghost predicate OnlyInside(s: State, i: nat, t: S.Thread) {
    && |s.sem.threads| == OwnerThread(s.pool) + 1 && i < |s.sem.threads| && s.sem.threads[i] == t
    && s.sem.count == s.pool.permits && |s.pool.workers| <= s.pool.threadCount
    && forall k :: 0 <= k < |s.sem.threads| && k != i ==> s.sem.threads[k].Idle?
  }

  lemma RealizeAcquire(s: State, es: seq<Event>, t: State, i: nat) returns (fs: seq<Event>, u: State)
    requires Run(s, es, t) && Quiet(t) && P.Enabled(t.pool, P.Acquire(i))
    ensures Run(s, fs, u) && Quiet(u) && u.pool == P.Apply(t.pool, P.Acquire(i))
  {
    fs, u := Extend(s, es, t, InSemaphore(S.CallWait(i)));
    assert OnlyInside(u, i, S.WantWait) && u.pool == t.pool;
    fs, u := Extend(s, fs, u, InSemaphore(S.LockWait(i)));
    assert OnlyInside(u, i, S.Checking) && u.pool == t.pool;
    fs, u := FinishAcquire(s, fs, u, i);
  }

  lemma FinishAcquire(s: State, es: seq<Event>, t: State, i: nat) returns (fs: seq<Event>, u: State)
    requires Run(s, es, t) && OnlyInside(t, i, S.Checking) && P.Enabled(t.pool, P.Acquire(i))
    ensures Run(s, fs, u) && Quiet(u) && u.pool == P.Apply(t.pool, P.Acquire(i))
  {
    fs, u := TakePermit(s, es, t, i);
    fs, u := Extend(s, fs, u, InSemaphore(S.UnlockWait(i)));
  }

  lemma TakePermit(s: State, es: seq<Event>, t: State, i: nat) returns (fs: seq<Event>, u: State)
    requires Run(s, es, t) && OnlyInside(t, i, S.Checking) && P.Enabled(t.pool, P.Acquire(i))
    ensures Run(s, fs, u) && OnlyInside(u, i, S.LeavingWait) && u.pool == P.Apply(t.pool, P.Acquire(i))
  {
    fs, u := Extend(s, es, t, InSemaphore(S.TakePermit(i)));
  }

  // The post of a submitter or of the owner, which the pool sees as `c`.
  lemma RealizePost(s: State, es: seq<Event>, t: State, i: nat, c: P.Event) returns (fs: seq<Event>, u: State)
    requires Run(s, es, t) && Quiet(t) && P.Enabled(t.pool, c) && (c.Post? || c.ShutdownPost?)
    requires i == (if c.Post? then SubmitterThread(t.pool, c.j) else OwnerThread(t.pool)) && t.sem.count < WORD_MAX
    ensures Run(s, fs, u) && Quiet(u) && u.pool == P.Apply(t.pool, c)
  {
    fs, u := CallPost(s, es, t, i);
    fs, u := LockPost(s, fs, u, i);
    fs, u := AddPermit(s, fs, u, i, c);
    fs, u := FinishPost(s, fs, u, i);
  }

  lemma CallPost(s: State, es: seq<Event>, t: State, i: nat) returns (fs: seq<Event>, u: State)
    requires Run(s, es, t) && Quiet(t) && i < |t.sem.threads| && MayCall(t.pool, S.CallPost(i))
    ensures Run(s, fs, u) && OnlyInside(u, i, S.WantPost) && u.pool == t.pool
  {
    fs, u := Extend(s, es, t, InSemaphore(S.CallPost(i)));
  }

  lemma LockPost(s: State, es: seq<Event>, t: State, i: nat) returns (fs: seq<Event>, u: State)
    requires Run(s, es, t) && OnlyInside(t, i, S.WantPost)
    ensures Run(s, fs, u) && OnlyInside(u, i, S.Adding) && u.pool == t.pool
  {
    fs, u := Extend(s, es, t, InSemaphore(S.LockPost(i)));
  }

  lemma AddPermit(s: State, es: seq<Event>, t: State, i: nat, c: P.Event) returns (fs: seq<Event>, u: State)
    requires Run(s, es, t) && OnlyInside(t, i, S.Adding) && P.Enabled(t.pool, c) && (c.Post? || c.ShutdownPost?)
    requires i == (if c.Post? then SubmitterThread(t.pool, c.j) else OwnerThread(t.pool)) && t.sem.count < WORD_MAX
    ensures Run(s, fs, u) && OnlyInside(u, i, S.Signalling) && u.pool == P.Apply(t.pool, c)
  {
    SmallMod(t.sem.count + 1, WORD);
    assert View(t.pool, S.Increment(i)) == Some(c);
    fs, u := Extend(s, es, t, InSemaphore(S.Increment(i)));
  }

  lemma FinishPost(s: State, es: seq<Event>, t: State, i: nat) returns (fs: seq<Event>, u: State)
    requires Run(s, es, t) && OnlyInside(t, i, S.Signalling)
    ensures Run(s, fs, u) && Quiet(u) && u.pool == t.pool
  {
    fs, u := SignalNobody(s, es, t, i);
    fs, u := Extend(s, fs, u, InSemaphore(S.UnlockPost(i)));
  }

  lemma SignalNobody(s: State, es: seq<Event>, t: State, i: nat) returns (fs: seq<Event>, u: State)
    requires Run(s, es, t) && OnlyInside(t, i, S.Signalling)
    ensures Run(s, fs, u) && OnlyInside(u, i, S.LeavingPost) && u.pool == t.pool
  {
    fs, u := Extend(s, es, t, InSemaphore(S.Signal(i, {})));
  }

  lemma RealizeOther(s: State, es: seq<Event>, t: State, c: P.Event) returns (fs: seq<Event>, u: State)
    requires Run(s, es, t) && Quiet(t) && P.Enabled(t.pool, c) && !c.Post? && !c.Acquire? && !c.ShutdownPost?
    requires InMemory(t.pool, |t.pool.queue| + 1)
    ensures Run(s, fs, u) && Quiet(u) && u.pool == P.Apply(t.pool, c)
  {
    fs, u := Extend(s, es, t, InPool(c));
  }

  lemma RealizeStep(s: State, es: seq<Event>, t: State, c: P.Event) returns (fs: seq<Event>, u: State)
    requires Run(s, es, t) && Quiet(t) && P.Enabled(t.pool, c)
    requires InMemory(t.pool, |t.pool.queue| + 1) && t.sem.count < WORD_MAX
    ensures Run(s, fs, u) && Quiet(u) && u.pool == P.Apply(t.pool, c)
  {
    if c.Acquire? {
      fs, u := RealizeAcquire(s, es, t, c.i);
    } else if c.Post? {
      fs, u := RealizePost(s, es, t, SubmitterThread(t.pool, c.j), c);
    } else if c.ShutdownPost? {
      fs, u := RealizePost(s, es, t, OwnerThread(t.pool), c);
    } else {
      fs, u := RealizeOther(s, es, t, c);
    }
  }

  // Queue and permits are bounded by the tasks submitted and the threads.
  lemma RunBounds(n: nat, m: nat, ps: seq<P.Event>, p: P.State)
    requires n > 0 && P.Run(P.Initial(n, m), ps, p)
    ensures |p.queue| <= Sum(ps, T.Enqueued) && p.permits <= Sum(ps, T.Enqueued) + n && p.threadCount == n
  {
    T.RunTracks(n, m, ps, p);
    assert P.Reachable(n, m, p);
    P.ReachableInv(n, m, p);
  }

  // Every state the pool reaches with fewer submissions than memory can hold it also reaches on the
  // mutex-and-condition-variable semaphore.
  lemma {:induction false} RealizesPool(n: nat, m: nat, ps: seq<P.Event>, p: P.State) returns (es: seq<Event>, s: State)
    requires n > 0 && P.Run(P.Initial(n, m), ps, p) && Sum(ps, T.Enqueued) + n + 1 < WORD
    ensures Run(Initial(n, m), es, s) && Quiet(s) && s.pool == p
    decreases |ps|
  {
    if ps == [] {
      es, s := [], Initial(n, m);
    } else {
      var k := |ps| - 1;
      var q := T.RunSplit(P.Initial(n, m), ps, p);
      es, s := RealizesPool(n, m, ps[..k], q);
      RunBounds(n, m, ps[..k], q);
      es, s := RealizeStep(Initial(n, m), es, s, ps[k]);
    }
  }
}
