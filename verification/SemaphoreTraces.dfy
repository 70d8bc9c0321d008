// The semaphore of d4np/concurrency/semaphore.c seen by its callers: what trywait answers, the
// counter as a function of the steps of a run, and the exact effect of each call left to itself.
module SemaphoreTraces {
  import opened Sums
  import opened Words
  import opened Semaphore

  // ---- the run determines the counter and the answers -----------------------------------------------

  function PostStep(e: Event): nat { if e.Increment? then 1 else 0 }

  function WaitStep(e: Event): nat { if e.TakePermit? then 1 else 0 }

  function TryStep(e: Event): nat { if e.TryTake? then 1 else 0 }

  function RefuseStep(e: Event): nat { if e.TryRefuse? then 1 else 0 }

  function TrueReply(r: Reply): nat { if r.ok then 1 else 0 }

  function FalseReply(r: Reply): nat { if r.ok then 0 else 1 }

  // A trywait that has decided and has yet to return.
  function LeavingWith(ok: bool): Thread -> nat {
    t => if t == LeavingTry(ok) then 1 else 0
  }

  // The permits a run has posted and taken.
  ghost predicate PermitCounts(es: seq<Event>, s: State) {
    s.posts == Sum(es, PostStep) && s.acquired == Sum(es, WaitStep) + Sum(es, TryStep)
  }

  // The trywaits that have answered `ok` or are about to.
  function Answered(s: State, ok: bool): nat {
    Sum(s.replies, if ok then TrueReply else FalseReply) + Sum(s.threads, LeavingWith(ok))
  }

  function Decided(ok: bool): Event -> nat {
    if ok then TryStep else RefuseStep
  }

  lemma {:induction false} RunSplit(s: State, es: seq<Event>, t: State) returns (mid: State)
    requires es != [] && Run(s, es, t)
    ensures Run(s, es[..|es| - 1], mid) && Enabled(mid, es[|es| - 1]) && t == Apply(mid, es[|es| - 1])
    decreases |es|
  {
    if |es| == 1 {
      mid := s;
    } else {
      var rest, n := es[1..], |es| - 1;
      mid := RunSplit(Apply(s, es[0]), rest, t);
      assert rest[..n - 1] == es[..n][1..];
    }
  }

  lemma {:induction false} WakeLeaving(ts: seq<Thread>, woken: set<nat>, ok: bool)
    requires forall k :: k in woken && k < |ts| ==> ts[k].Sleeping?
    ensures Sum(Wake(ts, woken), LeavingWith(ok)) == Sum(ts, LeavingWith(ok))
  {
    if ts == [] {
    } else {
      var n := |ts| - 1;
      WakeLeaving(ts[..n], woken, ok);
      assert Wake(ts, woken)[..n] == Wake(ts[..n], woken);
    }
  }

  // Only the decision of a trywait and its return change who is leaving with an answer.
  lemma StepLeaving(s: State, e: Event, ok: bool)
    requires Enabled(s, e)
    ensures Sum(Apply(s, e).threads, LeavingWith(ok)) ==
            Sum(s.threads, LeavingWith(ok))
            + (if (e.TryTake? && ok) || (e.TryRefuse? && !ok) then 1 else 0)
            - (if e.UnlockTry? && s.threads[e.i] == LeavingTry(ok) then 1 else 0)
  {
    if e.Signal? {
      WakeLeaving(s.threads, e.woken, ok);
      SumUpdate(Wake(s.threads, e.woken), LeavingWith(ok), e.i, LeavingPost);
    } else {
      SumUpdate(s.threads, LeavingWith(ok), e.i, Apply(s, e).threads[e.i]);
    }
  }

  lemma StepAnswered(s: State, e: Event, ok: bool)
    requires Enabled(s, e)
    ensures Answered(Apply(s, e), ok) == Answered(s, ok) + Decided(ok)(e)
  {
    StepLeaving(s, e, ok);
    if e.UnlockTry? {
      SumAppend(s.replies, if ok then TrueReply else FalseReply, Reply(e.i, s.threads[e.i].ok));
    }
  }

  lemma {:induction false} RunAnswered(n: nat, count: nat, es: seq<Event>, s: State, ok: bool)
    requires Run(Initial(n, count), es, s)
    ensures Answered(s, ok) == Sum(es, Decided(ok))
    decreases |es|
  {
    if es == [] {
      SumZero(s.threads, LeavingWith(ok));
    } else {
      var k := |es| - 1;
      var mid := RunSplit(Initial(n, count), es, s);
      RunAnswered(n, count, es[..k], mid, ok);
      StepAnswered(mid, es[k], ok);
    }
  }

  lemma StepPermits(es: seq<Event>, s: State, e: Event)
    requires Enabled(s, e) && PermitCounts(es, s)
    ensures PermitCounts(es + [e], Apply(s, e))
  {
    SumAppend(es, PostStep, e);
    SumAppend(es, WaitStep, e);
    SumAppend(es, TryStep, e);
  }

  lemma {:induction false} RunPermits(n: nat, count: nat, es: seq<Event>, s: State)
    requires Run(Initial(n, count), es, s)
    ensures PermitCounts(es, s)
    decreases |es|
  {
    if es == [] {
    } else {
      var k := |es| - 1;
      var mid := RunSplit(Initial(n, count), es, s);
      RunPermits(n, count, es[..k], mid);
      StepPermits(es[..k], mid, es[k]);
      assert es[..k] + [es[k]] == es;
    }
  }

  // In every run the counter is the initial count plus the posts less the permits taken, and trywait
  // has answered, or is about to answer, true once for each permit it took and false once for each
  // refusal.
  lemma AnswersMatchPermits(n: nat, count: nat, es: seq<Event>, s: State)
    requires count < WORD && Run(Initial(n, count), es, s) && Fits(Initial(n, count), es)
    ensures s.count + Sum(es, WaitStep) + Sum(es, TryStep) == count + Sum(es, PostStep)
    ensures Sum(s.replies, TrueReply) + Sum(s.threads, LeavingWith(true)) == Sum(es, TryStep)
    ensures Sum(s.replies, FalseReply) + Sum(s.threads, LeavingWith(false)) == Sum(es, RefuseStep)
  {
    RefinesFromInit(n, count, es, s);
    RunPermits(n, count, es, s);
    RunAnswered(n, count, es, s, true);
    RunAnswered(n, count, es, s, false);
  }

  // ---- the answer of one call -------------------------------------------------------------------------

  lemma {:induction false} LeavingStays(s: State, i: nat, es: seq<Event>, t: State)
    requires i < |s.threads| && s.threads[i].LeavingTry? && Run(s, es, t)
    requires forall k :: 0 <= k < |es| ==> es[k] != UnlockTry(i)
    ensures i < |t.threads| && t.threads[i] == s.threads[i]
    decreases |es|
  {
    if es == [] {
    } else {
      assert forall k :: 0 <= k < |es| - 1 ==> es[1..][k] == es[k + 1];
      LeavingStays(Apply(s, es[0]), i, es[1..], t);
    }
  }

  // A trywait answers true exactly when the counter was positive at its decision, whatever happens
  // between the decision and the return.
  lemma TryAnswer(s: State, i: nat, e: Event, es: seq<Event>, t: State)
    requires At(s, i, Deciding) && (e == TryTake(i) || e == TryRefuse(i)) && Enabled(s, e)
    requires Run(Apply(s, e), es, t) && forall k :: 0 <= k < |es| ==> es[k] != UnlockTry(i)
    ensures Enabled(t, UnlockTry(i))
    ensures Apply(t, UnlockTry(i)).replies == t.replies + [Reply(i, s.count > 0)]
    ensures Apply(s, e).count == if s.count > 0 then s.count - 1 else 0
  {
    LeavingStays(Apply(s, e), i, es, t);
  }

  // ---- calls left to themselves ------------------------------------------------------------------------

  lemma Extend(s: State, es: seq<Event>, t: State, e: Event) returns (fs: seq<Event>, u: State)
    requires Run(s, es, t) && Enabled(t, e)
    ensures fs == es + [e] && u == Apply(t, e) && Run(s, fs, u)
  {
    RunStep(s, es, t, e);
    fs, u := es + [e], Apply(t, e);
  }

  // A thread outside the semaphore may make any call at any time, and a thread that wants the mutex
  // gets it as soon as it is free.
  lemma CallsAlwaysPossible(s: State, i: nat)
    ensures At(s, i, Idle) ==> Enabled(s, CallWait(i)) && Enabled(s, CallTry(i)) && Enabled(s, CallPost(i))
    ensures At(s, i, WantWait) && MutexFree(s) ==> Enabled(s, LockWait(i))
    ensures At(s, i, WantTry) && MutexFree(s) ==> Enabled(s, LockTry(i))
    ensures At(s, i, WantPost) && MutexFree(s) ==> Enabled(s, LockPost(i))
  {
  }

  // With the mutex free, a post that runs alone adds a permit and wakes a sleeper if there is one.
  lemma PostAlone(s: State, i: nat) returns (es: seq<Event>, t: State)
    requires At(s, i, Idle) && MutexFree(s) && s.count < WORD_MAX
    ensures Run(s, es, t) && forall k :: 0 <= k < |es| ==> es[k].i == i
    ensures t.count == s.count + 1 && At(t, i, Idle) && MutexFree(t) && |t.threads| == |s.threads|
    ensures forall k :: 0 <= k < |s.threads| && !s.threads[k].Sleeping? ==> t.threads[k] == s.threads[k]
    ensures (exists k :: At(s, k, Sleeping)) ==> exists k :: At(s, k, Sleeping) && At(t, k, Woken)
  {
    es, t := StartPostAlone(s, i);
    es, t := FinishPostAlone(s, es, t, i);
    if k :| At(s, k, Sleeping) {
      assert At(t, k, Woken);
    }
  }

  lemma StartPostAlone(s: State, i: nat) returns (es: seq<Event>, t: State)
    requires At(s, i, Idle) && MutexFree(s) && s.count < WORD_MAX
    ensures Run(s, es, t) && forall k :: 0 <= k < |es| ==> es[k].i == i
    ensures t.count == s.count + 1 && t.threads == s.threads[i := Signalling]
  {
    SmallMod(s.count + 1, WORD);
    assert Run(s, [], s);
    es, t := Extend(s, [], s, CallPost(i));
    es, t := Extend(s, es, t, LockPost(i));
    assert t == s.(threads := s.threads[i := Adding]);
    es, t := Extend(s, es, t, Increment(i));
    assert t.threads == s.threads[i := Signalling];
  }

  lemma FinishPostAlone(s: State, es: seq<Event>, t: State, i: nat) returns (fs: seq<Event>, u: State)
    requires Run(s, es, t) && At(t, i, Signalling) && forall k :: 0 <= k < |es| ==> es[k].i == i
    ensures Run(s, fs, u) && forall k :: 0 <= k < |fs| ==> fs[k].i == i
    ensures u.count == t.count && |u.threads| == |t.threads|
    ensures forall k :: 0 <= k < |t.threads| ==>
              u.threads[k] == if k == i then Idle else if t.threads[k].Sleeping? then Woken else t.threads[k]
  {
    var sleepers := set k | 0 <= k < |t.threads| && t.threads[k].Sleeping?;
    assert forall k :: 0 <= k < |t.threads| && t.threads[k].Sleeping? ==> k in sleepers;
    fs, u := Extend(s, es, t, Signal(i, sleepers));
    fs, u := Extend(s, fs, u, UnlockPost(i));
  }

  // With the mutex free, a trywait that runs alone takes a permit and answers true, or finds none and
  // answers false.
  lemma TryAlone(s: State, i: nat) returns (es: seq<Event>, t: State)
    requires At(s, i, Idle) && MutexFree(s)
    ensures Run(s, es, t) && forall k :: 0 <= k < |es| ==> es[k].i == i
    ensures t.count == (if s.count > 0 then s.count - 1 else 0) && t.threads == s.threads
    ensures t.replies == s.replies + [Reply(i, s.count > 0)]
  {
    es, t := StartTryAlone(s, i);
    if s.count > 0 {
      es, t := Extend(s, es, t, TryTake(i));
    } else {
      es, t := Extend(s, es, t, TryRefuse(i));
    }
    assert t.threads == s.threads[i := LeavingTry(s.count > 0)];
    es, t := Extend(s, es, t, UnlockTry(i));
    assert t.threads == s.threads;
  }

  lemma StartTryAlone(s: State, i: nat) returns (es: seq<Event>, t: State)
    requires At(s, i, Idle) && MutexFree(s)
    ensures Run(s, es, t) && forall k :: 0 <= k < |es| ==> es[k].i == i
    ensures t == s.(threads := s.threads[i := Deciding])
  {
    assert Run(s, [], s);
    es, t := Extend(s, [], s, CallTry(i));
    es, t := Extend(s, es, t, LockTry(i));
    assert t.threads == s.threads[i := Deciding];
  }

  // With the mutex free, a wait that runs alone takes a permit, or sleeps when there is none, giving
  // the mutex back.
  lemma WaitAlone(s: State, i: nat) returns (es: seq<Event>, t: State)
    requires At(s, i, Idle) && MutexFree(s)
    ensures Run(s, es, t) && forall k :: 0 <= k < |es| ==> es[k].i == i
    ensures t.count == (if s.count > 0 then s.count - 1 else 0) && MutexFree(t)
    ensures t.threads == s.threads[i := if s.count > 0 then Idle else Sleeping]
  {
    assert Run(s, [], s);
    es, t := Extend(s, [], s, CallWait(i));
    es, t := Extend(s, es, t, LockWait(i));
    assert t.threads == s.threads[i := Checking] && t.count == s.count;
    if s.count > 0 {
      es, t := Extend(s, es, t, TakePermit(i));
      es, t := Extend(s, es, t, UnlockWait(i));
      assert t.threads == s.threads[i := Idle];
    } else {
      es, t := Extend(s, es, t, Sleep(i));
      assert t.threads == s.threads[i := Sleeping];
    }
  }
}
