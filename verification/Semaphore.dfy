// The POSIX counting semaphore of d4np/concurrency/semaphore.c: a counter guarded by a mutex,
// with a condition variable for the waiters.  Threads are interleaved between every two mutex,
// condition-variable and counter operations; a signal may wake any non-empty set of sleepers and
// sleepers may also wake spuriously.
module Semaphore {
  import opened Sums
  import opened Words

  // Program counters.  `Checking`, `Deciding`, `Adding`, `Signalling` and the `Leaving...` ones
  // hold the mutex; `Sleeping` is inside pthread_cond_wait and `Woken` is on its way out of it,
  // still to reacquire the mutex.
  datatype Thread =
    | Idle
    | WantWait | Checking | Sleeping | Woken | LeavingWait
    | WantTry | Deciding | LeavingTry(ok: bool)
    | WantPost | Adding | Signalling | LeavingPost

  datatype State = State(
    count: nat,
    threads: seq<Thread>,
    // history
    initial: nat,
    posts: nat,
    acquired: nat,
    replies: seq<Reply>)

  // What a trywait of thread `i` returned.
  datatype Reply = Reply(i: nat, ok: bool)

  datatype Event =
    | CallWait(i: nat) | LockWait(i: nat) | TakePermit(i: nat) | Sleep(i: nat)
    | Spurious(i: nat) | Relock(i: nat) | UnlockWait(i: nat)
    | CallTry(i: nat) | LockTry(i: nat) | TryTake(i: nat) | TryRefuse(i: nat) | UnlockTry(i: nat)
    | CallPost(i: nat) | LockPost(i: nat) | Increment(i: nat) | Signal(i: nat, woken: set<nat>) | UnlockPost(i: nat)

  predicate Holds(t: Thread) {
    t.Checking? || t.LeavingWait? || t.Deciding? || t.LeavingTry? || t.Adding? || t.Signalling? || t.LeavingPost?
  }

  predicate MutexFree(s: State) {
    forall k :: 0 <= k < |s.threads| ==> !Holds(s.threads[k])
  }

  predicate At(s: State, i: nat, t: Thread) {
    i < |s.threads| && s.threads[i] == t
  }

  predicate ValidWakeup(s: State, woken: set<nat>) {
    && (forall k :: k in woken ==> k < |s.threads| && s.threads[k].Sleeping?)
    && (woken == {} ==> forall k :: 0 <= k < |s.threads| ==> !s.threads[k].Sleeping?)
  }

  predicate Enabled(s: State, e: Event) {
    match e
    case CallWait(i) => At(s, i, Idle)
    case LockWait(i) => At(s, i, WantWait) && MutexFree(s)
    case TakePermit(i) => At(s, i, Checking) && s.count > 0
    case Sleep(i) => At(s, i, Checking) && s.count == 0
    case Spurious(i) => At(s, i, Sleeping)
    case Relock(i) => At(s, i, Woken) && MutexFree(s)
    case UnlockWait(i) => At(s, i, LeavingWait)
    case CallTry(i) => At(s, i, Idle)
    case LockTry(i) => At(s, i, WantTry) && MutexFree(s)
    case TryTake(i) => At(s, i, Deciding) && s.count > 0
    case TryRefuse(i) => At(s, i, Deciding) && s.count == 0
    case UnlockTry(i) => At(s, i, LeavingTry(true)) || At(s, i, LeavingTry(false))
    case CallPost(i) => At(s, i, Idle)
    case LockPost(i) => At(s, i, WantPost) && MutexFree(s)
    case Increment(i) => At(s, i, Adding)
    case Signal(i, woken) => At(s, i, Signalling) && ValidWakeup(s, woken)
    case UnlockPost(i) => At(s, i, LeavingPost)
  }

  function Move(s: State, i: nat, t: Thread): State
    requires i < |s.threads|
  {
    s.(threads := s.threads[i := t])
  }

  function Wake(ts: seq<Thread>, woken: set<nat>): seq<Thread> {
    seq(|ts|, k requires 0 <= k < |ts| => if k in woken then Woken else ts[k])
  }

  // `count++` on an unsigned 64-bit counter.
  function Successor(count: nat): nat {
    (count + 1) % WORD
  }

  function Apply(s: State, e: Event): State
    requires Enabled(s, e)
  {
    match e
    case CallWait(i) => Move(s, i, WantWait)
    case LockWait(i) => Move(s, i, Checking)
    case TakePermit(i) => Move(s, i, LeavingWait).(count := s.count - 1, acquired := s.acquired + 1)
    case Sleep(i) => Move(s, i, Sleeping)
    case Spurious(i) => Move(s, i, Woken)
    case Relock(i) => Move(s, i, Checking)
    case UnlockWait(i) => Move(s, i, Idle)
    case CallTry(i) => Move(s, i, WantTry)
    case LockTry(i) => Move(s, i, Deciding)
    case TryTake(i) => Move(s, i, LeavingTry(true)).(count := s.count - 1, acquired := s.acquired + 1)
    case TryRefuse(i) => Move(s, i, LeavingTry(false))
    case UnlockTry(i) => Move(s, i, Idle).(replies := s.replies + [Reply(i, s.threads[i].ok)])
    case CallPost(i) => Move(s, i, WantPost)
    case LockPost(i) => Move(s, i, Adding)
    case Increment(i) => Move(s, i, Signalling).(count := Successor(s.count), posts := s.posts + 1)
    case Signal(i, woken) => s.(threads := Wake(s.threads, woken)[i := LeavingPost])
    case UnlockPost(i) => Move(s, i, Idle)
  }

  function Initial(n: nat, count: nat): State {
    State(count, seq(n, _ => Idle), count, 0, 0, [])
  }

  ghost predicate Run(s: State, es: seq<Event>, t: State)
    decreases |es|
  {
    if es == [] then s == t else Enabled(s, es[0]) && Run(Apply(s, es[0]), es[1..], t)
  }

  ghost predicate Reachable(n: nat, count: nat, t: State) {
    exists es :: Run(Initial(n, count), es, t)
  }

  // ---- the abstract semaphore ---------------------------------------------------------------

  // What the pool relies on: a permit count that posts raise and acquisitions lower, where an
  // acquisition needs a permit and a refusal happens only when there is none.
  datatype Action = Post | Acquire | Refuse | Stutter

  predicate Allowed(value: nat, a: Action) {
    match a
    case Acquire => value > 0
    case Refuse => value == 0
    case _ => true
  }

  function Effect(value: nat, a: Action): nat
    requires Allowed(value, a)
  {
    match a
    case Post => value + 1
    case Acquire => value - 1
    case _ => value
  }

  function Abstract(e: Event): Action {
    match e
    case Increment(_) => Post
    case TakePermit(_) => Acquire
    case TryTake(_) => Acquire
    case TryRefuse(_) => Refuse
    case _ => Stutter
  }

  // ---- invariant ----------------------------------------------------------------------------

  function HolderWeight(t: Thread): nat { if Holds(t) then 1 else 0 }

  function SleeperWeight(t: Thread): nat { if t.Sleeping? then 1 else 0 }

  function WokenWeight(t: Thread): nat { if t.Woken? then 1 else 0 }

  // Threads that are bound to look at the counter again, or to wake someone who will.
  function PendingWeight(t: Thread): nat { if t.Woken? || t.Checking? || t.Signalling? then 1 else 0 }

  function Sleepers(s: State): nat { Sum(s.threads, SleeperWeight) }

  function Pending(s: State): nat { Sum(s.threads, PendingWeight) }

  predicate Exclusion(s: State) {
    Sum(s.threads, HolderWeight) <= 1
  }

  predicate Conservation(s: State) {
    s.count < WORD && s.count + s.acquired == s.initial + s.posts
  }

  predicate NoLostWakeup(s: State) {
    Sleepers(s) > 0 ==> s.count <= Pending(s)
  }

  // A poster between its increment and its unlock.
  predicate Posted(t: Thread) {
    t.Signalling? || t.LeavingPost?
  }

  // The permit of such a poster is still there: nobody can take it before the mutex is free.
  predicate PostersCovered(s: State) {
    forall k :: 0 <= k < |s.threads| && Posted(s.threads[k]) ==> s.count > 0
  }

  predicate Inv(s: State) {
    Exclusion(s) && Conservation(s) && NoLostWakeup(s) && PostersCovered(s)
  }

  lemma Weights(s: State, i: nat, t: Thread)
    requires i < |s.threads|
    ensures Sum(Move(s, i, t).threads, HolderWeight) ==
            Sum(s.threads, HolderWeight) - HolderWeight(s.threads[i]) + HolderWeight(t)
    ensures Sleepers(Move(s, i, t)) == Sleepers(s) - SleeperWeight(s.threads[i]) + SleeperWeight(t)
    ensures Pending(Move(s, i, t)) == Pending(s) - PendingWeight(s.threads[i]) + PendingWeight(t)
  {
    SumUpdate(s.threads, HolderWeight, i, t);
    SumUpdate(s.threads, SleeperWeight, i, t);
    SumUpdate(s.threads, PendingWeight, i, t);
  }

  // Waking `woken` turns that many sleepers into pending threads and leaves the mutex alone.
  lemma {:induction false} WakeWeights(ts: seq<Thread>, woken: set<nat>)
    requires forall k :: k in woken && k < |ts| ==> ts[k].Sleeping?
    ensures Sum(Wake(ts, woken), HolderWeight) == Sum(ts, HolderWeight)
    ensures Sum(Wake(ts, woken), SleeperWeight) + Sum(Wake(ts, woken), PendingWeight) ==
            Sum(ts, SleeperWeight) + Sum(ts, PendingWeight)
    ensures Sum(Wake(ts, woken), PendingWeight) >= Sum(ts, PendingWeight)
    ensures (exists k :: k in woken && k < |ts|) ==> Sum(Wake(ts, woken), PendingWeight) >= Sum(ts, PendingWeight) + 1
  {
    if ts == [] {
    } else {
      var n := |ts| - 1;
      WakeWeights(ts[..n], woken);
      assert Wake(ts, woken)[..n] == Wake(ts[..n], woken);
    }
  }

  lemma FreeMutex(s: State)
    requires MutexFree(s)
    ensures Sum(s.threads, HolderWeight) == 0
  {
    SumZero(s.threads, HolderWeight);
  }

  lemma TwoHolders(s: State, i: nat, k: nat)
    requires i < |s.threads| && k < |s.threads| && i != k && Holds(s.threads[i]) && Holds(s.threads[k])
    ensures Sum(s.threads, HolderWeight) >= 2
  {
    SumUpdate(s.threads, HolderWeight, i, Idle);
    SumMember(s.threads[i := Idle], HolderWeight, k);
  }

  lemma StepPosters(s: State, e: Event)
    requires Exclusion(s) && PostersCovered(s) && Enabled(s, e)
    requires e.Increment? ==> s.count < WORD_MAX
    ensures PostersCovered(Apply(s, e))
  {
    var t := Apply(s, e);
    forall k | 0 <= k < |t.threads| && Posted(t.threads[k])
      ensures t.count > 0
    {
      if e.Increment? {
        SmallMod(s.count + 1, WORD);
      } else if e.TakePermit? || e.TryTake? {
        TwoHolders(s, e.i, k);
      } else {
        assert Posted(s.threads[k]);
      }
    }
  }

  lemma StepSignal(s: State, i: nat, woken: set<nat>)
    requires Inv(s) && Enabled(s, Signal(i, woken))
    ensures var t := Apply(s, Signal(i, woken)); Exclusion(t) && Conservation(t) && NoLostWakeup(t)
  {
    var mid := s.(threads := Wake(s.threads, woken));
    WakeWeights(s.threads, woken);
    assert mid.threads[i] == Signalling;
    Weights(mid, i, LeavingPost);
    if woken == {} {
      SumZero(s.threads, SleeperWeight);
    } else {
      var k :| k in woken;
      assert k < |s.threads|;
    }
  }

  lemma MoveExclusion(s: State, i: nat, x: Thread)
    requires Exclusion(s) && i < |s.threads|
    requires HolderWeight(x) <= HolderWeight(s.threads[i]) || MutexFree(s)
    ensures Exclusion(Move(s, i, x))
  {
    if MutexFree(s) {
      FreeMutex(s);
    }
    SumUpdate(s.threads, HolderWeight, i, x);
  }

  // Moving one thread loses no wakeup if no thread falls asleep while there are permits, and the
  // permits grow by no more than the threads bound to look at the counter.
  lemma MoveWakeups(s: State, i: nat, x: Thread, count: nat)
    requires NoLostWakeup(s) && i < |s.threads|
    requires count == 0 || SleeperWeight(x) <= SleeperWeight(s.threads[i])
    requires count == 0 || count + PendingWeight(s.threads[i]) <= s.count + PendingWeight(x)
    ensures NoLostWakeup(Move(s, i, x).(count := count))
  {
    SumUpdate(s.threads, SleeperWeight, i, x);
    SumUpdate(s.threads, PendingWeight, i, x);
  }

  lemma StepExclusion(s: State, e: Event)
    requires Exclusion(s) && Enabled(s, e) && !e.Signal?
    ensures Exclusion(Apply(s, e))
  {
    MoveExclusion(s, e.i, Apply(s, e).threads[e.i]);
  }

  lemma StepWakeups(s: State, e: Event)
    requires NoLostWakeup(s) && Enabled(s, e) && !e.Signal?
    requires e.Increment? ==> s.count < WORD_MAX
    ensures NoLostWakeup(Apply(s, e))
  {
    if e.Increment? {
      SmallMod(s.count + 1, WORD);
    }
    MoveWakeups(s, e.i, Apply(s, e).threads[e.i], Apply(s, e).count);
  }

  // Every step keeps mutual exclusion, permit conservation and the no-lost-wakeup property; the
  // only assumption is that no post is made on a counter already at its maximum.
  lemma StepInv(s: State, e: Event)
    requires Inv(s) && Enabled(s, e)
    requires e.Increment? ==> s.count < WORD_MAX
    ensures Inv(Apply(s, e))
  {
    StepPosters(s, e);
    if e.Signal? {
      StepSignal(s, e.i, e.woken);
    } else {
      StepExclusion(s, e);
      StepWakeups(s, e);
      if e.Increment? {
        SmallMod(s.count + 1, WORD);
      }
    }
  }

  // ---- whole runs ----------------------------------------------------------------------------

  // No post of the run finds the counter at its maximum.
  ghost predicate Fits(s: State, es: seq<Event>)
    decreases |es|
  {
    es != [] && Enabled(s, es[0]) ==>
      (es[0].Increment? ==> s.count < WORD_MAX) && Fits(Apply(s, es[0]), es[1..])
  }

  // A run of the abstract semaphore from permit count `v` to permit count `w`.
  predicate AbstractRun(v: nat, acts: seq<Action>, w: nat)
    decreases |acts|
  {
    if acts == [] then v == w else Allowed(v, acts[0]) && AbstractRun(Effect(v, acts[0]), acts[1..], w)
  }

  function AbstractAll(es: seq<Event>): (acts: seq<Action>)
    ensures |acts| == |es|
  {
    if es == [] then [] else [Abstract(es[0])] + AbstractAll(es[1..])
  }

  lemma InitialInv(n: nat, count: nat)
    requires count < WORD
    ensures Inv(Initial(n, count))
  {
    SumZero(Initial(n, count).threads, HolderWeight);
    SumZero(Initial(n, count).threads, SleeperWeight);
  }

  lemma StepRefines(s: State, e: Event)
    requires Conservation(s) && Enabled(s, e) && (e.Increment? ==> s.count < WORD_MAX)
    ensures Allowed(s.count, Abstract(e)) && Effect(s.count, Abstract(e)) == Apply(s, e).count
    ensures |Apply(s, e).threads| == |s.threads| && Apply(s, e).initial == s.initial
  {
    if e.Increment? {
      SmallMod(s.count + 1, WORD);
    }
  }

  // Refinement: every run of the mutex-and-condition-variable code is, permit for permit, a run
  // of the abstract semaphore, and ends in a state that satisfies the invariant.
  lemma {:induction false} Refines(s: State, es: seq<Event>, t: State)
    requires Inv(s) && Run(s, es, t) && Fits(s, es)
    ensures Inv(t) && AbstractRun(s.count, AbstractAll(es), t.count)
    ensures |t.threads| == |s.threads| && t.initial == s.initial
    decreases |es|
  {
    if es == [] {
    } else {
      StepInv(s, es[0]);
      StepRefines(s, es[0]);
      Refines(Apply(s, es[0]), es[1..], t);
      assert AbstractAll(es)[1..] == AbstractAll(es[1..]);
    }
  }

  lemma RefinesFromInit(n: nat, count: nat, es: seq<Event>, t: State)
    requires count < WORD && Run(Initial(n, count), es, t) && Fits(Initial(n, count), es)
    ensures AbstractRun(count, AbstractAll(es), t.count)
    ensures t.count + t.acquired == count + t.posts
    ensures Inv(t)
  {
    InitialInv(n, count);
    Refines(Initial(n, count), es, t);
  }

  // The one way to lose permits: posting on a full counter wraps it to zero.
  lemma PostConservesIffNotFull(s: State, i: nat)
    requires Inv(s) && Enabled(s, Increment(i))
    ensures Conservation(Apply(s, Increment(i))) <==> s.count < WORD_MAX
  {
    if s.count < WORD_MAX {
      SmallMod(s.count + 1, WORD);
    }
  }

  lemma {:induction false} RunConcat(s: State, es: seq<Event>, t: State, fs: seq<Event>, u: State)
    requires Run(s, es, t) && Run(t, fs, u)
    ensures Run(s, es + fs, u)
    decreases |es|
  {
    if es == [] {
      assert es + fs == fs;
    } else {
      RunConcat(Apply(s, es[0]), es[1..], t, fs, u);
      assert (es + fs)[1..] == es[1..] + fs;
    }
  }

  // A semaphore used by one thread, after `k` posts and nothing else.
  function AfterPosts(initial: nat, k: nat): State {
    State((initial + k) % WORD, [Idle], initial, k, 0, [])
  }

  lemma RunStep(s: State, es: seq<Event>, t: State, e: Event)
    requires Run(s, es, t) && Enabled(t, e)
    ensures Run(s, es + [e], Apply(t, e))
  {
    assert Run(Apply(t, e), [], Apply(t, e));
    assert Run(t, [e], Apply(t, e));
    RunConcat(s, es, t, [e], Apply(t, e));
  }

  // One more post by the only thread, from call to return.
  lemma OnePost(s: State, es: seq<Event>, initial: nat, k: nat) returns (fs: seq<Event>)
    requires initial + k < WORD && Run(s, es, AfterPosts(initial, k))
    ensures Run(s, fs, AfterPosts(initial, k + 1))
  {
    fs := BeginPost(s, es, AfterPosts(initial, k));
    fs := AddPermit(s, fs, initial, k);
    fs := FinishPost(s, fs, AfterPosts(initial, k + 1).(threads := [Signalling]));
  }

  lemma AddPermit(s: State, es: seq<Event>, initial: nat, k: nat) returns (fs: seq<Event>)
    requires initial + k < WORD && Run(s, es, AfterPosts(initial, k).(threads := [Adding]))
    ensures Run(s, fs, AfterPosts(initial, k + 1).(threads := [Signalling]))
  {
    var t := AfterPosts(initial, k).(threads := [Adding]);
    SmallMod(initial + k, WORD);
    RunStep(s, es, t, Increment(0));
    fs := es + [Increment(0)];
    assert Apply(t, Increment(0)) == AfterPosts(initial, k + 1).(threads := [Signalling]);
  }

  lemma BeginPost(s: State, es: seq<Event>, t: State) returns (fs: seq<Event>)
    requires Run(s, es, t) && t.threads == [Idle]
    ensures Run(s, fs, t.(threads := [Adding]))
  {
    RunStep(s, es, t, CallPost(0));
    var u := Apply(t, CallPost(0));
    fs := es + [CallPost(0)];
    assert u == t.(threads := [WantPost]);
    RunStep(s, fs, u, LockPost(0));
    fs := fs + [LockPost(0)];
    assert Apply(u, LockPost(0)) == t.(threads := [Adding]);
  }

  lemma FinishPost(s: State, es: seq<Event>, t: State) returns (fs: seq<Event>)
    requires Run(s, es, t) && t.threads == [Signalling]
    ensures Run(s, fs, t.(threads := [Idle]))
  {
    RunStep(s, es, t, Signal(0, {}));
    var u := Apply(t, Signal(0, {}));
    fs := es + [Signal(0, {})];
    assert u == t.(threads := [LeavingPost]);
    RunStep(s, fs, u, UnlockPost(0));
    assert Apply(u, UnlockPost(0)) == t.(threads := [Idle]);
    fs := fs + [UnlockPost(0)];
  }

  lemma {:induction false} ManyPosts(initial: nat, k: nat) returns (es: seq<Event>)
    requires initial < WORD && initial + k <= WORD
    ensures Run(Initial(1, initial), es, AfterPosts(initial, k))
    decreases k
  {
    if k == 0 {
      es := [];
      SmallMod(initial, WORD);
      assert Initial(1, initial) == AfterPosts(initial, 0);
    } else {
      es := ManyPosts(initial, k - 1);
      es := OnePost(Initial(1, initial), es, initial, k - 1);
    }
  }

  // From every initial count enough posts wrap the counter: all permits are lost.
  lemma WrapFromAny(initial: nat) returns (es: seq<Event>, t: State)
    requires initial < WORD
    ensures Run(Initial(1, initial), es, t) && t.count == 0 && t.acquired == 0 && initial + t.posts == WORD
    ensures !Conservation(t)
  {
    es := ManyPosts(initial, WORD - initial);
    t := AfterPosts(initial, WORD - initial);
  }

  // ---- no lost wakeup ------------------------------------------------------------------------

  // With the mutex free and someone asleep, at least `count` threads are on their way to recheck.
  lemma {:induction false} PendingAreWoken(ts: seq<Thread>)
    requires forall k :: 0 <= k < |ts| ==> !Holds(ts[k])
    ensures Sum(ts, PendingWeight) == Sum(ts, WokenWeight)
  {
    if ts == [] {
    } else {
      PendingAreWoken(ts[..|ts| - 1]);
    }
  }

  lemma SleepersAreCovered(s: State, i: nat)
    requires Inv(s) && MutexFree(s) && At(s, i, Sleeping)
    ensures s.count <= Sum(s.threads, WokenWeight)
  {
    SumMember(s.threads, SleeperWeight, i);
    PendingAreWoken(s.threads);
  }

  // Steps other than new calls and spurious wakeups.
  predicate Internal(e: Event) {
    !e.CallWait? && !e.CallTry? && !e.CallPost? && !e.Spurious?
  }

  ghost predicate Quiescent(s: State) {
    forall e :: Internal(e) ==> !Enabled(s, e)
  }

  lemma HolderCanMove(s: State, i: nat)
    requires i < |s.threads| && Holds(s.threads[i])
    ensures !Quiescent(s)
  {
    match s.threads[i]
    case Checking => assert Enabled(s, TakePermit(i)) || Enabled(s, Sleep(i));
    case LeavingWait => assert Enabled(s, UnlockWait(i));
    case Deciding => assert Enabled(s, TryTake(i)) || Enabled(s, TryRefuse(i));
    case LeavingTry(_) => assert Enabled(s, UnlockTry(i));
    case Adding => assert Enabled(s, Increment(i));
    case Signalling =>
      var sleepers := set k | 0 <= k < |s.threads| && s.threads[k].Sleeping?;
      assert forall k :: 0 <= k < |s.threads| && s.threads[k].Sleeping? ==> k in sleepers;
      assert Enabled(s, Signal(i, sleepers));
    case LeavingPost => assert Enabled(s, UnlockPost(i));
  }

  // Nothing is ever stuck except threads asleep in wait, and those only when there is no permit.
  lemma QuiescentMeansNoPermit(s: State)
    requires Inv(s) && Quiescent(s)
    ensures forall k :: 0 <= k < |s.threads| ==> s.threads[k].Idle? || s.threads[k].Sleeping?
    ensures (exists k :: At(s, k, Sleeping)) ==> s.count == 0
  {
    forall k | 0 <= k < |s.threads|
      ensures !Holds(s.threads[k])
    {
      if Holds(s.threads[k]) {
        HolderCanMove(s, k);
      }
    }
    assert MutexFree(s);
    forall k | 0 <= k < |s.threads|
      ensures s.threads[k].Idle? || s.threads[k].Sleeping?
    {
      assert !Enabled(s, LockWait(k)) && !Enabled(s, Relock(k)) && !Enabled(s, LockTry(k)) && !Enabled(s, LockPost(k));
    }
    if k :| At(s, k, Sleeping) {
      SleepersAreCovered(s, k);
      SumZero(s.threads, WokenWeight);
    }
  }

  // ---- bounded internal work -------------------------------------------------------------------

  function LightWeight(t: Thread): nat {
    match t
    case Idle => 0
    case Sleeping => 0
    case WantWait => 3
    case Woken => 3
    case Checking => 2
    case WantTry => 3
    case Deciding => 2
    case WantPost => 4
    case Adding => 3
    case Signalling => 2
    case _ => 1
  }

  function PosterWeight(t: Thread): nat { if t.WantPost? || t.Adding? || t.Signalling? then 1 else 0 }

  // Each of `p` posters may still wake all `n` threads.
  function WakeBudget(n: nat, p: nat): nat {
    if p == 0 then 0 else 3 * n + WakeBudget(n, p - 1)
  }

  function Measure(s: State): nat {
    Sum(s.threads, LightWeight) + WakeBudget(|s.threads|, Sum(s.threads, PosterWeight))
  }

  lemma {:induction false} WakeLight(ts: seq<Thread>, woken: set<nat>)
    requires forall k :: k in woken && k < |ts| ==> ts[k].Sleeping?
    ensures Sum(Wake(ts, woken), LightWeight) <= Sum(ts, LightWeight) + 3 * |ts|
    ensures Sum(Wake(ts, woken), PosterWeight) == Sum(ts, PosterWeight)
  {
    if ts == [] {
    } else {
      var n := |ts| - 1;
      WakeLight(ts[..n], woken);
      assert Wake(ts, woken)[..n] == Wake(ts[..n], woken);
    }
  }

  lemma LighterMove(s: State, i: nat, x: Thread)
    requires i < |s.threads|
    requires LightWeight(x) < LightWeight(s.threads[i]) && PosterWeight(x) == PosterWeight(s.threads[i])
    ensures Measure(Move(s, i, x)) < Measure(s)
  {
    SumUpdate(s.threads, LightWeight, i, x);
    SumUpdate(s.threads, PosterWeight, i, x);
  }

  // A signal makes its thread lighter, wakes at most every thread, and is one poster less.
  lemma SignalWeights(ts: seq<Thread>, i: nat, woken: set<nat>)
    requires i < |ts| && ts[i].Signalling? && forall k :: k in woken ==> k < |ts| && ts[k].Sleeping?
    ensures Sum(Wake(ts, woken)[i := LeavingPost], LightWeight) < Sum(ts, LightWeight) + 3 * |ts|
    ensures Sum(Wake(ts, woken)[i := LeavingPost], PosterWeight) + 1 == Sum(ts, PosterWeight)
  {
    WakeLight(ts, woken);
    SumUpdate(Wake(ts, woken), LightWeight, i, LeavingPost);
    SumUpdate(Wake(ts, woken), PosterWeight, i, LeavingPost);
  }

  lemma SignalDecreases(s: State, i: nat, woken: set<nat>)
    requires Enabled(s, Signal(i, woken))
    ensures Measure(Apply(s, Signal(i, woken))) < Measure(s)
  {
    SignalWeights(s.threads, i, woken);
  }

  lemma InternalDecreases(s: State, e: Event)
    requires Enabled(s, e) && Internal(e)
    ensures Measure(Apply(s, e)) < Measure(s)
  {
    if e.Signal? {
      SignalDecreases(s, e.i, e.woken);
    } else {
      LighterMove(s, e.i, Apply(s, e).threads[e.i]);
    }
  }

  // Liveness without fairness: if no new call is made and no sleeper wakes spuriously, then after
  // at most `Measure(s)` steps every call has returned or sleeps with the counter at zero.
  lemma {:induction false} InternalStepsBounded(s: State, es: seq<Event>, t: State)
    requires Run(s, es, t) && forall k :: 0 <= k < |es| ==> Internal(es[k])
    ensures |es| + Measure(t) <= Measure(s)
    decreases |es|
  {
    if es == [] {
    } else {
      InternalDecreases(s, es[0]);
      assert forall k :: 0 <= k < |es| - 1 ==> es[1..][k] == es[k + 1];
      InternalStepsBounded(Apply(s, es[0]), es[1..], t);
    }
  }

  lemma WaitersServed(n: nat, count: nat, es: seq<Event>, s: State, fs: seq<Event>, t: State)
    requires count < WORD && Run(Initial(n, count), es, s) && Fits(Initial(n, count), es)
    requires Run(s, fs, t) && Fits(s, fs) && forall k :: 0 <= k < |fs| ==> Internal(fs[k])
    ensures |fs| <= Measure(s) && |t.threads| == n
    ensures Quiescent(t) ==> forall k :: 0 <= k < n ==> t.threads[k].Idle? || t.threads[k].Sleeping?
    ensures Quiescent(t) && (exists k :: At(t, k, Sleeping)) ==> t.acquired == count + t.posts
  {
    InitialInv(n, count);
    Refines(Initial(n, count), es, s);
    Refines(s, fs, t);
    InternalStepsBounded(s, fs, t);
    if Quiescent(t) {
      QuiescentMeansNoPermit(t);
    }
  }
}
