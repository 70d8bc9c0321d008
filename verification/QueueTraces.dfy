// The linked queue of d4np/concurrency/atomic_queue.c seen by its callers: what the calls of a run
// return is determined by the calls alone, no call ever waits for the other side, and a call left to
// itself has exactly the effect of the operation on a queue.
module QueueTraces {
  import opened Common
  import opened AtomicQueue

  // ---- results as functions of the calls -----------------------------------------------------------

  // The argument of the enqueue that began last.
  function CurrentEnqueue<V>(es: seq<Event<V>>): Option<V> {
    if es == [] then None
    else match es[|es| - 1] case Allocate(_, _, v) => Some(v) case _ => CurrentEnqueue(es[..|es| - 1])
  }

  // Whether the dequeue that began last was given a buffer.
  function CurrentDequeue<V>(es: seq<Event<V>>): Option<bool> {
    if es == [] then None
    else match es[|es| - 1] case LoadNext(out) => Some(out) case _ => CurrentDequeue(es[..|es| - 1])
  }

  // The arguments of the enqueues that have published their node.
  function EnqueueCalls<V>(es: seq<Event<V>>): seq<V> {
    if es == [] then []
    else
      var n := |es| - 1;
      var v := CurrentEnqueue(es[..n]);
      EnqueueCalls(es[..n]) + (if es[n].Publish? && v.Some? then [v.value] else [])
  }

  // For each dequeue that has moved the head, whether it was given a buffer.
  function DequeueCalls<V>(es: seq<Event<V>>): seq<bool> {
    if es == [] then []
    else
      var n := |es| - 1;
      var out := CurrentDequeue(es[..n]);
      DequeueCalls(es[..n]) + (if es[n].MoveHead? && out.Some? then [out.value] else [])
  }

  function AllocatorCalls<V>(es: seq<Event<V>>): nat {
    if es == [] then 0 else AllocatorCalls(es[..|es| - 1]) + (if es[|es| - 1].Allocate? then 1 else 0)
  }

  function FreeCalls<V>(es: seq<Event<V>>): nat {
    if es == [] then 0
    else FreeCalls(es[..|es| - 1]) + (if es[|es| - 1].FreeOld? || es[|es| - 1].DestroyFree? then 1 else 0)
  }

  function Outs<V>(ds: seq<Delivery<V>>): (r: seq<bool>)
    ensures |r| == |ds|
  {
    seq(|ds|, i requires 0 <= i < |ds| => ds[i].out)
  }

  ghost predicate Follows<V>(es: seq<Event<V>>, s: State<V>) {
    && s.published == EnqueueCalls(es) && Outs(s.delivered) == DequeueCalls(es)
    && (s.producer.PIdle? || s.producer.PLinked? || CurrentEnqueue(es) == Some(s.producer.v))
    && (s.consumer.CIdle? || s.consumer.CMoved? || CurrentDequeue(es) == Some(s.consumer.out))
    && s.allocations == 1 + AllocatorCalls(es) && s.frees == FreeCalls(es)
  }

  lemma {:induction false} RunSplit<V>(s: State<V>, es: seq<Event<V>>, t: State<V>) returns (mid: State<V>)
    requires es != [] && Run(s, es, t)
    ensures Run(s, es[..|es| - 1], mid)
    ensures Ready(mid, es[|es| - 1]) && Safe(mid, es[|es| - 1]) && t == Apply(mid, es[|es| - 1])
    decreases |es|
  {
    if |es| == 1 {
      mid := s;
    } else {
      var rest, n := es[1..], |es| - 1;
      mid := RunSplit(Apply(s, es[0]), rest, t);
      assert rest[..n - 1] == es[..n][1..];
    }
  }

  lemma StepFollows<V>(es: seq<Event<V>>, s: State<V>, e: Event<V>)
    requires Ready(s, e) && Safe(s, e) && Follows(es, s)
    ensures Follows(es + [e], Apply(s, e))
  {
    assert (es + [e])[..|es|] == es;
    assert Outs(Apply(s, e).delivered) == Outs(s.delivered) + (if e.MoveHead? then [s.consumer.out] else []);
  }

  lemma {:induction false} RunFollows<V>(d: Addr, junk: V, es: seq<Event<V>>, s: State<V>)
    requires Run(Initial(d, junk), es, s)
    ensures Follows(es, s)
    decreases |es|
  {
    if es == [] {
    } else {
      var n := |es| - 1;
      var mid := RunSplit(Initial(d, junk), es, s);
      RunFollows(d, junk, es[..n], mid);
      StepFollows(es[..n], mid, es[n]);
      assert es[..n] + [es[n]] == es;
    }
  }

  // In every run, whatever the interleaving, the i-th dequeue call delivers the argument of the i-th
  // enqueue call to a caller with a buffer, and nothing to a caller without; and each allocation but
  // init's dummy is an enqueue's.
  lemma DequeuesReturnEnqueues<V(!new)>(d: Addr, junk: V, es: seq<Event<V>>, s: State<V>)
    requires Run(Initial(d, junk), es, s)
    ensures |s.delivered| == |DequeueCalls(es)| <= |EnqueueCalls(es)|
    ensures forall i :: 0 <= i < |DequeueCalls(es)| ==>
              s.delivered[i] ==
              Delivery(DequeueCalls(es)[i], if DequeueCalls(es)[i] then Some(EnqueueCalls(es)[i]) else None)
    ensures 1 + AllocatorCalls(es) == FreeCalls(es) + |s.heap|
  {
    RunFollows(d, junk, es, s);
    assert Reachable(s);
    ReachableInv(s);
    forall i | 0 <= i < |DequeueCalls(es)|
      ensures s.delivered[i] ==
              Delivery(DequeueCalls(es)[i], if DequeueCalls(es)[i] then Some(EnqueueCalls(es)[i]) else None)
    {
      assert s.delivered[i].out == Outs(s.delivered)[i];
    }
  }

  // ---- no call waits ---------------------------------------------------------------------------------

  predicate ByProducer<V>(e: Event<V>) {
    e.Allocate? || e.ClearNext? || e.CopyIn? || e.Publish? || e.MoveTail?
  }

  predicate ByConsumer<V>(e: Event<V>) {
    e.LoadNext? || e.FoundEmpty? || e.CopyOut? || e.Discard? || e.MoveHead? || e.FreeOld?
  }

  // The own steps a call has still to take.
  function ProducerLeft<V>(p: Producer<V>): nat {
    match p
    case PIdle => 0
    case PFresh(_, _) => 4
    case PCleared(_, _) => 3
    case PFilled(_, _) => 2
    case PLinked(_) => 1
  }

  function ConsumerLeft<V>(c: Consumer<V>): nat {
    match c
    case CIdle => 0
    case CLoaded(_, _) => 3
    case CCopied(_, _, _) => 2
    case CMoved(_) => 1
  }

  function ProducerNext<V>(s: State<V>): Event<V>
    requires !s.producer.PIdle?
  {
    match s.producer
    case PFresh(_, _) => ClearNext
    case PCleared(_, _) => CopyIn
    case PFilled(_, _) => Publish
    case PLinked(_) => MoveTail
  }

  function ConsumerNext<V>(s: State<V>): Event<V>
    requires !s.consumer.CIdle?
  {
    match s.consumer
    case CLoaded(_, out) => if out then CopyOut else Discard
    case CCopied(_, _, _) => MoveHead
    case CMoved(_) => FreeOld
  }

  // Before destroy each side can begin a call when it is in none: an enqueue with any fresh node, a
  // dequeue that finds a value exactly when one is undelivered.  Inside a call it has exactly one next
  // step, whatever the other side is doing.  Destroy can begin once both are outside.
  lemma NeverBlocked<V(!new)>(s: State<V>, n: Addr, junk: Node<V>, v: V, out: bool, e: Event<V>)
    requires Reachable(s) && s.destroyer.NotStarted?
    ensures s.producer.PIdle? && n !in s.heap ==> Ready(s, Allocate(n, junk, v))
    ensures s.consumer.CIdle? ==> (Ready(s, LoadNext(out)) <==> |s.delivered| < |s.published|)
    ensures s.consumer.CIdle? ==> (Ready(s, FoundEmpty) <==> |s.delivered| == |s.published|)
    ensures !s.producer.PIdle? && ByProducer(e) ==> (Ready(s, e) <==> e == ProducerNext(s))
    ensures !s.consumer.CIdle? && ByConsumer(e) ==> (Ready(s, e) <==> e == ConsumerNext(s))
    ensures s.producer.PIdle? && s.consumer.CIdle? ==> Ready(s, StartDestroy)
  {
    FifoDelivery(s);
  }

  function StepsBy<V>(es: seq<Event<V>>, producer: bool): nat {
    if es == [] then 0
    else (if (if producer then ByProducer(es[0]) else ByConsumer(es[0])) then 1 else 0) + StepsBy(es[1..], producer)
  }

  predicate Starts<V>(e: Event<V>) {
    e.Allocate? || e.LoadNext? || e.FoundEmpty?
  }

  lemma StepLeft<V>(s: State<V>, e: Event<V>)
    requires Ready(s, e) && Safe(s, e) && !Starts(e)
    ensures ProducerLeft(Apply(s, e).producer) + (if ByProducer(e) then 1 else 0) == ProducerLeft(s.producer)
    ensures ConsumerLeft(Apply(s, e).consumer) + (if ByConsumer(e) then 1 else 0) == ConsumerLeft(s.consumer)
  {
  }

  // Wait-freedom: an enqueue returns after four steps from its allocation on, a dequeue after three
  // from its load on, however the other side's steps are interleaved.
  lemma {:induction false} WaitFree<V>(s: State<V>, es: seq<Event<V>>, t: State<V>)
    requires Run(s, es, t) && forall k :: 0 <= k < |es| ==> !Starts(es[k])
    ensures StepsBy(es, true) + ProducerLeft(t.producer) == ProducerLeft(s.producer) <= 4
    ensures StepsBy(es, false) + ConsumerLeft(t.consumer) == ConsumerLeft(s.consumer) <= 3
    decreases |es|
  {
    if es == [] {
    } else {
      StepLeft(s, es[0]);
      assert forall k :: 0 <= k < |es| - 1 ==> es[1..][k] == es[k + 1];
      WaitFree(Apply(s, es[0]), es[1..], t);
    }
  }

  // ---- calls left to themselves ------------------------------------------------------------------------

  lemma Extend<V(!new)>(s: State<V>, es: seq<Event<V>>, t: State<V>, e: Event<V>)
    returns (fs: seq<Event<V>>, u: State<V>)
    requires Run(s, es, t) && Reachable(t) && Ready(t, e)
    ensures Safe(t, e) && fs == es + [e] && u == Apply(t, e) && Run(s, fs, u) && Reachable(u)
  {
    NoUseAfterFree(t, e);
    RunExtend(s, es, t, e);
    var d, junk, es0 :| Run(Initial(d, junk), es0, t);
    RunExtend(Initial(d, junk), es0, t, e);
    fs, u := es + [e], Apply(t, e);
  }

  // An enqueue that runs alone, whatever the dequeuing side is in the middle of, appends its value
  // and changes nothing for the other side.
  lemma EnqueueAlone<V(!new)>(s: State<V>, n: Addr, junk: Node<V>, v: V) returns (es: seq<Event<V>>, t: State<V>)
    requires Reachable(s) && s.destroyer.NotStarted? && s.producer.PIdle? && n !in s.heap
    ensures Run(s, es, t) && Reachable(t) && forall k :: 0 <= k < |es| ==> ByProducer(es[k])
    ensures t.producer.PIdle? && t.published == s.published + [v]
    ensures t.delivered == s.delivered && t.consumer == s.consumer && t.destroyer == s.destroyer
  {
    assert Run(s, [], s);
    es, t := Extend(s, [], s, Allocate(n, junk, v));
    es, t := Extend(s, es, t, ClearNext);
    es, t := Extend(s, es, t, CopyIn);
    es, t := FinishEnqueue(s, es, t);
  }

  lemma FinishEnqueue<V(!new)>(s: State<V>, es: seq<Event<V>>, t: State<V>) returns (fs: seq<Event<V>>, u: State<V>)
    requires Run(s, es, t) && Reachable(t) && t.producer.PFilled? && forall k :: 0 <= k < |es| ==> ByProducer(es[k])
    ensures Run(s, fs, u) && Reachable(u) && forall k :: 0 <= k < |fs| ==> ByProducer(fs[k])
    ensures u.producer.PIdle? && u.published == t.published + [t.producer.v]
    ensures u.delivered == t.delivered && u.consumer == t.consumer && u.destroyer == t.destroyer
  {
    fs, u := Extend(s, es, t, Publish);
    fs, u := Extend(s, fs, u, MoveTail);
  }

  // A dequeue that runs alone takes the oldest undelivered value, handing it to a caller with a
  // buffer; it finds nothing exactly when everything published has been delivered.
  lemma DequeueAlone<V(!new)>(s: State<V>, out: bool) returns (es: seq<Event<V>>, t: State<V>)
    requires Reachable(s) && s.destroyer.NotStarted? && s.consumer.CIdle?
    ensures Run(s, es, t) && Reachable(t) && forall k :: 0 <= k < |es| ==> ByConsumer(es[k])
    ensures |s.delivered| <= |s.published| && t.consumer.CIdle?
    ensures t.delivered == if |s.delivered| == |s.published| then s.delivered
                           else s.delivered + [Delivery(out, if out then Some(s.published[|s.delivered|]) else None)]
    ensures t.published == s.published && t.producer == s.producer && t.destroyer == s.destroyer
  {
    FifoDelivery(s);
    assert Run(s, [], s);
    if |s.delivered| == |s.published| {
      es, t := Extend(s, [], s, FoundEmpty);
    } else {
      es, t := Extend(s, [], s, LoadNext(out));
      es, t := FinishDequeue(s, es, t);
      assert t.delivered[|s.delivered|] == Delivery(out, if out then Some(s.published[|s.delivered|]) else None);
    }
  }

  lemma FinishDequeue<V(!new)>(s: State<V>, es: seq<Event<V>>, t: State<V>) returns (fs: seq<Event<V>>, u: State<V>)
    requires Run(s, es, t) && Reachable(t) && t.consumer.CLoaded? && forall k :: 0 <= k < |es| ==> ByConsumer(es[k])
    ensures Run(s, fs, u) && Reachable(u) && forall k :: 0 <= k < |fs| ==> ByConsumer(fs[k])
    ensures u.consumer.CIdle? && |u.delivered| == |t.delivered| + 1 && u.delivered[..|t.delivered|] == t.delivered
    ensures |t.delivered| < |u.published| && u.delivered[|t.delivered|].out == t.consumer.out
    ensures Delivers(t.consumer.out, u.delivered[|t.delivered|].got, u.published[|t.delivered|])
    ensures u.published == t.published && u.producer == t.producer && u.destroyer == t.destroyer
  {
    if t.consumer.out {
      fs, u := Extend(s, es, t, CopyOut);
    } else {
      fs, u := Extend(s, es, t, Discard);
    }
    fs, u := MoveAndFree(s, fs, u);
    ReachableInv(u);
  }

  lemma MoveAndFree<V(!new)>(s: State<V>, es: seq<Event<V>>, t: State<V>) returns (fs: seq<Event<V>>, u: State<V>)
    requires Run(s, es, t) && Reachable(t) && t.consumer.CCopied? && forall k :: 0 <= k < |es| ==> ByConsumer(es[k])
    ensures Run(s, fs, u) && Reachable(u) && forall k :: 0 <= k < |fs| ==> ByConsumer(fs[k])
    ensures u.consumer.CIdle? && u.delivered == t.delivered + [Delivery(t.consumer.out, t.consumer.got)]
    ensures u.published == t.published && u.producer == t.producer && u.destroyer == t.destroyer
  {
    fs, u := Extend(s, es, t, MoveHead);
    fs, u := Extend(s, fs, u, FreeOld);
  }
}
