// The ring buffer of d4np/ds/ring_buffer.c seen by its callers: what the calls of a run return is
// determined by the calls alone, no call ever waits for the other side, and a call left to itself has
// exactly the effect of the operation on a bounded queue.
module RingTraces {
  import opened Common
  import opened Words
  import opened RingBuffer

  // ---- results as functions of the calls -----------------------------------------------------------

  // The argument of the push that began last.
  function CurrentPush<V>(es: seq<Event<V>>): Option<V> {
    if es == [] then None
    else match es[|es| - 1] case PushLoadTail(v) => Some(v) case _ => CurrentPush(es[..|es| - 1])
  }

  // Whether the pop that began last was given a buffer.
  function CurrentPop<V>(es: seq<Event<V>>): Option<bool> {
    if es == [] then None
    else match es[|es| - 1] case PopLoadHead(out) => Some(out) case _ => CurrentPop(es[..|es| - 1])
  }

  // The arguments of the pushes that succeeded.
  function PushCalls<V>(es: seq<Event<V>>): seq<V> {
    if es == [] then []
    else
      var n := |es| - 1;
      var v := CurrentPush(es[..n]);
      PushCalls(es[..n]) + (if es[n].PushPublish? && v.Some? then [v.value] else [])
  }

  // For each pop that succeeded, whether it was given a buffer.
  function PopCalls<V>(es: seq<Event<V>>): seq<bool> {
    if es == [] then []
    else
      var n := |es| - 1;
      var out := CurrentPop(es[..n]);
      PopCalls(es[..n]) + (if es[n].PopPublish? && out.Some? then [out.value] else [])
  }

  function Outs<V>(pops: seq<Pop<V>>): (r: seq<bool>)
    ensures |r| == |pops|
  {
    seq(|pops|, i requires 0 <= i < |pops| => pops[i].out)
  }

  ghost predicate PushFollows<V>(es: seq<Event<V>>, s: State<V>) {
    && s.pushed == PushCalls(es)
    && (s.producer.PIdle? || s.producer.PCounting? || CurrentPush(es) == Some(s.producer.v))
  }

  ghost predicate PopFollows<V>(es: seq<Event<V>>, s: State<V>) {
    && Outs(s.popped) == PopCalls(es)
    && (s.consumer.CIdle? || s.consumer.CCounting? || CurrentPop(es) == Some(s.consumer.out))
  }

  lemma {:induction false} RunSplit<V>(s: State<V>, es: seq<Event<V>>, t: State<V>) returns (mid: State<V>)
    requires es != [] && Run(s, es, t)
    ensures Run(s, es[..|es| - 1], mid) && WellFormed(mid)
    ensures Enabled(mid, es[|es| - 1]) && t == Apply(mid, es[|es| - 1])
    decreases |es|
  {
    if |es| == 1 {
      mid := s;
    } else {
      var rest, n := es[1..], |es| - 1;
      mid := RunSplit(Apply(s, es[0]), rest, t);
      assert rest[..n - 1] == es[..n][1..];
    }
  }

  lemma StepFollows<V>(es: seq<Event<V>>, s: State<V>, e: Event<V>)
    requires WellFormed(s) && Enabled(s, e) && PushFollows(es, s) && PopFollows(es, s)
    ensures PushFollows(es + [e], Apply(s, e)) && PopFollows(es + [e], Apply(s, e))
  {
    assert (es + [e])[..|es|] == es;
    assert Outs(Apply(s, e).popped) == Outs(s.popped) + (if e.PopPublish? then [s.consumer.out] else []);
  }

  lemma {:induction false} RunFollows<V>(ar: Arithmetic, cap: nat, es: seq<Event<V>>, s: State<V>)
    requires Run(Initial<V>(ar, cap), es, s)
    ensures PushFollows(es, s) && PopFollows(es, s)
    decreases |es|
  {
    if es == [] {
    } else {
      var n := |es| - 1;
      var mid := RunSplit(Initial<V>(ar, cap), es, s);
      RunFollows(ar, cap, es[..n], mid);
      StepFollows(es[..n], mid, es[n]);
      assert es[..n] + [es[n]] == es;
    }
  }

  // In every run, whatever the interleaving, the i-th successful pop call delivers the argument of
  // the i-th successful push call to a caller with a buffer, and nothing to a caller without.
  lemma PopsReturnPushes<V(!new)>(cap: nat, es: seq<Event<V>>, c: State<V>)
    requires 0 < cap <= WORD / 2 && IsPow2(cap) && Run(Initial<V>(Wrapping, cap), es, c)
    ensures |c.popped| == |PopCalls(es)| <= |PushCalls(es)| <= |PopCalls(es)| + cap
    ensures forall i :: 0 <= i < |PopCalls(es)| ==>
              c.popped[i] == Pop(PopCalls(es)[i], if PopCalls(es)[i] then Some(Val(PushCalls(es)[i])) else None)
  {
    RunFollows(Wrapping, cap, es, c);
    Fifo(cap, c);
    forall i | 0 <= i < |PopCalls(es)|
      ensures c.popped[i] == Pop(PopCalls(es)[i], if PopCalls(es)[i] then Some(Val(PushCalls(es)[i])) else None)
    {
      assert c.popped[i].out == Outs(c.popped)[i];
    }
  }

  // ---- no call waits ---------------------------------------------------------------------------------

  predicate ByProducer<V>(e: Event<V>) {
    || e.PushLoadTail? || e.PushLoadHead? || e.PushFull? || e.PushBeginCopy? || e.PushEndCopy? || e.PushPublish?
    || e.ProducerCountTail? || e.ProducerCountHead?
  }

  predicate ByConsumer<V>(e: Event<V>) {
    || e.PopLoadHead? || e.PopLoadTail? || e.PopEmpty? || e.PopBeginCopy? || e.PopEndCopy? || e.PopDiscard?
    || e.PopPublish? || e.ConsumerCountTail? || e.ConsumerCountHead?
  }

  // The own steps a call has still to take, at most.
  function ProducerLeft<V>(p: Producer<V>): nat {
    match p
    case PIdle => 0
    case PTail(_, _) => 4
    case PBoth(_, _, _) => 3
    case PCopying(_, _, _) => 2
    case PCopied(_, _, _) => 1
    case PCounting(_) => 1
  }

  function ConsumerLeft<V>(c: Consumer<V>): nat {
    match c
    case CIdle => 0
    case CHead(_, _) => 4
    case CBoth(_, _, _) => 3
    case CCopying(_, _, _) => 2
    case CCopied(_, _, _, _) => 1
    case CCounting(_) => 1
  }

  predicate Starts<V>(e: Event<V>) {
    e.PushLoadTail? || e.ProducerCountTail? || e.PopLoadHead? || e.ConsumerCountTail?
  }

  // The next step of a producer inside a call, whatever the consumer is doing.
  function ProducerNext<V>(s: State<V>): Event<V>
    requires !s.producer.PIdle?
  {
    match s.producer
    case PTail(_, _) => PushLoadHead
    case PBoth(_, t, h) => if Diff(s.ar, t, h) == s.cap then PushFull else PushBeginCopy
    case PCopying(_, _, _) => PushEndCopy
    case PCopied(_, _, _) => PushPublish
    case PCounting(_) => ProducerCountHead
  }

  function ConsumerNext<V>(s: State<V>): Event<V>
    requires !s.consumer.CIdle?
  {
    match s.consumer
    case CHead(_, _) => PopLoadTail
    case CBoth(h, t, out) => if h == t then PopEmpty else if out then PopBeginCopy else PopDiscard
    case CCopying(_, _, _) => PopEndCopy
    case CCopied(_, _, _, _) => PopPublish
    case CCounting(_) => ConsumerCountHead
  }

  // In any state each side can begin a call when it is in none, and otherwise has exactly one next
  // step, which is enabled whatever the other side is doing.
  lemma NeverBlocked<V>(s: State<V>, v: V, out: bool, e: Event<V>)
    ensures s.producer.PIdle? ==> Enabled(s, PushLoadTail(v)) && Enabled(s, ProducerCountTail)
    ensures s.consumer.CIdle? ==> Enabled(s, PopLoadHead(out)) && Enabled(s, ConsumerCountTail)
    ensures !s.producer.PIdle? && ByProducer(e) ==> (Enabled(s, e) <==> e == ProducerNext(s))
    ensures !s.consumer.CIdle? && ByConsumer(e) ==> (Enabled(s, e) <==> e == ConsumerNext(s))
  {
  }

  function StepsBy<V>(es: seq<Event<V>>, producer: bool): nat {
    if es == [] then 0
    else (if (if producer then ByProducer(es[0]) else ByConsumer(es[0])) then 1 else 0) + StepsBy(es[1..], producer)
  }

  lemma StepLeft<V>(s: State<V>, e: Event<V>)
    requires WellFormed(s) && Enabled(s, e) && !Starts(e)
    ensures ProducerLeft(Apply(s, e).producer) + (if ByProducer(e) then 1 else 0) <= ProducerLeft(s.producer)
    ensures ConsumerLeft(Apply(s, e).consumer) + (if ByConsumer(e) then 1 else 0) <= ConsumerLeft(s.consumer)
  {
  }

  // Wait-freedom: once a call has made its first load it returns within four more steps of its own,
  // however the other side's steps are interleaved.
  lemma {:induction false} WaitFree<V>(s: State<V>, es: seq<Event<V>>, t: State<V>)
    requires Run(s, es, t) && forall k :: 0 <= k < |es| ==> !Starts(es[k])
    ensures StepsBy(es, true) + ProducerLeft(t.producer) <= ProducerLeft(s.producer) <= 4
    ensures StepsBy(es, false) + ConsumerLeft(t.consumer) <= ConsumerLeft(s.consumer) <= 4
    decreases |es|
  {
    if es == [] {
    } else {
      StepLeft(s, es[0]);
      assert forall k :: 0 <= k < |es| - 1 ==> es[1..][k] == es[k + 1];
      WaitFree(Apply(s, es[0]), es[1..], t);
    }
  }

  // ---- calls left to themselves ------------------------------------------------------------------------

  lemma Extend<V>(s: State<V>, es: seq<Event<V>>, t: State<V>, e: Event<V>) returns (fs: seq<Event<V>>, u: State<V>)
    requires Run(s, es, t) && WellFormed(t) && Enabled(t, e)
    ensures fs == es + [e] && u == Apply(t, e) && Run(s, fs, u)
  {
    RunExtend(s, es, t, e);
    fs, u := es + [e], Apply(t, e);
  }

  // A push that runs alone, whatever the consumer is in the middle of: it appends the value unless
  // `cap` values are outstanding, and changes nothing else.
  lemma PushAlone<V(!new)>(cap: nat, c: State<V>, v: V) returns (es: seq<Event<V>>, d: State<V>)
    requires Reachable(cap, c) && c.producer.PIdle?
    ensures Run(c, es, d) && (forall k :: 0 <= k < |es| ==> ByProducer(es[k])) && d.producer.PIdle?
    ensures d.pushed == if |c.pushed| < |c.popped| + cap then c.pushed + [v] else c.pushed
    ensures d.popped == c.popped && d.consumer == c.consumer && d.observer == c.observer
  {
    Fifo(cap, c);
    RefusalsAreGenuine(cap, c);
    StepReachable(cap, c, PushLoadTail(v));
    RefusalsAreGenuine(cap, Apply(c, PushLoadTail(v)));
    assert Run(c, [], c);
    es, d := Extend(c, [], c, PushLoadTail(v));
    es, d := Extend(c, es, d, PushLoadHead);
    if |c.pushed| == |c.popped| + cap {
      es, d := Extend(c, es, d, PushFull);
    } else {
      es, d := Extend(c, es, d, PushBeginCopy);
      es, d := FinishPush(c, es, d);
    }
  }

  lemma FinishPush<V>(c: State<V>, es: seq<Event<V>>, d: State<V>) returns (fs: seq<Event<V>>, t: State<V>)
    requires WellFormed(d) && Run(c, es, d) && d.producer.PCopying? && forall k :: 0 <= k < |es| ==> ByProducer(es[k])
    ensures Run(c, fs, t) && (forall k :: 0 <= k < |fs| ==> ByProducer(fs[k])) && t.producer.PIdle?
    ensures t.pushed == d.pushed + [d.producer.v]
    ensures t.popped == d.popped && t.consumer == d.consumer && t.observer == d.observer
  {
    fs, t := Extend(c, es, d, PushEndCopy);
    fs, t := Extend(c, fs, t, PushPublish);
  }

  // A pop that runs alone takes the oldest outstanding value, delivering it to a caller with a
  // buffer, or changes nothing when there is none.
  lemma PopAlone<V(!new)>(cap: nat, c: State<V>, out: bool) returns (es: seq<Event<V>>, d: State<V>)
    requires Reachable(cap, c) && c.consumer.CIdle?
    ensures Run(c, es, d) && (forall k :: 0 <= k < |es| ==> ByConsumer(es[k])) && d.consumer.CIdle?
    ensures |c.popped| <= |c.pushed|
    ensures d.popped == if |c.popped| == |c.pushed| then c.popped
                        else c.popped + [Pop(out, if out then Some(Val(c.pushed[|c.popped|])) else None)]
    ensures d.pushed == c.pushed && d.producer == c.producer && d.observer == c.observer
  {
    Fifo(cap, c);
    RefusalsAreGenuine(cap, c);
    StepReachable(cap, c, PopLoadHead(out));
    RefusalsAreGenuine(cap, Apply(c, PopLoadHead(out)));
    assert Run(c, [], c);
    es, d := Extend(c, [], c, PopLoadHead(out));
    es, d := Extend(c, es, d, PopLoadTail);
    if |c.popped| == |c.pushed| {
      es, d := Extend(c, es, d, PopEmpty);
    } else {
      es, d := FinishPop(c, es, d);
      PopDelivers(cap, c, es, d);
    }
  }

  lemma FinishPop<V>(c: State<V>, es: seq<Event<V>>, d: State<V>) returns (fs: seq<Event<V>>, t: State<V>)
    requires WellFormed(d) && Run(c, es, d) && d.consumer.CBoth? && d.consumer.h != d.consumer.t
    requires forall k :: 0 <= k < |es| ==> ByConsumer(es[k])
    ensures Run(c, fs, t) && (forall k :: 0 <= k < |fs| ==> ByConsumer(fs[k])) && t.consumer.CIdle?
    ensures |t.popped| == |d.popped| + 1 && t.popped[..|d.popped|] == d.popped
    ensures t.popped[|d.popped|].out == d.consumer.out
    ensures t.pushed == d.pushed && t.producer == d.producer && t.observer == d.observer
  {
    if d.consumer.out {
      fs, t := Extend(c, es, d, PopBeginCopy);
      fs, t := Extend(c, fs, t, PopEndCopy);
    } else {
      fs, t := Extend(c, es, d, PopDiscard);
    }
    fs, t := Extend(c, fs, t, PopPublish);
  }

  lemma {:induction false} RunReachable<V(!new)>(cap: nat, c: State<V>, es: seq<Event<V>>, d: State<V>)
    requires Reachable(cap, c) && Run(c, es, d)
    ensures Reachable(cap, d)
    decreases |es|
  {
    if es == [] {
    } else {
      StepReachable(cap, c, es[0]);
      RunReachable(cap, Apply(c, es[0]), es[1..], d);
    }
  }

  lemma PopDelivers<V(!new)>(cap: nat, c: State<V>, es: seq<Event<V>>, d: State<V>)
    requires Reachable(cap, c) && Run(c, es, d) && |d.popped| == |c.popped| + 1 && d.pushed == c.pushed
    ensures |c.popped| < |c.pushed|
    ensures d.popped[|c.popped|].got == Wanted(d.popped[|c.popped|].out, c.pushed[|c.popped|])
  {
    RunReachable(cap, c, es, d);
    Fifo(cap, d);
  }

  // ---- count ---------------------------------------------------------------------------------------------

  lemma {:induction false} ConsumerCountingStays<V>(s: State<V>, es: seq<Event<V>>, t: State<V>)
    requires s.consumer.CCounting? && Run(s, es, t) && forall k :: 0 <= k < |es| ==> !es[k].ConsumerCountHead?
    ensures t.consumer == s.consumer && t.head == s.head && t.ar == s.ar
    decreases |es|
  {
    if es == [] {
    } else {
      assert forall k :: 0 <= k < |es| - 1 ==> es[1..][k] == es[k + 1];
      ConsumerCountingStays(Apply(s, es[0]), es[1..], t);
    }
  }

  // The consumer's count is the number of values outstanding when it loaded tail.
  lemma ConsumerCountExact<V(!new)>(cap: nat, c: State<V>, es: seq<Event<V>>, d: State<V>)
    requires Reachable(cap, c) && c.consumer.CIdle? && WellFormed(c) && Run(Apply(c, ConsumerCountTail), es, d)
    requires forall k :: 0 <= k < |es| ==> !es[k].ConsumerCountHead?
    ensures Enabled(d, ConsumerCountHead) && CountResult(d, ConsumerCountHead) == |c.pushed| - |c.popped|
  {
    ConsumerCountingStays(Apply(c, ConsumerCountTail), es, d);
    Fifo(cap, c);
    ArithmeticFixed(cap, c);
  }

  lemma ArithmeticFixed<V(!new)>(cap: nat, c: State<V>)
    requires Reachable(cap, c)
    ensures c.ar.Wrapping? && c.cap == cap && c.tail == |c.pushed| % WORD && c.head == |c.popped| % WORD
  {
    var es :| Run(Initial<V>(Wrapping, cap), es, c);
    var b := Refines(cap, es, c);
  }

  lemma {:induction false} ObserverCountingStays<V>(s: State<V>, es: seq<Event<V>>, t: State<V>)
    requires s.observer.OCounting? && Run(s, es, t) && forall k :: 0 <= k < |es| ==> !es[k].ObserverCountHead?
    ensures t.observer == s.observer
    decreases |es|
  {
    if es == [] {
    } else {
      assert forall k :: 0 <= k < |es| - 1 ==> es[1..][k] == es[k + 1];
      ObserverCountingStays(Apply(s, es[0]), es[1..], t);
    }
  }

  // A third thread gets, modulo 2^64, what was pushed at its first load less what was popped at its
  // second.
  lemma ObserverCountExact<V(!new)>(cap: nat, c: State<V>, es: seq<Event<V>>, d: State<V>)
    requires Reachable(cap, c) && c.observer.OIdle? && WellFormed(c) && Run(Apply(c, ObserverCountTail), es, d)
    requires forall k :: 0 <= k < |es| ==> !es[k].ObserverCountHead?
    ensures Enabled(d, ObserverCountHead) && CountResult(d, ObserverCountHead) == (|c.pushed| - |d.popped|) % WORD
  {
    ObserverHolds(cap, c, es, d);
    ResidueDiff(cap, c, d);
  }

  lemma ResidueDiff<V(!new)>(cap: nat, c: State<V>, d: State<V>)
    requires Reachable(cap, c) && Reachable(cap, d)
    ensures d.ar.Wrapping? && Diff(d.ar, c.tail, d.head) == (|c.pushed| - |d.popped|) % WORD
  {
    ArithmeticFixed(cap, c);
    ArithmeticFixed(cap, d);
    WrapDiff(|c.pushed|, |d.popped|);
  }

  lemma ObserverHolds<V(!new)>(cap: nat, c: State<V>, es: seq<Event<V>>, d: State<V>)
    requires Reachable(cap, c) && c.observer.OIdle? && WellFormed(c) && Run(Apply(c, ObserverCountTail), es, d)
    requires forall k :: 0 <= k < |es| ==> !es[k].ObserverCountHead?
    ensures Reachable(cap, d) && d.observer == OCounting(c.tail)
  {
    StepReachable(cap, c, ObserverCountTail);
    RunReachable(cap, Apply(c, ObserverCountTail), es, d);
    ObserverCountingStays(Apply(c, ObserverCountTail), es, d);
  }
}
