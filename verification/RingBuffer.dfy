// The lock-free single-producer / single-consumer ring buffer of d4np/ds/ring_buffer.c, as
// interleaved load, copy and publish steps.  One step system is run with two arithmetics: the
// 64-bit wrapping counters of the code, and unbounded counters.  The loads of the other side's
// index are kept in the program counter and go stale there.
module RingBuffer {
  import opened Common
  import opened Words

  datatype Arithmetic = Wrapping | Unbounded

  function Inc(ar: Arithmetic, x: nat): nat {
    if ar.Wrapping? then (x + 1) % WORD else x + 1
  }

  // `t - h`.
  function Diff(ar: Arithmetic, t: nat, h: nat): int {
    if ar.Wrapping? then (t - h) % WORD else t - h
  }

  // The slot of counter value `x`: `x & mask` in the code.
  function Index(ar: Arithmetic, x: nat, cap: nat): (i: nat)
    requires cap > 0 && IsPow2(cap)
    ensures i == x % cap
  {
    AndMask(x, cap);
    if ar.Wrapping? then BitAnd(x, cap - 1) else x % cap
  }

  // A slot is junk until written and while a copy into it is in progress.
  datatype Cell<V> = Junk | Val(v: V)

  datatype Producer<V> =
    | PIdle
    | PTail(v: V, t: nat)
    | PBoth(v: V, t: nat, h: nat)
    | PCopying(v: V, t: nat, h: nat)
    | PCopied(v: V, t: nat, h: nat)
    | PCounting(t: nat)

  datatype Consumer<V> =
    | CIdle
    | CHead(h: nat, out: bool)
    | CBoth(h: nat, t: nat, out: bool)
    | CCopying(h: nat, t: nat, out: bool)
    | CCopied(h: nat, t: nat, out: bool, got: Option<Cell<V>>)
    | CCounting(t: nat)

  // A completed pop: whether the caller passed a buffer, and what was copied into it.
  datatype Pop<V> = Pop(out: bool, got: Option<Cell<V>>)

  // A third thread calling count.
  datatype Observer = OIdle | OCounting(t: nat)

  datatype State<V> = State(
    ar: Arithmetic,
    cap: nat,
    buf: seq<Cell<V>>,
    head: nat,
    tail: nat,
    producer: Producer<V>,
    consumer: Consumer<V>,
    observer: Observer,
    // history: what was pushed, and the completed pops
    pushed: seq<V>,
    popped: seq<Pop<V>>)

  datatype Event<V> =
    | PushLoadTail(v: V) | PushLoadHead | PushFull | PushBeginCopy | PushEndCopy | PushPublish
    | PopLoadHead(out: bool) | PopLoadTail | PopEmpty | PopBeginCopy | PopEndCopy | PopDiscard | PopPublish
    | ProducerCountTail | ProducerCountHead
    | ConsumerCountTail | ConsumerCountHead
    | ObserverCountTail | ObserverCountHead

  function Initial<V>(ar: Arithmetic, cap: nat): State<V> {
    State(ar, cap, seq(cap, _ => Junk), 0, 0, PIdle, CIdle, OIdle, [], [])
  }

  predicate Enabled<V>(s: State<V>, e: Event<V>) {
    match e
    case PushLoadTail(_) => s.producer.PIdle?
    case PushLoadHead => s.producer.PTail?
    case PushFull => s.producer.PBoth? && Diff(s.ar, s.producer.t, s.producer.h) == s.cap
    case PushBeginCopy => s.producer.PBoth? && Diff(s.ar, s.producer.t, s.producer.h) != s.cap
    case PushEndCopy => s.producer.PCopying?
    case PushPublish => s.producer.PCopied?
    case PopLoadHead(_) => s.consumer.CIdle?
    case PopLoadTail => s.consumer.CHead?
    case PopEmpty => s.consumer.CBoth? && s.consumer.h == s.consumer.t
    case PopBeginCopy => s.consumer.CBoth? && s.consumer.h != s.consumer.t && s.consumer.out
    case PopEndCopy => s.consumer.CCopying?
    case PopDiscard => s.consumer.CBoth? && s.consumer.h != s.consumer.t && !s.consumer.out
    case PopPublish => s.consumer.CCopied?
    case ProducerCountTail => s.producer.PIdle?
    case ProducerCountHead => s.producer.PCounting?
    case ConsumerCountTail => s.consumer.CIdle?
    case ConsumerCountHead => s.consumer.CCounting?
    case ObserverCountTail => s.observer.OIdle?
    case ObserverCountHead => s.observer.OCounting?
  }

  ghost predicate WellFormed<V>(s: State<V>) {
    0 < s.cap <= WORD / 2 && IsPow2(s.cap) && |s.buf| == s.cap
  }

  function Slot<V>(s: State<V>, x: nat): Cell<V>
    requires WellFormed(s)
  {
    s.buf[Index(s.ar, x, s.cap)]
  }

  function Write<V>(s: State<V>, x: nat, c: Cell<V>): seq<Cell<V>>
    requires WellFormed(s)
  {
    s.buf[Index(s.ar, x, s.cap) := c]
  }

  function Apply<V>(s: State<V>, e: Event<V>): State<V>
    requires WellFormed(s) && Enabled(s, e)
  {
    var p, c := s.producer, s.consumer;
    match e
    case PushLoadTail(v) => s.(producer := PTail(v, s.tail))
    case PushLoadHead => s.(producer := PBoth(p.v, p.t, s.head))
    case PushFull => s.(producer := PIdle)
    case PushBeginCopy => s.(producer := PCopying(p.v, p.t, p.h), buf := Write(s, p.t, Junk))
    case PushEndCopy => s.(producer := PCopied(p.v, p.t, p.h), buf := Write(s, p.t, Val(p.v)))
    case PushPublish => s.(producer := PIdle, tail := Inc(s.ar, p.t), pushed := s.pushed + [p.v])
    case PopLoadHead(out) => s.(consumer := CHead(s.head, out))
    case PopLoadTail => s.(consumer := CBoth(c.h, s.tail, c.out))
    case PopEmpty => s.(consumer := CIdle)
    case PopBeginCopy => s.(consumer := CCopying(c.h, c.t, c.out))
    case PopEndCopy => s.(consumer := CCopied(c.h, c.t, c.out, Some(Slot(s, c.h))))
    case PopDiscard => s.(consumer := CCopied(c.h, c.t, c.out, None))
    case PopPublish => s.(consumer := CIdle, head := Inc(s.ar, c.h), popped := s.popped + [Pop(c.out, c.got)])
    case ProducerCountTail => s.(producer := PCounting(s.tail))
    case ProducerCountHead => s.(producer := PIdle)
    case ConsumerCountTail => s.(consumer := CCounting(s.tail))
    case ConsumerCountHead => s.(consumer := CIdle)
    case ObserverCountTail => s.(observer := OCounting(s.tail))
    case ObserverCountHead => s.(observer := OIdle)
  }

  // What a count whose second load is about to happen will return.
  function CountResult<V>(s: State<V>, e: Event<V>): int
    requires Enabled(s, e) && (e.ProducerCountHead? || e.ConsumerCountHead? || e.ObserverCountHead?)
  {
    match e
    case ProducerCountHead => Diff(s.ar, s.producer.t, s.head)
    case ConsumerCountHead => Diff(s.ar, s.consumer.t, s.head)
    case ObserverCountHead => Diff(s.ar, s.observer.t, s.head)
  }

  ghost predicate Run<V>(s: State<V>, es: seq<Event<V>>, t: State<V>)
    decreases |es|
  {
    if es == [] then s == t
    else WellFormed(s) && Enabled(s, es[0]) && Run(Apply(s, es[0]), es[1..], t)
  }

  // ---- unbounded counters -----------------------------------------------------------------------

  ghost predicate Window<V>(s: State<V>) {
    && s.ar.Unbounded? && WellFormed(s)
    && s.head <= s.tail <= s.head + s.cap
    && |s.pushed| == s.tail && |s.popped| == s.head
  }

  ghost predicate ProducerOk<V>(s: State<V>)
    requires Window(s)
  {
    match s.producer
    case PIdle => true
    case PTail(_, t) => t == s.tail
    case PBoth(_, t, h) => t == s.tail && h <= s.head && t <= h + s.cap
    case PCopying(_, t, h) => t == s.tail && h <= s.head && t < h + s.cap
    case PCopied(v, t, h) => t == s.tail && h <= s.head && t < h + s.cap && s.buf[t % s.cap] == Val(v)
    case PCounting(t) => t == s.tail
  }

  // What a pop of value `v` has to deliver: the value if the caller passed a buffer, else nothing.
  function Wanted<V>(out: bool, v: V): Option<Cell<V>> {
    if out then Some(Val(v)) else None
  }

  ghost predicate ConsumerOk<V>(s: State<V>)
    requires Window(s)
  {
    match s.consumer
    case CIdle => true
    case CHead(h, _) => h == s.head
    case CBoth(h, t, _) => h == s.head && h <= t <= s.tail
    case CCopying(h, t, out) => h == s.head && h < t <= s.tail && out
    case CCopied(h, t, out, got) => h == s.head && h < t <= s.tail && got == Wanted(out, s.pushed[h])
    case CCounting(t) => s.head <= t <= s.tail
  }

  ghost predicate ContentsOk<V>(s: State<V>)
    requires Window(s)
  {
    && (forall i: nat :: s.head <= i < s.tail ==> s.buf[i % s.cap] == Val(s.pushed[i]))
    && (forall i :: 0 <= i < s.head ==> s.popped[i].got == Wanted(s.popped[i].out, s.pushed[i]))
    && (s.observer.OCounting? ==> s.observer.t <= s.tail)
  }

  ghost predicate Inv<V>(s: State<V>) {
    Window(s) && ProducerOk(s) && ConsumerOk(s) && ContentsOk(s)
  }

  // Counter values less than `cap` apart land in different slots.
  lemma SlotsDiffer(i: nat, j: nat, cap: nat)
    requires i < j < i + cap
    ensures i % cap != j % cap
  {
    if i % cap == j % cap {
      var d := j / cap - i / cap;
      assert j - i == d * cap;
      if d >= 1 {
        MulAtLeast(d, cap);
      }
    }
  }

  // The producer's copy leaves every published slot alone.
  lemma WriteFrame<V>(s: State<V>, c: Cell<V>)
    requires Window(s) && s.tail < s.head + s.cap
    ensures Write(s, s.tail, c) == s.buf[s.tail % s.cap := c]
    ensures forall i: nat :: s.head <= i < s.tail ==> Write(s, s.tail, c)[i % s.cap] == s.buf[i % s.cap]
  {
    forall i: nat | s.head <= i < s.tail
      ensures i % s.cap != s.tail % s.cap
    {
      SlotsDiffer(i, s.tail, s.cap);
    }
  }

  lemma CopyInInv<V>(s: State<V>, e: Event<V>)
    requires Inv(s) && Enabled(s, e) && (e.PushBeginCopy? || e.PushEndCopy?)
    ensures Inv(Apply(s, e))
  {
    WriteFrame(s, if e.PushBeginCopy? then Junk else Val(s.producer.v));
  }

  lemma PublishInv<V>(s: State<V>, e: Event<V>)
    requires Inv(s) && Enabled(s, e) && (e.PushPublish? || e.PopPublish?)
    ensures Inv(Apply(s, e))
  {
  }

  lemma CopyOutInv<V>(s: State<V>, e: Event<V>)
    requires Inv(s) && Enabled(s, e) && (e.PopBeginCopy? || e.PopEndCopy? || e.PopDiscard?)
    ensures Inv(Apply(s, e))
  {
  }

  // Loads, refusals and count change nothing but a program counter.
  lemma ProducerLoadInv<V>(s: State<V>, e: Event<V>)
    requires Inv(s) && Enabled(s, e)
    requires e.PushLoadTail? || e.PushLoadHead? || e.PushFull? || e.ProducerCountTail? || e.ProducerCountHead?
    ensures Inv(Apply(s, e))
  {
  }

  lemma ConsumerLoadInv<V>(s: State<V>, e: Event<V>)
    requires Inv(s) && Enabled(s, e)
    requires e.PopLoadHead? || e.PopLoadTail? || e.PopEmpty? || e.ConsumerCountTail? || e.ConsumerCountHead?
    ensures Inv(Apply(s, e))
  {
  }

  lemma StepInv<V>(s: State<V>, e: Event<V>)
    requires Inv(s) && Enabled(s, e)
    ensures Inv(Apply(s, e))
  {
    if e.PushBeginCopy? || e.PushEndCopy? {
      CopyInInv(s, e);
    } else if e.PopBeginCopy? || e.PopEndCopy? || e.PopDiscard? {
      CopyOutInv(s, e);
    } else if e.PushPublish? || e.PopPublish? {
      PublishInv(s, e);
    } else if e.PopLoadHead? || e.PopLoadTail? || e.PopEmpty? || e.ConsumerCountTail? || e.ConsumerCountHead? {
      ConsumerLoadInv(s, e);
    } else if !e.ObserverCountTail? && !e.ObserverCountHead? {
      ProducerLoadInv(s, e);
    }
  }

  lemma {:induction false} RunInv<V>(s: State<V>, es: seq<Event<V>>, t: State<V>)
    requires Inv(s) && Run(s, es, t)
    ensures Inv(t) && t.cap == s.cap
    decreases |es|
  {
    if es == [] {
    } else {
      StepInv(s, es[0]);
      RunInv(Apply(s, es[0]), es[1..], t);
    }
  }

  lemma InitialInv<V>(cap: nat)
    requires 0 < cap <= WORD / 2 && IsPow2(cap)
    ensures Inv(Initial<V>(Unbounded, cap))
  {
  }

  // ---- the wrapping code refines the unbounded one ------------------------------------------------

  function WrapProducer<V>(p: Producer<V>): Producer<V> {
    match p
    case PIdle => PIdle
    case PTail(v, t) => PTail(v, t % WORD)
    case PBoth(v, t, h) => PBoth(v, t % WORD, h % WORD)
    case PCopying(v, t, h) => PCopying(v, t % WORD, h % WORD)
    case PCopied(v, t, h) => PCopied(v, t % WORD, h % WORD)
    case PCounting(t) => PCounting(t % WORD)
  }

  function WrapConsumer<V>(c: Consumer<V>): Consumer<V> {
    match c
    case CIdle => CIdle
    case CHead(h, out) => CHead(h % WORD, out)
    case CBoth(h, t, out) => CBoth(h % WORD, t % WORD, out)
    case CCopying(h, t, out) => CCopying(h % WORD, t % WORD, out)
    case CCopied(h, t, out, got) => CCopied(h % WORD, t % WORD, out, got)
    case CCounting(t) => CCounting(t % WORD)
  }

  // The same state with every counter, stale copies included, reduced modulo 2^64.
  function Wrap<V>(a: State<V>): State<V> {
    a.(ar := Wrapping, head := a.head % WORD, tail := a.tail % WORD,
       producer := WrapProducer(a.producer), consumer := WrapConsumer(a.consumer),
       observer := if a.observer.OIdle? then OIdle else OCounting(a.observer.t % WORD))
  }

  lemma WrapDiff(t: nat, h: nat)
    ensures (t % WORD - h % WORD) % WORD == (t - h) % WORD
  {
  }

  lemma WrapInc(x: nat)
    ensures (x % WORD + 1) % WORD == (x + 1) % WORD
  {
  }

  // Within a window of at most 2^63 the wrapped difference is the true one.
  lemma DiffExact(t: nat, h: nat)
    requires h <= t <= h + WORD / 2
    ensures Diff(Wrapping, t % WORD, h % WORD) == t - h
    ensures h % WORD == t % WORD <==> h == t
  {
    WrapDiff(t, h);
  }

  // Masking a wrapped counter and reducing an unbounded one pick the same slot.
  lemma IndexExact(x: nat, cap: nat)
    requires 0 < cap <= WORD / 2 && IsPow2(cap)
    ensures Index(Wrapping, x % WORD, cap) == Index(Unbounded, x, cap)
  {
    var k: nat :| Pow2(k) == cap;
    Pow2Word();
    if k > 64 {
      Pow2Monotone(64, k);
    }
    var q := Pow2Divides(k, 64);
    ModMod(x, q, cap);
  }

  // Reducing modulo a multiple of `m` first changes nothing modulo `m`.
  lemma ModMod(x: nat, q: nat, m: nat)
    requires m > 0 && q > 0
    ensures q * m > 0 && (x % (q * m)) % m == x % m
  {
    MulAtLeast(q, m);
    var a, r := x / (q * m), x % (q * m);
    var b, d := r / m, r % m;
    assert x == a * (q * m) + r;
    assert a * (q * m) == (a * q) * m;
    assert (a * q + b) * m == (a * q) * m + b * m;
    DivModUnique(x, m, a * q + b, d);
  }

  // Step for step the two machines agree: the same steps are enabled, so the full and empty tests
  // have the same outcome even on stale indices, and they lead to corresponding states.
  lemma StepsCorrespond<V>(a: State<V>, e: Event<V>)
    requires Inv(a)
    ensures WellFormed(Wrap(a))
    ensures Enabled(Wrap(a), e) <==> Enabled(a, e)
    ensures Enabled(a, e) ==> Apply(Wrap(a), e) == Wrap(Apply(a, e))
  {
    if e.PushLoadTail? || e.PushLoadHead? || e.PushFull? || e.PushBeginCopy? || e.PushEndCopy? || e.PushPublish? {
      PushCorresponds(a, e);
    } else if e.PopEmpty? || e.PopBeginCopy? || e.PopDiscard? {
      PopTestCorresponds(a, e);
    } else if e.PopEndCopy? || e.PopPublish? {
      PopCorresponds(a, e);
    }
  }

  lemma PushCorresponds<V>(a: State<V>, e: Event<V>)
    requires Inv(a)
    requires e.PushLoadTail? || e.PushLoadHead? || e.PushFull? || e.PushBeginCopy? || e.PushEndCopy? || e.PushPublish?
    ensures Enabled(Wrap(a), e) <==> Enabled(a, e)
    ensures Enabled(a, e) ==> Apply(Wrap(a), e) == Wrap(Apply(a, e))
  {
    FullTests(a);
    IndexExact(a.tail, a.cap);
    WrapInc(a.tail);
  }

  lemma PopTestCorresponds<V>(a: State<V>, e: Event<V>)
    requires Inv(a) && (e.PopEmpty? || e.PopBeginCopy? || e.PopDiscard?)
    ensures Enabled(Wrap(a), e) <==> Enabled(a, e)
    ensures Enabled(a, e) ==> Apply(Wrap(a), e) == Wrap(Apply(a, e))
  {
    EmptyTests(a);
  }

  lemma PopCorresponds<V>(a: State<V>, e: Event<V>)
    requires Inv(a) && (e.PopEndCopy? || e.PopPublish?)
    ensures Enabled(Wrap(a), e) <==> Enabled(a, e)
    ensures Enabled(a, e) ==> Apply(Wrap(a), e) == Wrap(Apply(a, e))
  {
    IndexExact(a.head, a.cap);
    WrapInc(a.head);
  }

  lemma FullTests<V>(a: State<V>)
    requires Inv(a)
    ensures a.producer.PBoth? ==>
              Diff(Wrapping, a.producer.t % WORD, a.producer.h % WORD) == Diff(Unbounded, a.producer.t, a.producer.h)
  {
    if a.producer.PBoth? {
      DiffExact(a.producer.t, a.producer.h);
    }
  }

  lemma EmptyTests<V>(a: State<V>)
    requires Inv(a)
    ensures a.consumer.CBoth? ==> (a.consumer.h % WORD == a.consumer.t % WORD <==> a.consumer.h == a.consumer.t)
  {
    if a.consumer.CBoth? {
      DiffExact(a.consumer.t, a.consumer.h);
    }
  }

  lemma {:induction false} RunsCorrespond<V>(a: State<V>, es: seq<Event<V>>, c: State<V>) returns (b: State<V>)
    requires Inv(a) && Run(Wrap(a), es, c)
    ensures Run(a, es, b) && c == Wrap(b) && Inv(b) && b.cap == a.cap
    decreases |es|
  {
    if es == [] {
      b := a;
    } else {
      StepsCorrespond(a, es[0]);
      StepInv(a, es[0]);
      b := RunsCorrespond(Apply(a, es[0]), es[1..], c);
    }
  }

  // Every run of the code is a run of the machine with unbounded counters.
  lemma Refines<V>(cap: nat, es: seq<Event<V>>, c: State<V>) returns (b: State<V>)
    requires 0 < cap <= WORD / 2 && IsPow2(cap) && Run(Initial<V>(Wrapping, cap), es, c)
    ensures Run(Initial<V>(Unbounded, cap), es, b) && c == Wrap(b) && Inv(b) && b.cap == cap
  {
    InitialInv<V>(cap);
    assert Wrap(Initial<V>(Unbounded, cap)) == Initial<V>(Wrapping, cap);
    b := RunsCorrespond(Initial<V>(Unbounded, cap), es, c);
  }

  // ---- theorems about the code ---------------------------------------------------------------------

  ghost predicate Reachable<V(!new)>(cap: nat, c: State<V>) {
    0 < cap <= WORD / 2 && IsPow2(cap) && exists es :: Run(Initial<V>(Wrapping, cap), es, c)
  }

  // Each pop with a buffer delivers the value pushed in its turn, and one without delivers nothing;
  // at most `cap` values are outstanding, and the difference of the wrapped counters counts them.
  lemma Fifo<V(!new)>(cap: nat, c: State<V>)
    requires Reachable(cap, c)
    ensures |c.popped| <= |c.pushed| <= |c.popped| + cap
    ensures forall i :: 0 <= i < |c.popped| ==> c.popped[i].got == Wanted(c.popped[i].out, c.pushed[i])
    ensures Diff(Wrapping, c.tail, c.head) == |c.pushed| - |c.popped|
  {
    var es :| Run(Initial<V>(Wrapping, cap), es, c);
    var b := Refines(cap, es, c);
    DiffExact(b.tail, b.head);
  }

  // A push is refused only if `cap` elements were outstanding when it loaded head, and a pop only
  // if everything pushed when it loaded tail had been popped.
  lemma RefusalsAreGenuine<V(!new)>(cap: nat, c: State<V>)
    requires Reachable(cap, c)
    ensures WellFormed(c)
    ensures c.producer.PTail? ==>
              (Enabled(Apply(c, PushLoadHead), PushFull) <==> |c.pushed| == |c.popped| + cap)
    ensures c.consumer.CHead? ==>
              (Enabled(Apply(c, PopLoadTail), PopEmpty) <==> |c.pushed| == |c.popped|)
  {
    var es :| Run(Initial<V>(Wrapping, cap), es, c);
    var b := Refines(cap, es, c);
    DiffExact(b.tail, b.head);
  }

  // While the producer copies into a slot and the consumer copies out of one, the slots differ.
  lemma CopiesNeverOverlap<V(!new)>(cap: nat, c: State<V>)
    requires Reachable(cap, c) && c.producer.PCopying? && c.consumer.CCopying?
    ensures c.cap == cap && Index(Wrapping, c.producer.t, cap) != Index(Wrapping, c.consumer.h, cap)
  {
    var es :| Run(Initial<V>(Wrapping, cap), es, c);
    var b := Refines(cap, es, c);
    SlotsDiffer(b.head, b.tail, cap);
    IndexExact(b.head, cap);
    IndexExact(b.tail, cap);
  }

  // Called by the producer or the consumer between its own operations, count is within capacity;
  // for the producer it is at least what the consumer still has to pop, for the consumer at most.
  lemma CountInRange<V(!new)>(cap: nat, c: State<V>, e: Event<V>)
    requires Reachable(cap, c) && Enabled(c, e) && (e.ProducerCountHead? || e.ConsumerCountHead?)
    ensures 0 <= CountResult(c, e) <= cap
    ensures e.ProducerCountHead? ==> CountResult(c, e) == |c.pushed| - |c.popped|
    ensures e.ConsumerCountHead? ==> CountResult(c, e) <= |c.pushed| - |c.popped|
  {
    var es :| Run(Initial<V>(Wrapping, cap), es, c);
    var b := Refines(cap, es, c);
    if e.ProducerCountHead? {
      DiffExact(b.producer.t, b.head);
    } else {
      DiffExact(b.consumer.t, b.head);
    }
  }

  // ---- count from a third thread ---------------------------------------------------------------------

  // A third thread gets the difference between a stale tail and the current head: within capacity
  // if head has not passed the loaded tail, and otherwise (short of a whole lap of the counter)
  // beyond any capacity.
  lemma ObserverCount<V(!new)>(cap: nat, c: State<V>) returns (loaded: nat)
    requires Reachable(cap, c) && c.observer.OCounting?
    ensures c.observer.t == loaded % WORD && loaded <= |c.pushed|
    ensures |c.popped| <= loaded ==> CountResult(c, ObserverCountHead) == loaded - |c.popped| <= cap
    ensures loaded < |c.popped| < loaded + WORD - cap ==> CountResult(c, ObserverCountHead) > cap
  {
    var es :| Run(Initial<V>(Wrapping, cap), es, c);
    var b := Refines(cap, es, c);
    loaded := b.observer.t;
    if b.head <= loaded {
      DiffExact(loaded, b.head);
    } else {
      WrapDiff(loaded, b.head);
    }
  }

  datatype Role = TheProducer | TheConsumer | ThirdThread

  function SecondLoad<V>(r: Role): Event<V> {
    match r
    case TheProducer => ProducerCountHead
    case TheConsumer => ConsumerCountHead
    case ThirdThread => ObserverCountHead
  }

  ghost predicate CountAlwaysInRange<V(!new)>(cap: nat, r: Role) {
    forall c: State<V> ::
      Reachable(cap, c) && Enabled(c, SecondLoad<V>(r)) ==> 0 <= CountResult(c, SecondLoad<V>(r)) <= cap
  }

  // Only the two sides of the queue may rely on count.
  lemma CountReliableIffOwnSide<V(!new)>(cap: nat, r: Role, v: V)
    requires 0 < cap <= WORD / 2 && IsPow2(cap)
    ensures CountAlwaysInRange<V>(cap, r) <==> r != ThirdThread
  {
    if r == ThirdThread {
      var c := HeadPassesObserver(cap, v);
      assert CountResult(c, ObserverCountHead) > cap;
    } else {
      forall c: State<V> | Reachable(cap, c) && Enabled(c, SecondLoad<V>(r))
        ensures 0 <= CountResult(c, SecondLoad<V>(r)) <= cap
      {
        CountInRange(cap, c, SecondLoad<V>(r));
      }
    }
  }

  lemma {:induction false} RunExtend<V>(s: State<V>, es: seq<Event<V>>, t: State<V>, e: Event<V>)
    requires Run(s, es, t) && WellFormed(t) && Enabled(t, e)
    ensures Run(s, es + [e], Apply(t, e))
    decreases |es|
  {
    if es == [] {
      assert Run(Apply(t, e), [], Apply(t, e));
    } else {
      RunExtend(Apply(s, es[0]), es[1..], t, e);
      assert (es + [e])[1..] == es[1..] + [e];
    }
  }

  lemma StepReachable<V(!new)>(cap: nat, c: State<V>, e: Event<V>)
    requires Reachable(cap, c) && WellFormed(c) && Enabled(c, e)
    ensures Reachable(cap, Apply(c, e))
  {
    var es :| Run(Initial<V>(Wrapping, cap), es, c);
    RunExtend(Initial<V>(Wrapping, cap), es, c, e);
  }

  // The observer loads tail, then one element goes through, then it loads head.
  lemma HeadPassesObserver<V(!new)>(cap: nat, v: V) returns (c: State<V>)
    requires 0 < cap <= WORD / 2 && IsPow2(cap)
    ensures Reachable(cap, c) && c.observer.OCounting? && CountResult(c, ObserverCountHead) == WORD_MAX
  {
    var s0 := Initial<V>(Wrapping, cap);
    assert Run(s0, [], s0);
    StepReachable(cap, s0, ObserverCountTail);
    var s1 := Apply(s0, ObserverCountTail);
    StepReachable(cap, s1, PushLoadTail(v));
    var s2 := Apply(s1, PushLoadTail(v));
    StepReachable(cap, s2, PushLoadHead);
    var s3 := Apply(s2, PushLoadHead);
    StepReachable(cap, s3, PushBeginCopy);
    var s4 := Apply(s3, PushBeginCopy);
    StepReachable(cap, s4, PushEndCopy);
    var s5 := Apply(s4, PushEndCopy);
    StepReachable(cap, s5, PushPublish);
    var s6 := Apply(s5, PushPublish);
    assert s6.head == 0 && s6.tail == 1 && s6.observer == OCounting(0) && s6.consumer == CIdle;
    c := DiscardOne(cap, s6);
  }

  lemma DiscardOne<V(!new)>(cap: nat, s: State<V>) returns (c: State<V>)
    requires Reachable(cap, s) && WellFormed(s)
    requires s.ar.Wrapping? && s.head == 0 && s.tail == 1 && s.observer == OCounting(0) && s.consumer == CIdle
    ensures Reachable(cap, c) && c.observer.OCounting? && CountResult(c, ObserverCountHead) == WORD_MAX
  {
    StepReachable(cap, s, PopLoadHead(false));
    var s1 := Apply(s, PopLoadHead(false));
    StepReachable(cap, s1, PopLoadTail);
    var s2 := Apply(s1, PopLoadTail);
    StepReachable(cap, s2, PopDiscard);
    var s3 := Apply(s2, PopDiscard);
    StepReachable(cap, s3, PopPublish);
    c := Apply(s3, PopPublish);
  }

  // ---- init -----------------------------------------------------------------------------------------

  // Init's size computation; `gotMemory` says whether the allocator returned memory.  The caller
  // gets at least the capacity it asked for exactly when it asked for no more than 2^63.
  method Init(elemSize: nat, capacity: nat, gotMemory: bool) returns (status: Status, cap: nat)
    requires elemSize < WORD && capacity < WORD
    ensures status == INVALID_ARGUMENT <==> elemSize == 0 || capacity == 0
    ensures status != INVALID_ARGUMENT ==> IsRoundedCapacity(1, capacity, cap)
    ensures status == OVERFLOW <==> elemSize > 0 && capacity > 0 && cap * elemSize >= WORD
    ensures status == OUT_OF_MEMORY <==> elemSize > 0 && capacity > 0 && cap * elemSize < WORD && !gotMemory
    ensures status == OK ==> (capacity <= cap <==> capacity <= WORD / 2)
  {
    cap := 0;
    if elemSize == 0 || capacity == 0 {
      return INVALID_ARGUMENT, cap;
    }
    cap := NextPow2AtLeast(0, capacity);
    OverflowExact(cap, elemSize);
    if cap > WORD_MAX / elemSize {
      return OVERFLOW, cap;
    }
    status := if gotMemory then OK else OUT_OF_MEMORY;
  }

  // One element more than 2^63 is accepted, and the buffer is smaller than asked for.
  method InitFallsShort() returns (status: Status, cap: nat)
    ensures status == OK && cap == WORD / 2 < WORD / 2 + 1
  {
    status, cap := Init(1, WORD / 2 + 1, true);
  }
}
