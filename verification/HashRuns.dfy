// Whole runs of the hash map: agreement with a finite map after any sequence of operations, and
// the amortized cost of rehashing.
module HashRuns {
  import opened Common
  import opened Sums
  import opened Words
  import opened HashTable

  // ---- resize and put ----------------------------------------------------------------------------

  lemma DoublePow2(n: nat)
    requires IsPow2(n)
    ensures IsPow2(2 * n)
  {
    var k: nat :| Pow2(k) == n;
    assert Pow2(k + 1) == 2 * n;
  }

  // Rehashing preserves the map and drops all tombstones; a failed resize changes nothing.
  lemma ResizeAgrees<K(!new), V(!new)>(c: Config<K>, t: Table<K, V>, m: map<K, V>, cap: nat, gotMemory: bool)
    requires Lawful(c) && Agrees(c, t, m)
    requires cap >= MIN_CAPACITY && IsPow2(cap) && t.len * 4 < cap * 3
    ensures var (u, rc) := Resize(c, t, cap, gotMemory);
            && Agrees(c, u, m)
            && (rc != OK ==> u == t)
            && (rc == OK ==> |u.slots| == cap && u.tombstones == 0)
            && (rc == OVERFLOW <==> TooBig(c, cap))
            && (rc == OUT_OF_MEMORY <==> !TooBig(c, cap) && !gotMemory)
            && (rc == OK || rc == OVERFLOW || rc == OUT_OF_MEMORY)
  {
    var (u, rc) := Resize(c, t, cap, gotMemory);
    OverflowExact(cap, c.keyStride);
    OverflowExact(cap, c.valueStride);
    if rc == OK {
      var n := |t.slots|;
      assert t.slots[..n] == t.slots;
      RehashCorrect(c, t.slots, n, cap);
    }
  }

  // The keys or the values of `cap` slots take more bytes than 64 bits can count.
  predicate TooBig<K>(c: Config<K>, cap: nat) {
    cap * c.keyStride >= WORD || cap * c.valueStride >= WORD
  }

  lemma GrownRoomy<K, V>(c: Config<K>, t: Table<K, V>)
    requires Loaded(c, t)
    ensures Grown(t) >= MIN_CAPACITY && IsPow2(Grown(t))
    ensures (t.len + 1) * 4 < Grown(t) * 3
  {
    if |t.slots| == 0 {
      assert Pow2(3) == 8;
    } else {
      DoublePow2(|t.slots|);
    }
  }

  // What put answers at a capacity with so many slots in use, entries and tombstones together.
  function PutStatus<K>(c: Config<K>, capacity: nat, used: nat, gotMemory: bool): Status {
    var next := if capacity == 0 then 8 else 2 * capacity;
    if 4 * (used + 1) < 3 * capacity then OK
    else if next * c.keyStride >= WORD || next * c.valueStride >= WORD then OVERFLOW
    else if !gotMemory then OUT_OF_MEMORY
    else OK
  }

  lemma PutAnswers<K(!new), V(!new)>(c: Config<K>, t: Table<K, V>, m: map<K, V>, k: K, v: V, gotMemory: bool)
    requires Lawful(c) && Agrees(c, t, m)
    ensures Put(c, t, k, v, gotMemory).1 == PutStatus(c, |t.slots|, t.len + t.tombstones, gotMemory)
  {
    if MustGrow(t) {
      GrownRoomy(c, t);
      ResizeAgrees(c, t, m, Grown(t), gotMemory);
    }
  }

  // A successful put updates the map; a failed one leaves the whole table, hence every lookup, as
  // it was.  It fails only if the load factor asks for growth and the next capacity is too big or
  // there is no memory for it.
  lemma PutAgrees<K(!new), V(!new)>(c: Config<K>, t: Table<K, V>, m: map<K, V>, k: K, v: V, gotMemory: bool)
    requires Lawful(c) && Agrees(c, t, m)
    ensures var (u, rc) := Put(c, t, k, v, gotMemory);
            && (rc == OK ==> Agrees(c, u, MapPut(c, m, k, v)))
            && (rc != OK ==> u == t)
            && rc == PutStatus(c, |t.slots|, t.len + t.tombstones, gotMemory)
            && u.len + u.tombstones <= t.len + t.tombstones + 1
            && (|u.slots| == |t.slots| || |u.slots| <= 8 || 3 * |u.slots| <= 8 * (t.len + t.tombstones + 1))
  {
    PutAnswers(c, t, m, k, v, gotMemory);
    if MustGrow(t) {
      GrownRoomy(c, t);
      ResizeAgrees(c, t, m, Grown(t), gotMemory);
      var (u, rc) := Resize(c, t, Grown(t), gotMemory);
      if rc == OK {
        InsertAgrees(c, u, m, k, v);
      }
    } else {
      InsertAgrees(c, t, m, k, v);
    }
  }

  // The load-factor and doubling arithmetic of put stays below 2^64.
  lemma ArithmeticNeverWraps<K(!new), V>(c: Config<K>, t: Table<K, V>)
    requires Lawful(c) && Inv(c, t)
    ensures (t.len + t.tombstones + 1) * 4 < WORD && |t.slots| * 3 < WORD && |t.slots| * 2 < WORD
  {
    if |t.slots| > 0 {
      MulMonotone(8, c.keyStride, |t.slots|);
    }
  }

  // ---- runs ---------------------------------------------------------------------------------------

  datatype Op<K, V> = OpPut(k: K, v: V, gotMemory: bool) | OpGet(k: K) | OpRemove(k: K) | OpClear

  datatype Reply<V> = PutReply(status: Status) | GetReply(value: Option<V>) | RemoveReply(removed: bool) | ClearReply

  function Step<K, V>(c: Config<K>, t: Table<K, V>, op: Op<K, V>): (Table<K, V>, Reply<V>)
    requires c.keyStride > 0 && c.valueStride > 0
  {
    match op
    case OpPut(k, v, g) => var (u, rc) := Put(c, t, k, v, g); (u, PutReply(rc))
    case OpGet(k) => (t, GetReply(Get(c, t, k)))
    case OpRemove(k) => var (u, b) := Remove(c, t, k); (u, RemoveReply(b))
    case OpClear => (Clear(t), ClearReply)
  }

  // So many puts, with slots of such a size, that the capacity they may ask for is too big.
  predicate TooMany<K>(c: Config<K>, puts: nat) {
    TooBig(c, 8) || 8 * puts * c.keyStride >= 3 * WORD || 8 * puts * c.valueStride >= 3 * WORD
  }

  // When put `number` may answer so: without memory, or with too many puts.
  predicate MayAnswer<K>(c: Config<K>, number: nat, gotMemory: bool, rc: Status) {
    rc == OK || (rc == OUT_OF_MEMORY && !gotMemory) || (rc == OVERFLOW && TooMany(c, number))
  }

  // What a finite map does on the same operation, given the reply and the number of puts before.
  ghost predicate MapStep<K, V>(c: Config<K>, m: map<K, V>, puts: nat, op: Op<K, V>, r: Reply<V>, m': map<K, V>) {
    match op
    case OpPut(k, v, g) =>
      r.PutReply? && MayAnswer(c, puts + 1, g, r.status) && m' == (if r.status == OK then MapPut(c, m, k, v) else m)
    case OpGet(k) => r == GetReply(MapGet(c, m, k)) && m' == m
    case OpRemove(k) => r == RemoveReply(Holds(c, m, k)) && m' == MapRemove(c, m, k)
    case OpClear => r == ClearReply && m' == map[]
  }

  function RunTable<K, V>(c: Config<K>, t: Table<K, V>, ops: seq<Op<K, V>>): Table<K, V>
    requires c.keyStride > 0 && c.valueStride > 0
    decreases |ops|
  {
    if ops == [] then t else RunTable(c, Step(c, t, ops[0]).0, ops[1..])
  }

  function Replies<K, V>(c: Config<K>, t: Table<K, V>, ops: seq<Op<K, V>>): (rs: seq<Reply<V>>)
    requires c.keyStride > 0 && c.valueStride > 0
    ensures |rs| == |ops|
    decreases |ops|
  {
    if ops == [] then [] else [Step(c, t, ops[0]).1] + Replies(c, Step(c, t, ops[0]).0, ops[1..])
  }

  function PutsUpTo<K, V>(puts: nat, op: Op<K, V>): nat {
    if op.OpPut? then puts + 1 else puts
  }

  // A finite map could have given exactly these replies, going from `m` to `m'`, after `puts` puts.
  ghost predicate MapRun<K(!new), V(!new)>(
      c: Config<K>, m: map<K, V>, puts: nat, ops: seq<Op<K, V>>, rs: seq<Reply<V>>, m': map<K, V>)
    requires |rs| == |ops|
    decreases |ops|
  {
    if ops == [] then m' == m
    else exists mid ::
      MapStep(c, m, puts, ops[0], rs[0], mid) && MapRun(c, mid, PutsUpTo(puts, ops[0]), ops[1..], rs[1..], m')
  }

  // Growth asked for by so few used slots fits unless there were too many puts.
  lemma PutMayAnswer<K>(c: Config<K>, capacity: nat, used: nat, puts: nat, gotMemory: bool)
    requires used <= puts
    ensures MayAnswer(c, puts + 1, gotMemory, PutStatus(c, capacity, used, gotMemory))
  {
    if capacity > 0 && 4 * (used + 1) >= 3 * capacity {
      MulMonotone(3 * (2 * capacity), 8 * (puts + 1), c.keyStride);
      MulMonotone(3 * (2 * capacity), 8 * (puts + 1), c.valueStride);
      TripleProduct(2 * capacity, c.keyStride);
      TripleProduct(2 * capacity, c.valueStride);
    }
  }

  lemma TripleProduct(a: nat, b: nat)
    ensures (3 * a) * b == 3 * (a * b)
  {
  }

  lemma StepAgrees<K(!new), V(!new)>(c: Config<K>, t: Table<K, V>, m: map<K, V>, puts: nat, op: Op<K, V>)
    returns (m': map<K, V>)
    requires Lawful(c) && Agrees(c, t, m) && t.len + t.tombstones <= puts
    ensures Agrees(c, Step(c, t, op).0, m') && MapStep(c, m, puts, op, Step(c, t, op).1, m')
    ensures Step(c, t, op).0.len + Step(c, t, op).0.tombstones <= PutsUpTo(puts, op)
  {
    match op
    case OpPut(k, v, g) =>
      PutAgrees(c, t, m, k, v, g);
      PutMayAnswer(c, |t.slots|, t.len + t.tombstones, puts, g);
      m' := if Put(c, t, k, v, g).1 == OK then MapPut(c, m, k, v) else m;
    case OpGet(k) =>
      GetAgrees(c, t, m, k);
      m' := m;
    case OpRemove(k) =>
      RemoveAgrees(c, t, m, k);
      m' := MapRemove(c, m, k);
    case OpClear =>
      ClearAgrees(c, t, m);
      m' := map[];
  }

  lemma {:induction false} RunAgrees<K(!new), V(!new)>(
      c: Config<K>, t: Table<K, V>, m: map<K, V>, puts: nat, ops: seq<Op<K, V>>)
    returns (m': map<K, V>)
    requires Lawful(c) && Agrees(c, t, m) && t.len + t.tombstones <= puts
    ensures Agrees(c, RunTable(c, t, ops), m') && MapRun(c, m, puts, ops, Replies(c, t, ops), m')
    decreases |ops|
  {
    if ops == [] {
      m' := m;
    } else {
      var mid := StepAgrees(c, t, m, puts, ops[0]);
      m' := RunAgrees(c, Step(c, t, ops[0]).0, mid, PutsUpTo(puts, ops[0]), ops[1..]);
      assert Replies(c, t, ops)[1..] == Replies(c, Step(c, t, ops[0]).0, ops[1..]);
    }
  }

  function Fresh<K, V>(): Table<K, V> {
    Table([], 0, 0)
  }

  // The table after init with a capacity hint rounded to `cap`, or with none (`cap == 0`).
  function InitTable<K, V>(c: Config<K>, cap: nat, gotMemory: bool): Table<K, V>
    requires c.keyStride > 0 && c.valueStride > 0
  {
    if cap == 0 then Fresh() else Resize(c, Fresh(), cap, gotMemory).0
  }

  lemma InitAgrees<K(!new), V(!new)>(c: Config<K>, cap: nat, gotMemory: bool)
    requires Lawful(c) && (cap == 0 || (cap >= MIN_CAPACITY && IsPow2(cap)))
    ensures Agrees<K, V>(c, InitTable(c, cap, gotMemory), map[])
    ensures InitTable<K, V>(c, cap, gotMemory).tombstones == 0
  {
    var t: Table<K, V> := Fresh();
    assert forall k, v :: !HasEntry(t.slots, k, v);
    if cap > 0 {
      ResizeAgrees(c, t, map[], cap, gotMemory);
    }
  }

  // From init on, whatever the operations and allocation failures, the replies are those of a
  // finite map and the table still represents that map, with `len` its size.
  lemma TableIsAFiniteMap<K(!new), V(!new)>(c: Config<K>, cap: nat, gotMemory: bool, ops: seq<Op<K, V>>)
    returns (m: map<K, V>)
    requires Lawful(c) && (cap == 0 || (cap >= MIN_CAPACITY && IsPow2(cap)))
    ensures var t0 := InitTable<K, V>(c, cap, gotMemory);
            && MapRun(c, map[], 0, ops, Replies(c, t0, ops), m)
            && Represents(RunTable(c, t0, ops).slots, m)
            && RunTable(c, t0, ops).len == |m|
  {
    InitAgrees<K, V>(c, cap, gotMemory);
    m := RunAgrees(c, InitTable<K, V>(c, cap, gotMemory), map[], 0, ops);
  }

  // In every reachable table the capacity is zero or a power of two with an EMPTY slot left, every
  // entry is probeable from its home slot, and the arithmetic of the next put cannot wrap.
  lemma ReachableTables<K(!new), V(!new)>(c: Config<K>, cap: nat, gotMemory: bool, ops: seq<Op<K, V>>)
    requires Lawful(c) && (cap == 0 || (cap >= MIN_CAPACITY && IsPow2(cap)))
    ensures var t := RunTable(c, InitTable<K, V>(c, cap, gotMemory), ops);
            && (|t.slots| > 0 ==> IsPow2(|t.slots|) && HasEmpty(t.slots))
            && Probeable(c, t.slots) && Distinct(c, t.slots)
            && (t.len + t.tombstones + 1) * 4 < WORD && |t.slots| * 3 < WORD
  {
    InitAgrees<K, V>(c, cap, gotMemory);
    var t := RunTable(c, InitTable<K, V>(c, cap, gotMemory), ops);
    var m := RunAgrees(c, InitTable<K, V>(c, cap, gotMemory), map[], 0, ops);
    ArithmeticNeverWraps(c, t);
    if |t.slots| > 0 {
      InvHasEmpty(c, t);
    }
  }

  // ---- amortized cost ------------------------------------------------------------------------------

  // Entries re-inserted by the resize of one operation.
  function Moves<K, V>(c: Config<K>, t: Table<K, V>, op: Op<K, V>): nat
    requires c.keyStride > 0 && c.valueStride > 0
  {
    if op.OpPut? && MustGrow(t) && Resize(c, t, Grown(t), op.gotMemory).1 == OK
    then Sum(t.slots, OccupiedWeight) else 0
  }

  function TotalMoves<K, V>(c: Config<K>, t: Table<K, V>, ops: seq<Op<K, V>>): nat
    requires c.keyStride > 0 && c.valueStride > 0
    decreases |ops|
  {
    if ops == [] then 0 else Moves(c, t, ops[0]) + TotalMoves(c, Step(c, t, ops[0]).0, ops[1..])
  }

  function Puts<K, V>(ops: seq<Op<K, V>>): nat {
    if ops == [] then 0 else (if ops[0].OpPut? then 1 else 0) + Puts(ops[1..])
  }

  // Four times the potential: how far the used slots exceed three eighths of the capacity, doubled.
  function Potential<K, V>(t: Table<K, V>): nat {
    var used := t.len + t.tombstones;
    if 8 * used > 3 * |t.slots| then 8 * used - 3 * |t.slots| else 0
  }

  lemma CapacityDivisible(n: nat)
    requires n >= MIN_CAPACITY && IsPow2(n)
    ensures n % 4 == 0
  {
    var k: nat :| Pow2(k) == n;
    if k < 2 {
      Pow2Monotone(k, 2);
    } else {
      assert Pow2(k) == 4 * Pow2(k - 2);
    }
  }

  lemma PutCost<K(!new), V(!new)>(c: Config<K>, t: Table<K, V>, m: map<K, V>, op: Op<K, V>)
    requires Lawful(c) && Agrees(c, t, m) && op.OpPut?
    ensures 4 * Moves(c, t, op) + Potential(Step(c, t, op).0) <= Potential(t) + 8
  {
    if MustGrow(t) {
      GrownRoomy(c, t);
      ResizeAgrees(c, t, m, Grown(t), op.gotMemory);
      var (u, rc) := Resize(c, t, Grown(t), op.gotMemory);
      if rc == OK {
        InsertAgrees(c, u, m, op.k, op.v);
        if |t.slots| > 0 {
          CapacityDivisible(|t.slots|);
        }
      }
    } else {
      InsertAgrees(c, t, m, op.k, op.v);
    }
  }

  lemma StepCost<K(!new), V(!new)>(c: Config<K>, t: Table<K, V>, m: map<K, V>, op: Op<K, V>)
    requires Lawful(c) && Agrees(c, t, m)
    ensures 4 * Moves(c, t, op) + Potential(Step(c, t, op).0) <= Potential(t) + (if op.OpPut? then 8 else 0)
  {
    match op
    case OpPut(_, _, _) => PutCost(c, t, m, op);
    case OpRemove(k) => RemoveAgrees(c, t, m, k);
    case _ =>
  }

  lemma {:induction false} RunCost<K(!new), V(!new)>(c: Config<K>, t: Table<K, V>, m: map<K, V>, ops: seq<Op<K, V>>)
    requires Lawful(c) && Agrees(c, t, m)
    ensures 4 * TotalMoves(c, t, ops) <= Potential(t) + 8 * Puts(ops)
    decreases |ops|
  {
    if ops == [] {
    } else {
      StepCost(c, t, m, ops[0]);
      var mid := StepAgrees(c, t, m, t.len + t.tombstones, ops[0]);
      RunCost(c, Step(c, t, ops[0]).0, mid, ops[1..]);
    }
  }

  // Old slots the loop of a resize visits, whatever they hold.
  function Scans<K, V>(c: Config<K>, t: Table<K, V>, op: Op<K, V>): nat
    requires c.keyStride > 0 && c.valueStride > 0
  {
    if op.OpPut? && MustGrow(t) && Resize(c, t, Grown(t), op.gotMemory).1 == OK then |t.slots| else 0
  }

  function TotalScans<K, V>(c: Config<K>, t: Table<K, V>, ops: seq<Op<K, V>>): nat
    requires c.keyStride > 0 && c.valueStride > 0
    decreases |ops|
  {
    if ops == [] then 0 else Scans(c, t, ops[0]) + TotalScans(c, Step(c, t, ops[0]).0, ops[1..])
  }

  lemma PutScanCost<K(!new), V(!new)>(c: Config<K>, t: Table<K, V>, m: map<K, V>, op: Op<K, V>)
    requires Lawful(c) && Agrees(c, t, m) && op.OpPut?
    ensures 3 * Scans(c, t, op) + Potential(Step(c, t, op).0) <= Potential(t) + 8
  {
    if MustGrow(t) {
      GrownRoomy(c, t);
      ResizeAgrees(c, t, m, Grown(t), op.gotMemory);
      var (u, rc) := Resize(c, t, Grown(t), op.gotMemory);
      if rc == OK {
        InsertAgrees(c, u, m, op.k, op.v);
        if |t.slots| > 0 {
          CapacityDivisible(|t.slots|);
        }
      }
    } else {
      InsertAgrees(c, t, m, op.k, op.v);
    }
  }

  // The potential that pays for the re-insertions pays for visiting the old slots as well.
  lemma ScanCost<K(!new), V(!new)>(c: Config<K>, t: Table<K, V>, m: map<K, V>, op: Op<K, V>)
    requires Lawful(c) && Agrees(c, t, m)
    ensures 3 * Scans(c, t, op) + Potential(Step(c, t, op).0) <= Potential(t) + (if op.OpPut? then 8 else 0)
  {
    match op
    case OpPut(_, _, _) => PutScanCost(c, t, m, op);
    case OpRemove(k) => RemoveAgrees(c, t, m, k);
    case _ =>
  }

  lemma {:induction false} RunScanCost<K(!new), V(!new)>(c: Config<K>, t: Table<K, V>, m: map<K, V>, ops: seq<Op<K, V>>)
    requires Lawful(c) && Agrees(c, t, m)
    ensures 3 * TotalScans(c, t, ops) <= Potential(t) + 8 * Puts(ops)
    decreases |ops|
  {
    if ops == [] {
    } else {
      ScanCost(c, t, m, ops[0]);
      var mid := StepAgrees(c, t, m, t.len + t.tombstones, ops[0]);
      RunScanCost(c, Step(c, t, ops[0]).0, mid, ops[1..]);
    }
  }

  // Over any run the resizes visit at most eight thirds of a slot per put.
  lemma ScanningIsAmortized<K(!new), V(!new)>(c: Config<K>, cap: nat, gotMemory: bool, ops: seq<Op<K, V>>)
    requires Lawful(c) && (cap == 0 || (cap >= MIN_CAPACITY && IsPow2(cap)))
    ensures 3 * TotalScans(c, InitTable<K, V>(c, cap, gotMemory), ops) <= 8 * Puts(ops)
  {
    InitAgrees<K, V>(c, cap, gotMemory);
    RunScanCost(c, InitTable<K, V>(c, cap, gotMemory), map[], ops);
  }

  // Amortized O(1): over any run the resizes re-insert at most two entries per put.
  lemma RehashingIsAmortized<K(!new), V(!new)>(c: Config<K>, cap: nat, gotMemory: bool, ops: seq<Op<K, V>>)
    requires Lawful(c) && (cap == 0 || (cap >= MIN_CAPACITY && IsPow2(cap)))
    ensures TotalMoves(c, InitTable<K, V>(c, cap, gotMemory), ops) <= 2 * Puts(ops)
  {
    InitAgrees<K, V>(c, cap, gotMemory);
    RunCost(c, InitTable<K, V>(c, cap, gotMemory), map[], ops);
  }
}
