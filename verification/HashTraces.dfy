// The hash map of d4np/ds/hashmap.c seen by its callers: in a run every class of equal keys behaves
// like one variable, puts succeed when there is memory, and the table stays linear in the puts.
module HashTraces {
  import opened Common
  import opened Words
  import opened HashTable
  import opened HashRuns

  // ---- laws of the finite map over key classes -------------------------------------------------------------

  // No two keys of the map are equal.
  ghost predicate OneKeyPerClass<K, V>(c: Config<K>, m: map<K, V>) {
    forall a, b :: a in m && b in m && c.eq(a, b) ==> a == b
  }

  lemma AgreesOneKey<K(!new), V(!new)>(c: Config<K>, t: Table<K, V>, m: map<K, V>)
    requires Lawful(c) && Agrees(c, t, m)
    ensures OneKeyPerClass(c, m)
  {
    forall a, b | a in m && b in m && c.eq(a, b)
      ensures a == b
    {
      assert HasEntry(t.slots, a, m[a]) && HasEntry(t.slots, b, m[b]);
      var i :| 0 <= i < |t.slots| && t.slots[i] == Occupied(a, m[a]);
      var j :| 0 <= j < |t.slots| && t.slots[j] == Occupied(b, m[b]);
      assert Matches(c, t.slots[i], t.slots[j].key);
    }
  }

  // Any key of the map that equals `k` gives the answer for `k`.
  lemma GetIs<K(!new), V>(c: Config<K>, m: map<K, V>, k: K, r: K)
    requires Lawful(c) && OneKeyPerClass(c, m) && r in m && c.eq(r, k)
    ensures MapGet(c, m, k) == Some(m[r])
  {
    var s := Rep(c, m, k);
    assert c.eq(k, r) && c.eq(s, r);
  }

  lemma GetNone<K, V>(c: Config<K>, m: map<K, V>, k: K)
    requires forall r :: r in m ==> !c.eq(r, k)
    ensures MapGet(c, m, k) == None
  {
  }

  // Replacing the value of a present key `r`, or adding `r` to a map without its class.
  lemma GetUpdate<K(!new), V>(c: Config<K>, m: map<K, V>, r: K, v: V, k: K)
    requires Lawful(c) && OneKeyPerClass(c, m) && (r in m || forall s :: s in m ==> !c.eq(s, r))
    ensures OneKeyPerClass(c, m[r := v])
    ensures MapGet(c, m[r := v], k) == if c.eq(r, k) then Some(v) else MapGet(c, m, k)
  {
    var n := m[r := v];
    forall a, b | a in n && b in n && c.eq(a, b)
      ensures a == b
    {
      assert c.eq(b, a);
    }
    if c.eq(r, k) {
      GetIs(c, n, k, r);
    } else if Holds(c, m, k) {
      GetIs(c, n, k, Rep(c, m, k));
    } else {
      GetNone(c, n, k);
    }
  }

  lemma GetRemoved<K(!new), V>(c: Config<K>, m: map<K, V>, r: K, k: K)
    requires Lawful(c) && OneKeyPerClass(c, m) && r in m
    ensures OneKeyPerClass(c, m - {r})
    ensures MapGet(c, m - {r}, k) == if c.eq(r, k) then None else MapGet(c, m, k)
  {
    var n := m - {r};
    if c.eq(r, k) {
      forall s | s in n
        ensures !c.eq(s, k)
      {
        assert c.eq(k, r);
      }
      GetNone(c, n, k);
    } else if Holds(c, m, k) {
      GetIs(c, n, k, Rep(c, m, k));
    } else {
      GetNone(c, n, k);
    }
  }

  // Lookup after put and remove, for every pair of keys.
  lemma MapLaws<K(!new), V>(c: Config<K>, m: map<K, V>, k: K, v: V, k': K)
    requires Lawful(c) && OneKeyPerClass(c, m)
    ensures MapGet(c, MapPut(c, m, k, v), k') == if c.eq(k, k') then Some(v) else MapGet(c, m, k')
    ensures MapGet(c, MapRemove(c, m, k), k') == if c.eq(k, k') then None else MapGet(c, m, k')
    ensures Holds(c, m, k) <==> MapGet(c, m, k).Some?
  {
    if Holds(c, m, k) {
      var r := Rep(c, m, k);
      assert c.eq(k, r) && (c.eq(r, k') <==> c.eq(k, k'));
      GetUpdate(c, m, r, v, k');
      GetRemoved(c, m, r, k');
    } else {
      GetUpdate(c, m, k, v, k');
      if c.eq(k, k') {
        forall s | s in m
          ensures !c.eq(s, k')
        {
          assert c.eq(s, k') ==> c.eq(k', k) && c.eq(s, k);
        }
        GetNone(c, m, k');
      }
    }
  }

  // ---- every class of keys is one variable -------------------------------------------------------------------

  // What an operation with its reply makes of the value stored for `k`.
  function After<K, V>(c: Config<K>, value: Option<V>, op: Op<K, V>, r: Reply<V>, k: K): Option<V> {
    match op
    case OpPut(k', v, _) => if c.eq(k', k) && r == PutReply(OK) then Some(v) else value
    case OpRemove(k') => if c.eq(k', k) then None else value
    case OpClear => None
    case OpGet(_) => value
  }

  function Stored<K, V>(c: Config<K>, value: Option<V>, ops: seq<Op<K, V>>, rs: seq<Reply<V>>, k: K): Option<V>
    requires |rs| == |ops|
    decreases |ops|
  {
    if ops == [] then value else Stored(c, After(c, value, ops[0], rs[0], k), ops[1..], rs[1..], k)
  }

  lemma StepStored<K(!new), V(!new)>(c: Config<K>, t: Table<K, V>, m: map<K, V>, op: Op<K, V>, k: K)
    returns (m': map<K, V>)
    requires Lawful(c) && Agrees(c, t, m)
    ensures Agrees(c, Step(c, t, op).0, m')
    ensures MapGet(c, m', k) == After(c, MapGet(c, m, k), op, Step(c, t, op).1, k)
    ensures op.OpGet? && op.k == k ==> Step(c, t, op).1 == GetReply(MapGet(c, m, k))
    ensures op.OpRemove? && op.k == k ==> Step(c, t, op).1 == RemoveReply(MapGet(c, m, k).Some?)
  {
    m' := StepAgrees(c, t, m, t.len + t.tombstones, op);
    AgreesOneKey(c, t, m);
    match op
    case OpPut(k', v, _) => MapLaws(c, m, k', v, k);
    case OpRemove(k') => RemoveLaws(c, m, k', k);
    case _ =>
  }

  lemma RemoveLaws<K(!new), V(!new)>(c: Config<K>, m: map<K, V>, k: K, k': K)
    requires Lawful(c) && OneKeyPerClass(c, m)
    ensures MapGet(c, MapRemove(c, m, k), k') == if c.eq(k, k') then None else MapGet(c, m, k')
  {
    if Holds(c, m, k) {
      MapLaws(c, m, k, m[Rep(c, m, k)], k');
    } else if c.eq(k, k') {
      assert forall s :: s in m && c.eq(s, k') ==> c.eq(k', k) && c.eq(s, k);
    }
  }

  lemma {:induction false} RunStored<K(!new), V(!new)>(
      c: Config<K>, t: Table<K, V>, m: map<K, V>, ops: seq<Op<K, V>>, i: nat, k: K)
    requires Lawful(c) && Agrees(c, t, m) && i < |ops|
    ensures var rs := Replies(c, t, ops); var value := Stored(c, MapGet(c, m, k), ops[..i], rs[..i], k);
            && (ops[i] == OpGet(k) ==> rs[i] == GetReply(value))
            && (ops[i] == OpRemove(k) ==> rs[i] == RemoveReply(value.Some?))
    decreases |ops|
  {
    var rs := Replies(c, t, ops);
    var mid := StepStored(c, t, m, ops[0], k);
    if i > 0 {
      RunStored(c, Step(c, t, ops[0]).0, mid, ops[1..], i - 1, k);
      assert rs[1..] == Replies(c, Step(c, t, ops[0]).0, ops[1..]);
      assert ops[..i][1..] == ops[1..][..i - 1] && rs[..i][1..] == rs[1..][..i - 1];
    }
  }

  // In every run from init, a get answers with the value of the latest successful put of an equal key
  // that no remove of an equal key and no clear has followed, and a remove tells whether there is one.
  lemma AnswersAreLatestWrites<K(!new), V(!new)>(
      c: Config<K>, cap: nat, gotMemory: bool, ops: seq<Op<K, V>>, i: nat, k: K)
    requires Lawful(c) && (cap == 0 || (cap >= MIN_CAPACITY && IsPow2(cap))) && i < |ops|
    ensures var rs := Replies(c, InitTable<K, V>(c, cap, gotMemory), ops);
            var value := Stored(c, None, ops[..i], rs[..i], k);
            && (ops[i] == OpGet(k) ==> rs[i] == GetReply(value))
            && (ops[i] == OpRemove(k) ==> rs[i] == RemoveReply(value.Some?))
  {
    InitAgrees<K, V>(c, cap, gotMemory);
    var m: map<K, V> := map[];
    GetNone(c, m, k);
    RunStored(c, InitTable<K, V>(c, cap, gotMemory), m, ops, i, k);
  }

  // ---- puts succeed --------------------------------------------------------------------------------------------

  lemma TooManyMonotone<K>(c: Config<K>, a: nat, b: nat)
    requires a <= b && TooMany(c, a)
    ensures TooMany(c, b)
  {
    MulMonotone(8 * a, 8 * b, c.keyStride);
    MulMonotone(8 * a, 8 * b, c.valueStride);
  }

  lemma {:induction false} RunPutsSucceed<K(!new), V(!new)>(
      c: Config<K>, t: Table<K, V>, m: map<K, V>, puts: nat, ops: seq<Op<K, V>>, i: nat)
    requires Lawful(c) && Agrees(c, t, m) && t.len + t.tombstones <= puts && i < |ops| && ops[i].OpPut?
    requires ops[i].gotMemory && !TooMany(c, puts + Puts(ops))
    ensures Replies(c, t, ops)[i] == PutReply(OK)
    decreases |ops|
  {
    var mid := StepAgrees(c, t, m, puts, ops[0]);
    if i == 0 {
      if TooMany(c, puts + 1) {
        TooManyMonotone(c, puts + 1, puts + Puts(ops));
      }
    } else {
      RunPutsSucceed(c, Step(c, t, ops[0]).0, mid, PutsUpTo(puts, ops[0]), ops[1..], i - 1);
    }
  }

  // A put with memory succeeds, in every run of fewer puts than could ask for 2^64 bytes.
  lemma PutsSucceed<K(!new), V(!new)>(c: Config<K>, cap: nat, gotMemory: bool, ops: seq<Op<K, V>>, i: nat)
    requires Lawful(c) && (cap == 0 || (cap >= MIN_CAPACITY && IsPow2(cap)))
    requires i < |ops| && ops[i].OpPut? && ops[i].gotMemory && !TooMany(c, Puts(ops))
    ensures Replies(c, InitTable<K, V>(c, cap, gotMemory), ops)[i] == PutReply(OK)
  {
    InitAgrees<K, V>(c, cap, gotMemory);
    RunPutsSucceed(c, InitTable<K, V>(c, cap, gotMemory), map[], 0, ops, i);
  }

  // ---- space -----------------------------------------------------------------------------------------------------

  // The capacity is what init asked for, the minimum, or at most eight thirds of the puts.
  predicate Compact(capacity: nat, cap: nat, puts: nat) {
    capacity <= cap || capacity <= 8 || 3 * capacity <= 8 * puts
  }

  lemma StepCompact<K(!new), V(!new)>(c: Config<K>, t: Table<K, V>, m: map<K, V>, cap: nat, puts: nat, op: Op<K, V>)
    requires Lawful(c) && Agrees(c, t, m) && t.len + t.tombstones <= puts && Compact(|t.slots|, cap, puts)
    ensures Compact(|Step(c, t, op).0.slots|, cap, PutsUpTo(puts, op))
  {
    match op
    case OpPut(k, v, g) => PutAgrees(c, t, m, k, v, g);
    case OpRemove(k) => RemoveAgrees(c, t, m, k);
    case _ =>
  }

  lemma {:induction false} RunCompact<K(!new), V(!new)>(
      c: Config<K>, t: Table<K, V>, m: map<K, V>, cap: nat, puts: nat, ops: seq<Op<K, V>>)
    requires Lawful(c) && Agrees(c, t, m) && t.len + t.tombstones <= puts && Compact(|t.slots|, cap, puts)
    ensures Compact(|RunTable(c, t, ops).slots|, cap, puts + Puts(ops))
    decreases |ops|
  {
    if ops == [] {
    } else {
      StepCompact(c, t, m, cap, puts, ops[0]);
      var mid := StepAgrees(c, t, m, puts, ops[0]);
      RunCompact(c, Step(c, t, ops[0]).0, mid, cap, PutsUpTo(puts, ops[0]), ops[1..]);
    }
  }

  // Over any run the table never outgrows the capacity init was asked for, the minimum of eight
  // slots, or eight slots per three puts.
  lemma SpaceIsLinear<K(!new), V(!new)>(c: Config<K>, cap: nat, gotMemory: bool, ops: seq<Op<K, V>>)
    requires Lawful(c) && (cap == 0 || (cap >= MIN_CAPACITY && IsPow2(cap)))
    ensures Compact(|RunTable(c, InitTable<K, V>(c, cap, gotMemory), ops).slots|, cap, Puts(ops))
  {
    InitAgrees<K, V>(c, cap, gotMemory);
    assert |InitTable<K, V>(c, cap, gotMemory).slots| <= cap;
    RunCompact(c, InitTable<K, V>(c, cap, gotMemory), map[], cap, 0, ops);
  }
}
