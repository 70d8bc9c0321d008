// The open-addressed table of d4np/ds/hashmap.c as a value: linear probing, tombstones with reuse,
// growth at a 0.75 load factor and rehashing, for any hash and key-equality functions.
module HashTable {
  import opened Common
  import opened Sums
  import opened Words

  const MIN_CAPACITY := 8

  datatype Slot<K, V> = Empty | Deleted | Occupied(key: K, val: V)

  // What the user of the map supplies: hash and equality, and the slot strides of init.
  datatype Config<!K> = Config(hash: K -> nat, eq: (K, K) -> bool, keyStride: nat, valueStride: nat)

  // Key equality is an equivalence and equal keys hash equally.
  ghost predicate LawfulKeys<K(!new)>(hash: K -> nat, eq: (K, K) -> bool) {
    && (forall a :: eq(a, a))
    && (forall a, b :: eq(a, b) ==> eq(b, a))
    && (forall a, b, d :: eq(a, b) && eq(b, d) ==> eq(a, d))
    && (forall a, b :: eq(a, b) ==> hash(a) == hash(b))
  }

  // ... and strides are rounded-up sizes.
  ghost predicate Lawful<K(!new)>(c: Config<K>) {
    LawfulKeys(c.hash, c.eq) && c.keyStride >= 8 && c.valueStride >= 8
  }

  // ---- probing ---------------------------------------------------------------------------------

  // The slot of probe `p` from home slot `h`: `(h + p) & mask`.
  function At(cap: nat, h: nat, p: nat): (i: nat)
    requires h < cap && p < cap
    ensures i < cap
  {
    if h + p < cap then h + p else h + p - cap
  }

  // The probe that visits slot `i`.
  function Dist(cap: nat, h: nat, i: nat): (p: nat)
    requires h < cap && i < cap
    ensures p < cap && At(cap, h, p) == i
  {
    if i >= h then i - h else i + cap - h
  }

  // The masked probe sequence visits each slot exactly once.
  lemma ProbeVisitsOnce(cap: nat, h: nat, p: nat, i: nat)
    requires h < cap && p < cap && i < cap
    ensures At(cap, h, p) == i <==> p == Dist(cap, h, i)
  {
  }

  // ... and is the one the code computes with a power-of-two mask.
  lemma ProbeIsMasked(cap: nat, hash: nat, p: nat)
    requires cap > 0 && IsPow2(cap) && p < cap
    ensures BitAnd(hash, cap - 1) == hash % cap
    ensures BitAnd(hash % cap + p, cap - 1) == At(cap, hash % cap, p)
  {
    AndMask(hash, cap);
    var h := hash % cap;
    AndMask(h + p, cap);
    if h + p < cap {
      DivModUnique(h + p, cap, 0, h + p);
    } else {
      DivModUnique(h + p, cap, 1, h + p - cap);
    }
  }

  function Home<K>(c: Config<K>, k: K, cap: nat): (h: nat)
    requires cap > 0
    ensures h < cap
  {
    c.hash(k) % cap
  }

  // ---- the operations ----------------------------------------------------------------------------

  datatype Table<K, V> = Table(slots: seq<Slot<K, V>>, len: nat, tombstones: nat)

  predicate Matches<K, V>(c: Config<K>, s: Slot<K, V>, k: K) {
    s.Occupied? && c.eq(s.key, k)
  }

  // The probe loop of locate from probe `p` on; `tomb` is the first tombstone seen so far.
  function LocateFrom<K, V>(c: Config<K>, slots: seq<Slot<K, V>>, k: K, p: nat, tomb: Option<nat>): (nat, bool)
    requires 0 < |slots| && p <= |slots|
    decreases |slots| - p
  {
    if p == |slots| then
      (if tomb.Some? then tomb.value else 0, false)
    else
      var i := At(|slots|, Home(c, k, |slots|), p);
      if slots[i].Empty? then (if tomb.Some? then tomb.value else i, false)
      else if Matches(c, slots[i], k) then (i, true)
      else LocateFrom(c, slots, k, p + 1, if slots[i].Deleted? && tomb.None? then Some(i) else tomb)
  }

  function Locate<K, V>(c: Config<K>, slots: seq<Slot<K, V>>, k: K): (nat, bool)
    requires 0 < |slots|
  {
    LocateFrom(c, slots, k, 0, None)
  }

  // The inner loop of resize: the first EMPTY slot from probe `p` on.
  function FirstEmpty<K, V>(slots: seq<Slot<K, V>>, h: nat, p: nat): Option<nat>
    requires h < |slots| && p <= |slots|
    decreases |slots| - p
  {
    if p == |slots| then None
    else if slots[At(|slots|, h, p)].Empty? then Some(At(|slots|, h, p))
    else FirstEmpty(slots, h, p + 1)
  }

  function Place<K, V>(c: Config<K>, slots: seq<Slot<K, V>>, k: K, v: V): (r: seq<Slot<K, V>>)
    requires 0 < |slots|
    ensures |r| == |slots|
  {
    match FirstEmpty(slots, Home(c, k, |slots|), 0)
    case None => slots
    case Some(i) => if i < |slots| then slots[i := Occupied(k, v)] else slots
  }

  // The first `n` old slots re-inserted into a fresh table of `cap` slots.
  function Rehash<K, V>(c: Config<K>, source: seq<Slot<K, V>>, n: nat, cap: nat): (r: seq<Slot<K, V>>)
    requires n <= |source| && cap > 0
    ensures |r| == cap
  {
    if n == 0 then seq(cap, _ => Empty)
    else
      var r := Rehash(c, source, n - 1, cap);
      match source[n - 1]
      case Occupied(k, v) => Place(c, r, k, v)
      case _ => r
  }

  function Resize<K, V>(c: Config<K>, t: Table<K, V>, cap: nat, gotMemory: bool): (Table<K, V>, Status)
    requires cap > 0 && c.keyStride > 0 && c.valueStride > 0
  {
    if cap > WORD_MAX / c.keyStride || cap > WORD_MAX / c.valueStride then (t, OVERFLOW)
    else if !gotMemory then (t, OUT_OF_MEMORY)
    else (Table(Rehash(c, t.slots, |t.slots|, cap), t.len, 0), OK)
  }

  predicate MustGrow<K, V>(t: Table<K, V>) {
    (t.len + t.tombstones + 1) * 4 >= |t.slots| * 3
  }

  function Grown<K, V>(t: Table<K, V>): (cap: nat)
    ensures cap > 0
  {
    if |t.slots| == 0 then MIN_CAPACITY else |t.slots| * 2
  }

  // A free slot filled, a tombstone in it no longer counted.
  function Filled<K, V>(t: Table<K, V>, i: nat, k: K, v: V): Table<K, V>
    requires i < |t.slots|
  {
    Table(t.slots[i := Occupied(k, v)], t.len + 1,
          if t.slots[i].Deleted? && t.tombstones > 0 then t.tombstones - 1 else t.tombstones)
  }

  function Insert<K, V>(c: Config<K>, t: Table<K, V>, k: K, v: V): Table<K, V>
    requires 0 < |t.slots|
  {
    var (i, found) := Locate(c, t.slots, k);
    if i >= |t.slots| then t
    else if found && t.slots[i].Occupied? then t.(slots := t.slots[i := t.slots[i].(val := v)])
    else Filled(t, i, k, v)
  }

  function Put<K, V>(c: Config<K>, t: Table<K, V>, k: K, v: V, gotMemory: bool): (Table<K, V>, Status)
    requires c.keyStride > 0 && c.valueStride > 0
  {
    if MustGrow(t) then
      var (u, rc) := Resize(c, t, Grown(t), gotMemory);
      if rc == OK then (Insert(c, u, k, v), OK) else (u, rc)
    else
      (Insert(c, t, k, v), OK)
  }

  function Get<K, V>(c: Config<K>, t: Table<K, V>, k: K): Option<V> {
    if |t.slots| == 0 then None
    else
      var (i, found) := Locate(c, t.slots, k);
      if found && i < |t.slots| && t.slots[i].Occupied? then Some(t.slots[i].val) else None
  }

  function Remove<K, V>(c: Config<K>, t: Table<K, V>, k: K): (Table<K, V>, bool) {
    if |t.slots| == 0 then (t, false)
    else
      var (i, found) := Locate(c, t.slots, k);
      if found && i < |t.slots| && t.len > 0 then (Table(t.slots[i := Deleted], t.len - 1, t.tombstones + 1), true)
      else (t, false)
  }

  function Clear<K, V>(t: Table<K, V>): Table<K, V> {
    Table(seq(|t.slots|, _ => Empty), 0, 0)
  }

  // ---- invariant ---------------------------------------------------------------------------------

  function OccupiedWeight<K, V>(s: Slot<K, V>): nat { if s.Occupied? then 1 else 0 }

  function DeletedWeight<K, V>(s: Slot<K, V>): nat { if s.Deleted? then 1 else 0 }

  // No EMPTY slot among the first `d` probes from `h`.
  predicate NoGap<K, V>(slots: seq<Slot<K, V>>, h: nat, d: nat)
    requires h < |slots| && d <= |slots|
  {
    forall q :: 0 <= q < d ==> !slots[At(|slots|, h, q)].Empty?
  }

  // Every entry can be reached by probing from its home slot.
  predicate Probeable<K, V>(c: Config<K>, slots: seq<Slot<K, V>>) {
    forall i :: 0 <= i < |slots| && slots[i].Occupied? ==>
      NoGap(slots, Home(c, slots[i].key, |slots|), Dist(|slots|, Home(c, slots[i].key, |slots|), i))
  }

  // No two entries have equal keys.
  predicate Distinct<K, V>(c: Config<K>, slots: seq<Slot<K, V>>) {
    forall i, j :: 0 <= i < |slots| && 0 <= j < |slots| && i != j && slots[i].Occupied? ==>
      !Matches(c, slots[j], slots[i].key)
  }

  predicate Sound<K, V>(c: Config<K>, slots: seq<Slot<K, V>>) {
    Probeable(c, slots) && Distinct(c, slots)
  }

  // Some slot is EMPTY.
  predicate HasEmpty<K, V>(slots: seq<Slot<K, V>>) {
    exists e :: 0 <= e < |slots| && slots[e].Empty?
  }

  predicate Counted<K, V>(t: Table<K, V>) {
    && t.len == Sum(t.slots, OccupiedWeight)
    && t.tombstones == Sum(t.slots, DeletedWeight)
  }

  ghost predicate Loaded<K, V>(c: Config<K>, t: Table<K, V>) {
    if |t.slots| == 0 then t.len == 0 && t.tombstones == 0
    else
      && |t.slots| >= MIN_CAPACITY && IsPow2(|t.slots|)
      && (t.len + t.tombstones) * 4 < |t.slots| * 3
      && |t.slots| * c.keyStride < WORD && |t.slots| * c.valueStride < WORD
  }

  ghost predicate Inv<K, V>(c: Config<K>, t: Table<K, V>) {
    Sound(c, t.slots) && Counted(t) && Loaded(c, t)
  }

  // ---- locate --------------------------------------------------------------------------------------

  // What locate promises: on a hit the slot of the matching entry, on a miss a free slot at which
  // the key could be inserted and still be found.
  predicate Located<K, V>(c: Config<K>, slots: seq<Slot<K, V>>, k: K, i: nat, found: bool)
    requires 0 < |slots|
  {
    && i < |slots|
    && (found ==> Matches(c, slots[i], k))
    && (!found ==> !slots[i].Occupied? && NoGap(slots, Home(c, k, |slots|), Dist(|slots|, Home(c, k, |slots|), i)))
    && (!found ==> forall j :: 0 <= j < |slots| ==> !Matches(c, slots[j], k))
  }

  // An EMPTY slot at probe `p` after `p` probes without a match proves the key absent.
  lemma EmptyEndsSearch<K(!new), V>(c: Config<K>, slots: seq<Slot<K, V>>, k: K, p: nat)
    requires Lawful(c) && Sound(c, slots) && p < |slots|
    requires slots[At(|slots|, Home(c, k, |slots|), p)].Empty?
    requires forall q :: 0 <= q < p ==> !Matches(c, slots[At(|slots|, Home(c, k, |slots|), q)], k)
    ensures forall j :: 0 <= j < |slots| ==> !Matches(c, slots[j], k)
  {
    var cap, h := |slots|, Home(c, k, |slots|);
    forall j | 0 <= j < cap
      ensures !Matches(c, slots[j], k)
    {
      assert At(cap, h, Dist(cap, h, j)) == j;
    }
  }

  // Probes without a gap have not yet visited the whole table.
  lemma ProbesLeft<K, V>(slots: seq<Slot<K, V>>, h: nat, p: nat)
    requires HasEmpty(slots) && h < |slots| && p <= |slots| && NoGap(slots, h, p)
    ensures p < |slots|
  {
    var e :| 0 <= e < |slots| && slots[e].Empty?;
    assert At(|slots|, h, Dist(|slots|, h, e)) == e;
  }

  // The first `p` probes found neither an EMPTY slot nor the key, so the loop of locate goes on.
  predicate Passed<K, V>(c: Config<K>, slots: seq<Slot<K, V>>, k: K, p: nat)
    requires 0 < |slots| && p <= |slots|
  {
    var h := Home(c, k, |slots|);
    NoGap(slots, h, p) && forall q :: 0 <= q < p ==> !Matches(c, slots[At(|slots|, h, q)], k)
  }

  // `tomb` is the first tombstone among the first `p` probes, if there is one.
  predicate FirstTomb<K, V>(c: Config<K>, slots: seq<Slot<K, V>>, k: K, p: nat, tomb: Option<nat>)
    requires 0 < |slots| && p <= |slots|
  {
    var h := Home(c, k, |slots|);
    match tomb
    case None => forall q :: 0 <= q < p ==> !slots[At(|slots|, h, q)].Deleted?
    case Some(i) =>
      && i < |slots| && slots[i].Deleted? && Dist(|slots|, h, i) < p
      && forall q :: 0 <= q < Dist(|slots|, h, i) ==> !slots[At(|slots|, h, q)].Deleted?
  }

  // The loop of locate leaves at probe `s`, and the slot there decides its answer: a match is
  // returned, and at an EMPTY slot the first tombstone passed or, without one, that slot.
  predicate LeavesAt<K, V>(c: Config<K>, slots: seq<Slot<K, V>>, k: K, s: nat, i: nat, found: bool)
    requires 0 < |slots|
  {
    && s < |slots| && Passed(c, slots, k, s)
    && var j := At(|slots|, Home(c, k, |slots|), s);
       && (slots[j].Empty? || Matches(c, slots[j], k))
       && (found <==> Matches(c, slots[j], k)) && (found ==> i == j)
       && (!found ==> FirstTomb(c, slots, k, s, Some(i)) || (i == j && FirstTomb(c, slots, k, s, None)))
  }

  // Probe `p` becomes the first tombstone if it is one and there was none before.
  lemma TombStep<K, V>(c: Config<K>, slots: seq<Slot<K, V>>, k: K, p: nat, tomb: Option<nat>)
    requires p < |slots| && FirstTomb(c, slots, k, p, tomb)
    ensures var j := At(|slots|, Home(c, k, |slots|), p);
            FirstTomb(c, slots, k, p + 1, if slots[j].Deleted? && tomb.None? then Some(j) else tomb)
  {
    var h := Home(c, k, |slots|);
    ProbeVisitsOnce(|slots|, h, p, At(|slots|, h, p));
  }

  // With an EMPTY slot in the table the loop leaves before it runs out of probes.
  lemma {:induction false} LoopLeaves<K, V>(c: Config<K>, slots: seq<Slot<K, V>>, k: K, p: nat, tomb: Option<nat>)
    returns (s: nat)
    requires HasEmpty(slots) && p <= |slots| && Passed(c, slots, k, p) && FirstTomb(c, slots, k, p, tomb)
    ensures var (i, found) := LocateFrom(c, slots, k, p, tomb); p <= s && LeavesAt(c, slots, k, s, i, found)
    decreases |slots| - p
  {
    ProbesLeft(slots, Home(c, k, |slots|), p);
    var j := At(|slots|, Home(c, k, |slots|), p);
    if slots[j].Empty? || Matches(c, slots[j], k) {
      s := p;
    } else {
      TombStep(c, slots, k, p, tomb);
      s := LoopLeaves(c, slots, k, p + 1, if slots[j].Deleted? && tomb.None? then Some(j) else tomb);
    }
  }

  lemma {:induction false} LocateFromCorrect<K(!new), V>(
      c: Config<K>, slots: seq<Slot<K, V>>, k: K, p: nat, tomb: Option<nat>)
    requires Lawful(c) && Sound(c, slots) && HasEmpty(slots) && p <= |slots| && Passed(c, slots, k, p)
    requires tomb.Some? ==>
               tomb.value < |slots| && slots[tomb.value].Deleted? && Dist(|slots|, Home(c, k, |slots|), tomb.value) < p
    ensures var (i, found) := LocateFrom(c, slots, k, p, tomb); Located(c, slots, k, i, found)
    decreases |slots| - p
  {
    var cap, h := |slots|, Home(c, k, |slots|);
    ProbesLeft(slots, h, p);
    var i := At(cap, h, p);
    ProbeVisitsOnce(cap, h, p, i);
    if slots[i].Empty? {
      EmptyEndsSearch(c, slots, k, p);
    } else if Matches(c, slots[i], k) {
    } else {
      LocateFromCorrect(c, slots, k, p + 1, if slots[i].Deleted? && tomb.None? then Some(i) else tomb);
    }
  }

  // With an EMPTY slot in the table, locate is right and its loop leaves at an EMPTY slot or a match,
  // never falling through to the final return.
  lemma LocateCorrect<K(!new), V>(c: Config<K>, slots: seq<Slot<K, V>>, k: K)
    requires Lawful(c) && Sound(c, slots) && HasEmpty(slots)
    ensures var (i, found) := Locate(c, slots, k);
            Located(c, slots, k, i, found) && exists s :: LeavesAt(c, slots, k, s, i, found)
  {
    LocateFromCorrect(c, slots, k, 0, None);
    var s := LoopLeaves(c, slots, k, 0, None);
  }

  // ---- the finite map --------------------------------------------------------------------------------

  ghost predicate HasEntry<K, V>(slots: seq<Slot<K, V>>, k: K, v: V) {
    exists i :: 0 <= i < |slots| && slots[i] == Occupied(k, v)
  }

  // The table holds exactly the entries of `m`.
  ghost predicate Represents<K(!new), V(!new)>(slots: seq<Slot<K, V>>, m: map<K, V>) {
    forall k, v :: HasEntry(slots, k, v) <==> k in m && m[k] == v
  }

  // The stored key equal to `k`, when there is one.
  ghost predicate Holds<K, V>(c: Config<K>, m: map<K, V>, k: K) {
    exists r :: r in m && c.eq(r, k)
  }

  ghost function Rep<K, V>(c: Config<K>, m: map<K, V>, k: K): (r: K)
    requires Holds(c, m, k)
    ensures r in m && c.eq(r, k)
  {
    var r :| r in m && c.eq(r, k);
    r
  }

  ghost function MapPut<K, V>(c: Config<K>, m: map<K, V>, k: K, v: V): map<K, V> {
    if Holds(c, m, k) then m[Rep(c, m, k) := v] else m[k := v]
  }

  ghost function MapGet<K, V>(c: Config<K>, m: map<K, V>, k: K): Option<V> {
    if Holds(c, m, k) then Some(m[Rep(c, m, k)]) else None
  }

  ghost function MapRemove<K, V>(c: Config<K>, m: map<K, V>, k: K): map<K, V> {
    if Holds(c, m, k) then m - {Rep(c, m, k)} else m
  }

  // The table and the map agree, sizes included.
  ghost predicate Agrees<K(!new), V(!new)>(c: Config<K>, t: Table<K, V>, m: map<K, V>) {
    Inv(c, t) && Represents(t.slots, m) && t.len == |m|
  }

  // A matching slot holds the representative of the key, and a miss means there is none.
  lemma LookupAgrees<K(!new), V(!new)>(c: Config<K>, slots: seq<Slot<K, V>>, m: map<K, V>, k: K, i: nat, found: bool)
    requires Lawful(c) && Sound(c, slots) && Represents(slots, m)
    requires 0 < |slots| && Located(c, slots, k, i, found)
    ensures found <==> Holds(c, m, k)
    ensures found ==> Rep(c, m, k) == slots[i].key && m[slots[i].key] == slots[i].val
  {
    if found {
      var r := slots[i].key;
      assert HasEntry(slots, r, slots[i].val);
      assert r in m && c.eq(r, k);
      var r' := Rep(c, m, k);
      assert HasEntry(slots, r', m[r']);
      var j :| 0 <= j < |slots| && slots[j] == Occupied(r', m[r']);
      assert Matches(c, slots[j], r);
    } else {
      forall r | r in m
        ensures !c.eq(r, k)
      {
        assert HasEntry(slots, r, m[r]);
      }
    }
  }

  // ---- slot updates ------------------------------------------------------------------------------------

  // Filling a free slot at which the key is probeable adds that one entry.
  lemma FillSound<K(!new), V(!new)>(c: Config<K>, slots: seq<Slot<K, V>>, i: nat, k: K, v: V)
    requires Lawful(c) && Sound(c, slots) && i < |slots| && !slots[i].Occupied?
    requires NoGap(slots, Home(c, k, |slots|), Dist(|slots|, Home(c, k, |slots|), i))
    requires forall j :: 0 <= j < |slots| ==> !Matches(c, slots[j], k)
    ensures Sound(c, slots[i := Occupied(k, v)])
  {
    var s := slots[i := Occupied(k, v)];
    forall a, b | 0 <= a < |s| && 0 <= b < |s| && a != b && s[a].Occupied?
      ensures !Matches(c, s[b], s[a].key)
    {
      assert a == i ==> !Matches(c, slots[b], k);
      assert b == i ==> !Matches(c, slots[a], k);
      assert a != i && b != i ==> !Matches(c, slots[b], slots[a].key);
    }
  }

  lemma FillEntries<K(!new), V(!new)>(slots: seq<Slot<K, V>>, i: nat, k: K, v: V)
    requires i < |slots| && !slots[i].Occupied?
    ensures forall a, b :: HasEntry(slots[i := Occupied(k, v)], a, b) <==> HasEntry(slots, a, b) || (a == k && b == v)
  {
    var s := slots[i := Occupied(k, v)];
    forall a, b
      ensures HasEntry(s, a, b) <==> HasEntry(slots, a, b) || (a == k && b == v)
    {
      if HasEntry(slots, a, b) {
        var j :| 0 <= j < |slots| && slots[j] == Occupied(a, b);
        assert s[j] == Occupied(a, b);
      }
      assert s[i] == Occupied(k, v);
    }
  }

  // Replacing the slot of an entry by `n`, an entry with the same key or a tombstone, changes
  // that entry only.
  lemma ReplaceSound<K(!new), V(!new)>(c: Config<K>, slots: seq<Slot<K, V>>, i: nat, n: Slot<K, V>)
    requires Lawful(c) && Sound(c, slots) && i < |slots| && slots[i].Occupied?
    requires n.Deleted? || (n.Occupied? && n.key == slots[i].key)
    ensures Sound(c, slots[i := n])
  {
    var s := slots[i := n];
    forall a, b | 0 <= a < |s| && 0 <= b < |s| && a != b && s[a].Occupied?
      ensures !Matches(c, s[b], s[a].key)
    {
      assert !Matches(c, slots[b], slots[a].key);
    }
  }

  lemma ReplaceEntries<K(!new), V(!new)>(c: Config<K>, slots: seq<Slot<K, V>>, i: nat, n: Slot<K, V>)
    requires Lawful(c) && Sound(c, slots) && i < |slots| && slots[i].Occupied?
    requires n.Deleted? || (n.Occupied? && n.key == slots[i].key)
    ensures forall a, b :: HasEntry(slots[i := n], a, b) <==>
              if a == slots[i].key then n == Occupied(a, b) else HasEntry(slots, a, b)
  {
    var s, k := slots[i := n], slots[i].key;
    forall a, b
      ensures HasEntry(s, a, b) <==> if a == k then n == Occupied(a, b) else HasEntry(slots, a, b)
    {
      if a == k {
        if HasEntry(s, a, b) {
          var j :| 0 <= j < |s| && s[j] == Occupied(a, b);
          assert j != i ==> !Matches(c, slots[j], slots[i].key);
        }
        if n == Occupied(a, b) {
          assert s[i] == Occupied(a, b);
        }
      } else if HasEntry(slots, a, b) {
        var j :| 0 <= j < |slots| && slots[j] == Occupied(a, b);
        assert s[j] == Occupied(a, b);
      }
    }
  }

  lemma SlotWeights<K, V>(slots: seq<Slot<K, V>>, i: nat, n: Slot<K, V>)
    requires i < |slots|
    ensures Sum(slots[i := n], OccupiedWeight) ==
            Sum(slots, OccupiedWeight) - OccupiedWeight(slots[i]) + OccupiedWeight(n)
    ensures Sum(slots[i := n], DeletedWeight) == Sum(slots, DeletedWeight) - DeletedWeight(slots[i]) + DeletedWeight(n)
  {
    SumUpdate(slots, OccupiedWeight, i, n);
    SumUpdate(slots, DeletedWeight, i, n);
  }

  // A table that is not full of entries and tombstones has an EMPTY slot.
  lemma {:induction false} EmptyExists<K, V>(slots: seq<Slot<K, V>>)
    requires Sum(slots, OccupiedWeight) + Sum(slots, DeletedWeight) < |slots|
    ensures HasEmpty(slots)
  {
    var n := |slots| - 1;
    if slots[n].Empty? {
      assert HasEmpty(slots);
    } else {
      EmptyExists(slots[..n]);
      var e :| 0 <= e < n && slots[..n][e].Empty?;
      assert slots[e].Empty?;
    }
  }

  // ---- insert, remove, get, clear -----------------------------------------------------------------------

  // Room for one more entry: what put establishes before it inserts.
  predicate Roomy<K, V>(t: Table<K, V>) {
    (t.len + t.tombstones + 1) * 4 < |t.slots| * 3
  }

  lemma InsertHit<K(!new), V(!new)>(c: Config<K>, t: Table<K, V>, m: map<K, V>, k: K, v: V, i: nat)
    requires Lawful(c) && Agrees(c, t, m)
    requires 0 < |t.slots| && Located(c, t.slots, k, i, true)
    ensures Agrees(c, t.(slots := t.slots[i := t.slots[i].(val := v)]), MapPut(c, m, k, v))
  {
    var n := t.slots[i].(val := v);
    LookupAgrees(c, t.slots, m, k, i, true);
    ReplaceSound(c, t.slots, i, n);
    ReplaceEntries(c, t.slots, i, n);
    SlotWeights(t.slots, i, n);
  }

  lemma InsertMiss<K(!new), V(!new)>(c: Config<K>, t: Table<K, V>, m: map<K, V>, k: K, v: V, i: nat)
    requires Lawful(c) && Agrees(c, t, m) && Roomy(t)
    requires Located(c, t.slots, k, i, false)
    ensures Agrees(c, Filled(t, i, k, v), MapPut(c, m, k, v))
    ensures Filled(t, i, k, v).tombstones <= t.tombstones
  {
    LookupAgrees(c, t.slots, m, k, i, false);
    FillSound(c, t.slots, i, k, v);
    FillEntries(t.slots, i, k, v);
    FilledCounts(t, i, k, v);
    assert k !in m by {
      assert c.eq(k, k);
    }
    forall a, b
      ensures HasEntry(Filled(t, i, k, v).slots, a, b) <==> a in m[k := v] && m[k := v][a] == b
    {
      assert HasEntry(t.slots, a, b) <==> a in m && m[a] == b;
    }
  }

  lemma FilledCounts<K, V>(t: Table<K, V>, i: nat, k: K, v: V)
    requires Counted(t) && i < |t.slots| && !t.slots[i].Occupied?
    ensures Counted(Filled(t, i, k, v))
  {
    SlotWeights(t.slots, i, Occupied(k, v));
    SumMember(t.slots, DeletedWeight, i);
  }

  lemma InsertAgrees<K(!new), V(!new)>(c: Config<K>, t: Table<K, V>, m: map<K, V>, k: K, v: V)
    requires Lawful(c) && Agrees(c, t, m) && Roomy(t)
    ensures Agrees(c, Insert(c, t, k, v), MapPut(c, m, k, v))
    ensures var u := Insert(c, t, k, v);
            |u.slots| == |t.slots| && u.len + u.tombstones <= t.len + t.tombstones + 1
  {
    EmptyExists(t.slots);
    LocateCorrect(c, t.slots, k);
    var (i, found) := Locate(c, t.slots, k);
    if found {
      InsertHit(c, t, m, k, v, i);
    } else {
      InsertMiss(c, t, m, k, v, i);
    }
  }

  lemma InvHasEmpty<K, V>(c: Config<K>, t: Table<K, V>)
    requires Inv(c, t) && |t.slots| > 0
    ensures HasEmpty(t.slots)
  {
    EmptyExists(t.slots);
  }

  lemma GetAgrees<K(!new), V(!new)>(c: Config<K>, t: Table<K, V>, m: map<K, V>, k: K)
    requires Lawful(c) && Agrees(c, t, m)
    ensures Get(c, t, k) == MapGet(c, m, k)
  {
    if |t.slots| == 0 {
      NoEntries(t.slots, m);
    } else {
      InvHasEmpty(c, t);
      LocateCorrect(c, t.slots, k);
      var (i, found) := Locate(c, t.slots, k);
      LookupAgrees(c, t.slots, m, k, i, found);
    }
  }

  lemma NoEntries<K(!new), V(!new)>(slots: seq<Slot<K, V>>, m: map<K, V>)
    requires Represents(slots, m) && forall i :: 0 <= i < |slots| ==> !slots[i].Occupied?
    ensures m == map[]
  {
    assert forall k :: k in m ==> HasEntry(slots, k, m[k]);
    assert m.Keys == {};
  }

  lemma RemoveAgrees<K(!new), V(!new)>(c: Config<K>, t: Table<K, V>, m: map<K, V>, k: K)
    requires Lawful(c) && Agrees(c, t, m)
    ensures var (u, gone) := Remove(c, t, k);
            Agrees(c, u, MapRemove(c, m, k)) && (gone <==> Holds(c, m, k)) &&
            |u.slots| == |t.slots| && u.len + u.tombstones == t.len + t.tombstones
    ensures |t.slots| > 0 && Locate(c, t.slots, k).1 ==> t.len > 0
  {
    if |t.slots| == 0 {
      NoEntries(t.slots, m);
    } else {
      InvHasEmpty(c, t);
      LocateCorrect(c, t.slots, k);
      var (i, found) := Locate(c, t.slots, k);
      LookupAgrees(c, t.slots, m, k, i, found);
      if found {
        ReplaceSound(c, t.slots, i, Deleted);
        ReplaceEntries(c, t.slots, i, Deleted);
        SlotWeights(t.slots, i, Deleted);
        SumMember(t.slots, OccupiedWeight, i);
      }
    }
  }

  lemma ClearAgrees<K(!new), V(!new)>(c: Config<K>, t: Table<K, V>, m: map<K, V>)
    requires Agrees(c, t, m)
    ensures Agrees(c, Clear(t), map[])
  {
    SumZero(Clear(t).slots, OccupiedWeight);
    SumZero(Clear(t).slots, DeletedWeight);
  }

  // ---- rehashing ------------------------------------------------------------------------------------------

  lemma {:induction false} FirstEmptyCorrect<K, V>(slots: seq<Slot<K, V>>, h: nat, p: nat)
    requires h < |slots| && p <= |slots| && HasEmpty(slots) && NoGap(slots, h, p)
    ensures var r := FirstEmpty(slots, h, p);
            r.Some? && r.value < |slots| && slots[r.value].Empty? && NoGap(slots, h, Dist(|slots|, h, r.value))
    decreases |slots| - p
  {
    var e :| 0 <= e < |slots| && slots[e].Empty?;
    assert At(|slots|, h, Dist(|slots|, h, e)) == e;
    if p == |slots| {
      assert false;
    } else if slots[At(|slots|, h, p)].Empty? {
      ProbeVisitsOnce(|slots|, h, p, At(|slots|, h, p));
    } else {
      FirstEmptyCorrect(slots, h, p + 1);
    }
  }

  // Re-inserting an absent key fills the first EMPTY slot and adds exactly that entry.
  lemma PlaceFills<K(!new), V(!new)>(c: Config<K>, slots: seq<Slot<K, V>>, k: K, v: V) returns (i: nat)
    requires 0 < |slots| && HasEmpty(slots)
    ensures i < |slots| && slots[i].Empty? && Place(c, slots, k, v) == slots[i := Occupied(k, v)]
    ensures NoGap(slots, Home(c, k, |slots|), Dist(|slots|, Home(c, k, |slots|), i))
  {
    FirstEmptyCorrect(slots, Home(c, k, |slots|), 0);
    i := FirstEmpty(slots, Home(c, k, |slots|), 0).value;
  }

  lemma PlaceSound<K(!new), V(!new)>(c: Config<K>, slots: seq<Slot<K, V>>, k: K, v: V)
    requires Lawful(c) && Sound(c, slots) && HasEmpty(slots)
    requires forall j :: 0 <= j < |slots| ==> !Matches(c, slots[j], k)
    ensures Sound(c, Place(c, slots, k, v))
  {
    var i := PlaceFills(c, slots, k, v);
    FillSound(c, slots, i, k, v);
  }

  lemma PlaceEntries<K(!new), V(!new)>(c: Config<K>, slots: seq<Slot<K, V>>, k: K, v: V)
    requires HasEmpty(slots)
    ensures forall a, b :: HasEntry(Place(c, slots, k, v), a, b) <==> HasEntry(slots, a, b) || (a == k && b == v)
    ensures Sum(Place(c, slots, k, v), OccupiedWeight) == Sum(slots, OccupiedWeight) + 1
    ensures Sum(Place(c, slots, k, v), DeletedWeight) == Sum(slots, DeletedWeight)
  {
    var i := PlaceFills(c, slots, k, v);
    FillEntries(slots, i, k, v);
    SlotWeights(slots, i, Occupied(k, v));
  }

  lemma PrefixEntries<K(!new), V(!new)>(slots: seq<Slot<K, V>>, n: nat)
    requires 0 < n <= |slots|
    ensures forall a, b ::
              HasEntry(slots[..n], a, b) <==> HasEntry(slots[..n - 1], a, b) || slots[n - 1] == Occupied(a, b)
  {
    forall a, b
      ensures HasEntry(slots[..n], a, b) <==> HasEntry(slots[..n - 1], a, b) || slots[n - 1] == Occupied(a, b)
    {
      if HasEntry(slots[..n - 1], a, b) {
        var j :| 0 <= j < n - 1 && slots[..n - 1][j] == Occupied(a, b);
        assert slots[..n][j] == Occupied(a, b);
      }
      if HasEntry(slots[..n], a, b) && slots[n - 1] != Occupied(a, b) {
        var j :| 0 <= j < n && slots[..n][j] == Occupied(a, b);
        assert slots[..n - 1][j] == Occupied(a, b);
      }
      assert slots[..n][n - 1] == slots[n - 1];
    }
  }

  // No entry among the first `n - 1` old slots equals the key of old slot `n - 1`, so none of the
  // re-inserted ones does.
  lemma NextIsAbsent<K(!new), V(!new)>(c: Config<K>, slots: seq<Slot<K, V>>, n: nat, target: seq<Slot<K, V>>)
    requires Lawful(c) && Distinct(c, slots) && 0 < n <= |slots| && slots[n - 1].Occupied?
    requires forall a, b :: HasEntry(target, a, b) <==> HasEntry(slots[..n - 1], a, b)
    ensures forall j :: 0 <= j < |target| ==> !Matches(c, target[j], slots[n - 1].key)
  {
    var k := slots[n - 1].key;
    forall j | 0 <= j < |target| && target[j].Occupied?
      ensures !Matches(c, target[j], k)
    {
      assert HasEntry(target, target[j].key, target[j].val);
      var i :| 0 <= i < n - 1 && slots[..n - 1][i] == target[j];
      assert !Matches(c, slots[i], k);
    }
  }

  // The rehash of the first `n` old slots holds exactly their entries and no tombstone.
  lemma {:induction false} RehashCorrect<K(!new), V(!new)>(c: Config<K>, slots: seq<Slot<K, V>>, n: nat, cap: nat)
    requires Lawful(c) && Distinct(c, slots) && n <= |slots| && Sum(slots[..n], OccupiedWeight) < cap
    ensures Sound(c, Rehash(c, slots, n, cap))
    ensures forall a, b :: HasEntry(Rehash(c, slots, n, cap), a, b) <==> HasEntry(slots[..n], a, b)
    ensures Sum(Rehash(c, slots, n, cap), OccupiedWeight) == Sum(slots[..n], OccupiedWeight)
    ensures Sum(Rehash(c, slots, n, cap), DeletedWeight) == 0
  {
    var r := Rehash(c, slots, n, cap);
    if n == 0 {
      SumZero(r, OccupiedWeight);
      SumZero(r, DeletedWeight);
    } else {
      assert slots[..n] == slots[..n - 1] + [slots[n - 1]];
      SumAppend(slots[..n - 1], OccupiedWeight, slots[n - 1]);
      RehashCorrect(c, slots, n - 1, cap);
      PrefixEntries(slots, n);
      var r' := Rehash(c, slots, n - 1, cap);
      if slots[n - 1].Occupied? {
        NextIsAbsent(c, slots, n, r');
        EmptyExists(r');
        PlaceSound(c, r', slots[n - 1].key, slots[n - 1].val);
        PlaceEntries(c, r', slots[n - 1].key, slots[n - 1].val);
      }
    }
  }
}
