// The hash map of d4np/ds/hashmap.c over its three arrays, each method proved to be the
// corresponding operation on the table value and on a finite map.
module HashMap {
  import opened Common
  import opened Sums
  import opened Words
  import opened HashTable
  import opened HashRuns

  // The control byte of a slot.
  type Control = n: nat | n <= 2

  const SLOT_EMPTY: Control := 0
  const SLOT_OCCUPIED: Control := 1
  const SLOT_DELETED: Control := 2

  function SlotOf<K, V>(control: Control, key: K, value: V): Slot<K, V> {
    if control == SLOT_EMPTY then Empty else if control == SLOT_DELETED then Deleted else Occupied(key, value)
  }

  function SlotsOf<K, V>(control: seq<Control>, keys: seq<K>, values: seq<V>): (r: seq<Slot<K, V>>)
    requires |control| == |keys| == |values|
    ensures |r| == |control|
  {
    seq(|control|, i requires 0 <= i < |control| => SlotOf(control[i], keys[i], values[i]))
  }

  ghost predicate Separate<K, V>(control: array<Control>, keys: array<K>, values: array<V>) {
    control as object != keys && control as object != values && keys as object != values
  }

  // Store state, key and value of one slot.
  method WriteSlot<K, V>(control: array<Control>, keys: array<K>, values: array<V>, j: nat, k: K, v: V)
    requires control.Length == keys.Length == values.Length && j < control.Length
    requires Separate(control, keys, values)
    modifies control, keys, values
    ensures SlotsOf(control[..], keys[..], values[..]) ==
            old(SlotsOf(control[..], keys[..], values[..]))[j := Occupied(k, v)]
  {
    control[j] := SLOT_OCCUPIED;
    keys[j] := k;
    values[j] := v;
  }

  method WriteValue<K, V>(ghost control: seq<Control>, ghost keys: seq<K>, values: array<V>, j: nat, v: V)
    requires |control| == |keys| == values.Length && j < values.Length && control[j] == SLOT_OCCUPIED
    modifies values
    ensures SlotsOf(control, keys, values[..]) ==
            old(SlotsOf(control, keys, values[..]))[j := Occupied(keys[j], v)]
  {
    values[j] := v;
  }

  method WriteTombstone<K, V>(control: array<Control>, ghost keys: seq<K>, ghost values: seq<V>, j: nat)
    requires control.Length == |keys| == |values| && j < control.Length
    modifies control
    ensures SlotsOf(control[..], keys, values) == old(SlotsOf(control[..], keys, values))[j := Deleted]
  {
    control[j] := SLOT_DELETED;
  }

  // `hash & mask`.
  method HomeSlot<K>(c: Config<K>, k: K, cap: nat) returns (h: nat)
    requires cap > 0 && IsPow2(cap)
    ensures h == Home(c, k, cap)
  {
    ProbeIsMasked(cap, c.hash(k), 0);
    h := BitAnd(c.hash(k), cap - 1);
  }

  // `(start + probe) & mask`.
  method ProbeSlot(cap: nat, start: nat, probe: nat) returns (j: nat)
    requires start < cap && probe < cap && IsPow2(cap)
    ensures j == At(cap, start, probe)
  {
    SmallMod(start, cap);
    ProbeIsMasked(cap, start, probe);
    j := BitAnd(start + probe, cap - 1);
  }

  // The sentinel value of the first tombstone stands for none.
  function Tomb(firstTomb: nat): Option<nat> {
    if firstTomb == WORD_MAX then None else Some(firstTomb)
  }

  // What the loop does at probe `p`: it stops at slot `j`, or goes on with the tombstone noted.
  lemma LocateStep<K, V>(c: Config<K>, slots: seq<Slot<K, V>>, k: K, p: nat, tomb: Option<nat>, j: nat)
    requires p < |slots| && j == At(|slots|, Home(c, k, |slots|), p)
    ensures LocateFrom(c, slots, k, p, tomb) ==
            if slots[j].Empty? then (if tomb.Some? then tomb.value else j, false)
            else if Matches(c, slots[j], k) then (j, true)
            else LocateFrom(c, slots, k, p + 1, if slots[j].Deleted? && tomb.None? then Some(j) else tomb)
  {
  }

  // The probe loop of locate.  `probes` is the probe at which it leaves; only a table without an
  // EMPTY slot lets it fall through after all of them.
  method LocateIn<K, V>(c: Config<K>, control: array<Control>, keys: array<K>, values: array<V>, key: K)
    returns (i: nat, found: bool, ghost probes: nat)
    requires 0 < control.Length == keys.Length == values.Length && IsPow2(control.Length) && control.Length < WORD_MAX
    ensures (i, found) == Locate(c, SlotsOf(control[..], keys[..], values[..]), key)
    ensures var slots := SlotsOf(control[..], keys[..], values[..]);
            && probes <= |slots| && Passed(c, slots, key, probes)
            && (probes < |slots| ==> LeavesAt(c, slots, key, probes, i, found))
  {
    ghost var slots := SlotsOf(control[..], keys[..], values[..]);
    var capacity := control.Length;
    var start := HomeSlot(c, key, capacity);
    var firstTomb: nat := WORD_MAX;
    var probe := 0;
    while probe < capacity
      invariant probe <= capacity && (firstTomb < capacity || firstTomb == WORD_MAX)
      invariant LocateFrom(c, slots, key, probe, Tomb(firstTomb)) == Locate(c, slots, key)
      invariant Passed(c, slots, key, probe) && FirstTomb(c, slots, key, probe, Tomb(firstTomb))
    {
      var j := ProbeSlot(capacity, start, probe);
      LocateStep(c, slots, key, probe, Tomb(firstTomb), j);
      TombStep(c, slots, key, probe, Tomb(firstTomb));
      var st := control[j];
      assert slots[j] == SlotOf(st, keys[j], values[j]);
      if st == SLOT_EMPTY {
        return (if firstTomb != WORD_MAX then firstTomb else j), false, probe;
      }
      if st == SLOT_OCCUPIED && c.eq(keys[j], key) {
        return j, true, probe;
      }
      if st == SLOT_DELETED && firstTomb == WORD_MAX {
        firstTomb := j;
      }
      probe := probe + 1;
    }
    return (if firstTomb != WORD_MAX then firstTomb else 0), false, probe;
  }

  // The inner loop of resize: probe for the first EMPTY slot.
  method ProbeEmpty<K, V>(c: Config<K>, control: array<Control>, ghost keys: seq<K>, ghost values: seq<V>, k: K)
    returns (r: Option<nat>)
    requires 0 < control.Length == |keys| == |values| && IsPow2(control.Length)
    ensures r == FirstEmpty(SlotsOf(control[..], keys, values), Home(c, k, control.Length), 0)
    ensures r.Some? ==> r.value < control.Length
  {
    ghost var slots := SlotsOf(control[..], keys, values);
    var cap := control.Length;
    var start := HomeSlot(c, k, cap);
    var probe := 0;
    while probe < cap
      invariant probe <= cap
      invariant FirstEmpty(slots, start, probe) == FirstEmpty(slots, start, 0)
    {
      var j := ProbeSlot(cap, start, probe);
      assert slots[j].Empty? <==> control[j] == SLOT_EMPTY;
      if control[j] == SLOT_EMPTY {
        return Some(j);
      }
      probe := probe + 1;
    }
    return None;
  }

  // ... and fill it.
  method PlaceInto<K, V>(c: Config<K>, control: array<Control>, keys: array<K>, values: array<V>, k: K, v: V)
    requires 0 < control.Length == keys.Length == values.Length && IsPow2(control.Length)
    requires Separate(control, keys, values)
    modifies control, keys, values
    ensures SlotsOf(control[..], keys[..], values[..]) ==
            Place(c, old(SlotsOf(control[..], keys[..], values[..])), k, v)
  {
    var r := ProbeEmpty(c, control, keys[..], values[..], k);
    if r.Some? {
      WriteSlot(control, keys, values, r.value, k, v);
    }
  }

  // The re-insertion loop of resize, into fresh arrays.
  method RehashInto<K(0), V(0)>(c: Config<K>, oc: array<Control>, ok: array<K>, ov: array<V>, cap: nat)
    returns (nc: array<Control>, nk: array<K>, nv: array<V>)
    requires oc.Length == ok.Length == ov.Length && cap > 0 && IsPow2(cap)
    ensures fresh(nc) && fresh(nk) && fresh(nv) && Separate(nc, nk, nv)
    ensures nc.Length == nk.Length == nv.Length == cap
    ensures SlotsOf(nc[..], nk[..], nv[..]) == Rehash(c, SlotsOf(oc[..], ok[..], ov[..]), oc.Length, cap)
  {
    ghost var slots := SlotsOf(oc[..], ok[..], ov[..]);
    nc := new Control[cap](_ => SLOT_EMPTY);
    nk := new K[cap];
    nv := new V[cap];
    assert SlotsOf(nc[..], nk[..], nv[..]) == Rehash(c, slots, 0, cap);
    var i := 0;
    while i < oc.Length
      modifies nc, nk, nv
      invariant i <= oc.Length
      invariant SlotsOf(nc[..], nk[..], nv[..]) == Rehash(c, slots, i, cap)
    {
      assert slots[i] == SlotOf(oc[i], ok[i], ov[i]);
      if oc[i] == SLOT_OCCUPIED {
        PlaceInto(c, nc, nk, nv, ok[i], ov[i]);
      }
      i := i + 1;
    }
  }

  class HashMap<K(!new, 0), V(!new, 0)> {
    const c: Config<K>
    var control: array<Control>
    var keys: array<K>
    var values: array<V>
    var capacity: nat
    var len: nat
    var tombstones: nat
    ghost var model: map<K, V>

    ghost predicate Shaped()
      reads this, control, keys, values
    {
      control.Length == keys.Length == values.Length == capacity && Separate(control, keys, values)
    }

    ghost function Abs(): Table<K, V>
      reads this, control, keys, values
      requires Shaped()
    {
      Table(SlotsOf(control[..], keys[..], values[..]), len, tombstones)
    }

    ghost predicate Valid()
      reads this, control, keys, values
    {
      Lawful(c) && Shaped() && Agrees(c, Abs(), model)
    }

    // Init before its optional resize.
    constructor (c: Config<K>)
      requires Lawful(c)
      ensures Valid() && this.c == c && model == map[] && capacity == 0
      ensures fresh(control) && fresh(keys) && fresh(values)
    {
      this.c := c;
      control := new Control[0];
      keys := new K[0];
      values := new V[0];
      capacity, len, tombstones := 0, 0, 0;
      model := map[];
      new;
      assert Abs() == InitTable<K, V>(c, 0, false);
      InitAgrees<K, V>(c, 0, false);
    }

    // The rest of init: allocate for a non-zero capacity hint, which is rounded to `cap`.
    method InitCapacity(hint: nat, gotMemory: bool) returns (rc: Status, ghost cap: nat)
      requires Valid() && capacity == 0 && hint < WORD
      modifies this
      ensures Valid() && model == old(model)
      ensures hint == 0 ==> rc == OK && cap == 0
      ensures hint > 0 ==> IsRoundedCapacity(MIN_CAPACITY, hint, cap)
      ensures rc == OVERFLOW <==> cap * c.keyStride >= WORD || cap * c.valueStride >= WORD
      ensures rc == OUT_OF_MEMORY <==> rc != OVERFLOW && hint > 0 && !gotMemory
      ensures rc == OK || rc == OVERFLOW || rc == OUT_OF_MEMORY
      ensures capacity == if rc == OK then cap else 0
      ensures control == old(control) || fresh(control)
      ensures keys == old(keys) || fresh(keys)
      ensures values == old(values) || fresh(values)
    {
      rc, cap := OK, 0;
      if hint > 0 {
        assert Pow2(3) == MIN_CAPACITY;
        var rounded := NextPow2AtLeast(3, hint);
        OverflowExact(rounded, c.keyStride);
        OverflowExact(rounded, c.valueStride);
        rc := ResizeTo(rounded, gotMemory);
        cap := rounded;
      }
    }

    // On a valid map the loop leaves at a probe, not by running out of them.
    method LocateKey(key: K) returns (i: nat, found: bool, ghost probes: nat)
      requires Valid() && capacity > 0
      ensures (i, found) == Locate(c, Abs().slots, key)
      ensures Located(c, Abs().slots, key, i, found)
      ensures LeavesAt(c, Abs().slots, key, probes, i, found)
    {
      InvHasEmpty(c, Abs());
      LocateCorrect(c, Abs().slots, key);
      ArithmeticNeverWraps(c, Abs());
      i, found, probes := LocateIn(c, control, keys, values, key);
      ProbesLeft(Abs().slots, Home(c, key, capacity), probes);
    }

    // Re-insert all entries into fresh arrays and swap these in.
    method Reinsert(newCapacity: nat)
      requires Shaped() && newCapacity > 0 && IsPow2(newCapacity)
      modifies this
      ensures Shaped() && capacity == newCapacity && model == old(model)
      ensures Abs() == Table(Rehash(c, old(Abs()).slots, old(capacity), newCapacity), old(len), 0)
      ensures fresh(control) && fresh(keys) && fresh(values)
    {
      control, keys, values := RehashInto(c, control, keys, values, newCapacity);
      capacity := newCapacity;
      tombstones := 0;
    }

    method ResizeTo(newCapacity: nat, gotMemory: bool) returns (rc: Status)
      requires Valid() && newCapacity >= MIN_CAPACITY && IsPow2(newCapacity) && len * 4 < newCapacity * 3
      modifies this
      ensures Valid() && model == old(model)
      ensures (Abs(), rc) == Resize(c, old(Abs()), newCapacity, gotMemory)
      ensures rc == OK ==> fresh(control) && fresh(keys) && fresh(values) && capacity == newCapacity && tombstones == 0
      ensures rc != OK ==> control == old(control) && keys == old(keys) && values == old(values)
    {
      ResizeAgrees(c, Abs(), model, newCapacity, gotMemory);
      if newCapacity > WORD_MAX / c.keyStride || newCapacity > WORD_MAX / c.valueStride {
        return OVERFLOW;
      }
      if !gotMemory {
        return OUT_OF_MEMORY;
      }
      Reinsert(newCapacity);
      rc := OK;
    }

    method Put(key: K, value: V, gotMemory: bool) returns (rc: Status)
      requires Valid()
      modifies this, control, keys, values
      ensures Valid()
      ensures (Abs(), rc) == HashTable.Put(c, old(Abs()), key, value, gotMemory)
      ensures rc == PutStatus(c, old(capacity), old(len) + old(tombstones), gotMemory)
      ensures model == if rc == OK then MapPut(c, old(model), key, value) else old(model)
      ensures control == old(control) || fresh(control)
      ensures keys == old(keys) || fresh(keys)
      ensures values == old(values) || fresh(values)
    {
      PutAnswers(c, Abs(), model, key, value, gotMemory);
      rc := MakeRoom(gotMemory);
      if rc != OK {
        return;
      }
      InsertInto(key, value);
    }

    // The first half of put: grow at the load factor.
    method MakeRoom(gotMemory: bool) returns (rc: Status)
      requires Valid()
      modifies this
      ensures Valid() && model == old(model)
      ensures (Abs(), rc) == if MustGrow(old(Abs())) then Resize(c, old(Abs()), Grown(old(Abs())), gotMemory)
                             else (old(Abs()), OK)
      ensures rc == OK ==> Roomy(Abs())
      ensures control == old(control) || fresh(control)
      ensures keys == old(keys) || fresh(keys)
      ensures values == old(values) || fresh(values)
    {
      rc := OK;
      var grow := NeedsToGrow();
      if grow {
        GrownRoomy(c, Abs());
        rc := ResizeTo(if capacity == 0 then MIN_CAPACITY else capacity * 2, gotMemory);
      }
    }

    // The load-factor test, in 64-bit arithmetic; doubling the capacity would not wrap either.
    method NeedsToGrow() returns (grow: bool)
      requires Valid()
      ensures grow == MustGrow(Abs())
      ensures !grow ==> Roomy(Abs())
      ensures capacity * 2 < WORD
    {
      ArithmeticNeverWraps(c, Abs());
      SmallMod((len + tombstones + 1) * 4, WORD);
      SmallMod(capacity * 3, WORD);
      grow := (len + tombstones + 1) * 4 % WORD >= capacity * 3 % WORD;
    }

    // The second half of put: overwrite the entry found, or fill the slot locate suggests.
    method InsertInto(key: K, value: V)
      requires Valid() && Roomy(Abs())
      modifies this`len, this`tombstones, this`model, control, keys, values
      ensures Valid()
      ensures Abs() == Insert(c, old(Abs()), key, value)
      ensures model == MapPut(c, old(model), key, value)
    {
      ghost var t := Abs();
      var i, found, _ := LocateKey(key);
      InsertAgrees(c, t, model, key, value);
      if found {
        WriteValue(control[..], keys[..], values, i, value);
      } else {
        FillSlot(i, key, value);
      }
      assert Abs() == Insert(c, t, key, value);
      model := MapPut(c, model, key, value);
    }

    // A new entry in the free slot `i`.
    method FillSlot(i: nat, key: K, value: V)
      requires Shaped() && Counted(Abs()) && i < capacity && control[i] != SLOT_OCCUPIED
      modifies this`len, this`tombstones, control, keys, values
      ensures Shaped() && Abs() == Filled(old(Abs()), i, key, value)
    {
      if control[i] == SLOT_DELETED {
        TombstoneCounted(Abs(), i);
        tombstones := tombstones - 1;
      }
      WriteSlot(control, keys, values, i, key, value);
      len := len + 1;
    }

    method Get(key: K) returns (r: Option<V>)
      requires Valid()
      ensures r == MapGet(c, model, key)
    {
      GetAgrees(c, Abs(), model, key);
      if capacity == 0 {
        return None;
      }
      var i, found, _ := LocateKey(key);
      r := if found then Some(values[i]) else None;
    }

    // A tombstone for the entry in slot `i`.
    method MarkDeleted(i: nat)
      requires Shaped() && i < capacity && len > 0
      modifies this`len, this`tombstones, control
      ensures Shaped() && Abs() == Table(old(Abs()).slots[i := Deleted], old(len) - 1, old(tombstones) + 1)
    {
      WriteTombstone(control, keys[..], values[..], i);
      len := len - 1;
      tombstones := tombstones + 1;
    }

    // Locate the key and mark its entry.
    method Delete(key: K) returns (removed: bool)
      requires Valid() && capacity > 0
      modifies this`len, this`tombstones, control
      ensures Shaped() && (Abs(), removed) == HashTable.Remove(c, old(Abs()), key)
    {
      RemoveAgrees(c, Abs(), model, key);
      var i, found, _ := LocateKey(key);
      if found {
        MarkDeleted(i);
      }
      removed := found;
    }

    method Remove(key: K) returns (removed: bool)
      requires Valid()
      modifies this`len, this`tombstones, this`model, control
      ensures Valid()
      ensures (Abs(), removed) == HashTable.Remove(c, old(Abs()), key)
      ensures model == MapRemove(c, old(model), key)
      ensures removed <==> Holds(c, old(model), key)
    {
      RemoveAgrees(c, Abs(), model, key);
      removed := false;
      if capacity > 0 {
        removed := Delete(key);
      }
      model := MapRemove(c, model, key);
    }

    method Clear()
      requires Valid()
      modifies this`len, this`tombstones, this`model, control
      ensures Valid() && model == map[]
      ensures Abs() == HashTable.Clear(old(Abs()))
    {
      ClearAgrees(c, Abs(), model);
      forall i | 0 <= i < capacity {
        control[i] := SLOT_EMPTY;
      }
      len, tombstones := 0, 0;
      assert Abs().slots == HashTable.Clear(old(Abs())).slots;
      model := map[];
    }
  }

  // The whole of init, for keys with a lawful hash and equality and sizes whose strides do not wrap.
  // Whatever the capacity hint and the allocator do, the map that results is usable.
  method Init<K(!new, 0), V(!new, 0)>(
      hash: K -> nat, eq: (K, K) -> bool, keySize: nat, valueSize: nat, hint: nat, gotMemory: bool)
    returns (rc: Status, m: HashMap?<K, V>, ghost cap: nat)
    requires LawfulKeys(hash, eq) && hint < WORD && keySize + 15 < WORD && valueSize + 15 < WORD
    ensures rc == INVALID_ARGUMENT <==> keySize == 0 || valueSize == 0
    ensures m == null <==> rc == INVALID_ARGUMENT
    ensures m != null ==>
              && fresh(m) && fresh(m.control) && fresh(m.keys) && fresh(m.values)
              && m.Valid() && m.model == map[]
              && m.c == Config(hash, eq, RoundUp(keySize, 16), RoundUp(valueSize, 16))
              && (if hint == 0 then cap == 0 else IsRoundedCapacity(MIN_CAPACITY, hint, cap))
              && m.capacity == (if rc == OK then cap else 0)
              && (rc == OVERFLOW <==> cap * m.c.keyStride >= WORD || cap * m.c.valueStride >= WORD)
              && (rc == OUT_OF_MEMORY <==> rc != OVERFLOW && hint > 0 && !gotMemory)
  {
    m, cap := null, 0;
    if keySize == 0 || valueSize == 0 {
      return INVALID_ARGUMENT, m, cap;
    }
    StrideUsableIffNoWrap(keySize);
    StrideUsableIffNoWrap(valueSize);
    m := new HashMap(Config(hash, eq, RoundUp(keySize, 16), RoundUp(valueSize, 16)));
    rc, cap := m.InitCapacity(hint, gotMemory);
  }

  // Init rounds key and value sizes up to the alignment without checking the sum; the strides are
  // usable exactly for sizes whose rounding does not wrap (beyond that the stride is zero, and
  // resize would divide by it).
  lemma StrideUsableIffNoWrap(size: nat)
    requires 0 < size < WORD
    ensures RoundUp(size, 16) >= 8 <==> size + 15 < WORD
    ensures size + 15 >= WORD ==> RoundUp(size, 16) == 0
  {
    assert Pow2(4) == 16;
    RoundUpExact(size, 4);
    RoundedIsLeast(size, 16);
  }

  lemma TombstoneCounted<K, V>(t: Table<K, V>, i: nat)
    requires Counted(t) && i < |t.slots| && t.slots[i].Deleted?
    ensures t.tombstones > 0
  {
    SumMember(t.slots, DeletedWeight, i);
  }
}
