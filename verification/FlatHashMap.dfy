/** The open-addressing hash map with tombstones. The entry array denotes a finite
    map; the probe path of every stored key has no empty slot on it. */
module FlatHashMap {
  import opened AlignUp
  import opened Bits
  import opened Defs

  datatype Entry<K, V> = Empty | Deleted | Used(hash: nat, key: K, value: V)

  // ---------------------------------------------------------------- probe paths

  // hash & (capacity - 1), capacity being a power of two
  function Home(hash: nat, cap: nat): (p: nat)
    requires cap > 0
    ensures p < cap
  {
    hash % cap
  }

  // The slot `i` steps after `home`, cyclically.
  function Slot(home: nat, i: nat, cap: nat): (p: nat)
    requires home < cap && i < cap
    ensures p < cap
  {
    if home + i < cap then home + i else home + i - cap
  }

  // How many steps after `home` the slot `p` lies.
  function Dist(home: nat, p: nat, cap: nat): (i: nat)
    requires home < cap && p < cap
    ensures i < cap && Slot(home, i, cap) == p
  {
    if home <= p then p - home else p + cap - home
  }

  // No empty slot among the first `n` of the path from `home`.
  ghost predicate NoEmpty<K, V>(s: seq<Entry<K, V>>, home: nat, n: nat) {
    home < |s| && n <= |s| && forall i: nat :: i < n ==> !s[Slot(home, i, |s|)].Empty?
  }

  // Every stored entry can be reached from its home slot, and carries its key's hash.
  ghost predicate Reachable<K, V>(s: seq<Entry<K, V>>, hash: K -> nat) {
    |s| > 0 && forall p: nat :: p < |s| && s[p].Used? ==>
      s[p].hash == hash(s[p].key) && NoEmpty(s, Home(s[p].hash, |s|), Dist(Home(s[p].hash, |s|), p, |s|))
  }

  // ---------------------------------------------------------------- what a table holds

  // The stored entries, with multiplicity.
  ghost function Bag<K, V>(s: seq<Entry<K, V>>): multiset<Entry<K, V>> {
    if s == [] then multiset{}
    else Bag(s[..|s| - 1]) + One(s[|s| - 1])
  }

  ghost function Tombs<K, V>(s: seq<Entry<K, V>>): nat {
    if s == [] then 0
    else Tombs(s[..|s| - 1]) + if s[|s| - 1].Deleted? then 1 else 0
  }

  ghost function One<K, V>(e: Entry<K, V>): multiset<Entry<K, V>> {
    if e.Used? then multiset{e} else multiset{}
  }

  lemma Exchange<T>(x: multiset<T>, y: multiset<T>, a: multiset<T>, b: multiset<T>, c: multiset<T>)
    requires x + a == y + b
    ensures x + c + a == y + c + b
  {
    assert x + c + a == x + a + c && y + c + b == y + b + c;
  }

  lemma {:induction false} BagUpdate<K, V>(s: seq<Entry<K, V>>, p: nat, e: Entry<K, V>)
    requires p < |s|
    ensures Bag(s[p := e]) + One(s[p]) == Bag(s) + One(e)
    ensures Tombs(s[p := e]) + (if s[p].Deleted? then 1 else 0) == Tombs(s) + (if e.Deleted? then 1 else 0)
    decreases |s|
  {
    hide Bag, Tombs;
    var n := |s| - 1;
    LastEntry(s);
    LastEntry(s[p := e]);
    if p < n {
      BagUpdate(s[..n], p, e);
      assert s[p := e][..n] == s[..n][p := e];
      Exchange(Bag(s[..n][p := e]), Bag(s[..n]), One(s[p]), One(e), One(s[n]));
    } else {
      assert s[p := e][..n] == s[..n];
      SwapLast(Bag(s[..n]), One(e), One(s[n]));
    }
  }

  lemma SwapLast<T>(a: multiset<T>, b: multiset<T>, c: multiset<T>)
    ensures a + b + c == a + c + b
  {
  }

  lemma LastEntry<K, V>(s: seq<Entry<K, V>>)
    requires s != []
    ensures Bag(s) == Bag(s[..|s| - 1]) + One(s[|s| - 1])
    ensures Tombs(s) == Tombs(s[..|s| - 1]) + if s[|s| - 1].Deleted? then 1 else 0
  {
  }

  lemma Cancel<T>(x: multiset<T>, y: multiset<T>, a: multiset<T>)
    requires x + a == y + a
    ensures x == y
  {
    forall t ensures x[t] == y[t] { assert (x + a)[t] == (y + a)[t]; }
  }

  // The same update, in numbers.
  lemma CountUpdate<K, V>(s: seq<Entry<K, V>>, p: nat, e: Entry<K, V>)
    requires p < |s|
    ensures |Bag(s[p := e])| == |Bag(s)| - (if s[p].Used? then 1 else 0) + (if e.Used? then 1 else 0)
    ensures s[p].Used? ==> |Bag(s)| > 0
    ensures s[p].Deleted? ==> Tombs(s) > 0
    ensures s[p].Empty? ==> |Bag(s)| + Tombs(s) < |s|
  {
    hide Bag, Tombs;
    BagUpdate(s, p, e);
    assert |Bag(s[p := e]) + One(s[p])| == |Bag(s[p := e])| + |One(s[p])|;
    assert |Bag(s) + One(e)| == |Bag(s)| + |One(e)|;
    if s[p].Used? { BagAt(s, s[p]); }
    if s[p].Deleted? { BagUpdate(s, p, Empty); }
    if s[p].Empty? { EmptyRoom(s, p); }
  }

  lemma EmptyRoom<K, V>(s: seq<Entry<K, V>>, p: nat)
    requires p < |s| && s[p].Empty?
    ensures |Bag(s)| + Tombs(s) < |s|
  {
    hide Bag, Tombs;
    BagUpdate(s, p, Deleted);
    BagSize(s[p := Deleted]);
    Cancel(Bag(s[p := Deleted]), Bag(s), multiset{});
  }

  lemma {:induction false} BagSize<K, V>(s: seq<Entry<K, V>>)
    ensures |Bag(s)| + Tombs(s) <= |s|
    decreases |s|
  {
    if s != [] { BagSize(s[..|s| - 1]); }
  }

  lemma {:induction false} SomeEmpty<K, V>(s: seq<Entry<K, V>>) returns (p: nat)
    requires |Bag(s)| + Tombs(s) < |s|
    ensures p < |s| && s[p].Empty?
    decreases |s|
  {
    p := |s| - 1;
    if !s[p].Empty? { p := SomeEmpty(s[..p]); }
  }

  lemma {:induction false} SomeFree<K, V>(s: seq<Entry<K, V>>) returns (p: nat)
    requires |Bag(s)| < |s|
    ensures p < |s| && !s[p].Used?
    decreases |s|
  {
    p := |s| - 1;
    if s[p].Used? { p := SomeFree(s[..p]); }
  }

  lemma {:induction false} BagHas<K, V>(s: seq<Entry<K, V>>, e: Entry<K, V>)
    ensures e in Bag(s) <==> e.Used? && e in s
    decreases |s|
  {
    if s != [] {
      var n := |s| - 1;
      BagHas(s[..n], e);
      assert s == s[..n] + [s[n]];
    }
  }

  lemma BagAt<K, V>(s: seq<Entry<K, V>>, e: Entry<K, V>)
    ensures e in Bag(s) <==> e.Used? && exists p: nat :: p < |s| && s[p] == e
  {
    hide Bag;
    BagHas(s, e);
  }

  // The entries of a finite map: one per key.
  ghost function BagOf<K, V>(m: map<K, V>, hash: K -> nat): multiset<Entry<K, V>> {
    multiset(set k <- m.Keys :: Used(hash(k), k, m[k]))
  }

  lemma BagOfHas<K, V>(m: map<K, V>, hash: K -> nat, e: Entry<K, V>)
    ensures e in BagOf(m, hash) <==> e.Used? && e.key in m && e.hash == hash(e.key) && e.value == m[e.key]
  {
    if e.Used? && e.key in m && e.hash == hash(e.key) && e.value == m[e.key] {
      assert e == Used(hash(e.key), e.key, m[e.key]);
    }
  }

  lemma BagOfAdd<K, V>(m: map<K, V>, hash: K -> nat, k: K, v: V)
    requires k !in m
    ensures BagOf(m[k := v], hash) == BagOf(m, hash) + multiset{Used(hash(k), k, v)}
  {
    var a, b := set x <- m.Keys :: Used(hash(x), x, m[x]), set x <- m[k := v].Keys :: Used(hash(x), x, m[k := v][x]);
    var e := Used(hash(k), k, v);
    assert e !in a;
    assert k in m[k := v] && m[k := v][k] == v;
    forall y | y in a ensures y in b {
      assert y.key in m[k := v] && m[k := v][y.key] == m[y.key];
    }
    assert b == a + {e};
  }

  lemma BagOfRemove<K, V>(m: map<K, V>, hash: K -> nat, k: K)
    requires k in m
    ensures BagOf(m, hash) == BagOf(m - {k}, hash) + multiset{Used(hash(k), k, m[k])}
  {
    BagOfAdd(m - {k}, hash, k, m[k]);
    assert (m - {k})[k := m[k]] == m;
  }

  // No table of two entries with one key denotes a map.
  lemma TwoEntries<K, V>(m: map<K, V>, hash: K -> nat, b: multiset<Entry<K, V>>, e: Entry<K, V>, e': Entry<K, V>)
    requires e.Used? && e'.Used? && e.key == e'.key && b[e] > 0 && (if e == e' then b[e] > 1 else b[e'] > 0)
    ensures b != BagOf(m, hash)
  {
    BagOfHas(m, hash, e);
    BagOfHas(m, hash, e');
  }

  // ---------------------------------------------------------------- steps on entry sequences

  // Writing a used entry into the first slot of its path that is not used.
  lemma PutReachable<K, V>(s: seq<Entry<K, V>>, hash: K -> nat, e: Entry<K, V>, i: nat)
    requires Reachable(s, hash) && e.Used? && e.hash == hash(e.key) && i < |s|
    requires NoEmpty(s, Home(e.hash, |s|), i)
    ensures Reachable(s[Slot(Home(e.hash, |s|), i, |s|) := e], hash)
  {
  }

  // Turning an entry into a tombstone.
  lemma KillReachable<K, V>(s: seq<Entry<K, V>>, hash: K -> nat, p: nat)
    requires Reachable(s, hash) && p < |s|
    ensures Reachable(s[p := Deleted], hash)
  {
  }

  // A key that is stored, but with a slot that is not used before it on its path.
  ghost predicate Hidden<K, V>(s: seq<Entry<K, V>>, hash: K -> nat, key: K)
    requires |s| > 0
  {
    var home := Home(hash(key), |s|);
    && (exists p: nat :: p < |s| && s[p].Used? && s[p].key == key)
    && forall i: nat :: i < |s| && s[Slot(home, i, |s|)].Used? && s[Slot(home, i, |s|)].key == key ==>
         exists j: nat :: j < i && !s[Slot(home, j, |s|)].Used?
  }

  lemma NextSlot(home: nat, i: nat, cap: nat)
    requires IsPow2(cap) && home < cap && i < cap
    ensures And(Slot(home, i, cap) + 1, cap - 1) == if i + 1 < cap then Slot(home, i + 1, cap) else home
  {
    var p := Slot(home, i, cap);
    AndMask(p + 1, cap);
    if p + 1 == cap { ModUnique(p + 1, cap, 1, 0); } else { ModUnique(p + 1, cap, 0, p + 1); }
  }

  lemma HomeSlot(hash: nat, cap: nat)
    requires IsPow2(cap)
    ensures cap > 0 && And(hash, cap - 1) == Home(hash, cap) == Slot(Home(hash, cap), 0, cap)
  {
    AndMask(hash, cap);
  }

  lemma HashOfKey<K, V>(s: seq<Entry<K, V>>, hash: K -> nat, p: nat)
    requires Reachable(s, hash) && p < |s|
    ensures s[p].Used? ==> s[p].hash == hash(s[p].key)
  {
  }

  // Neither test of handle_rehash applies to these counts.
  predicate Calm(used: nat, deleted: nat, cap: nat) {
    cap > 0 && (used + deleted) * 100 / cap <= 75 && FewTombs(used, deleted)
  }

  // Above three quarters the table doubles, and above one quarter of tombstones it is
  // cleaned; both leave no tombstone.
  ghost predicate Rehashed(used: nat, deleted: nat, cap: nat, deleted': nat, cap': nat) {
    && cap > 0 && used + deleted > 0
    && cap' == (if (used + deleted) * 100 / cap > 75 then 2 * cap else cap)
    && deleted' ==
         if (used + deleted) * 100 / cap > 75 || deleted * 100 / (used + deleted) > 25 then 0 else deleted
  }

  // At most a quarter of the slots in use are tombstones.
  predicate FewTombs(used: nat, deleted: nat) {
    used + deleted == 0 || deleted * 100 / (used + deleted) <= 25
  }

  // Slot number `i` of the path from `home` is the first that is not used.
  ghost predicate FirstFree<K, V>(s: seq<Entry<K, V>>, home: nat, i: nat) {
    && i < |s| && home < |s| && !s[Slot(home, i, |s|)].Used?
    && forall j: nat :: j < i ==> s[Slot(home, j, |s|)].Used?
  }

  lemma FirstFreeUnique<K, V>(s: seq<Entry<K, V>>, home: nat, i: nat, j: nat)
    requires FirstFree(s, home, i) && FirstFree(s, home, j)
    ensures i == j
  {
  }

  // ---------------------------------------------------------------- runs over the finite map

  datatype Op<K, V> = GetOp(key: K) | DeleteOp(key: K) | InsertOp(key: K, value: V)

  ghost function StepModel<K, V>(m: map<K, V>, op: Op<K, V>): map<K, V> {
    match op
    case GetOp(_) => m
    case DeleteOp(k) => m - {k}
    case InsertOp(k, v) => if k in m then m else m[k := v]
  }

  ghost function RunModel<K, V>(m: map<K, V>, ops: seq<Op<K, V>>): map<K, V> {
    if ops == [] then m else StepModel(RunModel(m, ops[..|ops| - 1]), ops[|ops| - 1])
  }

  // Each call answers with what the map holds under the key at that moment.
  ghost function RunOuts<K, V>(m: map<K, V>, ops: seq<Op<K, V>>): seq<Option<V>> {
    if ops == [] then []
    else
      var before, op := RunModel(m, ops[..|ops| - 1]), ops[|ops| - 1];
      RunOuts(m, ops[..|ops| - 1]) + [if op.key in before then Some(before[op.key]) else None]
  }

  lemma RunStep<K, V>(m: map<K, V>, ops: seq<Op<K, V>>, i: nat)
    requires i < |ops|
    ensures RunModel(m, ops[..i + 1]) == StepModel(RunModel(m, ops[..i]), ops[i])
    ensures
      var before := RunModel(m, ops[..i]);
      RunOuts(m, ops[..i + 1]) ==
        RunOuts(m, ops[..i]) + [if ops[i].key in before then Some(before[ops[i].key]) else None]
  {
    assert ops[..i + 1][..i] == ops[..i];
  }

  // ---------------------------------------------------------------- the map object

  // find_free_slot: the first slot of the path that is not used; `q` is some such slot.
  method FindFreeSlot<K, V>(entries: array<Entry<K, V>>, capacity: nat, hash: nat, ghost q: nat)
    returns (pos: nat, ghost i: nat)
    requires capacity == entries.Length && IsPow2(capacity) && q < capacity && !entries[q].Used?
    ensures i < capacity && pos == Slot(Home(hash, capacity), i, capacity) && !entries[pos].Used?
    ensures forall j: nat :: j < i ==> entries[Slot(Home(hash, capacity), j, capacity)].Used?
  {
    hide And, Slot, Home, Dist, IsPow2;
    HomeSlot(hash, capacity);
    pos := And(hash, capacity - 1);
    ghost var home := Home(hash, capacity);
    i := 0;
    while entries[pos].Used?
      invariant i < capacity && pos == Slot(home, i, capacity) && i <= Dist(home, q, capacity)
      invariant forall j: nat :: j < i ==> entries[Slot(home, j, capacity)].Used?
      decreases capacity - i
    {
      assert i != Dist(home, q, capacity);
      NextSlot(home, i, capacity);
      pos := And(pos + 1, capacity - 1);
      i := i + 1;
    }
  }

  class FlatHashMap<K(==), V> {
    var entries: array<Entry<K, V>>
    var emptyCount: nat
    var usedCount: nat
    var deleteCount: nat
    var capacity: nat
    const hash: K -> nat
    ghost var model: map<K, V>

    // The entry array alone: reachable entries and exact counters. `emptyCount` may be 0.
    ghost predicate Table()
      reads this, entries
    {
      && capacity == entries.Length && capacity >= 4 && IsPow2(capacity) && Reachable(entries[..], hash)
      && usedCount == |Bag(entries[..])| && deleteCount == Tombs(entries[..])
      && usedCount + deleteCount + emptyCount == capacity
    }

    // The array denotes `model`, at least one slot is empty, and tombstones are few.
    ghost predicate Valid()
      reads this, entries
    {
      Table() && emptyCount > 0 && FewTombs(usedCount, deleteCount) && Bag(entries[..]) == BagOf(model, hash)
    }

    // find_exact_entry; null is None.
    method FindExact(key: K) returns (r: Option<nat>)
      requires Table() && emptyCount > 0
      ensures r.Some? ==> r.value < entries.Length && entries[r.value].Used? && entries[r.value].key == key
      ensures r.None? ==> forall p: nat :: p < entries.Length && entries[p].Used? ==> entries[p].key != key
    {
      hide Bag, Tombs, Reachable, IsPow2, And, Slot, Home, Dist;
      var h := hash(key);
      ghost var home, s := Home(h, capacity), entries[..];
      ghost var q := SomeEmpty(s);
      HomeSlot(h, capacity);
      var pos := And(h, capacity - 1);
      ghost var i: nat := 0;
      while true
        invariant i < capacity && pos == Slot(home, i, capacity) && i <= Dist(home, q, capacity)
        invariant forall j: nat :: j < i ==> !s[Slot(home, j, capacity)].Empty?
        invariant forall j: nat :: j < i ==> var e := s[Slot(home, j, capacity)]; !(e.Used? && e.key == key)
        decreases capacity - i
      {
        HashOfKey(s, hash, pos);
        if entries[pos].Empty? {
          MissAtEmpty(s, hash, key, i);
          return None;
        }
        if entries[pos].Used? && entries[pos].hash == h && entries[pos].key == key {
          return Some(pos);
        }
        assert i != Dist(home, q, capacity);
        NextSlot(home, i, capacity);
        pos := And(pos + 1, capacity - 1);
        i := i + 1;
      }
    }

    // fhashmap_get_data
    method Get(key: K) returns (r: Option<V>)
      requires Valid()
      ensures r == if key in model then Some(model[key]) else None
    {
      var p := FindExact(key);
      ModelEntry(key);
      match p {
        case Some(pos) =>
          BagAt(entries[..], entries[pos]);
          BagOfHas(model, hash, entries[pos]);
          r := Some(entries[pos].value);
        case None => r := None;
      }
    }

    // A key of the model sits somewhere in the array.
    lemma ModelEntry(key: K)
      requires Valid()
      ensures key in model ==> exists p: nat :: p < entries.Length && entries[p] == Used(hash(key), key, model[key])
    {
      if key in model {
        var e := Used(hash(key), key, model[key]);
        BagOfHas(model, hash, e);
        BagAt(entries[..], e);
      }
    }

    // rehash into a fresh array of `newCapacity` slots
    method Rehash(newCapacity: nat)
      requires Table() && IsPow2(newCapacity) && newCapacity >= capacity && usedCount < newCapacity
      modifies this
      ensures Table() && fresh(entries) && capacity == newCapacity && deleteCount == 0 && usedCount == old(usedCount)
      ensures emptyCount == newCapacity - usedCount && model == old(model)
      ensures Bag(entries[..]) == old(Bag(entries[..]))
    {
      hide Bag, Tombs, Reachable, IsPow2, NoEmpty;
      var newEntries := new Entry<K, V>[newCapacity](_ => Empty);
      AllEmpty(newEntries[..], hash);
      ghost var s := entries[..];
      var pos, curUsed := 0, 0;
      assert s[..0] == [];
      EmptyBag<K, V>();
      while pos < capacity && curUsed < usedCount
        modifies newEntries
        invariant pos <= capacity == |s| && curUsed == |Bag(s[..pos])| && curUsed <= usedCount
        invariant newEntries.Length == newCapacity && Reachable(newEntries[..], hash)
        invariant Bag(newEntries[..]) == Bag(s[..pos]) && Tombs(newEntries[..]) == 0
        invariant Table() && entries[..] == s
        decreases capacity - pos
      {
        BagStep(s, pos);
        BagGrows(s, pos + 1);
        if entries[pos].Used? {
          HashOfKey(s, hash, pos);
          curUsed := curUsed + 1;
          CopyEntry(newEntries, entries[pos]);
        }
        pos := pos + 1;
      }
      BagRest(s, pos);
      deleteCount := 0;
      emptyCount := newCapacity - usedCount;
      capacity := newCapacity;
      entries := newEntries;
    }

    // One entry moved into the first free slot of the new array.
    method CopyEntry(newEntries: array<Entry<K, V>>, e: Entry<K, V>)
      requires IsPow2(newEntries.Length) && Reachable(newEntries[..], hash) && |Bag(newEntries[..])| < newEntries.Length
      requires e.Used? && e.hash == hash(e.key)
      modifies newEntries
      ensures Reachable(newEntries[..], hash) && Bag(newEntries[..]) == old(Bag(newEntries[..])) + multiset{e}
      ensures Tombs(newEntries[..]) <= old(Tombs(newEntries[..]))
    {
      hide Bag, Tombs, Reachable, IsPow2, Slot, Home;
      ghost var s := newEntries[..];
      ghost var q := SomeFree(s);
      var p;
      ghost var i;
      p, i := FindFreeSlot(newEntries, newEntries.Length, e.hash, q);
      PutReachable(s, hash, e, i);
      BagUpdate(s, p, e);
      newEntries[p] := e;
      assert newEntries[..] == s[p := e];
    }

    // handle_rehash: grow above 75% of used and deleted slots, else clean above 25% of tombstones.
    method HandleRehash()
      requires Table() && usedCount + deleteCount > 0
      modifies this
      ensures Table() && emptyCount > 0 && (entries == old(entries) || fresh(entries)) && model == old(model)
      ensures Bag(entries[..]) == old(Bag(entries[..])) && FewTombs(usedCount, deleteCount)
      ensures old(Calm(usedCount, deleteCount, capacity)) ==>
        && entries == old(entries) && usedCount == old(usedCount) && deleteCount == old(deleteCount)
        && capacity == old(capacity)
      ensures usedCount == old(usedCount)
      ensures Rehashed(old(usedCount), old(deleteCount), old(capacity), deleteCount, capacity)
    {
      hide Bag, Tombs, Reachable, IsPow2;
      LoadFactor(usedCount + deleteCount, capacity);
      if (usedCount + deleteCount) * 100 / capacity > 75 {
        IsPow2Double(capacity);
        Rehash(capacity * 2);
      } else if deleteCount * 100 / (usedCount + deleteCount) > 25 {
        Rehash(capacity);
      }
    }

    // find_exact_entry_interval from the home slot to the first slot that is not used.
    method FindBefore(key: K, ghost n: nat, to: nat) returns (r: Option<nat>)
      requires Table() && n < capacity && to == Slot(Home(hash(key), capacity), n, capacity)
      requires forall j: nat :: j < n ==> entries[Slot(Home(hash(key), capacity), j, capacity)].Used?
      ensures r.Some? ==> exists j: nat :: j < n && r.value == Slot(Home(hash(key), capacity), j, capacity)
      ensures r.Some? ==> r.value < entries.Length && entries[r.value].Used? && entries[r.value].key == key
      ensures r.None? ==> forall j: nat :: j < n ==> entries[Slot(Home(hash(key), capacity), j, capacity)].key != key
    {
      hide Bag, Tombs, Reachable, IsPow2, And, Slot, Home, Dist;
      var h := hash(key);
      ghost var home, s := Home(h, capacity), entries[..];
      HomeSlot(h, capacity);
      var cur := And(h, capacity - 1);
      ghost var i: nat := 0;
      while cur != to
        invariant i <= n && cur == Slot(home, i, capacity)
        invariant forall j: nat :: j < i ==> s[Slot(home, j, capacity)].key != key
        decreases n - i
      {
        assert i < n && s[Slot(home, i, capacity)].Used?;
        HashOfKey(s, hash, cur);
        if entries[cur].Empty? {
          return None;
        }
        if entries[cur].Used? && entries[cur].hash == h && entries[cur].key == key {
          return Some(cur);
        }
        NextSlot(home, i, capacity);
        cur := And(cur + 1, capacity - 1);
        i := i + 1;
      }
      SlotInjective(home, i, n, capacity);
      return None;
    }

    // Stores `e` in slot number `i` of its path, with the counter updates of fhashmap_insert.
    method Store(pos: nat, e: Entry<K, V>, ghost i: nat)
      requires Table() && e.Used? && e.hash == hash(e.key) && i < capacity
      requires pos == Slot(Home(e.hash, capacity), i, capacity)
      requires NoEmpty(entries[..], Home(e.hash, capacity), i)
      modifies this, entries
      ensures Table() && entries == old(entries) && model == old(model) && usedCount > 0 && capacity == old(capacity)
      ensures pos < entries.Length && entries[..] == old(entries[..])[pos := e]
      ensures usedCount == old(usedCount) + (if old(entries[pos]).Used? then 0 else 1)
      ensures deleteCount == old(deleteCount) - (if old(entries[pos]).Deleted? then 1 else 0)
      ensures Bag(entries[..]) + old(One(entries[pos])) == old(Bag(entries[..])) + multiset{e}
    {
      hide Bag, Tombs, Reachable, IsPow2, Slot, Home, NoEmpty;
      ghost var s := entries[..];
      PutReachable(s, hash, e, i);
      BagUpdate(s, pos, e);
      CountUpdate(s, pos, e);
      if entries[pos].Used? {
        // the slot of the overwritten key is emptied first
        entries[pos] := Empty;
        usedCount := usedCount - 1;
        emptyCount := emptyCount + 1;
      }
      usedCount := usedCount + 1;
      if entries[pos].Empty? {
        emptyCount := emptyCount - 1;
      } else if entries[pos].Deleted? {
        deleteCount := deleteCount - 1;
      }
      entries[pos] := e;
      assert entries[..] == s[pos := e];
    }

    // fhashmap_insert. A stored key is noticed exactly when every slot before it on its path is used.
    method Insert(key: K, value: V, overwrite: bool) returns (r: int)
      requires Valid()
      modifies this, entries
      ensures Table() && emptyCount > 0 && FewTombs(usedCount, deleteCount)
      ensures (entries == old(entries) || fresh(entries))
      ensures r == if key in old(model) && !old(Hidden(entries[..], hash, key)) && !overwrite then -1 else 0
      ensures r == -1 ==> Valid() && model == old(model)
      ensures r == 0 && !old(Hidden(entries[..], hash, key)) ==> Valid() && model == old(model)[key := value]
      ensures old(Hidden(entries[..], hash, key)) ==>
        Bag(entries[..]) == BagOf(old(model), hash) + multiset{Used(hash(key), key, value)}
      // Where a key that is absent or hidden goes, when the table stays as it is.
      ensures key !in old(model) || old(Hidden(entries[..], hash, key)) ==>
        forall i: nat :: FirstFree(old(entries[..]), Home(hash(key), old(capacity)), i) ==>
          var p := Slot(Home(hash(key), old(capacity)), i, old(capacity));
          var tombs := old(deleteCount) - (if old(entries[..])[p].Deleted? then 1 else 0);
          tombs >= 0 && (Calm(old(usedCount) + 1, tombs, old(capacity)) ==>
            && entries[..] == old(entries[..])[p := Used(hash(key), key, value)]
            && usedCount == old(usedCount) + 1 && deleteCount == tombs && capacity == old(capacity))
    {
      hide Bag, Tombs, Reachable, IsPow2, Slot, Home, Hidden, BagOf, And, Calm, FewTombs;
      var h := hash(key);
      ghost var s, m := entries[..], model;
      BagSize(s);
      ghost var q := SomeFree(s);
      var pos;
      ghost var i;
      pos, i := FindFreeSlot(entries, capacity, h, q);
      var same := FindBefore(key, i, pos);
      var e := Used(h, key, value);
      KeyInModel(key);
      HiddenIff(s, hash, key, i);
      if same.Some? {
        if !overwrite {
          return -1;
        }
        ghost var j: nat :| j < i && same.value == Slot(Home(h, capacity), j, capacity);
        OldEntry(s[same.value]);
        BagOfOverwrite(m, hash, key, value);
        Store(same.value, e, j);
        Cancel(Bag(entries[..]), BagOf(m[key := value], hash), multiset{s[same.value]});
        HandleRehash();
        model := m[key := value];
      } else {
        assert FirstFree(s, Home(h, capacity), i);
        forall j: nat | FirstFree(s, Home(h, capacity), j) ensures j == i {
          FirstFreeUnique(s, Home(h, capacity), i, j);
        }
        Append(pos, e, i);
      }
      r := 0;
    }

    // The end of fhashmap_insert for a key that was not noticed: `e` goes into the first
    // slot of its path that is not used.
    method Append(pos: nat, e: Entry<K, V>, ghost i: nat)
      requires Valid() && e.Used? && e.hash == hash(e.key) && FirstFree(entries[..], Home(e.hash, capacity), i)
      requires pos == Slot(Home(e.hash, capacity), i, capacity)
      modifies this, entries
      ensures Table() && emptyCount > 0 && FewTombs(usedCount, deleteCount)
      ensures (entries == old(entries) || fresh(entries))
      ensures Bag(entries[..]) == BagOf(old(model), hash) + multiset{e}
      ensures e.key !in old(model) ==> Valid() && model == old(model)[e.key := e.value]
      ensures
        var tombs := old(deleteCount) - (if old(entries[..])[pos].Deleted? then 1 else 0);
        tombs >= 0 && (Calm(old(usedCount) + 1, tombs, old(capacity)) ==>
          && entries[..] == old(entries[..])[pos := e] && usedCount == old(usedCount) + 1 && deleteCount == tombs
          && capacity == old(capacity))
    {
      hide Bag, Tombs, Reachable, IsPow2, Slot, Home, BagOf, Calm, FewTombs;
      ghost var m := model;
      Store(pos, e, i);
      HandleRehash();
      if e.key !in m {
        BagOfAdd(m, hash, e.key, e.value);
        model := m[e.key := e.value];
      }
    }

    lemma KeyInModel(key: K)
      requires Valid()
      ensures key in model <==> exists p: nat :: p < entries.Length && entries[p].Used? && entries[p].key == key
    {
      ModelEntry(key);
      forall p: nat | p < entries.Length && entries[p].Used? && entries[p].key == key ensures key in model {
        OldEntry(entries[p]);
      }
    }

    lemma OldEntry(e: Entry<K, V>)
      requires Valid() && e.Used? && exists p: nat :: p < entries.Length && entries[..][p] == e
      ensures e.key in model && e == Used(hash(e.key), e.key, model[e.key])
    {
      BagAt(entries[..], e);
      BagOfHas(model, hash, e);
    }

    // fhashmap_delete
    method Delete(key: K) returns (r: Option<V>)
      requires Valid()
      modifies this, entries
      ensures Valid() && (entries == old(entries) || fresh(entries))
      ensures r == if key in old(model) then Some(old(model)[key]) else None
      ensures model == old(model) - {key}
      // The slot of the key becomes a tombstone, when the table stays as it is.
      ensures key in old(model) ==> old(usedCount) > 0
      ensures key in old(model) && Calm(old(usedCount) - 1, old(deleteCount) + 1, old(capacity)) ==>
        && usedCount == old(usedCount) - 1 && deleteCount == old(deleteCount) + 1 && capacity == old(capacity)
        && exists p: nat ::
             && p < |old(entries[..])| && old(entries[..])[p] == Used(hash(key), key, old(model)[key])
             && entries[..] == old(entries[..])[p := Deleted]
    {
      hide Bag, Tombs, Reachable, IsPow2, BagOf, FewTombs, Calm;
      var found := FindExact(key);
      KeyInModel(key);
      match found {
        case None =>
          assert model - {key} == model;
          return None;
        case Some(p) =>
          OldEntry(entries[..][p]);
          r := Some(entries[p].value);
          Kill(p);
      }
    }

    // The end of fhashmap_delete: slot `p` becomes a tombstone.
    method Kill(p: nat)
      requires Valid() && p < entries.Length && entries[p].Used? && entries[p].key in model
      requires entries[p] == Used(hash(entries[p].key), entries[p].key, model[entries[p].key])
      modifies this, entries
      ensures Valid() && (entries == old(entries) || fresh(entries)) && model == old(model) - {old(entries[p]).key}
      ensures old(usedCount) > 0
      ensures Calm(old(usedCount) - 1, old(deleteCount) + 1, old(capacity)) ==>
        && usedCount == old(usedCount) - 1 && deleteCount == old(deleteCount) + 1 && capacity == old(capacity)
        && entries[..] == old(entries[..])[p := Deleted]
    {
      hide Bag, Tombs, Reachable, IsPow2, BagOf, FewTombs, Calm;
      ghost var s, m, e := entries[..], model, entries[p];
      KillReachable(s, hash, p);
      BagUpdate(s, p, Deleted);
      BagOfRemove(m, hash, e.key);
      entries[p] := Deleted;
      assert entries[..] == s[p := Deleted];
      CountUpdate(s, p, Deleted);
      Cancel(Bag(entries[..]), BagOf(m - {e.key}, hash), multiset{e});
      deleteCount := deleteCount + 1;
      usedCount := usedCount - 1;
      HandleRehash();
      model := m - {e.key};
    }

    // init_fhashmap_custom; the capacity is rounded as a 32-bit number, and the code
    // asserts that it can be.
    constructor (capacity: nat, hash: K -> nat)
      requires capacity % TWO_32 <= 0x8000_0000
      ensures Valid() && model == map[] && fresh(entries) && this.hash == hash
      ensures this.capacity == Max(AlignUpPow2(capacity % TWO_32), 4) && usedCount == deleteCount == 0
      ensures entries.Length == this.capacity && forall p :: 0 <= p < entries.Length ==> entries[p].Empty?
    {
      hide AlignUpPow2, IsPow2, Bag, Tombs, Reachable, BagOf;
      Rounded(capacity % TWO_32);
      var cap := Max(AlignUpPow2(capacity % TWO_32), 4);
      var es := new Entry<K, V>[cap](_ => Empty);
      AllEmpty(es[..], hash);
      EmptyModel<K, V>(hash);
      this.entries := es;
      this.capacity, emptyCount, usedCount, deleteCount := cap, cap, 0, 0;
      this.hash := hash;
      model := map[];
    }

    // Any sequence of calls in which a key is looked up before it is inserted
    // behaves as the finite map does.
    method Run(ops: seq<Op<K, V>>) returns (outs: seq<Option<V>>)
      requires Valid()
      modifies this, entries
      ensures Valid() && (entries == old(entries) || fresh(entries))
      ensures model == RunModel(old(model), ops) && outs == RunOuts(old(model), ops)
    {
      hide Table, BagOf, Bag, Hidden;
      outs := [];
      for i := 0 to |ops|
        invariant Valid() && (entries == old(entries) || fresh(entries)) && |outs| == i
        invariant model == RunModel(old(model), ops[..i]) && outs == RunOuts(old(model), ops[..i])
      {
        RunStep(old(model), ops, i);
        var out: Option<V>;
        match ops[i] {
          case GetOp(k) => out := Get(k);
          case DeleteOp(k) => out := Delete(k);
          case InsertOp(k, v) =>
            out := Get(k);
            if out.None? {
              AbsentNotHidden(k);
              var r := Insert(k, v, false);
            }
        }
        outs := outs + [out];
      }
      assert ops[..|ops|] == ops;
    }

    lemma AbsentNotHidden(key: K)
      requires Valid() && key !in model
      ensures !Hidden(entries[..], hash, key)
    {
      KeyInModel(key);
    }
  }

  // A probe that meets an empty slot before the key proves the key absent.
  lemma MissAtEmpty<K, V>(s: seq<Entry<K, V>>, hash: K -> nat, key: K, i: nat)
    requires Reachable(s, hash) && i < |s|
    requires s[Slot(Home(hash(key), |s|), i, |s|)].Empty?
    requires forall j: nat :: j < i ==> var e := s[Slot(Home(hash(key), |s|), j, |s|)]; !(e.Used? && e.key == key)
    ensures forall p: nat :: p < |s| && s[p].Used? ==> s[p].key != key
  {
    forall p: nat | p < |s| && s[p].Used? ensures s[p].key != key {
      var d := Dist(Home(s[p].hash, |s|), p, |s|);
      assert NoEmpty(s, Home(s[p].hash, |s|), d) && s[Slot(Home(s[p].hash, |s|), d, |s|)] == s[p];
    }
  }

  lemma SlotInjective(home: nat, i: nat, j: nat, cap: nat)
    requires home < cap && i < cap && j < cap && Slot(home, i, cap) == Slot(home, j, cap)
    ensures i == j
  {
  }

  lemma {:induction false} AllEmpty<K, V>(s: seq<Entry<K, V>>, hash: K -> nat)
    requires forall p: nat :: p < |s| ==> s[p].Empty?
    ensures Bag(s) == multiset{} && Tombs(s) == 0 && (|s| > 0 ==> Reachable(s, hash))
    decreases |s|
  {
    if s != [] { AllEmpty(s[..|s| - 1], hash); }
  }

  lemma EmptyModel<K, V>(hash: K -> nat)
    ensures BagOf<K, V>(map[], hash) == multiset{}
  {
  }

  lemma EmptyBag<K, V>()
    ensures Bag<K, V>([]) == multiset{}
  {
  }

  lemma BagStep<K, V>(s: seq<Entry<K, V>>, p: nat)
    requires p < |s|
    ensures Bag(s[..p + 1]) == Bag(s[..p]) + One(s[p])
  {
    assert s[..p + 1][..p] == s[..p];
  }

  // Once as many used entries have been seen as there are, the rest holds none.
  lemma {:induction false} BagRest<K, V>(s: seq<Entry<K, V>>, p: nat)
    requires p <= |s| && (p == |s| || |Bag(s[..p])| == |Bag(s)|)
    ensures Bag(s[..p]) == Bag(s)
    decreases |s| - p
  {
    if p < |s| {
      BagStep(s, p);
      BagGrows(s, p + 1);
      assert |Bag(s[..p + 1])| == |Bag(s[..p])| + |One(s[p])|;
      BagRest(s, p + 1);
    } else {
      assert s[..p] == s;
    }
  }

  lemma {:induction false} BagGrows<K, V>(s: seq<Entry<K, V>>, p: nat)
    requires p <= |s|
    ensures |Bag(s[..p])| <= |Bag(s)|
    decreases |s| - p
  {
    if p < |s| {
      BagStep(s, p);
      BagGrows(s, p + 1);
    } else {
      assert s[..p] == s;
    }
  }

  // The capacity of a new table is a power of two.
  lemma Rounded(n: nat)
    requires n <= 0x8000_0000
    ensures IsPow2(Max(AlignUpPow2(n), 4)) && 4 <= Max(AlignUpPow2(n), 4)
  {
    hide AlignUpPow2;
    AlignUpLeast(n);
  }

  // A load of at most 75 percent, in integer arithmetic, leaves a slot; a full table is above it.
  lemma LoadFactor(n: nat, cap: nat)
    requires cap > 0
    ensures n * 100 / cap <= 75 ==> n < cap
  {
    if n >= cap {
      DivMod(n * 100, cap);
      var q := n * 100 / cap;
      if q < 100 { MulMono(cap, q, 100); }
    }
  }

  lemma BagOfOverwrite<K, V>(m: map<K, V>, hash: K -> nat, k: K, v: V)
    requires k in m
    ensures BagOf(m[k := v], hash) + multiset{Used(hash(k), k, m[k])} == BagOf(m, hash) + multiset{Used(hash(k), k, v)}
  {
    BagOfRemove(m, hash, k);
    BagOfAdd(m - {k}, hash, k, v);
    assert (m - {k})[k := v] == m[k := v];
  }

  // With `i` the first slot of the path that is not used: a stored key is hidden exactly when it is not before `i`.
  lemma HiddenIff<K, V>(s: seq<Entry<K, V>>, hash: K -> nat, key: K, i: nat)
    requires Reachable(s, hash) && i < |s|
    requires !s[Slot(Home(hash(key), |s|), i, |s|)].Used?
    requires forall j: nat :: j < i ==> s[Slot(Home(hash(key), |s|), j, |s|)].Used?
    ensures Hidden(s, hash, key) <==>
      && (exists p: nat :: p < |s| && s[p].Used? && s[p].key == key)
      && forall j: nat :: j < i ==> s[Slot(Home(hash(key), |s|), j, |s|)].key != key
  {
  }

  // What inserting over a hidden key leaves behind denotes no map at all.
  lemma HiddenInsertDenotesNothing<K, V>(before: map<K, V>, hash: K -> nat, key: K, value: V, m: map<K, V>)
    requires key in before
    ensures BagOf(before, hash) + multiset{Used(hash(key), key, value)} != BagOf(m, hash)
  {
    var e, e' := Used(hash(key), key, before[key]), Used(hash(key), key, value);
    BagOfHas(before, hash, e);
    TwoEntries(m, hash, BagOf(before, hash) + multiset{e'}, e, e');
  }

  function Zero(k: int): nat {
    0
  }

  // The table of the run below after four insertions and a deletion.
  const HIDING_TABLE: seq<Entry<int, int>> :=
    [Deleted, Used(0, 2, 20), Used(0, 3, 30), Used(0, 4, 40), Empty, Empty, Empty, Empty]

  // The three keys that are left are hidden by the tombstone in front of them.
  lemma HidingTable(key: int)
    requires 2 <= key <= 4
    ensures Hidden(HIDING_TABLE, Zero, key) && FirstFree(HIDING_TABLE, 0, 0)
  {
    var s := HIDING_TABLE;
    assert s[key - 1].Used? && s[key - 1].key == key;
    assert Slot(0, 0, 8) == 0 && !s[Slot(0, 0, 8)].Used?;
    forall i: nat | i < 8 && s[Slot(0, i, 8)].Used? && s[Slot(0, i, 8)].key == key
      ensures exists j: nat :: j < i && !s[Slot(0, j, 8)].Used?
    {
      assert 0 < i;
    }
  }

  lemma FirstFreeAt(s: seq<Entry<int, int>>, i: nat)
    requires |s| == 8 && i < 8 && !s[i].Used? && forall j :: 0 <= j < i ==> s[j].Used?
    ensures Home(0, 8) == 0 && FirstFree(s, 0, i) && Slot(0, i, 8) == i
  {
  }

  // Keys 1 to 4, all with hash 0, are inserted into a table of eight slots.
  method FillFour() returns (m: FlatHashMap<int, int>)
    ensures fresh(m) && fresh(m.entries) && m.Valid() && m.hash == Zero && m.capacity == 8 && m.usedCount == 4
    ensures m.deleteCount == 0
    ensures m.model == map[1 := 10, 2 := 20, 3 := 30, 4 := 40]
    ensures m.entries[..] ==
      [Used(0, 1, 10), Used(0, 2, 20), Used(0, 3, 30), Used(0, 4, 40), Empty, Empty, Empty, Empty]
  {
    hide Bag, Tombs, Reachable, IsPow2, BagOf, AlignUpPow2, FewTombs, Hidden, FlatHashMap.Table;
    EightStays();
    m := new FlatHashMap(8, Zero);
    for k := 0 to 4
      invariant fresh(m) && fresh(m.entries) && m.Valid() && m.hash == Zero && m.capacity == 8 && m.usedCount == k
      invariant m.deleteCount == 0
      invariant m.model == TensTo(k) && m.entries.Length == 8 && FilledTo(m.entries[..], k)
    {
      AddAt(m, k, k + 1, 10 * (k + 1));
    }
    FourEntries(m.entries[..]);
    FourTens();
  }

  // The keys 1 to k with ten times their value.
  ghost function TensTo(k: nat): (m: map<int, int>)
    ensures forall i <- m.Keys :: 1 <= i <= k
  {
    if k == 0 then map[] else TensTo(k - 1)[k := 10 * k]
  }

  lemma FourTens()
    ensures TensTo(4) == map[1 := 10, 2 := 20, 3 := 30, 4 := 40]
  {
    assert TensTo(2) == map[1 := 10, 2 := 20];
  }

  ghost predicate FilledTo(s: seq<Entry<int, int>>, k: nat) {
    |s| == 8 && forall p :: 0 <= p < 8 ==> s[p] == if p < k then Used(0, p + 1, 10 * (p + 1)) else Empty
  }

  lemma FourEntries(s: seq<Entry<int, int>>)
    requires FilledTo(s, 4)
    ensures s == [Used(0, 1, 10), Used(0, 2, 20), Used(0, 3, 30), Used(0, 4, 40), Empty, Empty, Empty, Empty]
  {
    assert s == [s[0], s[1], s[2], s[3], s[4], s[5], s[6], s[7]];
  }

  // Inserting an absent key behind the `k` used slots at the start of the table.
  method AddAt(m: FlatHashMap<int, int>, k: nat, key: int, value: int)
    requires m.Valid() && m.hash == Zero && m.capacity == 8 && k < 4 && m.usedCount == k && m.deleteCount == 0
    requires key !in m.model && m.entries.Length == 8
    requires forall p :: 0 <= p < 8 ==> (m.entries[..][p].Used? <==> p < k) && !m.entries[..][p].Deleted?
    modifies m, m.entries
    ensures m.Valid() && (m.entries == old(m.entries) || fresh(m.entries)) && m.capacity == 8
    ensures m.usedCount == k + 1 && m.deleteCount == 0 && m.model == old(m.model)[key := value]
    ensures m.entries.Length == 8 && m.entries[..] == old(m.entries[..])[k := Used(0, key, value)]
  {
    hide Bag, Tombs, Reachable, IsPow2, BagOf, Hidden, FirstFree;
    FirstFreeAt(m.entries[..], k);
    m.AbsentNotHidden(key);
    CalmSmall(k);
    assert m.hash(key) == 0;
    var r := m.Insert(key, value, false);
  }

  lemma CalmSmall(k: nat)
    requires k < 4
    ensures Calm(k + 1, 0, 8)
  {
    assert 0 * 100 / (k + 1) == 0;
  }

  lemma EightStays()
    ensures AlignUpPow2(8) == 8
  {
    AlignUpLeast(8);
    assert IsPow2(8);
  }

  // A run in which insertion stores a key twice: with four keys on one path the first is
  // deleted, its tombstone stays, and inserting the third again goes unnoticed.
  method HiddenRun() returns (m: FlatHashMap<int, int>, r: int)
    ensures r == 0 && m.entries.Length == 8 && m.entries[0] == Used(0, 3, 99) && m.entries[2] == Used(0, 3, 30)
  {
    hide Bag, Tombs, Reachable, IsPow2, BagOf, Hidden, FirstFree;
    m := FillFour();
    ghost var s := m.entries[..];
    var gone := m.Delete(1);
    ghost var p: nat :| p < 8 && s[p] == Used(0, 1, 10) && m.entries[..] == s[p := Deleted];
    assert m.entries[..] == HIDING_TABLE;
    HidingTable(3);
    FirstFreeAt(HIDING_TABLE, 0);
    r := m.Insert(3, 99, false);
    assert m.entries[..] == HIDING_TABLE[0 := Used(0, 3, 99)];
    assert m.entries[0] == m.entries[..][0] && m.entries[2] == m.entries[..][2];
  }
}
