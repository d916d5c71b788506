/** The open-addressing hash map of src/ayla/hashmap.c.  The hash function is arbitrary; the key
    comparison is equality of keys.  Memory allocation may fail: each call that allocates takes
    the outcome as a parameter. */
module HashMaps {
  import opened Options
  import opened HashTable
  import opened HashDeletion

  /** hashmap_table_min_size_calc. */
  function MinSize(numEntries: nat): nat
  {
    numEntries + numEntries / 3
  }

  /** hashmap_table_size_calc: the smallest allowed size that keeps `numEntries` under the load limit. */
  method TableSizeCalc(numEntries: nat) returns (size: nat)
    ensures PowerOfTwo(size) && size >= 32 && size >= numEntries + numEntries / 3
    ensures forall s: nat :: PowerOfTwo(s) && s >= 32 && s >= numEntries + numEntries / 3 ==> size <= s
  {
    hide PowerOfTwo;
    SizesArePowers();
    size := SIZE_MIN;
    while size < MinSize(numEntries)
      invariant PowerOfTwo(size) && size >= SIZE_MIN
      invariant forall s: nat :: PowerOfTwo(s) && s >= SIZE_MIN && s >= MinSize(numEntries) ==> size <= s
    {
      forall s: nat | PowerOfTwo(s) && s >= SIZE_MIN && s >= MinSize(numEntries)
        ensures 2 * size <= s
      {
        NextPower(size, s);
      }
      DoublePower(size);
      size := 2 * size;
    }
  }

  lemma SizesArePowers()
    ensures PowerOfTwo(SIZE_MIN) && PowerOfTwo(SIZE_DEFAULT)
  {
    hide PowerOfTwo;
    OneIsPower();
    DoublePower(1); DoublePower(2); DoublePower(4); DoublePower(8);
    DoublePower(16); DoublePower(32); DoublePower(64); DoublePower(128);
  }

  lemma OneIsPower()
    ensures PowerOfTwo(1)
  {
  }

  lemma DoublePower(n: nat)
    requires PowerOfTwo(n)
    ensures PowerOfTwo(2 * n)
  {
  }

  lemma {:induction false} NextPower(a: nat, b: nat)
    requires PowerOfTwo(a) && PowerOfTwo(b) && a < b
    ensures 2 * a <= b
    decreases b
  {
    if a > 1 {
      NextPower(a / 2, b / 2);
    }
  }

  lemma PowerIsMultipleOf4(n: nat)
    requires PowerOfTwo(n) && n >= 4
    ensures n % 4 == 0
  {
    assert PowerOfTwo(n / 2);
  }

  /** Where a free slot or a key is sure to be met: fewer entries than the probe limit. */
  lemma ProbeMeetsFree<K(!new), V(!new)>(t: Table<K, V>, hash: K -> nat, key: K)
    requires |t| >= 2 && |t| % 2 == 0 && FreeSlots(t) > |t| / 2
    ensures !Passes(t, hash, key, |t| / 2)
  {
    if Passes(t, hash, key, |t| / 2) {
      WindowBoundsFree(t, Home(hash, |t|, key), |t| / 2);
    }
  }

  class HashMap<K(==, !new), V(!new)> {
    const hash: K -> nat
    const tableSizeInit: nat
    var table: array<Slot<K, V>>
    var numEntries: nat

    /** Sizes and the entry count, which every operation keeps for every hash. */
    ghost predicate Shape()
      reads this, table
    {
      && PowerOfTwo(table.Length) && table.Length >= SIZE_MIN && table.Length % 4 == 0
      && PowerOfTwo(tableSizeInit) && tableSizeInit >= SIZE_MIN && tableSizeInit % 4 == 0
      && numEntries + FreeSlots(table[..]) == table.Length
    }

    ghost predicate Valid()
      reads this, table
    {
      Shape() && Sound(table[..], hash)
    }

    /** The 0.75 load factor. */
    ghost predicate LoadBounded()
      reads this, table
    {
      4 * numEntries <= 3 * table.Length
    }

    ghost function Map(): map<K, V>
      reads this, table
      requires Valid()
    {
      Contents(table[..])
    }

    /** hashmap_init. */
    constructor (hash: K -> nat, initialSize: nat)
      ensures Valid() && LoadBounded() && fresh(table)
      ensures this.hash == hash && Map() == map[] && table.Length == tableSizeInit
      ensures initialSize == 0 ==> table.Length == 256
      ensures initialSize > 0 ==>
                && PowerOfTwo(table.Length) && table.Length >= 32 && table.Length >= initialSize + initialSize / 3
                && forall s: nat :: PowerOfTwo(s) && s >= 32 && s >= initialSize + initialSize / 3 ==> table.Length <= s
    {
      var size := SIZE_DEFAULT;
      if initialSize != 0 {
        size := TableSizeCalc(initialSize);
      }
      this.hash := hash;
      tableSizeInit := size;
      table := new Slot<K, V>[size](_ => Free);
      numEntries := 0;
      new;
      SizesArePowers();
      PowerIsMultipleOf4(size);
      AllFree(table[..]);
    }

    /** hashmap_entry_find.  `d` is the number of slots passed. */
    method EntryFind(key: K, findEmpty: bool) returns (slot: Option<nat>, ghost d: nat)
      requires table.Length >= 2
      ensures d <= table.Length / 2 && Passes(table[..], hash, key, d)
      ensures slot.Some? ==> d < table.Length / 2 && slot.value == At(table.Length, Home(hash, table.Length, key), d)
      ensures slot.Some? ==> if table[slot.value].Entry? then table[slot.value].key == key else findEmpty
      ensures slot.None? && d < table.Length / 2 ==>
        !findEmpty && table[At(table.Length, Home(hash, table.Length, key), d)].Free?
    {
      d := 0;
      var i := 0;
      var index := hash(key) % table.Length;
      while i < table.Length / 2
        invariant i == d <= table.Length / 2
        invariant index == At(table.Length, Home(hash, table.Length, key), d)
        invariant Passes(table[..], hash, key, d)
      {
        if table[index].Free? {
          return (if findEmpty then Some(index) else None), d;
        }
        if table[index].key == key {
          return Some(index), d;
        }
        index := At(table.Length, index, 1);
        i := i + 1;
        d := d + 1;
      }
      slot := None;
    }

    /** hashmap_entry_remove. */
    method EntryRemove(removed: nat)
      requires Shape() && removed < table.Length && table[removed].Entry?
      modifies this`numEntries, table
      ensures table[..] == Removed(old(table[..]), hash, removed)
      ensures numEntries == old(numEntries) - 1 && Shape()
    {
      hide Shift, PowerOfTwo;
      ghost var t := table[..];
      RemovedConserves(t, hash, removed);
      numEntries := numEntries - 1;
      var hole: nat := removed;
      var index := At(table.Length, hole, 1);
      var i: nat := 1;
      while i < table.Length && table[index].Entry?
        invariant 1 <= i <= table.Length && hole < table.Length
        invariant index == At(table.Length, removed, i)
        invariant numEntries == old(numEntries) - 1
        invariant Shift(table[..], hash, removed, hole, i) == Removed(t, hash, removed)
      {
        ghost var u := table[..];
        ShiftTurn(u, hash, removed, hole, i);
        if IndexLe(table.Length, hole, Home(hash, table.Length, table[index].key)) {
          table[hole] := table[index];
          assert table[..] == u[hole := u[index]];
          hole := index;
        }
        index := At(table.Length, index, 1);
        i := i + 1;
      }
      ghost var u := table[..];
      ShiftTurn(u, hash, removed, hole, i);
      table[hole] := Free;
      assert table[..] == u[hole := Free];
    }

    /** The loop of hashmap_rehash: insert every entry of `oldTable` into the new, empty table. */
    method CopyAll(oldTable: array<Slot<K, V>>) returns (ok: bool)
      requires oldTable != table && UniqueKeys(oldTable[..]) && Copied(oldTable[..], 0, table[..], hash)
      modifies table
      ensures ok ==> Copied(oldTable[..], oldTable.Length, table[..], hash)
      ensures 2 * (oldTable.Length - FreeSlots(oldTable[..])) <= table.Length ==> ok
    {
      hide UniqueKeys, Passes, FreeSlots, Copied;
      ghost var t := oldTable[..];
      var j := 0;
      while j < oldTable.Length
        invariant j <= oldTable.Length && oldTable[..] == t
        invariant Copied(t, j, table[..], hash)
      {
        ghost var u := table[..];
        if oldTable[j].Entry? {
          CopyFindsRoom(t, j, u, hash);
          var slot, d := EntryFind(oldTable[j].key, true);
          if slot.None? {
            return false;
          }
          CopyStep(t, j, u, hash, d);
          table[slot.value] := Entry(oldTable[j].key, oldTable[j].data);
          assert table[..] == u[slot.value := t[j]];
        } else {
          CopySkip(t, j, u, hash);
        }
        j := j + 1;
      }
      ok := true;
    }

    /** hashmap_rehash.  `granted` says whether the new array could be allocated. */
    method Rehash(newSize: nat, granted: bool) returns (ok: bool)
      requires Valid() && PowerOfTwo(newSize) && newSize >= SIZE_MIN && newSize % 4 == 0
      modifies this
      ensures Valid() && Map() == old(Map()) && numEntries == old(numEntries)
      ensures !ok ==> table == old(table)
      ensures ok ==> table.Length == newSize && fresh(table)
      ensures ok ==> granted
      ensures granted && 2 * numEntries <= newSize ==> ok
    {
      if !granted {
        return false;
      }
      hide PowerOfTwo, UniqueKeys, Chained, Contents, FreeSlots, Copied;
      var oldTable := table;
      table := new Slot<K, V>[newSize](_ => Free);
      NothingCopied(oldTable[..], table[..], hash);
      ok := CopyAll(oldTable);
      if ok {
        CopyDone(oldTable[..], table[..], hash);
      } else {
        table := oldTable;
      }
    }

    /** The middle part of hashmap_put: look for the key or an empty slot, and once more in a
        table twice as large if the probe limit was hit. */
    method FindOrGrow(key: K, granted: bool) returns (slot: Option<nat>, ghost d: nat)
      requires Valid()
      modifies this
      ensures Valid() && Map() == old(Map()) && numEntries == old(numEntries)
      ensures table == old(table) || (fresh(table) && table.Length == 2 * old(table.Length))
      ensures slot.Some? ==> d < table.Length / 2 && Passes(table[..], hash, key, d)
      ensures slot.Some? ==> slot.value == At(table.Length, Home(hash, table.Length, key), d)
      ensures slot.Some? && table[slot.value].Entry? ==> table[slot.value].key == key
      ensures slot.None? ==> key !in Map()
      ensures granted && numEntries < old(table.Length) ==> slot.Some?
      ensures !granted || !Passes(old(table[..]), hash, key, old(table.Length) / 2) ==> table == old(table)
    {
      slot, d := EntryFind(key, true);
      if slot.None? {
        LimitMeansAbsent(table[..], hash, key);
        DoublePower(table.Length);
        var ok := Rehash(2 * table.Length, granted);
        if ok {
          slot, d := EntryFind(key, true);
          if slot.None? && numEntries < table.Length / 2 {
            ProbeMeetsFree(table[..], hash, key);
          }
        }
      }
    }

    /** The last part of hashmap_put: fill the empty slot. */
    method StoreAt(i: nat, ghost d: nat, key: K, data: V)
      requires Valid() && d < table.Length / 2 && i == At(table.Length, Home(hash, table.Length, key), d)
      requires Passes(table[..], hash, key, d) && table[i].Free?
      modifies this`numEntries, table
      ensures Valid() && key !in old(Map()) && Map() == old(Map())[key := data]
      ensures numEntries == old(numEntries) + 1
    {
      hide PowerOfTwo, Chained, Passes;
      ghost var t := table[..];
      StoreAddsKey(t, hash, d, key, data);
      table[i] := Entry(key, data);
      assert table[..] == t[i := Entry(key, data)];
      numEntries := numEntries + 1;
    }

    /** hashmap_put.  `alloc1` and `alloc2` are the outcomes of the (at most two) rehash allocations. */
    method Put(key: K, data: V, alloc1: bool, alloc2: bool) returns (r: Option<V>)
      requires Valid()
      modifies this, table
      ensures Valid()
      ensures key in old(Map()) ==> r == Some(old(Map())[key]) && Map() == old(Map())
      ensures key !in old(Map()) && r.Some? ==> r == Some(data) && Map() == old(Map())[key := data]
      ensures key !in old(Map()) && r.Some? ==> numEntries == old(numEntries) + 1
      ensures r.None? ==> Map() == old(Map())
      ensures old(LoadBounded()) && alloc1 && alloc2 ==> r.Some? && LoadBounded()
      ensures var crowded := old(table.Length) <= old(numEntries) + old(numEntries) / 3;
              && (crowded && alloc1 ==> table.Length >= 2 * old(table.Length))
              && (!crowded && !Passes(old(table[..]), hash, key, old(table.Length) / 2) ==> table == old(table))
              && (!alloc1 && !alloc2 ==> table == old(table))
    {
      hide PowerOfTwo, Chained, UniqueKeys, Passes, Contents;
      ghost var roomy := alloc1 && LoadBounded();
      if table.Length <= MinSize(numEntries) {
        DoublePower(table.Length);
        var _ := Rehash(2 * table.Length, alloc1);
      }
      assert roomy ==> 4 * (numEntries + 1) <= 3 * table.Length;
      var slot, d := FindOrGrow(key, alloc2);
      if slot.None? {
        return None;
      }
      var i := slot.value;
      if table[i].Entry? {
        assert Entry(key, table[i].data) in table[..];
        return Some(table[i].data);
      }
      StoreAt(i, d, key, data);
      r := Some(data);
    }

    /** hashmap_get. */
    method Get(key: K) returns (r: Option<V>)
      requires Valid()
      ensures r == if key in Map() then Some(Map()[key]) else None
    {
      var slot, d := EntryFind(key, false);
      if slot.None? {
        if d == table.Length / 2 {
          LimitMeansAbsent(table[..], hash, key);
        } else {
          FreeMeansAbsent(table[..], hash, key, d);
        }
        return None;
      }
      assert Entry(key, table[slot.value].data) in table[..];
      r := Some(table[slot.value].data);
    }

    /** hashmap_remove.  `slot` is where the key was found. */
    method Remove(key: K) returns (r: Option<V>, ghost slot: nat)
      requires Valid()
      modifies this`numEntries, table
      ensures Shape() && slot < table.Length
      ensures r == if key in old(Map()) then Some(old(Map())[key]) else None
      ensures r.None? ==> table[..] == old(table[..])
      ensures r.Some? ==> old(table[slot]) == Entry(key, r.value) && table[..] == Removed(old(table[..]), hash, slot)
      ensures r.Some? ==>
                (Valid() <==> !Overlong(old(table[..]), hash, slot) && !Circular(old(table[..]), hash, slot))
      ensures Valid() ==> Map() == old(Map()) - {key}
      ensures 2 * old(numEntries) <= table.Length ==> Valid()
    {
      var at, d := EntryFind(key, false);
      slot := 0;
      if at.None? {
        if d == table.Length / 2 {
          LimitMeansAbsent(table[..], hash, key);
        } else {
          FreeMeansAbsent(table[..], hash, key, d);
        }
        return None, 0;
      }
      slot := at.value;
      hide Shift, PowerOfTwo, Chained, UniqueKeys, Passes, Contents, Overlong, Circular, Removed;
      ghost var t := table[..];
      assert t[slot] == Entry(key, t[slot].data);
      r := Some(table[at.value].data);
      EntryRemove(at.value);
      DeletionDropsKey(t, hash, slot);
    }

    /** hashmap_clear. */
    method Clear()
      requires Shape()
      modifies this`numEntries, table
      ensures Valid() && LoadBounded() && Map() == map[] && numEntries == 0
    {
      numEntries := 0;
      forall i | 0 <= i < table.Length {
        table[i] := Free;
      }
      AllFree(table[..]);
    }

    /** hashmap_reset.  `granted` says whether the array could be resized. */
    method Reset(granted: bool)
      requires Shape()
      modifies this, table
      ensures Valid() && LoadBounded() && Map() == map[]
      ensures granted ==> table.Length == tableSizeInit
      ensures !granted ==> table == old(table)
    {
      Clear();
      if table.Length == tableSizeInit || !granted {
        return;
      }
      table := new Slot<K, V>[tableSizeInit](_ => Free);
      AllFree(table[..]);
    }

    /** hashmap_entry_get_populated. */
    method GetPopulated(from: nat) returns (iter: Option<nat>)
      requires from <= table.Length
      ensures iter.Some? ==> from <= iter.value < table.Length && table[iter.value].Entry?
      ensures iter.Some? ==> forall i :: from <= i < iter.value ==> table[i].Free?
      ensures iter.None? ==> forall i :: from <= i < table.Length ==> table[i].Free?
    {
      var i := from;
      while i < table.Length
        invariant from <= i <= table.Length
        invariant forall j :: from <= j < i ==> table[j].Free?
      {
        if table[i].Entry? {
          return Some(i);
        }
        i := i + 1;
      }
      iter := None;
    }

    /** hashmap_iter. */
    method Iter() returns (iter: Option<nat>)
      requires Shape()
      ensures iter.Some? ==> iter.value < table.Length && table[iter.value].Entry?
      ensures iter.Some? ==> forall i :: 0 <= i < iter.value ==> table[i].Free?
      ensures iter.None? ==> forall i :: 0 <= i < table.Length ==> table[i].Free?
    {
      if numEntries == 0 {
        NoneLeft(table[..]);
        return None;
      }
      iter := GetPopulated(0);
    }

    /** hashmap_iter_remove, on an iterator that still points at an entry. */
    method IterRemove(iter: nat) returns (next: Option<nat>)
      requires Shape() && iter < table.Length && table[iter].Entry?
      modifies this`numEntries, table
      ensures Shape() && table[..] == Removed(old(table[..]), hash, iter) && numEntries == old(numEntries) - 1
      ensures next.Some? ==> iter <= next.value < table.Length && table[next.value].Entry?
      ensures next.Some? ==> forall i :: iter <= i < next.value ==> table[i].Free?
      ensures next.None? ==> forall i :: iter <= i < table.Length ==> table[i].Free?
    {
      EntryRemove(iter);
      next := GetPopulated(iter);
    }

    /** Removal during iteration, as the header promises it: a caller walks the table once,
        removing the entries that satisfy `p` with hashmap_iter_remove and stepping over the
        others with hashmap_iter_next.  For every table and every hash the walk ends, takes out
        exactly the entries that satisfy `p` and keeps all others. */
    method RemoveMatching(p: K -> bool) returns (removed: nat)
      requires Shape()
      modifies this`numEntries, table
      ensures Shape() && numEntries == old(numEntries) - removed
      ensures multiset(table[..]) == Kept(old(table[..]), p)
      ensures (forall k :: p(k)) ==> numEntries == 0 && removed == old(numEntries)
    {
      hide Shift, PowerOfTwo, Kept;
      removed := 0;
      ghost var t := table[..];
      ghost var seen: nat := 0;
      var iter := Iter();
      seen := if iter.Some? then iter.value else table.Length;
      while iter.Some?
        invariant Shape() && numEntries == old(numEntries) - removed
        invariant seen == if iter.Some? then iter.value else table.Length
        invariant seen <= table.Length && (iter.Some? ==> seen < table.Length && table[seen].Entry?)
        invariant forall i :: 0 <= i < seen && table[i].Entry? ==> !p(table[i].key)
        invariant Kept(table[..], p) == Kept(t, p)
        decreases numEntries + table.Length - seen
      {
        ghost var u := table[..];
        var i := iter.value;
        if p(table[i].key) {
          iter := IterRemove(i);
          removed := removed + 1;
          KeptAfterRemoval(u, hash, i, p);
          PrefixStaysUnmatched(u, hash, i, p);
          assert Removed(u, hash, i) == table[..];
          forall j | 0 <= j < i && table[j].Entry?
            ensures !p(table[j].key)
          {
            assert table[j] == Removed(u, hash, i)[j];
          }
        } else {
          iter := GetPopulated(i + 1);
        }
        seen := if iter.Some? then iter.value else table.Length;
      }
      NothingToDrop(table[..], p);
      if forall k :: p(k) {
        AllFree(table[..]);
      }
    }
  }

  lemma {:induction false} AllFree<K(!new), V(!new)>(t: Table<K, V>)
    requires forall i :: 0 <= i < |t| ==> t[i].Free?
    ensures FreeSlots(t) == |t|
    ensures UniqueKeys(t) && Contents(t) == map[]
  {
    if t != [] {
      AllFree(t[..|t| - 1]);
      assert t == t[..|t| - 1] + [Free];
    }
    assert forall k, v :: Entry(k, v) !in t;
  }

  lemma {:induction false} NoneLeft<K, V>(t: Table<K, V>)
    requires FreeSlots(t) == |t|
    ensures forall i :: 0 <= i < |t| ==> t[i].Free?
  {
    if t != [] {
      assert t == t[..|t| - 1] + [t[|t| - 1]];
      CountAtMostLength(t[..|t| - 1], Free);
      NoneLeft(t[..|t| - 1]);
    }
  }

  /** With an entry left to copy, fewer entries than the map holds have been copied. */
  lemma CountLeft<K(!new), V(!new)>(t: Table<K, V>, j: nat)
    requires j < |t|
    ensures t[j].Entry? ==> j - FreeSlots(t[..j]) < |t| - FreeSlots(t)
    ensures FreeSlots(t[..j + 1]) == FreeSlots(t[..j]) + (if t[j].Free? then 1 else 0)
    ensures forall k, v :: Entry(k, v) in t[..j + 1] <==> Entry(k, v) in t[..j] || Entry(k, v) == t[j]
  {
    assert t[..j + 1] == t[..j] + [t[j]];
    assert t == t[..j] + [t[j]] + t[j + 1..];
    CountAtMostLength(t[j + 1..], Free);
  }

  lemma SameEntriesSameMap<K(!new), V(!new)>(t: Table<K, V>, u: Table<K, V>)
    requires UniqueKeys(t) && UniqueKeys(u)
    requires forall k, v :: Entry(k, v) in u <==> Entry(k, v) in t
    ensures Contents(u) == Contents(t)
  {
    hide UniqueKeys, Contents;
    var m, m' := Contents(t), Contents(u);
    forall k
      ensures k in m' <==> k in m
      ensures k in m' ==> m'[k] == m[k]
    {
      assert k in m' ==> Entry(k, m'[k]) in t;
      assert k in m ==> Entry(k, m[k]) in u;
    }
  }

  /** State of the rehash loop: `u` holds the entries of the first `j` slots of `t`. */
  ghost predicate Copied<K(!new), V(!new)>(t: Table<K, V>, j: nat, u: Table<K, V>, hash: K -> nat)
    requires j <= |t|
  {
    && Sound(u, hash) && |u| >= 2 && |u| % 2 == 0
    && FreeSlots(u) == |u| - (j - FreeSlots(t[..j]))
    && (forall k, v :: Entry(k, v) in u <==> Entry(k, v) in t[..j])
  }

  lemma NothingCopied<K(!new), V(!new)>(t: Table<K, V>, u: Table<K, V>, hash: K -> nat)
    requires |u| >= 2 && |u| % 2 == 0 && forall i :: 0 <= i < |u| ==> u[i].Free?
    ensures Copied(t, 0, u, hash)
  {
    AllFree(u);
    assert FreeSlots(t[..0]) == 0;
  }

  lemma KeyNotYetCopied<K(!new), V(!new)>(t: Table<K, V>, j: nat, u: Table<K, V>, hash: K -> nat)
    requires j < |t| && t[j].Entry? && UniqueKeys(t) && Copied(t, j, u, hash)
    ensures forall i: nat :: i < |u| && u[i].Entry? ==> u[i].key != t[j].key
  {
    forall i: nat | i < |u| && u[i].Entry?
      ensures u[i].key != t[j].key
    {
      assert Entry(u[i].key, u[i].data) in u;
      var a: nat :| a < j && t[..j][a] == Entry(u[i].key, u[i].data);
      assert t[a].Entry? && t[a].key == u[i].key;
    }
  }

  lemma CopyFindsRoom<K(!new), V(!new)>(t: Table<K, V>, j: nat, u: Table<K, V>, hash: K -> nat)
    requires j < |t| && t[j].Entry? && UniqueKeys(t) && Copied(t, j, u, hash)
    ensures |u| >= 2
    ensures 2 * (|t| - FreeSlots(t)) <= |u| ==> !Passes(u, hash, t[j].key, |u| / 2)
    ensures forall i: nat :: i < |u| && u[i].Entry? ==> u[i].key != t[j].key
  {
    CountLeft(t, j);
    KeyNotYetCopied(t, j, u, hash);
    if 2 * (|t| - FreeSlots(t)) <= |u| {
      ProbeMeetsFree(u, hash, t[j].key);
    }
  }

  lemma CopyStep<K(!new), V(!new)>(t: Table<K, V>, j: nat, u: Table<K, V>, hash: K -> nat, d: nat)
    requires j < |t| && t[j].Entry? && Copied(t, j, u, hash)
    requires d < |u| / 2 && Passes(u, hash, t[j].key, d) && u[At(|u|, Home(hash, |u|, t[j].key), d)].Free?
    ensures Copied(t, j + 1, u[At(|u|, Home(hash, |u|, t[j].key), d) := t[j]], hash)
  {
    hide Sound;
    StoreKeepsSound(u, hash, d, t[j].key, t[j].data);
    CountLeft(t, j);
  }

  lemma CopySkip<K(!new), V(!new)>(t: Table<K, V>, j: nat, u: Table<K, V>, hash: K -> nat)
    requires j < |t| && t[j].Free? && Copied(t, j, u, hash)
    ensures Copied(t, j + 1, u, hash)
  {
    hide Sound;
    CountLeft(t, j);
  }

  lemma CopyDone<K(!new), V(!new)>(t: Table<K, V>, u: Table<K, V>, hash: K -> nat)
    requires UniqueKeys(t) && Copied(t, |t|, u, hash)
    ensures Sound(u, hash) && Contents(u) == Contents(t)
    ensures |u| - FreeSlots(u) == |t| - FreeSlots(t)
  {
    assert t[..|t|] == t;
    SameEntriesSameMap(t, u);
  }

  lemma StoreAddsKey<K(!new), V(!new)>(t: Table<K, V>, hash: K -> nat, d: nat, key: K, data: V)
    requires Sound(t, hash) && d < |t| / 2
    requires Passes(t, hash, key, d) && t[At(|t|, Home(hash, |t|, key), d)].Free?
    ensures var t' := t[At(|t|, Home(hash, |t|, key), d) := Entry(key, data)];
            Sound(t', hash) && FreeSlots(t') == FreeSlots(t) - 1 && key !in Contents(t) &&
            Contents(t') == Contents(t)[key := data]
  {
    FreeMeansAbsent(t, hash, key, d);
    StoreKeepsSound(t, hash, d, key, data);
    var t' := t[At(|t|, Home(hash, |t|, key), d) := Entry(key, data)];
    var m, m' := Contents(t), Contents(t');
    hide Contents;
    assert forall v :: Entry(key, v) !in t by { assert forall i: nat :: i < |t| && t[i].Entry? ==> t[i].key != key; }
    forall k
      ensures k in m' <==> k in m[key := data]
      ensures k in m' ==> m'[k] == m[key := data][k]
    {
      var v, v' := if k in m then m[k] else data, if k in m' then m'[k] else data;
      assert Entry(k, v) in t <==> k in m;
      assert Entry(k, v') in t' <==> k in m';
    }
  }

  lemma DeletionDropsKey<K(!new), V(!new)>(t: Table<K, V>, hash: K -> nat, r: nat)
    requires Sound(t, hash) && |t| >= 2 && |t| % 2 == 0 && r < |t| && t[r].Entry?
    ensures var u := Removed(t, hash, r);
            && Contents(t).Keys >= {t[r].key} && Contents(t)[t[r].key] == t[r].data
            && (Sound(u, hash) ==> Contents(u) == Contents(t) - {t[r].key})
            && (Sound(u, hash) <==> !Overlong(t, hash, r) && !Circular(t, hash, r))
            && (2 * FreeSlots(t) >= |t| ==> !Overlong(t, hash, r) && !Circular(t, hash, r))
  {
    hide Removed, Overlong, Circular, Chained, UniqueKeys, Contents;
    var u := Removed(t, hash, r);
    assert Entry(t[r].key, t[r].data) in t;
    RemovedMembers(t, hash, r);
    if Sound(u, hash) {
      var m, m' := Contents(t), Contents(u);
      forall k
        ensures k in m' <==> k in m - {t[r].key}
        ensures k in m' ==> m'[k] == m[k]
      {
        assert k in m' ==> Entry(k, m'[k]) in t;
        assert k in m && k != t[r].key ==> Entry(k, m[k]) in u;
      }
      assert m' == m - {t[r].key};
    }
    DeletionIsExact(t, hash, r);
    if 2 * FreeSlots(t) >= |t| {
      HalfFullIsShort(t, hash, r);
    }
  }

  // ---------------------------------------------------------------- removal while iterating

  /** The slots of `t` with the entries that satisfy `p` replaced by free ones, in any order. */
  ghost function Kept<K(!new), V(!new)>(t: Table<K, V>, p: K -> bool): multiset<Slot<K, V>>
  {
    if t == [] then multiset{}
    else Kept(t[..|t| - 1], p) + multiset{KeepSlot(t[|t| - 1], p)}
  }

  function KeepSlot<K, V>(s: Slot<K, V>, p: K -> bool): Slot<K, V>
  {
    if s.Entry? && p(s.key) then Free else s
  }

  lemma {:induction false} KeptSplit<K(!new), V(!new)>(t: Table<K, V>, i: nat, p: K -> bool)
    requires i < |t|
    ensures Kept(t, p) == Kept(t[..i] + t[i + 1..], p) + multiset{KeepSlot(t[i], p)}
  {
    hide Kept, KeepSlot;
    var n := |t| - 1;
    var u := t[..i] + t[i + 1..];
    KeptLast(t, p);
    if i == n {
      assert u == t[..n];
    } else {
      KeptSplit(t[..n], i, p);
      assert t[..n][..i] + t[..n][i + 1..] == u[..n - 1];
      assert u[n - 1] == t[n];
      KeptLast(u, p);
    }
  }

  lemma KeptLast<K(!new), V(!new)>(t: Table<K, V>, p: K -> bool)
    requires t != []
    ensures Kept(t, p) == Kept(t[..|t| - 1], p) + multiset{KeepSlot(t[|t| - 1], p)}
  {
  }

  lemma MultisetSplit<T>(t: seq<T>, i: nat)
    requires i < |t|
    ensures multiset(t) == multiset(t[..i] + t[i + 1..]) + multiset{t[i]}
  {
    assert t == t[..i] + [t[i]] + t[i + 1..];
  }

  lemma CancelOne<T>(a: multiset<T>, b: multiset<T>, x: T)
    requires a + multiset{x} == b + multiset{x}
    ensures a == b
  {
    assert a == a + multiset{x} - multiset{x};
    assert b == b + multiset{x} - multiset{x};
  }

  /** Order does not matter to what is kept. */
  lemma {:induction false} KeptOfPermutation<K(!new), V(!new)>(a: Table<K, V>, b: Table<K, V>, p: K -> bool)
    requires multiset(a) == multiset(b)
    ensures Kept(a, p) == Kept(b, p)
  {
    assert |a| == |multiset(a)| == |b|;
    if a != [] {
      var n := |a| - 1;
      assert a[n] in multiset(a);
      var i: nat :| i < |b| && b[i] == a[n];
      MultisetSplit(a, n);
      MultisetSplit(b, i);
      assert a[..n] + a[n + 1..] == a[..n];
      CancelOne(multiset(a[..n]), multiset(b[..i] + b[i + 1..]), a[n]);
      KeptSplit(b, i, p);
      KeptOfPermutation(a[..n], b[..i] + b[i + 1..], p);
    }
  }

  lemma KeptAfterRemoval<K(!new), V(!new)>(t: Table<K, V>, hash: K -> nat, r: nat, p: K -> bool)
    requires r < |t| && t[r].Entry? && p(t[r].key)
    ensures Kept(Removed(t, hash, r), p) == Kept(t, p)
  {
    hide Shift;
    ShiftConserves(t, hash, r, r, 1);
    KeptOfPermutation(Removed(t, hash, r), t[r := Free], p);
    KeptSplit(t, r, p);
    KeptSplit(t[r := Free], r, p);
    assert t[r := Free][..r] == t[..r] && t[r := Free][r + 1..] == t[r + 1..];
  }

  lemma {:induction false} NothingToDrop<K(!new), V(!new)>(t: Table<K, V>, p: K -> bool)
    requires forall i :: 0 <= i < |t| && t[i].Entry? ==> !p(t[i].key)
    ensures Kept(t, p) == multiset(t)
  {
    if t != [] {
      NothingToDrop(t[..|t| - 1], p);
      assert t == t[..|t| - 1] + [t[|t| - 1]];
    }
  }

  /** Deletion at `r` never brings an entry that satisfies `p` into a slot before `r`, if there was none. */
  lemma {:induction false} ShiftFillsFromBehind<K(!new), V(!new)>(
    t: Table<K, V>, hash: K -> nat, r: nat, m: nat, k: nat, p: K -> bool)
    requires r < |t| && m < k <= |t|
    requires forall j :: 0 <= j < r && t[j].Entry? ==> !p(t[j].key)
    ensures var u := Shift(t, hash, r, At(|t|, r, m), k); forall j :: 0 <= j < r && u[j].Entry? ==> !p(u[j].key)
    decreases |t| - k
  {
    hide Shift;
    var i := At(|t|, r, k);
    ShiftTurn(t, hash, r, At(|t|, r, m), k);
    if k >= |t| || t[i].Free? {
    } else if IndexLe(|t|, At(|t|, r, m), Home(hash, |t|, t[i].key)) {
      var u := t[At(|t|, r, m) := t[i]];
      assert At(|t|, r, m) < r ==> i < r;
      assert forall j :: 0 <= j < r && u[j].Entry? ==> !p(u[j].key);
      ShiftFillsFromBehind(u, hash, r, k, k + 1, p);
    } else {
      ShiftFillsFromBehind(t, hash, r, m, k + 1, p);
    }
  }

  lemma PrefixStaysUnmatched<K(!new), V(!new)>(t: Table<K, V>, hash: K -> nat, r: nat, p: K -> bool)
    requires r < |t| && forall j :: 0 <= j < r && t[j].Entry? ==> !p(t[j].key)
    ensures forall j :: 0 <= j < r && Removed(t, hash, r)[j].Entry? ==> !p(Removed(t, hash, r)[j].key)
  {
    hide Shift;
    assert Removed(t, hash, r) == Shift(t, hash, r, At(|t|, r, 0), 1);
    ShiftFillsFromBehind(t, hash, r, 0, 1, p);
  }
}
