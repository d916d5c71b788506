/** The slot array of src/ayla/hashmap.c as a value: cyclic index arithmetic, the probe-chain
    invariant, and back-shift deletion.  HashMap.dfy holds the class that updates the array. */
module HashTable {

  datatype Slot<K, V> = Free | Entry(key: K, data: V)

  type Table<K, V> = seq<Slot<K, V>>

  const SIZE_MIN: nat := 32
  const SIZE_DEFAULT: nat := 256

  ghost predicate PowerOfTwo(n: nat)
  {
    n == 1 || (n >= 2 && n % 2 == 0 && PowerOfTwo(n / 2))
  }

  // ---------------------------------------------------------------- cyclic indices

  /** The slot `d` places after `h`, wrapping once. */
  function At(n: nat, h: nat, d: nat): (i: nat)
    requires h < n && d <= n
    ensures i < n
  {
    if h + d < n then h + d else h + d - n
  }

  /** How many steps of HASHMAP_PROBE_NEXT lead from slot `h` to slot `i`. */
  function Dist(n: nat, h: nat, i: nat): (d: nat)
    requires h < n && i < n
    ensures d < n
    ensures At(n, h, d) == i
  {
    if h <= i then i - h else i + n - h
  }

  /** HASHMAP_INDEX_LE: `b` is `a`, or the half-table bit of `b - a` is set. */
  predicate IndexLe(n: nat, a: nat, b: nat)
    requires a < n && b < n
  {
    a == b || Dist(n, a, b) >= n / 2
  }

  predicate BitSet(x: nat, bit: nat)
    requires bit > 0
  {
    (x / bit) % 2 == 1
  }

  /** The test of the source is made on unsigned machine words: `b - a` wraps at the word size,
      and the half-table bit of the result is examined.  For every table size that divides the
      word range this is the cyclic comparison above. */
  lemma IndexLeIsBitTest(n: nat, a: nat, b: nat, words: nat)
    requires n >= 2 && n % 2 == 0 && a < n && b < n && words >= 1
    ensures n * words > 0
    ensures IndexLe(n, a, b) <==> (a == b || BitSet((b - a) % (n * words), n / 2))
  {
    var half := n / 2;
    var word := n * words;
    assert word >= n by { MulGrows(n, words); }
    var x := (b - a) % word;
    if a <= b {
      assert x == b - a by { SmallMod(b - a, word); }
      DivUnique(x, half, if x >= half then 1 else 0);
    } else {
      assert x == b - a + word by { ModWrap(b - a, word); }
      var d := Dist(n, a, b);
      assert x == d + (words - 1) * n;
      var q := 2 * (words - 1) + (if d >= half then 1 else 0);
      assert (words - 1) * n == 2 * (words - 1) * half;
      assert q * half == 2 * (words - 1) * half + (if d >= half then half else 0);
      DivUnique(x, half, q);
    }
  }

  lemma MulGrows(n: nat, k: nat)
    requires k >= 1
    ensures n * k >= n
  {
    assert n * k == n + n * (k - 1);
  }

  lemma SmallMod(x: nat, m: nat)
    requires x < m
    ensures x % m == x
  {
  }

  lemma ModWrap(x: int, m: nat)
    requires x < 0 < x + m
    ensures x % m == x + m
  {
    assert (-1) * m + m == 0;
    DivUniqueInt(x, m, -1);
  }

  lemma DivUniqueInt(x: int, m: nat, q: int)
    requires m > 0 && q * m <= x < q * m + m
    ensures x / m == q && x % m == x - q * m
  {
    var e := x / m;
    assert x == e * m + x % m;
    assert e < q ==> (e + 1) * m <= q * m;
    assert e > q ==> (q + 1) * m <= e * m;
  }

  lemma DivUnique(x: nat, m: nat, q: nat)
    requires m > 0 && q * m <= x < q * m + m
    ensures x / m == q
  {
    DivUniqueInt(x, m, q);
  }

  // ---------------------------------------------------------------- the invariant

  function Home<K>(hash: K -> nat, n: nat, key: K): (h: nat)
    requires n > 0
    ensures h < n
  {
    hash(key) % n
  }

  /** Probing from the home of the entry in slot `i` meets only occupied slots on the way, and
      stops short of the probe limit. */
  ghost predicate Reachable<K, V>(t: Table<K, V>, hash: K -> nat, i: nat)
    requires i < |t| && t[i].Entry?
  {
    var h := Home(hash, |t|, t[i].key);
    Dist(|t|, h, i) < |t| / 2 &&
    forall d: nat :: d < Dist(|t|, h, i) ==> t[At(|t|, h, d)].Entry?
  }

  ghost predicate Chained<K, V>(t: Table<K, V>, hash: K -> nat)
  {
    forall i: nat :: i < |t| && t[i].Entry? ==> Reachable(t, hash, i)
  }

  ghost predicate UniqueKeys<K, V>(t: Table<K, V>)
  {
    forall i: nat, j: nat :: i < |t| && j < |t| && t[i].Entry? && t[j].Entry? && t[i].key == t[j].key ==> i == j
  }

  ghost predicate Sound<K, V>(t: Table<K, V>, hash: K -> nat)
  {
    Chained(t, hash) && UniqueKeys(t)
  }

  ghost function FreeSlots<K, V>(t: Table<K, V>): nat
  {
    multiset(t)[Free]
  }

  /** The finite map a table stands for. */
  ghost function Contents<K(!new), V(!new)>(t: Table<K, V>): (m: map<K, V>)
    requires UniqueKeys(t)
    ensures forall k, v :: (k in m && m[k] == v) <==> Entry(k, v) in t
    ensures forall k :: k in m ==> Entry(k, m[k]) in t
  {
    var keys := set i: nat | i < |t| && t[i].Entry? :: t[i].key;
    map k | k in keys :: DataOf(t, k)
  }

  ghost function DataOf<K(!new), V(!new)>(t: Table<K, V>, k: K): (v: V)
    requires UniqueKeys(t)
    requires exists i: nat :: i < |t| && t[i].Entry? && t[i].key == k
    ensures forall w :: Entry(k, w) in t <==> w == v
  {
    var i: nat :| i < |t| && t[i].Entry? && t[i].key == k;
    t[i].data
  }

  // ---------------------------------------------------------------- probing

  /** The first `d` slots from the home of `key` hold entries with other keys. */
  ghost predicate Passes<K, V>(t: Table<K, V>, hash: K -> nat, key: K, d: nat)
    requires 0 < |t| && d <= |t|
  {
    forall e: nat :: e < d ==>
      var s := t[At(|t|, Home(hash, |t|, key), e)]; s.Entry? && s.key != key
  }

  /** What hashmap_entry_find sees of a key: the data found within the probe limit. */
  ghost predicate Finds<K, V>(t: Table<K, V>, hash: K -> nat, key: K, data: V)
    requires 0 < |t|
  {
    exists d: nat :: d < |t| / 2 && Passes(t, hash, key, d) &&
      t[At(|t|, Home(hash, |t|, key), d)] == Entry(key, data)
  }

  /** Where the chain is intact a lookup finds exactly what is stored. */
  lemma LookupIsMembership<K(!new), V(!new)>(t: Table<K, V>, hash: K -> nat, key: K, data: V)
    requires 0 < |t| && Sound(t, hash)
    ensures Finds(t, hash, key, data) <==> Entry(key, data) in t
  {
    if Entry(key, data) in t {
      var i: nat :| i < |t| && t[i] == Entry(key, data);
      assert Reachable(t, hash, i);
      var h := Home(hash, |t|, key);
      var d := Dist(|t|, h, i);
      forall e: nat | e < d
        ensures var s := t[At(|t|, h, e)]; s.Entry? && s.key != key
      {
        assert t[At(|t|, h, e)].Entry?;
        assert At(|t|, h, e) != i;
      }
      assert Passes(t, hash, key, d);
    }
  }

  /** Meeting a free slot within the probe limit proves the key absent. */
  lemma FreeMeansAbsent<K(!new), V(!new)>(t: Table<K, V>, hash: K -> nat, key: K, d: nat)
    requires Sound(t, hash) && d < |t|
    requires Passes(t, hash, key, d) && t[At(|t|, Home(hash, |t|, key), d)].Free?
    ensures forall i: nat :: i < |t| && t[i].Entry? ==> t[i].key != key
  {
    forall i: nat | i < |t| && t[i].Entry?
      ensures t[i].key != key
    {
      assert Reachable(t, hash, i);
      var h := Home(hash, |t|, t[i].key);
      assert t[At(|t|, h, Dist(|t|, h, i))] == t[i];
    }
  }

  /** Running past the probe limit proves the key absent as well. */
  lemma LimitMeansAbsent<K(!new), V(!new)>(t: Table<K, V>, hash: K -> nat, key: K)
    requires Sound(t, hash) && 0 < |t|
    requires Passes(t, hash, key, |t| / 2)
    ensures forall i: nat :: i < |t| && t[i].Entry? ==> t[i].key != key
  {
    forall i: nat | i < |t| && t[i].Entry?
      ensures t[i].key != key
    {
      assert Reachable(t, hash, i);
      var h := Home(hash, |t|, t[i].key);
      assert t[At(|t|, h, Dist(|t|, h, i))] == t[i];
    }
  }

  /** Pigeonhole: `m` occupied slots in a cyclic window leave at most `n - m` free ones. */
  lemma WindowBoundsFree<K(!new), V(!new)>(t: Table<K, V>, h: nat, m: nat)
    requires h < |t| && m <= |t|
    requires forall e: nat :: e < m ==> t[At(|t|, h, e)].Entry?
    ensures FreeSlots(t) <= |t| - m
  {
    var r := t[h..] + t[..h];
    assert t == t[..h] + t[h..];
    assert multiset(t) == multiset(r);
    assert r == r[..m] + r[m..];
    forall e: nat | e < m
      ensures r[e] != Free
    {
      assert r[e] == t[At(|t|, h, e)];
    }
    assert Free !in r[..m];
    assert multiset(r)[Free] == multiset(r[m..])[Free];
    CountAtMostLength(r[m..], Free);
  }

  lemma CountAtMostLength<T>(s: seq<T>, x: T)
    ensures multiset(s)[x] <= |s|
  {
    assert multiset(s)[x] <= |multiset(s)|;
  }

  /** Storing a new key in the free slot where probing stopped keeps the table sound. */
  lemma StoreKeepsSound<K(!new), V(!new)>(t: Table<K, V>, hash: K -> nat, d: nat, key: K, data: V)
    requires Sound(t, hash) && d < |t| / 2
    requires Passes(t, hash, key, d) && t[At(|t|, Home(hash, |t|, key), d)].Free?
    ensures var t' := t[At(|t|, Home(hash, |t|, key), d) := Entry(key, data)];
            Sound(t', hash) && FreeSlots(t') == FreeSlots(t) - 1 &&
            FreeSlots(t) > 0 &&
            forall k, v :: Entry(k, v) in t' <==> Entry(k, v) in t || (k == key && v == data)
  {
    hide Chained, UniqueKeys, Passes, FreeSlots;
    FreeMeansAbsent(t, hash, key, d);
    StoreKeepsChains(t, hash, d, key, data);
    StoreKeepsUnique(t, At(|t|, Home(hash, |t|, key), d), key, data);
    StoreAddsEntry(t, At(|t|, Home(hash, |t|, key), d), key, data);
  }

  lemma StoreKeepsChains<K(!new), V(!new)>(t: Table<K, V>, hash: K -> nat, d: nat, key: K, data: V)
    requires Chained(t, hash) && d < |t| / 2
    requires Passes(t, hash, key, d)
    ensures Chained(t[At(|t|, Home(hash, |t|, key), d) := Entry(key, data)], hash)
  {
    var h := Home(hash, |t|, key);
    var j := At(|t|, h, d);
    var t' := t[j := Entry(key, data)];
    forall i: nat | i < |t'| && t'[i].Entry?
      ensures Reachable(t', hash, i)
    {
      if i != j {
        assert Reachable(t, hash, i);
      } else {
        assert Dist(|t|, h, j) == d;
      }
    }
  }

  lemma StoreKeepsUnique<K, V>(t: Table<K, V>, j: nat, key: K, data: V)
    requires UniqueKeys(t) && j < |t|
    requires forall i: nat :: i < |t| && t[i].Entry? ==> t[i].key != key
    ensures UniqueKeys(t[j := Entry(key, data)])
  {
  }

  lemma StoreAddsEntry<K(!new), V(!new)>(t: Table<K, V>, j: nat, key: K, data: V)
    requires j < |t| && t[j].Free?
    ensures var t' := t[j := Entry(key, data)];
            FreeSlots(t') == FreeSlots(t) - 1 && FreeSlots(t) > 0 &&
            forall k, v :: Entry(k, v) in t' <==> Entry(k, v) in t || (k == key && v == data)
  {
    var t' := t[j := Entry(key, data)];
    UpdateMultiset(t, j, Entry(key, data));
    forall k, v
      ensures Entry(k, v) in t' <==> Entry(k, v) in t || (k == key && v == data)
    {
      if Entry(k, v) in t {
        var i: nat :| i < |t| && t[i] == Entry(k, v);
        assert t'[i] == Entry(k, v);
      }
      assert t'[j] == Entry(key, data);
    }
  }

  lemma UpdateMultiset<T>(s: seq<T>, i: nat, x: T)
    requires i < |s|
    ensures s[i] in multiset(s)
    ensures multiset(s[i := x]) == multiset(s) - multiset{s[i]} + multiset{x}
  {
    assert s == s[..i] + [s[i]] + s[i + 1..];
    assert s[i := x] == s[..i] + [x] + s[i + 1..];
  }

  // ---------------------------------------------------------------- back-shift deletion

  /** The loop of hashmap_entry_remove from step `k` on: `r` is the slot the entry was removed
      from and `hole` the slot to be filled next. */
  function Shift<K, V>(t: Table<K, V>, hash: K -> nat, r: nat, hole: nat, k: nat): (t': Table<K, V>)
    requires r < |t| && hole < |t|
    ensures |t'| == |t|
    decreases |t| - k
  {
    if k >= |t| || t[At(|t|, r, k)].Free? then
      t[hole := Free]
    else
      var i := At(|t|, r, k);
      if IndexLe(|t|, hole, Home(hash, |t|, t[i].key)) then
        Shift(t[hole := t[i]], hash, r, i, k + 1)
      else
        Shift(t, hash, r, hole, k + 1)
  }

  /** One turn of that loop. */
  lemma ShiftTurn<K, V>(t: Table<K, V>, hash: K -> nat, r: nat, hole: nat, k: nat)
    requires r < |t| && hole < |t|
    ensures k >= |t| || t[At(|t|, r, k)].Free? ==> Shift(t, hash, r, hole, k) == t[hole := Free]
    ensures k < |t| && t[At(|t|, r, k)].Entry? ==>
              var i := At(|t|, r, k);
              Shift(t, hash, r, hole, k) ==
                if IndexLe(|t|, hole, Home(hash, |t|, t[i].key))
                then Shift(t[hole := t[i]], hash, r, i, k + 1) else Shift(t, hash, r, hole, k + 1)
  {
  }

  function Removed<K, V>(t: Table<K, V>, hash: K -> nat, r: nat): Table<K, V>
    requires r < |t|
  {
    Shift(t, hash, r, r, 1)
  }

  lemma SwapMultiset<T>(s: seq<T>, i: nat, j: nat)
    requires i < |s| && j < |s|
    ensures multiset(s[i := s[j]][j := s[i]]) == multiset(s)
  {
    var u := s[i := s[j]];
    UpdateMultiset(s, i, s[j]);
    UpdateMultiset(u, j, s[i]);
  }

  /** Conservation, for every table and every hash: deletion takes out the removed entry, adds
      one free slot, and only rearranges the rest. */
  lemma {:induction false} ShiftConserves<K, V>(t: Table<K, V>, hash: K -> nat, r: nat, hole: nat, k: nat)
    requires r < |t| && hole < |t| && 1 <= k
    requires k < |t| ==> forall e: nat :: k <= e < |t| ==> At(|t|, r, e) != hole
    ensures multiset(Shift(t, hash, r, hole, k)) == multiset(t[hole := Free])
    decreases |t| - k
  {
    if k >= |t| || t[At(|t|, r, k)].Free? {
    } else {
      var i := At(|t|, r, k);
      if IndexLe(|t|, hole, Home(hash, |t|, t[i].key)) {
        var u := t[hole := t[i]];
        ShiftConserves(u, hash, r, i, k + 1);
        var s := t[hole := Free];
        SwapMultiset(s, hole, i);
        assert u[i := Free] == s[hole := s[i]][i := s[hole]];
      } else {
        ShiftConserves(t, hash, r, hole, k + 1);
      }
    }
  }

  lemma RemovedConserves<K(!new), V(!new)>(t: Table<K, V>, hash: K -> nat, r: nat)
    requires r < |t| && t[r].Entry?
    ensures multiset(Removed(t, hash, r)) == multiset(t) - multiset{t[r]} + multiset{Free}
    ensures FreeSlots(Removed(t, hash, r)) == FreeSlots(t) + 1
  {
    ShiftConserves(t, hash, r, r, 1);
    UpdateMultiset(t, r, Free);
  }
}
