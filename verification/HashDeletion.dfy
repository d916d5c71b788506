/** When back-shift deletion (hashmap_entry_remove, src/ayla/hashmap.c) is right: exactly when no
    part of the occupied run behind the removed slot spans half the table on its own and, in a table
    without any free slot, no entry is shifted past the place where the loop stops. */
module HashDeletion {
  import opened HashTable

  /** Offset of the home of the entry `x` slots behind `r`, counted from `r` as well. */
  function HomeOff<K, V>(t: Table<K, V>, hash: K -> nat, r: nat, x: nat): (o: nat)
    requires r < |t| && x < |t| && t[At(|t|, r, x)].Entry?
    ensures o < |t|
  {
    Dist(|t|, r, Home(hash, |t|, t[At(|t|, r, x)].key))
  }

  ghost predicate Occupied<K, V>(t: Table<K, V>, r: nat, k: nat)
    requires r < |t| && k < |t|
  {
    forall x: nat :: x <= k ==> t[At(|t|, r, x)].Entry?
  }

  /** The entries at offsets `m+1 .. k` all live behind offset `m`, where they are now or earlier. */
  ghost predicate Confined<K, V>(t: Table<K, V>, hash: K -> nat, r: nat, m: nat, k: nat)
    requires r < |t| && m < k < |t| && Occupied(t, r, k)
  {
    forall x: nat :: m < x <= k ==> m < HomeOff(t, hash, r, x) <= x
  }

  ghost predicate OverlongAt<K, V>(t: Table<K, V>, hash: K -> nat, r: nat, m: nat, k: nat)
    requires r < |t|
  {
    m < k < |t| && Occupied(t, r, k) && Confined(t, hash, r, m, k) &&
    HomeOff(t, hash, r, k) - m >= |t| / 2
  }

  ghost predicate OverlongFrom<K, V>(t: Table<K, V>, hash: K -> nat, r: nat, from: nat)
    requires r < |t|
  {
    exists m: nat, k: nat :: from <= m && OverlongAt(t, hash, r, m, k)
  }

  /** The condition under which deletion of slot `r` goes wrong: behind some slot `m` of the run
      lies a stretch that never looks back past `m` and ends in an entry whose home is half a
      table or more ahead of `m`. */
  ghost predicate Overlong<K, V>(t: Table<K, V>, hash: K -> nat, r: nat)
    requires r < |t|
  {
    OverlongFrom(t, hash, r, 0)
  }

  /** State of the deletion loop before step `k`: the hole is at offset `m`, everything before
      offset `len` is occupied (the hole still holds its old bytes) and offset `len` is free. */
  ghost predicate Midway<K, V>(t: Table<K, V>, hash: K -> nat, r: nat, m: nat, k: nat, len: nat)
  {
    && r < |t| && |t| % 2 == 0 && m < k <= len < |t|
    && Occupied(t, r, len - 1)
    && t[At(|t|, r, len)].Free?
    && UniqueKeys(t[At(|t|, r, m) := Free])
    && (forall i: nat :: i < |t| && t[i].Entry? && i != At(|t|, r, m) ==> Reachable(t, hash, i))
    && (forall x: nat :: m < x < k ==> m < HomeOff(t, hash, r, x) <= x && HomeOff(t, hash, r, x) - m < |t| / 2)
  }

  /** The comparison of the source says "shift" for every entry whose probe path crosses the
      hole, and besides only for an entry whose home is half a table ahead of the hole. */
  lemma IndexLeMeaning<K, V>(t: Table<K, V>, hash: K -> nat, r: nat, m: nat, k: nat)
    requires r < |t| && |t| % 2 == 0 && m < k < |t| && t[At(|t|, r, k)].Entry?
    requires Reachable(t, hash, At(|t|, r, k))
    ensures var home := Home(hash, |t|, t[At(|t|, r, k)].key);
            IndexLe(|t|, At(|t|, r, m), home) <==>
              !(m < HomeOff(t, hash, r, k) <= k) || HomeOff(t, hash, r, k) - m >= |t| / 2
  {
  }

  lemma SwapKeepsUnique<K, V>(t: Table<K, V>, i: nat, j: nat)
    requires i < |t| && j < |t| && i != j && UniqueKeys(t[i := Free])
    ensures UniqueKeys(t[i := t[j]][j := Free])
  {
    var g := t[i := Free];
    var u := t[i := t[j]][j := Free];
    forall a: nat, b: nat | a < |u| && b < |u| && u[a].Entry? && u[b].Entry? && u[a].key == u[b].key
      ensures a == b
    {
      var a' := if a == i then j else a;
      var b' := if b == i then j else b;
      assert g[a'] == u[a] && g[b'] == u[b];
    }
  }

  /** A rightful shift keeps the loop state. */
  lemma ShiftKeepsMidway<K, V>(t: Table<K, V>, hash: K -> nat, r: nat, m: nat, k: nat, len: nat)
    requires Midway(t, hash, r, m, k, len) && k < len
    requires !(m < HomeOff(t, hash, r, k) <= k)
    ensures Midway(t[At(|t|, r, m) := t[At(|t|, r, k)]], hash, r, k, k + 1, len)
  {
    var n := |t|;
    var hole, i := At(n, r, m), At(n, r, k);
    var u := t[hole := t[i]];
    SwapKeepsUnique(t, hole, i);
    assert u[i := Free] == t[hole := t[i]][i := Free];
    forall j: nat | j < n && u[j].Entry? && j != i
      ensures Reachable(u, hash, j)
    {
      if j == hole {
        assert Reachable(t, hash, i);
        var h := Home(hash, n, t[i].key);
        assert Dist(n, h, hole) <= Dist(n, h, i);
        forall d: nat | d < Dist(n, h, hole)
          ensures u[At(n, h, d)].Entry?
        {
          assert t[At(n, h, d)].Entry?;
        }
      } else {
        assert Reachable(t, hash, j);
      }
    }
    assert Occupied(u, r, len - 1);
  }

  lemma StayKeepsMidway<K, V>(t: Table<K, V>, hash: K -> nat, r: nat, m: nat, k: nat, len: nat)
    requires Midway(t, hash, r, m, k, len) && k < len
    requires m < HomeOff(t, hash, r, k) <= k && HomeOff(t, hash, r, k) - m < |t| / 2
    ensures Midway(t, hash, r, m, k + 1, len)
  {
  }

  /** At the end of the run nothing depends on the hole any more. */
  lemma ClosedRunIsSound<K, V>(t: Table<K, V>, hash: K -> nat, r: nat, m: nat, len: nat)
    requires Midway(t, hash, r, m, len, len)
    ensures Sound(Shift(t, hash, r, At(|t|, r, m), len), hash)
  {
    var n := |t|;
    var hole := At(n, r, m);
    var g := t[hole := Free];
    forall i: nat | i < n && g[i].Entry?
      ensures Reachable(g, hash, i)
    {
      assert Reachable(t, hash, i);
      var h := Home(hash, n, t[i].key);
      forall d: nat | d < Dist(n, h, i)
        ensures g[At(n, h, d)].Entry?
      {
        assert t[At(n, h, d)].Entry?;
        var x := Dist(n, r, i);
        assert At(n, r, x) == i;
        var free := At(n, r, len);
        // the free slot is not on the path, so neither is the hole
        var f := Dist(n, h, free);
        assert At(n, h, f) == free;
        assert x < len ==> t[At(n, r, x)].Entry?;
        if m < x < len {
          assert HomeOff(t, hash, r, x) == Dist(n, r, h);
        }
      }
    }
  }

  lemma OverlongAfterShift<K, V>(t: Table<K, V>, hash: K -> nat, r: nat, m: nat, k: nat)
    requires r < |t| && m < k < |t| && t[At(|t|, r, k)].Entry? && t[At(|t|, r, m)].Entry?
    ensures OverlongFrom(t[At(|t|, r, m) := t[At(|t|, r, k)]], hash, r, k) <==> OverlongFrom(t, hash, r, k)
  {
    var n := |t|;
    var u := t[At(n, r, m) := t[At(n, r, k)]];
    forall a: nat, b: nat | k <= a
      ensures OverlongAt(u, hash, r, a, b) <==> OverlongAt(t, hash, r, a, b)
    {
      if a < b < n {
        forall x: nat | x <= b
          ensures u[At(n, r, x)].Entry? <==> t[At(n, r, x)].Entry?
          ensures x > m ==> u[At(n, r, x)] == t[At(n, r, x)]
        {
        }
        assert Occupied(u, r, b) <==> Occupied(t, r, b) by {
          if Occupied(t, r, b) {
            forall x: nat | x <= b ensures u[At(n, r, x)].Entry? { assert t[At(n, r, x)].Entry?; }
          }
          if Occupied(u, r, b) {
            forall x: nat | x <= b ensures t[At(n, r, x)].Entry? { assert u[At(n, r, x)].Entry?; }
          }
        }
        if Occupied(u, r, b) {
          forall x: nat | a < x <= b
            ensures HomeOff(u, hash, r, x) == HomeOff(t, hash, r, x)
          {
          }
        }
      }
    }
  }

  /** One turn of the loop on a run without overlong stretch: it shifts exactly when it should. */
  lemma RightTurn<K, V>(t: Table<K, V>, hash: K -> nat, r: nat, m: nat, k: nat, len: nat)
    returns (t': Table<K, V>, m': nat)
    requires Midway(t, hash, r, m, k, len) && k < len && !OverlongFrom(t, hash, r, m)
    ensures |t'| == |t| && m' < |t|
    ensures Shift(t, hash, r, At(|t|, r, m), k) == Shift(t', hash, r, At(|t|, r, m'), k + 1)
    ensures Midway(t', hash, r, m', k + 1, len) && !OverlongFrom(t', hash, r, m')
  {
    IndexLeMeaning(t, hash, r, m, k);
    if !(m < HomeOff(t, hash, r, k) <= k) {
      t', m' := t[At(|t|, r, m) := t[At(|t|, r, k)]], k;
      ShiftKeepsMidway(t, hash, r, m, k, len);
      OverlongAfterShift(t, hash, r, m, k);
    } else {
      t', m' := t, m;
      assert Occupied(t, r, k) && Confined(t, hash, r, m, k);
      assert !OverlongAt(t, hash, r, m, k);
      StayKeepsMidway(t, hash, r, m, k, len);
    }
  }

  /** Deletion keeps the table sound when the run has no overlong stretch. */
  lemma {:induction false} ShiftIsSound<K, V>(t: Table<K, V>, hash: K -> nat, r: nat, m: nat, k: nat, len: nat)
    requires Midway(t, hash, r, m, k, len) && !OverlongFrom(t, hash, r, m)
    ensures Sound(Shift(t, hash, r, At(|t|, r, m), k), hash)
    decreases len - k
  {
    hide Sound, Shift, OverlongFrom;
    if k == len {
      ClosedRunIsSound(t, hash, r, m, len);
    } else {
      var t', m' := RightTurn(t, hash, r, m, k, len);
      ShiftIsSound(t', hash, r, m', k + 1, len);
    }
  }

  /** From step `k` on, slots before the hole are final and the free slot behind the run stays free. */
  lemma {:induction false} ShiftLeavesRest<K, V>(
    t: Table<K, V>, hash: K -> nat, r: nat, m: nat, k: nat, len: nat, x: nat)
    requires r < |t| && m < k <= len < |t| && t[At(|t|, r, len)].Free?
    requires x < m || x == len
    ensures Shift(t, hash, r, At(|t|, r, m), k)[At(|t|, r, x)] == t[At(|t|, r, x)]
    decreases len - k
  {
    var i := At(|t|, r, k);
    if k == len || t[i].Free? {
    } else if IndexLe(|t|, At(|t|, r, m), Home(hash, |t|, t[i].key)) {
      var u := t[At(|t|, r, m) := t[i]];
      ShiftLeavesRest(u, hash, r, k, k + 1, len, x);
    } else {
      ShiftLeavesRest(t, hash, r, m, k + 1, len, x);
    }
  }

  /** An entry at offset `m` whose home lies behind it in the run, ahead of the free slot, is lost. */
  ghost predicate Stranded<K, V>(t: Table<K, V>, hash: K -> nat, key: K, data: V)
    requires 0 < |t|
  {
    Entry(key, data) in t && !Finds(t, hash, key, data)
  }

  lemma BehindFreeIsStranded<K(!new), V(!new)>(t: Table<K, V>, hash: K -> nat, r: nat, m: nat, len: nat)
    requires r < |t| && m < len < |t|
    requires t[At(|t|, r, m)].Entry? && t[At(|t|, r, len)].Free?
    requires m < Dist(|t|, r, Home(hash, |t|, t[At(|t|, r, m)].key)) <= len
    requires UniqueKeys(t)
    ensures Stranded(t, hash, t[At(|t|, r, m)].key, t[At(|t|, r, m)].data)
  {
    var n := |t|;
    var key, data := t[At(n, r, m)].key, t[At(n, r, m)].data;
    var h := Home(hash, n, key);
    var f := len - Dist(n, r, h);
    assert At(n, h, f) == At(n, r, len);
    forall d: nat | d < n / 2 && Passes(t, hash, key, d)
      ensures t[At(n, h, d)] != Entry(key, data)
    {
      assert d <= f;
      assert At(n, h, d) != At(n, r, m);
    }
  }

  /** An overlong stretch ends where the loop has not been, and begins no earlier than the next shift. */
  lemma MidStretchAhead<K, V>(t: Table<K, V>, hash: K -> nat, r: nat, m: nat, k: nat, len: nat)
    requires Midway(t, hash, r, m, k, len) && OverlongFrom(t, hash, r, m)
    ensures k < len && t[At(|t|, r, k)].Entry? && Reachable(t, hash, At(|t|, r, k))
    ensures !(m < HomeOff(t, hash, r, k) <= k) ==> OverlongFrom(t, hash, r, k)
  {
    hide UniqueKeys, Reachable;
    var a: nat, b: nat :| m <= a && OverlongAt(t, hash, r, a, b);
    assert k <= b;
    assert b < len;
    assert t[At(|t|, r, k)].Entry? && At(|t|, r, k) != At(|t|, r, m);
  }

  /** One turn of the loop with an overlong stretch still ahead: unless this turn strands the
      entry it looks at, the stretch stays ahead. */
  lemma DoomedTurn<K, V>(t: Table<K, V>, hash: K -> nat, r: nat, m: nat, k: nat, len: nat)
    returns (t': Table<K, V>, m': nat)
    requires Midway(t, hash, r, m, k, len) && OverlongFrom(t, hash, r, m)
    ensures k < len && |t'| == |t| && m' < |t|
    ensures Shift(t, hash, r, At(|t|, r, m), k) == Shift(t', hash, r, At(|t|, r, m'), k + 1)
    ensures if m < HomeOff(t, hash, r, k) <= k && HomeOff(t, hash, r, k) - m >= |t| / 2
            then m' == k && t' == t[At(|t|, r, m) := t[At(|t|, r, k)]]
            else Midway(t', hash, r, m', k + 1, len) && OverlongFrom(t', hash, r, m')
  {
    hide UniqueKeys, Reachable, OverlongFrom;
    MidStretchAhead(t, hash, r, m, k, len);
    IndexLeMeaning(t, hash, r, m, k);
    if !(m < HomeOff(t, hash, r, k) <= k) {
      t', m' := t[At(|t|, r, m) := t[At(|t|, r, k)]], k;
      ShiftKeepsMidway(t, hash, r, m, k, len);
      OverlongAfterShift(t, hash, r, m, k);
    } else if HomeOff(t, hash, r, k) - m >= |t| / 2 {
      t', m' := t[At(|t|, r, m) := t[At(|t|, r, k)]], k;
    } else {
      t', m' := t, m;
      StayKeepsMidway(t, hash, r, m, k, len);
    }
  }

  /** The turn that shifts an entry it should not have shifted loses it for good. */
  lemma WrongShiftStrands<K(!new), V(!new)>(t: Table<K, V>, hash: K -> nat, r: nat, m: nat, k: nat, len: nat)
    requires r < |t| && m < k < len < |t| && t[At(|t|, r, k)].Entry? && t[At(|t|, r, len)].Free?
    requires UniqueKeys(t[At(|t|, r, m) := Free]) && m < HomeOff(t, hash, r, k) <= k
    ensures var e := t[At(|t|, r, k)];
            Stranded(Shift(t[At(|t|, r, m) := e], hash, r, At(|t|, r, k), k + 1), hash, e.key, e.data)
  {
    hide Shift, Stranded, UniqueKeys;
    var e := t[At(|t|, r, k)];
    var u := t[At(|t|, r, m) := e];
    var done := Shift(u, hash, r, At(|t|, r, k), k + 1);
    ShiftLeavesRest(u, hash, r, k, k + 1, len, m);
    ShiftLeavesRest(u, hash, r, k, k + 1, len, len);
    SwapKeepsUnique(t, At(|t|, r, m), At(|t|, r, k));
    ShiftKeepsUnique(u, hash, r, k, k + 1);
    BehindFreeIsStranded(done, hash, r, m, len);
  }

  /** With an overlong stretch ahead, deletion leaves an entry no lookup can reach. */
  lemma {:induction false} ShiftStrands<K(!new), V(!new)>(
    t: Table<K, V>, hash: K -> nat, r: nat, m: nat, k: nat, len: nat)
    returns (key: K, data: V)
    requires Midway(t, hash, r, m, k, len) && OverlongFrom(t, hash, r, m)
    ensures Stranded(Shift(t, hash, r, At(|t|, r, m), k), hash, key, data)
    decreases len - k
  {
    hide Shift, OverlongFrom, Stranded;
    var t', m' := DoomedTurn(t, hash, r, m, k, len);
    if m < HomeOff(t, hash, r, k) <= k && HomeOff(t, hash, r, k) - m >= |t| / 2 {
      WrongShiftStrands(t, hash, r, m, k, len);
      key, data := t[At(|t|, r, k)].key, t[At(|t|, r, k)].data;
    } else {
      key, data := ShiftStrands(t', hash, r, m', k + 1, len);
    }
  }

  /** Deletion never duplicates a key, for any table and any hash. */
  lemma {:induction false} ShiftKeepsUnique<K, V>(t: Table<K, V>, hash: K -> nat, r: nat, m: nat, k: nat)
    requires r < |t| && m < k <= |t| && UniqueKeys(t[At(|t|, r, m) := Free])
    ensures UniqueKeys(Shift(t, hash, r, At(|t|, r, m), k))
    decreases |t| - k
  {
    if k >= |t| || t[At(|t|, r, k)].Free? {
    } else if IndexLe(|t|, At(|t|, r, m), Home(hash, |t|, t[At(|t|, r, k)].key)) {
      SwapKeepsUnique(t, At(|t|, r, m), At(|t|, r, k));
      ShiftKeepsUnique(t[At(|t|, r, m) := t[At(|t|, r, k)]], hash, r, k, k + 1);
    } else {
      ShiftKeepsUnique(t, hash, r, m, k + 1);
    }
  }

  /** Length of the occupied run that starts at `r`. */
  lemma {:induction false} RunLength<K, V>(t: Table<K, V>, r: nat, k: nat) returns (len: nat)
    requires r < |t| && 1 <= k < |t| && Occupied(t, r, k - 1) && FreeSlots(t) > 0
    ensures k <= len < |t| && Occupied(t, r, len - 1) && t[At(|t|, r, len)].Free?
    decreases |t| - k
  {
    assert Free in t;
    var i: nat :| i < |t| && t[i] == Free;
    assert At(|t|, r, Dist(|t|, r, i)) == i;
    len := k;
    if t[At(|t|, r, k)].Entry? {
      len := RunLength(t, r, k + 1);
    }
  }

  lemma StartIsMidway<K, V>(t: Table<K, V>, hash: K -> nat, r: nat, len: nat)
    requires Sound(t, hash) && r < |t| && |t| % 2 == 0 && 1 <= len < |t|
    requires Occupied(t, r, len - 1) && t[At(|t|, r, len)].Free?
    ensures Midway(t, hash, r, 0, 1, len)
  {
    var g := t[r := Free];
    forall a: nat, b: nat | a < |g| && b < |g| && g[a].Entry? && g[b].Entry? && g[a].key == g[b].key
      ensures a == b
    {
      assert t[a] == g[a] && t[b] == g[b];
    }
  }

  /** After deleting slot `r`, lookups agree with the map without that key. */
  ghost predicate DeletesRightly<K(!new), V(!new)>(t: Table<K, V>, hash: K -> nat, r: nat)
    requires r < |t| && t[r].Entry?
  {
    forall k, v :: Finds(Removed(t, hash, r), hash, k, v) <==> Entry(k, v) in t && k != t[r].key
  }

  lemma RemovedMembers<K(!new), V(!new)>(t: Table<K, V>, hash: K -> nat, r: nat)
    requires UniqueKeys(t) && r < |t| && t[r].Entry?
    ensures forall k, v :: Entry(k, v) in Removed(t, hash, r) <==> Entry(k, v) in t && k != t[r].key
  {
    RemovedConserves(t, hash, r);
    var u := Removed(t, hash, r);
    forall k, v
      ensures Entry(k, v) in u <==> Entry(k, v) in t && k != t[r].key
    {
      var e := Entry(k, v);
      assert e in u <==> e in multiset(u);
      assert e in t <==> e in multiset(t);
      UpdateMultiset(t, r, Free);
      var g := t[r := Free];
      assert e in g <==> e in multiset(g);
      if e in g {
        var i: nat :| i < |g| && g[i] == e;
        assert t[i] == e;
      }
      if e in t && k != t[r].key {
        var i: nat :| i < |t| && t[i] == e;
        assert g[i] == e;
      }
    }
  }

  // ---------------------------------------------------------------- tables without a free slot

  /** No entry behind offset `c` looks back to it or past it. */
  ghost predicate ClosedAt<K, V>(t: Table<K, V>, hash: K -> nat, r: nat, c: nat)
    requires r < |t| && Occupied(t, r, |t| - 1)
  {
    forall x: nat :: c < x < |t| ==> c < HomeOff(t, hash, r, x) <= x
  }

  /** The probe path of entry `y` runs over the end of the table to its beginning, counted from `r`, and
      nothing between offset `m` and its home stops the hole. */
  ghost predicate RoundAt<K, V>(t: Table<K, V>, hash: K -> nat, r: nat, m: nat, y: nat)
    requires r < |t| && Occupied(t, r, |t| - 1)
  {
    y < |t| && y != m && y < HomeOff(t, hash, r, y) &&
    forall c: nat :: m <= c < HomeOff(t, hash, r, y) ==> !ClosedAt(t, hash, r, c)
  }

  ghost predicate RoundFrom<K, V>(t: Table<K, V>, hash: K -> nat, r: nat, m: nat)
    requires r < |t| && Occupied(t, r, |t| - 1)
  {
    exists y: nat :: RoundAt(t, hash, r, m, y)
  }

  /** The condition under which deletion from a full table goes wrong although no stretch is overlong:
      some entry whose path crosses the removed slot is shifted, and then the hole passes its home. */
  ghost predicate Circular<K, V>(t: Table<K, V>, hash: K -> nat, r: nat)
    requires r < |t|
  {
    Occupied(t, r, |t| - 1) && RoundFrom(t, hash, r, 0)
  }

  /** State of the deletion loop in a table without a free slot. */
  ghost predicate Turning<K, V>(t: Table<K, V>, hash: K -> nat, r: nat, m: nat, k: nat)
  {
    && r < |t| && |t| % 2 == 0 && m < k <= |t|
    && Occupied(t, r, |t| - 1)
    && UniqueKeys(t[At(|t|, r, m) := Free])
    && (forall i: nat :: i < |t| && t[i].Entry? && i != At(|t|, r, m) ==> Reachable(t, hash, i))
    && (forall x: nat :: m < x < k ==> m < HomeOff(t, hash, r, x) <= x && HomeOff(t, hash, r, x) - m < |t| / 2)
  }

  lemma ShiftKeepsTurning<K, V>(t: Table<K, V>, hash: K -> nat, r: nat, m: nat, k: nat)
    requires Turning(t, hash, r, m, k) && k < |t|
    requires !(m < HomeOff(t, hash, r, k) <= k)
    ensures Turning(t[At(|t|, r, m) := t[At(|t|, r, k)]], hash, r, k, k + 1)
  {
    var n := |t|;
    var hole, i := At(n, r, m), At(n, r, k);
    var u := t[hole := t[i]];
    SwapKeepsUnique(t, hole, i);
    assert u[i := Free] == t[hole := t[i]][i := Free];
    AllOccupied(t, r);
    forall j: nat | j < n && u[j].Entry? && j != i
      ensures Reachable(u, hash, j)
    {
      if j == hole {
        assert Reachable(t, hash, i);
        var h := Home(hash, n, t[i].key);
        assert Dist(n, h, hole) <= Dist(n, h, i);
      } else {
        assert Reachable(t, hash, j);
      }
    }
  }

  lemma AllOccupied<K, V>(t: Table<K, V>, r: nat)
    requires r < |t| && Occupied(t, r, |t| - 1)
    ensures forall i: nat :: i < |t| ==> t[i].Entry?
  {
    forall i: nat | i < |t|
      ensures t[i].Entry?
    {
      assert At(|t|, r, Dist(|t|, r, i)) == i;
    }
  }

  lemma StayKeepsTurning<K, V>(t: Table<K, V>, hash: K -> nat, r: nat, m: nat, k: nat)
    requires Turning(t, hash, r, m, k) && k < |t|
    requires m < HomeOff(t, hash, r, k) <= k && HomeOff(t, hash, r, k) - m < |t| / 2
    ensures Turning(t, hash, r, m, k + 1)
  {
  }

  lemma HomesAfterShift<K, V>(t: Table<K, V>, hash: K -> nat, r: nat, m: nat, k: nat)
    requires r < |t| && m < k < |t| && Occupied(t, r, |t| - 1)
    requires Occupied(t[At(|t|, r, m) := t[At(|t|, r, k)]], r, |t| - 1)
    ensures var u := t[At(|t|, r, m) := t[At(|t|, r, k)]];
            && (forall x: nat :: x < |t| && x != m ==> HomeOff(u, hash, r, x) == HomeOff(t, hash, r, x))
            && HomeOff(u, hash, r, m) == HomeOff(t, hash, r, k)
  {
    var u := t[At(|t|, r, m) := t[At(|t|, r, k)]];
    forall x: nat | x < |t| && x != m
      ensures HomeOff(u, hash, r, x) == HomeOff(t, hash, r, x)
    {
      assert At(|t|, r, x) != At(|t|, r, m);
    }
  }

  lemma ClosedAfterShift<K, V>(t: Table<K, V>, hash: K -> nat, r: nat, m: nat, k: nat)
    requires r < |t| && m < k < |t| && Occupied(t, r, |t| - 1) && !(m < HomeOff(t, hash, r, k) <= k)
    requires Occupied(t[At(|t|, r, m) := t[At(|t|, r, k)]], r, |t| - 1)
    ensures var u := t[At(|t|, r, m) := t[At(|t|, r, k)]];
            && (forall c: nat :: k <= c < |t| ==> (ClosedAt(u, hash, r, c) <==> ClosedAt(t, hash, r, c)))
            && (forall c: nat :: m <= c < k ==> !ClosedAt(t, hash, r, c))
  {
    hide HomeOff;
    HomesAfterShift(t, hash, r, m, k);
  }

  /** Whether the hole will pass a home is settled by the entries the loop has not come to. */
  lemma RoundAfterShift<K, V>(t: Table<K, V>, hash: K -> nat, r: nat, m: nat, k: nat)
    requires Turning(t, hash, r, m, k) && k < |t| && !(m < HomeOff(t, hash, r, k) <= k)
    requires Turning(t[At(|t|, r, m) := t[At(|t|, r, k)]], hash, r, k, k + 1)
    ensures RoundFrom(t[At(|t|, r, m) := t[At(|t|, r, k)]], hash, r, k) <==> RoundFrom(t, hash, r, m)
  {
    hide ClosedAt, HomeOff, UniqueKeys, Reachable;
    var n := |t|;
    var u := t[At(n, r, m) := t[At(n, r, k)]];
    HomesAfterShift(t, hash, r, m, k);
    ClosedAfterShift(t, hash, r, m, k);
    if y: nat :| RoundAt(t, hash, r, m, y) {
      var z := if y == k then m else y;
      assert RoundAt(u, hash, r, k, z);
    }
    if z: nat :| RoundAt(u, hash, r, k, z) {
      var y := if z == m then k else z;
      assert RoundAt(t, hash, r, m, y);
    }
  }

  /** When every slot has been looked at, the table is sound if and only if no path crosses the hole. */
  lemma FullTurnEnds<K, V>(t: Table<K, V>, hash: K -> nat, r: nat, m: nat)
    requires Turning(t, hash, r, m, |t|)
    ensures Sound(t[At(|t|, r, m) := Free], hash) <==> !RoundFrom(t, hash, r, m)
  {
    hide Reachable, UniqueKeys;
    var n := |t|;
    var g := t[At(n, r, m) := Free];
    AllOccupied(t, r);
    assert ClosedAt(t, hash, r, m);
    if y: nat :| RoundAt(t, hash, r, m, y) {
      PathCrosses(t, hash, r, m, y);
      assert !Chained(g, hash);
    } else {
      forall i: nat | i < n && g[i].Entry?
        ensures Reachable(g, hash, i)
      {
        var x := Dist(n, r, i);
        assert At(n, r, x) == i;
        assert !RoundAt(t, hash, r, m, x);
        PathCrosses(t, hash, r, m, x);
      }
    }
  }

  /** In a full table with a hole put in at offset `m`, an entry is reachable if and only if its path
      does not cross the hole. */
  lemma PathCrosses<K, V>(t: Table<K, V>, hash: K -> nat, r: nat, m: nat, x: nat)
    requires r < |t| && m < |t| && x < |t| && x != m && Occupied(t, r, |t| - 1)
    requires Reachable(t, hash, At(|t|, r, x))
    requires x > m ==> m < HomeOff(t, hash, r, x) <= x
    ensures var g := t[At(|t|, r, m) := Free];
            g[At(|t|, r, x)].Entry? && (Reachable(g, hash, At(|t|, r, x)) <==> !(x < HomeOff(t, hash, r, x) <= m))
  {
    var n := |t|;
    var hole, i := At(n, r, m), At(n, r, x);
    var g := t[hole := Free];
    var h := Home(hash, n, t[i].key);
    assert i != hole && HomeOff(t, hash, r, x) == Dist(n, r, h);
    AllOccupied(t, r);
    if x < HomeOff(t, hash, r, x) <= m {
      var d := m - HomeOff(t, hash, r, x);
      assert At(n, h, d) == hole && d < Dist(n, h, i);
    } else {
      forall d: nat | d < Dist(n, h, i)
        ensures g[At(n, h, d)].Entry?
      {
      }
    }
  }

  /** A full table after deletion, if no stretch is overlong. */
  lemma {:induction false} FullShiftExact<K, V>(t: Table<K, V>, hash: K -> nat, r: nat, m: nat, k: nat)
    requires Turning(t, hash, r, m, k) && !OverlongFrom(t, hash, r, m)
    ensures Sound(Shift(t, hash, r, At(|t|, r, m), k), hash) <==> !RoundFrom(t, hash, r, m)
    decreases |t| - k
  {
    hide Sound, Shift, OverlongFrom, RoundFrom;
    ShiftTurn(t, hash, r, At(|t|, r, m), k);
    if k == |t| {
      FullTurnEnds(t, hash, r, m);
    } else {
      assert t[At(|t|, r, k)].Entry?;
      FullTurnDecides(t, hash, r, m, k);
      if !(m < HomeOff(t, hash, r, k) <= k) {
        var u := t[At(|t|, r, m) := t[At(|t|, r, k)]];
        ShiftKeepsTurning(t, hash, r, m, k);
        RoundAfterShift(t, hash, r, m, k);
        OverlongAfterShift(t, hash, r, m, k);
        OverlongLater(t, hash, r, m, k);
        FullShiftExact(u, hash, r, k, k + 1);
      } else {
        NotOverlongHere(t, hash, r, m, k);
        StayKeepsTurning(t, hash, r, m, k);
        FullShiftExact(t, hash, r, m, k + 1);
      }
    }
  }

  /** The comparison of the source, for a table without a free slot. */
  lemma FullTurnDecides<K, V>(t: Table<K, V>, hash: K -> nat, r: nat, m: nat, k: nat)
    requires Turning(t, hash, r, m, k) && k < |t|
    ensures IndexLe(|t|, At(|t|, r, m), Home(hash, |t|, t[At(|t|, r, k)].key)) <==>
            !(m < HomeOff(t, hash, r, k) <= k) || HomeOff(t, hash, r, k) - m >= |t| / 2
  {
    assert At(|t|, r, k) != At(|t|, r, m);
    IndexLeMeaning(t, hash, r, m, k);
  }

  lemma OverlongLater<K, V>(t: Table<K, V>, hash: K -> nat, r: nat, m: nat, k: nat)
    requires r < |t| && m <= k
    ensures OverlongFrom(t, hash, r, k) ==> OverlongFrom(t, hash, r, m)
  {
  }

  lemma NotOverlongHere<K, V>(t: Table<K, V>, hash: K -> nat, r: nat, m: nat, k: nat)
    requires Turning(t, hash, r, m, k) && k < |t| && !OverlongFrom(t, hash, r, m)
    requires m < HomeOff(t, hash, r, k) <= k
    ensures HomeOff(t, hash, r, k) - m < |t| / 2
  {
    assert Occupied(t, r, k) && Confined(t, hash, r, m, k);
    assert !OverlongAt(t, hash, r, m, k);
  }

  /** The loop leaves the last hole free, at the offset where it stopped or behind it. */
  lemma {:induction false} ShiftEndsFree<K, V>(t: Table<K, V>, hash: K -> nat, r: nat, m: nat, k: nat) returns (f: nat)
    requires r < |t| && m < k <= |t|
    ensures m <= f < |t| && Shift(t, hash, r, At(|t|, r, m), k)[At(|t|, r, f)].Free?
    decreases |t| - k
  {
    if k == |t| || t[At(|t|, r, k)].Free? {
      f := m;
    } else if IndexLe(|t|, At(|t|, r, m), Home(hash, |t|, t[At(|t|, r, k)].key)) {
      f := ShiftEndsFree(t[At(|t|, r, m) := t[At(|t|, r, k)]], hash, r, k, k + 1);
    } else {
      f := ShiftEndsFree(t, hash, r, m, k + 1);
    }
  }

  /** Slots before the hole are final. */
  lemma {:induction false} ShiftLeavesFront<K, V>(t: Table<K, V>, hash: K -> nat, r: nat, m: nat, k: nat, x: nat)
    requires r < |t| && x < m < k <= |t|
    ensures Shift(t, hash, r, At(|t|, r, m), k)[At(|t|, r, x)] == t[At(|t|, r, x)]
    decreases |t| - k
  {
    if k == |t| || t[At(|t|, r, k)].Free? {
    } else if IndexLe(|t|, At(|t|, r, m), Home(hash, |t|, t[At(|t|, r, k)].key)) {
      ShiftLeavesFront(t[At(|t|, r, m) := t[At(|t|, r, k)]], hash, r, k, k + 1, x);
    } else {
      ShiftLeavesFront(t, hash, r, m, k + 1, x);
    }
  }

  lemma FullWrongShiftStrands<K(!new), V(!new)>(t: Table<K, V>, hash: K -> nat, r: nat, m: nat, k: nat)
    requires r < |t| && m < k < |t| && t[At(|t|, r, k)].Entry?
    requires UniqueKeys(t[At(|t|, r, m) := Free]) && m < HomeOff(t, hash, r, k) <= k
    ensures var e := t[At(|t|, r, k)];
            Stranded(Shift(t[At(|t|, r, m) := e], hash, r, At(|t|, r, k), k + 1), hash, e.key, e.data)
  {
    hide Shift, Stranded, UniqueKeys;
    var e := t[At(|t|, r, k)];
    var u := t[At(|t|, r, m) := e];
    var done := Shift(u, hash, r, At(|t|, r, k), k + 1);
    ShiftLeavesFront(u, hash, r, k, k + 1, m);
    var f := ShiftEndsFree(u, hash, r, k, k + 1);
    SwapKeepsUnique(t, At(|t|, r, m), At(|t|, r, k));
    ShiftKeepsUnique(u, hash, r, k, k + 1);
    BehindFreeIsStranded(done, hash, r, m, f);
  }

  /** An overlong stretch ends where the loop has not been, and begins no earlier than the next shift. */
  lemma StretchAhead<K, V>(t: Table<K, V>, hash: K -> nat, r: nat, m: nat, k: nat)
    requires Turning(t, hash, r, m, k) && OverlongFrom(t, hash, r, m)
    ensures k < |t| && t[At(|t|, r, k)].Entry?
    ensures !(m < HomeOff(t, hash, r, k) <= k) ==> OverlongFrom(t, hash, r, k)
  {
    hide UniqueKeys, Reachable;
    var a: nat, b: nat :| m <= a && OverlongAt(t, hash, r, a, b);
    assert k <= b;
    assert t[At(|t|, r, k)].Entry?;
  }

  /** With an overlong stretch ahead, deletion from a full table strands an entry as well. */
  lemma {:induction false} FullShiftStrands<K(!new), V(!new)>(t: Table<K, V>, hash: K -> nat, r: nat, m: nat, k: nat)
    returns (key: K, data: V)
    requires Turning(t, hash, r, m, k) && OverlongFrom(t, hash, r, m)
    ensures Stranded(Shift(t, hash, r, At(|t|, r, m), k), hash, key, data)
    decreases |t| - k
  {
    hide Shift, Stranded, OverlongFrom, UniqueKeys, Reachable;
    StretchAhead(t, hash, r, m, k);
    ShiftTurn(t, hash, r, At(|t|, r, m), k);
    FullTurnDecides(t, hash, r, m, k);
    var u := t[At(|t|, r, m) := t[At(|t|, r, k)]];
    if !(m < HomeOff(t, hash, r, k) <= k) {
      ShiftKeepsTurning(t, hash, r, m, k);
      OverlongAfterShift(t, hash, r, m, k);
      key, data := FullShiftStrands(u, hash, r, k, k + 1);
    } else if HomeOff(t, hash, r, k) - m >= |t| / 2 {
      FullWrongShiftStrands(t, hash, r, m, k);
      key, data := t[At(|t|, r, k)].key, t[At(|t|, r, k)].data;
    } else {
      StayKeepsTurning(t, hash, r, m, k);
      key, data := FullShiftStrands(t, hash, r, m, k + 1);
    }
  }

  lemma StartIsTurning<K, V>(t: Table<K, V>, hash: K -> nat, r: nat)
    requires Sound(t, hash) && r < |t| && |t| >= 2 && |t| % 2 == 0 && Occupied(t, r, |t| - 1)
    ensures Turning(t, hash, r, 0, 1)
  {
    var g := t[r := Free];
    forall a: nat, b: nat | a < |g| && b < |g| && g[a].Entry? && g[b].Entry? && g[a].key == g[b].key
      ensures a == b
    {
      assert t[a] == g[a] && t[b] == g[b];
    }
  }

  lemma NoFreeIsOccupied<K, V>(t: Table<K, V>, r: nat)
    requires r < |t|
    ensures FreeSlots(t) == 0 <==> Occupied(t, r, |t| - 1)
  {
    if Occupied(t, r, |t| - 1) {
      AllOccupied(t, r);
      assert Free !in t;
    } else {
      var x: nat :| x <= |t| - 1 && t[At(|t|, r, x)].Free?;
      assert Free in t;
    }
  }

  // ---------------------------------------------------------------- the exact condition

  /** Soundness and right lookups are the same thing after a deletion that stranded nothing. */
  lemma SoundDeletesRightly<K(!new), V(!new)>(t: Table<K, V>, hash: K -> nat, r: nat)
    requires Sound(t, hash) && r < |t| && t[r].Entry? && Sound(Removed(t, hash, r), hash)
    ensures DeletesRightly(t, hash, r)
  {
    hide Removed, Sound;
    assert UniqueKeys(t) by { SoundParts(t, hash); }
    RemovedMembers(t, hash, r);
    var u := Removed(t, hash, r);
    RemovedLength(t, hash, r);
    forall k, v
      ensures Finds(u, hash, k, v) <==> Entry(k, v) in t && k != t[r].key
    {
      LookupIsMembership(u, hash, k, v);
    }
  }

  lemma SoundParts<K, V>(t: Table<K, V>, hash: K -> nat)
    requires Sound(t, hash)
    ensures UniqueKeys(t) && Chained(t, hash)
  {
  }

  lemma RemovedLength<K, V>(t: Table<K, V>, hash: K -> nat, r: nat)
    requires r < |t|
    ensures |Removed(t, hash, r)| == |t|
  {
  }

  /** A stranded entry spoils both. */
  lemma StrandedSpoils<K(!new), V(!new)>(t: Table<K, V>, hash: K -> nat, r: nat, key: K, data: V)
    requires Sound(t, hash) && r < |t| && t[r].Entry? && Stranded(Removed(t, hash, r), hash, key, data)
    ensures !DeletesRightly(t, hash, r) && !Sound(Removed(t, hash, r), hash)
  {
    hide Removed, Sound, Finds;
    SoundParts(t, hash);
    RemovedMembers(t, hash, r);
    RemovedLength(t, hash, r);
    var u := Removed(t, hash, r);
    assert Entry(key, data) in u && !Finds(u, hash, key, data);
    assert Entry(key, data) in t && key != t[r].key;
    if Sound(u, hash) {
      LookupIsMembership(u, hash, key, data);
    }
  }

  /** An unreachable entry of a table with distinct keys is not found. */
  lemma UnsoundIsStranded<K(!new), V(!new)>(t: Table<K, V>, hash: K -> nat) returns (key: K, data: V)
    requires UniqueKeys(t) && 0 < |t| && !Sound(t, hash)
    ensures Stranded(t, hash, key, data)
  {
    var i: nat :| i < |t| && t[i].Entry? && !Reachable(t, hash, i);
    key, data := t[i].key, t[i].data;
    var h := Home(hash, |t|, key);
    forall d: nat | d < |t| / 2 && Passes(t, hash, key, d)
      ensures t[At(|t|, h, d)] != Entry(key, data)
    {
      FoundIsReachable(t, hash, key, d);
    }
  }

  lemma FoundIsReachable<K(!new), V(!new)>(t: Table<K, V>, hash: K -> nat, key: K, d: nat)
    requires UniqueKeys(t) && d < |t| / 2 && Passes(t, hash, key, d)
    ensures var s := t[At(|t|, Home(hash, |t|, key), d)];
            s.Entry? && s.key == key ==> forall i: nat :: i < |t| && t[i] == s ==> Reachable(t, hash, i)
  {
    var h := Home(hash, |t|, key);
    var j := At(|t|, h, d);
    if t[j].Entry? && t[j].key == key {
      assert d == Dist(|t|, h, j);
      forall e: nat | e < d
        ensures t[At(|t|, h, e)].Entry?
      {
      }
      assert Reachable(t, hash, j);
    }
  }

  lemma FullDeletionIsExact<K(!new), V(!new)>(t: Table<K, V>, hash: K -> nat, r: nat)
    requires Sound(t, hash) && |t| >= 2 && |t| % 2 == 0 && r < |t| && Occupied(t, r, |t| - 1)
    ensures Sound(Removed(t, hash, r), hash) <==> !Overlong(t, hash, r) && !Circular(t, hash, r)
  {
    hide Sound, Shift, OverlongFrom, RoundFrom, Stranded;
    StartIsTurning(t, hash, r);
    assert t[At(|t|, r, 0)].Entry?;
    if Overlong(t, hash, r) {
      var key, data := FullShiftStrands(t, hash, r, 0, 1);
      StrandedSpoils(t, hash, r, key, data);
    } else {
      FullShiftExact(t, hash, r, 0, 1);
    }
  }

  lemma PartDeletionIsExact<K(!new), V(!new)>(t: Table<K, V>, hash: K -> nat, r: nat)
    requires Sound(t, hash) && |t| >= 2 && |t| % 2 == 0 && r < |t| && t[r].Entry? && FreeSlots(t) > 0
    ensures Sound(Removed(t, hash, r), hash) <==> !Overlong(t, hash, r)
  {
    hide Sound, Shift, OverlongFrom, Stranded, FreeSlots;
    assert Occupied(t, r, 0);
    var len := RunLength(t, r, 1);
    StartIsMidway(t, hash, r, len);
    if Overlong(t, hash, r) {
      var key, data := ShiftStrands(t, hash, r, 0, 1, len);
      StrandedSpoils(t, hash, r, key, data);
    } else {
      ShiftIsSound(t, hash, r, 0, 1, len);
    }
  }

  /** Main result: for every sound table and every hash, deletion is right if and only if no stretch of
      the run is overlong and the table is not full with an entry whose home the hole passes. */
  lemma DeletionIsExact<K(!new), V(!new)>(t: Table<K, V>, hash: K -> nat, r: nat)
    requires Sound(t, hash) && |t| >= 2 && |t| % 2 == 0 && r < |t| && t[r].Entry?
    ensures Sound(Removed(t, hash, r), hash) <==> !Overlong(t, hash, r) && !Circular(t, hash, r)
    ensures DeletesRightly(t, hash, r) <==> !Overlong(t, hash, r) && !Circular(t, hash, r)
    ensures FreeSlots(t) > 0 ==> !Circular(t, hash, r)
  {
    hide Sound, Removed, Overlong, RoundFrom, Stranded, DeletesRightly;
    NoFreeIsOccupied(t, r);
    if Occupied(t, r, |t| - 1) {
      FullDeletionIsExact(t, hash, r);
    } else {
      PartDeletionIsExact(t, hash, r);
    }
    if Sound(Removed(t, hash, r), hash) {
      SoundDeletesRightly(t, hash, r);
    } else {
      RemovedUnique(t, hash, r);
      RemovedLength(t, hash, r);
      var key, data := UnsoundIsStranded(Removed(t, hash, r), hash);
      StrandedSpoils(t, hash, r, key, data);
    }
  }

  lemma RemovedUnique<K, V>(t: Table<K, V>, hash: K -> nat, r: nat)
    requires Sound(t, hash) && |t| >= 2 && r < |t|
    ensures UniqueKeys(Removed(t, hash, r))
  {
    var g := t[r := Free];
    forall a: nat, b: nat | a < |g| && b < |g| && g[a].Entry? && g[b].Entry? && g[a].key == g[b].key
      ensures a == b
    {
      assert t[a] == g[a] && t[b] == g[b];
    }
    ShiftKeepsUnique(t, hash, r, 0, 1);
  }

  /** A table at most half full has no overlong stretch, whatever the hash. */
  lemma HalfFullIsShort<K(!new), V(!new)>(t: Table<K, V>, hash: K -> nat, r: nat)
    requires r < |t| && |t| % 2 == 0 && 2 * FreeSlots(t) >= |t|
    ensures !Overlong(t, hash, r)
  {
    forall m: nat, k: nat
      ensures !OverlongAt(t, hash, r, m, k)
    {
      if k < |t| && Occupied(t, r, k) {
        WindowBoundsFree(t, r, k + 1);
      }
    }
  }

  /** Homes 0..16 of a 32-slot table, each entry in its own slot; slot 0 is removed. */
  function StaircaseTable(): Table<nat, nat>
  {
    seq(32, (i: nat) => if i <= 16 then Entry(i, i) else Free)
  }

  lemma StaircaseIsOverlong()
    ensures Sound(StaircaseTable(), (k: nat) => k)
    ensures Overlong(StaircaseTable(), (k: nat) => k, 0)
    ensures !DeletesRightly(StaircaseTable(), (k: nat) => k, 0)
  {
    var t, hash := StaircaseTable(), (k: nat) => k;
    forall i: nat | i < 32 && t[i].Entry?
      ensures Reachable(t, hash, i) && Home(hash, 32, t[i].key) == i
    {
    }
    assert Occupied(t, 0, 16) && Confined(t, hash, 0, 0, 16);
    assert OverlongAt(t, hash, 0, 0, 16);
    assert t[31] == Free;
    assert Free in t;
    DeletionIsExact(t, hash, 0);
  }

  /** A full table of 8 in which each entry sits one slot behind its home, but the one in slot 1, whose
      home is slot 7: removing the entry in slot 0 loses it. */
  function RingTable(): Table<nat, nat>
  {
    [Entry(0, 0), Entry(7, 7), Entry(1, 1), Entry(2, 2), Entry(3, 3), Entry(4, 4), Entry(5, 5), Entry(6, 6)]
  }

  function RingHome(x: nat): nat {
    if x == 1 then 7 else if x == 0 then 0 else x - 1
  }

  lemma RingMeans(x: nat)
    requires x < 8
    ensures RingTable()[x] == Entry(RingHome(x), RingHome(x))
    ensures HomeOff(RingTable(), (k: nat) => k, 0, x) == RingHome(x)
  {
  }

  lemma RingIsSound()
    ensures Sound(RingTable(), (k: nat) => k) && Occupied(RingTable(), 0, 7)
  {
    var t, hash := RingTable(), (k: nat) => k;
    assert |t| == 8;
    hide RingTable;
    forall x: nat | x < 8
      ensures t[x] == Entry(RingHome(x), RingHome(x))
    {
      RingMeans(x);
    }
    forall i: nat | i < 8
      ensures Reachable(t, hash, i)
    {
      assert Home(hash, 8, RingHome(i)) == RingHome(i);
      assert Dist(8, RingHome(i), i) == if i == 0 then 0 else if i == 1 then 2 else 1;
    }
  }

  lemma RingIsCircular()
    ensures |RingTable()| == 8 && RingTable()[0].Entry? && Sound(RingTable(), (k: nat) => k)
    ensures !Overlong(RingTable(), (k: nat) => k, 0) && Circular(RingTable(), (k: nat) => k, 0)
    ensures !DeletesRightly(RingTable(), (k: nat) => k, 0)
  {
    var t, hash := RingTable(), (k: nat) => k;
    RingIsSound();
    assert |t| == 8 && t[0].Entry?;
    hide RingTable, HomeOff, Sound;
    RingMeans(1);
    forall c: nat | c < 7
      ensures !ClosedAt(t, hash, 0, c)
    {
      RingMeans(c + 1);
    }
    assert RoundAt(t, hash, 0, 0, 1);
    forall m: nat, k: nat
      ensures !OverlongAt(t, hash, 0, m, k)
    {
      if m < k < 8 {
        RingMeans(m + 1);
        RingMeans(k);
      }
    }
    DeletionIsExact(t, hash, 0);
  }
}
