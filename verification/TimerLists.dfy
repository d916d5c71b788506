/** The timer list of src/ayla/timer.c as a value: what setting, cancelling and advancing do to
    it, and what that means for the order in which timers fire. */
module TimerLists {

  /** An armed timer; `stamp` counts armings, so it tells which of two was armed first. */
  datatype Entry<T> = Entry(timer: T, deadline: nat, stamp: nat)

  ghost predicate Before<T>(a: Entry<T>, b: Entry<T>) {
    a.deadline < b.deadline || (a.deadline == b.deadline && a.stamp < b.stamp)
  }

  /** Sorted by deadline, first come first served among equals, and one entry a timer. */
  ghost predicate Ordered<T>(s: seq<Entry<T>>) {
    forall i, j :: 0 <= i < j < |s| ==> Before(s[i], s[j]) && s[i].timer != s[j].timer
  }

  lemma OrderedTail<T>(s: seq<Entry<T>>)
    requires Ordered(s) && s != []
    ensures Ordered(s[1..]) && forall x :: x in s[1..] ==> Before(s[0], x) && x.timer != s[0].timer
    ensures forall x :: x in s <==> x == s[0] || x in s[1..]
  {
    hide Before;
    assert s == [s[0]] + s[1..];
  }

  lemma OrderedCons<T>(a: Entry<T>, s: seq<Entry<T>>)
    requires Ordered(s) && forall x :: x in s ==> Before(a, x) && x.timer != a.timer
    ensures Ordered([a] + s)
  {
    hide Before;
  }

  /** The list without the entry of `t`. */
  function Without<T(==)>(s: seq<Entry<T>>, t: T): (r: seq<Entry<T>>)
    ensures |s| - 1 <= |r| <= |s|
    decreases |s|
  {
    if s == [] then [] else if s[0].timer == t then s[1..] else [s[0]] + Without(s[1..], t)
  }

  /** The list with `e` in front of the first entry that is due later. */
  function Inserted<T>(s: seq<Entry<T>>, e: Entry<T>): (r: seq<Entry<T>>)
    ensures |r| == |s| + 1
    decreases |s|
  {
    if s == [] || e.deadline < s[0].deadline then [e] + s else [s[0]] + Inserted(s[1..], e)
  }

  lemma {:induction false} WithoutKeeps<T>(s: seq<Entry<T>>, t: T)
    requires Ordered(s)
    ensures Ordered(Without(s, t)) && forall e :: e in Without(s, t) <==> e in s && e.timer != t
    decreases |s|
  {
    hide Ordered, Before;
    if s != [] {
      OrderedTail(s);
      if s[0].timer != t {
        WithoutKeeps(s[1..], t);
        var rest := Without(s[1..], t);
        assert Ordered(rest);
        forall x | x in rest
          ensures Before(s[0], x) && x.timer != s[0].timer
        {
          assert x in s[1..];
        }
        OrderedCons(s[0], rest);
      }
    } else {
      assert s == Without(s, t);
    }
  }

  lemma {:induction false} InsertedContents<T>(s: seq<Entry<T>>, e: Entry<T>)
    ensures multiset(Inserted(s, e)) == multiset(s) + multiset{e}
    ensures forall x :: x in Inserted(s, e) <==> x in s || x == e
    decreases |s|
  {
    if s != [] && e.deadline >= s[0].deadline {
      InsertedContents(s[1..], e);
      assert s == [s[0]] + s[1..];
    }
  }

  lemma InsertedMember<T>(s: seq<Entry<T>>, e: Entry<T>, x: Entry<T>)
    requires x in Inserted(s, e)
    ensures x in s || x == e
  {
    InsertedContents(s, e);
  }

  lemma {:induction false} InsertedKeeps<T>(s: seq<Entry<T>>, e: Entry<T>)
    requires Ordered(s) && forall x :: x in s ==> x.stamp < e.stamp && x.timer != e.timer
    ensures Ordered(Inserted(s, e))
    decreases |s|
  {
    hide Ordered;
    if s == [] {
      OrderedCons(e, s);
    } else {
      OrderedTail(s);
      if e.deadline < s[0].deadline {
        OrderedCons(e, s);
      } else {
        InsertedKeeps(s[1..], e);
        InsertedContents(s[1..], e);
        var rest := Inserted(s[1..], e);
        assert Ordered(rest);
        forall x | x in rest
          ensures Before(s[0], x) && x.timer != s[0].timer
        {
          assert x in s[1..] || x == e;
        }
        OrderedCons(s[0], rest);
      }
    }
  }

  lemma {:induction false} WithoutMultiset<T>(s: seq<Entry<T>>, t: T)
    ensures multiset(Without(s, t)) + multiset(Removed(s, t)) == multiset(s)
    decreases |s|
  {
    if s != [] {
      assert s == [s[0]] + s[1..];
      if s[0].timer != t {
        WithoutMultiset(s[1..], t);
      }
    }
  }

  /** The entry that Without takes out, if there is one. */
  function Removed<T(==)>(s: seq<Entry<T>>, t: T): (r: seq<Entry<T>>)
    ensures |r| <= 1
    decreases |s|
  {
    if s == [] then [] else if s[0].timer == t then [s[0]] else Removed(s[1..], t)
  }

  // ---------------------------------------------------------------- handlers

  /** The list, the number of armings so far and the number of clock readings so far. */
  datatype World<T> = World(list: seq<Entry<T>>, armed: nat, looks: nat)

  /** What handlers and other callers do. */
  datatype Action<T> = Set(timer: T, ms: nat) | Cancel(timer: T)

  /** The readings of a clock that is positive and never goes back. */
  ghost predicate Monotone(clock: nat -> nat) {
    clock(0) > 0 && forall i, j :: 0 <= i <= j ==> clock(i) <= clock(j)
  }

  /** timer_set and timer_cancel. */
  function Act<T(==)>(w: World<T>, a: Action<T>, clock: nat -> nat): World<T> {
    match a
    case Set(t, ms) =>
      World(Inserted(Without(w.list, t), Entry(t, clock(w.looks) + ms, w.armed)), w.armed + 1, w.looks + 1)
    case Cancel(t) => World(Without(w.list, t), w.armed, w.looks)
  }

  function ActAll<T(==)>(w: World<T>, acts: seq<Action<T>>, clock: nat -> nat): (r: World<T>)
    ensures |r.list| <= |w.list| + |acts| && r.looks >= w.looks && r.armed >= w.armed
    decreases |acts|
  {
    if acts == [] then w else ActAll(Act(w, acts[0], clock), acts[1..], clock)
  }

  /** A well-formed list: ordered, one entry a timer, and only earlier stamps. */
  ghost predicate Good<T>(w: World<T>) {
    Ordered(w.list) && forall e :: e in w.list ==> e.stamp < w.armed && e.deadline > 0
  }

  /** Later than what was due at `mtime`: the rest of the list, and whatever is armed from now on. */
  ghost predicate After<T>(w: World<T>, e: Entry<T>) {
    e.stamp < w.armed && forall x :: x in w.list ==> Before(e, x)
  }

  lemma ActKeeps<T>(w: World<T>, a: Action<T>, clock: nat -> nat)
    requires Good(w) && Monotone(clock)
    ensures Good(Act(w, a, clock)) && clock(w.looks) <= clock(Act(w, a, clock).looks)
  {
    hide Ordered;
    var rest := Without(w.list, a.timer);
    WithoutKeeps(w.list, a.timer);
    assert Ordered(rest);
    forall x | x in rest
      ensures x.stamp < w.armed && x.timer != a.timer && x.deadline > 0
    {
      assert x in w.list;
    }
    if a.Set? {
      SetKeeps(rest, Entry(a.timer, clock(w.looks) + a.ms, w.armed));
    }
  }

  lemma SetKeeps<T>(rest: seq<Entry<T>>, e: Entry<T>)
    requires Ordered(rest) && forall x :: x in rest ==> x.stamp < e.stamp && x.timer != e.timer && x.deadline > 0
    requires e.deadline > 0
    ensures Ordered(Inserted(rest, e)) && forall x :: x in Inserted(rest, e) ==> x.stamp <= e.stamp && x.deadline > 0
  {
    hide Ordered, Inserted;
    InsertedKeeps(rest, e);
    InsertedContents(rest, e);
    var list := Inserted(rest, e);
    assert Ordered(list);
    forall x | x in list
      ensures x.stamp <= e.stamp && x.deadline > 0
    {
      assert x in rest || x == e;
    }
  }

  lemma ActAfter<T>(w: World<T>, a: Action<T>, clock: nat -> nat, e: Entry<T>)
    requires Good(w) && After(w, e) && e.deadline <= clock(w.looks)
    ensures After(Act(w, a, clock), e)
  {
    hide Ordered, Inserted;
    var rest := Without(w.list, a.timer);
    WithoutKeeps(w.list, a.timer);
    assert Ordered(rest);
    forall x | x in rest
      ensures Before(e, x)
    {
      assert x in w.list;
    }
    if a.Set? {
      InsertedAfter(rest, Entry(a.timer, clock(w.looks) + a.ms, w.armed), e);
    }
  }

  lemma {:induction false} InsertedAfter<T>(s: seq<Entry<T>>, e1: Entry<T>, e: Entry<T>)
    requires Before(e, e1) && forall x :: x in s ==> Before(e, x)
    ensures forall x :: x in Inserted(s, e1) ==> Before(e, x)
    decreases |s|
  {
    hide Before;
    if s != [] && s[0].deadline <= e1.deadline {
      InsertedAfter(s[1..], e1, e);
    }
  }

  lemma {:induction false} ActAllKeeps<T>(w: World<T>, acts: seq<Action<T>>, clock: nat -> nat, e: Entry<T>, mtime: nat)
    requires Good(w) && Monotone(clock) && After(w, e) && e.deadline <= mtime <= clock(w.looks)
    ensures Good(ActAll(w, acts, clock)) && After(ActAll(w, acts, clock), e)
    ensures mtime <= clock(ActAll(w, acts, clock).looks)
    decreases |acts|
  {
    hide Good, After, Act;
    if acts != [] {
      ActKeeps(w, acts[0], clock);
      ActAfter(w, acts[0], clock, e);
      var w1 := Act(w, acts[0], clock);
      ActAllKeeps(w1, acts[1..], clock, e, mtime);
    }
  }

  // ---------------------------------------------------------------- advancing

  function Size<T>(script: seq<seq<T>>): nat
    decreases |script|
  {
    if script == [] then 0 else |script[0]| + Size(script[1..])
  }

  /** A timer that has fired, and the clock reading that showed it was due. */
  datatype Fired<T> = Fired(entry: Entry<T>, mtime: nat)

  /** What timer_advance leaves, which timers it fired, and what it returns. */
  datatype Outcome<T> = Outcome(world: World<T>, fired: seq<Fired<T>>, delay: int)

  /** timer_advance.  The i-th handler called does what `script` says; handlers called after the end
      of the script do nothing. */
  function Advance<T(==)>(w: World<T>, mtime: nat, script: seq<seq<Action<T>>>, clock: nat -> nat): Outcome<T>
    decreases |w.list| + Size(script)
  {
    if w.list == [] then Outcome(w, [], -1)
    else
      var node := w.list[0];
      var look := node.deadline > mtime;
      var now := if look then clock(w.looks) else mtime;
      var w1 := if look then w.(looks := w.looks + 1) else w;
      if node.deadline > now then Outcome(w1, [], node.deadline - now)
      else
        var w2 := ActAll(w1.(list := w1.list[1..]), if script == [] then [] else script[0], clock);
        var rest := Advance(w2, now, if script == [] then [] else script[1..], clock);
        rest.(fired := [Fired(node, now)] + rest.fired)
  }

  ghost predicate FiredInOrder<T>(fired: seq<Fired<T>>) {
    forall i, j :: 0 <= i < j < |fired| ==> Before(fired[i].entry, fired[j].entry)
  }

  /** What a handler may have changed before timer_advance looks at the list again. */
  lemma FireKeeps<T>(w: World<T>, acts: seq<Action<T>>, clock: nat -> nat, now: nat)
    requires Good(w) && Monotone(clock) && w.list != [] && w.list[0].deadline <= now <= clock(w.looks)
    ensures var w2 := ActAll(w.(list := w.list[1..]), acts, clock);
            Good(w2) && After(w2, w.list[0]) && now <= clock(w2.looks)
  {
    ActAllKeeps(w.(list := w.list[1..]), acts, clock, w.list[0], now);
  }

  /** Timers fire behind whatever the whole list is behind. */
  lemma {:induction false} AdvanceAfter<T>(w: World<T>, mtime: nat, script: seq<seq<Action<T>>>, clock: nat -> nat,
                                           e: Entry<T>)
    requires Good(w) && Monotone(clock) && mtime <= clock(w.looks) && After(w, e) && e.deadline <= mtime
    ensures forall f :: f in Advance(w, mtime, script, clock).fired ==> Before(e, f.entry)
    decreases |w.list| + Size(script)
  {
    hide Good, ActAll;
    if w.list != [] {
      var node := w.list[0];
      var look := node.deadline > mtime;
      var now := if look then clock(w.looks) else mtime;
      var w1 := if look then w.(looks := w.looks + 1) else w;
      LookKeeps(w, clock);
      if node.deadline <= now {
        var acts := if script == [] then [] else script[0];
        FireKeeps(w1, acts, clock, now);
        var w2 := ActAll(w1.(list := w1.list[1..]), acts, clock);
        AfterFirst(w, e);
        AfterBoth(w2, e, node);
        AdvanceAfter(w2, now, if script == [] then [] else script[1..], clock, e);
      }
    }
  }

  lemma LookKeeps<T>(w: World<T>, clock: nat -> nat)
    requires Good(w) && Monotone(clock)
    ensures Good(w.(looks := w.looks + 1)) && clock(w.looks) <= clock(w.looks + 1)
  {
  }

  lemma AfterFirst<T>(w: World<T>, e: Entry<T>)
    requires w.list != [] && After(w, e)
    ensures Before(e, w.list[0]) && e.stamp < w.armed
  {
  }

  lemma AfterBoth<T>(w: World<T>, e: Entry<T>, node: Entry<T>)
    requires Before(e, node) && After(w, node) && e.stamp < w.armed
    ensures After(w, e)
  {
  }

  /** Main result: whatever handlers set and cancel, the list stays well-formed; timers fire in the
      order of their deadlines, those armed first going first, and only when a clock reading shows
      them due; the result is -1 exactly when no timer is left, and otherwise the positive delay
      from the latest clock reading to the earliest timer left. */
  lemma {:induction false} AdvanceFiresInOrder<T>(
    w: World<T>, mtime: nat, script: seq<seq<Action<T>>>, clock: nat -> nat)
    requires Good(w) && Monotone(clock) && mtime <= clock(w.looks)
    ensures var o := Advance(w, mtime, script, clock);
            && Good(o.world)
            && FiredInOrder(o.fired)
            && (forall f :: f in o.fired ==> f.entry.deadline <= f.mtime <= clock(o.world.looks))
            && (o.delay == -1 <==> o.world.list == [])
            && (o.world.list != [] ==>
                  o.world.looks > 0 && o.delay == o.world.list[0].deadline - clock(o.world.looks - 1) > 0)
    decreases |w.list| + Size(script)
  {
    hide Good, ActAll, Before, FiredInOrder, Monotone, After;
    FiredNothing<T>([]);
    if w.list != [] {
      var node := w.list[0];
      var look := node.deadline > mtime;
      var now := if look then clock(w.looks) else mtime;
      var w1 := if look then w.(looks := w.looks + 1) else w;
      LookKeeps(w, clock);
      if node.deadline <= now {
        var acts, later := if script == [] then [] else script[0], if script == [] then [] else script[1..];
        FireKeeps(w1, acts, clock, now);
        var w2 := ActAll(w1.(list := w1.list[1..]), acts, clock);
        AdvanceFiresInOrder(w2, now, later, clock);
        AdvanceAfter(w2, now, later, clock, node);
        AdvanceLooks(w2, now, later, clock);
        FiredBefore(node, now, Advance(w2, now, later, clock).fired);
      }
    }
  }

  lemma FiredNothing<T>(fired: seq<Fired<T>>)
    requires fired == []
    ensures FiredInOrder(fired) && Entries(fired) == multiset{}
  {
  }

  lemma FiredBefore<T>(node: Entry<T>, now: nat, rest: seq<Fired<T>>)
    requires FiredInOrder(rest) && forall f :: f in rest ==> Before(node, f.entry)
    ensures FiredInOrder([Fired(node, now)] + rest)
  {
    hide Before;
  }

  lemma {:induction false} AdvanceLooks<T>(w: World<T>, mtime: nat, script: seq<seq<Action<T>>>, clock: nat -> nat)
    requires Monotone(clock)
    ensures clock(w.looks) <= clock(Advance(w, mtime, script, clock).world.looks)
    decreases |w.list| + Size(script)
  {
    hide ActAll;
    if w.list != [] {
      var node := w.list[0];
      var look := node.deadline > mtime;
      var now := if look then clock(w.looks) else mtime;
      var w1 := if look then w.(looks := w.looks + 1) else w;
      if node.deadline <= now {
        var acts, later := if script == [] then [] else script[0], if script == [] then [] else script[1..];
        AdvanceLooks(ActAll(w1.(list := w1.list[1..]), acts, clock), now, later, clock);
      }
    }
  }

  // ---------------------------------------------------------------- every arming accounted for

  /** What setting and cancelling put into the list and what they take out of it. */
  datatype Moves<T(==)> = Moves(put: multiset<Entry<T>>, taken: multiset<Entry<T>>)
  {
    function Plus(m: Moves<T>): Moves<T> {
      Moves(put + m.put, taken + m.taken)
    }
  }

  function MovesOf<T(==)>(w: World<T>, a: Action<T>, clock: nat -> nat): Moves<T> {
    Moves(if a.Set? then multiset{Entry(a.timer, clock(w.looks) + a.ms, w.armed)} else multiset{},
          multiset(Removed(w.list, a.timer)))
  }

  function MovesOfAll<T(==)>(w: World<T>, acts: seq<Action<T>>, clock: nat -> nat): Moves<T>
    decreases |acts|
  {
    if acts == [] then Moves(multiset{}, multiset{})
    else MovesOf(w, acts[0], clock).Plus(MovesOfAll(Act(w, acts[0], clock), acts[1..], clock))
  }

  /** The moves made by the handlers that timer_advance calls. */
  function AdvanceMoves<T(==)>(w: World<T>, mtime: nat, script: seq<seq<Action<T>>>, clock: nat -> nat): Moves<T>
    decreases |w.list| + Size(script)
  {
    if w.list == [] then Moves(multiset{}, multiset{})
    else
      var look := w.list[0].deadline > mtime;
      var now := if look then clock(w.looks) else mtime;
      var w1 := (if look then w.(looks := w.looks + 1) else w).(list := w.list[1..]);
      if w.list[0].deadline > now then Moves(multiset{}, multiset{})
      else
        var acts := if script == [] then [] else script[0];
        MovesOfAll(w1, acts, clock)
        .Plus(AdvanceMoves(ActAll(w1, acts, clock), now, if script == [] then [] else script[1..], clock))
  }

  function Entries<T(==)>(fired: seq<Fired<T>>): multiset<Entry<T>>
    decreases |fired|
  {
    if fired == [] then multiset{} else multiset{fired[0].entry} + Entries(fired[1..])
  }

  lemma ActMoves<T>(w: World<T>, a: Action<T>, clock: nat -> nat)
    ensures var m := MovesOf(w, a, clock);
            multiset(w.list) + m.put == multiset(Act(w, a, clock).list) + m.taken
  {
    hide Without, Removed, Inserted;
    WithoutMultiset(w.list, a.timer);
    if a.Set? {
      var e := Entry(a.timer, clock(w.looks) + a.ms, w.armed);
      var rest := Without(w.list, a.timer);
      InsertedContents(rest, e);
      Swap(multiset(w.list), multiset(rest), multiset(Removed(w.list, a.timer)),
           multiset{e}, multiset(Inserted(rest, e)));
    }
  }

  lemma Swap<T>(a: multiset<T>, b: multiset<T>, r: multiset<T>, e: multiset<T>, n: multiset<T>)
    requires b + r == a && n == b + e
    ensures a + e == n + r
  {
  }

  lemma {:induction false} ActAllMoves<T>(w: World<T>, acts: seq<Action<T>>, clock: nat -> nat)
    ensures var m := MovesOfAll(w, acts, clock);
            multiset(w.list) + m.put == multiset(ActAll(w, acts, clock).list) + m.taken
    decreases |acts|
  {
    hide Act, MovesOf;
    if acts != [] {
      ActMoves(w, acts[0], clock);
      var w1 := Act(w, acts[0], clock);
      ActAllMoves(w1, acts[1..], clock);
      var m, n := MovesOf(w, acts[0], clock), MovesOfAll(w1, acts[1..], clock);
      Chain(multiset(w.list), m.put, multiset(w1.list), m.taken, n.put, multiset(ActAll(w, acts, clock).list), n.taken);
    }
  }

  lemma Chain<T>(a: multiset<T>, p: multiset<T>, b: multiset<T>, t: multiset<T>, q: multiset<T>, c: multiset<T>,
                 u: multiset<T>)
    requires a + p == b + t && b + q == c + u
    ensures a + (p + q) == c + (t + u)
  {
    assert a + (p + q) == (b + t) + q == (b + q) + t;
  }

  /** Main result: every entry that was in the list or is put in by a handler ends up in exactly one
      place: fired, taken out by a handler, or still in the list. */
  lemma {:induction false} ArmingsConserved<T>(w: World<T>, mtime: nat, script: seq<seq<Action<T>>>, clock: nat -> nat)
    ensures var o := Advance(w, mtime, script, clock); var m := AdvanceMoves(w, mtime, script, clock);
            multiset(w.list) + m.put == multiset(o.world.list) + (Entries(o.fired) + m.taken)
    decreases |w.list| + Size(script)
  {
    hide ActAll, MovesOfAll, Entries;
    FiredNothing<T>([]);
    if w.list != [] {
      var look := w.list[0].deadline > mtime;
      var now := if look then clock(w.looks) else mtime;
      var w1 := (if look then w.(looks := w.looks + 1) else w).(list := w.list[1..]);
      if w.list[0].deadline <= now {
        var acts, later := if script == [] then [] else script[0], if script == [] then [] else script[1..];
        ActAllMoves(w1, acts, clock);
        var w2 := ActAll(w1, acts, clock);
        ArmingsConserved(w2, now, later, clock);
        var m, n := MovesOfAll(w1, acts, clock), AdvanceMoves(w2, now, later, clock);
        var o := Advance(w2, now, later, clock);
        Chain(multiset(w1.list), m.put, multiset(w2.list), m.taken,
              n.put, multiset(o.world.list), Entries(o.fired) + n.taken);
        assert multiset(w.list) == multiset{w.list[0]} + multiset(w1.list) by {
          assert w.list == [w.list[0]] + w.list[1..];
        }
        FiredFirst(w.list[0], now, o.fired);
        Unfire(multiset{w.list[0]}, multiset(w1.list), m.put + n.put, multiset(o.world.list), Entries(o.fired), m.taken,
               n.taken);
      }
    }
  }

  lemma FiredFirst<T>(e: Entry<T>, now: nat, rest: seq<Fired<T>>)
    ensures Entries([Fired(e, now)] + rest) == multiset{e} + Entries(rest)
  {
    assert ([Fired(e, now)] + rest)[1..] == rest;
  }

  lemma Unfire<T>(e: multiset<T>, a: multiset<T>, p: multiset<T>, b: multiset<T>, f: multiset<T>, t: multiset<T>,
                  u: multiset<T>)
    requires a + p == b + (t + (f + u))
    ensures (e + a) + p == b + ((e + f) + (t + u))
  {
    assert (e + a) + p == e + (b + (t + (f + u)));
  }
}
