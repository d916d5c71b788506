/** The intrusive timer list of src/ayla/timer.c. */
module Timers {
  import opened TimerLists

  /** struct timer; `stamp` records which arming of the list it was last armed by. */
  class Timer {
    var next: Timer?
    var timeMs: nat
    ghost var stamp: nat

    /** timer_init. */
    constructor ()
      ensures !Active() && next == null
    {
      next, timeMs, stamp := null, 0, 0;
    }

    predicate Active()
      reads this
    {
      timeMs != 0
    }

    ghost function Entry(): Entry<Timer>
      reads this
    {
      TimerLists.Entry(this, timeMs, stamp)
    }
  }

  ghost function EntriesOf(spine: seq<Timer>): (s: seq<Entry<Timer>>)
    reads spine
    ensures |s| == |spine| && forall i :: 0 <= i < |spine| ==> s[i] == spine[i].Entry()
    decreases |spine|
  {
    if spine == [] then [] else [spine[0].Entry()] + EntriesOf(spine[1..])
  }

  lemma {:induction false} WithoutAt<T>(s: seq<Entry<T>>, t: T, k: nat)
    requires k < |s| && s[k].timer == t && forall i :: 0 <= i < k ==> s[i].timer != t
    ensures Without(s, t) == Cut(s, k)
    decreases k
  {
    if k > 0 {
      WithoutAt(s[1..], t, k - 1);
      assert s[..k] == [s[0]] + s[1..][..k - 1] && s[1..][k..] == s[k + 1..];
    }
  }

  lemma {:induction false} WithoutNone<T>(s: seq<Entry<T>>, t: T)
    requires forall i :: 0 <= i < |s| ==> s[i].timer != t
    ensures Without(s, t) == s
    decreases |s|
  {
    if s != [] {
      WithoutNone(s[1..], t);
    }
  }

  lemma {:induction false} InsertedAt<T>(s: seq<Entry<T>>, e: Entry<T>, k: nat)
    requires k <= |s| && (forall i :: 0 <= i < k ==> s[i].deadline <= e.deadline)
    requires k < |s| ==> e.deadline < s[k].deadline
    ensures Inserted(s, e) == Paste(s, k, e)
    decreases k
  {
    if k > 0 {
      InsertedAt(s[1..], e, k - 1);
      assert s[..k] == [s[0]] + s[1..][..k - 1] && s[1..][k - 1..] == s[k..];
    }
  }

  predicate Distinct<T(==)>(s: seq<T>) {
    forall i, j :: 0 <= i < j < |s| ==> s[i] != s[j]
  }

  /** `s` without its k-th element, and with `x` as its new k-th element. */
  function Cut<T>(s: seq<T>, k: nat): (r: seq<T>)
    requires k < |s|
    ensures |r| == |s| - 1
    ensures forall i :: 0 <= i < k ==> r[i] == s[i]
    ensures forall i :: k <= i < |r| ==> r[i] == s[i + 1]
  {
    s[..k] + s[k + 1..]
  }

  function Paste<T>(s: seq<T>, k: nat, x: T): (r: seq<T>)
    requires k <= |s|
    ensures |r| == |s| + 1 && (forall i :: 0 <= i < k ==> r[i] == s[i]) && r[k] == x
    ensures forall i :: k < i < |r| ==> r[i] == s[i - 1]
  {
    s[..k] + [x] + s[k..]
  }

  lemma CutFacts<T>(s: seq<T>, k: nat)
    requires k < |s| && Distinct(s)
    ensures Distinct(Cut(s, k)) && s[k] !in Cut(s, k)
    ensures forall x :: x in s <==> x in Cut(s, k) || x == s[k]
  {
    assert s == s[..k] + [s[k]] + s[k + 1..];
  }

  lemma PasteFacts<T>(s: seq<T>, k: nat, x: T)
    requires k <= |s| && Distinct(s) && x !in s
    ensures Distinct(Paste(s, k, x))
    ensures forall y :: y in Paste(s, k, x) <==> y in s || y == x
  {
    PasteMembers(s, k, x);
    hide Paste;
    var r := Paste(s, k, x);
    forall i, j | 0 <= i < j < |r|
      ensures r[i] != r[j]
    {
      assert r[j] == if j < k then s[j] else if j == k then x else s[j - 1];
    }
  }

  lemma PasteMembers<T>(s: seq<T>, k: nat, x: T)
    requires k <= |s|
    ensures forall y :: y in Paste(s, k, x) <==> y in s || y == x
  {
    assert s == s[..k] + s[k..];
  }

  /** Following `next` from `first` gives the spine. */
  ghost predicate Linked(first: Timer?, spine: seq<Timer>)
    reads spine
  {
    && first == (if spine == [] then null else spine[0])
    && (forall i :: 0 <= i < |spine| - 1 ==> spine[i].next == spine[i + 1])
    && (spine != [] ==> spine[|spine| - 1].next == null)
  }

  /** struct timer_head, with the timers it is used for in `pool`. */
  class TimerHead {
    var first: Timer?
    ghost var spine: seq<Timer>
    ghost var armed: nat
    ghost const pool: set<Timer>
    // how often the clock has been read
    var looks: nat

    /** The list is linked along the spine, each timer once, and a timer is active exactly when it
        is in the list. */
    ghost predicate Valid()
      reads this, pool
    {
      && Distinct(spine)
      && (forall i :: 0 <= i < |spine| ==> spine[i] in pool)
      && Linked(first, spine)
      && (forall t :: t in pool ==> (t.Active() <==> t in spine))
    }

    ghost function State(): World<Timer>
      reads this, pool
      requires Valid()
    {
      World(EntriesOf(spine), armed, looks)
    }

    constructor (ghost pool: set<Timer>)
      requires forall t :: t in pool ==> !t.Active()
      ensures Valid() && spine == [] && this.pool == pool && State() == World([], 0, 0)
    {
      first, spine, armed, looks := null, [], 0, 0;
      this.pool := pool;
    }

    /** timer_cancel. */
    method Cancel(timer: Timer)
      requires Valid() && timer in pool
      modifies `first, `spine, pool
      ensures Valid() && !timer.Active() && timer !in spine
      ensures EntriesOf(spine) == Without(old(EntriesOf(spine)), timer)
      ensures forall t :: t in pool ==> t.stamp == old(t.stamp) && (t != timer ==> t.timeMs == old(t.timeMs))
    {
      hide EntriesOf;
      ghost var s := EntriesOf(spine);
      if !timer.Active() {
        WithoutNone(s, timer);
        return;
      }
      var prev: Timer? := null;
      var node := first;
      ghost var k := 0;
      while node != null
        invariant k <= |spine| && Valid() && EntriesOf(spine) == s && spine == old(spine)
        invariant node == if k < |spine| then spine[k] else null
        invariant prev == if k == 0 then null else spine[k - 1]
        invariant forall j :: 0 <= j < k ==> spine[j] != timer
        invariant forall t :: t in pool ==> t.timeMs == old(t.timeMs) && t.stamp == old(t.stamp)
        decreases |spine| - k
      {
        if node == timer {
          WithoutAt(s, timer, k);
          Unlink(prev, node, k);
          return;
        }
        prev, node, k := node, node.next, k + 1;
      }
    }

    /** The two statements that take a node out: the pointer that led to it, and its time. */
    method Unlink(prev: Timer?, node: Timer, ghost k: nat)
      requires Valid() && k < |spine| && node == spine[k] && prev == if k == 0 then null else spine[k - 1]
      modifies `first, `spine, prev, node
      ensures Valid() && !node.Active() && spine == Cut(old(spine), k)
      ensures EntriesOf(spine) == Cut(old(EntriesOf(spine)), k)
      ensures forall t :: t in pool ==> t.stamp == old(t.stamp) && (t != node ==> t.timeMs == old(t.timeMs))
    {
      hide EntriesOf, Distinct, Cut, Linked;
      CutFacts(spine, k);
      assert node in pool;
      Bypass(prev, node, k);
      node.timeMs := 0;
      assert EntriesOf(spine) == Cut(old(EntriesOf(spine)), k);
    }

    method Bypass(prev: Timer?, node: Timer, ghost k: nat)
      requires Linked(first, spine) && Distinct(spine)
      requires k < |spine| && node == spine[k] && prev == if k == 0 then null else spine[k - 1]
      modifies `first, `spine, prev
      ensures Linked(first, spine) && spine == Cut(old(spine), k)
      ensures prev != null ==> prev.timeMs == old(prev.timeMs) && prev.stamp == old(prev.stamp)
    {
      hide Cut;
      if prev == null {
        first := node.next;
      } else {
        prev.next := node.next;
      }
      spine := Cut(spine, k);
    }

    /** timer_set. */
    method Set(timer: Timer, ms: nat, clock: nat -> nat)
      requires Valid() && timer in pool && Monotone(clock)
      modifies this, pool
      ensures Valid() && State() == Act(old(State()), TimerLists.Set(timer, ms), clock)
    {
      hide EntriesOf, Inserted, Without, Distinct, Linked;
      assert clock(0) <= clock(looks);
      var time := clock(looks) + ms;
      looks := looks + 1;
      Cancel(timer);
      Place(timer, time);
    }

    /** Its second half, for a timer that is not in the list. */
    method Place(timer: Timer, time: nat)
      requires Valid() && timer in pool && timer !in spine && time > 0
      modifies `first, `spine, `armed, pool
      ensures Valid() && armed == old(armed) + 1
      ensures EntriesOf(spine) == Inserted(old(EntriesOf(spine)), Entry(timer, time, old(armed)))
    {
      hide EntriesOf, Inserted, Paste, Distinct, Linked;
      var prev, node, k := FindPlace(time);
      InsertedAt(EntriesOf(spine), Entry(timer, time, armed), k);
      Link(prev, timer, node, time, k);
    }

    /** The search in timer_set: the new timer goes in front of the first that is due later. */
    method FindPlace(time: nat) returns (prev: Timer?, node: Timer?, ghost k: nat)
      requires Valid()
      ensures k <= |spine| && prev == (if k == 0 then null else spine[k - 1])
      ensures node == if k < |spine| then spine[k] else null
      ensures forall j :: 0 <= j < k ==> spine[j].timeMs <= time
      ensures k < |spine| ==> time < spine[k].timeMs
    {
      prev, node, k := null, first, 0;
      while node != null
        invariant k <= |spine|
        invariant node == if k < |spine| then spine[k] else null
        invariant prev == if k == 0 then null else spine[k - 1]
        invariant forall j :: 0 <= j < k ==> spine[j].timeMs <= time
        decreases |spine| - k
      {
        if time < node.timeMs {
          break;
        }
        prev, node, k := node, node.next, k + 1;
      }
    }

    /** The statements that put a timer in between two nodes. */
    method Link(prev: Timer?, timer: Timer, node: Timer?, time: nat, ghost k: nat)
      requires Valid() && k <= |spine| && timer in pool && timer !in spine && time > 0
      requires prev == (if k == 0 then null else spine[k - 1]) && node == if k < |spine| then spine[k] else null
      modifies `first, `spine, `armed, prev, timer
      ensures Valid() && armed == old(armed) + 1
      ensures EntriesOf(spine) == Paste(old(EntriesOf(spine)), k, Entry(timer, time, old(armed)))
    {
      hide EntriesOf, Distinct, Paste, Linked;
      PasteFacts(spine, k, timer);
      timer.timeMs, timer.stamp := time, armed;
      armed := armed + 1;
      Splice(prev, timer, node, k);
      assert EntriesOf(spine) == Paste(old(EntriesOf(spine)), k, Entry(timer, time, old(armed)));
    }

    method Splice(prev: Timer?, timer: Timer, node: Timer?, ghost k: nat)
      requires Linked(first, spine) && Distinct(spine) && timer !in spine && k <= |spine|
      requires prev == (if k == 0 then null else spine[k - 1]) && node == if k < |spine| then spine[k] else null
      modifies `first, `spine, prev, timer
      ensures Linked(first, spine) && spine == Paste(old(spine), k, timer)
      ensures timer.timeMs == old(timer.timeMs) && timer.stamp == old(timer.stamp)
      ensures prev != null ==> prev.timeMs == old(prev.timeMs) && prev.stamp == old(prev.stamp)
    {
      hide Paste;
      if prev == null {
        first := timer;
      } else {
        prev.next := timer;
      }
      timer.next := node;
      spine := Paste(spine, k, timer);
    }

    /** timer_reset, with the handler left to the caller. */
    method Reset(timer: Timer, ms: nat, clock: nat -> nat)
      requires Valid() && timer in pool && Monotone(clock)
      modifies this, pool
      ensures Valid() && State() == Act(old(State()), TimerLists.Set(timer, ms), clock)
    {
      hide EntriesOf, Inserted, Without, Distinct, Linked;
      Cancel(timer);
      WithoutNone(EntriesOf(spine), timer);
      timer.next, timer.timeMs := null, 0;
      Set(timer, ms, clock);
    }

    /** A handler, or any other caller: some settings and cancellations. */
    method Perform(acts: seq<Action<Timer>>, clock: nat -> nat)
      requires Valid() && Monotone(clock) && forall a :: a in acts ==> a.timer in pool
      modifies this, pool
      ensures Valid() && State() == ActAll(old(State()), acts, clock)
    {
      hide EntriesOf, Distinct, Linked, Act;
      var i := 0;
      ghost var w := State();
      while i < |acts|
        invariant i <= |acts| && Valid() && ActAll(State(), acts[i..], clock) == ActAll(w, acts, clock)
        decreases |acts| - i
      {
        ActAllNext(State(), acts, i, clock);
        match acts[i] {
          case Set(t, ms) => Set(t, ms, clock);
          case Cancel(t) => CancelActs(t, clock);
        }
        i := i + 1;
      }
      assert acts[i..] == [];
    }

    method CancelActs(timer: Timer, clock: nat -> nat)
      requires Valid() && timer in pool
      modifies `first, `spine, pool
      ensures Valid() && State() == Act(old(State()), TimerLists.Cancel(timer), clock)
    {
      Cancel(timer);
    }

    /** The first timer is taken off the list. */
    method TakeFirst(node: Timer)
      requires Valid() && first == node
      modifies `first, `spine, pool
      ensures old(EntriesOf(spine)) != [] && Valid() && EntriesOf(spine) == old(EntriesOf(spine))[1..]
    {
      hide EntriesOf, Distinct, Linked, Cut;
      ghost var list := EntriesOf(spine);
      FirstOf(first, spine);
      CutFirst(list);
      Unlink(null, node, 0);
      assert node !in spine;
      node.next := null;
    }

    /** Its handler is called. */
    method Fire(acts: seq<Action<Timer>>, clock: nat -> nat)
      requires Valid() && first != null && Monotone(clock) && forall a :: a in acts ==> a.timer in pool
      modifies this, pool
      ensures old(State()).list != [] && Valid()
      ensures State() == ActAll(old(State()).(list := old(State()).list[1..]), acts, clock)
    {
      hide EntriesOf, Distinct, ActAll, Linked;
      TakeFirst(first);
      Perform(acts, clock);
    }

    /** timer_advance; the i-th handler called performs `script[i]`, and nothing after its end. */
    method Advance(script: seq<seq<Action<Timer>>>, clock: nat -> nat)
      returns (delay: int, ghost fired: seq<Fired<Timer>>)
      requires Valid() && Monotone(clock) && forall s, a :: s in script && a in s ==> a.timer in pool
      modifies this, pool
      ensures Valid() && Outcome(State(), fired, delay) == TimerLists.Advance(old(State()), 0, script, clock)
    {
      hide EntriesOf, Distinct, ActAll, Linked, TimerLists.Advance, Following;
      var mtime, i := 0, 0;
      fired := [];
      ghost var all := TimerLists.Advance(State(), 0, script, clock);
      FollowingNone(all);
      assert script[0..] == script;
      while first != null
        invariant Valid() && i <= |script|
        invariant Following(fired, TimerLists.Advance(State(), mtime, script[i..], clock)) == all
        decreases |spine| + Size(script[i..])
      {
        FirstOf(first, spine);
        AdvanceStep(State(), mtime, script, i, clock, fired);
        var node := first;
        ghost var e := State().list[0];
        if node.timeMs > mtime {
          mtime := clock(looks);
          looks := looks + 1;
          if node.timeMs > mtime {
            return node.timeMs - mtime, fired;
          }
        }
        fired := fired + [Fired(e, mtime)];
        if i < |script| {
          Fire(script[i], clock);
          i := i + 1;
        } else {
          Fire([], clock);
        }
      }
      FirstOf(first, spine);
      AdvanceEnds(State(), mtime, script[i..], clock, fired);
      return -1, fired;
    }
  }

  lemma CutFirst<T>(s: seq<T>)
    requires s != []
    ensures Cut(s, 0) == s[1..]
  {
  }

  lemma FirstOf(first: Timer?, spine: seq<Timer>)
    requires Linked(first, spine)
    ensures first == if spine == [] then null else spine[0]
  {
  }

  /** An outcome with what had fired before. */
  function Following<T>(fired: seq<Fired<T>>, o: Outcome<T>): Outcome<T> {
    o.(fired := fired + o.fired)
  }

  lemma FollowingNone<T>(o: Outcome<T>)
    ensures Following([], o) == o
  {
    assert [] + o.fired == o.fired;
  }

  lemma AdvanceEnds<T>(w: World<T>, mtime: nat, script: seq<seq<Action<T>>>, clock: nat -> nat, fired: seq<Fired<T>>)
    requires w.list == []
    ensures Following(fired, TimerLists.Advance(w, mtime, script, clock)) == Outcome(w, fired, -1)
  {
    assert fired + [] == fired;
  }

  /** One turn of the loop in timer_advance. */
  lemma AdvanceStep<T>(w: World<T>, mtime: nat, script: seq<seq<Action<T>>>, i: nat, clock: nat -> nat,
                       fired: seq<Fired<T>>)
    requires w.list != [] && i <= |script|
    ensures var node := w.list[0];
            var look := node.deadline > mtime;
            var now := if look then clock(w.looks) else mtime;
            var w1 := if look then w.(looks := w.looks + 1) else w;
            var o := Following(fired, TimerLists.Advance(w, mtime, script[i..], clock));
            var rest := w1.(list := w1.list[1..]);
            var more := fired + [Fired(node, now)];
            if node.deadline > now then o == Outcome(w1, fired, node.deadline - now)
            else if i < |script| then
              o == Following(more, TimerLists.Advance(ActAll(rest, script[i], clock), now, script[i + 1..], clock)) &&
              Size(script[i..]) == |script[i]| + Size(script[i + 1..])
            else o == Following(more, TimerLists.Advance(ActAll(rest, [], clock), now, script[i..], clock))
  {
    hide ActAll;
    assert fired + [] == fired;
    if i < |script| {
      assert script[i..][1..] == script[i + 1..];
    }
    var node := w.list[0];
    var o := TimerLists.Advance(w, mtime, script[i..], clock);
    if o.fired != [] {
      assert fired + ([o.fired[0]] + o.fired[1..]) == (fired + [o.fired[0]]) + o.fired[1..];
    }
  }

  lemma ActAllNext(w: World<Timer>, acts: seq<Action<Timer>>, i: nat, clock: nat -> nat)
    requires i < |acts|
    ensures ActAll(w, acts[i..], clock) == ActAll(Act(w, acts[i], clock), acts[i + 1..], clock)
  {
    assert acts[i..][1..] == acts[i + 1..];
  }
}
