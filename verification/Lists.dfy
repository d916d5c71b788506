/** The doubly linked deque of src/list.c and the queue src/lockqueue.c makes of it. */
module Lists {
  import opened Options

  /** stListItem_t. */
  class Item<T> {
    var prev: Item?<T>
    var next: Item?<T>
    const data: T

    constructor (data: T)
      ensures this.data == data && prev == null && next == null
    {
      this.data := data;
      prev, next := null, null;
    }
  }

  /** Neighbours in the spine point at each other, and nothing points out of it. */
  ghost predicate Linked<T>(spine: seq<Item<T>>)
    reads spine
  {
    && (forall i, j :: 0 <= i < j < |spine| ==> spine[i] != spine[j])
    && (forall i :: 0 <= i < |spine| - 1 ==> spine[i].next == spine[i + 1])
    && (forall i :: 0 <= i < |spine| - 1 ==> spine[i + 1].prev == spine[i])
    && (spine != [] ==> spine[0].prev == null && spine[|spine| - 1].next == null)
  }

  function Data<T>(spine: seq<Item<T>>): (s: seq<T>)
    ensures |s| == |spine| && forall i :: 0 <= i < |spine| ==> s[i] == spine[i].data
    decreases |spine|
  {
    if spine == [] then [] else [spine[0].data] + Data(spine[1..])
  }

  /** stList_t. */
  class List<T> {
    var head: Item?<T>
    var tail: Item?<T>
    var size: nat
    ghost var spine: seq<Item<T>>
    // every item there has been
    ghost var repr: set<Item<T>>

    ghost predicate Valid()
      reads this, repr
    {
      && (forall i :: 0 <= i < |spine| ==> spine[i] in repr)
      && Linked(spine) && size == |spine|
      && head == (if spine == [] then null else spine[0])
      && tail == (if spine == [] then null else spine[|spine| - 1])
    }

    /** The elements from the front to the back. */
    ghost function Contents(): seq<T>
      reads this
    {
      Data(spine)
    }

    /** list_init. */
    constructor ()
      ensures Valid() && Contents() == [] && repr == {}
    {
      head, tail, size, spine, repr := null, null, 0, [], {};
    }

    /** list_push_front. */
    method PushFront(data: T)
      requires Valid()
      modifies this, repr
      ensures Valid() && Contents() == [data] + old(Contents())
      ensures fresh(repr - old(repr))
    {
      hide Data;
      var pi := new Item(data);
      pi.next := head;
      if head != null {
        head.prev := pi;
      }
      head := pi;
      if tail == null {
        tail := pi;
      }
      size := size + 1;
      spine, repr := [pi] + spine, repr + {pi};
    }

    /** list_push_back. */
    method PushBack(data: T)
      requires Valid()
      modifies this, repr
      ensures Valid() && Contents() == old(Contents()) + [data]
      ensures fresh(repr - old(repr))
    {
      hide Data;
      var pi := new Item(data);
      if tail != null {
        tail.next := pi;
        pi.prev := tail;
      }
      if head == null {
        head := pi;
      }
      tail := pi;
      size := size + 1;
      spine, repr := spine + [pi], repr + {pi};
    }

    /** list_pop_front. */
    method PopFront() returns (data: Option<T>)
      requires Valid()
      modifies this, repr
      ensures Valid() && repr == old(repr)
      ensures old(Contents()) == [] ==> data == None && Contents() == []
      ensures old(Contents()) != [] ==> data == Some(old(Contents())[0]) && Contents() == old(Contents())[1..]
    {
      hide Data;
      data := None;
      if size > 0 {
        var pi := head;
        assert |spine| > 1 ==> spine[0].next == spine[1];
        head := head.next;
        if head != null {
          head.prev := null;
        }
        size := size - 1;
        if size == 0 {
          tail := null;
        }
        data := Some(pi.data);
        spine := spine[1..];
      }
    }

    /** list_pop_back. */
    method PopBack() returns (data: Option<T>)
      requires Valid()
      modifies this, repr
      ensures Valid() && repr == old(repr)
      ensures old(Contents()) == [] ==> data == None && Contents() == []
      ensures old(Contents()) != [] ==>
                data == Some(old(Contents())[|old(Contents())| - 1]) &&
                Contents() == old(Contents())[..|old(Contents())| - 1]
    {
      hide Data;
      data := None;
      if size > 0 {
        var pi := tail;
        assert |spine| > 1 ==> spine[|spine| - 2 + 1].prev == spine[|spine| - 2];
        tail := tail.prev;
        if tail != null {
          tail.next := null;
        }
        size := size - 1;
        if size == 0 {
          head := null;
        }
        data := Some(pi.data);
        spine := spine[..|spine| - 1];
      }
    }

    /** list_peek_front and list_peek_back. */
    method Peek(front: bool) returns (data: Option<T>)
      requires Valid()
      ensures Contents() == [] ==> data == None
      ensures Contents() != [] ==> data == Some(Contents()[if front then 0 else |Contents()| - 1])
    {
      data := None;
      if size > 0 {
        var pi := if front then head else tail;
        data := Some(pi.data);
      }
    }
  }

  // ---------------------------------------------------------------- the queue

  function Reversed<T>(s: seq<T>): (r: seq<T>)
    ensures |r| == |s|
    decreases |s|
  {
    if s == [] then [] else Reversed(s[1..]) + [s[0]]
  }

  lemma {:induction false} ReversedSnoc<T>(s: seq<T>)
    requires s != []
    ensures Reversed(s) == [s[|s| - 1]] + Reversed(s[..|s| - 1])
    decreases |s|
  {
    if |s| > 1 {
      ReversedSnoc(s[1..]);
      assert s[1..][..|s| - 2] == s[..|s| - 1][1..];
    }
  }

  /** stLockQueue_t: pushed at the front of the list, popped at its back. */
  class LockQueue<T> {
    const list: List<T>

    ghost predicate Valid()
      reads list, list.repr
    {
      list.Valid()
    }

    /** What waits, the next to be popped first. */
    ghost function Waiting(): seq<T>
      reads list
    {
      Reversed(list.Contents())
    }

    /** lockqueue_init. */
    constructor ()
      ensures Valid() && Waiting() == [] && fresh(list) && list.repr == {}
    {
      list := new List();
    }

    /** lockqueue_push. */
    method Push(elem: T)
      requires Valid()
      modifies list, list.repr
      ensures Valid() && Waiting() == old(Waiting()) + [elem]
      ensures fresh(list.repr - old(list.repr))
    {
      list.PushFront(elem);
      assert list.Contents()[1..] == old(list.Contents());
    }

    /** lockqueue_pop. */
    method Pop() returns (elem: Option<T>)
      requires Valid()
      modifies list, list.repr
      ensures Valid() && list.repr == old(list.repr)
      ensures old(Waiting()) == [] ==> elem == None && Waiting() == []
      ensures old(Waiting()) != [] ==> elem == Some(old(Waiting())[0]) && Waiting() == old(Waiting())[1..]
    {
      elem := None;
      if list.size != 0 {
        ReversedSnoc(list.Contents());
        elem := list.PopBack();
      }
    }

    /** lockqueue_pop_back: the element pushed last. */
    method PopBack() returns (elem: Option<T>)
      requires Valid()
      modifies list, list.repr
      ensures Valid() && list.repr == old(list.repr)
      ensures old(Waiting()) == [] ==> elem == None && Waiting() == []
      ensures old(Waiting()) != [] ==>
                elem == Some(old(Waiting())[|old(Waiting())| - 1]) &&
                Waiting() == old(Waiting())[..|old(Waiting())| - 1]
    {
      elem := None;
      if list.size != 0 {
        elem := list.PopFront();
      }
    }
  }

  datatype QueueOp<T> = Push(elem: T) | Pop

  /** What is left and what has been popped after some pushes and pops. */
  function Served<T>(q: seq<T>, ops: seq<QueueOp<T>>): (seq<T>, seq<T>)
    decreases |ops|
  {
    if ops == [] then (q, [])
    else if ops[0].Push? then Served(q + [ops[0].elem], ops[1..])
    else if q == [] then Served(q, ops[1..])
    else
      var (left, popped) := Served(q[1..], ops[1..]);
      (left, [q[0]] + popped)
  }

  function Pushed<T>(ops: seq<QueueOp<T>>): seq<T>
    decreases |ops|
  {
    if ops == [] then [] else (if ops[0].Push? then [ops[0].elem] else []) + Pushed(ops[1..])
  }

  /** First in, first out, nothing lost: what is popped and what is left is what was there and what
      was pushed, in that order. */
  lemma {:induction false} Fifo<T>(q: seq<T>, ops: seq<QueueOp<T>>)
    ensures Served(q, ops).1 + Served(q, ops).0 == q + Pushed(ops)
    decreases |ops|
  {
    if ops == [] {
      assert [] + q == q + [];
    } else if ops[0].Push? {
      Fifo(q + [ops[0].elem], ops[1..]);
      assert q + [ops[0].elem] + Pushed(ops[1..]) == q + ([ops[0].elem] + Pushed(ops[1..]));
    } else if q == [] {
      Fifo(q, ops[1..]);
      assert [] + Pushed(ops[1..]) == Pushed(ops[1..]);
    } else {
      Fifo(q[1..], ops[1..]);
      var (left, popped) := Served(q[1..], ops[1..]);
      assert [q[0]] + popped + left == [q[0]] + (popped + left);
      assert [] + Pushed(ops[1..]) == Pushed(ops[1..]);
      assert [q[0]] + (q[1..] + Pushed(ops[1..])) == q + Pushed(ops[1..]);
    }
  }
}
