/** The JSON tree of src/ayla/conf_io.c as it lies in memory: object nodes that are walked and
    changed in place.  What the changes mean for the tree as a value is said in module Conf. */
module ConfTree {
  import opened Options
  import opened Conf

  /** A member of an object: another object, or a value without members. */
  datatype Item = Leaf(value: Json) | Sub(node: Node)

  /** The nodes of an item. */
  ghost function Footprint(it: Item): set<Node>
    reads if it.Sub? then {it.node} else {}
  {
    if it.Sub? then it.node.repr else {}
  }

  ghost predicate Sound(it: Item)
    reads if it.Sub? then {it.node} + it.node.repr else {}
  {
    if it.Sub? then it.node.Valid() else !it.value.Object?
  }

  /** The item as a value. */
  function ItemTree(it: Item): Json
    requires Sound(it)
    reads if it.Sub? then {it.node} + it.node.repr else {}
  {
    if it.Sub? then it.node.Tree() else it.value
  }

  /** A json_t of type object. */
  class Node {
    var kids: map<string, Item>
    // at least this node and all below it
    ghost var repr: set<Node>

    /** A tree: no node is reached in two ways. */
    ghost predicate Valid()
      reads this, repr
      decreases repr
    {
      && this in repr
      && (forall k :: k in kids && kids[k].Leaf? ==> !kids[k].value.Object?)
      && (forall k :: k in kids && kids[k].Sub? ==>
                        && kids[k].node in repr && kids[k].node.repr < repr
                        && this !in kids[k].node.repr && kids[k].node.Valid())
      && (forall k, l :: k in kids && l in kids && k != l && kids[k].Sub? && kids[l].Sub? ==>
                           kids[k].node.repr !! kids[l].node.repr)
    }

    /** The node as a value. */
    function Tree(): Json
      requires Valid()
      reads this, repr
      decreases repr
    {
      Object(map k | k in kids :: if kids[k].Sub? then kids[k].node.Tree() else kids[k].value)
    }

    /** json_object. */
    constructor ()
      ensures Valid() && Tree() == Object(map[]) && kids == map[] && fresh(repr)
    {
      kids := map[];
      repr := {this};
    }

    /** json_object_get. */
    lemma GetMeans(name: string)
      requires Valid()
      ensures name in kids ==> Sound(kids[name])
      ensures Get(Tree(), name) == if name in kids then Some(ItemTree(kids[name])) else None
    {
    }

    lemma TreeParts()
      requires Valid()
      ensures Tree().Object? && Tree().fields.Keys == kids.Keys
      ensures forall k :: k in kids ==> Sound(kids[k]) && Tree().fields[k] == ItemTree(kids[k])
    {
    }

    lemma TreeIs(t: Json)
      requires Valid() && t.Object? && t.fields.Keys == kids.Keys
      requires forall k :: k in kids ==> Sound(kids[k]) && t.fields[k] == ItemTree(kids[k])
      ensures Tree() == t
    {
    }

    lemma IsObject()
      requires Valid()
      ensures this in repr && Tree().Object?
      ensures forall k :: k in kids && kids[k].Sub? ==> kids[k].node.Valid() && kids[k].node.Tree().Object?
    {
    }

    /** json_object_set of an item that is not in this tree yet. */
    method PutItem(name: string, it: Item)
      requires Valid() && Sound(it) && Footprint(it) !! repr
      modifies this
      ensures Valid() && repr == old(repr) + Footprint(it) && kids == old(kids)[name := it]
      ensures Tree() == Put(old(Tree()), name, old(ItemTree(it)))
    {
      hide Tree;
      TreeParts();
      ghost var before, value := Tree(), ItemTree(it);
      kids := kids[name := it];
      repr := repr + Footprint(it);
      TreeIs(Put(before, name, value));
    }

    /** json_object_del. */
    method DeleteItem(name: string)
      requires Valid()
      modifies `kids
      ensures Valid() && Tree() == Object(old(Tree()).fields - {name})
    {
      kids := kids - {name};
    }

    /** conf_path_lookup. */
    method FindPath(names: seq<string>) returns (found: Option<Item>)
      requires Valid()
      ensures found.Some? ==> Sound(found.value)
      ensures TreeOf(found) == Lookup(Tree(), names)
    {
      hide Valid, Tree;
      if names == [] {
        return None;
      }
      var node := this;
      var i := 0;
      assert names[0..] == names;
      while true
        invariant i < |names| && node.Valid() && Lookup(node.Tree(), names[i..]) == Lookup(Tree(), names)
        decreases |names| - i
      {
        node.GetMeans(names[i]);
        assert names[i..][1..] == names[i + 1..];
        if names[i] !in node.kids {
          return None;
        }
        var item := node.kids[names[i]];
        if i + 1 == |names| {
          return Some(item);
        }
        if item.Leaf? {
          NothingInLeaf(item.value, names[i + 1..]);
          return None;
        }
        node, i := item.node, i + 1;
      }
    }

    /** The last step of conf_path_set: conf_set_obj behind its type check, or conf_remove_obj. */
    method SetLast(name: string, obj: Option<Item>) returns (rc: int)
      requires Valid() && Fit(obj, repr)
      modifies this
      ensures Valid() && repr <= old(repr) + Nodes(obj)
      ensures var o := SetChild(old(Tree()), name, old(TreeOf(obj))); Tree() == o.root && rc == o.rc
    {
      hide Valid, Tree;
      GetMeans(name);
      IsObject();
      match obj
      case Some(it) =>
        if name in kids && TypeOf(ItemTree(kids[name])) != TypeOf(ItemTree(it)) {
          return -1;
        }
        if name in kids && ItemTree(kids[name]) == ItemTree(it) {
          return 1;
        }
        PutItem(name, it);
        return 0;
      case None =>
        if name !in kids {
          return -1;
        }
        DeleteItem(name);
        return 0;
    }

    /** conf_path_set from this node on, for the names from `i` on. */
    method SetPath(names: seq<string>, i: nat, obj: Option<Item>) returns (rc: int)
      requires Valid() && Fit(obj, repr) && i < |names|
      modifies repr
      ensures Valid() && fresh(repr - old(repr) - Nodes(obj))
      ensures var o := PathSet(old(Tree()), names[i..], old(TreeOf(obj))); Tree() == o.root && rc == o.rc
      decreases |names| - i, 0
    {
      hide Valid, Tree;
      var name := names[i];
      GetMeans(name);
      IsObject();
      if i + 1 == |names| {
        rc := SetLast(name, obj);
        return;
      }
      assert names[i..][1..] == names[i + 1..];
      if name !in kids {
        ghost var before := Tree();
        var node := new Node();
        PutItem(name, Sub(node));
        rc := SetBelow(name, node, names, i + 1, obj);
        PutTwice(before, name, Object(map[]), PathSet(Object(map[]), names[i + 1..], old(TreeOf(obj))).root);
      } else if kids[name].Leaf? {
        rc := -1;
      } else {
        rc := SetBelow(name, kids[name].node, names, i + 1, obj);
      }
    }

    /** The walk goes on in a node below; this one has the changed node in its place afterwards. */
    method SetBelow(name: string, child: Node, names: seq<string>, i: nat, obj: Option<Item>) returns (rc: int)
      requires Valid() && Fit(obj, repr) && i < |names| && name in kids && kids[name] == Sub(child)
      modifies repr
      ensures Valid() && fresh(repr - old(repr) - Nodes(obj))
      ensures var o := PathSet(old(child.Tree()), names[i..], old(TreeOf(obj)));
              Tree() == Put(old(Tree()), name, o.root) && rc == o.rc
      decreases |names| - i, 2
    {
      hide Valid, Tree, PathSet;
      BelowIsOwn(name, child);
      TreeParts();
      ghost var before, o := Tree(), PathSet(child.Tree(), names[i..], TreeOf(obj));
      rc := Descend(name, child, names, i, obj);
      Widen(name, child);
      TreeIs(Put(before, name, o.root));
    }

    lemma BelowIsOwn(name: string, child: Node)
      requires Valid() && name in kids && kids[name] == Sub(child)
      ensures this in repr && child in repr && child.repr < repr && child.Valid()
    {
    }

    /** The nodes that have come in below are counted in. */
    ghost method Widen(name: string, child: Node)
      requires this in repr && child in repr && name in kids && kids[name] == Sub(child)
      requires child.Valid() && this !in child.repr
      requires forall k :: k in kids && k != name ==> Sound(kids[k]) && Footprint(kids[k]) !! child.repr
      requires forall k :: k in kids && k != name && kids[k].Sub? ==>
                 kids[k].node in repr && kids[k].node.repr < repr && this !in kids[k].node.repr
      requires forall k, l ::
                 k in kids && l in kids && k != l && k != name && l != name && kids[k].Sub? && kids[l].Sub? ==>
                 kids[k].node.repr !! kids[l].node.repr
      modifies `repr
      ensures Valid() && repr == old(repr) + child.repr
    {
      repr := repr + child.repr;
    }

    /** The change stays inside the node below and what is new. */
    method Descend(name: string, child: Node, names: seq<string>, i: nat, obj: Option<Item>) returns (rc: int)
      requires Valid() && Fit(obj, repr) && i < |names| && name in kids && kids[name] == Sub(child)
      modifies child.repr
      ensures this in repr && child in repr && kids == old(kids) && repr == old(repr)
      ensures child.Valid() && this !in child.repr && fresh(child.repr - old(child.repr) - Nodes(obj))
      ensures var o := PathSet(old(child.Tree()), names[i..], old(TreeOf(obj))); child.Tree() == o.root && rc == o.rc
      ensures forall k :: k in kids && k != name ==>
                Sound(kids[k]) && ItemTree(kids[k]) == old(ItemTree(kids[k])) &&
                Footprint(kids[k]) == old(Footprint(kids[k])) &&
                Footprint(kids[k]) !! child.repr
      ensures forall k :: k in kids && k != name && kids[k].Sub? ==>
                kids[k].node in repr && kids[k].node.repr < repr && this !in kids[k].node.repr
      ensures forall k, l ::
                k in kids && l in kids && k != l && k != name && l != name && kids[k].Sub? && kids[l].Sub? ==>
                kids[k].node.repr !! kids[l].node.repr
      decreases |names| - i, 1
    {
      hide Tree, PathSet;
      rc := child.SetPath(names, i, obj);
    }
  }

  lemma PutTwice(root: Json, name: string, a: Json, b: Json)
    requires root.Object?
    ensures Put(Put(root, name, a), name, b) == Put(root, name, b)
  {
  }

  ghost function Nodes(obj: Option<Item>): set<Node>
    reads if obj.Some? && obj.value.Sub? then {obj.value.node} else {}
  {
    if obj.Some? then Footprint(obj.value) else {}
  }

  /** An item to be set is a tree of its own. */
  ghost predicate Fit(obj: Option<Item>, repr: set<Node>)
    reads if obj.Some? && obj.value.Sub? then {obj.value.node} + obj.value.node.repr else {}
  {
    obj.Some? ==> Sound(obj.value) && Footprint(obj.value) !! repr
  }

  function TreeOf(obj: Option<Item>): Option<Json>
    requires obj.Some? ==> Sound(obj.value)
    reads if obj.Some? && obj.value.Sub? then {obj.value.node} + obj.value.node.repr else {}
  {
    if obj.Some? then Some(ItemTree(obj.value)) else None
  }

  /** struct conf_state, as far as it concerns the tree; `calls` is what the change handler has been
      called with. */
  class Config {
    var root: Option<Item>
    const hasHandler: bool
    var calls: seq<Call>

    ghost predicate Valid()
      reads this, if root.Some? && root.value.Sub? then {root.value.node} + root.value.node.repr else {}
    {
      root.Some? ==> Sound(root.value)
    }

    function State(): Option<Json>
      requires Valid()
      reads this, if root.Some? && root.value.Sub? then {root.value.node} + root.value.node.repr else {}
    {
      TreeOf(root)
    }

    constructor (hasHandler: bool)
      ensures Valid() && State() == Some(Object(map[])) && calls == [] && this.hasHandler == hasHandler
    {
      var node := new Node();
      root, calls, this.hasHandler := Some(Sub(node)), [], hasHandler;
    }

    /** conf_path_set on the root. */
    method Set(path: string, obj: Option<Item>) returns (rc: int)
      requires Valid() && Fit(obj, Nodes(root))
      modifies `calls, Nodes(root)
      ensures Valid() && root == old(root)
      ensures old(State()).None? ==> rc == -1
      ensures old(State()).Some? ==>
                var o := PathSet(old(State()).value, Names(path, []), old(TreeOf(obj)));
                State() == Some(o.root) && rc == o.rc
      ensures calls == old(calls) + if rc == 0 && hasHandler then [Call(path, old(TreeOf(obj)))] else []
    {
      hide Node.Valid, Node.Tree, PathSet, Names;
      rc := -1;
      var names := Names(path, []);
      ghost var value := TreeOf(obj);
      var told := TreeOf(obj);
      if root.Some? {
        if root.value.Sub? && names != [] {
          assert names[0..] == names;
          rc := root.value.node.SetPath(names, 0, obj);
        } else {
          SetNothing(TreeOf(root).value, names, value);
        }
      }
      if rc == 0 && hasHandler {
        calls := calls + [Call(path, told)];
      }
    }

    /** conf_set_root_obj; keys are visited in any order. */
    method SetRoot(item: Option<Item>)
      requires Valid() && Fit(item, Nodes(root))
      modifies this
      ensures Valid() && root == item && |calls| >= |old(calls)| && calls[..|old(calls)|] == old(calls)
      ensures old(root).None? || !hasHandler ==> calls == old(calls)
      ensures old(root).Some? && hasHandler ==>
                Tells(calls[|old(calls)|..], old(State()), State(), Keys(old(State())) + Keys(State()))
    {
      hide Tells, Under, Node.Valid, Node.Tree;
      var before := State();
      root := item;
      var value := State();
      if before.None? || !hasHandler {
        return;
      }
      ghost var told: seq<Call> := [];
      var left := Keys(before);
      TellsNothing(before, value);
      // the new tree: added and changed keys; keys of both leave `left`
      var todo := Keys(value);
      assert Keys(value) - todo == {};
      while todo != {}
        invariant todo <= Keys(value) && left == Keys(before) - (Keys(value) - todo)
        invariant root == item && Valid() && State() == value && calls == old(calls) + told
        invariant Tells(told, before, value, Keys(value) - todo)
        decreases todo
      {
        var key :| key in todo;
        TellsMore(told, before, value, Keys(value) - todo, key);
        assert Keys(value) - todo + {key} == Keys(value) - (todo - {key});
        if Under(before, key) != Under(value, key) {
          calls := calls + [Call(key, Under(value, key))];
          told := told + [Call(key, Under(value, key))];
        }
        left := left - {key};
        todo := todo - {key};
      }
      assert Keys(value) - {} == Keys(value);
      // what is left of the old tree has been deleted
      ghost var done := Keys(value);
      while left != {}
        invariant left <= Keys(before) && done == Keys(value) + (Keys(before) - left) && left !! Keys(value)
        invariant root == item && Valid() && State() == value
        invariant calls == old(calls) + told && Tells(told, before, value, done)
        decreases left
      {
        var key :| key in left;
        TellsMore(told, before, value, done, key);
        KeysMean(before, key);
        KeysMean(value, key);
        calls := calls + [Call(key, None)];
        told := told + [Call(key, None)];
        done := done + {key};
        left := left - {key};
      }
      assert done == Keys(before) + Keys(value);
      assert calls[|old(calls)|..] == told;
    }
  }

  lemma NothingInLeaf(value: Json, names: seq<string>)
    requires !value.Object?
    ensures Lookup(value, names) == None
  {
  }

  lemma SetNothing(root: Json, names: seq<string>, obj: Option<Json>)
    requires names == [] || !root.Object?
    ensures PathSet(root, names, obj).root == root && PathSet(root, names, obj).rc == -1
  {
  }
}
