/** The configuration tree of src/ayla/conf_io.c, with JSON values as finite maps. */
module Conf {
  import opened Options

  datatype Json =
    | Object(fields: map<string, Json>)
    | Array(items: seq<Json>)
    | Text(text: string)
    | Integer(number: int)
    | Real(amount: real)
    | Boolean(truth: bool)
    | Null

  /** json_typeof, with true and false taken as one type. */
  function TypeOf(j: Json): nat {
    match j
    case Object(_) => 0
    case Array(_) => 1
    case Text(_) => 2
    case Integer(_) => 3
    case Real(_) => 4
    case Boolean(_) => 5
    case Null => 6
  }

  /** json_object_get: nothing is in what is not an object. */
  function Get(j: Json, name: string): Option<Json> {
    if j.Object? && name in j.fields then Some(j.fields[name]) else None
  }

  function Put(j: Json, name: string, v: Json): Json
    requires j.Object?
  {
    Object(j.fields[name := v])
  }

  // ---------------------------------------------------------------- paths

  /** The names in a path as strtok_r finds them: what stands between slashes, empty stretches left
      out. */
  function Names(path: string, name: string): seq<string>
    decreases |path|
  {
    if path == [] then (if name == [] then [] else [name])
    else if path[0] == '/' then (if name == [] then [] else [name]) + Names(path[1..], [])
    else Names(path[1..], name + [path[0]])
  }

  function Joined(names: seq<string>): string
    decreases |names|
  {
    if names == [] then [] else if |names| == 1 then names[0] else names[0] + (['/'] + Joined(names[1..]))
  }

  lemma {:induction false} NameTaken(name: string, so: string, rest: string)
    requires '/' !in name
    ensures Names(name + rest, so) == Names(rest, so + name)
    decreases |name|
  {
    if name == [] {
      assert name + rest == rest && so + name == so;
    } else {
      assert (name + rest)[1..] == name[1..] + rest;
      NameTaken(name[1..], so + [name[0]], rest);
      assert so + [name[0]] + name[1..] == so + name;
    }
  }

  /** Names that are not empty and have no slash survive being joined to a path. */
  lemma {:induction false} PathNames(names: seq<string>)
    requires forall n :: n in names ==> n != [] && '/' !in n
    ensures Names(Joined(names), []) == names
    decreases |names|
  {
    if names != [] {
      var name := names[0];
      assert [] + name == name;
      if |names| == 1 {
        NameTaken(name, [], []);
        assert name + [] == name && names == [name];
      } else {
        var rest := ['/'] + Joined(names[1..]);
        NameTaken(name, [], rest);
        assert rest[1..] == Joined(names[1..]);
        PathNames(names[1..]);
        assert names == [name] + names[1..];
      }
    }
  }

  /** A path in which any number of slashes stand in front of a name, at least one between two, and any at
      the end. */
  function Spread(names: seq<string>, gaps: seq<nat>, trail: nat): string
    requires |gaps| == |names|
    decreases |names|
  {
    if names == [] then seq(trail, _ => '/')
    else seq(gaps[0], _ => '/') + (names[0] + Spread(names[1..], gaps[1..], trail))
  }

  lemma {:induction false} SlashesSkipped(n: nat, rest: string)
    ensures Names(seq(n, _ => '/') + rest, []) == Names(rest, [])
    decreases n
  {
    var s := seq(n, _ => '/');
    if n == 0 {
      assert s + rest == rest;
    } else {
      assert (s + rest)[1..] == seq(n - 1, _ => '/') + rest;
      SlashesSkipped(n - 1, rest);
      assert [] + Names(rest, []) == Names(rest, []);
    }
  }

  /** Repeated, leading and trailing slashes make no difference. */
  lemma {:induction false} SlashesDoNotMatter(names: seq<string>, gaps: seq<nat>, trail: nat)
    requires |gaps| == |names| && forall n :: n in names ==> n != [] && '/' !in n
    requires forall i :: 1 <= i < |gaps| ==> gaps[i] > 0
    ensures Names(Spread(names, gaps, trail), []) == names
    decreases |names|
  {
    if names == [] {
      var s: string := seq(trail, _ => '/');
      SlashesSkipped(trail, []);
      assert s + [] == s;
    } else {
      var rest := Spread(names[1..], gaps[1..], trail);
      SlashesSkipped(gaps[0], names[0] + rest);
      assert [] + names[0] == names[0];
      NameTaken(names[0], [], rest);
      SlashesDoNotMatter(names[1..], gaps[1..], trail);
      if |names| > 1 {
        assert gaps[1..][0] == gaps[1] > 0;
      }
      NameEnds(names[0], rest);
      assert names == [names[0]] + names[1..];
    }
  }

  lemma NameEnds(name: string, rest: string)
    requires name != [] && (rest == [] || rest[0] == '/')
    ensures Names(rest, name) == [name] + Names(rest, [])
  {
    if rest != [] {
      assert [] + Names(rest[1..], []) == Names(rest[1..], []);
    }
  }

  /** conf_path_lookup. */
  function Lookup(node: Json, names: seq<string>): Option<Json>
    decreases |names|
  {
    if names == [] then None
    else
      var child := Get(node, names[0]);
      if child.None? || |names| == 1 then child else Lookup(child.value, names[1..])
  }

  // ---------------------------------------------------------------- setting

  /** The tree afterwards, the result code, and whether the change handler was called. */
  datatype Outcome = Outcome(root: Json, rc: int, notified: bool)

  /** The last step of conf_path_set: conf_set_obj behind its type check, or conf_remove_obj. */
  function SetChild(parent: Json, name: string, obj: Option<Json>): Outcome {
    var was := Get(parent, name);
    match obj
    case Some(value) =>
      if was.Some? && TypeOf(was.value) != TypeOf(value) then Outcome(parent, -1, false)
      else if was == Some(value) then Outcome(parent, 1, false)
      else if !parent.Object? then Outcome(parent, -1, false)
      else Outcome(Put(parent, name, value), 0, true)
    case None =>
      if was.None? then Outcome(parent, -1, false)
      else Outcome(Object(parent.fields - {name}), 0, true)
  }

  /** conf_path_set: nodes missing on the way are created before the last step is tried. */
  function PathSet(root: Json, names: seq<string>, obj: Option<Json>): Outcome
    decreases |names|
  {
    if names == [] then Outcome(root, -1, false)
    else if |names| == 1 then SetChild(root, names[0], obj)
    else
      var node := Get(root, names[0]);
      if !root.Object? || (node.Some? && !node.value.Object?) then Outcome(root, -1, false)
      else
        var o := PathSet(if node.Some? then node.value else Object(map[]), names[1..], obj);
        o.(root := Put(root, names[0], o.root))
  }

  predicate Prefix(p: seq<string>, q: seq<string>) {
    |p| <= |q| && q[..|p|] == p
  }

  lemma PrefixTail(p: seq<string>, q: seq<string>)
    requires p != [] && q != [] && p[0] == q[0]
    ensures Prefix(p, q) <==> Prefix(p[1..], q[1..])
  {
    if Prefix(p, q) {
      assert q[1..][..|p| - 1] == q[..|p|][1..];
    }
    if Prefix(p[1..], q[1..]) {
      assert q[..|p|] == [q[0]] + q[1..][..|p| - 1] && p == [p[0]] + p[1..];
    }
  }

  lemma NothingInEmpty(names: seq<string>)
    ensures Lookup(Object(map[]), names) == None
  {
  }

  /** Main result: a set that succeeds can be looked up again. */
  lemma {:induction false} SetThenLookup(root: Json, names: seq<string>, value: Json)
    ensures var o := PathSet(root, names, Some(value));
            && o.rc in {-1, 0, 1}
            && o.notified == (o.rc == 0)
            && (o.rc == -1 ==> o.root == root)
            && (o.rc == 1 ==> o.root == root && Lookup(root, names) == Some(value))
            && (o.rc == 0 ==> Lookup(o.root, names) == Some(value) && Lookup(root, names) != Some(value))
    decreases |names|
  {
    if |names| >= 2 {
      var node := Get(root, names[0]);
      var child := if node.Some? then node.value else Object(map[]);
      SetThenLookup(child, names[1..], value);
      if node.None? {
        SetInEmpty(names[1..], value);
        NothingInEmpty(names[1..]);
      }
      if root.Object? && node.Some? {
        assert Put(root, names[0], node.value) == root;
      }
    }
  }

  /** Below a node that has just been created, setting always succeeds. */
  lemma {:induction false} SetInEmpty(names: seq<string>, value: Json)
    requires names != []
    ensures PathSet(Object(map[]), names, Some(value)).rc == 0
    decreases |names|
  {
    if |names| >= 2 {
      SetInEmpty(names[1..], value);
    }
  }

  /** Every node on the way that is there is an object. */
  ghost predicate Passable(root: Json, names: seq<string>) {
    root.Object? &&
    forall k :: 1 <= k < |names| && Lookup(root, names[..k]).Some? ==> Lookup(root, names[..k]).value.Object?
  }

  lemma PassableTail(root: Json, names: seq<string>)
    requires root.Object? && |names| >= 2 && Get(root, names[0]).Some?
    ensures Passable(root, names) <==> Passable(Get(root, names[0]).value, names[1..])
  {
    var child := Get(root, names[0]).value;
    assert names[..1] == [names[0]] && Lookup(root, names[..1]) == Some(child);
    forall k | 1 <= k < |names| - 1
      ensures Lookup(root, names[..k + 1]) == Lookup(child, names[1..][..k])
    {
      assert names[..k + 1][1..] == names[1..][..k];
    }
    if Passable(child, names[1..]) {
      forall k | 1 <= k < |names| && Lookup(root, names[..k]).Some?
        ensures Lookup(root, names[..k]).value.Object?
      {
        if k > 1 {
          assert Lookup(root, names[..k - 1 + 1]) == Lookup(child, names[1..][..k - 1]);
        }
      }
    }
  }

  lemma PassableMissing(root: Json, names: seq<string>)
    requires root.Object? && |names| >= 2 && Get(root, names[0]).None?
    ensures Passable(root, names)
  {
    forall k | 1 <= k < |names|
      ensures Lookup(root, names[..k]) == None
    {
      assert names[..k][0] == names[0];
    }
  }

  /** Both objects, both arrays, both texts, and so on; true and false are of one kind. */
  predicate SameKind(a: Json, b: Json) {
    && a.Object? == b.Object? && a.Array? == b.Array? && a.Text? == b.Text? && a.Integer? == b.Integer?
    && a.Real? == b.Real? && a.Boolean? == b.Boolean? && a.Null? == b.Null?
  }

  lemma TypesAreKinds(a: Json, b: Json)
    ensures TypeOf(a) == TypeOf(b) <==> SameKind(a, b)
  {
  }

  /** A set is refused exactly for an empty path, a node on the way that is not an object, or a value
      of another type in the place. */
  lemma {:induction false} SetExactly(root: Json, names: seq<string>, value: Json)
    ensures PathSet(root, names, Some(value)).rc != -1 <==>
            names != [] && Passable(root, names) &&
            (Lookup(root, names).Some? ==> SameKind(Lookup(root, names).value, value))
    decreases |names|
  {
    hide Passable, TypeOf, SameKind;
    if Lookup(root, names).Some? {
      TypesAreKinds(Lookup(root, names).value, value);
    }
    if |names| == 1 {
      PassableOne(root, names);
    } else if |names| >= 2 {
      PassableObject(root, names);
      if root.Object? {
        if Get(root, names[0]).Some? {
          PassableTail(root, names);
          PassableObject(Get(root, names[0]).value, names[1..]);
          SetExactly(Get(root, names[0]).value, names[1..], value);
        } else {
          PassableMissing(root, names);
          SetInEmpty(names[1..], value);
        }
      }
    }
  }

  lemma PassableOne(root: Json, names: seq<string>)
    requires |names| == 1
    ensures Passable(root, names) <==> root.Object?
  {
  }

  lemma PassableObject(root: Json, names: seq<string>)
    ensures Passable(root, names) ==> root.Object?
  {
  }

  /** Main result: whatever is set or deleted, paths that neither lead to the place nor through it
      keep their values. */
  lemma {:induction false} OtherPathsKeep(root: Json, names: seq<string>, obj: Option<Json>, other: seq<string>)
    requires !Prefix(names, other) && !Prefix(other, names)
    ensures Lookup(PathSet(root, names, obj).root, other) == Lookup(root, other)
    decreases |names|
  {
    if names != [] && other != [] {
      if other[0] == names[0] && |names| >= 2 && |other| >= 2 {
        PrefixTail(names, other);
        PrefixTail(other, names);
        var node := Get(root, names[0]);
        OtherPathsKeep(if node.Some? then node.value else Object(map[]), names[1..], obj, other[1..]);
        NothingInEmpty(other[1..]);
      }
    }
  }

  /** Longer paths are looked up in the value set. */
  lemma {:induction false} PathsThrough(root: Json, names: seq<string>, ext: seq<string>)
    requires names != [] && ext != []
    ensures Lookup(root, names + ext)
         == if Lookup(root, names).None? then None else Lookup(Lookup(root, names).value, ext)
    decreases |names|
  {
    assert (names + ext)[1..] == names[1..] + ext;
    if |names| == 1 {
      assert names[1..] + ext == ext;
    } else if Get(root, names[0]).Some? {
      PathsThrough(Get(root, names[0]).value, names[1..], ext);
    }
  }

  // ---------------------------------------------------------------- deleting

  /** A node on the way to the place is missing in a node that is an object. */
  ghost predicate Creates(root: Json, names: seq<string>)
    decreases |names|
  {
    |names| >= 2 && root.Object? &&
    (names[0] !in root.fields || Creates(root.fields[names[0]], names[1..]))
  }

  /** Main result: deletion succeeds exactly when there is something to delete, and then it is gone;
      but a deletion that fails leaves the tree as it was only if no node on the way is missing, since
      missing nodes are created first. */
  lemma {:induction false} DeleteExactly(root: Json, names: seq<string>)
    ensures var o := PathSet(root, names, None);
            && o.rc == (if Lookup(root, names).Some? then 0 else -1)
            && o.notified == (o.rc == 0)
            && (o.rc == 0 ==> Lookup(o.root, names) == None)
            && (o.rc == -1 ==> (o.root == root <==> !Creates(root, names)))
    decreases |names|
  {
    if |names| >= 2 && root.Object? {
      var node := Get(root, names[0]);
      var child := if node.Some? then node.value else Object(map[]);
      DeleteExactly(child, names[1..]);
      NothingInEmpty(names[1..]);
      var o := PathSet(root, names, None);
      if node.Some? {
        assert Put(root, names[0], node.value) == root;
        if child.Object? && o.rc == -1 {
          assert Get(o.root, names[0]) == Some(PathSet(child, names[1..], None).root);
        }
      } else {
        assert names[0] in o.root.fields && names[0] !in root.fields;
      }
    }
  }

  /** Deleting a/b where there is nothing fails, and leaves an empty a behind. */
  lemma FailedDeletionCreates()
    ensures PathSet(Object(map[]), ["a", "b"], None) == Outcome(Object(map["a" := Object(map[])]), -1, false)
  {
    assert ["a", "b"][1..] == ["b"];
    assert PathSet(Object(map[]), ["b"], None) == Outcome(Object(map[]), -1, false);
  }

  // ---------------------------------------------------------------- replacing the root

  /** A call of the change handler: the path or key, and the value, if it was not a deletion. */
  datatype Call = Call(path: string, value: Option<Json>)

  function Under(root: Option<Json>, key: string): Option<Json> {
    if root.None? then None else Get(root.value, key)
  }

  /** The calls for some top-level keys: each changed one once and with its new value, and no other. */
  ghost predicate Tells(calls: seq<Call>, before: Option<Json>, after: Option<Json>, keys: set<string>) {
    && (forall i, j :: 0 <= i < j < |calls| ==> calls[i].path != calls[j].path)
    && (forall i :: 0 <= i < |calls| ==> calls[i].path in keys && calls[i].value == Under(after, calls[i].path) &&
                                         Under(before, calls[i].path) != Under(after, calls[i].path))
    && (forall k :: k in keys && Under(before, k) != Under(after, k) ==>
          exists i :: 0 <= i < |calls| && calls[i].path == k)
  }

  function Keys(root: Option<Json>): set<string> {
    if root.Some? && root.value.Object? then root.value.fields.Keys else {}
  }

  lemma KeysMean(root: Option<Json>, k: string)
    ensures k in Keys(root) <==> Under(root, k).Some?
  {
  }

  lemma TellsMore(calls: seq<Call>, before: Option<Json>, after: Option<Json>, keys: set<string>, k: string)
    requires Tells(calls, before, after, keys) && k !in keys
    ensures Under(before, k) == Under(after, k) ==> Tells(calls, before, after, keys + {k})
    ensures Under(before, k) != Under(after, k) ==> Tells(calls + [Call(k, Under(after, k))], before, after, keys + {k})
  {
    hide Under;
    var more := calls + [Call(k, Under(after, k))];
    assert more[|calls|].path == k;
    forall x | x in keys && Under(before, x) != Under(after, x)
      ensures exists i :: 0 <= i < |more| && more[i].path == x
    {
      var i :| 0 <= i < |calls| && calls[i].path == x;
      assert more[i].path == x;
    }
  }

  lemma TellsNothing(before: Option<Json>, after: Option<Json>)
    ensures Tells([], before, after, {})
  {
  }

  /** No key outside both trees can have changed, so Tells over the keys of both is about all keys. */
  lemma OtherKeysSame(before: Option<Json>, after: Option<Json>, k: string)
    ensures Under(before, k) != Under(after, k) ==> k in Keys(before) + Keys(after)
  {
    KeysMean(before, k);
    KeysMean(after, k);
  }
}
