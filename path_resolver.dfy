/**
 * The path resolver that both tools carry: `getValue` reads the value at a
 * key path, `setValue` assigns the last key of a path in the object reached
 * by the others. JavaScript updates the catalog object in place; here the
 * update returns the catalog as it stands afterwards.
 */
module PathResolver {
  import opened Catalog

  /** The property name that a missing key converts to. */
  const UndefinedKey := "undefined"

  /**
   * The keys the destructuring `[key, ...keys]` yields: an empty path gives
   * `key === undefined`, which reads and assigns the property "undefined".
   */
  function Effective(path: seq<string>): (p: seq<string>)
    ensures p != []
    ensures path != [] ==> p == path
    ensures path == [] ==> p == [UndefinedKey]
  {
    if path == [] then [UndefinedKey] else path
  }

  /** `v[key]` as a read: a TypeError on `undefined`. */
  function Index(v: Value, key: string): (r: Result<Value>)
    ensures r.Err? <==> v.Absent?
    ensures r.Err? ==> r.error == TypeError
    ensures v.Obj? && key in v.fields ==> r == Ok(v.fields[key])
    ensures v.Leaf? || (v.Obj? && key !in v.fields) ==> r == Ok(Absent)
  {
    if v.Absent? then Err(TypeError) else Ok(Child(v, key))
  }

  /** Some node that the path indexes (the root, or one reached on the way) is `undefined`. */
  ghost predicate ReachesUndefined(v: Value, path: seq<string>)
  {
    exists j :: 0 <= j < |path| && Walk(v, path[..j]).Absent?
  }

  /** `getValue(object, [key, ...keys])`. */
  function GetValue(v: Value, path: seq<string>): (r: Result<Value>)
    ensures r.Err? ==> r.error == TypeError
    ensures r.Ok? ==> r.value == Walk(v, Effective(path))
    decreases |path|
  {
    var key, keys := Effective(path)[0], Effective(path)[1..];
    var child :- Index(v, key);
    if keys == [] then Ok(child) else GetValue(child, keys)
  }

  /** `setValue(object, value, [key, ...keys])`. */
  function SetValue(v: Value, value: Value, path: seq<string>): (r: Result<Value>)
    ensures r.Err? ==> r.error == TypeError
    ensures v.Absent? ==> r.Err?
    ensures r.Ok? && !v.Obj? ==> r.value == v
    ensures r.Ok? && v.Obj? ==>
      r.value.Obj? && v.keys <= r.value.keys && v.fields.Keys <= r.value.fields.Keys
    decreases |path|
  {
    var key, keys := Effective(path)[0], Effective(path)[1..];
    if keys == [] then
      match v
      case Absent => Err(TypeError)
      // assigning a property of a string primitive is silently ignored
      case Leaf(_) => Ok(v)
      // a new property goes last in the property order
      case Obj(ks, m) => Ok(Obj(if key in m then ks else ks + [key], m[key := value]))
    else
      match v
      case Obj(ks, m) =>
        var updated :- SetValue(Child(v, key), value, keys);
        Ok(Obj(ks, m[key := updated]))
      // either `v` is undefined, or it is a string whose property `key`
      // reads as undefined and is then indexed in turn: both throw
      case _ => Err(TypeError)
  }

  /** An empty path reads and assigns the property named "undefined". */
  lemma EmptyPathReadsUndefined(v: Value, x: Value)
    ensures GetValue(v, []) == GetValue(v, [UndefinedKey]) == Index(v, UndefinedKey)
    ensures SetValue(v, x, []) == SetValue(v, x, [UndefinedKey])
  {
  }

  /**
   * A one-key path reads exactly `object[key]`; each further key reads one
   * level further down, from what the first key read.
   */
  lemma GetValueSteps(v: Value, key: string, rest: seq<string>)
    ensures GetValue(v, [key]) == Index(v, key)
    ensures rest != [] ==>
      GetValue(v, [key] + rest) == (if Index(v, key).Err? then Err(TypeError) else GetValue(Index(v, key).value, rest))
  {
    assert ([key] + rest)[1..] == rest;
  }

  /** `getValue` throws exactly when the path runs through `undefined`. */
  lemma {:induction false} GetValueFails(v: Value, path: seq<string>)
    requires path != []
    ensures GetValue(v, path).Err? <==> ReachesUndefined(v, path)
    decreases |path|
  {
    assert Walk(v, path[..0]) == v;
    if !v.Absent? && |path| > 1 {
      var child := Child(v, path[0]);
      GetValueFails(child, path[1..]);
      if ReachesUndefined(child, path[1..]) {
        var j :| 0 <= j < |path[1..]| && Walk(child, path[1..][..j]).Absent?;
        WalkPrefixCons(v, path, j);
      }
      if ReachesUndefined(v, path) {
        var j :| 0 <= j < |path| && Walk(v, path[..j]).Absent?;
        WalkPrefixCons(v, path, j - 1);
      }
    }
  }

  /** `setValue` throws on exactly the paths where `getValue` throws. */
  lemma {:induction false} SetValueFailsLikeGetValue(v: Value, x: Value, path: seq<string>)
    ensures SetValue(v, x, path).Err? <==> GetValue(v, path).Err?
    decreases |path|
  {
    var key, keys := Effective(path)[0], Effective(path)[1..];
    if keys != [] {
      SetValueFailsLikeGetValue(Child(v, key), x, keys);
    }
  }

  /** After a successful `setValue`, `getValue` at the same path yields the value set. */
  lemma {:induction false} SetThenGet(v: Value, x: Value, path: seq<string>)
    requires path != [] && ContainersPresent(v, path)
    ensures SetValue(v, x, path).Ok?
    ensures GetValue(SetValue(v, x, path).value, path) == Ok(x)
    decreases |path|
  {
    assert Walk(v, path[..0]).Obj?;
    if |path| > 1 {
      var child := Child(v, path[0]);
      forall j | 0 <= j < |path[1..]| ensures Walk(child, path[1..][..j]).Obj? {
        WalkPrefixCons(v, path, j);
      }
      SetThenGet(child, x, path[1..]);
    }
  }

  /** A node that is neither on the path nor below it is the same before and after. */
  lemma {:induction false} SetValueOffPath(v: Value, x: Value, path: seq<string>, q: seq<string>)
    requires path != [] && SetValue(v, x, path).Ok?
    requires !(q <= path) && !(path <= q)
    ensures Walk(SetValue(v, x, path).value, q) == Walk(v, q)
    decreases |path|
  {
    var r := SetValue(v, x, path).value;
    if v.Obj? {
      assert q != [];
      if q[0] == path[0] {
        assert |path| > 1;
        assert q == [q[0]] + q[1..] && path == [path[0]] + path[1..];
        SetValueOffPath(Child(v, path[0]), x, path[1..], q[1..]);
      }
    }
  }

  /** Below the path's end sits exactly the value that was set. */
  lemma SetValueBelow(v: Value, x: Value, path: seq<string>, q: seq<string>)
    requires path != [] && ContainersPresent(v, path) && path <= q
    ensures SetValue(v, x, path).Ok?
    ensures Walk(SetValue(v, x, path).value, q) == Walk(x, q[|path|..])
  {
    SetThenGet(v, x, path);
    var r := SetValue(v, x, path).value;
    assert q == path + q[|path|..];
    WalkConcat(r, path, q[|path|..]);
  }

  /**
   * Every object on the way keeps its other properties. Only the last one
   * gains a property, and only when the key was missing. That key goes last
   * in its property order. No intermediate object is created.
   */
  lemma {:induction false} SetValueContainers(v: Value, x: Value, path: seq<string>, j: nat)
    requires path != [] && ContainersPresent(v, path) && j < |path|
    ensures SetValue(v, x, path).Ok?
    ensures
      var before, after := Walk(v, path[..j]), Walk(SetValue(v, x, path).value, path[..j]);
      && after.Obj?
      && after.fields.Keys == before.fields.Keys + {path[j]}
      && after.keys == (if path[j] in before.fields then before.keys else before.keys + [path[j]])
      && (forall k :: k in before.fields && k != path[j] ==> after.fields[k] == before.fields[k])
    decreases |path|
  {
    assert Walk(v, path[..0]).Obj?;
    SetThenGet(v, x, path);
    if |path| > 1 {
      var child := Child(v, path[0]);
      forall i | 0 <= i < |path[1..]| ensures Walk(child, path[1..][..i]).Obj? {
        WalkPrefixCons(v, path, i);
      }
      assert Walk(v, path[..1]).Obj?;
      WalkPrefixCons(v, path, 0);
      if j > 0 {
        SetValueContainers(child, x, path[1..], j - 1);
        WalkPrefixCons(v, path, j - 1);
        WalkPrefixCons(SetValue(v, x, path).value, path, j - 1);
      }
    }
  }

  /** Assigning into a string leaf changes nothing. */
  lemma {:induction false} SetValueIgnoredOnLeaf(v: Value, x: Value, path: seq<string>)
    requires path != []
    requires ContainersPresent(v, path[..|path| - 1]) && Walk(v, path[..|path| - 1]).Leaf?
    ensures SetValue(v, x, path) == Ok(v)
    decreases |path|
  {
    var c := path[..|path| - 1];
    if |path| > 1 {
      assert Walk(v, c[..0]).Obj?;
      var child, rest := Child(v, path[0]), path[1..];
      assert rest[..|rest| - 1] == c[1..];
      forall i | 0 <= i < |c[1..]| ensures Walk(child, c[1..][..i]).Obj? {
        WalkPrefixCons(v, c, i);
      }
      SetValueIgnoredOnLeaf(child, x, rest);
      if |c| > 1 {
        WalkPrefixCons(v, c, 0);
        assert Walk(v, c[..1]).Obj?;
      } else {
        assert c[1..] == [];
      }
      assert path[0] in v.fields;
      assert v.fields[path[0] := child] == v.fields;
    }
  }

  /** Setting the same value at the same path a second time changes nothing more. */
  lemma {:induction false} SetValueIdempotent(v: Value, x: Value, path: seq<string>)
    requires SetValue(v, x, path).Ok?
    ensures SetValue(SetValue(v, x, path).value, x, path) == SetValue(v, x, path)
    decreases |path|
  {
    var key, keys := Effective(path)[0], Effective(path)[1..];
    if keys != [] && v.Obj? {
      SetValueIdempotent(Child(v, key), x, keys);
      var r := SetValue(v, x, path).value;
      assert Child(r, key) == SetValue(Child(v, key), x, keys).value;
      assert r.fields[key := Child(r, key)] == r.fields;
    } else if v.Obj? {
      var r := SetValue(v, x, path).value;
      assert r.fields[key := x] == r.fields;
    }
  }

  /** Setting a parsed value into a parsed catalog leaves a catalog JSON could have produced. */
  lemma {:induction false} SetValuePreservesWellFormed(v: Value, x: Value, path: seq<string>)
    requires WellFormed(v) && WellFormed(x) && x != Absent
    requires SetValue(v, x, path).Ok?
    ensures WellFormed(SetValue(v, x, path).value)
    decreases |path|
  {
    var key, keys := Effective(path)[0], Effective(path)[1..];
    if v.Obj? {
      var r := SetValue(v, x, path).value;
      if keys != [] {
        SetValuePreservesWellFormed(Child(v, key), x, keys);
        assert key in v.fields;
        assert r.keys == v.keys;
      } else if key !in v.fields {
        assert r.keys == v.keys + [key];
        assert forall i :: 0 <= i < |v.keys| ==> r.keys[i] == v.keys[i];
      }
    }
  }
}
