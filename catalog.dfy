/**
 * Translation catalogs as the two tools see them: the JSON value loaded from
 * one `<lang>.json` file, the directory of such files, and what a failing
 * step throws. Both tools catch nothing, so an error ends the run.
 */
module Catalog {

  datatype Option<T> = None | Some(value: T)

  /** Where a catalog lives: the directory given on the command line and the file name. */
  datatype FilePath = FilePath(dir: string, name: string)

  /** What a step of either tool can throw. */
  datatype Error =
    | TypeError                      // reading or assigning a property of `undefined`
    | FileNotFound(path: FilePath)   // `require` of a catalog that is not on disk
    | CircularStructure              // `JSON.stringify` of an object that contains itself
    | PromptAborted                  // a key prompt that was never answered with a listed choice

  datatype Result<T> = Ok(value: T) | Err(error: Error) {
    predicate IsFailure() { Err? }
    function PropagateFailure<U>(): Result<U> requires Err? { Err(error) }
    function Extract(): T requires Ok? { value }
  }

  /**
   * A JSON value inside a catalog: `undefined` (a missing key), a string, or
   * an object. `keys` is the object's property order (what `Object.keys`
   * returns), `fields` its contents.
   */
  datatype Value = Absent | Leaf(text: string) | Obj(keys: seq<string>, fields: map<string, Value>)

  /** The catalogs on disk, addressed by path. */
  type Disk = map<FilePath, Value>

  /** What a run leaves behind: the catalogs, and the error that stopped it, if any. */
  datatype Outcome = Outcome(disk: Disk, failure: Option<Error>)

  /** `v[key]` for an object `v`; any other value yields `undefined` here. */
  function Child(v: Value, key: string): Value
  {
    match v
    case Obj(_, m) => if key in m then m[key] else Absent
    case _ => Absent
  }

  /** The value reached from `v` by reading one key per step. */
  function Walk(v: Value, path: seq<string>): Value
    decreases |path|
  {
    if path == [] then v else Walk(Child(v, path[0]), path[1..])
  }

  /** Every node the path passes through, the root included, is an object. */
  ghost predicate ContainersPresent(v: Value, path: seq<string>)
  {
    forall j :: 0 <= j < |path| ==> Walk(v, path[..j]).Obj?
  }

  /**
   * A catalog as `JSON.parse` produces it: property names are distinct and
   * are exactly the object's keys, and no property holds `undefined`.
   */
  ghost predicate WellFormed(v: Value)
    decreases v
  {
    match v
    case Obj(ks, m) =>
      && (forall i, j :: 0 <= i < j < |ks| ==> ks[i] != ks[j])
      && (forall k :: k in m <==> k in ks)
      && (forall k :: k in m ==> m[k] != Absent && WellFormed(m[k]))
    case _ => true
  }

  /** The number of object levels below and including `v`. */
  ghost function Height(v: Value): nat
    decreases v, 1
  {
    match v
    case Obj(_, m) => 1 + MaxHeight(v, m.Keys)
    case _ => 0
  }

  ghost function MaxHeight(v: Value, s: set<string>): nat
    requires v.Obj? && s <= v.fields.Keys
    decreases v, 0, s
  {
    if s == {} then 0
    else
      var k :| k in s;
      var h := Height(v.fields[k]);
      var rest := MaxHeight(v, s - {k});
      if h < rest then rest else h
  }

  lemma {:induction false} MaxHeightBound(v: Value, s: set<string>, k: string)
    requires v.Obj? && s <= v.fields.Keys && k in s
    ensures Height(v.fields[k]) <= MaxHeight(v, s)
    decreases s
  {
    var k' :| k' in s && MaxHeight(v, s) ==
      (var h := Height(v.fields[k']); var rest := MaxHeight(v, s - {k'}); if h < rest then rest else h);
    if k != k' {
      MaxHeightBound(v, s - {k'}, k);
    }
  }

  /** Reading any key of an object descends to a strictly lower value. */
  lemma ChildHeight(v: Value, key: string)
    requires v.Obj?
    ensures Height(Child(v, key)) < Height(v)
  {
    if key in v.fields {
      MaxHeightBound(v, v.fields.Keys, key);
    }
  }

  /** A walk never climbs: what it reaches is at most as high as where it starts. */
  lemma {:induction false} WalkHeight(v: Value, path: seq<string>)
    ensures Height(Walk(v, path)) <= Height(v)
    decreases |path|
  {
    if path != [] {
      WalkHeight(Child(v, path[0]), path[1..]);
      if v.Obj? {
        ChildHeight(v, path[0]);
      }
    }
  }

  /** Reading one more key is one more step of the walk. */
  lemma {:induction false} WalkAppend(v: Value, path: seq<string>, key: string)
    ensures Walk(v, path + [key]) == Child(Walk(v, path), key)
    decreases |path|
  {
    if path != [] {
      assert (path + [key])[1..] == path[1..] + [key];
      WalkAppend(Child(v, path[0]), path[1..], key);
    }
  }

  /** A walk over a concatenated path is a walk from where the first part ends. */
  lemma {:induction false} WalkConcat(v: Value, p: seq<string>, q: seq<string>)
    ensures Walk(v, p + q) == Walk(Walk(v, p), q)
    decreases |p|
  {
    if p == [] {
      assert p + q == q;
    } else {
      assert (p + q)[0] == p[0] && (p + q)[1..] == p[1..] + q;
      WalkConcat(Child(v, p[0]), p[1..], q);
    }
  }

  /** The prefix of length j + 1 of `path` starts by reading `path[0]`. */
  lemma WalkPrefixCons(v: Value, path: seq<string>, j: nat)
    requires j < |path|
    ensures Walk(v, path[..j + 1]) == Walk(Child(v, path[0]), path[1..][..j])
  {
    var pre := path[..j + 1];
    assert pre != [] && pre[0] == path[0];
    assert pre[1..] == path[1..][..j];
  }
}
