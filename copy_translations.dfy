/**
 * The copy tool: pick an existing translation in the first source catalog,
 * pick (or type) a destination path in the first destination catalog, then
 * for every language copy the source catalog's value at the source path to
 * the destination path of that language's destination catalog.
 */
module CopyTranslations {
  import opened Catalog
  import opened PathResolver
  import opened KeyNavigator
  import Languages

  /**
   * When source and destination name one file, `require` hands back one
   * object for both. Assigning an object into itself or into one of its own
   * descendants then makes the catalog circular, and `JSON.stringify`
   * throws before the file is written.
   */
  predicate MakesCycle(root: Value, fromKeys: seq<string>, toKeys: seq<string>)
    ensures MakesCycle(root, fromKeys, toKeys) ==>
      && Walk(root, Effective(fromKeys)).Obj?
      && Effective(fromKeys) < Effective(toKeys)
    ensures Effective(fromKeys) == Effective(toKeys) ==> !MakesCycle(root, fromKeys, toKeys)
  {
    var f, t := Effective(fromKeys), Effective(toKeys);
    var container := t[..|t| - 1];
    Walk(root, f).Obj? && f <= container && Walk(root, container).Obj?
  }

  /**
   * Why such a copy cannot be written: the copied object would be found
   * again strictly below itself, at the destination path, and no finite
   * catalog holds an object below itself.
   */
  lemma {:induction false} NoObjectBelowItself(v: Value, d: seq<string>)
    requires v.Obj? && d != []
    ensures Walk(v, d) != v
  {
    ChildHeight(v, d[0]);
    WalkHeight(Child(v, d[0]), d[1..]);
  }

  /** One pass of the `write` loop, for one file name. */
  function CopyStep(disk: Disk, fromDir: string, toDir: string, filename: string,
                    fromKeys: seq<string>, toKeys: seq<string>): (r: Result<Disk>)
    ensures r.Ok? ==> r.value.Keys == disk.Keys
    ensures r.Ok? ==> forall p :: p in disk && p != FilePath(toDir, filename) ==> r.value[p] == disk[p]
  {
    var fromPath, toPath := FilePath(fromDir, filename), FilePath(toDir, filename);
    if fromPath !in disk then Err(FileNotFound(fromPath))
    else if toPath !in disk then Err(FileNotFound(toPath))
    else
      var value :- GetValue(disk[fromPath], fromKeys);
      var updated :- SetValue(disk[toPath], value, toKeys);
      if fromPath == toPath && MakesCycle(disk[toPath], fromKeys, toKeys) then Err(CircularStructure)
      else Ok(disk[toPath := updated])
  }

  /** The `write` loop: the files in list order, stopping at the first error. */
  function CopyAll(disk: Disk, fromDir: string, toDir: string, filenames: seq<string>,
                   fromKeys: seq<string>, toKeys: seq<string>): (out: Outcome)
    ensures out.disk.Keys == disk.Keys
    decreases |filenames|
  {
    if filenames == [] then Outcome(disk, None)
    else
      match CopyStep(disk, fromDir, toDir, filenames[0], fromKeys, toKeys)
      case Err(e) => Outcome(disk, Some(e))
      case Ok(next) => CopyAll(next, fromDir, toDir, filenames[1..], fromKeys, toKeys)
  }

  /** `write({ fromDir, toDir, filenames, fromKeys, toKeys })`. */
  method Write(disk: Disk, fromDir: string, toDir: string, filenames: seq<string>,
               fromKeys: seq<string>, toKeys: seq<string>) returns (out: Outcome)
    ensures out == CopyAll(disk, fromDir, toDir, filenames, fromKeys, toKeys)
  {
    var current, i := disk, 0;
    while i < |filenames|
      invariant i <= |filenames|
      invariant CopyAll(current, fromDir, toDir, filenames[i..], fromKeys, toKeys)
             == CopyAll(disk, fromDir, toDir, filenames, fromKeys, toKeys)
    {
      var filename := filenames[i];
      assert filenames[i..][0] == filename && filenames[i..][1..] == filenames[i + 1..];
      var fromPath, toPath := FilePath(fromDir, filename), FilePath(toDir, filename);
      if fromPath !in current {
        return Outcome(current, Some(FileNotFound(fromPath)));
      }
      if toPath !in current {
        return Outcome(current, Some(FileNotFound(toPath)));
      }
      var fromJson, toJson := current[fromPath], current[toPath];
      var value := GetValue(fromJson, fromKeys);
      if value.Err? {
        return Outcome(current, Some(value.error));
      }
      var updated := SetValue(toJson, value.value, toKeys);
      if updated.Err? {
        return Outcome(current, Some(updated.error));
      }
      if fromPath == toPath && MakesCycle(toJson, fromKeys, toKeys) {
        return Outcome(current, Some(CircularStructure));
      }
      current, i := current[toPath := updated.value], i + 1;
    }
    return Outcome(current, None);
  }

  /** Only destination catalogs named in the list can change; no file appears or disappears. */
  lemma {:induction false} CopyAllFrame(disk: Disk, fromDir: string, toDir: string, filenames: seq<string>,
                                        fromKeys: seq<string>, toKeys: seq<string>, p: FilePath)
    requires p in disk && (p.dir != toDir || p.name !in filenames)
    ensures CopyAll(disk, fromDir, toDir, filenames, fromKeys, toKeys).disk[p] == disk[p]
    decreases |filenames|
  {
    if filenames != [] {
      var step := CopyStep(disk, fromDir, toDir, filenames[0], fromKeys, toKeys);
      if step.Ok? {
        CopyAllFrame(step.value, fromDir, toDir, filenames[1..], fromKeys, toKeys, p);
      }
    }
  }

  /**
   * A run without error leaves every listed destination catalog as
   * `setValue` makes it from the original, with the value `getValue` reads
   * from the original source catalog: between two directories even when a
   * language is listed twice, and within one directory when it is listed
   * once.
   */
  lemma {:induction false} CopyAllWritesEach(disk: Disk, fromDir: string, toDir: string, filenames: seq<string>,
                                             fromKeys: seq<string>, toKeys: seq<string>, filename: string)
    requires filename in filenames
    requires fromDir != toDir || multiset(filenames)[filename] == 1
    requires CopyAll(disk, fromDir, toDir, filenames, fromKeys, toKeys).failure == None
    ensures var fromPath, toPath := FilePath(fromDir, filename), FilePath(toDir, filename);
      && fromPath in disk && toPath in disk
      && GetValue(disk[fromPath], fromKeys).Ok?
      && SetValue(disk[toPath], GetValue(disk[fromPath], fromKeys).value, toKeys)
         == Ok(CopyAll(disk, fromDir, toDir, filenames, fromKeys, toKeys).disk[toPath])
    decreases |filenames|
  {
    var first := filenames[0];
    var next := CopyStep(disk, fromDir, toDir, first, fromKeys, toKeys).value;
    var fromPath, toPath := FilePath(fromDir, filename), FilePath(toDir, filename);
    assert filenames == [first] + filenames[1..];
    if filename == first {
      var value := GetValue(disk[fromPath], fromKeys).value;
      if filename in filenames[1..] {
        assert fromDir != toDir;
        CopyAllWritesEach(next, fromDir, toDir, filenames[1..], fromKeys, toKeys, filename);
        assert next[fromPath] == disk[fromPath];
        SetValueIdempotent(disk[toPath], value, toKeys);
      } else {
        CopyAllFrame(next, fromDir, toDir, filenames[1..], fromKeys, toKeys, toPath);
      }
    } else {
      CopyAllWritesEach(next, fromDir, toDir, filenames[1..], fromKeys, toKeys, filename);
    }
  }

  /**
   * After a run without error, every listed destination catalog whose
   * destination path leads through objects holds at that path the value its
   * source catalog held at the source path (between two directories, or
   * within one for a language listed once), and between two directories
   * every source catalog is as it was.
   */
  lemma CopyAllGetsValue(disk: Disk, fromDir: string, toDir: string, filenames: seq<string>,
                         fromKeys: seq<string>, toKeys: seq<string>, filename: string)
    requires filename in filenames
    requires fromDir != toDir || multiset(filenames)[filename] == 1
    requires CopyAll(disk, fromDir, toDir, filenames, fromKeys, toKeys).failure == None
    requires FilePath(toDir, filename) in disk
    requires toKeys != [] && ContainersPresent(disk[FilePath(toDir, filename)], toKeys)
    ensures var out := CopyAll(disk, fromDir, toDir, filenames, fromKeys, toKeys).disk;
      var fromPath, toPath := FilePath(fromDir, filename), FilePath(toDir, filename);
      && fromPath in disk
      && (fromDir != toDir ==> out[fromPath] == disk[fromPath])
      && GetValue(out[toPath], toKeys) == GetValue(disk[fromPath], fromKeys)
  {
    var fromPath, toPath := FilePath(fromDir, filename), FilePath(toDir, filename);
    CopyAllWritesEach(disk, fromDir, toDir, filenames, fromKeys, toKeys, filename);
    if fromDir != toDir {
      CopyAllFrame(disk, fromDir, toDir, filenames, fromKeys, toKeys, fromPath);
    }
    SetThenGet(disk[toPath], GetValue(disk[fromPath], fromKeys).value, toKeys);
  }

  /**
   * Within one directory, a language listed twice is copied twice, and the
   * second copy reads the catalog the first one wrote: copying a.b over a
   * leaves "a" holding the string, then the second pass reads below that
   * string and assigns `undefined`.
   */
  lemma CopyListedTwiceRereads(dir: string, filename: string)
    ensures var root := Obj(["a"], map["a" := Obj(["b"], map["b" := Leaf("s")])]);
      var disk := map[FilePath(dir, filename) := root];
      var out := CopyAll(disk, dir, dir, [filename, filename], ["a", "b"], ["a"]);
      && out == Outcome(map[FilePath(dir, filename) := Obj(["a"], map["a" := Absent])], None)
      && GetValue(out.disk[FilePath(dir, filename)], ["a"]) != GetValue(root, ["a", "b"])
  {
    var root := Obj(["a"], map["a" := Obj(["b"], map["b" := Leaf("s")])]);
    var once := Obj(["a"], map["a" := Leaf("s")]);
    var twice := Obj(["a"], map["a" := Absent]);
    var path := FilePath(dir, filename);
    assert ["a", "b"][1..] == ["b"] && ["b"][1..] == [] && ["a"][1..] == [];
    assert GetValue(root, ["a", "b"]) == Ok(Leaf("s"));
    assert root.fields["a" := Leaf("s")] == once.fields;
    assert SetValue(root, Leaf("s"), ["a"]) == Ok(once);
    assert ["a"][..0] == [] && !(["a", "b"] <= []);
    assert !MakesCycle(root, ["a", "b"], ["a"]) && !MakesCycle(once, ["a", "b"], ["a"]);
    var disk := map[path := root];
    assert disk[path := once] == map[path := once] && map[path := once][path := twice] == map[path := twice];
    assert CopyStep(disk, dir, dir, filename, ["a", "b"], ["a"]) == Ok(map[path := once]);
    assert GetValue(once, ["a", "b"]) == Ok(Absent);
    assert once.fields["a" := Absent] == twice.fields;
    assert SetValue(once, Absent, ["a"]) == Ok(twice);
    assert CopyStep(map[path := once], dir, dir, filename, ["a", "b"], ["a"]) == Ok(map[path := twice]);
    assert [filename, filename][1..] == [filename] && [filename][1..] == [];
    var files := [filename, filename];
    assert CopyAll(map[path := twice], dir, dir, [], ["a", "b"], ["a"]) == Outcome(map[path := twice], None);
    assert CopyAll(map[path := once], dir, dir, [filename], ["a", "b"], ["a"]) == Outcome(map[path := twice], None);
    assert CopyAll(disk, dir, dir, files, ["a", "b"], ["a"]) == Outcome(map[path := twice], None);
  }

  /**
   * The files are handled in list order and nothing is rolled back: a run
   * that fails has completed the files before the failing one, and the
   * failing one throws on the catalogs as they then are.
   */
  lemma {:induction false} CopyAllStopsAtFailure(disk: Disk, fromDir: string, toDir: string, filenames: seq<string>,
                                                 fromKeys: seq<string>, toKeys: seq<string>)
    requires CopyAll(disk, fromDir, toDir, filenames, fromKeys, toKeys).failure.Some?
    ensures var out := CopyAll(disk, fromDir, toDir, filenames, fromKeys, toKeys);
      exists i :: 0 <= i < |filenames|
        && CopyAll(disk, fromDir, toDir, filenames[..i], fromKeys, toKeys) == Outcome(out.disk, None)
        && CopyStep(out.disk, fromDir, toDir, filenames[i], fromKeys, toKeys) == Err(out.failure.value)
    decreases |filenames|
  {
    var out := CopyAll(disk, fromDir, toDir, filenames, fromKeys, toKeys);
    var step := CopyStep(disk, fromDir, toDir, filenames[0], fromKeys, toKeys);
    if step.Err? {
      assert filenames[..0] == [];
      assert CopyAll(disk, fromDir, toDir, filenames[..0], fromKeys, toKeys) == Outcome(out.disk, None);
    } else {
      CopyAllStopsAtFailure(step.value, fromDir, toDir, filenames[1..], fromKeys, toKeys);
      var i :| 0 <= i < |filenames[1..]|
        && CopyAll(step.value, fromDir, toDir, filenames[1..][..i], fromKeys, toKeys) == Outcome(out.disk, None)
        && CopyStep(out.disk, fromDir, toDir, filenames[1..][i], fromKeys, toKeys) == Err(out.failure.value);
      assert filenames[..i + 1][0] == filenames[0] && filenames[..i + 1][1..] == filenames[1..][..i];
      assert CopyAll(disk, fromDir, toDir, filenames[..i + 1], fromKeys, toKeys) == Outcome(out.disk, None);
    }
  }

  /** Copying an object into its own child within one catalog throws and writes nothing. */
  lemma CopyIntoOwnChildFails(dir: string, filename: string, inner: map<string, Value>, ks: seq<string>)
    requires "a" !in inner
    ensures var root := Obj(["a"], map["a" := Obj(ks, inner)]);
      var disk := map[FilePath(dir, filename) := root];
      CopyAll(disk, dir, dir, [filename], ["a"], ["a", "a"]) == Outcome(disk, Some(CircularStructure))
  {
    var root := Obj(["a"], map["a" := Obj(ks, inner)]);
    assert ["a", "a"][..1] == ["a"];
    assert MakesCycle(root, ["a"], ["a", "a"]);
  }

  /**
   * Copying x.y of a source catalog to z.y of a destination catalog whose
   * "z" is empty fills it in and leaves the source as it was.
   */
  lemma CopyScenario(fromDir: string, toDir: string)
    requires fromDir != toDir
    ensures var from := Obj(["x"], map["x" := Obj(["y"], map["y" := Leaf("value1")])]);
      var to := Obj(["z"], map["z" := Obj([], map[])]);
      var disk := map[FilePath(fromDir, "en.json") := from, FilePath(toDir, "en.json") := to];
      var to' := Obj(["z"], map["z" := Obj(["y"], map["y" := Leaf("value1")])]);
      CopyAll(disk, fromDir, toDir, ["en.json"], ["x", "y"], ["z", "y"])
        == Outcome(map[FilePath(fromDir, "en.json") := from, FilePath(toDir, "en.json") := to'], None)
  {
    var from := Obj(["x"], map["x" := Obj(["y"], map["y" := Leaf("value1")])]);
    var to := Obj(["z"], map["z" := Obj([], map[])]);
    var to' := Obj(["z"], map["z" := Obj(["y"], map["y" := Leaf("value1")])]);
    var fromPath, toPath := FilePath(fromDir, "en.json"), FilePath(toDir, "en.json");
    assert ["x", "y"][1..] == ["y"] && ["z", "y"][1..] == ["y"] && ["y"][1..] == [] && [] + ["y"] == ["y"];
    assert Child(from, "x") == Obj(["y"], map["y" := Leaf("value1")]);
    assert GetValue(from, ["x", "y"]) == Ok(Leaf("value1"));
    assert Child(to, "z") == Obj([], map[]);
    assert SetValue(Obj([], map[]), Leaf("value1"), ["y"]) == Ok(Obj(["y"], map["y" := Leaf("value1")]));
    assert to.fields["z" := to'.fields["z"]] == to'.fields;
    assert SetValue(to, Leaf("value1"), ["z", "y"]) == Ok(to');
    var disk := map[fromPath := from, toPath := to];
    assert CopyStep(disk, fromDir, toDir, "en.json", ["x", "y"], ["z", "y"]) == Ok(disk[toPath := to']);
    assert ["en.json"][1..] == [];
  }

  /**
   * The copy command: load the first source and destination catalogs,
   * navigate the source (existing keys only) and read its value, navigate
   * the destination (new keys allowed), then write every language.
   */
  function CopyCommand(disk: Disk, fromDir: string, toDir: string, langs: string,
                       fromAnswers: seq<Answer>, toAnswers: seq<Answer>): (out: Outcome)
    ensures out.disk.Keys == disk.Keys
  {
    var filenames := Languages.Filenames(langs);
    var fromPath, toPath := FilePath(fromDir, filenames[0]), FilePath(toDir, filenames[0]);
    if fromPath !in disk then Outcome(disk, Some(FileNotFound(fromPath)))
    else if toPath !in disk then Outcome(disk, Some(FileNotFound(toPath)))
    else match KeysQuestion(disk[fromPath], false, fromAnswers, [])
      case Err(e) => Outcome(disk, Some(e))
      case Ok(fromKeys) =>
        match GetValue(disk[fromPath], fromKeys)
        case Err(e) => Outcome(disk, Some(e))
        case Ok(_) =>
          match KeysQuestion(disk[toPath], true, toAnswers, [])
          case Err(e) => Outcome(disk, Some(e))
          case Ok(toKeys) => CopyAll(disk, fromDir, toDir, filenames, fromKeys, toKeys)
  }

  /**
   * The tool's main flow. The confirmation answer is asked for and then
   * never read: the outcome is the same whatever it is.
   */
  method Run(disk: Disk, fromDir: string, toDir: string, langs: string,
               fromAnswers: seq<Answer>, toAnswers: seq<Answer>, confirmation: bool) returns (out: Outcome)
    ensures out == CopyCommand(disk, fromDir, toDir, langs, fromAnswers, toAnswers)
  {
    var filenames := Languages.Filenames(langs);
    var fromPath, toPath := FilePath(fromDir, filenames[0]), FilePath(toDir, filenames[0]);
    if fromPath !in disk {
      return Outcome(disk, Some(FileNotFound(fromPath)));
    }
    if toPath !in disk {
      return Outcome(disk, Some(FileNotFound(toPath)));
    }
    var from, to := disk[fromPath], disk[toPath];
    var fromKeys := Navigate(from, false, fromAnswers);
    if fromKeys.Err? {
      return Outcome(disk, Some(fromKeys.error));
    }
    var fromValue := GetValue(from, fromKeys.value);
    if fromValue.Err? {
      return Outcome(disk, Some(fromValue.error));
    }
    var toKeys := Navigate(to, true, toAnswers);
    if toKeys.Err? {
      return Outcome(disk, Some(toKeys.error));
    }
    out := Write(disk, fromDir, toDir, filenames, fromKeys.value, toKeys.value);
  }
}
