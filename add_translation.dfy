/**
 * The add tool: pick (or type) a key path in the first catalog, type the
 * text, then set that same text at that path in every language's catalog.
 */
module AddTranslation {
  import opened Catalog
  import opened PathResolver
  import opened KeyNavigator
  import Languages

  /** One pass of the `write` loop, for one file name. */
  function AddStep(disk: Disk, toDir: string, filename: string, value: string, toKeys: seq<string>): (r: Result<Disk>)
    ensures r.Ok? ==> r.value.Keys == disk.Keys
    ensures r.Ok? ==> forall p :: p in disk && p != FilePath(toDir, filename) ==> r.value[p] == disk[p]
  {
    var toPath := FilePath(toDir, filename);
    if toPath !in disk then Err(FileNotFound(toPath))
    else
      var updated :- SetValue(disk[toPath], Leaf(value), toKeys);
      Ok(disk[toPath := updated])
  }

  /** The `write` loop: the files in list order, stopping at the first error. */
  function AddAll(disk: Disk, toDir: string, filenames: seq<string>, value: string, toKeys: seq<string>): (out: Outcome)
    ensures out.disk.Keys == disk.Keys
    decreases |filenames|
  {
    if filenames == [] then Outcome(disk, None)
    else
      match AddStep(disk, toDir, filenames[0], value, toKeys)
      case Err(e) => Outcome(disk, Some(e))
      case Ok(next) => AddAll(next, toDir, filenames[1..], value, toKeys)
  }

  /** `write({ toDir, filenames, value, toKeys })`. */
  method Write(disk: Disk, toDir: string, filenames: seq<string>, value: string, toKeys: seq<string>)
    returns (out: Outcome)
    ensures out == AddAll(disk, toDir, filenames, value, toKeys)
  {
    var current, i := disk, 0;
    while i < |filenames|
      invariant i <= |filenames|
      invariant AddAll(current, toDir, filenames[i..], value, toKeys) == AddAll(disk, toDir, filenames, value, toKeys)
    {
      var filename := filenames[i];
      assert filenames[i..][0] == filename && filenames[i..][1..] == filenames[i + 1..];
      var toPath := FilePath(toDir, filename);
      if toPath !in current {
        return Outcome(current, Some(FileNotFound(toPath)));
      }
      var toJson := current[toPath];
      var updated := SetValue(toJson, Leaf(value), toKeys);
      if updated.Err? {
        return Outcome(current, Some(updated.error));
      }
      current, i := current[toPath := updated.value], i + 1;
    }
    return Outcome(current, None);
  }

  /** Only catalogs named in the list can change; no file appears or disappears. */
  lemma {:induction false} AddAllFrame(disk: Disk, toDir: string, filenames: seq<string>, value: string,
                                       toKeys: seq<string>, p: FilePath)
    requires p in disk && (p.dir != toDir || p.name !in filenames)
    ensures AddAll(disk, toDir, filenames, value, toKeys).disk[p] == disk[p]
    decreases |filenames|
  {
    if filenames != [] {
      var step := AddStep(disk, toDir, filenames[0], value, toKeys);
      if step.Ok? {
        AddAllFrame(step.value, toDir, filenames[1..], value, toKeys, p);
      }
    }
  }

  /**
   * A run without error leaves every listed catalog as `setValue` makes it
   * from the original with the one text typed, even when a language is
   * listed twice.
   */
  lemma {:induction false} AddAllWritesEach(disk: Disk, toDir: string, filenames: seq<string>, value: string,
                                            toKeys: seq<string>, filename: string)
    requires filename in filenames
    requires AddAll(disk, toDir, filenames, value, toKeys).failure == None
    ensures var toPath := FilePath(toDir, filename);
      && toPath in disk
      && SetValue(disk[toPath], Leaf(value), toKeys) == Ok(AddAll(disk, toDir, filenames, value, toKeys).disk[toPath])
    decreases |filenames|
  {
    var first := filenames[0];
    var next := AddStep(disk, toDir, first, value, toKeys).value;
    var toPath := FilePath(toDir, filename);
    if filename == first {
      if filename in filenames[1..] {
        AddAllWritesEach(next, toDir, filenames[1..], value, toKeys, filename);
        SetValueIdempotent(disk[toPath], Leaf(value), toKeys);
      } else {
        AddAllFrame(next, toDir, filenames[1..], value, toKeys, toPath);
      }
    } else {
      AddAllWritesEach(next, toDir, filenames[1..], value, toKeys, filename);
    }
  }

  /**
   * After a run without error, every listed catalog whose path leads through
   * objects holds the same text at that path, keeps its other properties
   * there, and stays a catalog JSON could have produced.
   */
  lemma AddAllSetsText(disk: Disk, toDir: string, filenames: seq<string>, value: string,
                       toKeys: seq<string>, filename: string)
    requires filename in filenames
    requires AddAll(disk, toDir, filenames, value, toKeys).failure == None
    requires FilePath(toDir, filename) in disk
    requires toKeys != [] && ContainersPresent(disk[FilePath(toDir, filename)], toKeys)
    ensures var toPath := FilePath(toDir, filename);
      var before, after := disk[toPath], AddAll(disk, toDir, filenames, value, toKeys).disk[toPath];
      && GetValue(after, toKeys) == Ok(Leaf(value))
      && (WellFormed(before) ==> WellFormed(after))
  {
    var toPath := FilePath(toDir, filename);
    AddAllWritesEach(disk, toDir, filenames, value, toKeys, filename);
    SetThenGet(disk[toPath], Leaf(value), toKeys);
    if WellFormed(disk[toPath]) {
      SetValuePreservesWellFormed(disk[toPath], Leaf(value), toKeys);
    }
  }

  /**
   * The files are handled in list order and nothing is rolled back: a run
   * that fails has completed the files before the failing one, and the
   * failing one throws on the catalogs as they then are.
   */
  lemma {:induction false} AddAllStopsAtFailure(disk: Disk, toDir: string, filenames: seq<string>, value: string,
                                                toKeys: seq<string>)
    requires AddAll(disk, toDir, filenames, value, toKeys).failure.Some?
    ensures var out := AddAll(disk, toDir, filenames, value, toKeys);
      exists i :: 0 <= i < |filenames|
        && AddAll(disk, toDir, filenames[..i], value, toKeys) == Outcome(out.disk, None)
        && AddStep(out.disk, toDir, filenames[i], value, toKeys) == Err(out.failure.value)
    decreases |filenames|
  {
    var out := AddAll(disk, toDir, filenames, value, toKeys);
    var step := AddStep(disk, toDir, filenames[0], value, toKeys);
    if step.Err? {
      assert filenames[..0] == [];
      assert AddAll(disk, toDir, filenames[..0], value, toKeys) == Outcome(out.disk, None);
    } else {
      AddAllStopsAtFailure(step.value, toDir, filenames[1..], value, toKeys);
      var i :| 0 <= i < |filenames[1..]|
        && AddAll(step.value, toDir, filenames[1..][..i], value, toKeys) == Outcome(out.disk, None)
        && AddStep(out.disk, toDir, filenames[1..][i], value, toKeys) == Err(out.failure.value);
      assert filenames[..i + 1][0] == filenames[0] && filenames[..i + 1][1..] == filenames[1..][..i];
      assert AddAll(disk, toDir, filenames[..i + 1], value, toKeys) == Outcome(out.disk, None);
    }
  }

  /**
   * Adding "new" at a.c to an English and a German catalog puts the same
   * text in both, after the existing "b" and beside it.
   */
  lemma AddScenario(dir: string)
    ensures var en := Obj(["a"], map["a" := Obj(["b"], map["b" := Leaf("hi")])]);
      var de := Obj(["a"], map["a" := Obj(["b"], map["b" := Leaf("hallo")])]);
      var disk := map[FilePath(dir, "en.json") := en, FilePath(dir, "de.json") := de];
      var en' := Obj(["a"], map["a" := Obj(["b", "c"], map["b" := Leaf("hi"), "c" := Leaf("new")])]);
      var de' := Obj(["a"], map["a" := Obj(["b", "c"], map["b" := Leaf("hallo"), "c" := Leaf("new")])]);
      AddAll(disk, dir, ["en.json", "de.json"], "new", ["a", "c"])
        == Outcome(map[FilePath(dir, "en.json") := en', FilePath(dir, "de.json") := de'], None)
  {
    var en := Obj(["a"], map["a" := Obj(["b"], map["b" := Leaf("hi")])]);
    var de := Obj(["a"], map["a" := Obj(["b"], map["b" := Leaf("hallo")])]);
    var enPath, dePath := FilePath(dir, "en.json"), FilePath(dir, "de.json");
    assert "en.json"[0] != "de.json"[0] && "c"[0] != "b"[0];
    assert ["a", "c"][1..] == ["c"] && ["c"][1..] == [] && ["b"] + ["c"] == ["b", "c"];
    assert "c" !in map["b" := Leaf("hi")] && "c" !in map["b" := Leaf("hallo")];
    assert SetValue(Obj(["b"], map["b" := Leaf("hi")]), Leaf("new"), ["c"])
      == Ok(Obj(["b", "c"], map["b" := Leaf("hi"), "c" := Leaf("new")]));
    assert SetValue(Obj(["b"], map["b" := Leaf("hallo")]), Leaf("new"), ["c"])
      == Ok(Obj(["b", "c"], map["b" := Leaf("hallo"), "c" := Leaf("new")]));
    var en' := Obj(["a"], map["a" := Obj(["b", "c"], map["b" := Leaf("hi"), "c" := Leaf("new")])]);
    var de' := Obj(["a"], map["a" := Obj(["b", "c"], map["b" := Leaf("hallo"), "c" := Leaf("new")])]);
    assert Child(en, "a") == Obj(["b"], map["b" := Leaf("hi")]);
    assert Child(de, "a") == Obj(["b"], map["b" := Leaf("hallo")]);
    assert en.fields["a" := en'.fields["a"]] == en'.fields;
    assert de.fields["a" := de'.fields["a"]] == de'.fields;
    assert SetValue(en, Leaf("new"), ["a", "c"]) == Ok(en');
    assert SetValue(de, Leaf("new"), ["a", "c"]) == Ok(de');
    var disk := map[enPath := en, dePath := de];
    var mid := disk[enPath := en'];
    assert AddStep(disk, dir, "en.json", "new", ["a", "c"]) == Ok(mid);
    assert AddStep(mid, dir, "de.json", "new", ["a", "c"]) == Ok(mid[dePath := de']);
    assert mid[dePath := de'] == map[enPath := en', dePath := de'];
    assert ["en.json", "de.json"][1..] == ["de.json"] && ["de.json"][1..] == [];
    assert AddAll(disk, dir, ["en.json", "de.json"], "new", ["a", "c"])
      == AddAll(mid, dir, ["de.json"], "new", ["a", "c"]);
  }

  /**
   * The add command: load the first catalog, navigate it (new keys
   * allowed), take the typed text, then write every language.
   */
  function AddCommand(disk: Disk, toDir: string, langs: string, toAnswers: seq<Answer>, value: string): (out: Outcome)
    ensures out.disk.Keys == disk.Keys
  {
    var filenames := Languages.Filenames(langs);
    var toPath := FilePath(toDir, filenames[0]);
    if toPath !in disk then Outcome(disk, Some(FileNotFound(toPath)))
    else match KeysQuestion(disk[toPath], true, toAnswers, [])
      case Err(e) => Outcome(disk, Some(e))
      case Ok(toKeys) => AddAll(disk, toDir, filenames, value, toKeys)
  }

  /**
   * The tool's main flow. The confirmation answer is asked for and then
   * never read: the outcome is the same whatever it is.
   */
  method Run(disk: Disk, toDir: string, langs: string, toAnswers: seq<Answer>, value: string, confirmation: bool)
    returns (out: Outcome)
    ensures out == AddCommand(disk, toDir, langs, toAnswers, value)
  {
    var filenames := Languages.Filenames(langs);
    var toPath := FilePath(toDir, filenames[0]);
    if toPath !in disk {
      return Outcome(disk, Some(FileNotFound(toPath)));
    }
    var to := disk[toPath];
    var toKeys := Navigate(to, true, toAnswers);
    if toKeys.Err? {
      return Outcome(disk, Some(toKeys.error));
    }
    out := Write(disk, toDir, filenames, value, toKeys.value);
  }
}
