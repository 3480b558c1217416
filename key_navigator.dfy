/**
 * The key navigator (`keysQuestion`): starting at a catalog's root, it asks
 * for one key per object level and descends into the chosen key, until the
 * current value is not an object. The prompt is replaced by a script of
 * answers; running out of answers, or submitting a position the suggestion
 * list does not have, leaves the prompt unanswered.
 */
module KeyNavigator {
  import opened Catalog
  import opened KeyFilter
  import PathResolver

  /** One answer to the autocomplete prompt: the text typed, then the position of the suggestion submitted. */
  datatype Answer = Answer(typed: string, pick: nat)

  /** `keysQuestion(value, { allowNew }, result)`, one recursive call per answer. */
  function KeysQuestion(value: Value, allowNew: bool, answers: seq<Answer>, result: seq<string>): (r: Result<seq<string>>)
    ensures r.Err? ==> r.error == PromptAborted
    ensures r.Ok? ==> result <= r.value && |r.value| <= |result| + |answers|
    decreases |answers|
  {
    if !value.Obj? then Ok(result)
    else if answers == [] then Err(PromptAborted)
    else
      var choices := Candidates(value.keys, answers[0].typed, allowNew);
      if answers[0].pick < |choices| then
        var key := choices[answers[0].pick];
        KeysQuestion(Child(value, key), allowNew, answers[1..], result + [key])
      else Err(PromptAborted)
  }

  /** The navigator as a loop over `(value, result)`. */
  method Navigate(root: Value, allowNew: bool, answers: seq<Answer>) returns (r: Result<seq<string>>)
    ensures r == KeysQuestion(root, allowNew, answers, [])
    ensures r.Ok? ==> |r.value| <= |answers| && ContainersPresent(root, r.value) && !Walk(root, r.value).Obj?
  {
    var value, result, i := root, [], 0;
    while value.Obj?
      invariant i <= |answers| && |result| == i
      invariant Walk(root, result) == value && ContainersPresent(root, result)
      invariant KeysQuestion(value, allowNew, answers[i..], result) == KeysQuestion(root, allowNew, answers, [])
      decreases |answers| - i
    {
      if i == |answers| {
        return Err(PromptAborted);
      }
      var choices := Candidates(value.keys, answers[i].typed, allowNew);
      if answers[i].pick >= |choices| {
        return Err(PromptAborted);
      }
      var key := choices[answers[i].pick];
      WalkAppend(root, result, key);
      assert answers[i..][1..] == answers[i + 1..];
      assert forall j :: 0 <= j < |result| ==> (result + [key])[..j] == result[..j];
      assert (result + [key])[..|result|] == result;
      value, result, i := Child(value, key), result + [key], i + 1;
    }
    return Ok(result);
  }

  /** The keys accumulated so far are carried through unchanged, in front of the new ones. */
  lemma {:induction false} KeysQuestionAccumulates(v: Value, allowNew: bool, answers: seq<Answer>, acc: seq<string>)
    ensures KeysQuestion(v, allowNew, answers, acc).Ok? == KeysQuestion(v, allowNew, answers, []).Ok?
    ensures KeysQuestion(v, allowNew, answers, acc).Ok? ==>
      KeysQuestion(v, allowNew, answers, acc).value == acc + KeysQuestion(v, allowNew, answers, []).value
    decreases |answers|
  {
    if v.Obj? && answers != [] {
      var choices := Candidates(v.keys, answers[0].typed, allowNew);
      if answers[0].pick < |choices| {
        var key := choices[answers[0].pick];
        var c := Child(v, key);
        assert [] + [key] == [key];
        assert KeysQuestion(v, allowNew, answers, acc) == KeysQuestion(c, allowNew, answers[1..], acc + [key]);
        assert KeysQuestion(v, allowNew, answers, []) == KeysQuestion(c, allowNew, answers[1..], [key]);
        KeysQuestionAccumulates(c, allowNew, answers[1..], acc + [key]);
        KeysQuestionAccumulates(c, allowNew, answers[1..], [key]);
        if KeysQuestion(c, allowNew, answers[1..], []).Ok? {
          var rest := KeysQuestion(c, allowNew, answers[1..], []).value;
          assert acc + [key] + rest == acc + ([key] + rest);
        }
      }
    }
  }

  /** Each key of `path` is the suggestion that the answer at its level picked. */
  ghost predicate PickedAlong(v: Value, allowNew: bool, answers: seq<Answer>, path: seq<string>)
    requires |path| <= |answers|
  {
    forall j :: 0 <= j < |path| ==>
      && Walk(v, path[..j]).Obj?
      && var choices := Candidates(Walk(v, path[..j]).keys, answers[j].typed, allowNew);
      answers[j].pick < |choices| && path[j] == choices[answers[j].pick]
  }

  lemma PickedAlongCons(v: Value, allowNew: bool, answers: seq<Answer>, key: string, rest: seq<string>)
    requires v.Obj? && answers != [] && |rest| < |answers|
    requires var choices := Candidates(v.keys, answers[0].typed, allowNew);
      answers[0].pick < |choices| && key == choices[answers[0].pick]
    requires PickedAlong(Child(v, key), allowNew, answers[1..], rest)
    ensures PickedAlong(v, allowNew, answers, [key] + rest)
  {
    var path := [key] + rest;
    assert path[0] == key && path[1..] == rest;
    assert Walk(v, path[..0]) == v;
    forall j | 1 <= j < |path|
      ensures Walk(v, path[..j]) == Walk(Child(v, key), rest[..j - 1])
      ensures answers[j] == answers[1..][j - 1] && path[j] == rest[j - 1]
    {
      WalkPrefixCons(v, path, j - 1);
    }
  }

  /**
   * The path returned has one key per answer read; it passes only through
   * objects and ends at the first value that is not one.
   */
  lemma {:induction false} KeysQuestionPath(v: Value, allowNew: bool, answers: seq<Answer>)
    requires KeysQuestion(v, allowNew, answers, []).Ok?
    ensures var path := KeysQuestion(v, allowNew, answers, []).value;
      |path| <= |answers| && ContainersPresent(v, path) && !Walk(v, path).Obj?
    decreases |answers|
  {
    var path := KeysQuestion(v, allowNew, answers, []).value;
    if v.Obj? {
      var choices := Candidates(v.keys, answers[0].typed, allowNew);
      var key := choices[answers[0].pick];
      var c := Child(v, key);
      assert [] + [key] == [key];
      assert KeysQuestion(v, allowNew, answers, []) == KeysQuestion(c, allowNew, answers[1..], [key]);
      KeysQuestionAccumulates(c, allowNew, answers[1..], [key]);
      KeysQuestionPath(c, allowNew, answers[1..]);
      var rest := KeysQuestion(c, allowNew, answers[1..], []).value;
      assert path == [key] + rest;
      assert path[0] == key && path[1..] == rest;
      assert Walk(v, path[..0]).Obj?;
      forall j | 1 <= j < |path| ensures Walk(v, path[..j]).Obj? {
        WalkPrefixCons(v, path, j - 1);
      }
    }
  }

  /** Each key of the path returned is the suggestion picked at its level. */
  lemma {:induction false} KeysQuestionPicks(v: Value, allowNew: bool, answers: seq<Answer>)
    requires KeysQuestion(v, allowNew, answers, []).Ok?
    ensures var path := KeysQuestion(v, allowNew, answers, []).value;
      |path| <= |answers| && PickedAlong(v, allowNew, answers, path)
    decreases |answers|
  {
    var path := KeysQuestion(v, allowNew, answers, []).value;
    if v.Obj? {
      var choices := Candidates(v.keys, answers[0].typed, allowNew);
      var key := choices[answers[0].pick];
      var c := Child(v, key);
      assert [] + [key] == [key];
      assert KeysQuestion(v, allowNew, answers, []) == KeysQuestion(c, allowNew, answers[1..], [key]);
      KeysQuestionAccumulates(c, allowNew, answers[1..], [key]);
      KeysQuestionPicks(c, allowNew, answers[1..]);
      var rest := KeysQuestion(c, allowNew, answers[1..], []).value;
      assert path == [key] + rest;
      PickedAlongCons(v, allowNew, answers, key, rest);
    }
  }

  /** Only the first |path| answers are read: the rest of the script plays no part. */
  lemma {:induction false} KeysQuestionReadsOnlyPath(v: Value, allowNew: bool, answers: seq<Answer>)
    requires KeysQuestion(v, allowNew, answers, []).Ok?
    ensures var path := KeysQuestion(v, allowNew, answers, []).value;
      |path| <= |answers| && KeysQuestion(v, allowNew, answers[..|path|], []) == Ok(path)
    decreases |answers|
  {
    var path := KeysQuestion(v, allowNew, answers, []).value;
    if v.Obj? {
      var choices := Candidates(v.keys, answers[0].typed, allowNew);
      var key := choices[answers[0].pick];
      var c := Child(v, key);
      assert [] + [key] == [key];
      assert KeysQuestion(v, allowNew, answers, []) == KeysQuestion(c, allowNew, answers[1..], [key]);
      KeysQuestionAccumulates(c, allowNew, answers[1..], [key]);
      KeysQuestionReadsOnlyPath(c, allowNew, answers[1..]);
      var rest := KeysQuestion(c, allowNew, answers[1..], []).value;
      assert path == [key] + rest;
      var short := answers[..|path|];
      assert short[0] == answers[0] && short[1..] == answers[1..][..|rest|];
      assert KeysQuestion(v, allowNew, short, []) == KeysQuestion(c, allowNew, short[1..], [key]);
      KeysQuestionAccumulates(c, allowNew, short[1..], [key]);
    } else {
      assert path == [];
    }
  }

  /**
   * Termination: at most `Height(v)` answers are read, whatever they are, so
   * a finite catalog ends the navigation after that many prompts.
   */
  lemma {:induction false} KeysQuestionReadsAtMostHeight(v: Value, allowNew: bool, answers: seq<Answer>, acc: seq<string>, h: nat)
    requires Height(v) <= h <= |answers|
    ensures KeysQuestion(v, allowNew, answers, acc) == KeysQuestion(v, allowNew, answers[..h], acc)
    decreases h
  {
    if v.Obj? {
      assert answers[..h][0] == answers[0];
      var choices := Candidates(v.keys, answers[0].typed, allowNew);
      if answers[0].pick < |choices| {
        var key := choices[answers[0].pick];
        ChildHeight(v, key);
        assert answers[..h][1..] == answers[1..][..h - 1];
        KeysQuestionReadsAtMostHeight(Child(v, key), allowNew, answers[1..], acc + [key], h - 1);
      }
    }
  }

  /**
   * A key that the current object lacks ends the navigation at once, and in
   * a parsed catalog only allow-new mode offers one: the text typed.
   */
  lemma NewKeyEndsNavigation(v: Value, allowNew: bool, answers: seq<Answer>, acc: seq<string>)
    requires v.Obj? && answers != []
    requires answers[0].pick < |Candidates(v.keys, answers[0].typed, allowNew)|
    requires Candidates(v.keys, answers[0].typed, allowNew)[answers[0].pick] !in v.fields
    ensures var key := Candidates(v.keys, answers[0].typed, allowNew)[answers[0].pick];
      && KeysQuestion(v, allowNew, answers, acc) == Ok(acc + [key])
      && (WellFormed(v) ==> allowNew && key == answers[0].typed)
  {
    var choices := Candidates(v.keys, answers[0].typed, allowNew);
    assert choices[answers[0].pick] in choices;
  }

  /**
   * Without allow-new mode a parsed catalog with at least one level yields a
   * non-empty path of existing keys that ends at a string, and `getValue`
   * reads that string.
   */
  lemma ExistingKeysOnly(root: Value, answers: seq<Answer>)
    requires WellFormed(root) && root.Obj? && KeysQuestion(root, false, answers, []).Ok?
    ensures var path := KeysQuestion(root, false, answers, []).value;
      && path != []
      && (forall j :: 0 <= j < |path| ==> Walk(root, path[..j]).Obj? && path[j] in Walk(root, path[..j]).fields)
      && Walk(root, path).Leaf?
      && PathResolver.GetValue(root, path) == Ok(Walk(root, path))
  {
    var path := KeysQuestion(root, false, answers, []).value;
    ExistingKeysResolve(root, answers);
    KeysQuestionPath(root, false, answers);
    PathResolver.GetValueFails(root, path);
  }

  lemma {:induction false} ExistingKeysResolve(v: Value, answers: seq<Answer>)
    requires WellFormed(v) && v.Obj? && KeysQuestion(v, false, answers, []).Ok?
    ensures var path := KeysQuestion(v, false, answers, []).value;
      && path != []
      && (forall j :: 0 <= j < |path| ==> Walk(v, path[..j]).Obj? && path[j] in Walk(v, path[..j]).fields)
      && Walk(v, path).Leaf?
    decreases |answers|
  {
    var path := KeysQuestion(v, false, answers, []).value;
    var choices := Candidates(v.keys, answers[0].typed, false);
    var key := choices[answers[0].pick];
    assert key in choices;
    var c := Child(v, key);
    assert key in v.fields && c == v.fields[key];
    assert [] + [key] == [key];
    assert KeysQuestion(v, false, answers, []) == KeysQuestion(c, false, answers[1..], [key]);
    KeysQuestionAccumulates(c, false, answers[1..], [key]);
    var rest := KeysQuestion(c, false, answers[1..], []).value;
    assert path == [key] + rest;
    assert path[0] == key && path[1..] == rest;
    if c.Obj? {
      ExistingKeysResolve(c, answers[1..]);
      forall j | 1 <= j < |path| ensures Walk(v, path[..j]) == Walk(c, rest[..j - 1]) {
        WalkPrefixCons(v, path, j - 1);
      }
    } else {
      assert rest == [];
    }
  }
}
