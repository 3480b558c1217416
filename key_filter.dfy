/**
 * The suggestion list of the key prompt: the keys of the current level that
 * start with what the user has typed so far, in property order. In allow-new
 * mode, when nothing matches, the typed text is the only suggestion.
 */
module KeyFilter {

  /** `key.startsWith(prefix)`. */
  predicate StartsWith(key: string, prefix: string)
    ensures StartsWith(key, prefix) <==> prefix <= key
  {
    |prefix| <= |key| && key[..|prefix|] == prefix
  }

  /**
   * The filter callback: with no input (`!input`, an empty string here)
   * every key is kept, otherwise the keys starting with the input.
   */
  predicate Matches(key: string, input: string)
    ensures Matches(key, input) <==> input == [] || input <= key
  {
    input == "" || StartsWith(key, input)
  }

  /** `keys.filter(key => Matches(key, input))`. */
  function Filter(keys: seq<string>, input: string): (r: seq<string>)
    ensures |r| <= |keys|
    ensures forall k :: k in r <==> k in keys && Matches(k, input)
  {
    if keys == [] then []
    else if Matches(keys[0], input) then [keys[0]] + Filter(keys[1..], input)
    else Filter(keys[1..], input)
  }

  /** The suggestions offered for `input`. */
  function Candidates(keys: seq<string>, input: string, allowNew: bool): (r: seq<string>)
    ensures forall c :: c in r ==> c in keys || (allowNew && c == input)
    ensures (exists k :: k in keys && Matches(k, input)) ==> r == Filter(keys, input)
    ensures !(exists k :: k in keys && Matches(k, input)) ==> r == (if allowNew then [input] else [])
  {
    var results := Filter(keys, input);
    assert results != [] ==> results[0] in results;
    if |results| == 0 && allowNew then [input] else results
  }

  /** Filtering keeps the relative order of the keys: it distributes over concatenation. */
  lemma {:induction false} FilterAppend(a: seq<string>, b: seq<string>, input: string)
    ensures Filter(a + b, input) == Filter(a, input) + Filter(b, input)
  {
    if a == [] {
      assert a + b == b;
    } else {
      assert (a + b)[0] == a[0] && (a + b)[1..] == a[1..] + b;
      FilterAppend(a[1..], b, input);
    }
  }

  /** A single key survives exactly when it matches. */
  lemma FilterSingle(key: string, input: string)
    ensures Filter([key], input) == if Matches(key, input) then [key] else []
  {
    assert [key][1..] == [];
  }

  /** With no input the filter returns every key, in order. */
  lemma {:induction false} FilterNoInput(keys: seq<string>)
    ensures Filter(keys, "") == keys
  {
    if keys != [] {
      FilterNoInput(keys[1..]);
      assert keys == [keys[0]] + keys[1..];
    }
  }

  /** With no input every key of a non-empty level is suggested. */
  lemma NoInputSuggestsAll(keys: seq<string>, allowNew: bool)
    requires keys != []
    ensures Candidates(keys, "", allowNew) == keys
  {
    FilterNoInput(keys);
  }

  /** The filtering example: typing "al" keeps "alpha" and "alphabet", in that order. */
  lemma FilterExample()
    ensures Candidates(["alpha", "beta", "alphabet"], "al", false) == ["alpha", "alphabet"]
    ensures Candidates(["alpha", "beta", "alphabet"], "al", true) == ["alpha", "alphabet"]
  {
    var keys: seq<string> := ["alpha", "beta", "alphabet"];
    assert "alpha"[..2] == "al" && "alphabet"[..2] == "al";
    assert "beta"[..2][0] == 'b';
    assert keys[1..] == ["beta", "alphabet"] && keys[1..][1..] == ["alphabet"] && ["alphabet"][1..] == [];
    assert Filter(["alphabet"], "al") == ["alphabet"];
    assert Filter(["beta", "alphabet"], "al") == ["alphabet"];
    assert Filter(keys, "al") == ["alpha", "alphabet"];
  }

  /** The allow-new example: an unknown key is the only suggestion, or there is none. */
  lemma NewKeyExample()
    ensures Candidates(["alpha", "beta", "alphabet"], "newKey", true) == ["newKey"]
    ensures Candidates(["alpha", "beta", "alphabet"], "newKey", false) == []
  {
    assert !StartsWith("alphabet", "newKey") by { assert "alphabet"[..6][0] == 'a'; }
  }
}
