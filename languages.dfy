/**
 * The language list given on the command line and the catalog file names it
 * stands for: `langs.split(",").map(lang => `${lang}.json`)`.
 */
module Languages {

  const Separator := ','
  const Extension := ".json"

  /** How many times `c` occurs in `s`. */
  function Occurrences(s: string, c: char): nat
  {
    if s == [] then 0 else (if s[0] == c then 1 else 0) + Occurrences(s[1..], c)
  }

  /** `s.split(",")`: the pieces between separators, empty ones included. */
  function Split(s: string): (r: seq<string>)
    ensures |r| == Occurrences(s, Separator) + 1
    ensures forall part :: part in r ==> Separator !in part
  {
    if s == [] then [""]
    else
      var rest := Split(s[1..]);
      if s[0] == Separator then [""] + rest
      else [[s[0]] + rest[0]] + rest[1..]
  }

  /** `parts.join(",")`. */
  function Join(parts: seq<string>): string
    requires parts != []
  {
    if |parts| == 1 then parts[0] else parts[0] + [Separator] + Join(parts[1..])
  }

  /** Joining the pieces of a split gives back the original text. */
  lemma {:induction false} SplitJoin(s: string)
    ensures Join(Split(s)) == s
  {
    if s != [] {
      SplitJoin(s[1..]);
      var rest := Split(s[1..]);
      if s[0] == Separator {
        assert Split(s) == [""] + rest;
        assert s == [Separator] + s[1..];
      } else if |rest| == 1 {
        assert s == [s[0]] + s[1..];
      } else {
        assert Join(rest) == rest[0] + [Separator] + Join(rest[1..]);
        assert Split(s)[1..] == rest[1..];
        assert s == [s[0]] + s[1..];
      }
    }
  }

  /** A piece without separators stays glued to the first piece of what follows it. */
  lemma {:induction false} SplitPrefix(w: string, s: string)
    requires Separator !in w
    ensures Split(w + s) == [w + Split(s)[0]] + Split(s)[1..]
  {
    if w == [] {
      assert w + s == s && w + Split(s)[0] == Split(s)[0];
      assert Split(s) == [Split(s)[0]] + Split(s)[1..];
    } else {
      assert (w + s)[0] == w[0] && (w + s)[1..] == w[1..] + s;
      SplitPrefix(w[1..], s);
      assert [w[0]] + (w[1..] + Split(s)[0]) == w + Split(s)[0];
    }
  }

  /** Splitting a joined list of separator-free names gives back the list. */
  lemma {:induction false} JoinSplit(parts: seq<string>)
    requires parts != []
    requires forall part :: part in parts ==> Separator !in part
    ensures Split(Join(parts)) == parts
  {
    var w := parts[0];
    if |parts| == 1 {
      SplitPrefix(w, "");
      assert w + "" == w;
    } else {
      JoinSplit(parts[1..]);
      var tail := [Separator] + Join(parts[1..]);
      assert Join(parts) == w + tail;
      SplitPrefix(w, tail);
      assert tail[0] == Separator && tail[1..] == Join(parts[1..]);
      assert Split(tail) == [""] + parts[1..];
      assert w + "" == w;
    }
  }

  /** `langs.map(lang => `${lang}.json`)`. */
  function ToFilenames(langs: seq<string>): (r: seq<string>)
    ensures |r| == |langs|
    ensures forall i :: 0 <= i < |r| ==> r[i] == langs[i] + Extension
  {
    if langs == [] then [] else [langs[0] + Extension] + ToFilenames(langs[1..])
  }

  /** The catalog file names for the `--langs` argument: never empty, so a first file always exists. */
  function Filenames(langs: string): (r: seq<string>)
    ensures |r| == Occurrences(langs, Separator) + 1
  {
    ToFilenames(Split(langs))
  }

  /**
   * One file name per language, in the order given: the language followed
   * by ".json", from which the language can be read back.
   */
  lemma FilenamesOfLanguages(langs: seq<string>)
    requires langs != []
    requires forall lang :: lang in langs ==> Separator !in lang
    ensures var r := Filenames(Join(langs));
      && |r| == |langs|
      && forall i :: 0 <= i < |r| ==>
           r[i] == langs[i] + Extension && r[i][..|r[i]| - |Extension|] == langs[i]
  {
    JoinSplit(langs);
    var r := Filenames(Join(langs));
    forall i | 0 <= i < |r| ensures r[i][..|r[i]| - |Extension|] == langs[i] {
      assert r[i] == langs[i] + Extension;
    }
  }
}
