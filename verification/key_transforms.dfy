/**
 * The key transforms built on the rewriter: a key is cut into words by a
 * splitter, the words are glued back by a joiner, and the presets combine
 * the `'_'` split and the upper-case boundary split with the camelCase,
 * PascalCase and snake_case joiners.
 */
module KeyTransforms {
  import opened Casing
  import opened Splitters
  import opened Values
  import opened Rewriter

  /** Cuts a key into words. */
  type Splitter = string -> seq<string>

  /** Glues words into a key. */
  type Joiner = seq<string> -> string

  /** `transform(split, transformation, key)`: split the key, then join the words. */
  function Transform(split: Splitter, transformation: Joiner, key: string): (r: string)
    ensures r == transformation(split(key))
  {
    transformation(split(key))
  }

  /** `curry(transform)(split, transformation)`: the key transformation still waiting for its key. */
  function Curried(split: Splitter, transformation: Joiner): (f: string -> string)
    ensures forall key :: f(key) == Transform(split, transformation, key)
  {
    key => Transform(split, transformation, key)
  }

  /** Every word capitalized. */
  function Capitalized(parts: seq<string>): (r: seq<string>)
    ensures |r| == |parts| && forall i :: 0 <= i < |parts| ==> r[i] == Capitalize(parts[i])
  {
    seq(|parts|, i requires 0 <= i < |parts| => Capitalize(parts[i]))
  }

  /** Every word lower-cased. */
  function Lowered(parts: seq<string>): (r: seq<string>)
    ensures |r| == |parts| && forall i :: 0 <= i < |parts| ==> r[i] == LowerCase(parts[i])
  {
    seq(|parts|, i requires 0 <= i < |parts| => LowerCase(parts[i]))
  }

  /** The words the camelCase joiner glues: the first as it is, every later one capitalized. */
  function CamelWords(parts: seq<string>): (words: seq<string>)
    ensures |words| == |parts|
    ensures |parts| > 0 ==> words[0] == parts[0]
    ensures forall i :: 0 < i < |parts| ==> words[i] == Capitalize(parts[i])
  {
    if |parts| == 0 then [] else [parts[0]] + Capitalized(parts[1..])
  }

  lemma CamelWordsUpToCase(parts: seq<string>)
    ensures forall i :: 0 <= i < |parts| ==> EqualUpToCase(CamelWords(parts)[i], parts[i])
  {
    var words := CamelWords(parts);
    forall i | 0 <= i < |parts| ensures EqualUpToCase(words[i], parts[i]) {
      if i > 0 {
        assert words[i] == Capitalize(parts[i]);
      }
    }
  }

  /**
   * The camelCase joiner: the first word as it is, every later word
   * capitalized, no separator. No words give `""`.
   */
  function CamelJoin(parts: seq<string>): (r: string)
    ensures |parts| == 0 ==> r == ""
    ensures |parts| > 0 ==> r == parts[0] + PascalJoin(parts[1..])
    ensures EqualUpToCase(r, Join(parts, ""))
  {
    var words := CamelWords(parts);
    CamelWordsUpToCase(parts);
    JoinUpToCase(words, parts, "");
    if |parts| == 0 then ""
    else
      var rest := Capitalized(parts[1..]);
      assert Join([parts[0]] + rest, "") == parts[0] + Join(rest, "") by {
        JoinPrependPart(parts[0], rest, "");
        assert parts[0] + "" == parts[0];
      }
      Join(words, "")
  }

  /**
   * The PascalCase joiner: every word capitalized, no separator. Read
   * recursively: the first word capitalized, followed by the PascalCase of
   * the rest.
   */
  function PascalJoin(parts: seq<string>): (r: string)
    ensures |parts| == 0 ==> r == ""
    ensures |parts| > 0 ==> r == Capitalize(parts[0]) + PascalJoin(parts[1..])
    ensures EqualUpToCase(r, Join(parts, ""))
    ensures |parts| > 0 && |parts[0]| > 0 ==> |r| > 0 && !IsLower(r[0])
  {
    var words := Capitalized(parts);
    JoinUpToCase(words, parts, "");
    if |parts| == 0 then ""
    else
      assert words == [Capitalize(parts[0])] + Capitalized(parts[1..]);
      var first, rest := Capitalize(parts[0]), Capitalized(parts[1..]);
      assert Join([first] + rest, "") == first + Join(rest, "") by {
        JoinPrependPart(first, rest, "");
        assert first + "" == first;
      }
      Join(words, "")
  }

  /** The snake_case joiner: every word lower-cased, joined with `'_'`. */
  function SnakeJoin(parts: seq<string>): (r: string)
    ensures EqualUpToCase(r, Join(parts, "_"))
    ensures forall j :: 0 <= j < |r| ==> !IsUpper(r[j])
  {
    var words := Lowered(parts);
    JoinUpToCase(words, parts, "_");
    JoinEveryChar(words, "_", c => !IsUpper(c));
    Join(words, "_")
  }

  /** `toCamelCase(split, key)`. */
  function ToCamelCase(split: Splitter, key: string): (r: string)
    ensures |split(key)| == 0 ==> r == ""
    ensures |split(key)| > 0 ==> r == split(key)[0] + PascalJoin(split(key)[1..])
    ensures EqualUpToCase(r, Join(split(key), ""))
  {
    Transform(split, CamelJoin, key)
  }

  /** `toPascalCase(split, key)`. */
  function ToPascalCase(split: Splitter, key: string): (r: string)
    ensures |split(key)| == 0 ==> r == ""
    ensures |split(key)| > 0 ==> r == Capitalize(split(key)[0]) + PascalJoin(split(key)[1..])
    ensures EqualUpToCase(r, Join(split(key), ""))
  {
    Transform(split, PascalJoin, key)
  }

  /** `key.split('_')`: the words between the underscores, empty ones included. */
  function SnakeSplit(key: string): (parts: seq<string>)
    ensures |parts| >= 1
    ensures Join(parts, "_") == key
    ensures forall i :: 0 <= i < |parts| ==> '_' !in parts[i]
  {
    Split(key, '_')
  }

  /** Joining `'_'`-free words with no separator gives a `'_'`-free key. */
  lemma NoUnderscoreUpToCase(r: string, parts: seq<string>)
    requires forall i :: 0 <= i < |parts| ==> '_' !in parts[i]
    requires EqualUpToCase(r, Join(parts, ""))
    ensures '_' !in r
  {
    JoinEveryChar(parts, "", c => c != '_');
    NonLetterUpToCase(Join(parts, ""), r, '_');
  }

  /**
   * `fromSnakeCaseToCamelCase`: the underscores go, the first word stays as
   * it is, and the letters are the key's up to case; a key without `'_'`
   * comes back unchanged.
   */
  function FromSnakeCaseToCamelCase(key: string): (r: string)
    ensures '_' !in r
    ensures EqualUpToCase(r, Join(Split(key, '_'), ""))
    ensures r == Split(key, '_')[0] + PascalJoin(Split(key, '_')[1..])
    ensures '_' !in key ==> r == key
  {
    var r := ToCamelCase(SnakeSplit, key);
    NoUnderscoreUpToCase(r, Split(key, '_'));
    r
  }

  /**
   * `fromSnakeCaseToPascalCase`: the underscores go, the letters are the
   * key's up to case, and a key without `'_'` comes back capitalized.
   */
  function FromSnakeCaseToPascalCase(key: string): (r: string)
    ensures '_' !in r
    ensures EqualUpToCase(r, Join(Split(key, '_'), ""))
    ensures r == Capitalize(Split(key, '_')[0]) + PascalJoin(Split(key, '_')[1..])
    ensures '_' !in key ==> r == Capitalize(key)
  {
    var r := ToPascalCase(SnakeSplit, key);
    NoUnderscoreUpToCase(r, Split(key, '_'));
    r
  }

  /**
   * The PascalCase preset word by word: a leading word and its underscore
   * become that word capitalized, followed by the PascalCase of the rest.
   */
  lemma PascalOfSnakeWords(w: string, rest: string)
    requires '_' !in w
    ensures FromSnakeCaseToPascalCase(w + "_" + rest) == Capitalize(w) + FromSnakeCaseToPascalCase(rest)
  {
    SplitFirstWord(w, rest, '_');
    var parts := [w] + Split(rest, '_');
    assert parts[1..] == Split(rest, '_');
  }

  /**
   * The camelCase preset word by word: a leading word and its underscore
   * become that word as it is, followed by the PascalCase of the rest.
   */
  lemma CamelOfSnakeWords(w: string, rest: string)
    requires '_' !in w
    ensures FromSnakeCaseToCamelCase(w + "_" + rest) == w + FromSnakeCaseToPascalCase(rest)
  {
    SplitFirstWord(w, rest, '_');
    var parts := [w] + Split(rest, '_');
    assert parts[1..] == Split(rest, '_');
  }

  /** The camelCase-to-snake_case key transformation: boundary split, then the snake_case joiner. */
  function CamelToSnakeKey(key: string): (r: string)
    ensures forall j :: 0 <= j < |r| ==> !IsUpper(r[j])
    ensures EqualUpToCase(r, Join(SplitBeforeUpper(key), "_"))
    ensures (forall j :: 0 < j < |key| ==> !IsUpper(key[j])) ==> r == LowerCase(key)
  {
    Curried(SplitBeforeUpper, SnakeJoin)(key)
  }

  /** `transformFromTo(sourceForm, transformation, object)`. */
  function TransformFromTo(split: Splitter, transformation: Joiner, v: Value): (r: Value)
    ensures WellFormed(r)
    ensures v.Leaf? ==> r == v
    ensures v.Null? ==> r == Obj([])
    ensures v.Arr? <==> r.Arr?
  {
    TransformedWellFormed(Curried(split, transformation), v);
    KeysTransformed(Curried(split, transformation), v)
  }

  /**
   * Currying is plain partial application: the general transform renames
   * each key `k` to `transformation(split(k))`.
   */
  lemma FromToIsComposition(split: Splitter, transformation: Joiner, v: Value)
    ensures TransformFromTo(split, transformation, v) == KeysTransformed(k => transformation(split(k)), v)
  {
    var f, g := Curried(split, transformation), k => transformation(split(k));
    forall k ensures f(k) == g(k) {
      assert f(k) == Transform(split, transformation, k);
    }
    EveryKeyOfAll(v, k => f(k) == g(k));
    AgreeingTransforms(f, g, v);
  }

  /** Every key of the result is an output of the joiner, so it has every property all outputs have. */
  lemma FromToKeys(split: Splitter, transformation: Joiner, v: Value, p: string -> bool)
    requires forall parts :: p(transformation(parts))
    ensures EveryKey(TransformFromTo(split, transformation, v), p)
  {
    KeysInImage(Curried(split, transformation), v, p);
  }

  /** `transformFromCamelCaseToSnakeCase(object)`: no key of the result holds an upper-case letter. */
  function TransformFromCamelCaseToSnakeCase(v: Value): (r: Value)
    ensures WellFormed(r)
    ensures v.Leaf? ==> r == v
    ensures v.Null? ==> r == Obj([])
    ensures v.Arr? <==> r.Arr?
    ensures EveryKey(r, k => forall j :: 0 <= j < |k| ==> !IsUpper(k[j]))
  {
    FromToKeys(SplitBeforeUpper, SnakeJoin, v, k => forall j :: 0 <= j < |k| ==> !IsUpper(k[j]));
    TransformFromTo(SplitBeforeUpper, SnakeJoin, v)
  }

  /** `transformFromSnakeCaseToCamelCase(object)`: no key of the result holds `'_'`. */
  function TransformFromSnakeCaseToCamelCase(v: Value): (r: Value)
    ensures WellFormed(r)
    ensures v.Leaf? ==> r == v
    ensures v.Null? ==> r == Obj([])
    ensures v.Arr? <==> r.Arr?
    ensures EveryKey(r, k => '_' !in k)
  {
    TransformedWellFormed(FromSnakeCaseToCamelCase, v);
    KeysInImage(FromSnakeCaseToCamelCase, v, k => '_' !in k);
    KeysTransformed(FromSnakeCaseToCamelCase, v)
  }

  /**
   * The snake_case-to-camelCase shorthand is the general transform with the
   * `'_'` split and the camelCase joiner.
   */
  lemma SnakeToCamelIsFromTo(v: Value)
    ensures TransformFromSnakeCaseToCamelCase(v) == TransformFromTo(SnakeSplit, CamelJoin, v)
  {
    var f, g := FromSnakeCaseToCamelCase, Curried(SnakeSplit, CamelJoin);
    forall k ensures f(k) == g(k) {
      assert f(k) == Transform(SnakeSplit, CamelJoin, k);
    }
    EveryKeyOfAll(v, k => f(k) == g(k));
    AgreeingTransforms(f, g, v);
  }

  /** The camelCase-to-snake_case wrapper renames every key with `CamelToSnakeKey`. */
  lemma CamelToSnakeIsKeyRewrite(v: Value)
    ensures TransformFromCamelCaseToSnakeCase(v) == KeysTransformed(CamelToSnakeKey, v)
  {
    var f, g := Curried(SplitBeforeUpper, SnakeJoin), CamelToSnakeKey;
    forall k ensures f(k) == g(k) {
      assert g(k) == Curried(SplitBeforeUpper, SnakeJoin)(k);
    }
    EveryKeyOfAll(v, k => f(k) == g(k));
    AgreeingTransforms(f, g, v);
  }

  /** A snake_case key: words of lower-case ASCII letters joined by single underscores. */
  predicate IsSnakeKey(key: string)
  {
    forall i :: 0 <= i < |Split(key, '_')| ==> IsLowerWord(Split(key, '_')[i])
  }

  /** Lower-casing lower-case words, some of them capitalized, gives the words back. */
  lemma LoweredCapitalized(parts: seq<string>, words: seq<string>, from: nat)
    requires |words| == |parts| && from <= |parts|
    requires forall i :: 0 <= i < |parts| ==> IsLowerWord(parts[i])
    requires forall i :: 0 <= i < from ==> words[i] == parts[i]
    requires forall i :: from <= i < |parts| ==> words[i] == Capitalize(parts[i])
    ensures Lowered(words) == parts
  {
    forall i | 0 <= i < |parts| ensures LowerCase(words[i]) == parts[i] {
      CapitalizeLowerWord(parts[i]);
    }
  }

  /** Words of lower-case letters, the first one kept and the rest capitalized, are boundary parts. */
  lemma CamelWordsAreBoundaryParts(parts: seq<string>)
    requires |parts| > 0
    requires forall i :: 0 <= i < |parts| ==> IsLowerWord(parts[i])
    ensures IsBoundaryParts(CamelWords(parts))
  {
    var words := CamelWords(parts);
    forall i | 0 <= i < |words|
      ensures |words[i]| > 0 && (i > 0 ==> IsUpper(words[i][0]))
      ensures forall j :: 0 < j < |words[i]| ==> !IsUpper(words[i][j])
    {
      if i > 0 {
        CapitalizeLowerWord(parts[i]);
      }
    }
  }

  /** Capitalized words of lower-case letters are boundary parts. */
  lemma PascalWordsAreBoundaryParts(parts: seq<string>)
    requires |parts| > 0
    requires forall i :: 0 <= i < |parts| ==> IsLowerWord(parts[i])
    ensures IsBoundaryParts(Capitalized(parts))
  {
    forall i | 0 <= i < |parts| ensures |Capitalize(parts[i])| > 0 && IsUpper(Capitalize(parts[i])[0]) {
      CapitalizeLowerWord(parts[i]);
    }
  }

  /** A snake_case key survives the trip to camelCase and back. */
  lemma SnakeCamelKeyRoundTrip(key: string)
    requires IsSnakeKey(key)
    ensures CamelToSnakeKey(FromSnakeCaseToCamelCase(key)) == key
  {
    var parts := Split(key, '_');
    var words := CamelWords(parts);
    assert FromSnakeCaseToCamelCase(key) == Join(words, "");
    CamelWordsAreBoundaryParts(parts);
    SplitBeforeUpperOfJoin(words);
    LoweredCapitalized(parts, words, 1);
  }

  /** A snake_case key survives the trip to PascalCase and back. */
  lemma SnakePascalKeyRoundTrip(key: string)
    requires IsSnakeKey(key)
    ensures CamelToSnakeKey(FromSnakeCaseToPascalCase(key)) == key
  {
    var parts := Split(key, '_');
    var words := Capitalized(parts);
    assert FromSnakeCaseToPascalCase(key) == Join(words, "");
    PascalWordsAreBoundaryParts(parts);
    SplitBeforeUpperOfJoin(words);
    LoweredCapitalized(parts, words, 0);
  }

  /**
   * snake_case to camelCase and back gives the object back, when every key
   * is snake_case, no object repeats a key and no `null` occurs.
   */
  lemma SnakeCamelRoundTrip(v: Value)
    requires WellFormed(v) && NullFree(v) && EveryKey(v, IsSnakeKey)
    ensures TransformFromCamelCaseToSnakeCase(TransformFromSnakeCaseToCamelCase(v)) == v
  {
    var f, g := FromSnakeCaseToCamelCase, Curried(SplitBeforeUpper, SnakeJoin);
    forall k | IsSnakeKey(k) ensures g(f(k)) == k {
      SnakeCamelKeyRoundTrip(k);
    }
    EveryKeyWeaken(v, IsSnakeKey, k => g(f(k)) == k);
    RoundTrip(f, g, v);
  }

  /**
   * snake_case to PascalCase with the general transform, and back with the
   * boundary split and the snake_case joiner, gives the object back under
   * the same conditions.
   */
  lemma SnakePascalRoundTrip(v: Value)
    requires WellFormed(v) && NullFree(v) && EveryKey(v, IsSnakeKey)
    ensures TransformFromTo(SplitBeforeUpper, SnakeJoin, TransformFromTo(SnakeSplit, PascalJoin, v)) == v
  {
    var f, g := Curried(SnakeSplit, PascalJoin), Curried(SplitBeforeUpper, SnakeJoin);
    forall k | IsSnakeKey(k) ensures g(f(k)) == k {
      SnakePascalKeyRoundTrip(k);
    }
    EveryKeyWeaken(v, IsSnakeKey, k => g(f(k)) == k);
    RoundTrip(f, g, v);
  }
}
