/**
 * The two word splitters of the key transforms and the joining of parts.
 *
 * - `Split(s, sep)` is ECMAScript `String.prototype.split` with a
 *   one-character string separator: empty parts are kept and `""` gives `[""]`.
 * - `SplitBeforeUpper(s)` is `s.split(/(?=[A-Z])/)`. Under the ECMAScript
 *   `RegExp.prototype[@@split]` algorithm a zero-width match at the position
 *   where the current part starts is skipped, so the string is cut before
 *   every ASCII upper-case letter at an index greater than 0 and no leading
 *   empty part appears: `"AKey"` gives `["A", "Key"]`.
 * - `Join(parts, sep)` is `Array.prototype.join` (and lodash `join`).
 */
module Splitters {
  import opened Casing

  function Join(parts: seq<string>, sep: string): (r: string)
    ensures |parts| == 0 ==> r == ""
    ensures |parts| == 1 ==> r == parts[0]
  {
    if |parts| == 0 then ""
    else if |parts| == 1 then parts[0]
    else parts[0] + sep + Join(parts[1..], sep)
  }

  /** Putting a character in front of the first part puts it in front of the whole. */
  lemma JoinPrependChar(c: char, first: string, rest: seq<string>, sep: string)
    ensures Join([[c] + first] + rest, sep) == [c] + Join([first] + rest, sep)
  {
    if |rest| > 0 {
      assert ([[c] + first] + rest)[1..] == rest;
      assert ([first] + rest)[1..] == rest;
    }
  }

  lemma JoinPrependPart(first: string, rest: seq<string>, sep: string)
    ensures Join([first] + rest, sep) == if |rest| == 0 then first else first + sep + Join(rest, sep)
  {
    if |rest| > 0 {
      assert ([first] + rest)[1..] == rest;
    }
  }

  /** Joining parts that agree up to case gives strings that agree up to case. */
  lemma {:induction false} JoinUpToCase(ps: seq<string>, qs: seq<string>, sep: string)
    requires |ps| == |qs|
    requires forall i :: 0 <= i < |ps| ==> EqualUpToCase(ps[i], qs[i])
    ensures EqualUpToCase(Join(ps, sep), Join(qs, sep))
  {
    if |ps| > 1 {
      JoinUpToCase(ps[1..], qs[1..], sep);
      var a, b := Join(ps[1..], sep), Join(qs[1..], sep);
      assert Join(ps, sep) == ps[0] + sep + a;
      assert Join(qs, sep) == qs[0] + sep + b;
      forall i | 0 <= i < |Join(ps, sep)|
        ensures ToLower(Join(ps, sep)[i]) == ToLower(Join(qs, sep)[i])
      {
        if i < |ps[0]| {
        } else if i < |ps[0]| + |sep| {
        } else {
          assert Join(ps, sep)[i] == a[i - |ps[0]| - |sep|];
          assert Join(qs, sep)[i] == b[i - |ps[0]| - |sep|];
        }
      }
    }
  }

  /** A property of every character of every part and of the separator holds of every character of the join. */
  lemma {:induction false} JoinEveryChar(parts: seq<string>, sep: string, p: char -> bool)
    requires forall j :: 0 <= j < |sep| ==> p(sep[j])
    requires forall i, j :: 0 <= i < |parts| && 0 <= j < |parts[i]| ==> p(parts[i][j])
    ensures forall j :: 0 <= j < |Join(parts, sep)| ==> p(Join(parts, sep)[j])
  {
    if |parts| > 1 {
      JoinEveryChar(parts[1..], sep, p);
      var a := Join(parts[1..], sep);
      assert Join(parts, sep) == parts[0] + sep + a;
      forall j | 0 <= j < |Join(parts, sep)| ensures p(Join(parts, sep)[j]) {
        if j >= |parts[0]| + |sep| {
          assert Join(parts, sep)[j] == a[j - |parts[0]| - |sep|];
        }
      }
    }
  }

  /** `s.split(sep)` for a one-character separator. */
  function Split(s: string, sep: char): (parts: seq<string>)
    ensures |parts| >= 1
    ensures Join(parts, [sep]) == s
    ensures forall i :: 0 <= i < |parts| ==> sep !in parts[i]
    ensures sep !in s ==> parts == [s]
  {
    if |s| == 0 then [""]
    else
      var rest := Split(s[1..], sep);
      if s[0] == sep then
        JoinPrependPart("", rest, [sep]);
        [""] + rest
      else
        JoinPrependChar(s[0], rest[0], rest[1..], [sep]);
        assert [rest[0]] + rest[1..] == rest;
        [[s[0]] + rest[0]] + rest[1..]
  }

  /** Splitting a join of separator-free parts gives the parts back. */
  lemma {:induction false} SplitOfJoin(parts: seq<string>, sep: char)
    requires |parts| >= 1
    requires forall i :: 0 <= i < |parts| ==> sep !in parts[i]
    ensures Split(Join(parts, [sep]), sep) == parts
    decreases |parts|, |parts[0]|
  {
    var s := Join(parts, [sep]);
    if |parts[0]| == 0 {
      if |parts| > 1 {
        JoinPrependPart(parts[0], parts[1..], [sep]);
        assert [parts[0]] + parts[1..] == parts;
        assert s == [sep] + Join(parts[1..], [sep]);
        assert s[1..] == Join(parts[1..], [sep]);
        SplitOfJoin(parts[1..], sep);
      }
    } else {
      var c, first := parts[0][0], parts[0][1..];
      assert [c] + first == parts[0];
      assert [[c] + first] + parts[1..] == parts;
      JoinPrependChar(c, first, parts[1..], [sep]);
      var tail := [first] + parts[1..];
      assert s[1..] == Join(tail, [sep]);
      assert sep !in parts[0];
      SplitOfJoin(tail, sep);
    }
  }

  /** A leading separator-free word and its separator split off as the first part. */
  lemma SplitFirstWord(w: string, rest: string, sep: char)
    requires sep !in w
    ensures Split(w + [sep] + rest, sep) == [w] + Split(rest, sep)
  {
    var tail := Split(rest, sep);
    var parts := [w] + tail;
    JoinPrependPart(w, tail, [sep]);
    assert parts[1..] == tail;
    assert Join(parts, [sep]) == w + [sep] + rest;
    SplitOfJoin(parts, sep);
  }

  /** `s.split(/(?=[A-Z])/)`. */
  function SplitBeforeUpper(s: string): (parts: seq<string>)
    ensures |parts| >= 1
    ensures Join(parts, "") == s
    ensures |s| > 0 ==> |parts[0]| > 0 && parts[0][0] == s[0]
    ensures forall i :: 0 < i < |parts| ==> |parts[i]| > 0 && IsUpper(parts[i][0])
    ensures forall i, j :: 0 <= i < |parts| && 0 < j < |parts[i]| ==> !IsUpper(parts[i][j])
    ensures |s| > 0 ==> forall i :: 0 <= i < |parts| ==> |parts[i]| > 0
    ensures (forall j :: 0 < j < |s| ==> !IsUpper(s[j])) ==> parts == [s]
  {
    if |s| <= 1 then [s]
    else
      var rest := SplitBeforeUpper(s[1..]);
      if IsUpper(s[1]) then
        JoinPrependPart(s[..1], rest, "");
        assert s[..1] + s[1..] == s;
        [s[..1]] + rest
      else
        JoinPrependChar(s[0], rest[0], rest[1..], "");
        assert [rest[0]] + rest[1..] == rest;
        [[s[0]] + rest[0]] + rest[1..]
  }

  /**
   * The parts a boundary split produces from a non-empty string: non-empty,
   * every part after the first starts with an upper-case letter, and no
   * part has an upper-case letter after its first character.
   */
  predicate IsBoundaryParts(parts: seq<string>)
  {
    && |parts| >= 1
    && (forall i :: 0 <= i < |parts| ==> |parts[i]| > 0)
    && (forall i :: 0 < i < |parts| ==> IsUpper(parts[i][0]))
    && (forall i, j :: 0 <= i < |parts| && 0 < j < |parts[i]| ==> !IsUpper(parts[i][j]))
  }

  /** The boundary split is the only decomposition of that shape. */
  lemma {:induction false} SplitBeforeUpperOfJoin(parts: seq<string>)
    requires IsBoundaryParts(parts)
    ensures SplitBeforeUpper(Join(parts, "")) == parts
    decreases |parts|, |parts[0]|
  {
    var s := Join(parts, "");
    var c, first := parts[0][0], parts[0][1..];
    assert [c] + first == parts[0];
    assert [[c] + first] + parts[1..] == parts;
    if |parts[0]| == 1 {
      if |parts| > 1 {
        JoinPrependPart(parts[0], parts[1..], "");
        assert [parts[0]] + parts[1..] == parts;
        assert s == parts[0] + Join(parts[1..], "");
        assert s[1..] == Join(parts[1..], "");
        assert s[1] == parts[1][0];
        SplitBeforeUpperOfJoin(parts[1..]);
        assert s[..1] == parts[0];
      }
    } else {
      JoinPrependChar(c, first, parts[1..], "");
      var tail := [first] + parts[1..];
      assert s[1..] == Join(tail, "");
      assert s[1] == first[0] == parts[0][1];
      assert IsBoundaryParts(tail) by {
        forall i, j | 0 <= i < |tail| && 0 < j < |tail[i]| ensures !IsUpper(tail[i][j]) {
          if i == 0 {
            assert tail[0][j] == parts[0][j + 1];
          } else {
            assert tail[i] == parts[i];
          }
        }
        forall i | 0 < i < |tail| ensures IsUpper(tail[i][0]) {
          assert tail[i] == parts[i];
        }
      }
      SplitBeforeUpperOfJoin(tail);
    }
  }
}
