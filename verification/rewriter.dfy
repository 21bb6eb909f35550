/**
 * The recursive key rewriter `transformKeys(transformation, object)`:
 * arrays are rebuilt element by element, anything whose `typeof` is not
 * `'object'` is returned as it is, and everything else (objects, and `null`,
 * which has no keys) is rebuilt into a fresh object by assigning
 * `newObj[transformation(key)] = transformKeys(transformation, value)` for
 * each own key in enumeration order.
 *
 * `KeysTransformed` is the specification as a function; the method
 * `TransformKeys` is the code, with its loop that fills the fresh object.
 */
module Rewriter {
  import opened KeyedObjects
  import opened Values

  /** The keys of `fs` under `f`, in order and with repetitions. */
  function MappedKeys(f: string -> string, fs: Entries<Value>): (ks: seq<string>)
    ensures |ks| == |fs| && forall i :: 0 <= i < |fs| ==> ks[i] == f(fs[i].0)
  {
    seq(|fs|, i requires 0 <= i < |fs| => f(fs[i].0))
  }

  function KeysTransformed(f: string -> string, v: Value): (r: Value)
    ensures v.Leaf? ==> r == v
    ensures v.Null? ==> r == Obj([])
    ensures r.Arr? <==> v.Arr?
    ensures v.Arr? ==> |r.items| == |v.items|
    ensures v.Obj? ==> r.Obj?
    decreases v, 1
  {
    match v
    case Arr(items) => Arr(seq(|items|, i requires 0 <= i < |items| => KeysTransformed(f, items[i])))
    case Obj(fs) => Obj(Build(Renamed(f, fs)))
    case Null => Obj([])
    case Leaf(_) => v
  }

  /** Each entry with its key renamed and its value rewritten, before assignment. */
  function Renamed(f: string -> string, fs: Entries<Value>): (es: Entries<Value>)
    ensures |es| == |fs|
    ensures forall i :: 0 <= i < |fs| ==> es[i].0 == f(fs[i].0)
    ensures forall i :: 0 <= i < |fs| ==> es[i].1 == KeysTransformed(f, fs[i].1)
    decreases Obj(fs), 0
  {
    seq(|fs|, i requires 0 <= i < |fs| => (f(fs[i].0), KeysTransformed(f, fs[i].1)))
  }

  /**
   * The rewritten object has each key once, and its keys are exactly the
   * original keys under `f`.
   */
  lemma ObjectKeys(f: string -> string, fs: Entries<Value>)
    ensures UniqueKeys(KeysTransformed(f, Obj(fs)).fields)
    ensures forall k :: k in KeySeq(KeysTransformed(f, Obj(fs)).fields) <==> k in MappedKeys(f, fs)
  {
    BuildKeys(Renamed(f, fs));
    assert KeySeq(Renamed(f, fs)) == MappedKeys(f, fs);
  }

  /** The rewritten array holds the rewritten elements, in the same order. */
  lemma ArrayElementwise(f: string -> string, items: seq<Value>, i: nat)
    requires i < |items|
    ensures KeysTransformed(f, Arr(items)).items[i] == KeysTransformed(f, items[i])
  {
  }

  /** Keys of the rebuilt object are placed where they were first assigned. */
  lemma ObjectKeyOrder(f: string -> string, fs: Entries<Value>)
    ensures KeySeq(KeysTransformed(f, Obj(fs)).fields) == Dedup(MappedKeys(f, fs))
  {
    BuildKeyOrder(Renamed(f, fs));
    assert KeySeq(Renamed(f, fs)) == MappedKeys(f, fs);
  }

  /**
   * Last write wins: a new key holds the rewritten value of the last
   * original key that is renamed to it.
   */
  lemma LastWriteWins(f: string -> string, fs: Entries<Value>, j: nat)
    requires j < |fs|
    requires forall t :: j < t < |fs| ==> f(fs[t].0) != f(fs[j].0)
    ensures Lookup(KeysTransformed(f, Obj(fs)).fields, f(fs[j].0)) == Some(KeysTransformed(f, fs[j].1))
  {
    var es := Renamed(f, fs);
    assert es[j] == (f(fs[j].0), KeysTransformed(f, fs[j].1));
    BuildLastWriteWins(es, j);
  }

  /** `f` sends distinct keys of `fs` to distinct keys. */
  predicate InjectiveOnKeys(f: string -> string, fs: Entries<Value>)
  {
    forall i, j :: 0 <= i < |fs| && 0 <= j < |fs| && f(fs[i].0) == f(fs[j].0) ==> fs[i].0 == fs[j].0
  }

  /**
   * Without collisions nothing is overwritten: the object keeps its entry
   * count, and entry `i` is the `i`-th key renamed with its value rewritten.
   */
  lemma InjectiveKeepsEntries(f: string -> string, fs: Entries<Value>)
    requires UniqueKeys(fs) && InjectiveOnKeys(f, fs)
    ensures |KeysTransformed(f, Obj(fs)).fields| == |fs|
    ensures forall i :: 0 <= i < |fs| ==>
      KeysTransformed(f, Obj(fs)).fields[i] == (f(fs[i].0), KeysTransformed(f, fs[i].1))
  {
    var es := Renamed(f, fs);
    assert UniqueKeys(es);
    BuildDistinct(es);
  }

  /** Transforms that agree on every key that occurs give the same result. */
  lemma {:induction false} AgreeingTransforms(f: string -> string, g: string -> string, v: Value)
    requires EveryKey(v, k => f(k) == g(k))
    ensures KeysTransformed(f, v) == KeysTransformed(g, v)
  {
    match v
    case Arr(items) =>
      forall i | 0 <= i < |items| ensures KeysTransformed(f, items[i]) == KeysTransformed(g, items[i]) {
        AgreeingTransforms(f, g, items[i]);
      }
    case Obj(fs) =>
      forall i | 0 <= i < |fs| ensures Renamed(f, fs)[i] == Renamed(g, fs)[i] {
        AgreeingTransforms(f, g, fs[i].1);
      }
      assert Renamed(f, fs) == Renamed(g, fs);
    case Null =>
    case Leaf(_) =>
  }

  /** Every key of the result is a value of `f`, so it has every property all values of `f` have. */
  lemma {:induction false} KeysInImage(f: string -> string, v: Value, p: string -> bool)
    requires forall k :: p(f(k))
    ensures EveryKey(KeysTransformed(f, v), p)
  {
    match v
    case Arr(items) =>
      forall i | 0 <= i < |items| ensures EveryKey(KeysTransformed(f, items[i]), p) {
        KeysInImage(f, items[i], p);
      }
    case Obj(fs) =>
      var es := Renamed(f, fs);
      var out := Build(es);
      BuildKeys(es);
      forall i | 0 <= i < |out| ensures p(out[i].0) && EveryKey(out[i].1, p) {
        assert out[i] in es;
        var j :| 0 <= j < |es| && out[i] == es[j];
        KeysInImage(f, fs[j].1, p);
      }
    case Null =>
    case Leaf(_) =>
  }

  /** The result is an object graph the host language can hold: no key twice in any object. */
  lemma {:induction false} TransformedWellFormed(f: string -> string, v: Value)
    ensures WellFormed(KeysTransformed(f, v))
  {
    match v
    case Arr(items) =>
      forall i | 0 <= i < |items| ensures WellFormed(KeysTransformed(f, items[i])) {
        TransformedWellFormed(f, items[i]);
      }
    case Obj(fs) =>
      var es := Renamed(f, fs);
      var out := Build(es);
      BuildKeys(es);
      forall i | 0 <= i < |out| ensures WellFormed(out[i].1) {
        assert out[i] in es;
        var j :| 0 <= j < |es| && out[i] == es[j];
        TransformedWellFormed(f, fs[j].1);
      }
    case Null =>
    case Leaf(_) =>
  }

  /**
   * Renaming with `f` and then with `g` gives the value back when `g` undoes
   * `f` on every key that occurs, no object repeats a key, and no `null`
   * occurs (`null` comes back as `{}`).
   */
  lemma {:induction false} RoundTrip(f: string -> string, g: string -> string, v: Value)
    requires WellFormed(v) && NullFree(v)
    requires EveryKey(v, k => g(f(k)) == k)
    ensures KeysTransformed(g, KeysTransformed(f, v)) == v
  {
    match v
    case Arr(items) =>
      var mid := KeysTransformed(f, v).items;
      forall i | 0 <= i < |items| ensures KeysTransformed(g, mid[i]) == items[i] {
        RoundTrip(f, g, items[i]);
      }
    case Obj(fs) =>
      assert InjectiveOnKeys(f, fs) by {
        forall i, j | 0 <= i < |fs| && 0 <= j < |fs| && f(fs[i].0) == f(fs[j].0)
          ensures fs[i].0 == fs[j].0
        {
          assert g(f(fs[i].0)) == fs[i].0 && g(f(fs[j].0)) == fs[j].0;
        }
      }
      InjectiveKeepsEntries(f, fs);
      var mid := KeysTransformed(f, v).fields;
      ObjectKeys(f, fs);
      assert InjectiveOnKeys(g, mid) by {
        forall i, j | 0 <= i < |mid| && 0 <= j < |mid| && g(mid[i].0) == g(mid[j].0)
          ensures mid[i].0 == mid[j].0
        {
          assert g(mid[i].0) == fs[i].0 && g(mid[j].0) == fs[j].0;
        }
      }
      InjectiveKeepsEntries(g, mid);
      forall i | 0 <= i < |fs| ensures KeysTransformed(g, Obj(mid)).fields[i] == fs[i] {
        RoundTrip(f, g, fs[i].1);
      }
    case Leaf(_) =>
  }

  /**
   * `transformKeys`: arrays are mapped, values whose `typeof` is not
   * `'object'` are returned, and the rest (objects, and `null`, which has no
   * keys) are rebuilt into a fresh object.
   */
  method TransformKeys(f: string -> string, v: Value) returns (r: Value)
    ensures r == KeysTransformed(f, v)
    decreases v, 1
  {
    if v.Arr? {
      r := TransformItems(f, v);
    } else if v.Leaf? {
      r := v;
    } else {
      r := TransformFields(f, v);
    }
  }

  /** The array branch: `map(object, transformKeys(transformation))`. */
  method TransformItems(f: string -> string, v: Value) returns (r: Value)
    requires v.Arr?
    ensures r == KeysTransformed(f, v)
    decreases v, 0
  {
    var items := v.items;
    var out: seq<Value> := [];
    for i := 0 to |items|
      invariant |out| == i
      invariant forall t :: 0 <= t < i ==> out[t] == KeysTransformed(f, items[t])
    {
      var e := TransformKeys(f, items[i]);
      out := out + [e];
    }
    r := Arr(out);
  }

  /**
   * The object branch: `reduce` over the own keys (none for `null`), each
   * step assigning `newObj[transformation(key)] = transformKeys(transformation, value)`.
   */
  method TransformFields(f: string -> string, v: Value) returns (r: Value)
    requires v.Obj? || v.Null?
    ensures r == KeysTransformed(f, v)
    decreases v, 0
  {
    var fs := if v.Obj? then v.fields else [];
    ghost var es := Renamed(f, fs);
    var newObj := new ObjectBuilder<Value>();
    for i := 0 to |fs|
      invariant newObj.entries == Build(es[..i])
    {
      var newKey := f(fs[i].0);
      var newValue := TransformKeys(f, fs[i].1);
      newObj.Set(newKey, newValue);
      BuildPrefixStep(es, i);
    }
    assert es[..|fs|] == es;
    r := Obj(newObj.entries);
  }
}
