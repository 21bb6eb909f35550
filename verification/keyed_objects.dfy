/**
 * A plain JavaScript object as an association list of its own enumerable
 * keys in enumeration order, and the one mutation the rewriter performs on
 * it: `obj[key] = value`, which overwrites the value in place when `key` is
 * already an own key and appends a new last key otherwise.
 */
module KeyedObjects {

  datatype Option<T> = None | Some(value: T)

  type Entries<V> = seq<(string, V)>

  function KeySeq<V>(es: Entries<V>): (ks: seq<string>)
    ensures |ks| == |es| && forall i :: 0 <= i < |es| ==> ks[i] == es[i].0
  {
    seq(|es|, i requires 0 <= i < |es| => es[i].0)
  }

  /** No key occurs twice: true of every object the host language builds. */
  predicate UniqueKeys<V>(es: Entries<V>)
  {
    forall i, j :: 0 <= i < j < |es| ==> es[i].0 != es[j].0
  }

  /** The position of `k` among the keys, if it is one. */
  function IndexOf<V>(es: Entries<V>, k: string): (r: Option<nat>)
    ensures r.None? <==> k !in KeySeq(es)
    ensures r.Some? ==> r.value < |es| && es[r.value].0 == k
    ensures r.Some? ==> forall i :: 0 <= i < r.value ==> es[i].0 != k
  {
    if |es| == 0 then None
    else if es[0].0 == k then Some(0)
    else
      assert forall i :: 0 < i < |es| ==> es[i] == es[1..][i - 1];
      match IndexOf(es[1..], k)
      case None => None
      case Some(i) => Some(i + 1)
  }

  /** `obj[k]`: the value stored under `k`, if `k` is a key. */
  function Lookup<V>(es: Entries<V>, k: string): (r: Option<V>)
    ensures r.None? <==> k !in KeySeq(es)
    ensures UniqueKeys(es) ==> forall i :: 0 <= i < |es| && es[i].0 == k ==> r == Some(es[i].1)
  {
    match IndexOf(es, k)
    case None => None
    case Some(i) => Some(es[i].1)
  }

  /** `obj[k] = v`: overwrite in place when `k` is a key, else append it last. */
  function Put<V>(es: Entries<V>, k: string, v: V): (r: Entries<V>)
  {
    match IndexOf(es, k)
    case Some(i) => es[i := (k, v)]
    case None => es + [(k, v)]
  }

  /** Assigning a key the object does not have appends it. */
  lemma PutAbsent<V>(es: Entries<V>, k: string, v: V)
    requires IndexOf(es, k) == None
    ensures Put(es, k, v) == es + [(k, v)]
  {
  }

  /** After `obj[k] = v`, `obj[k]` is `v` and every other key reads as before. */
  lemma PutLookup<V>(es: Entries<V>, k: string, v: V, k': string)
    ensures Lookup(Put(es, k, v), k') == if k' == k then Some(v) else Lookup(es, k')
  {
    var r := Put(es, k, v);
    match IndexOf(es, k)
    case Some(i) =>
      assert KeySeq(r) == KeySeq(es);
      IndexOfSameKeys(r, es, k');
    case None =>
      IndexOfExtend(es, (k, v), k');
  }

  /**
   * `obj[k] = v` leaves the key order alone when `k` is a key and adds `k`
   * last otherwise; it never creates a second entry for a key, and every
   * entry afterwards is an old one or `(k, v)`.
   */
  lemma PutKeys<V>(es: Entries<V>, k: string, v: V)
    ensures k in KeySeq(es) ==> KeySeq(Put(es, k, v)) == KeySeq(es)
    ensures k !in KeySeq(es) ==> KeySeq(Put(es, k, v)) == KeySeq(es) + [k]
    ensures UniqueKeys(es) ==> UniqueKeys(Put(es, k, v))
    ensures forall e :: e in Put(es, k, v) ==> e in es || e == (k, v)
  {
    var r := Put(es, k, v);
    match IndexOf(es, k)
    case Some(i) =>
      assert KeySeq(r) == KeySeq(es);
    case None =>
      assert KeySeq(r) == KeySeq(es) + [k];
      assert forall t :: 0 <= t < |es| ==> es[t].0 == KeySeq(es)[t];
  }

  /** The first position holding `k` is what `IndexOf` finds. */
  lemma IndexOfIs<V>(es: Entries<V>, k: string, i: nat)
    requires i < |es| && es[i].0 == k
    requires forall t :: 0 <= t < i ==> es[t].0 != k
    ensures IndexOf(es, k) == Some(i)
  {
    assert KeySeq(es)[i] == k;
    var m := IndexOf(es, k).value;
    assert es[m].0 == k;
  }

  /** A string that is no key is not found. */
  lemma IndexOfAbsent<V>(es: Entries<V>, k: string)
    requires forall t :: 0 <= t < |es| ==> es[t].0 != k
    ensures IndexOf(es, k) == None
  {
    assert forall t :: 0 <= t < |es| ==> KeySeq(es)[t] != k;
  }

  /** The position of a key depends on the keys alone. */
  lemma IndexOfSameKeys<V>(a: Entries<V>, b: Entries<V>, k: string)
    requires KeySeq(a) == KeySeq(b)
    ensures IndexOf(a, k) == IndexOf(b, k)
  {
    assert |a| == |b|;
    assert forall t :: 0 <= t < |a| ==> a[t].0 == KeySeq(b)[t] == b[t].0;
    match IndexOf(b, k)
    case Some(i) => IndexOfIs(a, k, i);
    case None => IndexOfAbsent(a, k);
  }

  /** Appending an entry does not move the keys already there. */
  lemma IndexOfExtend<V>(es: Entries<V>, e: (string, V), k: string)
    requires e.0 !in KeySeq(es)
    ensures IndexOf(es + [e], k) == if k == e.0 then Some(|es|) else IndexOf(es, k)
  {
    var r := es + [e];
    assert forall t :: 0 <= t < |es| ==> r[t] == es[t];
    assert forall t :: 0 <= t < |es| ==> es[t].0 == KeySeq(es)[t];
    match IndexOf(es, k)
    case Some(i) => IndexOfIs(r, k, i);
    case None =>
      if k == e.0 {
        IndexOfIs(r, k, |es|);
      } else {
        IndexOfAbsent(r, k);
      }
  }

  /**
   * The keys of `ks` without repetitions, each where it first occurs: the
   * enumeration order of an object built by assigning the keys `ks` in turn.
   */
  function Dedup(ks: seq<string>): (r: seq<string>)
    ensures forall x :: x in r <==> x in ks
    ensures forall i, j :: 0 <= i < j < |r| ==> r[i] != r[j]
    ensures forall i, j, q :: 0 <= i < j < |r| && 0 <= q < |ks| && ks[q] == r[j] ==> r[i] in ks[..q]
  {
    if |ks| == 0 then []
    else
      var n := |ks| - 1;
      var d := Dedup(ks[..n]);
      assert ks == ks[..n] + [ks[n]];
      assert forall q :: 0 <= q <= n ==> ks[..q] == ks[..n][..q];
      if ks[n] in d then d else d + [ks[n]]
  }

  /**
   * The object that assigning the entries `es` one after the other into an
   * empty object produces (the `reduce` of the rewriter).
   */
  function Build<V>(es: Entries<V>): (r: Entries<V>)
  {
    if |es| == 0 then []
    else
      var n := |es| - 1;
      Put(Build(es[..n]), es[n].0, es[n].1)
  }

  /** One more assignment: the last entry is put into the object built from the others. */
  lemma BuildStep<V>(es: Entries<V>)
    requires |es| > 0
    ensures Build(es) == Put(Build(es[..|es| - 1]), es[|es| - 1].0, es[|es| - 1].1)
  {
  }

  /** Assigning one more entry of a list: the prefix of length `i + 1` builds from the prefix of length `i`. */
  lemma BuildPrefixStep<V>(es: Entries<V>, i: nat)
    requires i < |es|
    ensures Build(es[..i + 1]) == Put(Build(es[..i]), es[i].0, es[i].1)
  {
    assert es[..i + 1][..i] == es[..i];
  }

  /**
   * The built object has each key once, has exactly the keys assigned, and
   * holds only assigned entries.
   */
  lemma {:induction false} BuildKeys<V>(es: Entries<V>)
    ensures UniqueKeys(Build(es))
    ensures forall k :: k in KeySeq(Build(es)) <==> k in KeySeq(es)
    ensures forall e :: e in Build(es) ==> e in es
  {
    if |es| > 0 {
      var n := |es| - 1;
      var prev := Build(es[..n]);
      BuildKeys(es[..n]);
      PutKeys(prev, es[n].0, es[n].1);
      assert es == es[..n] + [es[n]];
      assert KeySeq(es) == KeySeq(es[..n]) + [es[n].0];
    }
  }

  /** Last write wins: a key holds the value of its last assignment. */
  lemma {:induction false} BuildLastWriteWins<V>(es: Entries<V>, j: nat)
    requires j < |es|
    requires forall t :: j < t < |es| ==> es[t].0 != es[j].0
    ensures Lookup(Build(es), es[j].0) == Some(es[j].1)
  {
    var n := |es| - 1;
    var prefix := es[..n];
    BuildStep(es);
    PutLookup(Build(prefix), es[n].0, es[n].1, es[j].0);
    if j < n {
      assert prefix[j] == es[j];
      assert forall t :: j < t < |prefix| ==> prefix[t] == es[t];
      BuildLastWriteWins(prefix, j);
    }
  }

  /** An overwritten key keeps the place of its first assignment. */
  lemma {:induction false} BuildKeyOrder<V>(es: Entries<V>)
    ensures KeySeq(Build(es)) == Dedup(KeySeq(es))
  {
    if |es| > 0 {
      var n := |es| - 1;
      BuildKeyOrder(es[..n]);
      BuildKeys(es[..n]);
      PutKeys(Build(es[..n]), es[n].0, es[n].1);
      assert KeySeq(es)[..n] == KeySeq(es[..n]);
    }
  }

  /** Assigning distinct keys in turn rebuilds exactly the same entries. */
  lemma {:induction false} BuildDistinct<V>(es: Entries<V>)
    requires UniqueKeys(es)
    ensures Build(es) == es
  {
    if |es| > 0 {
      var n := |es| - 1;
      var prev := es[..n];
      assert UniqueKeys(prev);
      assert forall t :: 0 <= t < n ==> prev[t].0 != es[n].0;
      IndexOfAbsent(prev, es[n].0);
      calc {
        Build(es);
        { BuildStep(es); }
        Put(Build(prev), es[n].0, es[n].1);
        { BuildDistinct(prev); }
        Put(prev, es[n].0, es[n].1);
        { PutAbsent(prev, es[n].0, es[n].1); }
        prev + [es[n]];
        es;
      }
    }
  }

  /**
   * The fresh object the rewriter fills in, one `obj[key] = value` at a time.
   */
  class ObjectBuilder<V> {
    var entries: Entries<V>

    constructor ()
      ensures entries == []
    {
      entries := [];
    }

    /** `obj[key] = value`: overwrite an own key in place, else add it last. */
    method Set(key: string, value: V)
      modifies this
      ensures entries == Put(old(entries), key, value)
    {
      var i := 0;
      while i < |entries| && entries[i].0 != key
        invariant 0 <= i <= |entries|
        invariant forall t :: 0 <= t < i ==> entries[t].0 != key
      {
        i := i + 1;
      }
      if i < |entries| {
        assert IndexOf(entries, key) == Some(i);
        entries := entries[i := (key, value)];
      } else {
        assert key !in KeySeq(entries);
        entries := entries + [(key, value)];
      }
    }
  }
}
