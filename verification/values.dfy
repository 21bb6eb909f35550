/**
 * The values the rewriter walks: what `typeof` and `Array.isArray` tell
 * apart in the host language.
 */
module Values {
  import opened KeyedObjects

  /**
   * Everything whose `typeof` is not `'object'`: undefined, booleans,
   * numbers, strings, and the rest (functions, symbols, bigints) as opaque
   * tokens. Numbers are opaque; no arithmetic is done on them.
   */
  datatype Scalar =
    | Undefined
    | Bool(b: bool)
    | Number(x: real)
    | Str(s: string)
    | Opaque(id: nat)

  /**
   * `Null` is kept apart from the scalars because `typeof null` is
   * `'object'`. `Obj` lists the own enumerable keys in enumeration order.
   * Any non-array, non-null value whose `typeof` is `'object'` is an `Obj`, including a
   * `Date` (no own keys) or a class instance.
   */
  datatype Value =
    | Leaf(scalar: Scalar)
    | Null
    | Arr(items: seq<Value>)
    | Obj(fields: Entries<Value>)

  /** Every object, at every depth, has each key at most once. */
  predicate WellFormed(v: Value)
  {
    match v
    case Arr(items) => forall i :: 0 <= i < |items| ==> WellFormed(items[i])
    case Obj(fs) => UniqueKeys(fs) && forall i :: 0 <= i < |fs| ==> WellFormed(fs[i].1)
    case _ => true
  }

  /** No `null` occurs anywhere in the value. */
  predicate NullFree(v: Value)
  {
    match v
    case Null => false
    case Arr(items) => forall i :: 0 <= i < |items| ==> NullFree(items[i])
    case Obj(fs) => forall i :: 0 <= i < |fs| ==> NullFree(fs[i].1)
    case Leaf(_) => true
  }

  /** Every key of every object, at every depth, satisfies `p`. */
  predicate EveryKey(v: Value, p: string -> bool)
  {
    match v
    case Arr(items) => forall i :: 0 <= i < |items| ==> EveryKey(items[i], p)
    case Obj(fs) => forall i :: 0 <= i < |fs| ==> p(fs[i].0) && EveryKey(fs[i].1, p)
    case _ => true
  }

  /** A key property that follows from another holds wherever the other does. */
  lemma {:induction false} EveryKeyWeaken(v: Value, p: string -> bool, q: string -> bool)
    requires EveryKey(v, p)
    requires forall k :: p(k) ==> q(k)
    ensures EveryKey(v, q)
  {
    match v
    case Arr(items) =>
      forall i | 0 <= i < |items| ensures EveryKey(items[i], q) {
        EveryKeyWeaken(items[i], p, q);
      }
    case Obj(fs) =>
      forall i | 0 <= i < |fs| ensures EveryKey(fs[i].1, q) {
        EveryKeyWeaken(fs[i].1, p, q);
      }
    case _ =>
  }

  /** A property of all strings holds of every key. */
  lemma {:induction false} EveryKeyOfAll(v: Value, p: string -> bool)
    requires forall k :: p(k)
    ensures EveryKey(v, p)
  {
    match v
    case Arr(items) =>
      forall i | 0 <= i < |items| ensures EveryKey(items[i], p) {
        EveryKeyOfAll(items[i], p);
      }
    case Obj(fs) =>
      forall i | 0 <= i < |fs| ensures EveryKey(fs[i].1, p) {
        EveryKeyOfAll(fs[i].1, p);
      }
    case _ =>
  }
}
