/**
 * The uniform view of `src/lib.rs`. A value behind the `Pluralize` trait is
 * either one bare element (a primitive such as `i32` or `char`, or a tuple,
 * which the library reinterprets as a one-element array) or a `Vec` of
 * elements. `pluralize()` walks it read-only and `pluralize_mut()` hands out
 * one mutable reference per element; both walk the same ordered sequence.
 */
module Pluralize {

  /** Either one bare element or a vector of elements. */
  datatype Plural<T> = Single(x: T) | Many(s: seq<T>)

  /**
   * The elements `pluralize()` visits, in order. A bare value is never an
   * empty walk; only an empty vector is.
   */
  function View<T>(p: Plural<T>): (r: seq<T>)
    ensures p.Single? ==> |r| == 1
    ensures r == [] <==> p.Many? && p.s == []
  {
    match p
    case Single(x) => [x]
    case Many(s) => s
  }

  /**
   * Writing `v` through the `i`-th reference that `pluralize_mut()` hands out.
   * The mutable view changes one element and can neither grow nor shrink
   * the value, nor turn a bare value into a vector.
   */
  function SetAt<T>(p: Plural<T>, i: nat, v: T): (q: Plural<T>)
    requires i < |View(p)|
    ensures View(q) == View(p)[i := v]
    ensures |View(q)| == |View(p)|
    ensures q.Single? <==> p.Single?
  {
    match p
    case Single(_) => Single(v)
    case Many(s) => Many(s[i := v])
  }

  /** A vector is viewed as its own elements, in order; an empty one gives an empty walk. */
  lemma ViewOfVec<T>(s: seq<T>)
    ensures View(Many(s)) == s
    ensures |View(Many(s))| == |s|
    ensures s == [] ==> View(Many(s)) == []
  {
  }

  /** A bare primitive is viewed as a one-element sequence. */
  lemma ViewOfPrimitive(x: int)
    ensures View(Single(x)) == [x]
    ensures |View(Single(x))| == 1
  {
  }

  /** A tuple is one element of the walk, not a walk over its components. */
  lemma ViewOfTuple<A, B>(t: (A, B))
    ensures View(Single(t)) == [t]
    ensures |View(Single(t))| == 1
  {
  }

  /** Writing through the only reference of a bare value replaces that value. */
  lemma WriteThroughBare<T>(x: T, v: T)
    ensures SetAt(Single(x), 0, v) == Single(v)
    ensures View(SetAt(Single(x), 0, v)) == [v]
  {
  }
}
