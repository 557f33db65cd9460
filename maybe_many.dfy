/**
 * The `MaybeMany` wrapper of `tests/test.rs`: a value behind `Pluralize`
 * over `usize`, with a `map` that rewrites every element through the mutable
 * view and an equality that compares the read-only views.
 */
module MaybeManyTests {
  import opened Pluralize

  /** `Iterator::eq` on two walks: compared front to back, equal when both run out together. */
  function IterEq<T(==)>(a: seq<T>, b: seq<T>): (r: bool)
    ensures r ==> |a| == |b|
    ensures a == b ==> r
  {
    if a == [] || b == [] then a == [] && b == []
    else a[0] == b[0] && IterEq(a[1..], b[1..])
  }

  /** The walks are equal exactly when they have the same length and agree position by position. */
  lemma {:induction false} IterEqIff<T>(a: seq<T>, b: seq<T>)
    ensures IterEq(a, b) <==> |a| == |b| && forall i :: 0 <= i < |a| ==> a[i] == b[i]
    decreases |a|
  {
    if a != [] && b != [] {
      IterEqIff(a[1..], b[1..]);
      if |a| == |b| && forall i :: 0 <= i < |a| ==> a[i] == b[i] {
        assert forall i :: 0 <= i < |a[1..]| ==> a[1..][i] == a[i + 1];
      }
      if IterEq(a, b) {
        assert forall i :: 1 <= i < |a| ==> a[i] == a[1..][i - 1] && b[i] == b[1..][i - 1];
      }
    }
  }

  class MaybeMany {
    var data: Plural<nat>

    /** `MaybeMany::new(data)`. */
    constructor (data: Plural<nat>)
      ensures this.data == data
    {
      this.data := data;
    }

    /**
     * `map(f)`: every element `d` of the view becomes `f(d)`, each visited
     * once; a bare value stays bare and a vector keeps its length. `f` must
     * be defined on every element, as `usize` arithmetic must not overflow.
     */
    method Map(f: nat --> nat)
      requires forall i :: 0 <= i < |View(data)| ==> f.requires(View(data)[i])
      modifies this
      ensures data.Single? <==> old(data).Single?
      ensures |View(data)| == |View(old(data))|
      ensures forall i :: 0 <= i < |View(data)| ==> View(data)[i] == f(View(old(data))[i])
    {
      ghost var before := View(data);
      var i := 0;
      while i < |View(data)|
        invariant 0 <= i <= |View(data)| == |before|
        invariant data.Single? <==> old(data).Single?
        invariant forall j :: 0 <= j < i ==> View(data)[j] == f(before[j])
        invariant forall j :: i <= j < |before| ==> View(data)[j] == before[j]
      {
        data := SetAt(data, i, f(View(data)[i]));
        i := i + 1;
      }
    }
  }

  /** `PartialEq::eq`: the two values are equal exactly when their views are. */
  function Eq(a: MaybeMany, b: MaybeMany): (r: bool)
    reads a, b
    ensures r <==> View(a.data) == View(b.data)
  {
    IterEqIff(View(a.data), View(b.data));
    IterEq(View(a.data), View(b.data))
  }

  /** The closure `|x| { *x = *x - 20; }` of `test_eq`; `usize` subtraction must not underflow. */
  function LessTwenty(x: nat): (r: nat)
    requires x >= 20
    ensures r + 20 == x
  {
    x - 20
  }

  /**
   * The assertions of `test_eq`, in order: `assert_ne` on two bare values,
   * `assert_eq` on two equal bare values, `assert_ne` and `assert_eq` on
   * vectors, and `[40, 42]` unequal to `[20, 22]` until 20 is subtracted
   * from each of its elements.
   */
  method TestEq() returns (checks: seq<bool>)
    ensures checks == [true, true, true, true, true, true]
  {
    var singleA := new MaybeMany(Single(42));
    var singleB := new MaybeMany(Single(1));
    var manyA := new MaybeMany(Many([20, 22]));
    var manyB := new MaybeMany(Many([1]));
    var manyC := new MaybeMany(Many([40, 42]));
    var single42 := new MaybeMany(Single(42));
    var many2022 := new MaybeMany(Many([20, 22]));

    var c1 := !Eq(singleA, singleB);
    var c2 := Eq(singleA, single42);
    var c3 := !Eq(manyA, manyB);
    var c4 := Eq(manyA, many2022);
    var c5 := !Eq(manyA, manyC);
    manyC.Map(LessTwenty);
    var c6 := Eq(manyA, manyC);
    checks := [c1, c2, c3, c4, c5, c6];
  }
}
