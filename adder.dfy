/**
 * The `Adder` cursor of `src/iter.rs`. Each `next()` hands the caller the
 * shared `AddController`; a value the caller `add`s through it is pushed onto
 * the underlying vector at the following `next()`. A step that finds nothing
 * pending ends the iteration. Over a bare value the cursor yields nothing.
 */
module Adders {
  import opened Wrappers
  import opened Pluralize

  /** The state one `next()` reads and writes: the borrowed collection, the controller's cell and `first_run`. */
  datatype AddState<T> = AddState(collection: Plural<T>, pending: Option<T>, firstRun: bool)

  /**
   * One call of `next()`: the new state, and whether a controller was
   * yielded. A step that yields nothing changes nothing; a bare value never
   * yields; a yielding step after the first pushes the pending value and
   * empties the cell.
   */
  function AddStep<T>(st: AddState<T>): (r: (AddState<T>, bool))
    ensures !r.1 ==> r.0 == st
    ensures st.collection.Single? ==> !r.1
    ensures r.0.collection.Many? <==> st.collection.Many?
    ensures r.1 ==> !r.0.firstRun
    ensures r.1 && !st.firstRun ==>
              st.pending.Some? && r.0.pending.None? &&
              View(r.0.collection) == View(st.collection) + [st.pending.value]
  {
    match st.collection
    case Single(_) => (st, false)
    case Many(s) =>
      if st.firstRun then (st.(firstRun := false), true)
      else
        match st.pending
        case None => (st, false)
        case Some(v) => (st.(collection := Many(s + [v]), pending := None), true)
  }

  /**
   * A caller's loop over an `Adder`. After the k-th controller it is handed,
   * the caller leaves `plan[k]` in the cell: `Some(v)` after `add(v)`, `None`
   * after `clear()` or after no call at all (the step before cleared it).
   * The loop ends when `next()` returns `None`, or when the plan is used up
   * and the caller stops pulling. Gives the final state and the number of
   * controllers yielded.
   */
  function Drive<T>(st: AddState<T>, plan: seq<Option<T>>): (AddState<T>, nat)
    decreases |plan|
  {
    var (st', yielded) := AddStep(st);
    if !yielded then (st', 0)
    else if plan == [] then (st', 1)
    else
      var (fin, n) := Drive(st'.(pending := plan[0]), plan[1..]);
      (fin, n + 1)
  }

  /** The values of the longest prefix of `plan` in which every entry is `Some`. */
  function Added<T>(plan: seq<Option<T>>): seq<T>
  {
    if plan == [] || plan[0].None? then [] else [plan[0].value] + Added(plan[1..])
  }

  /** Over a vector, a step that yields nothing leaves the cell empty, so the next step yields nothing and changes nothing. */
  lemma NoneIsFinal<T>(st: AddState<T>)
    requires st.collection.Many? && !AddStep(st).1
    ensures AddStep(st).0.pending == None
    ensures AddStep(AddStep(st).0) == (AddStep(st).0, false)
  {
  }

  /** Once running, a vector receives exactly the values added before the first step with nothing pending. */
  lemma {:induction false} DriveRunning<T>(s: seq<T>, d: Option<T>, rest: seq<Option<T>>)
    ensures Drive(AddState(Many(s), d, false), rest)
         == (AddState(Many(s + Added([d] + rest)), None, false), |Added([d] + rest)|)
    decreases |rest|
  {
    match d
    case None =>
      assert ([d] + rest)[0] == d;
      assert s + Added([d] + rest) == s;
    case Some(v) =>
      assert Added([d] + rest) == [v] + Added(rest) by {
        assert ([d] + rest)[1..] == rest;
      }
      if rest == [] {
        assert s + ([v] + Added(rest)) == s + [v];
      } else {
        DriveRunning(s + [v], rest[0], rest[1..]);
        assert [rest[0]] + rest[1..] == rest;
        assert s + [v] + Added(rest) == s + ([v] + Added(rest));
      }
  }

  /**
   * A whole iteration over a vector `s`: the first step only hands out the
   * controller; the values are pushed in the order they were added (the last
   * added is last in the vector); the cursor yields one controller more than
   * the values it pushes, and it leaves the cell empty.
   */
  lemma {:induction false} AdderOverVec<T>(s: seq<T>, plan: seq<Option<T>>)
    ensures Drive(AddState(Many(s), None, true), plan)
         == (AddState(Many(s + Added(plan)), None, false), |Added(plan)| + 1)
  {
    if plan == [] {
      assert s + Added(plan) == s;
    } else {
      DriveRunning(s, plan[0], plan[1..]);
      assert [plan[0]] + plan[1..] == plan;
    }
  }

  /** Over a bare value `next()` never yields, whatever the caller plans, and the value never changes. */
  lemma AdderOverBare<T>(x: T, pending: Option<T>, firstRun: bool, plan: seq<Option<T>>)
    ensures Drive(AddState(Single(x), pending, firstRun), plan) == (AddState(Single(x), pending, firstRun), 0)
  {
  }

  /** The handle through which a caller schedules one addition between two steps. */
  class AddController<T> {
    var cell: Option<T>

    /** `AddController::new()`: nothing pending. */
    constructor ()
      ensures cell == None
    {
      cell := None;
    }

    /** `add(d)`: `d` is pushed at the next step; whatever was pending before is overwritten (last write wins). */
    method Add(d: T)
      modifies this
      ensures cell == Some(d)
    {
      cell := Some(d);
    }

    /** `clear()`: nothing pending; on an already empty controller the state is unchanged. */
    method Clear()
      modifies this
      ensures cell == None
      ensures old(cell) == None ==> cell == old(cell)
    {
      cell := None;
    }

    /** `_replace(d)`: store `d` and return what was pending. */
    method Replace(d: Option<T>) returns (prev: Option<T>)
      modifies this
      ensures prev == old(cell) && cell == d
    {
      prev := cell;
      cell := d;
    }
  }

  /** The `Adder` cursor; `collection` is the value it borrows mutably, read back when the borrow ends. */
  class Adder<T> {
    var collection: Plural<T>
    const controller: AddController<T>
    var firstRun: bool

    function State(): AddState<T>
      reads this, controller
    {
      AddState(collection, controller.cell, firstRun)
    }

    /** `Adder::new(collection)`: a fresh controller with nothing pending, and `first_run` set. */
    constructor (collection: Plural<T>)
      ensures this.collection == collection && firstRun
      ensures fresh(controller) && controller.cell == None
    {
      this.collection := collection;
      this.firstRun := true;
      this.controller := new AddController();
    }

    /** `next()`, for both the `Vec<T>` and the bare `T` implementation. */
    method Next() returns (r: Option<AddController<T>>)
      modifies this, controller
      ensures (State(), r.Some?) == AddStep(old(State()))
      ensures r.Some? ==> r.value == controller
      // over a bare value: nothing is yielded and nothing changes
      ensures old(collection).Single? ==> r == None && State() == old(State())
      // the first step over a vector yields and leaves the vector as it was
      ensures old(collection).Many? && old(firstRun) ==>
                r.Some? && collection == old(collection) && !firstRun && controller.cell == old(controller.cell)
      // a later step pushes the pending value and clears the cell, or yields nothing
      ensures old(collection).Many? && !old(firstRun) ==>
                !firstRun && controller.cell == None &&
                match old(controller.cell)
                case Some(v) => r.Some? && View(collection) == View(old(collection)) + [v]
                case None => r == None && collection == old(collection)
    {
      match collection
      case Single(_) =>
        r := None;
      case Many(s) =>
        if !firstRun {
          var directive := controller.Replace(None);
          if directive.None? {
            return None;
          }
          collection := Many(s + [directive.value]);
        } else {
          firstRun := false;
        }
        r := Some(controller);
    }
  }

  /**
   * The documented way to grow a vector with an `Adder`: `add` the next value
   * on each controller handed out and, once there is none left, do nothing,
   * which ends the loop at the following step.
   */
  method PushAll<T>(s: seq<T>, vs: seq<T>) returns (r: seq<T>, steps: nat)
    ensures r == s + vs
    ensures steps == |vs| + 1
  {
    var adder := new Adder(Many(s));
    var c := adder.Next();
    steps := 1;
    var i := 0;
    while c.Some?
      invariant fresh(adder) && fresh(adder.controller)
      invariant 0 <= i <= |vs|
      invariant adder.collection == Many(s + vs[..i]) && !adder.firstRun
      invariant c.Some? ==> c.value == adder.controller && adder.controller.cell == None
      invariant c.None? ==> i == |vs|
      invariant steps == i + 1
      decreases |vs| - i, c.Some?
    {
      if i < |vs| {
        c.value.Add(vs[i]);
        assert vs[..i + 1] == vs[..i] + [vs[i]];
        i := i + 1;
      }
      c := adder.Next();
      if c.Some? {
        steps := steps + 1;
      }
    }
    assert vs[..i] == vs;
    r := View(adder.collection);
  }
}
