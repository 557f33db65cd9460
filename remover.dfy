/**
 * The `Remover` cursor of `src/iter.rs`. It walks the elements of a value
 * behind `Pluralize` with a position `ptr` and an end `end`, and hands out the
 * shared `RemoveController` with a mutable reference to each element. An
 * element flagged with `remove()` is deleted from the vector at the next step,
 * before the following element is handed out. Over a bare value a removal is
 * a fatal error.
 *
 * Positions are indices into the view, the base being index 0; the source's
 * raw pointers and their arithmetic are not modelled.
 */
module Removers {
  import opened Pluralize

  datatype RemoveCmd = Remove | Pass

  /** What one call of `next()` produces. */
  datatype Outcome =
    | Yielded(index: nat)  // `Some((controller, &mut element[index]))`
    | Finished             // `None`
    | Fatal                // a panic: `unimplemented!` over a bare value, or an index that does not exist

  /** The state one `next()` reads and writes: the borrowed collection, `ptr`, `end` and the controller's flag. */
  datatype RemoveState<T> = RemoveState(collection: Plural<T>, ptr: nat, end: nat, cmd: RemoveCmd)

  /** The cursor invariant: `ptr` lies within `[0, end]`, and `end` is the current number of elements. */
  predicate RemoveValid<T>(st: RemoveState<T>)
  {
    st.ptr <= st.end == |View(st.collection)|
  }

  /** Hand out the element at `ptr` and advance, or stop once `ptr` reaches `end`. */
  function Advance<T>(st: RemoveState<T>): (RemoveState<T>, Outcome)
  {
    if st.ptr == st.end then (st, Finished) else (st.(ptr := st.ptr + 1), Yielded(st.ptr))
  }

  /**
   * One call of `next()`, with the position and the end both stepping back
   * when the element just handed out is deleted. The cursor invariant is
   * kept and the element handed out is the one just behind the new position.
   */
  function RemoveStep<T>(st: RemoveState<T>): (r: (RemoveState<T>, Outcome))
    requires RemoveValid(st)
    ensures RemoveValid(r.0) && r.0.cmd == Pass
    ensures r.1.Yielded? ==> r.1.index + 1 == r.0.ptr
  {
    var reset := st.(cmd := Pass);
    match st.cmd
    case Pass => Advance(reset)
    case Remove =>
      match st.collection
      case Single(_) => (reset, Fatal)
      case Many(s) =>
        if st.ptr == 0 then (reset, Fatal)
        else
          var idx := st.ptr - 1;
          Advance(reset.(collection := Many(s[..idx] + s[idx + 1..]), ptr := st.ptr - 1, end := st.end - 1))
  }

  /**
   * What one step does. The flag is always reset. A removal over a bare
   * value, or before anything was handed out, panics and changes nothing
   * else. Otherwise a removal deletes exactly the element handed out last
   * and keeps the others in order, and without one the collection is
   * unchanged. Either way the element handed out next is the one that stood
   * at `ptr` before the step, and the walk finishes exactly when there was
   * none.
   */
  lemma RemoveStepSpec<T>(st: RemoveState<T>)
    requires RemoveValid(st)
    ensures var (st', out) := RemoveStep(st);
      && st'.cmd == Pass
      && (st'.collection.Single? <==> st.collection.Single?)
      && (out.Fatal? <==> st.cmd == Remove && (st.collection.Single? || st.ptr == 0))
      && (out.Fatal? ==> st' == st.(cmd := Pass))
      && (st.cmd == Pass ==> st'.collection == st.collection)
      && (st.cmd == Remove && st.collection.Many? && 0 < st.ptr ==>
            View(st'.collection) == View(st.collection)[..st.ptr - 1] + View(st.collection)[st.ptr..] &&
            st'.end == st.end - 1)
      && (!out.Fatal? ==> (out.Finished? <==> st.ptr == st.end))
      && (out.Yielded? ==> View(st'.collection)[out.index] == View(st.collection)[st.ptr])
  {
  }

  /**
   * `next()` exactly as the source writes it: the results of `end.sub(1)` and
   * `ptr.sub(1)` are discarded, so neither moves after a removal. `Vec::remove`
   * still panics on an index past the end, so this step is total. The flag is
   * reset, `end` never moves, and `ptr` never steps back.
   */
  function RemoveStepAsWritten<T>(st: RemoveState<T>): (r: (RemoveState<T>, Outcome))
    ensures r.0.cmd == Pass && r.0.end == st.end
    ensures r.1.Yielded? ==> r.1.index == st.ptr && r.0.ptr == st.ptr + 1
    ensures !r.1.Yielded? ==> r.0.ptr == st.ptr
  {
    var reset := st.(cmd := Pass);
    match st.cmd
    case Pass => Advance(reset)
    case Remove =>
      match st.collection
      case Single(_) => (reset, Fatal)
      case Many(s) =>
        if st.ptr == 0 || st.ptr - 1 >= |s| then (reset, Fatal)
        else Advance(reset.(collection := Many(s[..st.ptr - 1] + s[st.ptr..])))
  }

  /**
   * As written, a removal leaves `end` one past the number of elements, so
   * the cursor invariant is lost at the first removal.
   */
  lemma AsWrittenBreaksInvariant<T>(st: RemoveState<T>)
    requires RemoveValid(st) && st.cmd == Remove && st.collection.Many? && 0 < st.ptr
    ensures RemoveStepAsWritten(st).0.end == |View(RemoveStepAsWritten(st).0.collection)| + 1
    ensures !RemoveValid(RemoveStepAsWritten(st).0)
  {
  }

  /**
   * Over `[10, 20, 30]`, after 10 and 20 were handed out and 20 was flagged:
   * as written, the next step hands out position 2 of the two-element vector
   * `[10, 30]`, past its length, and the step after finishes. The live 30,
   * now at index 1, is never handed out; position 2 is a stale slot, so a
   * write through it is lost and flagging it makes the next step panic. The
   * corrected step hands out 30, at position 1.
   */
  lemma AsWrittenSkipsShiftedElement()
    ensures var st := RemoveState(Many([10, 20, 30]), 2, 3, Remove);
            var (after, out) := RemoveStepAsWritten(st);
            View(after.collection) == [10, 30] && out == Yielded(2) && out.index >= |View(after.collection)|
            && RemoveStepAsWritten(after).1 == Finished
            && RemoveStepAsWritten(after.(cmd := Remove)).1 == Fatal
    ensures var st := RemoveState(Many([10, 20, 30]), 2, 3, Remove);
            var (after, out) := RemoveStep(st);
            View(after.collection) == [10, 30] && out == Yielded(1) && View(after.collection)[1] == 30
            && RemoveStep(after).1 == Finished
  {
  }

  /** What a decision leaves of the element it is about. */
  function KeepIf<T>(c: RemoveCmd, x: T): seq<T>
  {
    match c
    case Remove => []
    case Pass => [x]
  }

  /** The elements of `s` whose decision is `Pass`, in order. */
  function Kept<T>(s: seq<T>, cmds: seq<RemoveCmd>): seq<T>
    requires |s| <= |cmds|
  {
    if s == [] then [] else KeepIf(cmds[0], s[0]) + Kept(s[1..], cmds[1..])
  }

  /** With no removal decided, every element is kept. */
  lemma {:induction false} KeptAllPass<T>(s: seq<T>, cmds: seq<RemoveCmd>)
    requires |s| <= |cmds|
    requires forall i :: 0 <= i < |cmds| ==> cmds[i] == Pass
    ensures Kept(s, cmds) == s
    decreases |s|
  {
    if s != [] {
      KeptAllPass(s[1..], cmds[1..]);
      assert [s[0]] + s[1..] == s;
    }
  }

  /** Removing exactly the `i`-th element keeps the others in order. */
  lemma {:induction false} KeptOneRemoved<T>(s: seq<T>, cmds: seq<RemoveCmd>, i: nat)
    requires i < |s| <= |cmds|
    requires forall j :: 0 <= j < |cmds| ==> (cmds[j] == Remove <==> j == i)
    ensures Kept(s, cmds) == s[..i] + s[i + 1..]
    decreases |s|
  {
    if i == 0 {
      KeptAllPass(s[1..], cmds[1..]);
    } else {
      KeptOneRemoved(s[1..], cmds[1..], i - 1);
      assert [s[0]] + s[1..][..i - 1] == s[..i];
      assert s[1..][i - 1 + 1..] == s[i + 1..];
    }
  }

  /** Deciding on one more element extends what the decided prefix keeps. */
  lemma {:induction false} KeptSnoc<T>(s: seq<T>, cmds: seq<RemoveCmd>, i: nat)
    requires i < |s| <= |cmds|
    ensures Kept(s[..i + 1], cmds) == Kept(s[..i], cmds) + KeepIf(cmds[i], s[i])
    decreases i
  {
    if i == 0 {
      assert s[..1] == [s[0]] && s[..1][1..] == [];
    } else {
      KeptSnoc(s[1..], cmds[1..], i - 1);
      assert s[..i + 1][1..] == s[1..][..i];
      assert s[..i][1..] == s[1..][..i - 1];
      assert s[..i + 1][0] == s[..i][0] == s[0];
    }
  }

  /**
   * Sequence concatenation regrouped. Stated once as a lemma so that the
   * induction in `RunFromCurrent` sees only this instance, not the solver's
   * general search for regroupings.
   */
  lemma ConcatAssoc<T>(a: seq<T>, b: seq<T>, c: seq<T>)
    ensures a + b + c == a + (b + c)
  {
  }

  /** What a caller's loop over a `Remover` saw: the final state, the positions and elements handed out, and the last outcome. */
  datatype RunResult<T> = RunResult(final: RemoveState<T>, indices: seq<nat>, visited: seq<T>, last: Outcome)

  /**
   * A caller's loop over a `Remover`: after the k-th element it is handed,
   * the caller leaves `cmds[k]` in the controller (`remove()` or `pass()`, no
   * call meaning `Pass`). The loop ends when `next()` returns `None` or
   * panics, or when the caller has no decision left and stops pulling.
   */
  function RemoveRun<T>(st: RemoveState<T>, cmds: seq<RemoveCmd>): RunResult<T>
    requires RemoveValid(st)
    decreases |cmds|
  {
    var (st', out) := RemoveStep(st);
    if !out.Yielded? then RunResult(st', [], [], out)
    else
      var x := View(st'.collection)[out.index];
      if cmds == [] then RunResult(st', [out.index], [x], out)
      else
        var rest := RemoveRun(st'.(cmd := cmds[0]), cmds[1..]);
        RunResult(rest.final, [out.index] + rest.indices, [x] + rest.visited, rest.last)
  }

  /** The state in which `x` has just been handed out, after the prefix `k` and before `rest`, with decision `c` on it. */
  function AtCurrent<T>(k: seq<T>, x: T, rest: seq<T>, c: RemoveCmd): (st: RemoveState<T>)
    ensures RemoveValid(st)
  {
    RemoveState(Many(k + [x] + rest), |k| + 1, |k| + 1 + |rest|, c)
  }

  /** One step from `AtCurrent`: the decision on `x` is applied and `y` is handed out next. */
  lemma StepFromCurrent<T>(k: seq<T>, x: T, y: T, rest: seq<T>, c: RemoveCmd)
    ensures RemoveStep(AtCurrent(k, x, [y] + rest, c))
         == (AtCurrent(k + KeepIf(c, x), y, rest, Pass), Yielded(|k + KeepIf(c, x)|))
  {
    var st := AtCurrent(k, x, [y] + rest, c);
    var s := k + [x] + ([y] + rest);
    match c
    case Remove =>
      assert s[..|k|] == k;
      assert s[|k| + 1..] == [y] + rest;
      var gone := st.(cmd := Pass, collection := Many(k + ([y] + rest)), ptr := |k|, end := |k| + 1 + |rest|);
      assert RemoveStep(st) == Advance(gone);
      assert k + KeepIf(c, x) == k;
      assert k + ([y] + rest) == k + [y] + rest;
    case Pass =>
      assert RemoveStep(st) == Advance(st.(cmd := Pass));
      assert s == (k + [x]) + [y] + rest;
  }

  /** The last step from `AtCurrent`: the decision on `x` is applied and the walk finishes. */
  lemma LastStepFromCurrent<T>(k: seq<T>, x: T, c: RemoveCmd)
    ensures var left := k + KeepIf(c, x);
            RemoveStep(AtCurrent(k, x, [], c)) == (RemoveState(Many(left), |left|, |left|, Pass), Finished)
  {
    var st := AtCurrent(k, x, [], c);
    var s := k + [x] + [];
    match c
    case Remove =>
      assert s[..|k|] + s[|k| + 1..] == k;
      var gone := st.(cmd := Pass, collection := Many(k), ptr := |k|, end := |k|);
      assert RemoveStep(st) == Advance(gone);
      assert k + KeepIf(c, x) == k;
    case Pass =>
      assert RemoveStep(st) == Advance(st.(cmd := Pass));
      assert s == k + [x];
  }

  /**
   * From the point where `x` has just been handed out with decision `c`,
   * after the kept prefix `k`: the loop hands out each later element once, in
   * order, and leaves exactly the elements decided `Pass`.
   */
  lemma {:induction false} RunFromCurrent<T>(k: seq<T>, x: T, rest: seq<T>, c: RemoveCmd, cmds: seq<RemoveCmd>)
    requires |rest| <= |cmds|
    ensures var r := RemoveRun(AtCurrent(k, x, rest, c), cmds);
            var left := k + KeepIf(c, x) + Kept(rest, cmds);
            r.visited == rest && r.last == Finished &&
            r.final == RemoveState(Many(left), |left|, |left|, Pass)
    decreases |rest|
  {
    if rest == [] {
      LastStepFromCurrent(k, x, c);
      assert k + KeepIf(c, x) + Kept(rest, cmds) == k + KeepIf(c, x);
    } else {
      var y, rest' := rest[0], rest[1..];
      assert rest == [y] + rest';
      var k' := k + KeepIf(c, x);
      var st := AtCurrent(k, x, rest, c);
      var next := AtCurrent(k', y, rest', cmds[0]);
      var sub := RemoveRun(next, cmds[1..]);
      assert RemoveRun(st, cmds) == RunResult(sub.final, [|k'|] + sub.indices, [y] + sub.visited, sub.last) by {
        var st' := AtCurrent(k', y, rest', Pass);
        StepFromCurrent(k, x, y, rest', c);
        assert View(st'.collection)[|k'|] == y;
        assert st'.(cmd := cmds[0]) == next;
      }
      RunFromCurrent(k', y, rest', cmds[0], cmds[1..]);
      assert Kept(rest, cmds) == KeepIf(cmds[0], y) + Kept(rest', cmds[1..]);
      ConcatAssoc(k', KeepIf(cmds[0], y), Kept(rest', cmds[1..]));
    }
  }

  /**
   * A whole iteration over a vector `s` with one decision per element: each
   * element of `s` is handed out exactly once, in order; the loop then
   * finishes; and the vector keeps exactly the elements not removed, in
   * their order, with the cursor at its end.
   */
  lemma {:induction false} RemoverOverVec<T>(s: seq<T>, cmds: seq<RemoveCmd>)
    requires |s| <= |cmds|
    ensures var r := RemoveRun(RemoveState(Many(s), 0, |s|, Pass), cmds);
            r.visited == s && r.last == Finished &&
            r.final == RemoveState(Many(Kept(s, cmds)), |Kept(s, cmds)|, |Kept(s, cmds)|, Pass)
  {
    if s != [] {
      RunFromCurrent([], s[0], s[1..], cmds[0], cmds[1..]);
      assert AtCurrent([], s[0], s[1..], cmds[0]).collection == Many(s);
    }
  }

  /** The positions `lo, lo + 1, ..., hi - 1`, in order. */
  function Range(lo: nat, hi: nat): (r: seq<nat>)
    ensures |r| == if lo <= hi then hi - lo else 0
    ensures forall j :: 0 <= j < |r| ==> r[j] == lo + j
    decreases hi - lo
  {
    if lo >= hi then [] else [lo] + Range(lo + 1, hi)
  }

  /**
   * Without removals, a walk that starts at position `p` hands out the
   * positions `p, ..., n - 1` once each, in order, then finishes, and the
   * vector is unchanged.
   */
  lemma {:induction false} PassOnlyVisitsInOrder<T>(s: seq<T>, p: nat, cmds: seq<RemoveCmd>)
    requires p <= |s| && |s| - p <= |cmds|
    requires forall i :: 0 <= i < |cmds| ==> cmds[i] == Pass
    ensures var r := RemoveRun(RemoveState(Many(s), p, |s|, Pass), cmds);
            r.indices == Range(p, |s|) && r.visited == s[p..] && r.last == Finished &&
            r.final == RemoveState(Many(s), |s|, |s|, Pass)
    decreases |s| - p
  {
    var st := RemoveState(Many(s), p, |s|, Pass);
    if p == |s| {
      assert RemoveStep(st) == (st, Finished);
    } else {
      var next := RemoveState(Many(s), p + 1, |s|, Pass);
      assert RemoveStep(st) == (next, Yielded(p));
      assert next.(cmd := cmds[0]) == next by {
        assert cmds[0] == Pass;
      }
      var sub := RemoveRun(next, cmds[1..]);
      assert RemoveRun(st, cmds) == RunResult(sub.final, [p] + sub.indices, [s[p]] + sub.visited, sub.last);
      PassOnlyVisitsInOrder(s, p + 1, cmds[1..]);
      assert [s[p]] + s[p + 1..] == s[p..];
    }
  }

  /**
   * Over a bare value the walk hands out the value once; a removal decided on
   * it is fatal at the next step, and the value is never lost.
   */
  lemma RemoverOverBare<T>(x: T, cmds: seq<RemoveCmd>)
    ensures var r := RemoveRun(RemoveState(Single(x), 0, 1, Pass), cmds);
            r.visited == [x] && r.indices == [0] && r.final.collection == Single(x) &&
            r.last == (if cmds == [] then Yielded(0) else if cmds[0] == Remove then Fatal else Finished)
  {
  }

  /** The handle through which a caller flags the element it was just handed. */
  class RemoveController {
    var cell: RemoveCmd

    /** `RemoveController::new()`: the flag starts at `Pass`. */
    constructor ()
      ensures cell == RemoveCmd.Pass
    {
      cell := RemoveCmd.Pass;
    }

    /** `remove()`: delete the element handed out with this controller, before the next one is handed out. */
    method Remove()
      modifies this
      ensures cell == RemoveCmd.Remove
    {
      cell := RemoveCmd.Remove;
    }

    /** `pass()`: keep that element; on a controller still at `Pass` the state is unchanged. */
    method Pass()
      modifies this
      ensures cell == RemoveCmd.Pass
      ensures old(cell) == RemoveCmd.Pass ==> cell == old(cell)
    {
      cell := RemoveCmd.Pass;
    }

    /** `_replace(cmd)`: store `cmd` and return the previous flag. */
    method Replace(cmd: RemoveCmd) returns (prev: RemoveCmd)
      modifies this
      ensures prev == old(cell) && cell == cmd
    {
      prev := cell;
      cell := cmd;
    }
  }

  /** The `Remover` cursor; `collection` is the value it borrows mutably, read back when the borrow ends. */
  class Remover<T> {
    var collection: Plural<T>
    var ptr: nat
    var end: nat
    const controller: RemoveController

    predicate Valid()
      reads this
    {
      ptr <= end == |View(collection)|
    }

    function State(): RemoveState<T>
      reads this, controller
    {
      RemoveState(collection, ptr, end, controller.cell)
    }

    /** `Remover::new(plural)`: the position at the first element, the end after the last, the flag at `Pass`. */
    constructor (plural: Plural<T>)
      ensures Valid() && collection == plural && ptr == 0
      ensures fresh(controller) && controller.cell == Pass
    {
      collection := plural;
      ptr := 0;
      end := |View(plural)|;
      controller := new RemoveController();
    }

    /** `next()`, for both the `Vec<T>` and the bare `T` implementation. */
    method Next() returns (r: Outcome)
      requires Valid()
      modifies this, controller
      ensures Valid() && controller.cell == Pass
      ensures (State(), r) == RemoveStep(old(State()))
    {
      var cmd := controller.Replace(RemoveCmd.Pass);
      match collection {
        case Single(_) =>
          if cmd == RemoveCmd.Remove {
            return Fatal;
          }
        case Many(s) =>
          if cmd == RemoveCmd.Remove {
            if ptr == 0 {
              return Fatal;
            }
            var idx := ptr - 1;
            collection := Many(s[..idx] + s[idx + 1..]);
            end := end - 1;
            ptr := ptr - 1;
          }
      }
      if ptr == end {
        return Finished;
      }
      r := Yielded(ptr);
      ptr := ptr + 1;
    }

    /** Writing `v` through the mutable reference handed out with the last element. */
    method SetCurrent(v: T)
      requires Valid() && 0 < ptr
      modifies this
      ensures Valid() && ptr == old(ptr) && end == old(end)
      ensures collection == SetAt(old(collection), ptr - 1, v)
    {
      collection := SetAt(collection, ptr - 1, v);
    }
  }

  /** One iteration of `RemoveWhere`: the decision on `s[i]` is applied and `s[i + 1]` is handed out, or the walk finishes. */
  lemma StepInLoop<T>(s: seq<T>, cmds: seq<RemoveCmd>, i: nat)
    requires i < |s| <= |cmds|
    ensures var (st', out) := RemoveStep(AtCurrent(Kept(s[..i], cmds), s[i], s[i + 1..], cmds[i]));
            if i + 1 < |s| then
              st' == AtCurrent(Kept(s[..i + 1], cmds), s[i + 1], s[i + 2..], Pass) &&
              out == Yielded(|Kept(s[..i + 1], cmds)|)
            else
              out == Finished && st'.collection == Many(Kept(s, cmds))
  {
    KeptSnoc(s, cmds, i);
    if i + 1 < |s| {
      assert s[i + 1..] == [s[i + 1]] + s[i + 2..];
      StepFromCurrent(Kept(s[..i], cmds), s[i], s[i + 1], s[i + 2..], cmds[i]);
    } else {
      assert s[i + 1..] == [] && s[..i + 1] == s;
      LastStepFromCurrent(Kept(s[..i], cmds), s[i], cmds[i]);
    }
  }

  /**
   * One pass through the body of `RemoveWhere`'s loop: read the element just
   * handed out, flag it with `cmds[i]` and call `next()`.
   */
  method DecideAndStep<T>(rem: Remover<T>, s: seq<T>, cmds: seq<RemoveCmd>, i: nat, visited: seq<T>)
    returns (out: Outcome, visited': seq<T>)
    requires i < |s| <= |cmds| && visited == s[..i]
    requires rem.Valid() && rem.State() == AtCurrent(Kept(s[..i], cmds), s[i], s[i + 1..], Pass)
    modifies rem, rem.controller
    ensures rem.Valid() && visited' == s[..i + 1]
    ensures i + 1 < |s| ==>
              out == Yielded(|Kept(s[..i + 1], cmds)|) &&
              rem.State() == AtCurrent(Kept(s[..i + 1], cmds), s[i + 1], s[i + 1 + 1..], Pass)
    ensures i + 1 == |s| ==> out == Finished && rem.collection == Many(Kept(s, cmds))
  {
    var x := View(rem.collection)[rem.ptr - 1];
    assert View(AtCurrent(Kept(s[..i], cmds), s[i], s[i + 1..], Pass).collection)[|Kept(s[..i], cmds)|] == s[i];
    visited' := visited + [x];
    assert s[..i + 1] == s[..i] + [s[i]];
    if cmds[i] == Remove {
      rem.controller.Remove();
    } else {
      rem.controller.Pass();
    }
    assert rem.State() == AtCurrent(Kept(s[..i], cmds), s[i], s[i + 1..], cmds[i]);
    StepInLoop(s, cmds, i);
    out := rem.Next();
  }

  /**
   * A caller's loop over a `Remover` on the vector `s` that flags the k-th
   * element it is handed with `cmds[k]`: every element of `s` is handed out
   * exactly once, in order, and the vector ends with exactly the elements
   * not removed.
   */
  method RemoveWhere<T>(s: seq<T>, cmds: seq<RemoveCmd>) returns (left: seq<T>, visited: seq<T>)
    requires |s| <= |cmds|
    ensures visited == s
    ensures left == Kept(s, cmds)
  {
    var rem := new Remover(Many(s));
    var out := rem.Next();
    if s != [] {
      assert rem.State() == AtCurrent([], s[0], s[1..], Pass);
    }
    visited := [];
    var i := 0;
    while out.Yielded?
      invariant fresh(rem) && fresh(rem.controller) && rem.Valid()
      invariant 0 <= i <= |s| && visited == s[..i]
      invariant out.Yielded? ==>
                  i < |s| && rem.State() == AtCurrent(Kept(s[..i], cmds), s[i], s[i + 1..], Pass)
      invariant !out.Yielded? ==> out.Finished? && i == |s| && rem.collection == Many(Kept(s, cmds))
      decreases |s| - i
    {
      out, visited := DecideAndStep(rem, s, cmds, i, visited);
      i := i + 1;
    }
    assert s[..i] == s;
    left := View(rem.collection);
  }
}
