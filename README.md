# pluralize: a Dafny model

This project models the `pluralize` Rust library. The library lets generic code walk "one value" and "many values" the same way. A bare element (a primitive or a tuple) and a `Vec` of elements both implement the `Pluralize` trait. The trait gives a read-only walk (`pluralize()`) and a mutable walk (`pluralize_mut()`) over the logical elements. A bare value is walked as a one-element sequence, and a vector as its own elements.

Two cursors sit on top of the walk:

- `Adder` hands out a shared `AddController` at each `next()`. A value passed to `add(v)` is pushed onto the vector at the following `next()`. A step that finds nothing pending ends the iteration. Over a bare value the cursor yields nothing.
- `Remover` hands out a shared `RemoveController` and a mutable reference to each element in turn. An element flagged with `remove()` is deleted from the vector at the next step, before the following element is handed out. Over a bare value, a removal is a fatal error.

The model has five modules:

- `Wrappers` (`wrappers.dfy`) holds `Option`.
- `Pluralize` (`plural.dfy`) models `src/lib.rs`. `datatype Plural<T> = Single(x) | Many(s)` replaces the memory reinterpretation, `View` is the walk, and `SetAt` is a write through the mutable walk.
- `Adders` (`adder.dfy`) and `Removers` (`remover.dfy`) model `src/iter.rs`. Each controller is a class with a `cell` field. Each cursor is a class holding the borrowed collection, its own fields and a `const controller`. Because Dafny objects are references, the caller and the cursor share one controller, just as the `Rc` clones do in the source. Each cursor's `Next()` is proved equal to a pure step function (`AddStep`, `RemoveStep`). Whole-iteration lemmas are proved over caller loops written as functions (`Drive`, `RemoveRun`). Client methods (`PushAll`, `RemoveWhere`) drive the real classes in a loop.
- `MaybeManyTests` (`maybe_many.dfy`) models `tests/test.rs`: `MaybeMany::map`, its `PartialEq`, and the assertions of `test_eq`.

The model follows the code everywhere except one place: the `Remover`'s `ptr` and `end` decrements after a removal (see "## Findings"). There the model uses the intended behaviour, and `RemoveStepAsWritten` models the code as written.

Behaviour worth noting:

- Over a bare value, `Adder::next()` returns `None` at once (src/iter.rs:101-103), as its doc says (src/iter.rs:50-51). It hands out no controller at all.
- A removal flagged before anything was handed out makes the vector cursor panic. On an empty vector the panic is the index into `collection[0]`; otherwise it is the unwrap of index `-1` (src/iter.rs:212-215). The model returns `Fatal` in that case.

## Model

| member | source | states |
|---|---|---|
| `Pluralize.View` | src/lib.rs:56-58 | The walk `pluralize()`. A bare value (primitive or tuple, src/lib.rs:77-79 and 97-99) is walked as one element. Only an empty vector gives an empty walk. |
| `Pluralize.ViewOfVec` | src/lib.rs:56-58 | A vector is walked as exactly its elements, in order and with its own length. An empty vector gives an empty walk. |
| `Pluralize.ViewOfPrimitive` | src/lib.rs:95-99 | A bare primitive is walked as the one-element sequence `[x]`. |
| `Pluralize.ViewOfTuple` | src/lib.rs:73-79 | A tuple is one element of the walk, `[t]`, and not a walk over its components. |
| `Pluralize.SetAt` | src/lib.rs:60-63 | A write through the `i`-th mutable reference changes element `i` and nothing else. The length stays the same, and a bare value stays bare. |
| `Pluralize.WriteThroughBare` | src/lib.rs:101-104 | A write through the mutable walk of a bare value gives `Single(v)`, whose walk is `[v]`. |
| `Adders.AddController.constructor` | src/iter.rs:37-43 | A new controller has nothing pending. |
| `Adders.AddController.Add` | src/iter.rs:20-23 | After `add(d)`, `d` is pending whatever was pending before, so the last write wins. |
| `Adders.AddController.Clear` | src/iter.rs:25-31 | After `clear()` nothing is pending. On an empty controller it changes nothing. |
| `Adders.AddController.Replace` | src/iter.rs:33-35 | Returns the pending value and stores the new one. |
| `Adders.Adder.constructor` | src/iter.rs:88-95 | The cursor borrows the given collection, `first_run` is set, and the controller is fresh and empty. |
| `Adders.AddStep` | src/iter.rs:64-104 | One `next()` on the state. A step that yields nothing changes nothing, and a bare value never yields. The bare/vector kind is kept, and `first_run` is cleared by any yield. A yielding step after the first pushes the pending value onto the vector and empties the cell. |
| `Adders.Adder.Next` | src/iter.rs:64-104 | Equals `AddStep`. Over a bare value nothing is yielded and nothing changes. The first step over a vector yields the controller, keeps the vector and clears `first_run`. A later step with `v` pending yields, makes the vector `old + [v]` and clears the cell. A later step with nothing pending yields `None` and keeps the vector. |
| `Adders.NoneIsFinal` | src/iter.rs:69-72 | Over a vector, a step that yields nothing leaves the cell empty. The next step without an `add` also yields nothing and changes nothing. |
| `Adders.DriveRunning` | src/iter.rs:68-81 | Once running, the loop pushes exactly the values added before the first step that finds nothing pending, in order. It yields one controller per pushed value and leaves the cell empty. |
| `Adders.AdderOverVec` | src/iter.rs:50-57 | A whole iteration over vector `s` ends with `s + Added(plan)`: the added values in stack order, last added last. It yields one controller more than the values pushed. |
| `Adders.AdderOverBare` | src/iter.rs:98-104 | Over a bare value, a whole iteration yields nothing and leaves the value and the cell as they were, whatever the caller plans. |
| `Adders.PushAll` | src/iter.rs:53-57 | A caller that `add`s each value of `vs` in turn, then stops adding, turns `s` into `s + vs` with `|vs| + 1` yields. |
| `Removers.RemoveStep` | src/iter.rs:186-233 | One `next()` with the intended decrements. It keeps `ptr <= end == number of elements`, resets the flag, and any handed-out position is the one just behind the new `ptr`. |
| `Removers.RemoveStepSpec` | src/iter.rs:206-231 | The flag always returns to `Pass`. A removal over a bare value, or before any element was handed out, is fatal and changes nothing else. A removal deletes exactly the element handed out last (old `[..p-1] + [p..]`) and lowers `end` by one. With `Pass` the collection is unchanged. The next element handed out is the one that stood at the old `ptr`, and the walk finishes exactly when `ptr` was at `end`. |
| `Removers.RemoveStepAsWritten` | src/iter.rs:206-233 | `next()` as written. The flag is reset, `end` never moves, and `ptr` never steps back: it advances by one exactly when a position is handed out, and that position is the old `ptr`. |
| `Removers.AsWrittenBreaksInvariant` | src/iter.rs:216-219 | As written, after a removal `end` is one past the number of elements, so the cursor invariant is lost. |
| `Removers.AsWrittenSkipsShiftedElement` | src/iter.rs:209-231 | Take `[10, 20, 30]` with 20 flagged. As written, the next step hands out position 2 of the two-element `[10, 30]`, which is past its length, and the step after finishes. The live 30, now at index 1, is never handed out. Position 2 is a stale slot: a write through it is lost, and flagging it makes the next step panic. The corrected step hands out 30 at position 1. |
| `Removers.KeptAllPass` | src/iter.rs:125-130 | With no removal decided, every element is kept. |
| `Removers.KeptOneRemoved` | src/iter.rs:119-123 | Removing only the `i`-th element leaves `s[..i] + s[i+1..]`. |
| `Removers.RunFromCurrent` | src/iter.rs:206-232 | From any point in a walk over a vector, each later element is handed out exactly once, in order. The walk then finishes with exactly the elements decided `Pass`, and the cursor is at the end. |
| `Removers.RemoverOverVec` | src/iter.rs:163-233 | A whole walk over vector `s`, with one decision per element, hands out every element of `s` exactly once, in order. It then finishes, leaving `Kept(s, cmds)`, with `ptr == end == its length` and the flag at `Pass`. |
| `Removers.PassOnlyVisitsInOrder` | src/iter.rs:223-231 | Without removals, a walk from position `p` hands out positions `p .. n-1` once each, in order, then finishes. The vector is unchanged. |
| `Removers.RemoverOverBare` | src/iter.rs:186-202 | Over a bare value the walk hands out the value once, at position 0, and the value stays as it was. A removal decided on it is fatal at the next step, and a pass finishes the walk. |
| `Removers.RemoveController.constructor` | src/iter.rs:136-142 | A new controller's flag is `Pass`. |
| `Removers.RemoveController.Remove` | src/iter.rs:119-123 | After `remove()` the flag is `Remove`. |
| `Removers.RemoveController.Pass` | src/iter.rs:125-130 | After `pass()` the flag is `Pass`. On a controller already at `Pass` it changes nothing. |
| `Removers.RemoveController.Replace` | src/iter.rs:132-134 | Returns the flag and stores the new one. |
| `Removers.Remover.constructor` | src/iter.rs:163-183 | The cursor starts at position 0 with `end` equal to the number of elements (1 for a bare value). The flag starts at `Pass`. |
| `Removers.Remover.Next` | src/iter.rs:186-233 | Keeps the cursor invariant, resets the flag, and equals `RemoveStep` on the cursor's state. |
| `Removers.Remover.SetCurrent` | src/iter.rs:227-231 | A write through the reference handed out last changes that element only, through `SetAt`. |
| `Removers.RemoveWhere` | src/iter.rs:206-232 | A caller looping over a real `Remover` with one decision per element sees every element of `s` once, in order. The vector ends as `Kept(s, cmds)`. |
| `MaybeManyTests.IterEq` | tests/test.rs:29-31 | `Iterator::eq`, front to back. It holds only for walks of equal length, and it holds for equal walks. |
| `MaybeManyTests.IterEqIff` | tests/test.rs:29-31 | `Iterator::eq` on two walks holds exactly when they have equal length and agree at every position. |
| `MaybeManyTests.Eq` | tests/test.rs:26-32 | Two values are equal exactly when their walks are equal. |
| `MaybeManyTests.MaybeMany.constructor` | tests/test.rs:13-17 | Wraps the given value. |
| `MaybeManyTests.MaybeMany.Map` | tests/test.rs:19-23 | Every element `d` becomes `f(d)`, each visited once. The length is kept, and a bare value stays bare. |
| `MaybeManyTests.LessTwenty` | tests/test.rs:48 | The closure of `test_eq`. It is defined only where `usize` subtraction does not underflow, and `r + 20 == x`. |
| `MaybeManyTests.TestEq` | tests/test.rs:34-52 | All six assertions of `test_eq` hold. 42 and 1 differ, 42 equals 42, `[20, 22]` and `[1]` differ, and `[20, 22]` equals `[20, 22]`. `[40, 42]` differs from `[20, 22]` until 20 is subtracted from each element. |

## Left out

- The memory reinterpretation (`transmute` of a value into a one-element array, raw pointers, `offset`, `offset_from`) at src/lib.rs:78, 82, 98, 103 and src/iter.rs:168-174, 212-218. The tagged datatype and integer positions replace it.
- src/iter.rs:173 takes the base pointer by reinterpreting the `&mut Vec` itself, as if a vector and its element 0 shared an address. The test at src/iter.rs:243-250 asserts this layout assumption. The model takes the base to be index 0 and does not model the test.
- `Rc` reference counting and `Cell` interior mutability. A controller is one shared object, and no single-writer discipline is modelled beyond last write wins.
- Lifetimes, `PhantomData` and the `T: Pluralize<T>` bounds. The Rust type checker keeps a bare value from ever being compared with a vector (tests/test.rs:50). `MaybeManyTests.Eq` compares any two `Plural` values and would call `Single(1)` and `Many([1])` equal.
- `Removers.Remover.SetCurrent`: writes only through the reference handed out last. The source's references outlive later steps (a write through an older reference after a removal is aliasing the source does not guard against); that is not modelled.
- In the model, a controller is a public field of its cursor, so a caller can flag it before the first `next()`. In the source a caller has no controller until one is handed out. The model gives the source's outcome for those states (an `Adder` keeps the early value for its second step; a `Remover` panics).
- After a panic (`Fatal`) the model keeps the state the step reached. The source unwinds and the state is no longer observed.
- `MaybeManyTests.MaybeMany.Map`: the closure `&dyn Fn(&mut usize)` is modelled as a function returning the new value, so side effects of the closure other than the write are not modelled. `usize` is `nat`: the closure must be defined on every element, as `x - 20` must not underflow.
- src/jank.rs (a layout-mirroring struct and a size test) and pluralize_derive/src/lib.rs (a procedural macro that emits the same bare-value implementation). Neither has behaviour of its own to state.
- `f32` and `f64` element types, and the `std` and `no_std` feature flags. The element type is generic, with `int` and `nat` in the concrete lemmas.

## Findings

| source | as written | input that shows it | evidently intended | confidence | as-written member | corrected member |
|---|---|---|---|---|---|---|
| src/iter.rs:216-219 | After a removal, the decrements of `end` and `ptr` are computed and thrown away, so neither moves. | `[10, 20, 30]`, with 20 flagged by `remove()` after it is handed out. The next step hands out position 2 of the two-element vector `[10, 30]`, past its length. The live 30, now at index 1, is never handed out. Position 2 is a stale slot, so a write through it is lost and removing it panics. | Both step back by one so the element shifted into the removed slot is handed out next (src/iter.rs:119-120, 212-215) | not executed | `Removers.AsWrittenSkipsShiftedElement` | `Removers.RemoveStepSpec` |
