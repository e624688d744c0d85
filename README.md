# UndoableBag: a bag with linear undo and redo

This project models `UndoableBag<E>`, a multiset ("bag") that keeps a linear
undo/redo history of its mutations, and proves properties of the model in
Dafny.

The bag holds three pieces of state:

- the contents of the underlying bag;
- an undo stack of actions;
- a redo stack of actions.

An action is `Insert(e)` or `Remove(e)`. Every successful `add`, `remove()`
or `remove(e)` empties the redo stack and pushes the action it performed onto
the undo stack. `undo()` moves the top undo action to the redo stack and
applies its opposite to the bag. `redo()` moves the top redo action back and
applies its original effect again. `clear()` is never supported.

Files:

- `history.dfy`, module `History`: the state as a value (`Snapshot`), the
  underlying bag as a capacity-bounded multiset (`BagAdd`, `BagRemove`), the
  forward and backward effect of an action, the consistency invariant
  `Valid`, and one transition function for each state-changing operation
  (`add`, `remove(e)`, `undo`, `redo`). `remove()` is `RemoveEntry` on the
  element it returns, and `clear()` changes nothing.
- `properties.dfy`, module `HistoryProperties`: runs of several calls. An
  undo is reverted by the following redo and the other way round. An edit is
  reverted by the following undo. `k` undos followed by `k` redos give back
  the state, and so do `k` redos followed by `k` undos. A run of edits
  followed by as many undos gives back the bag. A concrete scenario is worked
  through step by step.
- `undoable_bag.dfy`, module `Undoable`: the class `UndoableBag`. Its fields
  are `bag`, `undoStack` and `redoStack`, and its methods change them in
  place, as the Java methods do. Each state-changing method is proved
  against the matching `History` transition: `remove()` against
  `RemoveEntry` on the element it returns, or against no change at all on an
  empty bag. `clear()` has no modifies clause. So the lemmas above apply to
  every sequence of calls.

Both stacks keep their top at index 0: a push is `[a] + s` and a pop takes
`s[0]`. The object invariant `Valid` says three things. The bag is within its
capacity. Undoing the whole undo stack, top first, succeeds at every step.
Redoing the whole redo stack, top first, succeeds at every step. Every
operation keeps `Valid`. As a consequence, `undo()` returns true exactly when
the undo stack is non-empty, and `redo()` returns true exactly when the redo
stack is non-empty.

`redo()` replays the action undone most recently. So after add x, add y,
remove x, undo, undo, redo the bag is {x, y}: see
`HistoryProperties.ScenarioHistory`.

## Model

| member | source | states |
|---|---|---|
| `Undoable.UndoableBag.constructor` | app/src/main/java/cs445/rec4/UndoableBag.java:19-25 | A new bag is empty, both stacks are empty, and the invariant holds. |
| `Undoable.UndoableBag.Add` | app/src/main/java/cs445/rec4/UndoableBag.java:32-47 | `add(e)` succeeds iff the bag is below capacity. On success the bag gains one `e`, redo is emptied and `Insert(e)` is pushed on undo. On failure nothing changes. The invariant is kept. |
| `Undoable.UndoableBag.RemoveAny` | app/src/main/java/cs445/rec4/UndoableBag.java:54-69 | `remove()` returns none exactly when the bag is empty, and then changes nothing. Otherwise it returns an element that was in the bag, removes one occurrence of it, empties redo and pushes `Remove` of that element. This is the same as `remove(e)` on the returned element. |
| `Undoable.UndoableBag.Remove` | app/src/main/java/cs445/rec4/UndoableBag.java:76-90 | `remove(e)` succeeds iff `e` is in the bag. On success it removes one `e`, empties redo and pushes `Remove(e)`. On failure nothing changes. |
| `Undoable.UndoableBag.Clear` | app/src/main/java/cs445/rec4/UndoableBag.java:95-100 | `clear()` always fails with an unsupported-operation error carrying the source's message. It modifies nothing. |
| `Undoable.UndoableBag.Undo` | app/src/main/java/cs445/rec4/UndoableBag.java:106-124 | `undo()` returns true iff the undo stack was non-empty. With an empty stack nothing changes. Otherwise the top action moves to the top of redo and its opposite effect is applied to the bag. The invariant is kept. |
| `Undoable.UndoableBag.Redo` | app/src/main/java/cs445/rec4/UndoableBag.java:130-148 | `redo()` returns true iff the redo stack was non-empty. With an empty stack nothing changes. Otherwise the top action moves back to the top of undo and its original effect is applied to the bag again. The invariant is kept. |
| `History.AddEntry` | app/src/main/java/cs445/rec4/UndoableBag.java:33-47 | The reported success is exactly 'the bag was below capacity'. The capacity never changes. Success adds one `e`, clears redo and pushes `Insert(e)` on undo. Failure leaves the whole state unchanged. |
| `History.RemoveEntry` | app/src/main/java/cs445/rec4/UndoableBag.java:77-90 | The reported success is exactly 'e was in the bag'. The capacity never changes. Success removes one `e`, clears redo and pushes `Remove(e)` on undo. Failure leaves the whole state unchanged. |
| `History.Undo` | app/src/main/java/cs445/rec4/UndoableBag.java:106-124 | With an empty undo stack the result is false and the state is unchanged. Otherwise the capacity is unchanged and the popped action becomes the top of redo. The new bag and the reported boolean are exactly the action's opposite effect on the old bag. The total height of the two stacks is unchanged. |
| `History.Redo` | app/src/main/java/cs445/rec4/UndoableBag.java:130-148 | With an empty redo stack the result is false and the state is unchanged. Otherwise the capacity is unchanged and the popped action becomes the top of undo. The new bag and the reported boolean are exactly the action's original effect on the old bag. The total height of the two stacks is unchanged. |
| `History.ForwardThenBackward` | app/src/main/java/cs445/rec4/UndoableBag.java:115-123 | If an action's original effect succeeds on a bag within capacity, its opposite effect (the one undo applies) succeeds on the result and gives the bag back. |
| `History.BackwardThenForward` | app/src/main/java/cs445/rec4/UndoableBag.java:139-147 | If an action's opposite effect succeeds on a bag within capacity, its original effect (the one redo applies) succeeds on the result and gives the bag back. |
| `History.PerformKeepsValid` | app/src/main/java/cs445/rec4/UndoableBag.java:33-90 | A successful or failed `add` or `remove(e)` keeps the history in step with the bag. |
| `History.UndoKeepsValid` | app/src/main/java/cs445/rec4/UndoableBag.java:106-123 | On a consistent bag, `undo()` keeps it consistent and returns true exactly when there is something to undo. |
| `History.RedoKeepsValid` | app/src/main/java/cs445/rec4/UndoableBag.java:130-147 | On a consistent bag, `redo()` keeps it consistent and returns true exactly when there is something to redo. |
| `HistoryProperties.PerformRecords` | app/src/main/java/cs445/rec4/UndoableBag.java:33-90 | An edit has its action's original effect on the bag. When it succeeds it pushes that very action on undo and clears redo. When it fails it changes nothing. |
| `HistoryProperties.Undos` | app/src/main/java/cs445/rec4/UndoableBag.java:106-124 | `k` consecutive undos, with `k` at most the undo height, pop exactly the top `k` undo actions (`undo` becomes `undo[k..]`). They are pushed on redo in reverse order, so the action undone last is on top. The capacity never changes. |
| `HistoryProperties.Redos` | app/src/main/java/cs445/rec4/UndoableBag.java:130-148 | `k` consecutive redos, with `k` at most the redo height, pop exactly the top `k` redo actions (`redo` becomes `redo[k..]`). They are pushed on undo in reverse order, so the action redone last is on top. The capacity never changes. |
| `HistoryProperties.PerformAll` | app/src/main/java/cs445/rec4/UndoableBag.java:33-90 | A run of edits keeps the capacity. If every edit of a non-empty run succeeds, the run leaves the redo stack empty. |
| `HistoryProperties.UndoThenRedo` | app/src/main/java/cs445/rec4/UndoableBag.java:106-148 | On a consistent bag with something to undo, `undo()` succeeds, and the `redo()` after it succeeds and gives back the exact prior state. |
| `HistoryProperties.RedoThenUndo` | app/src/main/java/cs445/rec4/UndoableBag.java:106-148 | On a consistent bag with something to redo, `redo()` succeeds, and the `undo()` after it succeeds and gives back the exact prior state. |
| `HistoryProperties.UndoRecorded` | app/src/main/java/cs445/rec4/UndoableBag.java:110-123 | Undoing a state whose bag and undo stack are those a successful edit left succeeds. It gives back the bag and undo stack of before the edit, and pushes the edit on redo. |
| `HistoryProperties.UndoAfterEdit` | app/src/main/java/cs445/rec4/UndoableBag.java:33-148 | A successful mutation followed by `undo()` returns true and restores the prior bag and undo stack, with the edit alone on redo. A `redo()` after that restores the post-mutation state. |
| `HistoryProperties.UndoRedoRoundTrip` | app/src/main/java/cs445/rec4/UndoableBag.java:106-148 | With no edit in between and `k` at most the undo height, `k` undos followed by `k` redos give back exactly the state before the undos. |
| `HistoryProperties.RedoUndoRoundTrip` | app/src/main/java/cs445/rec4/UndoableBag.java:106-148 | With `k` at most the redo height, `k` redos followed by `k` undos give back exactly the state before the redos. |
| `HistoryProperties.UndoAllEdits` | app/src/main/java/cs445/rec4/UndoableBag.java:33-124 | After a run of successful edits, as many undos restore the bag and undo stack of before the run. The redo stack then holds the edits, first edit on top. |
| `HistoryProperties.ScenarioEdits` | app/src/main/java/cs445/rec4/UndoableBag.java:33-90 | From empty: add x, add y and remove x each succeed. The lemma gives the full bag and stacks after each call. |
| `HistoryProperties.ScenarioHistory` | app/src/main/java/cs445/rec4/UndoableBag.java:33-148 | Continuing: undo gives {x,y}, undo gives {x}, redo gives {x,y}, add z gives {x,y,z} and clears redo, and the final redo returns false and changes nothing. |

## Left out

- The internals of `ArrayBag` are not part of this model: its array storage, default capacity, resizing, and which slot `remove()` takes. The bag is a multiset with a fixed capacity. `add` fails exactly when the bag is full. `remove()` takes a nondeterministically chosen element.
- Undoable.UndoableBag.constructor: takes the capacity as a parameter. The Java constructor uses `ArrayBag`'s default capacity, and that value is not part of this model.
- `LinkedStack` and `StackInterface` are not part of this model. The stacks are sequences with the top at index 0, and clearing a stack assigns `[]`.
- The char tags `'i'` and `'r'` of `Action` are a two-case datatype. The `default` arms of the two switches can then never be reached, so they are not modelled.
- Java `equals` on the element type is Dafny equality on a type with `(==)`.
- The overloads `remove()` and `remove(E)` are the methods `RemoveAny` and `Remove`, because Dafny has no overloading.
- Null elements are not modelled. The Java `remove()` uses `null` as its "empty bag" sentinel. A stored `null` would be removed without being recorded, but `ArrayBag` is outside this model, so whether it accepts `null` is left open.
- The `UnsupportedOperationException` thrown by `clear()` is an `Outcome` value returned to the caller. Exception propagation is not modelled.
- Mutating the underlying bag directly, without going through the wrapper, is not modelled. Every method assumes and keeps the invariant `Valid`. That is why undo and redo are proved always to succeed when their stack is non-empty. The source only returns whatever the inner `add` or `remove` reports.
- Concurrency is not modelled: the source is single-threaded and assumes a single owner.
