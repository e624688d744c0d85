/**
 * A bag with undo and redo: an object whose fields hold the bag's contents
 * and the two history stacks, and whose methods change them in place. Each
 * state-changing method is proved against the transition of `History` it
 * implements (`remove()` against `RemoveEntry` on the element it returns,
 * or against no change on an empty bag), so the properties proved there
 * carry over to every sequence of calls. `clear()` changes nothing.
 */
module Undoable {
  import opened History

  datatype Option<T> = None | Some(value: T)

  /** The error an operation the bag does not support reports. */
  datatype Error = UnsupportedOperation(message: string)

  /** The outcome of an operation that returns nothing but may fail. */
  datatype Outcome = Done | Failed(error: Error)

  class UndoableBag<E(==)> {
    /** The capacity of the underlying bag: `add` fails once it holds this many entries. */
    const capacity: nat
    /** The contents of the underlying bag. */
    var bag: multiset<E>
    /** Actions that can be undone, the most recent at index 0. */
    var undoStack: seq<Action<E>>
    /** Actions that can be redone, the most recently undone at index 0. */
    var redoStack: seq<Action<E>>

    /** The whole state of the object as a value. */
    function View(): Snapshot<E>
      reads this
    {
      Snapshot(capacity, bag, undoStack, redoStack)
    }

    /** The object invariant: the history is in step with the bag. */
    ghost predicate Valid()
      reads this
    {
      History.Valid(View())
    }

    /** An empty bag with empty undo and redo stacks. */
    constructor (capacity: nat)
      ensures Valid()
      ensures View() == Empty(capacity)
    {
      this.capacity := capacity;
      bag := multiset{};
      undoStack := [];
      redoStack := [];
    }

    /**
     * Adds `newEntry` to the bag. On success the redo stack is emptied and
     * `Insert(newEntry)` is pushed on the undo stack; on failure nothing
     * changes.
     */
    method Add(newEntry: E) returns (result: bool)
      requires Valid()
      modifies this
      ensures Valid()
      ensures result <==> |old(bag)| < capacity
      ensures result ==> bag == old(bag) + multiset{newEntry} &&
                         undoStack == [Insert(newEntry)] + old(undoStack) && redoStack == []
      ensures !result ==> View() == old(View())
      ensures View() == AddEntry(old(View()), newEntry).0 && result == AddEntry(old(View()), newEntry).1
    {
      PerformKeepsValid(View(), Insert(newEntry));
      var (b, ok) := BagAdd(capacity, bag, newEntry);
      bag := b;
      result := ok;
      if result {
        redoStack := [];
        undoStack := [Insert(newEntry)] + undoStack;
      }
      assert View() == AddEntry(old(View()), newEntry).0;
    }

    /**
     * Removes one unspecified entry from the bag, if it has any. On success
     * the removed entry is returned, the redo stack is emptied and
     * `Remove` of that entry is pushed on the undo stack; on an empty bag
     * `None` is returned and nothing changes.
     */
    method RemoveAny() returns (removedItem: Option<E>)
      requires Valid()
      modifies this
      ensures Valid()
      ensures removedItem.None? <==> old(bag) == multiset{}
      ensures removedItem.None? ==> View() == old(View())
      ensures removedItem.Some? ==>
                removedItem.value in old(bag) &&
                bag == old(bag) - multiset{removedItem.value} &&
                undoStack == [Action.Remove(removedItem.value)] + old(undoStack) && redoStack == []
      ensures removedItem.Some? ==> View() == RemoveEntry(old(View()), removedItem.value).0
    {
      if bag == multiset{} {
        removedItem := None;
      } else {
        var x :| x in bag;
        PerformKeepsValid(View(), Action.Remove(x));
        bag := bag - multiset{x};
        removedItem := Some(x);
        redoStack := [];
        undoStack := [Action.Remove(x)] + undoStack;
        assert View() == RemoveEntry(old(View()), x).0;
      }
    }

    /**
     * Removes one occurrence of `anEntry`, if the bag holds it. On success
     * the redo stack is emptied and `Remove(anEntry)` is pushed on the undo
     * stack; on failure nothing changes.
     */
    method Remove(anEntry: E) returns (result: bool)
      requires Valid()
      modifies this
      ensures Valid()
      ensures result <==> anEntry in old(bag)
      ensures result ==> bag == old(bag) - multiset{anEntry} &&
                         undoStack == [Action.Remove(anEntry)] + old(undoStack) && redoStack == []
      ensures !result ==> View() == old(View())
      ensures View() == RemoveEntry(old(View()), anEntry).0 && result == RemoveEntry(old(View()), anEntry).1
    {
      PerformKeepsValid(View(), Action.Remove(anEntry));
      var (b, ok) := BagRemove(bag, anEntry);
      bag := b;
      result := ok;
      if result {
        redoStack := [];
        undoStack := [Action.Remove(anEntry)] + undoStack;
      }
      assert View() == RemoveEntry(old(View()), anEntry).0;
    }

    /**
     * Emptying the bag is not supported: it always fails, and it changes
     * neither the bag nor the stacks.
     */
    method Clear() returns (outcome: Outcome)
      ensures outcome == Failed(UnsupportedOperation("Clear method not supported"))
    {
      outcome := Failed(UnsupportedOperation("Clear method not supported"));
    }

    /**
     * Undoes the most recent insertion or removal. With nothing to undo it
     * returns false and changes nothing; otherwise the top action moves to
     * the redo stack and its opposite is applied to the bag, which on a
     * valid object always succeeds.
     */
    method Undo() returns (result: bool)
      requires Valid()
      modifies this
      ensures Valid()
      ensures result <==> old(undoStack) != []
      ensures !result ==> View() == old(View())
      ensures result ==> undoStack == old(undoStack)[1..] &&
                         redoStack == [old(undoStack)[0]] + old(redoStack)
      ensures result ==> bag == Backward(capacity, old(bag), old(undoStack)[0]).0
      ensures View() == History.Undo(old(View())).0 && result == History.Undo(old(View())).1
    {
      UndoKeepsValid(View());
      if undoStack == [] {
        return false;
      }
      var operation := undoStack[0];
      undoStack := undoStack[1..];
      redoStack := [operation] + redoStack;
      match operation
      case Insert(v) =>
        var (b, ok) := BagRemove(bag, v);
        bag, result := b, ok;
      case Remove(v) =>
        var (b, ok) := BagAdd(capacity, bag, v);
        bag, result := b, ok;
    }

    /**
     * Redoes the most recently undone action. With nothing to redo it
     * returns false and changes nothing; otherwise the top action moves back
     * to the undo stack and its original effect is applied to the bag, which
     * on a valid object always succeeds.
     */
    method Redo() returns (result: bool)
      requires Valid()
      modifies this
      ensures Valid()
      ensures result <==> old(redoStack) != []
      ensures !result ==> View() == old(View())
      ensures result ==> redoStack == old(redoStack)[1..] &&
                         undoStack == [old(redoStack)[0]] + old(undoStack)
      ensures result ==> bag == Forward(capacity, old(bag), old(redoStack)[0]).0
      ensures View() == History.Redo(old(View())).0 && result == History.Redo(old(View())).1
    {
      RedoKeepsValid(View());
      if redoStack == [] {
        return false;
      }
      var operation := redoStack[0];
      redoStack := redoStack[1..];
      undoStack := [operation] + undoStack;
      match operation
      case Insert(v) =>
        var (b, ok) := BagAdd(capacity, bag, v);
        bag, result := b, ok;
      case Remove(v) =>
        var (b, ok) := BagRemove(bag, v);
        bag, result := b, ok;
    }
  }
}
