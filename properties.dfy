/**
 * What the history guarantees over several calls: an undo is reverted by
 * the next redo and the other way round, an edit is reverted by the next
 * undo, and runs of edits, undos and redos can be rolled back as a whole.
 */
module HistoryProperties {
  import opened History

  /** The elements of `s` in the opposite order. */
  function Reversed<T>(s: seq<T>): (r: seq<T>)
    ensures |r| == |s|
    ensures forall i :: 0 <= i < |s| ==> r[i] == s[|s| - 1 - i]
    decreases |s|
  {
    if s == [] then [] else Reversed(s[1..]) + [s[0]]
  }

  /**
   * `undo()` called `k` times in a row. With at most `|s.undo|` calls, the
   * top `k` undo actions are popped and end up on the redo stack, the one
   * undone last on top.
   */
  function Undos<E>(s: Snapshot<E>, k: nat): (r: Snapshot<E>)
    ensures r.cap == s.cap
    ensures k <= |s.undo| ==> r.undo == s.undo[k..] && r.redo == Reversed(s.undo[..k]) + s.redo
    decreases k
  {
    if k == 0 then s
    else
      var t := Undo(s).0;
      assert k <= |s.undo| ==>
        t.undo[k - 1..] == s.undo[k..] && s.undo[..k][1..] == t.undo[..k - 1] &&
        Reversed(s.undo[..k]) + s.redo == Reversed(t.undo[..k - 1]) + t.redo;
      Undos(t, k - 1)
  }

  /**
   * `redo()` called `k` times in a row. With at most `|s.redo|` calls, the
   * top `k` redo actions are popped and end up on the undo stack, the one
   * redone last on top.
   */
  function Redos<E>(s: Snapshot<E>, k: nat): (r: Snapshot<E>)
    ensures r.cap == s.cap
    ensures k <= |s.redo| ==> r.redo == s.redo[k..] && r.undo == Reversed(s.redo[..k]) + s.undo
    decreases k
  {
    if k == 0 then s
    else
      var t := Redo(s).0;
      assert k <= |s.redo| ==>
        t.redo[k - 1..] == s.redo[k..] && s.redo[..k][1..] == t.redo[..k - 1] &&
        Reversed(s.redo[..k]) + s.undo == Reversed(t.redo[..k - 1]) + t.undo;
      Redos(t, k - 1)
  }

  /**
   * The edits of `edits` performed in order, each as `add` or `remove(e)`;
   * the boolean says whether every one of them succeeded.
   */
  function PerformAll<E>(s: Snapshot<E>, edits: seq<Action<E>>): (r: (Snapshot<E>, bool))
    ensures r.0.cap == s.cap
    ensures r.1 && edits != [] ==> r.0.redo == []
    decreases |edits|
  {
    if edits == [] then (s, true)
    else
      var first := Perform(s, edits[0]);
      var rest := PerformAll(first.0, edits[1..]);
      (rest.0, first.1 && rest.1)
  }

  /**
   * Performing an action as an edit has the action's original effect on the
   * bag, and when it succeeds it records that very action and clears redo.
   */
  lemma PerformRecords<E>(s: Snapshot<E>, a: Action<E>)
    ensures Perform(s, a).1 == Forward(s.cap, s.bag, a).1
    ensures Perform(s, a).0.bag == Forward(s.cap, s.bag, a).0
    ensures Perform(s, a).1 ==> Perform(s, a).0 == s.(bag := Perform(s, a).0.bag, undo := [a] + s.undo, redo := [])
    ensures !Perform(s, a).1 ==> Perform(s, a).0 == s
  {
    var t := Perform(s, a).0;
    if Perform(s, a).1 {
      assert t.undo == [a] + s.undo by {
        assert t.undo == [t.undo[0]] + t.undo[1..];
      }
    }
  }

  /** On a consistent bag, an `undo()` is reverted by the `redo()` after it. */
  lemma UndoThenRedo<E>(s: Snapshot<E>)
    requires Valid(s) && s.undo != []
    ensures Undo(s).1 && Redo(Undo(s).0) == (s, true)
  {
    var a := s.undo[0];
    var t := Undo(s).0;
    BackwardThenForward(s.cap, s.bag, a);
    assert t.bag == Backward(s.cap, s.bag, a).0;
    assert t.redo[0] == a && t.redo[1..] == s.redo;
    assert [a] + t.undo == s.undo;
  }

  /** On a consistent bag, a `redo()` is reverted by the `undo()` after it. */
  lemma RedoThenUndo<E>(s: Snapshot<E>)
    requires Valid(s) && s.redo != []
    ensures Redo(s).1 && Undo(Redo(s).0) == (s, true)
  {
    var a := s.redo[0];
    var t := Redo(s).0;
    ForwardThenBackward(s.cap, s.bag, a);
    assert t.bag == Forward(s.cap, s.bag, a).0;
    assert t.undo[0] == a && t.undo[1..] == s.undo;
    assert [a] + t.redo == s.redo;
  }

  /**
   * Undoing a state whose bag and undo stack are those a successful edit
   * left gives back the bag and the undo stack of before the edit, whatever
   * the redo stack holds, and pushes the edit on that redo stack.
   */
  lemma UndoRecorded<E>(s: Snapshot<E>, a: Action<E>, y: Snapshot<E>)
    requires |s.bag| <= s.cap && Perform(s, a).1
    requires y.cap == s.cap && y.bag == Perform(s, a).0.bag && y.undo == [a] + s.undo
    ensures Undo(y).0 == s.(redo := [a] + y.redo) && Undo(y).1
  {
    PerformRecords(s, a);
    ForwardThenBackward(s.cap, s.bag, a);
    assert y.undo[0] == a && y.undo[1..] == s.undo;
  }

  /**
   * A successful edit followed by `undo()` gives back the bag and the undo
   * stack of before the edit, with the edit alone on the redo stack; a
   * `redo()` after that gives back the state right after the edit.
   */
  lemma UndoAfterEdit<E>(s: Snapshot<E>, a: Action<E>)
    requires Valid(s) && Perform(s, a).1
    ensures Undo(Perform(s, a).0).0 == s.(redo := [a]) && Undo(Perform(s, a).0).1
    ensures Redo(s.(redo := [a])).0 == Perform(s, a).0 && Redo(s.(redo := [a])).1
  {
    var t := Perform(s, a).0;
    PerformRecords(s, a);
    UndoRecorded(s, a, t);
    assert [a] + t.redo == [a];
    var u := s.(redo := [a]);
    assert Redo(u).0.undo == [a] + s.undo;
  }

  /** The `k`-th `redo()` of a run applies to the state the first `k - 1` left. */
  lemma {:induction false} RedosLast<E>(s: Snapshot<E>, k: nat)
    ensures Redos(s, k + 1) == Redo(Redos(s, k)).0
    decreases k
  {
    if k > 0 {
      RedosLast(Redo(s).0, k - 1);
    }
  }

  /** The `k`-th `undo()` of a run applies to the state the first `k - 1` left. */
  lemma {:induction false} UndosLast<E>(s: Snapshot<E>, k: nat)
    ensures Undos(s, k + 1) == Undo(Undos(s, k)).0
    decreases k
  {
    if k > 0 {
      UndosLast(Undo(s).0, k - 1);
    }
  }

  /** The inductive step of `UndoRedoRoundTrip`, apart from the invariant. */
  lemma UndoRedoStep<E>(s: Snapshot<E>, k: nat)
    requires k > 0
    requires Redos(Undos(Undo(s).0, k - 1), k - 1) == Undo(s).0 && Redo(Undo(s).0).0 == s
    ensures Redos(Undos(s, k), k) == s
  {
    RedosLast(Undos(Undo(s).0, k - 1), k - 1);
  }

  /** The inductive step of `RedoUndoRoundTrip`, apart from the invariant. */
  lemma RedoUndoStep<E>(s: Snapshot<E>, k: nat)
    requires k > 0
    requires Undos(Redos(Redo(s).0, k - 1), k - 1) == Redo(s).0 && Undo(Redo(s).0).0 == s
    ensures Undos(Redos(s, k), k) == s
  {
    UndosLast(Redos(Redo(s).0, k - 1), k - 1);
  }

  /**
   * Undoing `k` actions and then redoing `k` actions, with no edit between,
   * gives back exactly the state before the undos: bag and both stacks.
   */
  lemma {:induction false} UndoRedoRoundTrip<E>(s: Snapshot<E>, k: nat)
    requires Valid(s) && k <= |s.undo|
    ensures Redos(Undos(s, k), k) == s
    decreases k
  {
    if k > 0 {
      var s1 := Undo(s).0;
      UndoKeepsValid(s);
      UndoRedoRoundTrip(s1, k - 1);
      UndoThenRedo(s);
      UndoRedoStep(s, k);
    }
  }

  /**
   * Redoing `k` actions and then undoing `k` actions gives back exactly the
   * state before the redos.
   */
  lemma {:induction false} RedoUndoRoundTrip<E>(s: Snapshot<E>, k: nat)
    requires Valid(s) && k <= |s.redo|
    ensures Undos(Redos(s, k), k) == s
    decreases k
  {
    if k > 0 {
      var s1 := Redo(s).0;
      RedoKeepsValid(s);
      RedoUndoRoundTrip(s1, k - 1);
      RedoThenUndo(s);
      RedoUndoStep(s, k);
    }
  }

  /**
   * The inductive step of `UndoAllEdits`: if undoing all but one of the
   * recorded edits leaves the state the first edit produced, one more undo
   * leaves the state before it.
   */
  lemma UndoAllEditsStep<E>(s: Snapshot<E>, edits: seq<Action<E>>, x: Snapshot<E>)
    requires edits != [] && |s.bag| <= s.cap && Perform(s, edits[0]).1
    requires Undos(x, |edits| - 1).cap == s.cap
    requires Undos(x, |edits| - 1).bag == Perform(s, edits[0]).0.bag
    requires Undos(x, |edits| - 1).undo == [edits[0]] + s.undo
    requires Undos(x, |edits| - 1).redo == edits[1..]
    ensures Undos(x, |edits|) == s.(redo := edits)
  {
    UndosLast(x, |edits| - 1);
    UndoRecorded(s, edits[0], Undos(x, |edits| - 1));
    PopPush(edits);
  }

  /**
   * After a run of successful edits, as many `undo()` calls give back the
   * bag and the undo stack of before the run, and leave the edits, first
   * one on top, on the redo stack. Only the capacity bound is needed: the
   * edits themselves are always undoable, whatever the history held before.
   */
  lemma {:induction false} UndoAllEdits<E>(s: Snapshot<E>, edits: seq<Action<E>>)
    requires |s.bag| <= s.cap && PerformAll(s, edits).1
    ensures Undos(PerformAll(s, edits).0, |edits|).bag == s.bag
    ensures Undos(PerformAll(s, edits).0, |edits|).undo == s.undo
    ensures edits != [] ==> Undos(PerformAll(s, edits).0, |edits|).redo == edits
    decreases |edits|
  {
    if edits != [] {
      var t := Perform(s, edits[0]).0;
      PerformRecords(s, edits[0]);
      ForwardThenBackward(s.cap, s.bag, edits[0]);
      UndoAllEdits(t, edits[1..]);
      var x := PerformAll(t, edits[1..]).0;
      assert PerformAll(s, edits).0 == x;
      assert edits[1..] == [] ==> Undos(x, |edits| - 1) == t;
      UndoAllEditsStep(s, edits, x);
    }
  }

  /**
   * The first half of a run that starts empty: add x, add y, remove x.
   * Each call succeeds and records its action on top of the undo stack.
   */
  lemma ScenarioEdits(cap: nat)
    requires cap >= 3
    ensures AddEntry(Empty(cap), 'x').0 ==
            Snapshot(cap, multiset{'x'}, [Insert('x')], [])
    ensures AddEntry(Empty(cap), 'x').1
    ensures AddEntry(Snapshot(cap, multiset{'x'}, [Insert('x')], []), 'y').0 ==
            Snapshot(cap, multiset{'x', 'y'}, [Insert('y'), Insert('x')], [])
    ensures AddEntry(Snapshot(cap, multiset{'x'}, [Insert('x')], []), 'y').1
    ensures RemoveEntry(Snapshot(cap, multiset{'x', 'y'}, [Insert('y'), Insert('x')], []), 'x').0 ==
            Snapshot(cap, multiset{'y'}, [Remove('x'), Insert('y'), Insert('x')], [])
    ensures RemoveEntry(Snapshot(cap, multiset{'x', 'y'}, [Insert('y'), Insert('x')], []), 'x').1
  {
    assert multiset{'x'} + multiset{'y'} == multiset{'x', 'y'};
    assert multiset{'x', 'y'} - multiset{'x'} == multiset{'y'};
  }

  /**
   * The second half: undo (x is back), undo (y is gone), redo (y is back:
   * redo replays the action undone last), add z (the remaining redo entry
   * is discarded), and a last redo that finds nothing to redo.
   */
  lemma ScenarioHistory(cap: nat)
    requires cap >= 3
    ensures Undo(Snapshot(cap, multiset{'y'}, [Remove('x'), Insert('y'), Insert('x')], [])).0 ==
            Snapshot(cap, multiset{'x', 'y'}, [Insert('y'), Insert('x')], [Remove('x')])
    ensures Undo(Snapshot(cap, multiset{'y'}, [Remove('x'), Insert('y'), Insert('x')], [])).1
    ensures Undo(Snapshot(cap, multiset{'x', 'y'}, [Insert('y'), Insert('x')], [Remove('x')])).0 ==
            Snapshot(cap, multiset{'x'}, [Insert('x')], [Insert('y'), Remove('x')])
    ensures Undo(Snapshot(cap, multiset{'x', 'y'}, [Insert('y'), Insert('x')], [Remove('x')])).1
    ensures Redo(Snapshot(cap, multiset{'x'}, [Insert('x')], [Insert('y'), Remove('x')])).0 ==
            Snapshot(cap, multiset{'x', 'y'}, [Insert('y'), Insert('x')], [Remove('x')])
    ensures Redo(Snapshot(cap, multiset{'x'}, [Insert('x')], [Insert('y'), Remove('x')])).1
    ensures AddEntry(Snapshot(cap, multiset{'x', 'y'}, [Insert('y'), Insert('x')], [Remove('x')]), 'z').0 ==
            Snapshot(cap, multiset{'x', 'y', 'z'}, [Insert('z'), Insert('y'), Insert('x')], [])
    ensures AddEntry(Snapshot(cap, multiset{'x', 'y'}, [Insert('y'), Insert('x')], [Remove('x')]), 'z').1
    ensures Redo(Snapshot(cap, multiset{'x', 'y', 'z'}, [Insert('z'), Insert('y'), Insert('x')], [])).0 ==
            Snapshot(cap, multiset{'x', 'y', 'z'}, [Insert('z'), Insert('y'), Insert('x')], [])
    ensures !Redo(Snapshot(cap, multiset{'x', 'y', 'z'}, [Insert('z'), Insert('y'), Insert('x')], [])).1
  {
    assert multiset{'y'} + multiset{'x'} == multiset{'x', 'y'};
    assert multiset{'x', 'y'} - multiset{'y'} == multiset{'x'};
    assert multiset{'x'} + multiset{'y'} == multiset{'x', 'y'};
    assert multiset{'x', 'y'} + multiset{'z'} == multiset{'x', 'y', 'z'};
  }
}
