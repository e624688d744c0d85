/**
 * The undo/redo history of a bag, as values.
 *
 * A `Snapshot` is everything an undoable bag holds: the capacity of the
 * underlying bag, its contents as a multiset, and the two history stacks.
 * Both stacks keep their top at index 0: a push is `[a] + s`, a pop takes
 * `s[0]` and leaves `s[1..]`.
 *
 * Each state-changing operation of the bag (`add`, `remove(e)`, `undo`,
 * `redo`) is a function from one snapshot to the next, paired with the
 * boolean the operation reports. `remove()` is `RemoveEntry` on the element
 * it returns, and `clear()` changes nothing.
 */
module History {

  /** One reversible mutation: an insertion or a removal of one element. */
  datatype Action<E> = Insert(data: E) | Remove(data: E)

  datatype Snapshot<E> = Snapshot(
    cap: nat,
    bag: multiset<E>,
    undo: seq<Action<E>>,
    redo: seq<Action<E>>)

  /** The bag a new undoable bag starts with: empty, with empty stacks. */
  function Empty<E>(cap: nat): Snapshot<E>
  {
    Snapshot(cap, multiset{}, [], [])
  }

  // ---------------------------------------------------------------------
  // Stacks as sequences, top at index 0.

  /** Pushing back what was just popped gives back the stack. */
  lemma PopPush<T>(s: seq<T>)
    requires s != []
    ensures [s[0]] + s[1..] == s
  {
  }

  // ---------------------------------------------------------------------
  // The underlying bag: a multiset whose size is bounded by a capacity.

  /** Adds one occurrence of `e`; fails, changing nothing, when the bag is full. */
  function BagAdd<E>(cap: nat, b: multiset<E>, e: E): (multiset<E>, bool)
  {
    if |b| < cap then (b + multiset{e}, true) else (b, false)
  }

  /** Removes one occurrence of `e`; fails, changing nothing, when `e` is absent. */
  function BagRemove<E>(b: multiset<E>, e: E): (multiset<E>, bool)
  {
    if e in b then (b - multiset{e}, true) else (b, false)
  }

  /** The original effect of an action, as `redo` re-applies it. */
  function Forward<E>(cap: nat, b: multiset<E>, a: Action<E>): (multiset<E>, bool)
  {
    match a
    case Insert(v) => BagAdd(cap, b, v)
    case Remove(v) => BagRemove(b, v)
  }

  /** The opposite effect of an action, as `undo` applies it. */
  function Backward<E>(cap: nat, b: multiset<E>, a: Action<E>): (multiset<E>, bool)
  {
    match a
    case Insert(v) => BagRemove(b, v)
    case Remove(v) => BagAdd(cap, b, v)
  }

  /**
   * When the original effect of an action succeeds on a bag within its
   * capacity, the opposite effect succeeds on the result and gives the bag
   * back, and the result is still within the capacity.
   */
  lemma ForwardThenBackward<E>(cap: nat, b: multiset<E>, a: Action<E>)
    ensures |b| <= cap && Forward(cap, b, a).1 ==>
              |Forward(cap, b, a).0| <= cap && Backward(cap, Forward(cap, b, a).0, a) == (b, true)
  {
    match a
    case Insert(v) => assert (b + multiset{v}) - multiset{v} == b;
    case Remove(v) => if v in b { assert (b - multiset{v}) + multiset{v} == b; }
  }

  /**
   * When the opposite effect of an action succeeds on a bag within its
   * capacity, the original effect succeeds on the result and gives the bag
   * back, and the result is still within the capacity.
   */
  lemma BackwardThenForward<E>(cap: nat, b: multiset<E>, a: Action<E>)
    ensures |b| <= cap && Backward(cap, b, a).1 ==>
              |Backward(cap, b, a).0| <= cap && Forward(cap, Backward(cap, b, a).0, a) == (b, true)
  {
    match a
    case Insert(v) => if v in b { assert (b - multiset{v}) + multiset{v} == b; }
    case Remove(v) => assert (b + multiset{v}) - multiset{v} == b;
  }

  // ---------------------------------------------------------------------
  // The invariant that keeps the history in step with the bag.

  /** Undoing every action of `undo`, top first, succeeds at every step. */
  predicate UndoReplayable<E>(cap: nat, b: multiset<E>, undo: seq<Action<E>>)
    decreases |undo|
  {
    undo == [] ||
    (Backward(cap, b, undo[0]).1 && UndoReplayable(cap, Backward(cap, b, undo[0]).0, undo[1..]))
  }

  /** Redoing every action of `redo`, top first, succeeds at every step. */
  predicate RedoReplayable<E>(cap: nat, b: multiset<E>, redo: seq<Action<E>>)
    decreases |redo|
  {
    redo == [] ||
    (Forward(cap, b, redo[0]).1 && RedoReplayable(cap, Forward(cap, b, redo[0]).0, redo[1..]))
  }

  /**
   * The bag respects its capacity, and every recorded action can still be
   * replayed: the undo stack backwards from the current bag, the redo stack
   * forwards from it.
   */
  predicate Valid<E>(s: Snapshot<E>)
  {
    |s.bag| <= s.cap && UndoReplayable(s.cap, s.bag, s.undo) && RedoReplayable(s.cap, s.bag, s.redo)
  }

  // ---------------------------------------------------------------------
  // The operations.

  /** A successful mutation: the new bag, `a` pushed on undo, redo emptied. */
  function Record<E>(s: Snapshot<E>, b: multiset<E>, a: Action<E>): Snapshot<E>
  {
    s.(bag := b, undo := [a] + s.undo, redo := [])
  }

  /** `add(e)`: delegate to the bag; on success record `Insert(e)`. */
  function AddEntry<E>(s: Snapshot<E>, e: E): (r: (Snapshot<E>, bool))
    ensures r.1 <==> |s.bag| < s.cap
    ensures r.0.cap == s.cap
    ensures r.1 ==> r.0.bag == s.bag + multiset{e} && r.0.redo == [] &&
                    |r.0.undo| == |s.undo| + 1 && r.0.undo[0] == Insert(e) && r.0.undo[1..] == s.undo
    ensures !r.1 ==> r.0 == s
  {
    var (b, ok) := BagAdd(s.cap, s.bag, e);
    if ok then
      var t := Record(s, b, Insert(e));
      assert t.undo[1..] == s.undo;
      (t, true)
    else (s, false)
  }

  /** `remove(e)`: delegate to the bag; on success record `Remove(e)`. */
  function RemoveEntry<E>(s: Snapshot<E>, e: E): (r: (Snapshot<E>, bool))
    ensures r.1 <==> e in s.bag
    ensures r.0.cap == s.cap
    ensures r.1 ==> r.0.bag == s.bag - multiset{e} && r.0.redo == [] &&
                    |r.0.undo| == |s.undo| + 1 && r.0.undo[0] == Remove(e) && r.0.undo[1..] == s.undo
    ensures !r.1 ==> r.0 == s
  {
    var (b, ok) := BagRemove(s.bag, e);
    if ok then
      var t := Record(s, b, Remove(e));
      assert t.undo[1..] == s.undo;
      (t, true)
    else (s, false)
  }

  /** The mutation an action describes: `Insert(e)` is `add(e)`, `Remove(e)` is `remove(e)`. */
  function Perform<E>(s: Snapshot<E>, a: Action<E>): (Snapshot<E>, bool)
  {
    match a
    case Insert(e) => AddEntry(s, e)
    case Remove(e) => RemoveEntry(s, e)
  }

  /**
   * `undo()`: with nothing to undo, report false and change nothing;
   * otherwise move the top action to the redo stack and apply its opposite
   * effect, reporting whether the bag accepted it.
   */
  function Undo<E>(s: Snapshot<E>): (r: (Snapshot<E>, bool))
    ensures s.undo == [] ==> r == (s, false)
    ensures s.undo != [] ==> r.0.cap == s.cap && r.0.undo == s.undo[1..] &&
                             r.0.redo == [s.undo[0]] + s.redo
    ensures s.undo != [] ==> r.0.bag == Backward(s.cap, s.bag, s.undo[0]).0 &&
                             r.1 == Backward(s.cap, s.bag, s.undo[0]).1
    ensures |r.0.undo| + |r.0.redo| == |s.undo| + |s.redo|
  {
    if s.undo == [] then (s, false)
    else
      var a := s.undo[0];
      var (b, ok) := Backward(s.cap, s.bag, a);
      var t := s.(bag := b, undo := s.undo[1..], redo := [a] + s.redo);
      (t, ok)
  }

  /**
   * `redo()`: with nothing to redo, report false and change nothing;
   * otherwise move the top action back to the undo stack and re-apply its
   * original effect, reporting whether the bag accepted it.
   */
  function Redo<E>(s: Snapshot<E>): (r: (Snapshot<E>, bool))
    ensures s.redo == [] ==> r == (s, false)
    ensures s.redo != [] ==> r.0.cap == s.cap && r.0.redo == s.redo[1..] &&
                             r.0.undo == [s.redo[0]] + s.undo
    ensures s.redo != [] ==> r.0.bag == Forward(s.cap, s.bag, s.redo[0]).0 &&
                             r.1 == Forward(s.cap, s.bag, s.redo[0]).1
    ensures |r.0.undo| + |r.0.redo| == |s.undo| + |s.redo|
  {
    if s.redo == [] then (s, false)
    else
      var a := s.redo[0];
      var (b, ok) := Forward(s.cap, s.bag, a);
      var t := s.(bag := b, undo := [a] + s.undo, redo := s.redo[1..]);
      (t, ok)
  }

  /**
   * An edit keeps the bag consistent: on success the bag stays within its
   * capacity, the recorded action can be undone, and the redo stack is
   * empty; on failure nothing changes.
   */
  lemma PerformKeepsValid<E>(s: Snapshot<E>, a: Action<E>)
    requires Valid(s)
    ensures Valid(Perform(s, a).0)
  {
    var t := Perform(s, a).0;
    if Perform(s, a).1 {
      ForwardThenBackward(s.cap, s.bag, a);
      assert t.bag == Forward(s.cap, s.bag, a).0;
      assert t.undo[0] == a && t.undo[1..] == s.undo;
    }
  }

  /**
   * On a consistent bag `undo()` succeeds exactly when there is something to
   * undo, and the bag stays consistent.
   */
  lemma UndoKeepsValid<E>(s: Snapshot<E>)
    requires Valid(s)
    ensures Valid(Undo(s).0)
    ensures Undo(s).1 <==> s.undo != []
  {
    if s.undo != [] {
      var a := s.undo[0];
      BackwardThenForward(s.cap, s.bag, a);
      assert Undo(s).0.redo[1..] == s.redo;
    }
  }

  /**
   * On a consistent bag `redo()` succeeds exactly when there is something to
   * redo, and the bag stays consistent.
   */
  lemma RedoKeepsValid<E>(s: Snapshot<E>)
    requires Valid(s)
    ensures Valid(Redo(s).0)
    ensures Redo(s).1 <==> s.redo != []
  {
    if s.redo != [] {
      var a := s.redo[0];
      ForwardThenBackward(s.cap, s.bag, a);
      assert Redo(s).0.undo[1..] == s.undo;
    }
  }
}
