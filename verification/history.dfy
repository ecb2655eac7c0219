/**
 * The generic snapshot history of hooks/use-history.ts: a past stack, a
 * present value and a future stack, with undo/redo moving one value at a
 * time between them. The source compares values with JSON.stringify; here
 * that is structural equality.
 */
module History {

  datatype History<T> = History(past: seq<T>, present: T, future: seq<T>)

  /** A fresh history holding only `v`. */
  function Init<T>(v: T): (h: History<T>)
    ensures h.past == [] && h.future == [] && h.present == v
  {
    History([], v, [])
  }

  /** Number of snapshots the history remembers, present included. */
  function Size<T>(h: History<T>): nat
  {
    |h.past| + 1 + |h.future|
  }

  predicate CanUndo<T>(h: History<T>)
  {
    |h.past| > 0
  }

  predicate CanRedo<T>(h: History<T>)
  {
    |h.future| > 0
  }

  /** Installs `v` as the present unless it equals the current present. */
  function Set<T(==)>(h: History<T>, v: T): (r: History<T>)
    ensures v == h.present ==> r == h
    ensures v != h.present ==>
      && r.past == h.past + [h.present]
      && r.present == v
      && r.future == []
    ensures Size(r) >= 1 + |h.past|
  {
    if v == h.present then h else History(h.past + [h.present], v, [])
  }

  /** Moves the newest past snapshot into the present. */
  function Undo<T>(h: History<T>): (r: History<T>)
    ensures !CanUndo(h) ==> r == h
    ensures CanUndo(h) ==>
      && r.present == h.past[|h.past| - 1]
      && r.past == h.past[..|h.past| - 1]
      && r.future == [h.present] + h.future
    ensures Size(r) == Size(h)
  {
    if |h.past| == 0 then h
    else History(h.past[..|h.past| - 1], h.past[|h.past| - 1], [h.present] + h.future)
  }

  /** Moves the oldest future snapshot into the present. */
  function Redo<T>(h: History<T>): (r: History<T>)
    ensures !CanRedo(h) ==> r == h
    ensures CanRedo(h) ==>
      && r.present == h.future[0]
      && r.past == h.past + [h.present]
      && r.future == h.future[1..]
    ensures Size(r) == Size(h)
  {
    if |h.future| == 0 then h
    else History(h.past + [h.present], h.future[0], h.future[1..])
  }

  /** Forgets both stacks; used when another session is loaded. */
  function Reset<T>(v: T): (r: History<T>)
    ensures r.past == [] && r.future == [] && r.present == v
    ensures !CanUndo(r) && !CanRedo(r)
  {
    History([], v, [])
  }

  /** Redo undoes an Undo. */
  lemma RedoAfterUndo<T>(h: History<T>)
    requires CanUndo(h)
    ensures Redo(Undo(h)) == h
  {
    var u := Undo(h);
    assert u.past + [u.present] == h.past;
  }

  /** Undo undoes a Redo. */
  lemma UndoAfterRedo<T>(h: History<T>)
    requires CanRedo(h)
    ensures Undo(Redo(h)) == h
  {
    var r := Redo(h);
    assert [r.present] + r.future == h.future;
  }

  /** Undo after an effective Set restores the previous present and past. */
  lemma UndoAfterSet<T>(h: History<T>, v: T)
    requires v != h.present
    ensures Undo(Set(h, v)).present == h.present
    ensures Undo(Set(h, v)).past == h.past
    ensures Undo(Set(h, v)).future == [v]
  {
  }

  /**
   * After Set there is something to redo only when the Set was a no-op and
   * there was something to redo before.
   */
  lemma SetClearsFuture<T>(h: History<T>, v: T)
    ensures CanRedo(Set(h, v)) <==> (v == h.present && CanRedo(h))
  {
  }

  /** Every snapshot the history remembers satisfies `P`. */
  predicate Every<T>(h: History<T>, P: T -> bool)
  {
    && P(h.present)
    && (forall i :: 0 <= i < |h.past| ==> P(h.past[i]))
    && (forall i :: 0 <= i < |h.future| ==> P(h.future[i]))
  }

  /** Set, Undo and Redo keep a property of every snapshot when the new value has it. */
  lemma EveryPreserved<T>(h: History<T>, v: T, P: T -> bool)
    requires Every(h, P)
    requires P(v)
    ensures Every(Set(h, v), P)
    ensures Every(Undo(h), P)
    ensures Every(Redo(h), P)
  {
    if CanUndo(h) {
      var u := Undo(h);
      assert forall i :: 0 <= i < |u.future| ==> u.future[i] == if i == 0 then h.present else h.future[i - 1];
    }
    if CanRedo(h) {
      var r := Redo(h);
      assert forall i :: 0 <= i < |r.past| ==> r.past[i] == if i < |h.past| then h.past[i] else h.present;
    }
  }
}
