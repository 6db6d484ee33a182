/**
 * The counter widget's reducer (src/components/Counter.tsx).
 *
 * The component keeps a number in local state, starting at 0, and updates it
 * only through this reducer; `Run` folds the reducer over the actions the
 * widget's buttons dispatch.
 */
module Counter {
  datatype CounterAction = Inc | Dec | Reset

  /** The value the widget mounts with. */
  const InitialCount: int := 0

  /** One reducer step. */
  function Reduce(state: int, action: CounterAction): (r: int)
    ensures state >= 0 ==> r >= 0
    ensures action.Inc? ==> r > state
    ensures action.Dec? ==> r >= 0 && (state > 0 ==> r < state)
    ensures action.Reset? ==> r == InitialCount
  {
    match action
    case Inc => state + 1
    case Dec => if state - 1 > 0 then state - 1 else 0
    case Reset => 0
  }

  /**
   * The value after dispatching `acts` in order, starting from `init`. From a
   * non-negative start (the widget mounts at 0) it is never negative.
   */
  function Run(init: int, acts: seq<CounterAction>): (r: int)
    ensures init >= 0 ==> r >= 0
  {
    if |acts| == 0 then init else Reduce(Run(init, acts[..|acts| - 1]), acts[|acts| - 1])
  }

  /** How many increments `acts` holds. */
  function IncCount(acts: seq<CounterAction>): nat
  {
    if |acts| == 0 then 0
    else IncCount(acts[..|acts| - 1]) + (if acts[|acts| - 1].Inc? then 1 else 0)
  }

  /** `dec` is `max(0, state - 1)`: it takes one off a positive value and gives 0 otherwise. */
  lemma DecFloorsAtZero(state: int)
    ensures Reduce(state, Dec) == (if state > 0 then state - 1 else 0)
  {
  }

  /** `inc` adds exactly one. */
  lemma IncAddsOne(state: int)
    ensures Reduce(state, Inc) == state + 1
  {
  }

  /** On a non-negative value, `dec` undoes `inc`. */
  lemma DecUndoesInc(state: int)
    requires state >= 0
    ensures Reduce(Reduce(state, Inc), Dec) == state
  {
  }

  /** `reset` gives 0 from anywhere, so resetting twice is resetting once. */
  lemma ResetIdempotent(state: int)
    ensures Reduce(state, Reset) == 0
    ensures Reduce(Reduce(state, Reset), Reset) == Reduce(state, Reset)
  {
  }

  /** The counter never exceeds its start plus the number of increments. */
  lemma {:induction false} BoundedByIncrements(init: int, acts: seq<CounterAction>)
    requires init >= 0
    ensures Run(init, acts) <= init + IncCount(acts)
  {
    if |acts| > 0 {
      BoundedByIncrements(init, acts[..|acts| - 1]);
    }
  }

  /** After a `reset`, the value depends only on the actions that follow it. */
  lemma {:induction false} ResetForgetsHistory(init: int, before: seq<CounterAction>, after: seq<CounterAction>)
    ensures Run(init, before + [Reset] + after) == Run(InitialCount, after)
  {
    var all := before + [Reset] + after;
    if |after| == 0 {
      assert all == before + [Reset];
      assert all[..|all| - 1] == before;
    } else {
      var init' := after[..|after| - 1];
      assert all[..|all| - 1] == before + [Reset] + init';
      ResetForgetsHistory(init, before, init');
    }
  }
}
