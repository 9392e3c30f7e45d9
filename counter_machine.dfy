/** The counter widget as a pure state machine.

    The whole state is one integer `count`. Three user actions act on it
    (the component's `incrementCount`, `decrementCount` and inline reset
    handler), and one derived display mode, "reveal", is on exactly when
    `count` equals a fixed threshold. While revealed, the increment and
    decrement controls are not rendered; the reset control always is.

    `Apply` is what a handler does when it runs. `Step` is one click as the
    rendered page can deliver it: a click on a control that is not on the
    page cannot happen, and is modelled as leaving the state unchanged, so
    that `Run` is defined for every sequence of actions. */
module CounterMachine {

  /** The three user actions, one per button. */
  datatype Action = Increment | Decrement | Reset

  /** The effect of running the handler for `a` on `count == c`:
      increment adds one, decrement subtracts one only above zero, reset
      goes back to zero. */
  function Apply(c: int, a: Action): (r: int)
    // the floor at zero is never crossed
    ensures c >= 0 ==> r >= 0
    // reset is total: it yields zero from any state
    ensures a == Reset ==> r == 0
  {
    match a
    case Increment => c + 1
    case Decrement => if c > 0 then c - 1 else c
    case Reset => 0
  }

  /** Reveal mode: the display shows the surprise instead of the count. */
  predicate IsRevealed(threshold: nat, c: int) {
    c == threshold
  }

  /** The controls the page renders for `count == c`: all three in normal
      mode, only reset in reveal mode. */
  function Controls(threshold: nat, c: int): (r: set<Action>)
    ensures Reset in r
    ensures Increment in r <==> !IsRevealed(threshold, c)
    ensures Decrement in r <==> !IsRevealed(threshold, c)
  {
    if IsRevealed(threshold, c) then {Reset} else {Increment, Decrement, Reset}
  }

  /** Whether the control for `a` is on the page: reset always, the other
      two exactly outside reveal mode. */
  predicate Enabled(threshold: nat, c: int, a: Action)
    ensures Enabled(threshold, c, a) <==> (a == Reset || !IsRevealed(threshold, c))
  {
    match a
    case Increment => Increment in Controls(threshold, c)
    case Decrement => Decrement in Controls(threshold, c)
    case Reset => Reset in Controls(threshold, c)
  }

  /** One click on the control for `a`, as the page can deliver it. */
  function Step(threshold: nat, c: int, a: Action): (r: int)
    // the reachable range [0, threshold] is preserved
    ensures 0 <= c <= threshold ==> 0 <= r <= threshold
    // reset is always on the page and always yields zero
    ensures a == Reset ==> r == 0
    // while revealed, only reset changes the state
    ensures IsRevealed(threshold, c) && a != Reset ==> r == c
  {
    if Enabled(threshold, c, a) then Apply(c, a) else c
  }

  /** The count after the clicks in `actions`, in order, starting from `c`. */
  function Run(threshold: nat, c: int, actions: seq<Action>): (r: int)
    // every count reachable from the range stays in the range
    ensures 0 <= c <= threshold ==> 0 <= r <= threshold
    // a final reset leaves zero, whatever came before
    ensures |actions| > 0 && actions[|actions| - 1] == Reset ==> r == 0
    decreases |actions|
  {
    if actions == [] then c else Run(threshold, Step(threshold, c, actions[0]), actions[1..])
  }

  /** `n` clicks on the same control. */
  function Repeat(a: Action, n: nat): (r: seq<Action>)
    ensures |r| == n
    ensures forall i :: 0 <= i < n ==> r[i] == a
  {
    if n == 0 then [] else [a] + Repeat(a, n - 1)
  }

  /** Below the threshold every increment is offered and adds one, so `n`
      increments from `c` reach `c + n` as long as that is at most the
      threshold. */
  lemma {:induction false} IncrementsReach(threshold: nat, c: int, n: nat)
    requires 0 <= c && c + n <= threshold
    ensures Run(threshold, c, Repeat(Increment, n)) == c + n
    decreases n
  {
    if n > 0 {
      assert Repeat(Increment, n)[1..] == Repeat(Increment, n - 1);
      IncrementsReach(threshold, c + 1, n - 1);
    }
  }

  /** Once revealed, the count stays at the threshold until a reset: the
      only control left on the page is reset. */
  lemma {:induction false} RevealedUntilReset(threshold: nat, actions: seq<Action>)
    requires forall i :: 0 <= i < |actions| ==> actions[i] != Reset
    ensures Run(threshold, threshold, actions) == threshold
    decreases |actions|
  {
    if actions != [] {
      RevealedUntilReset(threshold, actions[1..]);
    }
  }

  /** The counts reachable from the initial state 0 are exactly the
      integers in [0, threshold]. */
  lemma ReachableIff(threshold: nat, c: int)
    ensures (exists actions :: Run(threshold, 0, actions) == c) <==> 0 <= c <= threshold
  {
    if 0 <= c <= threshold {
      IncrementsReach(threshold, 0, c);
    }
  }

  /** The handlers alone: decrement undoes increment from any count at or
      above the floor, and only there. */
  lemma DecrementUndoesIncrement(c: int)
    ensures Apply(Apply(c, Increment), Decrement) == c <==> c >= 0
  {
  }

  /** The handlers alone: increment undoes decrement strictly above zero,
      and only there. */
  lemma IncrementUndoesDecrement(c: int)
    ensures Apply(Apply(c, Decrement), Increment) == c <==> c > 0
  {
  }

  /** Through the page, increment then decrement returns to the original
      count everywhere in range except one below the threshold, where the
      increment reveals and the decrement control disappears. */
  lemma ClickIncrementDecrement(threshold: nat, c: int)
    requires 0 <= c <= threshold
    ensures Run(threshold, c, [Increment, Decrement]) == c <==> c != threshold - 1
  {
  }

  /** Decrement at zero leaves zero, and stays there however often it is
      clicked. */
  lemma {:induction false} DecrementFloor(threshold: nat, n: nat)
    ensures Run(threshold, 0, Repeat(Decrement, n)) == 0
    decreases n
  {
    if n > 0 {
      assert Repeat(Decrement, n)[1..] == Repeat(Decrement, n - 1);
      DecrementFloor(threshold, n - 1);
    }
  }
}
