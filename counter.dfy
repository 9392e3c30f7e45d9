/** The counter component as an object: the threshold is fixed when the
    component is created, and `count` is the state the handlers update in
    place. */
module CounterComponent {
  import CounterMachine

  class Counter {
    /** The value at which the display switches into reveal mode. */
    const threshold: nat
    /** The component's only piece of state. */
    var count: int

    /** Every state a user can reach lies in [0, threshold]. */
    ghost predicate Valid()
      reads this
    {
      0 <= count <= threshold
    }

    /** Reveal mode, derived from `count` alone. */
    predicate IsRevealed()
      reads this
    {
      CounterMachine.IsRevealed(threshold, count)
    }

    /** Whether the control for `a` is on the page. */
    predicate Enabled(a: CounterMachine.Action)
      reads this
    {
      CounterMachine.Enabled(threshold, count, a)
    }

    /** Mounting the component: the state starts at zero. */
    constructor (threshold: nat)
      ensures this.threshold == threshold && count == 0
      ensures Valid()
      ensures IsRevealed() <==> threshold == 0
    {
      this.threshold := threshold;
      count := 0;
    }

    /** The increment handler: one more, whatever the mode. Offered only
        outside reveal mode, where it keeps the state in range. */
    method Increment()
      modifies this
      ensures count == old(count) + 1
      ensures old(Valid()) && !old(IsRevealed()) ==> Valid()
    {
      count := count + 1;
    }

    /** The decrement handler: one less above zero, nothing at zero or
        below, so the floor is never crossed. */
    method Decrement()
      modifies this
      ensures old(count) > 0 ==> count == old(count) - 1
      ensures old(count) <= 0 ==> count == old(count)
      ensures old(count) >= 0 ==> count >= 0
      ensures old(Valid()) ==> Valid()
    {
      if count > 0 {
        count := count - 1;
      }
    }

    /** The reset handler: zero from any state, reveal mode included. */
    method Reset()
      modifies this
      ensures count == 0
      ensures Valid() && (!IsRevealed() || threshold == 0)
    {
      count := 0;
    }

    /** A click on the control for `a`: the handler runs only when its
        control is rendered. */
    method Click(a: CounterMachine.Action)
      requires Valid()
      modifies this
      ensures Valid()
      ensures count == CounterMachine.Step(threshold, old(count), a)
      ensures old(Enabled(a)) ==> count == CounterMachine.Apply(old(count), a)
      ensures !old(Enabled(a)) ==> count == old(count)
    {
      if Enabled(a) {
        match a
        case Increment => Increment();
        case Decrement => Decrement();
        case Reset => Reset();
      }
    }
  }
}
