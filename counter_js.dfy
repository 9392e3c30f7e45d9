/** The copy of the component in `src/components/Counter.js`: reveal mode
    at a count of exactly 10. */
module CounterJs {
  import opened CounterMachine
  import CounterComponent

  /** The reveal threshold of this copy. */
  const Threshold: nat := 10

  /** Mounting this copy: the count starts at zero, not revealed, with all
      three controls on the page. */
  method Mount() returns (c: CounterComponent.Counter)
    ensures fresh(c)
    ensures c.threshold == Threshold && c.count == 0 && c.Valid()
    ensures !c.IsRevealed()
    ensures c.Enabled(Increment) && c.Enabled(Decrement) && c.Enabled(Reset)
  {
    c := new CounterComponent.Counter(Threshold);
  }

  /** This copy's reveal choice: the surprise replaces the count, and only
      reset stays on the page, exactly at a count of 10. */
  lemma RevealedAt(c: int)
    ensures IsRevealed(Threshold, c) <==> c == 10
    ensures Controls(Threshold, c) == {Reset} <==> c == 10
  {
  }

  /** The counts a user of this copy can reach are exactly 0 through 10. */
  lemma Reachable(c: int)
    ensures (exists actions :: Run(Threshold, 0, actions) == c) <==> 0 <= c <= 10
  {
    ReachableIff(Threshold, c);
  }

  /** Ten increments from the start reveal; a reset then returns to zero
      and leaves reveal mode. */
  lemma TenIncrementsThenReset()
    ensures Run(Threshold, 0, Repeat(Increment, 10)) == 10
    ensures IsRevealed(Threshold, Run(Threshold, 0, Repeat(Increment, 10)))
    ensures Run(Threshold, 0, Repeat(Increment, 10) + [Reset]) == 0
    ensures !IsRevealed(Threshold, Run(Threshold, 0, Repeat(Increment, 10) + [Reset]))
  {
    IncrementsReach(Threshold, 0, 10);
  }
}
