# Counter with a reveal threshold

A model of the counter widget of the `u2_lesson_useEffect` React lesson. The
repository has two divergent copies of one `Counter` component,
`src/components/Counter.js` and `src/components/Counter.jsx`. Each holds one
integer `count`, which starts at 0. Three buttons act on it:

- the increment handler (`incrementCount`) adds one;
- the decrement handler (`decrementCount`) subtracts one only when `count > 0`;
- the inline reset handler sets `count` back to 0.

When `count` equals the copy's threshold, the page shows a "surprise" instead
of the count. The threshold is 10 in `Counter.js` and 20 in `Counter.jsx`. In
that reveal mode the increment and decrement buttons are not rendered. The
reset button sits outside the conditional, so it is always rendered.

Files:

- `counter_machine.dfy`, module `CounterMachine`: the pure state machine.
  - `Apply` is what a handler does when it runs.
  - `IsRevealed` and `Controls` are the reveal choice and the buttons it renders.
  - `Step` is one click as the page can deliver it.
  - `Run` is a sequence of clicks.
  - The lemmas relate these.
- `counter.dfy`, module `CounterComponent`: class `Counter`, the component's
  state updated in place. It has a `threshold` constant and a mutable `count`.
  `Increment`, `Decrement` and `Reset` are the three handlers. `Click` runs a
  handler only when its button is on the page.
- `counter_js.dfy` (`CounterJs`, threshold 10) and `counter_jsx.dfy`
  (`CounterJsx`, threshold 20): the two copies, with mounting and the
  reachable range and reveal scenario of each.

`incrementCount` itself has no upper bound, and `Apply` and
`Counter.Increment` model it that way. But the page never offers it in reveal
mode. So a count that reaches the threshold can leave it only through reset,
and the counts a user can reach are exactly `[0, threshold]` (`ReachableIff`).
One consequence: "increment then decrement" through the page restores the
count everywhere in range except at `threshold - 1`. There, the increment
reveals and the decrement button disappears (`ClickIncrementDecrement`).

`count` is an unbounded `int`, not a `nat`. That makes the floor at zero a
property the handlers are proved to keep, not a fact of the type.

## Model

| member | source | states |
|---|---|---|
| CounterMachine.Apply | src/components/Counter.js:7-33 | a handler never takes a non-negative count below zero; reset yields 0 from any count |
| CounterMachine.Controls | src/components/Counter.js:17-36 | reset is always rendered; increment and decrement are rendered if and only if the count is not at the threshold |
| CounterMachine.Enabled | src/components/Counter.js:17-36 | a button can be clicked exactly when it is rendered: reset always, increment and decrement if and only if the count is not at the threshold |
| CounterMachine.Step | src/components/Counter.js:17-36 | a click keeps the count in [0, threshold]; a reset click always yields 0; in reveal mode every other click leaves the count unchanged |
| CounterMachine.Run | src/components/Counter.js:5-36 | any sequence of clicks from a count in [0, threshold] stays in that range; a sequence ending in reset ends at 0 |
| CounterMachine.IncrementsReach | src/components/Counter.js:7-17 | n increments from c reach exactly c + n while c + n is at most the threshold |
| CounterMachine.RevealedUntilReset | src/components/Counter.js:17-36 | from reveal mode, any clicks without a reset leave the count at the threshold |
| CounterMachine.ReachableIff | src/components/Counter.js:5-36 | a count is reachable from the initial 0 if and only if it lies in [0, threshold] |
| CounterMachine.DecrementUndoesIncrement | src/components/Counter.js:7-13 | the decrement handler undoes the increment handler if and only if the count is at or above 0 |
| CounterMachine.IncrementUndoesDecrement | src/components/Counter.js:7-13 | the increment handler undoes the decrement handler if and only if the count is above 0 |
| CounterMachine.ClickIncrementDecrement | src/components/Counter.js:7-31 | through the page, increment then decrement restores the count if and only if the count is not threshold - 1 |
| CounterMachine.DecrementFloor | src/components/Counter.js:11-13 | any number of decrements from 0 leaves 0 |
| CounterComponent.Counter.constructor | src/components/Counter.js:5 | the count starts at 0 and in range; it starts revealed only when the threshold is 0 |
| CounterComponent.Counter.Increment | src/components/Counter.js:7-9 | count becomes exactly one more; outside reveal mode the range invariant is kept |
| CounterComponent.Counter.Decrement | src/components/Counter.js:11-13 | count drops by one only when above 0, otherwise is unchanged; the floor and the range invariant are kept |
| CounterComponent.Counter.Reset | src/components/Counter.js:33 | count becomes 0 from any state, and reveal mode ends unless the threshold is 0 |
| CounterComponent.Counter.Click | src/components/Counter.js:17-36 | a click runs its handler exactly when its button is rendered, agrees with Step, and keeps count in [0, threshold] |
| CounterJs.Mount | src/components/Counter.js:5 | the copy with threshold 10 mounts at 0, not revealed, with all three buttons rendered |
| CounterJs.RevealedAt | src/components/Counter.js:17 | reveal mode holds if and only if the count is 10, and then reset is the only button rendered |
| CounterJs.Reachable | src/components/Counter.js:17-36 | the reachable counts of this copy are exactly 0 through 10 |
| CounterJs.TenIncrementsThenReset | src/components/Counter.js:7-33 | ten increments from 0 reach 10 and reveal; a reset then gives 0 and leaves reveal mode |
| CounterJsx.Mount | src/components/Counter.jsx:6 | the copy with threshold 20 mounts at 0, not revealed, with all three buttons rendered |
| CounterJsx.RevealedAt | src/components/Counter.jsx:22 | reveal mode holds if and only if the count is 20, and then reset is the only button rendered |
| CounterJsx.Reachable | src/components/Counter.jsx:22-35 | the reachable counts of this copy are exactly 0 through 20 |
| CounterJsx.TwentyIncrementsThenReset | src/components/Counter.jsx:12-34 | twenty increments from 0 reach 20 and reveal; a reset then gives 0 and leaves reveal mode |

`CounterMachine.IsRevealed` is the definition of reveal mode (count equals the threshold); its per-copy content is stated by `CounterJs.RevealedAt` and `CounterJsx.RevealedAt`. The class predicates `Counter.IsRevealed` and `Counter.Enabled` have no row of their own: they are `CounterMachine.IsRevealed` and `CounterMachine.Enabled` applied to the object's `threshold` and `count`.

## Left out

- JSX markup, inline styles and CSS class names: presentation only. Only which buttons are rendered is modelled (`Controls`).
- `src/components/Surprise.js`: a static embedded video player plus mount and unmount console logging. It holds no state logic. The model keeps only the fact that it replaces the count in reveal mode (`IsRevealed`).
- The `useEffect` console logging in `src/components/Counter.jsx`: a side effect tied to React's render cycle.
- React's `useState` scheduling, batching and stale closures. Each click is modelled as one synchronous, atomic update of `count`.
- JavaScript's floating-point numbers: `count` is an unbounded integer. Reachable counts never exceed the threshold, so precision never matters.
- A click on a button that is not rendered cannot occur. `Step` and `Counter.Click` model it as leaving the state unchanged, so that any sequence of actions can be run.
- Versions of the component with other thresholds are not part of this model. The threshold is a parameter of `CounterMachine` and `Counter`, so any such version is an instance.
