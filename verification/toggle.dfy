/**
  * `useToggle`: the open/closed flag of the date picker's popover and its three
  * operations. Each operation is a transition that also reports whether it
  * wrote to the flag, since a write is what observers of the flag react to.
  */
module Toggle {

  /** The `opened` flag. */
  datatype ToggleState = ToggleState(isOpen: bool)

  /** The state after an operation, and whether the operation assigned to the flag. */
  datatype Step = Step(state: ToggleState, wrote: bool)

  /** `useToggle(initialValue)`: the flag starts at `initialValue`. */
  function UseToggle(initialValue: bool): (s: ToggleState)
    ensures s.isOpen == initialValue
  {
    ToggleState(initialValue)
  }

  /** `toggle`: always writes, and flips the flag. */
  function Toggle(s: ToggleState): (r: Step)
    ensures r.state.isOpen == !s.isOpen
    ensures r.wrote
  {
    Step(ToggleState(!s.isOpen), true)
  }

  /** `open`: leaves the flag set, writing only when it was clear. */
  function Open(s: ToggleState): (r: Step)
    ensures r.state.isOpen
    ensures r.wrote <==> !s.isOpen
    ensures !r.wrote ==> r.state == s
  {
    if !s.isOpen then Step(ToggleState(true), true) else Step(s, false)
  }

  /** `close`: leaves the flag clear, writing only when it was set. */
  function Close(s: ToggleState): (r: Step)
    ensures !r.state.isOpen
    ensures r.wrote <==> s.isOpen
    ensures !r.wrote ==> r.state == s
  {
    if s.isOpen then Step(ToggleState(false), true) else Step(s, false)
  }

  /** Toggling twice restores the original state. */
  lemma ToggleTwice(s: ToggleState)
    ensures Toggle(Toggle(s).state).state == s
  {
  }

  /** A second `open` writes nothing and changes nothing. */
  lemma OpenIdempotent(s: ToggleState)
    ensures Open(Open(s).state) == Step(Open(s).state, false)
  {
  }

  /** A second `close` writes nothing and changes nothing. */
  lemma CloseIdempotent(s: ToggleState)
    ensures Close(Close(s).state) == Step(Close(s).state, false)
  {
  }

  datatype Op = ToggleOp | OpenOp | CloseOp

  function Apply(s: ToggleState, op: Op): Step
  {
    match op
    case ToggleOp => Toggle(s)
    case OpenOp => Open(s)
    case CloseOp => Close(s)
  }

  /** Every operation writes exactly when it changes the flag: no write is unobservable. */
  lemma WriteIffChange(s: ToggleState, op: Op)
    ensures Apply(s, op).wrote <==> Apply(s, op).state != s
  {
  }

  /** The final state of a run of operations and the number of writes it made. */
  datatype Outcome = Outcome(state: ToggleState, writes: nat)

  function Run(s: ToggleState, ops: seq<Op>): (r: Outcome)
    ensures r.writes <= |ops|
    decreases |ops|
  {
    if |ops| == 0 then Outcome(s, 0)
    else
      var step := Apply(s, ops[0]);
      var rest := Run(step.state, ops[1..]);
      Outcome(rest.state, rest.writes + if step.wrote then 1 else 0)
  }

  /** Since each write flips the flag, the flag ends flipped exactly when a run made an odd number of writes. */
  lemma {:induction false} RunParity(s: ToggleState, ops: seq<Op>)
    ensures Run(s, ops).state.isOpen == (s.isOpen != (Run(s, ops).writes % 2 == 1))
    decreases |ops|
  {
    if |ops| > 0 {
      var step := Apply(s, ops[0]);
      WriteIffChange(s, ops[0]);
      RunParity(step.state, ops[1..]);
    }
  }

  /** Any number of `open` calls on a closed picker opens it with exactly one write. */
  lemma {:induction false} RepeatedOpenWritesOnce(n: nat)
    requires n >= 1
    ensures Run(UseToggle(false), seq(n, _ => OpenOp)) == Outcome(ToggleState(true), 1)
  {
    var ops := seq(n, _ => OpenOp);
    assert ops[1..] == seq(n - 1, _ => OpenOp);
    OpenedStaysOpen(n - 1);
  }

  /** `open` calls on an open picker never write. */
  lemma {:induction false} OpenedStaysOpen(n: nat)
    ensures Run(ToggleState(true), seq(n, _ => OpenOp)) == Outcome(ToggleState(true), 0)
    decreases n
  {
    if n > 0 {
      var ops := seq(n, _ => OpenOp);
      assert ops[1..] == seq(n - 1, _ => OpenOp);
      OpenedStaysOpen(n - 1);
    }
  }

  /** `close` on a freshly created closed toggle is a no-op. */
  lemma CloseOnFreshIsNoop()
    ensures Close(UseToggle(false)) == Step(UseToggle(false), false)
  {
  }
}
