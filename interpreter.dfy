/** The dispatch loop.  A pure small-step semantics (Perform, Step, Exec)
    specifies what one run does to the tape, the pending input and the
    output; `Run` is the loop itself over a machine object, proved to end
    in the state `Exec` describes. */
module Interpreter {
  import opened Commands
  import opened Tape
  import opened JumpTable
  import opened Machine

  /** Everything a run changes: the tape, the input not yet read (one value
      per `,`) and the values emitted by `.`. */
  datatype State = State(tape: TapeState, input: seq<int>, output: seq<int>)

  /** A state together with the index of the next instruction. */
  datatype Config = Config(state: State, index: nat)

  /** Result of one non-bracket command: the next state, or a fault when it
      would access a cell through a pointer below zero. */
  datatype Effect = Done(state: State) | Fault(ptr: int)

  datatype StepResult = Next(config: Config) | StepFault(ptr: int)

  /** How a run ends: the instruction stream is exhausted, the step budget is
      spent, or a cell was accessed through a negative pointer. */
  datatype Outcome = Finished | OutOfFuel | PointerFault(ptr: int)

  /** `jump_forward`: on a zero cell, continue just after the matching `]`. */
  function JumpForward(t: TapeState, index: nat, jp: JumpPairs): nat
    requires InBounds(t)
    requires Cell(t) == 0 ==> index in jp.opening
  {
    if Cell(t) == 0 then jp.opening[index] + 1 else index + 1
  }

  /** `jump_backward`: on a non-zero cell, continue just after the matching `[`. */
  function JumpBackward(t: TapeState, index: nat, jp: JumpPairs): nat
    requires InBounds(t)
    requires Cell(t) != 0 ==> index in jp.closing
  {
    if Cell(t) != 0 then jp.closing[index] + 1 else index + 1
  }

  /** With the table of the program, `[` on a zero cell skips the whole loop
      body (it lands just after the `]` that is paired back with it), and
      otherwise enters the body. */
  lemma JumpForwardTarget(p: seq<char>, jp: JumpPairs, t: TapeState, i: nat)
    requires WellMatched(p, jp) && i < |p| && p[i] == '[' && InBounds(t)
    ensures var next := JumpForward(t, i, jp);
      && i < next <= |p|
      && (Cell(t) == 0 ==> p[next - 1] == ']' && jp.closing[next - 1] == i && BalancedIn(p, i + 1, next - 1))
      && (Cell(t) != 0 ==> next == i + 1)
  {
  }

  /** With the table of the program, `]` on a non-zero cell goes back to the
      first instruction of the loop body (just after the paired `[`), and
      otherwise leaves the loop. */
  lemma JumpBackwardTarget(p: seq<char>, jp: JumpPairs, t: TapeState, j: nat)
    requires WellMatched(p, jp) && j < |p| && p[j] == ']' && InBounds(t)
    ensures var next := JumpBackward(t, j, jp);
      && 0 < next <= |p|
      && (Cell(t) != 0 ==> next <= j && p[next - 1] == '[' && jp.opening[next - 1] == j && BalancedIn(p, next, j))
      && (Cell(t) == 0 ==> next == j + 1)
  {
  }

  /** Every `[` and `]` of the program has a jump target inside it. */
  ghost predicate Covers(p: seq<char>, jp: JumpPairs) {
    && (forall i :: 0 <= i < |p| && p[i] == '[' ==> i in jp.opening && jp.opening[i] < |p|)
    && (forall j :: 0 <= j < |p| && p[j] == ']' ==> j in jp.closing && jp.closing[j] < |p|)
  }

  lemma WellMatchedCovers(p: seq<char>, jp: JumpPairs)
    requires WellMatched(p, jp)
    ensures Covers(p, jp)
  {
    forall j | 0 <= j < |p| && p[j] == ']' ensures jp.closing[j] < |p| {
      assert jp.opening[jp.closing[j]] == j;
    }
  }

  /** One non-bracket command.  `,` at end of input leaves everything as it
      is and touches no cell. */
  function Perform(cmd: char, s: State): (e: Effect)
    requires IsCommand(cmd) && cmd != '[' && cmd != ']'
    ensures Tape.Valid(s.tape) && e.Done? ==> Tape.Valid(e.state.tape)
    ensures Tape.Valid(s.tape) ==>
      (e.Fault? <==> s.tape.ptr < 0 && (cmd == '+' || cmd == '-' || cmd == '.' || (cmd == ',' && s.input != [])))
    ensures e.Fault? ==> e.ptr == s.tape.ptr
    ensures e.Done? && cmd != '.' ==> e.state.output == s.output
    ensures e.Done? && cmd == '.' ==> |e.state.output| == |s.output| + 1 && e.state.output[..|s.output|] == s.output
    ensures e.Done? && cmd != ',' ==> e.state.input == s.input
    ensures e.Done? && cmd == '>' ==> e.state.tape == MoveRight(s.tape)
    ensures e.Done? && cmd == '<' ==> e.state.tape == MoveLeft(s.tape)
    ensures e.Done? && cmd == '+' ==> InBounds(s.tape) && e.state.tape == Increment(s.tape)
    ensures e.Done? && cmd == '-' ==> InBounds(s.tape) && e.state.tape == Decrement(s.tape)
    ensures e.Done? && cmd == '.' ==> InBounds(s.tape) && e.state == s.(output := s.output + [Cell(s.tape)])
    ensures e.Done? && cmd == ',' && s.input == [] ==> e.state == s
    ensures e.Done? && cmd == ',' && s.input != [] ==>
      InBounds(s.tape) && e.state == State(Write(s.tape, s.input[0]), s.input[1..], s.output)
  {
    var t := s.tape;
    if cmd == '>' then Done(s.(tape := MoveRight(t)))
    else if cmd == '<' then Done(s.(tape := MoveLeft(t)))
    else if cmd == ',' && s.input == [] then Done(s)
    else if !InBounds(t) then Fault(t.ptr)
    else if cmd == '+' then Done(s.(tape := Increment(t)))
    else if cmd == '-' then Done(s.(tape := Decrement(t)))
    else if cmd == '.' then Done(s.(output := s.output + [Cell(t)]))
    else Done(State(Write(t, s.input[0]), s.input[1..], s.output))
  }

  /** One iteration of the dispatch loop at `c.index`. */
  function Step(p: seq<char>, jp: JumpPairs, c: Config): (r: StepResult)
    requires IsProgram(p) && Covers(p, jp) && c.index < |p|
    ensures r.Next? ==> r.config.index <= |p|
    ensures r.Next? ==>
      || r.config.index == c.index + 1
      || (p[c.index] == '[' && r.config.index == jp.opening[c.index] + 1)
      || (p[c.index] == ']' && r.config.index == jp.closing[c.index] + 1)
    ensures r.Next? && (p[c.index] == '[' || p[c.index] == ']') ==> r.config.state == c.state
    ensures InBounds(c.state.tape) && p[c.index] == '[' ==>
      r.Next? && r.config.index == (if Cell(c.state.tape) == 0 then jp.opening[c.index] + 1 else c.index + 1)
    ensures InBounds(c.state.tape) && p[c.index] == ']' ==>
      r.Next? && r.config.index == (if Cell(c.state.tape) != 0 then jp.closing[c.index] + 1 else c.index + 1)
    ensures !InBounds(c.state.tape) && (p[c.index] == '[' || p[c.index] == ']') ==> r == StepFault(c.state.tape.ptr)
    ensures Tape.Valid(c.state.tape) && r.Next? ==> Tape.Valid(r.config.state.tape)
  {
    var cmd, t := p[c.index], c.state.tape;
    if cmd == '[' || cmd == ']' then
      if !InBounds(t) then StepFault(t.ptr)
      else if cmd == '[' then Next(Config(c.state, JumpForward(t, c.index, jp)))
      else Next(Config(c.state, JumpBackward(t, c.index, jp)))
    else
      match Perform(cmd, c.state)
      case Done(s) => Next(Config(s, c.index + 1))
      case Fault(ptr) => StepFault(ptr)
  }

  /** `bf_run` with a budget of `fuel` iterations.  The index never leaves
      [0, |p|], and the run finishes exactly when the index reaches |p|. */
  function Exec(p: seq<char>, jp: JumpPairs, c: Config, fuel: nat): (r: (Config, Outcome))
    requires IsProgram(p) && Covers(p, jp) && c.index <= |p|
    ensures r.0.index <= |p|
    ensures r.1 == Finished <==> r.0.index == |p|
    ensures Tape.Valid(c.state.tape) ==> Tape.Valid(r.0.state.tape)
    decreases fuel
  {
    if c.index == |p| then (c, Finished)
    else if fuel == 0 then (c, OutOfFuel)
    else
      match Step(p, jp, c)
      case StepFault(ptr) => (c, PointerFault(ptr))
      case Next(c') => Exec(p, jp, c', fuel - 1)
  }

  /** A larger budget does not change a run that ends within the smaller
      one: the budget only cuts off runs that have not ended. */
  lemma {:induction false} ExecMoreFuel(p: seq<char>, jp: JumpPairs, c: Config, f: nat, g: nat)
    requires IsProgram(p) && Covers(p, jp) && c.index <= |p| && f <= g
    requires Exec(p, jp, c, f).1 != OutOfFuel
    ensures Exec(p, jp, c, g) == Exec(p, jp, c, f)
    decreases f
  {
    if c.index < |p| && f > 0 {
      match Step(p, jp, c)
      case StepFault(ptr) =>
      case Next(c') => ExecMoreFuel(p, jp, c', f - 1, g - 1);
    }
  }

  predicate NoBrackets(p: seq<char>) {
    forall i :: 0 <= i < |p| ==> p[i] != '[' && p[i] != ']'
  }

  /** Reference semantics of a bracket-free instruction stream: each
      command once, left to right. */
  function Straight(cmds: seq<char>, s: State): Effect
    requires IsProgram(cmds) && NoBrackets(cmds)
    decreases |cmds|
  {
    if |cmds| == 0 then Done(s)
    else
      match Perform(cmds[0], s)
      case Fault(ptr) => Fault(ptr)
      case Done(s') => Straight(cmds[1..], s')
  }

  /** A bracket-free program, started at index k with at least enough fuel,
      runs each remaining command exactly once, in order. */
  lemma {:induction false} BracketFreeRunsInOrder(p: seq<char>, jp: JumpPairs, s: State, k: nat, fuel: nat)
    requires IsProgram(p) && NoBrackets(p) && k <= |p| && |p| - k <= fuel
    ensures Covers(p, jp)
    ensures var r := Exec(p, jp, Config(s, k), fuel);
      match Straight(p[k..], s)
      case Done(s') => r == (Config(s', |p|), Finished)
      case Fault(ptr) => r.1 == PointerFault(ptr)
    decreases |p| - k
  {
    if k < |p| {
      assert p[k..][0] == p[k] && p[k..][1..] == p[k + 1..];
      match Perform(p[k], s)
      case Fault(ptr) =>
      case Done(s') => BracketFreeRunsInOrder(p, jp, s', k + 1, fuel - 1);
    }
  }

  /** `[-]` on a zero cell: the test happens before the body, so the body
      never runs. */
  lemma ZeroCellSkipsLoop(t: TapeState, input: seq<int>, output: seq<int>, fuel: nat)
    requires InBounds(t) && Cell(t) == 0 && fuel >= 1
    ensures WellMatched("[-]", JumpPairs(map[0 := 2], map[2 := 0]))
    ensures Covers("[-]", JumpPairs(map[0 := 2], map[2 := 0]))
    ensures Exec("[-]", JumpPairs(map[0 := 2], map[2 := 0]), Config(State(t, input, output), 0), fuel)
         == (Config(State(t, input, output), 3), Finished)
  {
    var p, jp := "[-]", JumpPairs(map[0 := 2], map[2 := 0]);
    assert Depth(p, 1, 2) == 0;
    assert BalancedIn(p, 1, 2);
    WellMatchedCovers(p, jp);
    var c := Config(State(t, input, output), 0);
    assert Step(p, jp, c) == Next(Config(c.state, 3));
  }

  /** The table of `+[-]` pairs position 1 with position 3. */
  lemma PlusLoopTable()
    ensures WellMatched("+[-]", JumpPairs(map[1 := 3], map[3 := 1]))
  {
    assert Depth("+[-]", 2, 3) == 0;
  }

  /** `+[-]` on a zero cell: the body runs exactly once and the cell ends at 0. */
  lemma LoopRunsOnce(t: TapeState, input: seq<int>, output: seq<int>, fuel: nat)
    requires InBounds(t) && Cell(t) == 0 && fuel >= 4
    ensures WellMatched("+[-]", JumpPairs(map[1 := 3], map[3 := 1]))
    ensures Covers("+[-]", JumpPairs(map[1 := 3], map[3 := 1]))
    ensures Exec("+[-]", JumpPairs(map[1 := 3], map[3 := 1]), Config(State(t, input, output), 0), fuel)
         == (Config(State(t, input, output), 4), Finished)
  {
    var p, jp := "+[-]", JumpPairs(map[1 := 3], map[3 := 1]);
    PlusLoopTable();
    WellMatchedCovers(p, jp);
    var s0 := State(t, input, output);
    var s1 := s0.(tape := Increment(t));
    IncrementDecrementInverse(t);
    assert Perform('+', s0) == Done(s1);
    assert Step(p, jp, Config(s0, 0)) == Next(Config(s1, 1));
    ExecNext(p, jp, Config(s0, 0), Config(s1, 1), fuel);
    assert Step(p, jp, Config(s1, 1)) == Next(Config(s1, 2));
    ExecNext(p, jp, Config(s1, 1), Config(s1, 2), fuel - 1);
    assert Perform('-', s1) == Done(s0);
    assert Step(p, jp, Config(s1, 2)) == Next(Config(s0, 3));
    ExecNext(p, jp, Config(s1, 2), Config(s0, 3), fuel - 2);
    assert Step(p, jp, Config(s0, 3)) == Next(Config(s0, 4));
    ExecNext(p, jp, Config(s0, 3), Config(s0, 4), fuel - 3);
  }

  /** The table of `++[-]` pairs position 2 with position 4. */
  lemma TwoPlusLoopTable()
    ensures WellMatched("++[-]", JumpPairs(map[2 := 4], map[4 := 2]))
  {
    assert Depth("++[-]", 3, 4) == 0;
  }

  /** `++[-]` on a zero cell: `]` jumps back while the cell is non-zero, so
      the body runs exactly twice and the cell ends at 0. */
  lemma LoopRunsTwice(t: TapeState, input: seq<int>, output: seq<int>, fuel: nat)
    requires InBounds(t) && Cell(t) == 0 && fuel >= 7
    ensures WellMatched("++[-]", JumpPairs(map[2 := 4], map[4 := 2]))
    ensures Covers("++[-]", JumpPairs(map[2 := 4], map[4 := 2]))
    ensures Exec("++[-]", JumpPairs(map[2 := 4], map[4 := 2]), Config(State(t, input, output), 0), fuel)
         == (Config(State(t, input, output), 5), Finished)
  {
    var p, jp := "++[-]", JumpPairs(map[2 := 4], map[4 := 2]);
    TwoPlusLoopTable();
    WellMatchedCovers(p, jp);
    var s0 := State(t, input, output);
    var s1 := s0.(tape := Increment(t));
    var s2 := s0.(tape := Increment(Increment(t)));
    TwoPlusLoopSteps(t, input, output);
    ExecNext(p, jp, Config(s0, 0), Config(s1, 1), fuel);
    ExecNext(p, jp, Config(s1, 1), Config(s2, 2), fuel - 1);
    ExecNext(p, jp, Config(s2, 2), Config(s2, 3), fuel - 2);
    ExecNext(p, jp, Config(s2, 3), Config(s1, 4), fuel - 3);
    ExecNext(p, jp, Config(s1, 4), Config(s1, 3), fuel - 4);
    ExecNext(p, jp, Config(s1, 3), Config(s0, 4), fuel - 5);
    ExecNext(p, jp, Config(s0, 4), Config(s0, 5), fuel - 6);
  }

  /** The seven steps of `++[-]` from a zero cell, one by one. */
  lemma TwoPlusLoopSteps(t: TapeState, input: seq<int>, output: seq<int>)
    requires InBounds(t) && Cell(t) == 0
    ensures Covers("++[-]", JumpPairs(map[2 := 4], map[4 := 2]))
    ensures var p, jp := "++[-]", JumpPairs(map[2 := 4], map[4 := 2]);
      var s0 := State(t, input, output);
      var s1 := s0.(tape := Increment(t));
      var s2 := s0.(tape := Increment(Increment(t)));
      && Step(p, jp, Config(s0, 0)) == Next(Config(s1, 1))
      && Step(p, jp, Config(s1, 1)) == Next(Config(s2, 2))
      && Step(p, jp, Config(s2, 2)) == Next(Config(s2, 3))
      && Step(p, jp, Config(s2, 3)) == Next(Config(s1, 4))
      && Step(p, jp, Config(s1, 4)) == Next(Config(s1, 3))
      && Step(p, jp, Config(s1, 3)) == Next(Config(s0, 4))
      && Step(p, jp, Config(s0, 4)) == Next(Config(s0, 5))
  {
    var p, jp := "++[-]", JumpPairs(map[2 := 4], map[4 := 2]);
    TwoPlusLoopTable();
    WellMatchedCovers(p, jp);
    var s0 := State(t, input, output);
    var s1 := s0.(tape := Increment(t));
    var s2 := s0.(tape := Increment(Increment(t)));
    IncrementDecrementInverse(t);
    IncrementDecrementInverse(Increment(t));
    assert Perform('+', s0) == Done(s1);
    assert Perform('+', s1) == Done(s2);
    assert Perform('-', s2) == Done(s1);
    assert Perform('-', s1) == Done(s0);
  }

  /** One unfolding of Exec: a step that continues uses one unit of fuel. */
  lemma ExecNext(p: seq<char>, jp: JumpPairs, c: Config, c': Config, fuel: nat)
    requires IsProgram(p) && Covers(p, jp) && c.index < |p| && fuel > 0
    requires Step(p, jp, c) == Next(c')
    ensures Exec(p, jp, c, fuel) == Exec(p, jp, c', fuel - 1)
  {
  }

  /** At the end of the program, or with no budget left, the run stops where
      it stands. */
  lemma ExecStop(p: seq<char>, jp: JumpPairs, c: Config, fuel: nat)
    requires IsProgram(p) && Covers(p, jp) && c.index <= |p|
    requires c.index == |p| || fuel == 0
    ensures Exec(p, jp, c, fuel) == (c, if c.index == |p| then Finished else OutOfFuel)
  {
  }

  /** A step that faults ends the run where it stands. */
  lemma ExecFault(p: seq<char>, jp: JumpPairs, c: Config, fuel: nat, ptr: int)
    requires IsProgram(p) && Covers(p, jp) && c.index < |p| && fuel > 0
    requires Step(p, jp, c) == StepFault(ptr)
    ensures Exec(p, jp, c, fuel) == (c, PointerFault(ptr))
  {
  }

  /** The body of the dispatch loop: execute the command at `index`, as
      `Step` prescribes.  On a fault the machine is left as it was. */
  method Dispatch(m: BFMachine, program: seq<char>, jp: JumpPairs, index: nat, output: seq<int>, rest: seq<int>)
      returns (fault: bool, index': nat, output': seq<int>, rest': seq<int>)
    requires m.Valid()
    requires IsProgram(program) && Covers(program, jp) && index < |program|
    modifies m
    ensures m.Valid()
    ensures fault ==>
      && m.Snapshot() == old(m.Snapshot()) && index' == index && output' == output && rest' == rest
      && Step(program, jp, Config(State(old(m.Snapshot()), rest, output), index)) == StepFault(m.dataptr)
    ensures !fault ==>
      Step(program, jp, Config(State(old(m.Snapshot()), rest, output), index))
        == Next(Config(State(m.Snapshot(), rest', output'), index'))
  {
    var c := program[index];
    fault, index', output', rest' := false, index + 1, output, rest;
    if (c == '[' || c == ']' || c == '+' || c == '-' || c == '.' || (c == ',' && rest != [])) && m.dataptr < 0 {
      fault, index' := true, index;
    } else if c == '[' {
      index' := JumpForward(m.Snapshot(), index, jp);
    } else if c == ']' {
      index' := JumpBackward(m.Snapshot(), index, jp);
    } else if c == '>' {
      m.IncrPtr();
    } else if c == '<' {
      m.DecrPtr();
    } else if c == '+' {
      m.IncrData();
    } else if c == '-' {
      m.DecrData();
    } else if c == '.' {
      var v := m.PrintByte();
      output' := output + [v];
    } else {
      rest' := m.GetInput(rest);
    }
  }

  /** `bf_run`: the dispatch loop over a machine object, for at most `fuel`
      iterations.  The machine, the index reached, the output and the unread
      input are those the semantics prescribes; the program and the table
      are values and cannot change. */
  method Run(m: BFMachine, program: seq<char>, jp: JumpPairs, input: seq<int>, fuel: nat)
      returns (index: nat, output: seq<int>, rest: seq<int>, outcome: Outcome)
    requires m.Valid()
    requires IsProgram(program) && WellMatched(program, jp)
    modifies m
    ensures m.Valid()
    ensures Covers(program, jp)
    ensures (Config(State(m.Snapshot(), rest, output), index), outcome)
         == Exec(program, jp, Config(State(old(m.Snapshot()), input, []), 0), fuel)
  {
    WellMatchedCovers(program, jp);
    ghost var start := Config(State(m.Snapshot(), input, []), 0);
    index, output, rest := 0, [], input;
    var steps: nat := 0;
    while index < |program| && steps < fuel
      invariant m.Valid()
      invariant index <= |program| && steps <= fuel
      invariant Exec(program, jp, Config(State(m.Snapshot(), rest, output), index), fuel - steps)
             == Exec(program, jp, start, fuel)
      decreases fuel - steps
    {
      ghost var before := Config(State(m.Snapshot(), rest, output), index);
      var fault;
      fault, index, output, rest := Dispatch(m, program, jp, index, output, rest);
      if fault {
        ExecFault(program, jp, before, fuel - steps, m.dataptr);
        outcome := PointerFault(m.dataptr);
        return;
      }
      ExecNext(program, jp, before, Config(State(m.Snapshot(), rest, output), index), fuel - steps);
      steps := steps + 1;
    }
    ExecStop(program, jp, Config(State(m.Snapshot(), rest, output), index), fuel - steps);
    outcome := if index == |program| then Finished else OutOfFuel;
  }
}
