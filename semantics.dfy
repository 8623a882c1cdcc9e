/**
 * The interpreter's state and one step of it as values: the reference
 * against which the imperative interpreter is proved, and about which the
 * command properties are stated.
 */
module Semantics {
  import opened Wrappers
  import opened Cells
  import opened Commands
  import opened Brackets

  /** ProgramState: what one step reports to the driver loop. */
  datatype ProgramState = Done | Running

  /** The two messages the bracket scans write to the error stream. */
  datatype Diagnostic =
    | LoopEndNotFound     // "Could not find loop end"
    | LoopStartNotFound   // "Could not find loop start"

  /**
   * Everything a step reads or changes besides the (immutable) source:
   * the tape, both indices, the unread rest of standard input, what has been
   * written to standard output and what has been reported on standard error.
   */
  datatype Machine = Machine(
    tape: seq<Byte>,
    dataIdx: nat,
    instrIdx: nat,
    input: seq<Byte>,
    output: seq<Byte>,
    diagnostics: seq<Diagnostic>)

  datatype StepResult = StepResult(machine: Machine, state: ProgramState)

  /**
   * The shape every reachable state has: a full tape, a data index on it,
   * and an instruction index at most one past the end of the source (an
   * unmatched bracket leaves it there).
   */
  predicate WellFormed(src: seq<Byte>, m: Machine)
  {
    |m.tape| == TapeSize && m.dataIdx < TapeSize && m.instrIdx <= |src| + 1
  }

  /** `init_program`: zeroed tape, both indices at 0, nothing read or written yet. */
  function Initial(input: seq<Byte>): (m: Machine)
    ensures forall src :: WellFormed(src, m)
    ensures forall k :: 0 <= k < |m.tape| ==> m.tape[k] == 0
    ensures m.dataIdx == 0 && m.instrIdx == 0
    ensures m.input == input && m.output == [] && m.diagnostics == []
  {
    Machine(seq(TapeSize, _ => 0), 0, 0, input, [], [])
  }

  /** `getchar()`: the next input byte and the rest, or None at end of input. */
  function ReadInput(input: seq<Byte>): (r: (Option<Byte>, seq<Byte>))
    ensures input == [] ==> r == (None, [])
    ensures input != [] ==> r.0 == Some(input[0]) && [input[0]] + r.1 == input
  {
    if input == [] then (None, []) else (Some(input[0]), input[1..])
  }

  /** The byte `,` stores: 0 at end of input, otherwise the byte read. */
  function StoredInput(c: Option<Byte>): (b: Byte)
    ensures c.Some? ==> b == c.value
    ensures c.None? ==> b == 0
  {
    match c
    case None => 0
    case Some(v) => v
  }

  /**
   * `parse_and_execute_command`: run the command under the instruction
   * index, then advance the index by one and report Done once it has reached
   * the end of the source. An unmatched `[` or `]` leaves the index at the
   * end of the source and reports a diagnostic, so the step reports Done.
   */
  function Step(src: seq<Byte>, m: Machine): (r: StepResult)
    requires WellFormed(src, m) && m.instrIdx < |src|
    ensures WellFormed(src, r.machine)
    ensures r.state == Done <==> r.machine.instrIdx >= |src|
    ensures r.machine.instrIdx > 0
  {
    var cell := m.tape[m.dataIdx];
    var executed :=
      match Decode(src[m.instrIdx])
      case Right => m.(dataIdx := MoveRight(m.dataIdx))
      case Left => m.(dataIdx := MoveLeft(m.dataIdx))
      case Increment => m.(tape := m.tape[m.dataIdx := IncrementCell(cell)])
      case Decrement => m.(tape := m.tape[m.dataIdx := DecrementCell(cell)])
      case Output => m.(output := m.output + [cell])
      case Input =>
        var (c, rest) := ReadInput(m.input);
        m.(tape := m.tape[m.dataIdx := StoredInput(c)], input := rest)
      case LoopStart =>
        if cell != 0 then m
        else (match MatchClose(src, m.instrIdx)
          case Some(j) => m.(instrIdx := j)
          case None => m.(instrIdx := |src|, diagnostics := m.diagnostics + [LoopEndNotFound]))
      case LoopEnd =>
        if cell == 0 then m
        else (match MatchOpen(src, m.instrIdx)
          case Some(j) => m.(instrIdx := j)
          case None => m.(instrIdx := |src|, diagnostics := m.diagnostics + [LoopStartNotFound]))
      case Comment => m;
    var next := executed.(instrIdx := executed.instrIdx + 1);
    StepResult(next, if next.instrIdx >= |src| then Done else Running)
  }

  /**
   * `execute`, bounded by `fuel` steps: step until Done. The end of the
   * source is tested before every step, the first one included, so an empty
   * source runs no command.
   */
  function Run(src: seq<Byte>, m: Machine, fuel: nat): (r: StepResult)
    requires WellFormed(src, m)
    ensures WellFormed(src, r.machine)
    ensures r.state == Done <==> r.machine.instrIdx >= |src|
    decreases fuel
  {
    if m.instrIdx >= |src| then StepResult(m, Done)
    else if fuel == 0 then StepResult(m, Running)
    else Run(src, Step(src, m).machine, fuel - 1)
  }

  /** The command a step runs. */
  function CommandAt(src: seq<Byte>, m: Machine): Command
    requires m.instrIdx < |src|
  {
    Decode(src[m.instrIdx])
  }

  /** `>` and `<` move the data index with wrap-around and change nothing else. */
  lemma StepMovesDataIndex(src: seq<Byte>, m: Machine)
    requires WellFormed(src, m) && m.instrIdx < |src|
    requires CommandAt(src, m) == Right || CommandAt(src, m) == Left
    ensures var r := Step(src, m).machine;
      && r.dataIdx == (if CommandAt(src, m) == Right then (m.dataIdx + 1) % TapeSize
                       else (m.dataIdx + TapeSize - 1) % TapeSize)
      && r == m.(dataIdx := r.dataIdx, instrIdx := m.instrIdx + 1)
  {
  }

  /**
   * `+` and `-` change the current cell by one modulo 256, and no other cell,
   * index or stream.
   */
  lemma StepChangesOnlyCurrentCell(src: seq<Byte>, m: Machine)
    requires WellFormed(src, m) && m.instrIdx < |src|
    requires CommandAt(src, m) == Increment || CommandAt(src, m) == Decrement
    ensures var r := Step(src, m).machine;
      && r == m.(tape := r.tape, instrIdx := m.instrIdx + 1)
      && |r.tape| == TapeSize
      && (forall k :: 0 <= k < TapeSize && k != m.dataIdx ==> r.tape[k] == m.tape[k])
      && r.tape[m.dataIdx] == (if CommandAt(src, m) == Increment then m.tape[m.dataIdx] as int + 1
                               else m.tape[m.dataIdx] as int - 1) % 256
  {
  }

  /** `,` stores the next input byte, or 0 at end of input, into the current cell only. */
  lemma StepInput(src: seq<Byte>, m: Machine)
    requires WellFormed(src, m) && m.instrIdx < |src|
    requires CommandAt(src, m) == Input
    ensures var r := Step(src, m).machine;
      && r == m.(tape := r.tape, input := r.input, instrIdx := m.instrIdx + 1)
      && r.tape == m.tape[m.dataIdx := if m.input == [] then 0 else m.input[0]]
      && r.input == if m.input == [] then [] else m.input[1..]
  {
  }

  /** `.` appends the current cell to the output and leaves the tape alone. */
  lemma StepOutput(src: seq<Byte>, m: Machine)
    requires WellFormed(src, m) && m.instrIdx < |src|
    requires CommandAt(src, m) == Output
    ensures var r := Step(src, m).machine;
      r == m.(output := m.output + [m.tape[m.dataIdx]], instrIdx := m.instrIdx + 1)
  {
  }

  /** A byte outside the eight commands only advances the instruction index. */
  lemma StepComment(src: seq<Byte>, m: Machine)
    requires WellFormed(src, m) && m.instrIdx < |src|
    requires forall c: Command :: !c.Comment? ==> Encode(c) != src[m.instrIdx]
    ensures Step(src, m).machine == m.(instrIdx := m.instrIdx + 1)
    ensures Step(src, m).state == if m.instrIdx + 1 < |src| then Running else Done
  {
  }

  /**
   * `[`: on a zero cell the step ends one past the matching `]`, the first
   * later position where the depth counted from the `[` returns to 0; with
   * no such `]` it reports LoopEndNotFound and Done. On a nonzero cell it
   * only advances. Tape, data index and streams never change.
   */
  lemma StepLoopStart(src: seq<Byte>, m: Machine)
    requires WellFormed(src, m) && m.instrIdx < |src|
    requires CommandAt(src, m) == LoopStart
    ensures var r := Step(src, m);
      && r.machine.tape == m.tape && r.machine.dataIdx == m.dataIdx
      && r.machine.input == m.input && r.machine.output == m.output
      && (m.tape[m.dataIdx] != 0 ==> r.machine == m.(instrIdx := m.instrIdx + 1))
      && (m.tape[m.dataIdx] == 0 ==>
            (forall j: nat :: IsMatchingClose(src, m.instrIdx, j) ==>
               r.machine.instrIdx == j + 1 && r.machine.diagnostics == m.diagnostics)
            && ((forall j: nat :: !IsMatchingClose(src, m.instrIdx, j)) ==>
               r.machine.instrIdx == |src| + 1 && r.state == Done
               && r.machine.diagnostics == m.diagnostics + [LoopEndNotFound]))
  {
  }

  /**
   * `]`: on a nonzero cell the step ends one past the matching `[`; with no
   * such `[` it reports LoopStartNotFound and halts with Done. On a zero cell
   * it only advances. Tape, data index and streams never change.
   */
  lemma StepLoopEnd(src: seq<Byte>, m: Machine)
    requires WellFormed(src, m) && m.instrIdx < |src|
    requires CommandAt(src, m) == LoopEnd
    ensures var r := Step(src, m);
      && r.machine.tape == m.tape && r.machine.dataIdx == m.dataIdx
      && r.machine.input == m.input && r.machine.output == m.output
      && (m.tape[m.dataIdx] == 0 ==> r.machine == m.(instrIdx := m.instrIdx + 1))
      && (m.tape[m.dataIdx] != 0 ==>
            (forall j: nat :: IsMatchingOpen(src, j, m.instrIdx) ==>
               r.machine.instrIdx == j + 1 && r.machine.diagnostics == m.diagnostics)
            && ((forall j: nat :: !IsMatchingOpen(src, j, m.instrIdx)) ==>
               r.machine.instrIdx == |src| + 1 && r.state == Done
               && r.machine.diagnostics == m.diagnostics + [LoopStartNotFound]))
  {
  }

  /**
   * Running `a` steps and then `b` more is running `n == a + b` steps. The
   * total is a parameter of its own so that each unfolding of `Run` lines up
   * with the induction hypothesis.
   */
  lemma {:induction false} RunAdditive(src: seq<Byte>, m: Machine, a: nat, b: nat, n: nat)
    requires WellFormed(src, m) && n == a + b
    ensures Run(src, m, n) == Run(src, Run(src, m, a).machine, b)
    decreases a
  {
    if m.instrIdx < |src| && a > 0 {
      var next := Step(src, m).machine;
      RunUnfolds(src, m, n);
      RunUnfolds(src, m, a);
      RunAdditive(src, next, a - 1, b, n - 1);
    }
  }

  /** A run that has not reached the end of the source takes one step and carries on. */
  lemma RunUnfolds(src: seq<Byte>, m: Machine, fuel: nat)
    requires WellFormed(src, m) && m.instrIdx < |src| && fuel > 0
    ensures Run(src, m, fuel) == Run(src, Step(src, m).machine, fuel - 1)
  {
  }

  /** Once a run is Done after `a` steps, any larger budget `n` changes nothing. */
  lemma DoneIsFinal(src: seq<Byte>, m: Machine, a: nat, n: nat)
    requires WellFormed(src, m) && a <= n
    requires Run(src, m, a).state == Done
    ensures Run(src, m, n) == Run(src, m, a)
  {
    RunAdditive(src, m, a, n - a, n);
  }

  /** An empty source runs no command: Done at once, nothing written. */
  lemma RunEmptySource(m: Machine, fuel: nat)
    requires WellFormed([], m)
    ensures Run([], m, fuel) == StepResult(m, Done)
  {
  }

  /** Output and diagnostics only grow during a run: what was written stays written. */
  lemma {:induction false} RunOutputGrows(src: seq<Byte>, m: Machine, fuel: nat)
    requires WellFormed(src, m)
    ensures var r := Run(src, m, fuel).machine;
      Extends(r.output, m.output) && Extends(r.diagnostics, m.diagnostics)
    decreases fuel
  {
    if m.instrIdx < |src| && fuel > 0 {
      var m' := Step(src, m).machine;
      StepOutputGrows(src, m);
      RunOutputGrows(src, m', fuel - 1);
      assert Run(src, m, fuel) == Run(src, m', fuel - 1);
      var r := Run(src, m', fuel - 1).machine;
      ExtendsTransitive(r.output, m'.output, m.output);
      ExtendsTransitive(r.diagnostics, m'.diagnostics, m.diagnostics);
    }
  }

  /** One step writes at most one byte and one diagnostic, and only at the end. */
  lemma StepOutputGrows(src: seq<Byte>, m: Machine)
    requires WellFormed(src, m) && m.instrIdx < |src|
    ensures var r := Step(src, m).machine;
      Extends(r.output, m.output) && |r.output| <= |m.output| + 1
      && Extends(r.diagnostics, m.diagnostics) && |r.diagnostics| <= |m.diagnostics| + 1
  {
  }

  /** `s` begins with `prefix`. */
  predicate Extends<T(==)>(s: seq<T>, prefix: seq<T>)
  {
    |prefix| <= |s| && s[..|prefix|] == prefix
  }

  lemma ExtendsTransitive<T>(a: seq<T>, b: seq<T>, c: seq<T>)
    requires Extends(a, b) && Extends(b, c)
    ensures Extends(a, c)
  {
    assert a[..|c|] == a[..|b|][..|c|];
  }
}
