/**
 * Whole runs of small programs: what the interpreter does end to end on
 * echoing, end of input, unmatched brackets, nested loops, endless loops,
 * tape wrap-around and cell wrap-around.
 */
module Scenarios {
  import opened Wrappers
  import opened Cells
  import opened Commands
  import opened Brackets
  import opened Semantics

  const Echo: seq<Byte> := [',' as int, '.' as int]
  const LoneOpen: seq<Byte> := [OpenByte]
  const Nested: seq<Byte> := [OpenByte, OpenByte, '-' as int, CloseByte, CloseByte]
  const Endless: seq<Byte> := ['+' as int, OpenByte, CloseByte]
  const LeftThenRight: seq<Byte> := ['<' as int, '>' as int]

  /** `,.` with the byte 65 on standard input writes 65 and is Done after two steps. */
  lemma EchoesInput()
    ensures var r := Run(Echo, Initial([65]), 2);
      r.state == Done && r.machine.output == [65] && r.machine.input == []
  {
  }

  /** `,.` at end of input writes a single 0 byte. */
  lemma EchoAtEndOfInput()
    ensures var r := Run(Echo, Initial([]), 2);
      r.state == Done && r.machine.output == [0]
  {
  }

  /** `[` alone on a zero cell: no output, one diagnostic, Done after one step. */
  lemma LoneOpenReportsAndStops(input: seq<Byte>, fuel: nat)
    requires fuel >= 1
    ensures var r := Run(LoneOpen, Initial(input), fuel);
      r.state == Done && r.machine.output == [] && r.machine.diagnostics == [LoopEndNotFound]
  {
    RunAdditive(LoneOpen, Initial(input), 1, fuel - 1, fuel);
  }

  /** In `[[-]]` each bracket is paired with its own partner, not the nearest one. */
  lemma NestedPairs()
    ensures MatchClose(Nested, 0) == Some(4) && MatchClose(Nested, 1) == Some(3)
    ensures MatchOpen(Nested, 4) == Some(0) && MatchOpen(Nested, 3) == Some(1)
  {
    assert CloseFrom(Nested, 3, 1) == Some(4);
    assert CloseFrom(Nested, 2, 2) == CloseFrom(Nested, 3, 1);
    assert CloseFrom(Nested, 1, 2) == CloseFrom(Nested, 2, 2);
    assert CloseFrom(Nested, 0, 1) == CloseFrom(Nested, 1, 2);
    assert CloseFrom(Nested, 2, 1) == Some(3);
  }

  /** `[[-]]` on a zero cell jumps past the outer `]` in a single step. */
  lemma NestedSkippedOnZero(input: seq<Byte>)
    ensures var r := Run(Nested, Initial(input), 1);
      r.state == Done && r.machine.instrIdx == 5 && r.machine.tape == Initial(input).tape
  {
    NestedPairs();
  }

  /** `<` from cell 0 reaches the last cell, and `>` from there comes back to 0. */
  lemma TapeWrapsAround(input: seq<Byte>)
    ensures Run(LeftThenRight, Initial(input), 1).machine.dataIdx == TapeSize - 1
    ensures Run(LeftThenRight, Initial(input), 2).machine.dataIdx == 0
  {
  }

  /** Inside `+[]` with a nonzero cell, the `]` sends execution back to itself forever. */
  lemma {:induction false} EndlessFromLoopEnd(m: Machine, fuel: nat)
    requires WellFormed(Endless, m) && m.instrIdx == 2 && m.tape[m.dataIdx] != 0
    ensures Run(Endless, m, fuel).state == Running
    decreases fuel
  {
    if fuel > 0 {
      assert MatchOpen(Endless, 2) == Some(1);
      EndlessFromLoopEnd(Semantics.Step(Endless, m).machine, fuel - 1);
    }
  }

  /** `+[]` never finishes, however many steps it is given. */
  lemma EndlessNeverDone(input: seq<Byte>, fuel: nat)
    ensures Run(Endless, Initial(input), fuel).state == Running
  {
    if fuel >= 2 {
      RunAdditive(Endless, Initial(input), 2, fuel - 2, fuel);
      EndlessFromLoopEnd(Run(Endless, Initial(input), 2).machine, fuel - 2);
    }
  }

  /** A source of `n` `+` commands, after `k` steps, has added `k` to the current cell. */
  lemma {:induction false} PlusesAdd(n: nat, m: Machine, k: nat)
    requires WellFormed(seq(n, _ => '+' as int), m) && m.instrIdx == 0 && k <= n
    ensures var r := Run(seq(n, _ => '+' as int), m, k).machine;
      r == m.(tape := m.tape[m.dataIdx := IncrementTimes(m.tape[m.dataIdx], k)], instrIdx := k)
    decreases k
  {
    var src: seq<Byte> := seq(n, _ => '+' as int);
    if k > 0 {
      PlusesAdd(n, m, k - 1);
      RunAdditive(src, m, k - 1, 1, k);
    }
  }

  /** 256 `+` commands leave the tape exactly as it was. */
  lemma PlusesWrapAround(m: Machine)
    requires WellFormed(seq(256, _ => '+' as int), m) && m.instrIdx == 0
    ensures Run(seq(256, _ => '+' as int), m, 256).machine.tape == m.tape
  {
    PlusesAdd(256, m, 256);
    WrapAroundRestoresCell(m.tape[m.dataIdx], 256);
  }
}
