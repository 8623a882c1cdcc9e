/**
 * The imperative interpreter: a `Program` record whose tape is a heap array
 * updated in place, whose two indices are fields that
 * `parse_and_execute_command` advances, and whose bracket scans are
 * `while (count)` loops like the C. It carries the three corrections that
 * `Findings` sets against the code as written (the `,` EOF test, the halt of
 * the backward scan at index 0, the end test before the first step), and is
 * proved step for step against `Semantics.Step` and `Semantics.Run`.
 */
module Interpreter {
  import opened Wrappers
  import opened Cells
  import opened Commands
  import opened Brackets
  import opened Semantics

  class Program {
    /** The loaded source bytes (FileContent); read-only during a run. */
    const src: seq<Byte>
    /** The PROGRAM_DATA_SIZE-byte tape. */
    const data: array<Byte>
    var instrIdx: nat
    var dataIdx: nat
    /** Standard input not yet read. */
    var input: seq<Byte>
    /** Everything written to standard output so far. */
    var output: seq<Byte>
    /** Everything reported on standard error so far. */
    var diagnostics: seq<Diagnostic>

    /** The whole interpreter state as a value. */
    ghost function State(): Machine
      reads this, data
    {
      Machine(data[..], dataIdx, instrIdx, input, output, diagnostics)
    }

    ghost predicate Valid()
      reads this, data
    {
      WellFormed(src, State())
    }

    /** `init_program`: allocate the tape and zero it cell by cell. */
    constructor (src: seq<Byte>, input: seq<Byte>)
      ensures Valid() && fresh(data)
      ensures this.src == src && data.Length == TapeSize
      ensures forall k :: 0 <= k < data.Length ==> data[k] == 0
      ensures instrIdx == 0 && dataIdx == 0
      ensures State() == Initial(input)
    {
      instrIdx := 0;
      var tape := new Byte[TapeSize];
      for i := 0 to TapeSize
        invariant forall k :: 0 <= k < i ==> tape[k] == 0
      {
        tape[i] := 0;
      }
      data := tape;
      dataIdx := 0;
      this.src := src;
      this.input := input;
      output := [];
      diagnostics := [];
      new;
      assert data[..] == Initial(input).tape;
    }

    /** `get_current_command`. */
    function CurrentCommand(): (c: Byte)
      reads this, data
      requires instrIdx < |src|
      ensures Decode(c) == CommandAt(src, State())
    {
      src[instrIdx]
    }

    /** `has_executed_last_command`. */
    predicate HasExecutedLastCommand(): (b: bool)
      reads this, data
      requires Valid()
      ensures b <==> Run(src, State(), 0).state == Done
    {
      instrIdx >= |src|
    }

    /** `getchar()` on the abstracted standard input. */
    method GetChar() returns (c: Option<Byte>)
      modifies this`input
      ensures (c, input) == ReadInput(old(input))
    {
      if input == [] {
        c := None;
      } else {
        c := Some(input[0]);
        input := input[1..];
      }
    }

    /** `parse_and_execute_command`. */
    method Step() returns (state: ProgramState)
      requires Valid() && instrIdx < |src|
      modifies this, data
      ensures Valid()
      ensures StepResult(State(), state) == Semantics.Step(src, old(State()))
    {
      state := Running;
      var command := CurrentCommand();

      match Decode(command) {
      case Right =>
        dataIdx := (dataIdx + 1) % TapeSize;
      case Left =>
        if dataIdx == 0 {
          dataIdx := TapeSize;
        }
        dataIdx := dataIdx - 1;
      case Increment =>
        data[dataIdx] := ToByte(data[dataIdx] as int + 1);
      case Decrement =>
        data[dataIdx] := ToByte(data[dataIdx] as int - 1);
      case Output =>
        output := output + [data[dataIdx]];
      case Input =>
        var c := GetChar();
        data[dataIdx] := if c.None? then 0 else c.value;
      case LoopStart =>
        if data[dataIdx] == 0 {
          SeekLoopEnd();
        }
      case LoopEnd =>
        if data[dataIdx] != 0 {
          SeekLoopStart();
        }
      case Comment =>
      }

      instrIdx := instrIdx + 1;
      state := if HasExecutedLastCommand() then Done else state;
    }

    /**
     * The `while (count)` scan of a `[` on a zero cell: move forward,
     * counting nested brackets, to the matching `]`, or report and stop at
     * the end of the source.
     */
    method SeekLoopEnd()
      requires Valid() && instrIdx < |src| && src[instrIdx] == OpenByte
      modifies this`instrIdx, this`diagnostics
      ensures match MatchClose(src, old(instrIdx))
        case Some(j) => instrIdx == j && diagnostics == old(diagnostics)
        case None => instrIdx == |src| && diagnostics == old(diagnostics) + [LoopEndNotFound]
    {
      ghost var start := instrIdx;
      var count: nat := 1;
      while count != 0
        invariant start <= instrIdx < |src| && Valid()
        invariant diagnostics == old(diagnostics)
        invariant count == 0 ==> MatchClose(src, start) == Some(instrIdx)
        invariant count > 0 ==> CloseFrom(src, instrIdx, count) == CloseFrom(src, start, 1)
        decreases |src| - instrIdx
      {
        instrIdx := instrIdx + 1;
        if HasExecutedLastCommand() {
          diagnostics := diagnostics + [LoopEndNotFound];
          break;
        }
        var command := CurrentCommand();
        if command == OpenByte {
          count := count + 1;
        }
        if command == CloseByte {
          count := count - 1;
        }
      }
    }

    /**
     * The `while (count)` scan of a `]` on a nonzero cell: move back,
     * counting nested brackets, to the matching `[`; one that would move
     * before the start of the source reports and halts past its end.
     */
    method SeekLoopStart()
      requires Valid() && instrIdx < |src| && src[instrIdx] == CloseByte
      modifies this`instrIdx, this`diagnostics
      ensures match MatchOpen(src, old(instrIdx))
        case Some(j) => instrIdx == j && diagnostics == old(diagnostics)
        case None => instrIdx == |src| && diagnostics == old(diagnostics) + [LoopStartNotFound]
    {
      ghost var start := instrIdx;
      var count: nat := 1;
      while count != 0
        invariant instrIdx <= start
        invariant diagnostics == old(diagnostics)
        invariant count == 0 ==> MatchOpen(src, start) == Some(instrIdx)
        invariant count > 0 ==> OpenFrom(src, instrIdx, count) == OpenFrom(src, start, 1)
        decreases instrIdx
      {
        if instrIdx == 0 {
          diagnostics := diagnostics + [LoopStartNotFound];
          instrIdx := |src|;
          break;
        }
        instrIdx := instrIdx - 1;
        var command := CurrentCommand();
        if command == CloseByte {
          count := count + 1;
        }
        if command == OpenByte {
          count := count - 1;
        }
      }
    }

    /**
     * `execute`, bounded by `fuel` steps: step until Done, testing for the
     * end of the source before the first step too.
     */
    method Execute(fuel: nat) returns (state: ProgramState)
      requires Valid()
      modifies this, data
      ensures Valid()
      ensures StepResult(State(), state) == Run(src, old(State()), fuel)
    {
      state := if HasExecutedLastCommand() then Done else Running;
      var remaining := fuel;
      while state != Done && remaining > 0
        invariant Valid()
        invariant state == Done <==> instrIdx >= |src|
        invariant Run(src, State(), remaining) == Run(src, old(State()), fuel)
        decreases remaining
      {
        state := Step();
        remaining := remaining - 1;
      }
    }
  }
}
