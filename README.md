# A verified model of a small brainfuck interpreter

This project models `brainfuck.c`, a minimal interpreter for the eight-command
tape language `><+-.,[]`. The interpreter keeps a `Program` record with:

- a tape of `PROGRAM_DATA_SIZE = 1 << 15` (32768) unsigned 8-bit cells, zeroed
  at start-up;
- a data index that wraps around at both ends of the tape;
- an instruction index into the immutable program source.

`parse_and_execute_command` runs the command under the instruction index. For
`[` on a zero cell and `]` on a nonzero cell it finds the partner bracket with
a linear scan that keeps a nesting counter. It then advances the instruction
index by one and reports `Done` once the index is past the end of the source.
`execute` repeats this until `Done`.

The model has two layers.

- **Values** (`Semantics`): the interpreter state is a `Machine` datatype.
  `Semantics.Step` is one command and `Semantics.Run` is a bounded run. They
  rest on the cell and index arithmetic in `Cells`, the command dispatch in
  `Commands` and bracket matching in `Brackets`. Bracket matching is stated
  against the net bracket depth of a source segment (`Brackets.Net`): the
  partner of a `[` is the first later position where the depth counted from
  the `[` drops to 0.
- **The imperative interpreter** (`Interpreter.Program`): a class whose tape
  is an `array` zeroed by a loop in the constructor. `Step` updates the
  fields in place and runs the two bracket scans as `while (count)` loops,
  like the C. `Execute` loops until `Done`. Each method is proved to compute
  exactly what `Semantics.Step` or `Semantics.Run` computes. Like
  `Semantics`, the class carries the corrections listed below; the code as
  written is modelled only in `Findings`.

Console I/O is abstracted as three sequences in the state:

- standard input is the sequence of bytes still to be read (end of input is
  an empty sequence);
- standard output is the sequence of bytes written by `.`;
- standard error is the sequence of diagnostics written by the two bracket
  scans.

Where the code does something its authors evidently did not intend, the
model follows the corrected behaviour and `Findings` models the code as
written (see "## Findings"):

- An unmatched `]` halts the run, the same way an unmatched `[` does: the
  instruction index is placed at the end of the source, `LoopStartNotFound`
  is reported, and the step returns `Done`.
- `execute` tests for the end of the source before its first step, so an
  empty source runs nothing.
- `,` stores 0 exactly at end of input, and otherwise the byte read.

Two details of the instruction index follow the code exactly:

- After an unmatched `[` the scan leaves the instruction index at the
  length of the source, and the step then advances it to `length + 1`
  (brainfuck.c:113-117, 143), so `Semantics.WellFormed` allows `length + 1`.
- A step is `Done` when the index is at or past the length (`>=`,
  brainfuck.c:71), not only when it equals it.

## Model

| member | source | states |
|---|---|---|
| `Cells.ToByte` | brainfuck.c:106 | the `(uint8_t)` conversion: the result is a byte congruent to its argument modulo 256 |
| `Cells.IncrementCell` | brainfuck.c:93-95 | defined by its body (no contract): `+` on a uint8_t cell, 255 wraps round to 0 and any other value goes up by one |
| `Cells.DecrementCell` | brainfuck.c:96-98 | defined by its body (no contract): `-` on a uint8_t cell, 0 wraps round to 255 and any other value goes down by one |
| `Cells.CellCommandsTruncate` | brainfuck.c:93-98 | `+` and `-` on a uint8_t cell give the exact sum or difference truncated to 8 bits, so 255 + 1 is 0 and 0 - 1 is 255 |
| `Cells.IncrementDecrementInverse` | brainfuck.c:93-98 | `+` then `-`, or `-` then `+`, gives the cell back |
| `Cells.IncrementTimesAdds` | brainfuck.c:93-95 | `n` consecutive `+` add `n` modulo 256 |
| `Cells.DecrementTimesSubtracts` | brainfuck.c:96-98 | `n` consecutive `-` subtract `n` modulo 256 |
| `Cells.WrapAroundRestoresCell` | brainfuck.c:93-98 | any multiple of 256 `+` (or of `-`), 256 itself included, gives the cell back |
| `Cells.MoveRight` | brainfuck.c:79-84 | `>` keeps the data index on the tape |
| `Cells.MoveLeft` | brainfuck.c:85-92 | `<` keeps the data index on the tape |
| `Cells.MovesAreModular` | brainfuck.c:79-92 | `>` sets the data index to `(d + 1) mod 32768` and `<` to `(d - 1) mod 32768`, so 32767 goes to 0 and 0 to 32767 |
| `Cells.MovesInverse` | brainfuck.c:79-92 | `>` and `<` undo each other on every tape index |
| `Commands.Decode` | brainfuck.c:78-141 | a byte that decodes to one of the eight commands is that command's character |
| `Commands.CommentsAreTheOtherBytes` | brainfuck.c:139-140 | a byte falls to the no-op `default` branch exactly when it is none of the eight command characters |
| `Commands.DecodeEncode` | brainfuck.c:78-141 | decoding the character of a command gives the command back |
| `Commands.Delta` | brainfuck.c:119-120 | the nesting counter changes by +1 exactly on `[`, by -1 exactly on `]`, and otherwise not at all |
| `Brackets.MatchingCloseUnique` | brainfuck.c:109-123 | a `[` has at most one matching `]` |
| `Brackets.MatchingOpenUnique` | brainfuck.c:124-138 | a `]` has at most one matching `[` |
| `Brackets.MatchingSymmetric` | brainfuck.c:109-138 | the forward scan from a `[` and the backward scan from a `]` pair exactly the same positions |
| `Brackets.OnlyMatchingClose` | brainfuck.c:109-123 | once a matching `]` is found, no other position matches the same `[` |
| `Brackets.OnlyMatchingOpen` | brainfuck.c:124-138 | once a matching `[` is found, no other position matches the same `]` |
| `Brackets.NoMatchingCloseInside` | brainfuck.c:113-117 | a `[` whose nesting depth stays positive to the end of the source has no matching `]` |
| `Brackets.NoMatchingOpenBefore` | brainfuck.c:128-132 | a `]` whose nesting depth stays negative back to the start of the source has no matching `[` |
| `Brackets.CloseFrom` | brainfuck.c:112-121 | the forward `while (count)` scan: a position it stops at lies after its start, inside the source, and holds a `]` |
| `Brackets.OpenFrom` | brainfuck.c:127-136 | the backward `while (count)` scan: a position it stops at lies before its start and holds a `[` |
| `Brackets.CloseFromFindsMatch` | brainfuck.c:111-121 | the forward scan, from any point reached with a nesting counter of at least 1, stops exactly at the matching `]`, or reaches the end of the source when there is none |
| `Brackets.OpenFromFindsMatch` | brainfuck.c:126-136 | the backward scan, from any point reached with a nesting counter of at least 1, stops exactly at the matching `[`, or reaches the start of the source when there is none |
| `Brackets.MatchClose` | brainfuck.c:109-123 | the scan from a `[` returns `j` exactly when `j` holds the matching `]`, the first later position where the depth returns to 0; what it returns is a `]` |
| `Brackets.MatchOpen` | brainfuck.c:124-138 | the scan from a `]` returns `j` exactly when `j` holds the matching `[`; what it returns is a `[` before it |
| `Brackets.MatchRoundTrip` | brainfuck.c:109-138 | jumping from a `[` to its `]` and back returns to the same `[` |
| `Semantics.Initial` | brainfuck.c:51-64 | the initial state: every cell 0, both indices 0, the whole input unread, nothing written |
| `Semantics.ReadInput` | brainfuck.c:104 | reading takes the first unread byte, or reports end of input when nothing is left |
| `Semantics.StoredInput` | brainfuck.c:102-107 | `,` stores 0 at end of input, otherwise the byte read |
| `Semantics.Step` | brainfuck.c:74-147 | a step keeps the state well formed (full tape, data index on the tape, instruction index at most one past the end) and reports Done exactly when the advanced instruction index is at or past the end of the source |
| `Semantics.Run` | brainfuck.c:149-154 | a bounded run keeps the state well formed and ends in Done exactly when the instruction index is at or past the end of the source |
| `Semantics.StepMovesDataIndex` | brainfuck.c:79-92 | `>` and `<` set the data index to `(d + 1) mod 32768` and `(d - 1) mod 32768` and change nothing but the instruction index, which advances by one |
| `Semantics.StepChangesOnlyCurrentCell` | brainfuck.c:93-98 | `+` and `-` change the current cell by one modulo 256, leave every other cell, the data index and the streams alone, and advance by one |
| `Semantics.StepInput` | brainfuck.c:102-107 | `,` stores the next input byte, or 0 at end of input, into the current cell only, and consumes that byte |
| `Semantics.StepOutput` | brainfuck.c:99-101 | `.` appends the current cell to the output and changes nothing else |
| `Semantics.StepComment` | brainfuck.c:139-143 | a byte outside the eight commands only advances the instruction index; the step is Done exactly when that reaches the end |
| `Semantics.StepLoopStart` | brainfuck.c:109-123 | `[` on a zero cell ends one past its matching `]`; with none it reports "Could not find loop end" and is Done at one past the end; on a nonzero cell it only advances; the tape, data index and streams never change |
| `Semantics.StepLoopEnd` | brainfuck.c:124-138 | `]` on a nonzero cell ends one past its matching `[`; with none it reports "Could not find loop start" and halts with Done; on a zero cell it only advances; the tape, data index and streams never change |
| `Semantics.RunUnfolds` | brainfuck.c:149-154 | a run not yet at the end of the source takes one step and continues from there |
| `Semantics.RunAdditive` | brainfuck.c:149-154 | running `a` steps and then `b` more equals running `a + b` steps |
| `Semantics.DoneIsFinal` | brainfuck.c:149-154 | once a run is Done after `a` steps, any larger step budget gives the same result |
| `Semantics.RunEmptySource` | brainfuck.c:149-154 | an empty source runs no command and is Done at once |
| `Semantics.StepOutputGrows` | brainfuck.c:99-130 | `printf` (lines 99-101) and the two `fprintf(stderr, …)` (lines 115, 130) only append: one step keeps what was written to the output and the diagnostics, and adds at most one byte and one diagnostic |
| `Semantics.RunOutputGrows` | brainfuck.c:99-130 | `printf` (lines 99-101) and the two `fprintf(stderr, …)` (lines 115, 130) only append: during a run, output and diagnostics are only appended to, never rewritten |
| `Interpreter.Program.constructor` | brainfuck.c:51-64 | the tape has 32768 cells, all zeroed by the loop; both indices are 0; the source is stored unchanged |
| `Interpreter.Program.CurrentCommand` | brainfuck.c:66-68 | `get_current_command`: the byte under the instruction index decodes to the command `Semantics` runs from the same state |
| `Interpreter.Program.HasExecutedLastCommand` | brainfuck.c:70-72 | `has_executed_last_command`: holds exactly when `Semantics.Run` reports Done without taking a step, that is when no command is left under the instruction index |
| `Interpreter.Program.GetChar` | brainfuck.c:104 | returns and consumes the next input byte, or None at end of input |
| `Interpreter.Program.Step` | brainfuck.c:74-147 | the in-place step, with its two counting scan loops, leaves exactly the state `Semantics.Step` describes and returns its Done/Running |
| `Interpreter.Program.SeekLoopEnd` | brainfuck.c:110-121 | the counting loop run from a `[` stops at the matching `]`; with none it stops at the end of the source and reports "Could not find loop end" |
| `Interpreter.Program.SeekLoopStart` | brainfuck.c:125-136 | the counting loop run from a `]` stops at the matching `[`; with none it stops at the start of the source, places the index at the end and reports "Could not find loop start" |
| `Interpreter.Program.Execute` | brainfuck.c:149-154 | the driver loop, stopped after `fuel` steps, leaves exactly the state `Semantics.Run` describes |
| `Findings.AsWrittenOpenFrom` | brainfuck.c:124-138 | the backward scan as written, with the uint64_t decrement: a position it stops at lies before its start and holds a `[`; the only position outside the source it can read is 2^64 - 1 |
| `Findings.AsWrittenOpenFromAgrees` | brainfuck.c:124-138 | the backward scan as written finds the same `[` as the corrected scan when one exists; otherwise it reads at index 2^64 - 1 |
| `Findings.UnmatchedCloseReadsOutside` | brainfuck.c:128-133 | on the source `+]` the scan as written reads outside the source |
| `Findings.AsWrittenExecute` | brainfuck.c:149-154 | `execute` as written, stepping before any end test: a read it makes outside the source is at or past its end, and a run that finishes keeps the state well formed and is Done exactly at or past the end |
| `Findings.AsWrittenExecuteAgrees` | brainfuck.c:149-154 | `execute` as written agrees with `Run` whenever there is a command under the instruction index |
| `Findings.EmptySourceReadsPastEnd` | brainfuck.c:149-152 | on an empty source `execute` as written reads at index 0, while `Run` stops at once |
| `Findings.GetCharValue` | brainfuck.c:104 | `getchar()` returns a value in -1..255: the byte read, and -1 exactly at end of input |
| `Findings.ToChar` | brainfuck.c:104 | conversion to `char` is congruent modulo 256 and lands in the signed or unsigned `char` range |
| `Findings.AsWrittenStoredInput` | brainfuck.c:102-107 | the byte `,` stores as written: the byte read, except 0 for 0xFF with a signed `char`; at end of input 0 with a signed `char` and 0xFF with an unsigned one |
| `Findings.AsWrittenStoredInputDiffers` | brainfuck.c:104-106 | the byte `,` stores as written differs from the corrected one exactly for input 0xFF with a signed `char` (stored as 0) and for end of input with an unsigned `char` (stored as 0xFF) |
| `Scenarios.EchoesInput` | brainfuck.c:99-107 | `,.` with input byte 65 writes 65 and is Done after two steps |
| `Scenarios.EchoAtEndOfInput` | brainfuck.c:99-107 | `,.` with no input writes a single 0 byte |
| `Scenarios.LoneOpenReportsAndStops` | brainfuck.c:109-123 | `[` alone writes nothing, reports "Could not find loop end" once and is Done |
| `Scenarios.NestedPairs` | brainfuck.c:109-138 | in `[[-]]` the outer brackets pair with each other and the inner with each other |
| `Scenarios.NestedSkippedOnZero` | brainfuck.c:109-123 | `[[-]]` on a zero cell jumps past the outer `]` in one step without touching the tape |
| `Scenarios.TapeWrapsAround` | brainfuck.c:79-92 | `<` from cell 0 reaches cell 32767, and `>` from there returns to 0 |
| `Scenarios.EndlessFromLoopEnd` | brainfuck.c:124-138 | inside `+[]`, with a nonzero cell, the `]` sends execution back to itself for ever |
| `Scenarios.EndlessNeverDone` | brainfuck.c:149-154 | `+[]` is still Running after any number of steps |
| `Scenarios.PlusesAdd` | brainfuck.c:93-95 | a source of `n` `+` commands, after `k` of them, has added `k` to the current cell and changed nothing else |
| `Scenarios.PlusesWrapAround` | brainfuck.c:93-95 | 256 `+` commands leave the tape as it was |

## Left out

- Argument-count handling and the usage message (brainfuck.c:156-160) are process plumbing.
- `get_file_size` and `read_entire_file` (brainfuck.c:27-49) are file I/O. The source is a given byte sequence; an unreadable file is the empty sequence.
- Console I/O is abstracted as sequences: `printf` appends to `output`, `getchar` consumes `input`, and the `fprintf(stderr, …)` messages are the `Diagnostic` values in `diagnostics`. Blocking on input is not modelled.
- `malloc` failure and memory lifetime (brainfuck.c:40, 55) are not modelled: nothing is freed or checked.
- The uint64_t width of `instruction_idx`, `data_idx` and the nesting counter is not modelled except in `Findings`. None of them can overflow for a source shorter than 2^64 bytes.
- The out-of-bounds reads of the C itself (brainfuck.c:67 after an unmatched `]`, or on an empty source) are not reproduced. `Findings` shows where they happen, and the model halts instead.
- `Interpreter.Program.Execute`: runs at most `fuel` steps. The C loop has no bound, so a program that never reaches Done (such as `+[]`) returns Running when the fuel runs out.
- `Semantics.Run`: bounded by `fuel` for the same reason.
- The canonical Hello World program is not run in the model. It takes far more steps than a proof can unfold.

## Findings

| source | as written | input that shows it | evidently intended | confidence | as-written member | corrected member |
|---|---|---|---|---|---|---|
| brainfuck.c:128-133 | the backward scan decrements the uint64_t `instruction_idx` and then tests `instruction_idx < 0`, which never holds; past index 0 it wraps to 2^64 - 1 and reads the source there | the source `+]` (the `]` meets a nonzero cell and has no `[`) | stop at the start of the source, report "Could not find loop start" and halt | high; not executed | `Findings.UnmatchedCloseReadsOutside` (on `Findings.AsWrittenOpenFrom`) | `Semantics.StepLoopEnd` |
| brainfuck.c:149-152 | `execute` starts in Running and calls `parse_and_execute_command` before testing for the end of the source, which reads `buffer[0]` | an empty source file, or an unreadable path (size 0, buffer NULL) | test `has_executed_last_command` first and run nothing | high; not executed | `Findings.EmptySourceReadsPastEnd` (on `Findings.AsWrittenExecute`) | `Semantics.RunEmptySource` |
| brainfuck.c:104-106 | `getchar()` is stored into a `char` before it is compared with `EOF` | with a signed `char`, input byte 0xFF is stored as 0; with an unsigned `char`, end of input is stored as 0xFF | store 0 exactly at end of input, otherwise the byte read | high; not executed | `Findings.AsWrittenStoredInputDiffers` (on `Findings.AsWrittenStoredInput`) | `Semantics.StoredInput` |
