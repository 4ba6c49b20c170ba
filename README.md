# A verified model of the `bf.py` Brainfuck interpreter

This project models the interpreter engine of `bf.py` in Dafny and proves
properties of the model. The engine has four parts:

- **the machine** (`BFMachine`): a list of integer cells `data` and a data
  pointer `dataptr`, updated in place by the tape commands `>`, `<`, `+`, `-`;
- **the filter** of `read_program`, which keeps only the eight command
  characters of the program text;
- **the bracket matcher** `build_jump_pairs`, which pairs every `[` with its
  `]` using a stack, or fails with "Mismatched ]" / "Mismatched [";
- **the dispatch loop** `bf_run`, which walks the instruction stream by index
  and uses `jump_forward` / `jump_backward` for the brackets.

Files and modules:

| file | module | contents |
|---|---|---|
| `commands.dfy` | `Commands` | the command alphabet, `Filter`, and the proof that it keeps exactly the commands, in order |
| `tape.dfy` | `Tape` | the machine's state as a value (`TapeState`), the tape commands as functions, the growth invariant `Valid` |
| `machine.dfy` | `Machine` | class `BFMachine` with fields `data: seq<int>` and `dataptr: int`; each command method is specified by the tape function of the same command |
| `jump_table.dfy` | `JumpTable` | `BuildJumpPairs` (a loop over a stack and a map), the specification `WellMatched` of a jump table, its uniqueness |
| `interpreter.dfy` | `Interpreter` | `JumpForward`, `JumpBackward`, a small-step semantics (`Perform`, `Step`, `Exec`), and the loop `Run` over a `BFMachine`, proved to end in the state `Exec` gives |

Cells are unbounded integers, as in the code: `+` and `-` are `+= 1` and
`-= 1` with no wrap-around. The pointer may become negative, because `<`
does not check it. A run's input is a sequence of values, one per `,`. Its
output is the sequence of cell values printed by `.`.

## Where the code and its tests disagree

The model follows `bf.py`. `test.py` expects four things that the code does
not do:

- `test.py:32-34` expects `-` on a zero cell to give 255. `bf.py:22`
  subtracts one from an unbounded integer, so the model gives -1
  (`Tape.Decrement`, `Tape.IncrementDecrementInverse`).
- `test.py:24-26` expects `<` at position 0 to exit. `bf.py:14` only
  subtracts, so `Tape.MoveLeft` allows a pointer of -1.
- `test.py:112` and `test.py:136` pass an input source to the constructor.
  `bf.py:2` takes no argument, so the model's constructor takes none. Input
  is a parameter of `Run` instead.
- `test.py:36-39` expects `read_program` to return `[c, commands.get(c)]`
  pairs. `bf.py:78` returns the bare command characters, and so does
  `Commands.Filter`.

## Model

| member | source | states |
|---|---|---|
| `Commands.Filter` | bf.py:78 | the filtered program consists of command characters only (the keys of `commands`) and is no longer than the text |
| `Commands.FilterKeepsCommandsInOrder` | bf.py:78 | the filter's output is exactly the subsequence of command characters: the k-th output character is the text character at the k-th kept position, kept positions increase, and a position is kept iff its character is a command |
| `Commands.FilterAppend` | bf.py:78 | filtering a concatenation is concatenating the filtered parts |
| `Commands.FilterKeepsProgram` | bf.py:63-72 | a text made only of commands passes through the filter unchanged |
| `Commands.FilterIdempotent` | bf.py:78 | filtering twice is filtering once |
| `Tape.Initial` | bf.py:2-4 | a fresh machine has exactly 30000 cells, all zero, the pointer at 0, and satisfies the tape invariant |
| `Tape.MoveRight` | bf.py:6-10 | `>` raises the pointer by exactly 1. If the pointer was below the end, it still is. If the tape grew, it grew by exactly 30000 zeros and the earlier cells are unchanged; otherwise the cells are unchanged. The tape invariant is preserved |
| `Tape.MoveLeft` | bf.py:12-14 | `<` lowers the pointer by exactly 1 and leaves the cells untouched. From position 0 it leaves the pointer out of bounds, with no check |
| `Tape.Increment` | bf.py:16-18 | `+` adds exactly 1 to the current cell; every other cell, the length and the pointer are unchanged |
| `Tape.Decrement` | bf.py:20-22 | `-` subtracts exactly 1 from the current cell, without wrapping; every other cell, the length and the pointer are unchanged |
| `Tape.Write` | bf.py:41-43 | storing an input value changes only the current cell, which then holds that value |
| `Tape.IncrementDecrementInverse` | bf.py:16-22 | `+` and `-` undo each other exactly, on every cell value |
| `Tape.MoveRightThenLeft` | bf.py:6-14 | `>` then `<` restores the pointer and all earlier cells, and restores the whole tape when `>` did not grow it |
| `Tape.ValidOutOfBoundsIsNegative` | bf.py:6-14 | on a tape reached by the commands, the pointer can leave the cells only by going below zero |
| `Machine.BFMachine.constructor` | bf.py:1-4 | the machine starts with 30000 zero cells and `dataptr == 0` |
| `Machine.BFMachine.IncrPtr` | bf.py:6-10 | the in-place update of `data` and `dataptr` equals `Tape.MoveRight` of the old state, and the tape invariant is kept |
| `Machine.BFMachine.DecrPtr` | bf.py:12-14 | `dataptr` decreases by exactly 1 and `data` is untouched |
| `Machine.BFMachine.IncrData` | bf.py:16-18 | the new state equals `Tape.Increment` of the old state |
| `Machine.BFMachine.DecrData` | bf.py:20-22 | the new state equals `Tape.Decrement` of the old state |
| `Machine.BFMachine.PrintByte` | bf.py:24-29 | the value emitted by `.` is the current cell; the machine is not changed |
| `Machine.BFMachine.GetInput` | bf.py:31-43 | at end of input nothing changes; otherwise the next value is stored in the current cell and is consumed |
| `JumpTable.Invert` | bf.py:97 | `closing` is defined exactly on the values of `opening` and sends each `opening[i]` back to `i` |
| `JumpTable.BuildJumpPairs` | bf.py:80-98 | fails with MismatchedClose iff some prefix closes more brackets than it opens. Fails with MismatchedOpen iff no prefix does and brackets remain open. Succeeds iff the program is balanced. On success the table is `WellMatched`: `opening` is keyed by exactly the `[` positions, `closing` by exactly the `]` positions, and each is the inverse of the other. Also `opening[i] > i` and the text strictly between a pair is balanced |
| `JumpTable.MatchUnique` | bf.py:85-92 | a `[` can be paired with only one `]` that closes a balanced segment after it |
| `JumpTable.WellMatchedUnique` | bf.py:80-98 | a program determines its jump table: two tables that both match its brackets are equal |
| `JumpTable.WellMatchedValues` | bf.py:90-97 | the values of `opening` are exactly the `]` positions and the values of `closing` exactly the `[` positions |
| `JumpTable.EmptyLoopTable` | test.py:41-44 | `[]` is balanced, so `BuildJumpPairs` succeeds on it, and the only matching table of `[]` is `opening {0: 1}`, `closing {1: 0}` |
| `Interpreter.JumpForwardTarget` | bf.py:45-52 | the target computed by `JumpForward` (`jump_forward`): `[` on a zero cell lands just after a `]` that `closing` pairs back with it, skipping a balanced body. On a non-zero cell it moves to the next index. The result stays within the program |
| `Interpreter.JumpBackwardTarget` | bf.py:54-61 | the target computed by `JumpBackward` (`jump_backward`): `]` on a non-zero cell lands on the first instruction after its `[`, so it repeats a balanced body. On a zero cell it moves to the next index. The result stays within the program |
| `Interpreter.WellMatchedCovers` | bf.py:48-57 | with the program's own table, every bracket has a jump target inside the program, so the lookups never fail |
| `Interpreter.Perform` | bf.py:6-72 | each non-bracket command does what its entry in `commands` does: `>` and `<` are `MoveRight` and `MoveLeft`; `+` and `-` are `Increment` and `Decrement` of an in-bounds cell; `.` appends the current cell to the output and changes nothing else; `,` stores the next input value in the current cell and consumes it, or changes nothing at end of input. It faults exactly when it accesses a cell through a negative pointer, and the fault carries that pointer. Only `.` changes the output, only `,` consumes input, and the tape invariant is kept |
| `Interpreter.Step` | bf.py:103-114 | one iteration moves the index to `index + 1` or to a jump target + 1, never past the end. The cell decides a bracket: `[` jumps past its `]` exactly when the cell is zero, and `]` jumps back after its `[` exactly when the cell is non-zero. A bracket on a negative pointer faults with that pointer. Brackets change no state. The tape invariant is kept |
| `Interpreter.Exec` | bf.py:100-114 | the index stays between 0 and the program length; the run finishes exactly when the index reaches the end; the tape invariant is kept |
| `Interpreter.ExecMoreFuel` | bf.py:100-114 | a run that ends (finishes or faults) within a budget ends in the same configuration and outcome with any larger budget: the budget only cuts off runs that have not ended |
| `Interpreter.BracketFreeRunsInOrder` | bf.py:103-114 | a bracket-free program runs each command exactly once, in order, and finishes at its end |
| `Interpreter.ZeroCellSkipsLoop` | bf.py:45-52 | on a zero cell, `[-]` jumps over its body and finishes with nothing changed |
| `Interpreter.PlusLoopTable` | bf.py:80-98 | the table of `+[-]` pairs its `[` at position 1 with its `]` at position 3 |
| `Interpreter.TwoPlusLoopTable` | bf.py:80-98 | the table of `++[-]` pairs its `[` at position 2 with its `]` at position 4 |
| `Interpreter.LoopRunsTwice` | bf.py:45-61 | on a zero cell, `++[-]` runs its body exactly twice, because `]` jumps back while the cell is non-zero, and finishes with the tape as it started |
| `Interpreter.LoopRunsOnce` | bf.py:45-61 | on a zero cell, `+[-]` runs its body exactly once and finishes with the tape as it started |
| `Interpreter.Dispatch` | bf.py:104-114 | one iteration of the loop over the machine object does what `Step` prescribes; on a fault the machine is left as it was |
| `Interpreter.Run` | bf.py:100-114 | the loop over the machine object ends with the machine, index, output and unread input that `Exec` gives for the same program, table, input and budget; the tape invariant is kept |

## Left out

- File reading in `read_program` (bf.py:74-76) and the command-line entry point with its error printing (bf.py:116-133): these are I/O. `Filter` takes the text already read.
- The text of the error messages: `BracketError` has one constructor per message and carries no string.
- Output formatting in `print_byte` (bf.py:24-29): `chr` and the decimal fallback are not modelled. The output is the sequence of cell values.
- Terminal input in `get_input` (bf.py:31-43): the `>>> ` prompt, the newline printed on end of file, and the choice between Python's `int()` parse and `ord` of the first character are not modelled. The input is a sequence of values, one per `,`.
- Interpreter.Run: Python indexes a list with a negative pointer by counting from the end. The model does not do that. A cell access through a negative pointer (`+`, `-`, `.`, `[`, `]`, or `,` with input pending) ends the run with `PointerFault`.
- Interpreter.Run: `bf_run` has no step bound and may loop forever. `Run` and `Exec` take a step budget `fuel` and end with `OutOfFuel` when it is spent. `ExecMoreFuel` shows that the budget does not change a run that ends within it.
- Interpreter.Run: requires the program to contain only commands and the table to be the one that matches it. The entry point only ever calls `bf_run` with the table that `build_jump_pairs` builds from the same filtered program (bf.py:120-133). With another table Python may jump elsewhere, or raise `KeyError` when a lookup is reached (bf.py:48 on a zero cell, bf.py:57 on a non-zero one); a non-command character, once reached, raises `TypeError` (bf.py:106, 112).
- JumpTable.Invert: requires `opening` to be injective. With repeated values the Python comprehension keeps the last key in dict order, which the model does not track. Its only caller passes an injective map.
- Machine.BFMachine.IncrData, Machine.BFMachine.DecrData, Machine.BFMachine.PrintByte, Machine.BFMachine.GetInput: require the pointer to be in bounds (`GetInput` only when input is pending), since the negative-index case is the aliasing described above.
- The end-to-end program tests (test.py:54-139) need `.bf` files that are not part of this model, and they capture stdout.
