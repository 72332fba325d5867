# rust_bfi, modelled in Dafny

rust_bfi holds two implementations of one small byte-coded tape machine, a
Brainfuck-style interpreter. Each machine has a tape of byte cells, a data
pointer, an input buffer it consumes from the front, an output buffer, and a
jump stack. Eight bytes are commands (`>` `<` `+` `-` `.` `,` `[` `]`); every
other byte is ignored.

- The Python class `BFI` (bfipy/interpreter.py) runs the whole program in one
  `run` loop. It parks skipped bytes on the jump stack on `[` and scans them
  back on `]`. When the loop ends, it checks a bracket counter.
- The Rust struct `BFInterpreter` (src/interpreter.rs) has one `&mut self`
  handler per command. Its `run` loop pushes every consumed byte onto the jump
  stack and stops at the first recorded error.

The model follows each source file in its own form:

- **Pure code becomes functions.** The two decoders `_parse_command` and
  `byte_to_command` and the two `Command` enums are datatypes and functions
  (`PyCommand`, `Dtypes`, `Parsing`).
- **State-changing code becomes classes.** Each machine is a class whose fields
  are the source's fields, with `run` and its inner scanning loops as `while`
  loops (`PyMachine.BFI`, `RustMachine.BFInterpreter`).
- **Each method has a specification function on a value of all the fields.**
  `PySemantics` and `RustSemantics` hold these functions, and every method is
  proved to compute exactly its function of the old state. The properties of
  each machine are lemmas about those functions, so they hold for the classes.
- **Bytes are integers 0 to 255.** Python's unbounded `int` pointer is an
  `int`. Rust's `usize` pointer is a `nat`.
- **Exceptions and panics are outcomes.** A Python exception is an outcome of
  `run` (`Raised`). A Rust panic is a `Panicked` result carrying its reason.

The code is followed where its intent and its text differ. Neither
implementation matches nested brackets:

- **Python forward skip.** It stops at the first `]`.
- **Python backward scan.** It stops at the first `[` on the jump stack, and
  raises IndexError when the stack runs out.
- **Rust `jump_right_if_zero`.** It copies `bracket_state` into
  `pre_bracket_state` just before testing the two for inequality. So `[` never
  skips anything.
- **Rust `jump_left_if_non_zero`.** `bracket_state` therefore stays 0, and
  every `]` records "unmatched ]".

The model states this behaviour. Module `Scenarios` proves what the code does
on the programs of the two test suites: the expected result where the code
meets it, and the actual result where it does not. `Agreement` relates the two machines:

- their enums and decoders correspond one to one;
- on programs without brackets, they leave the same tape, output and error
  flag, and fail in corresponding ways.

Files: `wrappers.dfy`, `bytes.dfy`, `py_command.dfy`, `py_semantics.dfy`,
`py_machine.dfy`, `dtypes.dfy`, `parsing.dfy`, `rust_semantics.dfy`,
`rust_machine.dfy`, `agreement.dfy`, `scenarios.dfy`.

## Model

| member | source | states |
|---|---|---|
| PyCommand.ParseCommand | bfipy/interpreter.py:136-169 | `_parse_command` returns a command exactly for the eight command bytes and None for every other byte |
| PyCommand.ParseCommandClassifies | bfipy/interpreter.py:151-169 | each of the eight commands comes from exactly one byte (43 `+`, 44 `,`, 45 `-`, 46 `.`, 60 `<`, 62 `>`, 91 `[`, 93 `]`), and None from exactly the other bytes |
| Dtypes.EightVariants | src/dtypes.rs:7-16 | the Rust `Command` enum has exactly eight distinct payload-free variants |
| Parsing.ByteToCommand | src/parsing.rs:10-32 | `byte_to_command` is Some exactly for the eight command bytes, and then gives the variant written as that byte; every other byte is the image of no variant |
| Parsing.DecodeEncode | src/parsing.rs:12-28 | decoding the byte a variant is written as gives that variant back |
| Parsing.EncodeDecode | src/parsing.rs:12-30 | a byte that decodes to a variant is the byte that variant is written as |
| Parsing.DecodeInjective | src/parsing.rs:12-28 | two bytes that decode to the same variant are equal |
| Parsing.EncodeImage | src/parsing.rs:12-30 | the bytes written for the eight variants are exactly the command bytes |
| Parsing.EightDecodableBytes | src/parsing.rs:12-30 | exactly 8 of the 256 byte values decode to Some |
| Agreement.CommandsCorrespond | src/dtypes.rs:7-16 | the Rust variants and the Python `Command` members correspond one to one by name |
| Agreement.DecodersAgree | src/parsing.rs:12-30 | `byte_to_command` and `_parse_command` give corresponding commands on every byte |
| PySemantics.Init | bfipy/interpreter.py:53-84 | the state `__init__` sets: `mem_sz` zero cells, pointer 0, empty buffers and stack, flags down, empty message, counters 0; the current cell is readable iff `mem_sz > 0` |
| PySemantics.SlotCongruent | bfipy/interpreter.py:101-104 | the slot Python's `mem[ptr]` reads is on the tape and congruent to `ptr` modulo the tape length, so a non-negative pointer reads its own cell |
| PySemantics.CellIndexing | bfipy/interpreter.py:101-104 | `ptr_val` is `mem[ptr]` for a non-negative pointer and `mem[len + ptr]` for a negative one |
| PySemantics.ParkKeepsBytes | bfipy/interpreter.py:232-244 | the forward skip finds a `]` iff `in_buf` holds one and leaves it next; it parks the `[` above the old stack and above that the skipped bytes, none a `]`, which read back give exactly what was taken; without a `]` all of `in_buf` is consumed and only its last byte is lost |
| PySemantics.ParkFound | bfipy/interpreter.py:232-244 | with the first `]` at `k`, the skip leaves `in_buf[k..]` and parks exactly `in_buf[..k]`, reversed, behind the `[` |
| PySemantics.ParkMissing | bfipy/interpreter.py:232-241 | without a `]`, the skip empties `in_buf` and parks all but its last byte, reversed, behind the `[` |
| PySemantics.RestoreKeepsBytes | bfipy/interpreter.py:259-265 | the backward scan finds a `[` iff the stack holds one, and otherwise empties the stack; it puts the `]` back before the old `in_buf` and before that the popped bytes, which read back to front followed by the rest of the stack give the old stack; found, the `[` is first and no other popped byte is one |
| PySemantics.RestoreFound | bfipy/interpreter.py:259-265 | with the first `[` of the stack at `k`, the scan moves exactly `k + 1` bytes, ending with that `[` in front |
| PySemantics.RestoreMissing | bfipy/interpreter.py:259-263 | with no `[` on the stack, every stack byte is moved in front of the `]` and the stack is left empty |
| PySemantics.Execute | bfipy/interpreter.py:183-265 | the `match` of one iteration keeps the tape length and never touches `flg_run` or `flg_trm`; its branches are stated one by one by the lemmas below |
| PySemantics.JumpRight | bfipy/interpreter.py:220-244 | the `[` branch keeps the tape length and the run and terminated flags (its paths: OpenCounts, ParkOnZero, SkipOnZero) |
| PySemantics.JumpLeft | bfipy/interpreter.py:245-265 | the `]` branch keeps the tape length and the run and terminated flags (its paths: CloseCounts, FallThroughOnZero, RepeatOnNonZero) |
| PySemantics.EnterOnNonZero | bfipy/interpreter.py:220-224 | `[` over a nonzero cell only increments the counter and goes on with the next byte |
| PySemantics.DecimalRoundTrip | bfipy/interpreter.py:271 | the decimal digits written for a count read back as that count |
| PySemantics.UnbalancedMessageReadsBack | bfipy/interpreter.py:271 | the unbalanced-bracket message is the fixed prefix, the sign of the counter, its magnitude in decimal digits and `)` |
| PySemantics.Finish | bfipy/interpreter.py:267-275 | after the loop the run flag is down and the terminated flag up; the error flag is set iff it was set or the counter is nonzero; a recorded message is kept, else an unbalanced counter gets its message; nothing else changes |
| PySemantics.Step | bfipy/interpreter.py:182-266 | one iteration keeps the tape length and leaves `flg_run` and `flg_trm` alone |
| PySemantics.Loop | bfipy/interpreter.py:181-266 | the loop always ends, and keeps the tape length and the run and terminated flags |
| PySemantics.Run | bfipy/interpreter.py:171-275 | a return leaves `flg_run` down and `flg_trm` up; the error flag is set iff the loop set it or left a nonzero paren counter; a recorded message is never overwritten, otherwise the message is the unbalanced-bracket one; an exception leaves the flags as the loop left them |
| PySemantics.StepDecreases | bfipy/interpreter.py:181-266 | every iteration that goes on decreases a measure (twice the buffer and stack lengths, plus one unless the next byte is a settled bracket), so `run` terminates although backward jumps regrow `in_buf` |
| PySemantics.JumpRightDecreases | bfipy/interpreter.py:220-244 | a forward skip keeps the byte count and, when it keeps it, leaves a `]` over a zero cell next |
| PySemantics.JumpLeftDecreases | bfipy/interpreter.py:245-265 | a backward scan keeps the byte count and, when it keeps it, leaves a `[` over a nonzero cell next |
| PySemantics.NonCommandIgnored | bfipy/interpreter.py:182-183 | a byte that is not a command changes nothing but `in_buf` and `in_buf_idx` |
| PySemantics.IncrementWraps | bfipy/interpreter.py:200-206 | `+` sets the current cell to its value plus one modulo 256 and changes no other cell or attribute |
| PySemantics.DecrementWraps | bfipy/interpreter.py:207-213 | `-` sets the current cell to its value minus one modulo 256 and changes no other cell or attribute |
| PySemantics.OutputAppends | bfipy/interpreter.py:214-217 | `.` appends exactly the current cell to `out_buf` and changes nothing else |
| PySemantics.InputRaises | bfipy/interpreter.py:218-219 | `,` raises NotImplementedError right after the byte is popped |
| PySemantics.PointerMoves | bfipy/interpreter.py:184-199 | `>` and `<` move the pointer by one; leaving `[0, mem_sz)` sets the overrun or underrun message and breaks |
| PySemantics.OpenCounts | bfipy/interpreter.py:220-222 | `[` increments the paren counter on every path |
| PySemantics.CloseCounts | bfipy/interpreter.py:245-253 | `]` breaks with "unmatched ]" when the counter is below 1 and otherwise decrements it |
| PySemantics.OpenStep | bfipy/interpreter.py:220-244 | byte 91 runs the `JumpRightIfZero` branch |
| PySemantics.ParkOnZero | bfipy/interpreter.py:224-244 | the three ways a forward skip ends: empty `in_buf`, a `]` found (bytes before it parked most recent first behind the `[`, the `]` next), or no `]` left |
| PySemantics.SkipOnZero | bfipy/interpreter.py:220-244 | the same for a whole iteration that pops a `[` over a zero cell |
| PySemantics.SkipBracketFreeBody | bfipy/interpreter.py:224-244 | `[` over a zero cell in front of a body without `]` parks the reversed body and the `[` on the stack, and leaves the `]` next |
| PySemantics.FallThroughOnZero | bfipy/interpreter.py:245-255 | `]` over a zero cell with the counter at least 1 only decrements the counter |
| PySemantics.RepeatOnNonZero | bfipy/interpreter.py:255-265 | `]` over a nonzero cell puts the stack bytes before the first `[` back in front of `in_buf`, starting with that `[`, and shrinks the stack by the count popped; with no `[` on the stack it raises IndexError after moving the whole stack, reversed, in front of the `]` and `in_buf` |
| PySemantics.ParkThenRestore | bfipy/interpreter.py:232-265 | on a body without brackets, a backward scan gives back exactly what the forward skip parked, in program order, behind the `[` |
| PySemantics.StepKeepsPointer | bfipy/interpreter.py:184-199 | an iteration that goes on keeps the pointer inside the tape; leaving it is always a break with the overrun or underrun message |
| PySemantics.StepErrors | bfipy/interpreter.py:181-266 | an iteration that goes on leaves the error flag and message alone; every break sets the flag |
| PySemantics.StepParen | bfipy/interpreter.py:222-253 | the paren counter never goes below zero in one iteration |
| PySemantics.StepOutput | bfipy/interpreter.py:214-217 | no iteration takes anything off `out_buf` |
| PySemantics.LoopOutputGrows | bfipy/interpreter.py:181-266 | `out_buf` never shrinks over the whole loop |
| PySemantics.LoopKeepsPointer | bfipy/interpreter.py:181-199 | the loop leaves the pointer on the tape unless it ended with the overrun or underrun error |
| PySemantics.LoopParen | bfipy/interpreter.py:181-266 | the paren counter stays non-negative over the whole loop |
| PySemantics.LoopErrors | bfipy/interpreter.py:181-266 | a normal return without error consumed all of `in_buf`; the loop never clears the flag and changes the message only together with the flag |
| PySemantics.LoopUnfold | bfipy/interpreter.py:181-266 | an iteration that goes on is followed by the rest of the loop |
| PySemantics.LoopIncrement | bfipy/interpreter.py:200-206 | a `+` over a readable cell is followed by the rest of the loop on the incremented cell |
| PySemantics.LoopDecrement | bfipy/interpreter.py:207-213 | a `-` over a readable cell is followed by the rest of the loop on the decremented cell |
| PySemantics.IncrementsWrap | bfipy/interpreter.py:200-206 | `n` times `+` adds `n` to the current cell modulo 256 and changes nothing else |
| PySemantics.DecrementsWrap | bfipy/interpreter.py:207-213 | `n` times `-` subtracts `n` from the current cell modulo 256 and changes nothing else |
| PyMachine.BFI.constructor | bfipy/interpreter.py:53-84 | `BFI(mem_sz)` has `mem_sz` zero cells, pointer 0, empty buffers and stack, all flags down, counters 0 |
| PyMachine.BFI.PtrVal | bfipy/interpreter.py:101-104 | `ptr_val` is the current cell, with Python's negative indexes |
| PyMachine.BFI.ParkUntilClose | bfipy/interpreter.py:232-244 | the forward-skip loop leaves `in_buf` and the stack as `Park` says |
| PyMachine.BFI.RestoreUntilOpen | bfipy/interpreter.py:259-265 | the backward-scan loop leaves `in_buf` and the stack as `Restore` says, and reports the empty-stack `pop(0)` |
| PyMachine.BFI.SkipForward | bfipy/interpreter.py:220-244 | the `JumpRightIfZero` branch computes `JumpRight` |
| PyMachine.BFI.JumpBack | bfipy/interpreter.py:245-265 | the `JumpLeftIfNonZero` branch computes `JumpLeft` |
| PyMachine.BFI.Iterate | bfipy/interpreter.py:182-266 | one pass of the loop body computes `Step` |
| PyMachine.BFI.Run | bfipy/interpreter.py:171-275 | `run` leaves every attribute, and whether an exception escapes, as `PySemantics.Run` says (where the pointer ends up is stated by `PySemantics.LoopKeepsPointer`) |
| RustSemantics.New | src/interpreter.rs:29-48 | `new(n)` has `n` zero cells, pointer 0, empty buffers and stack, all flags down, no message or current byte, `bracket_state` 0 |
| RustSemantics.MoveRight | src/interpreter.rs:56-63 | the pointer goes up by one, and the overrun message is recorded iff it reaches `mem_size`; nothing else changes |
| RustSemantics.MoveLeft | src/interpreter.rs:66-74 | at 0 the pointer stays and the underrun message is recorded; otherwise it goes down by one; nothing else changes |
| RustSemantics.Increment | src/interpreter.rs:77-85 | the current cell goes up by one modulo 256 and nothing else changes; a pointer off the tape panics |
| RustSemantics.Decrement | src/interpreter.rs:88-96 | the current cell goes down by one modulo 256 and nothing else changes; a pointer off the tape panics |
| RustSemantics.Output | src/interpreter.rs:99-102 | exactly the current cell is appended to `out_buf`; a pointer off the tape panics |
| RustSemantics.Input | src/interpreter.rs:105-107 | `input_byte` always panics |
| RustSemantics.BracketDelta | src/interpreter.rs:118-129 | the scanning loops add +1 for `[`, -1 for `]` and 0 for any other byte |
| RustSemantics.SkipMoves | src/interpreter.rs:117-134 | the skip loop loses and reorders no byte, stops only at `pre` or at the end of `in_buf`, and touches only `in_buf`, the stack and `bracket_state` |
| RustSemantics.SkipCounts | src/interpreter.rs:117-134 | the skip loop adds to `bracket_state` the bracket balance of the bytes it moved |
| RustSemantics.JumpRight | src/interpreter.rs:110-141 | `[` changes nothing, for every cell value and every `bracket_state`, and panics only when the pointer is off the tape |
| RustSemantics.SkipChecked | src/interpreter.rs:117-139 | "could not find closing ]" is recorded iff the skip loop ends away from `pre` |
| RustSemantics.Rewind | src/interpreter.rs:163-178 | the rewind loop loses and reorders no byte and changes only `in_buf`, the stack and `bracket_state`, which ends at `pre`; it leaves a `[` in front when it had to count up; an empty stack panics |
| RustSemantics.RewindCounts | src/interpreter.rs:163-178 | when the rewind loop ends, `bracket_state` plus the bracket balance of the bytes it popped is `pre` |
| RustSemantics.RewindStep | src/interpreter.rs:163-178 | the rewind loop goes on from where one iteration leaves it |
| RustSemantics.PopFront | src/interpreter.rs:193 | `pop_front` moves the front of `in_buf` into `current_byte`, or `None` when empty |
| RustSemantics.JumpLeft | src/interpreter.rs:144-183 | with `bracket_state` 0, `]` records "unmatched ]" and changes nothing else; otherwise it decrements the counter, falls through on a zero cell, and on a nonzero cell rewinds to a `[` in `current_byte` without losing bytes |
| RustSemantics.Push | src/interpreter.rs:208 | the current byte is pushed onto the stack; `None` panics at `unwrap` |
| RustSemantics.Loop | src/interpreter.rs:192-209 | the loop only moves bytes from `in_buf` to the stack, stops only with `in_buf` empty or an error recorded, and keeps `bracket_state` at 0 and the tape length |
| RustSemantics.Run | src/interpreter.rs:185-214 | `run` ends with `run_flg` down and `term_flg` up, `jump_stack ++ in_buf` unchanged, and `in_buf` empty unless an error was recorded |
| RustSemantics.StepConsumes | src/interpreter.rs:192-209 | an iteration that does not panic moves exactly the front byte of `in_buf` onto the stack |
| RustSemantics.LoopCellCommand | src/interpreter.rs:77-96 | at `bracket_state` 0, a `+`, `-` or `[` over a readable cell consumes the byte into `current_byte`, pushes it onto `jump_stack`, changes the current cell by its delta and goes on with the rest of the loop |
| RustSemantics.CellsWrap | src/interpreter.rs:77-96 | `n` times `+` (or `-`) changes the current cell by `n` (or `-n`) modulo 256, changes nothing else and goes on with the rest of the loop |
| RustSemantics.LoopUnfold | src/interpreter.rs:192-209 | an iteration that records no error is followed by the rest of the loop |
| RustSemantics.CloseFails | src/interpreter.rs:144-149 | with `bracket_state` 0, an iteration on `]` records "unmatched ]" |
| RustSemantics.StepKeepsPointer | src/interpreter.rs:56-74 | an iteration without an error keeps the pointer below `mem_size` |
| RustSemantics.StepMonotone | src/interpreter.rs:192-209 | no iteration clears the error flag or shortens `out_buf` |
| RustSemantics.StepKeepsTrace | src/interpreter.rs:193-208 | for every `bracket_state`, an iteration keeps `jump_stack ++ in_buf` |
| RustSemantics.HandleKeepsTrace | src/interpreter.rs:110-183 | no handler loses or reorders a byte of `jump_stack ++ [current_byte] ++ in_buf` |
| RustSemantics.LoopMonotone | src/interpreter.rs:192-209 | over the whole loop `out_buf` only grows and the error flag is never cleared |
| RustSemantics.LoopKeepsPointer | src/interpreter.rs:192-209 | the loop ends with an error or with the pointer below `mem_size` |
| RustSemantics.CloseAlwaysFails | src/interpreter.rs:146-149 | a program that still holds a `]` ends in a panic or with the error flag up |
| RustSemantics.RunIterations | src/interpreter.rs:192-209 | `run` performs one iteration per byte moved to the stack, so at most `|in_buf|` of them |
| RustMachine.BFInterpreter.constructor | src/interpreter.rs:29-48 | the new interpreter's fields are `New(mem_size)` |
| RustMachine.BFInterpreter.PtrVal | src/interpreter.rs:50-53 | `ptr_val` is `mem[data_ptr]` |
| RustMachine.BFInterpreter.MovePointerRight | src/interpreter.rs:56-63 | computes `MoveRight` |
| RustMachine.BFInterpreter.MovePointerLeft | src/interpreter.rs:66-74 | computes `MoveLeft` |
| RustMachine.BFInterpreter.IncrementByte | src/interpreter.rs:77-85 | computes `Increment`, panic included |
| RustMachine.BFInterpreter.DecrementByte | src/interpreter.rs:88-96 | computes `Decrement`, panic included |
| RustMachine.BFInterpreter.OutputByte | src/interpreter.rs:99-102 | computes `Output`, panic included |
| RustMachine.BFInterpreter.InputByte | src/interpreter.rs:105-107 | always reports the panic |
| RustMachine.BFInterpreter.SkipToMatching | src/interpreter.rs:117-139 | the skip loop and its error check compute `SkipChecked` |
| RustMachine.BFInterpreter.JumpRightIfZero | src/interpreter.rs:110-141 | computes `JumpRight` |
| RustMachine.BFInterpreter.RewindToMatching | src/interpreter.rs:163-178 | the rewind loop computes `Rewind`, panic included |
| RustMachine.BFInterpreter.PopFront | src/interpreter.rs:193 | computes `PopFront` |
| RustMachine.BFInterpreter.JumpLeftIfNonZero | src/interpreter.rs:144-183 | computes `JumpLeft` |
| RustMachine.BFInterpreter.Dispatch | src/interpreter.rs:195-204 | the `match cmd` calls the handler of each variant |
| RustMachine.BFInterpreter.Iterate | src/interpreter.rs:193-208 | one pass of the loop body computes `Step` |
| RustMachine.BFInterpreter.Run | src/interpreter.rs:185-214 | `run` computes `RustSemantics.Run` and leaves `bracket_state` at 0 (where the pointer ends up is stated by `RustSemantics.LoopKeepsPointer`) |
| RustMachine.BFInterpreter.FillInBuff | src/interpreter.rs:216-220 | `fill_in_buff` appends the program's bytes, in order, after `in_buf` |
| Agreement.StepsAgree | src/interpreter.rs:56-107 | on a byte other than a bracket, one iteration of each machine from the same state agrees |
| Agreement.CellCommandsAgree | src/interpreter.rs:77-102 | `+`, `-` and `.` agree between the machines |
| Agreement.MovesAgree | src/interpreter.rs:56-74 | `>` and `<` agree between the machines: both move, or both record an error |
| Agreement.LoopsAgree | src/interpreter.rs:192-209 | on a bracket-free program the loops leave the same tape, output and error flag, and the Python one raises exactly when the Rust one panics |
| Agreement.RunsAgree | src/interpreter.rs:185-220 | fresh machines of equal size loaded with the same bracket-free program and run agree in the same way |
| Scenarios.PyMoveRight | bfipy/test/interpreter.py:52-69 | `>` on two or more cells moves the pointer to 1 and ends without error |
| Scenarios.PyMoveLeft | bfipy/test/interpreter.py:86-103 | `><` brings the pointer back to 0 without error |
| Scenarios.PyOverrun | bfipy/test/interpreter.py:71-84 | `>>>>` on three cells fails with the overrun message |
| Scenarios.PyUnderrun | bfipy/test/interpreter.py:105-118 | `<` fails with the underrun message on any tape |
| Scenarios.PyIncrements | bfipy/test/interpreter.py:120-134 | `n` times `+` leaves `n` modulo 256 in cell 0 |
| Scenarios.PyDecrements | bfipy/test/interpreter.py:136-150 | `+` then `n` times `-` leaves `1 - n` modulo 256 in cell 0 |
| Scenarios.PyOutput | bfipy/test/interpreter.py:152-169 | `a` times `+`, `b` times `-` and `.` return without error and output exactly the byte `a - b` modulo 256; so `.`, `+.`, `+++++.`, `-.` and `++----.` output 0, 1, 5, 255 and 254 |
| Scenarios.PyInput | bfipy/test/interpreter.py:171-177 | `,` raises NotImplementedError |
| Scenarios.PyUnmatchedClose | bfipy/test/interpreter.py:209-223 | `]` alone fails with "unmatched ]" |
| Scenarios.PyMissingClose | bfipy/test/interpreter.py:209-223 | `[+++` fails with "no closing ] found", not with the message the test expects |
| Scenarios.PySkipBody | bfipy/test/interpreter.py:184 | `[+++].` skips the body and outputs 0 |
| Scenarios.SkipBodyFrom | bfipy/interpreter.py:220-266 | the loop on `[+++].` from any zero cell outputs 0 |
| Scenarios.PyJumpNonZero | bfipy/test/interpreter.py:183 | `+[++>]<.` enters the body, falls through the `]` over the zero cell 1, and outputs exactly 3 |
| Scenarios.PyEmptyBody | bfipy/test/interpreter.py:185 | `++++>[]<.` skips the empty body and outputs exactly 4 |
| Scenarios.PyTransfer | bfipy/test/interpreter.py:186-188 | `n` times `+` then `[->+<]>.` outputs exactly 1 when `n` is 1 modulo 256; for a larger cell value the `]` scans for a `[` that was never parked and raises IndexError with nothing output, so `++[->+<]>.` and `++++[->+<]>.` do not output 2 and 4 |
| Scenarios.PyNestedEmpty | bfipy/test/interpreter.py:189 | `+++>[[]]<.` ends with "unmatched ]" at the second `]`, with nothing output, instead of outputting 3 |
| Scenarios.CloseBackOut | bfipy/interpreter.py:181-266 | the loop on `]<.` with one `[` pending over a zero cell 1 outputs cell 0 and balances the counter |
| Scenarios.TransferStart | bfipy/interpreter.py:181-224 | the loop on `[->+<` over a nonzero cell 0 and a zero cell 1 moves one unit from cell 0 to cell 1 and reaches the `]` |
| Scenarios.CloseOverZero | bfipy/interpreter.py:181-266 | the loop on `]>.` with one `[` pending over a zero cell 0 outputs cell 1 |
| Scenarios.TransferRaises | bfipy/interpreter.py:255-265 | the loop on `]>.` over a nonzero cell with an empty jump stack raises IndexError with the output unchanged |
| Scenarios.CloseThenOutput | bfipy/interpreter.py:245-266 | the loop on `].` with one `[` pending over a zero cell outputs 0 |
| Scenarios.RsIncrements | src/interpreter.rs:247-263 | `n` times `+` runs to the end and leaves `n` modulo 256 in cell 0; so `+++` leaves 3 |
| Scenarios.RsIncDec | src/interpreter.rs:247-263 | `n` times `+` then `n` times `-` runs to the end and leaves 0 in cell 0; so `+++---` does |
| Scenarios.RsMissingClose | src/interpreter.rs:110-141 | `[` then `n` times `+` runs the body, because `[` does nothing, and ends without error with `n` modulo 256 in cell 0 |
| Scenarios.RsUnmatchedClose | src/interpreter.rs:144-149 | `[`, `n` times `+`, `].` stops at the `]` with "unmatched ]", leaving the `.` unread and nothing output |

## Left out

- Input and output devices: `,` has no input source in either program (Python raises NotImplementedError, Rust panics), and `out_buf` is only a buffer, so nothing is read or printed.
- PySemantics.UnbalancedMessage renders `{:+d}` as a sign and the decimal digits; Python's general format machinery is not modelled.
- RustMachine.BFInterpreter.FillInBuff takes the program as its bytes; the UTF-8 encoding done by `String::as_bytes` is not modelled.
- RustSemantics.MoveRight: `data_ptr` is a `nat`, so `usize` overflow of `data_ptr += 1` is not modelled; it needs a pointer of 2^64 - 1, far beyond any tape.
- RustSemantics.Loop and RustSemantics.Run are defined for `bracket_state` 0 only. This is the value `new` sets, and no reachable state changes it. The handlers are modelled for every `bracket_state`.
- Nested-bracket matching is not modelled, because neither implementation does it. Of the loop programs of bfipy/test/interpreter.py:183-191, the code meets those at lines 183-186, and the model proves them; lines 187 and 188 raise IndexError and line 189 ends with "unmatched ]" (Scenarios.PyTransfer, Scenarios.PyNestedEmpty). The "Hello World" program at line 191 is not traced. The expected message at line 214 is not met either (Scenarios.PyMissingClose).
- PyMachine.BFI.constructor and PySemantics.Init take `mem_sz` as a `nat`: the ValueError that `bytearray` raises for a negative size (bfipy/interpreter.py:66) is not modelled.
- The default `mem_sz` of 4096 (bfipy/interpreter.py:53-54) is not modelled: every constructor and scenario takes the tape size as an explicit argument.
- The Rust test `interpreter_run_mv_ptr` (src/interpreter.rs:265-281) carries no `#[test]` attribute and is never run, so it is not modelled.
- Debug output is not modelled: `#[derive(Debug)]`, `println!`, and `_print_state`.
- src/main.rs is not part of this model: it only builds an 8-cell machine and runs an empty program.
- The read-only Python properties (`mem_sz`, `mem`, `ptr`, `out_buf`, the flags, `err_msg`, `in_buf_idx`) are plain field reads. The model reads the fields directly.
- Python's `in_buf_idx` is modelled, but no property is stated about it beyond where it is incremented.
