# bfi — a verified model of a Brainfuck interpreter

This project models the interpreter in `src/main.rs` of the `bfi` crate. The
interpreter runs Brainfuck as a three-stage pipeline:

* the **lexer** (`lexer` and `TryFrom<char> for Token`) turns source text into
  tokens and drops every character that is not one of `> < + - . , [ ]`;
* the **parser** (`parser` and `TryFrom<Token> for Instruction`) turns the flat
  tokens into a tree of instructions. It scans once with a local depth counter,
  and each outermost matched `[ … ]` span becomes one `Loop` whose body is the
  recursive parse of the tokens strictly inside it. It panics on a `]` that
  has no beginning and on a `[` that has no ending;
* the **executor** (`run`) walks the tree over a tape of 8-bit cells with a
  cursor. Cells wrap around modulo 256, and a `Loop` is a while-loop that tests
  the current cell before each pass.

`main` supplies a zeroed tape of 24576 cells with the cursor at cell 12288.

Modules, one per stage:

| file | module | contents |
|---|---|---|
| `wrappers.dfy` | `Wrappers` | `Option` and `Result`, which stand in for the source's `Result<_, ()>` and its panics |
| `tokens.dfy` | `Tokens` | `Token`, `FromChar`, `Lex`, the `Lexer` loop, and the lexer's inverse `Unlex` |
| `syntax.dfy` | `Syntax` | `Instruction`, `FromToken`, `Flatten` (tree back to tokens), leaf counting |
| `parser.dfy` | `Parser` | `Parse`/`Scan` (the source's scan, step by step), bracket nesting, `Balanced`, and the parser's correctness theorems |
| `machine.dfy` | `Machine` | `State`, `Step`, `Exec`/`RunLoop` (the executor, bounded by fuel), and their properties |
| `interpreter.dfy` | `Interpreter` | the tape geometry, the whole pipeline `Interpret`, and proved end-to-end runs of small programs |

Modelling choices:

* Standard input is a `seq<bv8>` consumed from the front. Standard output is a
  `seq<bv8>` that grows at the back.
* Each panic is an error value. The parser returns `Err(UnmatchedClose(i))` or
  `Err(UnmatchedOpen(start))` with the index the panic message names. The
  executor returns `Crash(error, state)`, and the state keeps the output
  written so far.
* `run` need not terminate. `Exec` and `RunLoop` take a `fuel` argument that
  bounds the loop passes, and `OutOfFuel` is a separate outcome.
  `ExecMonotone` proves that fuel never changes an outcome other than
  `OutOfFuel`.
* Cursor bounds follow the code:
  * `>` is `*data_pointer += 1`, which never fails by itself.
  * `<` at cell 0 is an underflow panic, as in a debug build.
  * Every cell access with the cursor past the last cell panics. The cell
    accesses are `+`, `-`, `.`, `,` and the loop test.
  So `>` off the right end followed by `<` is not an error, exactly as in the
  source.
* `,` reads the byte before it indexes the tape. With input left and the
  cursor past the end, the byte is consumed and then the run panics. With no
  input left, the run panics on the read whatever the cursor.

## Model

| member | source | states |
|---|---|---|
| Tokens.FromChar | src/main.rs:31-43 | a character yields a token exactly when it is one of the eight command characters, and that token is the one written with the character |
| Tokens.FromCharOfChar | src/main.rs:31-43 | reading back the character of any token gives that token, so the mapping is a bijection between the eight characters and the eight tokens |
| Tokens.UnlexLex | src/main.rs:46-57 | the lexer keeps exactly the command characters, in source order, each mapped to its token: writing its tokens back yields the source with all comments removed |
| Tokens.LexUnlex | src/main.rs:46-57 | lexing the text of any token sequence gives that sequence back |
| Tokens.LexAppend | src/main.rs:46-57 | the lexer works character by character: lexing a concatenation concatenates the results |
| Tokens.LexEmptyIffNoCommands | src/main.rs:46-57 | the token sequence is empty exactly when the text has no command character, as for comment-only or empty text |
| Tokens.Lexer | src/main.rs:46-57 | the source's push loop over the characters produces the lexer's token sequence |
| Syntax.FromToken | src/main.rs:81-91 | converting a token to an instruction fails exactly for `[` and `]`; every other token becomes a leaf instruction that converts back to the same token |
| Syntax.FromTokenOf | src/main.rs:81-91 | the six leaf instructions correspond one-to-one to the six non-bracket tokens |
| Parser.FlattenParse | src/main.rs:100-124 | flattening a successfully parsed tree, with each `Loop(b)` written as `[`, the tokens of `b`, `]`, reproduces the input tokens exactly |
| Parser.ParseFlatten | src/main.rs:100-124 | every instruction tree is the parse of its own flattening, so parsing and flattening are inverse bijections between trees and balanced token sequences |
| Parser.ParseOkIffBalanced | src/main.rs:94-131 | the parser succeeds exactly when every `]` closes an earlier `[` and every `[` is closed |
| Parser.ParseUnmatchedCloseIff | src/main.rs:101-107 | the parser reports an unmatched `]` at index `c` exactly when `ts[c]` is the first `]` at which more brackets have been closed than opened |
| Parser.ParseUnmatchedOpenIff | src/main.rs:126-128 | the parser reports an unmatched `[` at index `j` exactly when no `]` is unmatched and `ts[j]` is the last `[` opened at nesting zero and never closed (which already means the brackets do not all close) |
| Parser.LastUnmatchedOpenNests | src/main.rs:126 | an outermost `[` that is never closed leaves the nesting counter above zero at the end of the tokens |
| Parser.ParseLeafCount | src/main.rs:100-124 | a parsed tree holds exactly one leaf instruction per non-bracket token, counted through every loop body |
| Parser.ScanLoopSpan | src/main.rs:111-119 | during the scan, an outermost `[` whose contents are balanced and parse to `body` is replaced, together with its matching `]`, by the single instruction `Loop(body)` |
| Parser.BalancedParses | src/main.rs:113-119 | the recursive call on a balanced span never fails, and its result flattens back to the span |
| Machine.Step | src/main.rs:136-147 | a leaf instruction never changes the tape length, consumes input only from the front and only appends to the output |
| Machine.ExecIncrement | src/main.rs:138 | `+` adds one to the current cell modulo 256 and changes nothing else; it fails exactly when the cursor is past the last cell |
| Machine.ExecDecrement | src/main.rs:139 | `-` subtracts one from the current cell modulo 256 and changes nothing else; it fails exactly when the cursor is past the last cell |
| Machine.CellsWrap | src/main.rs:138-139 | a cell holding 255 becomes 0 on `+`, and a cell holding 0 becomes 255 on `-` |
| Machine.ExecIncrementPointer | src/main.rs:136 | `>` moves the cursor exactly one cell right, changes nothing else and never fails by itself |
| Machine.ExecDecrementPointer | src/main.rs:137 | `<` moves the cursor exactly one cell left and changes nothing else; it fails exactly at cell 0 |
| Machine.ExecOutput | src/main.rs:140 | `.` appends the current cell's value to the output and changes nothing else; it fails exactly when the cursor is past the last cell |
| Machine.ExecInput | src/main.rs:141-147 | `,` consumes exactly one input byte and stores it in the current cell, leaving the other cells, the cursor and the output alone. It fails when the input is exhausted, and also, after consuming the byte, when the cursor is past the last cell |
| Machine.ExecAppend | src/main.rs:134-154 | instructions run in order: running `p + q` runs `p`, then runs `q` from where `p` finished, and stops at the first failure |
| Machine.ExecExtends | src/main.rs:133-155 | a run never changes the tape length, consumes input only from the front and only appends to the output, so output written before a failure stays written |
| Machine.ExecMonotone | src/main.rs:148-152 | more fuel never changes a result that did not run out of fuel |
| Machine.RunLoopEndsOnZero | src/main.rs:149-151 | when the while-loop finishes, the cursor is on the tape and the current cell is 0 |
| Machine.ExecLoopEndsOnZero | src/main.rs:148-152 | after a `Loop` instruction finishes, the current cell is 0 |
| Machine.ExecLoopOffTape | src/main.rs:149 | the loop test reads the current cell, so a loop entered with the cursor past the last cell fails at once, with the state unchanged |
| Machine.ExecLoopSkipped | src/main.rs:148-152 | a loop entered on a zero cell runs its body zero times and leaves the state, output included, unchanged |
| Machine.LoopUnrolls | src/main.rs:148-152 | on a nonzero cell, a loop runs its body once and then behaves as the same loop started from the state the body left |
| Interpreter.InitialState | src/main.rs:171-172 | the run starts on a zeroed tape of 24576 cells with the cursor at cell 12288, with no output |
| Interpreter.SyntaxErrorIffUnbalanced | src/main.rs:168-174 | a program is rejected before it runs, writing nothing, exactly when its brackets are unbalanced |
| Interpreter.RunConsumesInputInOrder | src/main.rs:141-147 | what a finished run leaves unread is a suffix of the input, so input is consumed in order from the front |
| Interpreter.EchoOneByte | src/main.rs:168-174 | the program `,.` with input byte 0x41 writes exactly 0x41 and consumes it |
| Interpreter.LoneOpenRejected | src/main.rs:126-128 | the program `[` is rejected as a loop starting at index 0 that has no ending |
| Interpreter.LoneCloseRejected | src/main.rs:107 | the program `]` is rejected as a loop ending at index 0 that has no beginning |
| Interpreter.CommentsOnlyDoNothing | src/main.rs:46-57 | any text in which no character is a command is the empty program: it writes nothing and reads nothing |
| Interpreter.HelloWorldIsComment | src/main.rs:46-57 | in particular the text `hello world` is all comment and does nothing |

## Left out

- `main`'s argument-count check, usage message and `process::exit` (src/main.rs:158-163) are process plumbing.
- `fs::read_to_string` and UTF-8 decoding (src/main.rs:166) are file I/O. The model takes the already-decoded text as a `string`.
- `io::stdin().read_exact` and `print!` are replaced by input and output byte sequences. `print!("{}", byte as char)` writes the UTF-8 encoding of code point `byte`, so a byte of 128 or more reaches the terminal as two bytes. The model records the cell's value, not that encoding.
- Non-termination is not modelled. Runs are bounded by fuel, and a run that needs more fuel ends as `OutOfFuel`/`Unfinished`, which carries no state: the model says nothing about the output a run writes before it exhausts its fuel or when it never ends (for example `+[.]`, which prints forever), although the program itself has already printed those bytes.
- A release build wraps `<` at cell 0 to `usize::MAX` instead of panicking. The model treats it as the debug build does, as a `CursorUnderflow` failure. The cursor is an unbounded `nat`, so the practically unreachable overflow of `>` at `usize::MAX` is not modelled either.
- Two further resource limits are not modelled. The parser's nesting counter `loop_stack` (src/main.rs:97) is an `i32` that a debug build would overflow at 2^31 nested `[`, while the model's depth is an unbounded `nat`. And `parser` (src/main.rs:116) and `run` (src/main.rs:150) recurse once per nesting level, so nesting deep enough overflows the program's stack, while the model parses and runs such programs normally.
- The Hello-World prefix program `++++++++[>++++[>++>+++>+++>+<<<<-]>+>+>->>+[<]<-]>>.` is not proved end to end. Its output would need a loop-invariant proof for each of its three loops. The end-to-end runs that are proved are `EchoOneByte`, `LoneOpenRejected`, `LoneCloseRejected` and `CommentsOnlyDoNothing`.
- The recursive `parser` call reports positions relative to its slice. `BalancedParses` proves that such a call never fails, so those positions are never reported.
- Determinism of the parser is not stated as a lemma. Every stage is a mathematical function, so equal inputs give equal results.
