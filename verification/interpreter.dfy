/** The whole pipeline of `main`: lex the source, parse it, and run it on a
    zeroed tape of 24576 cells with the cursor starting at cell 12288. */
module Interpreter {
  import opened Wrappers
  import opened Tokens
  import opened Syntax
  import opened Parser
  import opened Machine

  const TapeLength: nat := 24576
  const StartCursor: nat := 12288

  /** The state before the program's first instruction. */
  function InitialState(input: seq<bv8>): (s: State)
    ensures |s.tape| == TapeLength && OnTape(s)
    ensures s.cursor == StartCursor
    ensures forall k :: 0 <= k < |s.tape| ==> s.tape[k] == 0
    ensures s.input == input && s.output == []
  {
    State(seq(TapeLength, _ => 0), StartCursor, input, [])
  }

  /** How a run of the interpreter ends. */
  datatype Report =
    | SyntaxError(error: ParseError)                      // rejected before running
    | Finished(output: seq<bv8>, unread: seq<bv8>)         // ran to the end
    | Aborted(fault: RuntimeError, output: seq<bv8>)       // panicked while running
    | Unfinished                                           // did not finish within the fuel

  function Interpret(source: string, input: seq<bv8>, fuel: nat): Report
  {
    match Parse(Lex(source))
    case Err(e) => SyntaxError(e)
    case Ok(prog) =>
      match Exec(prog, InitialState(input), fuel)
      case Done(s) => Finished(s.output, s.input)
      case Crash(e, s) => Aborted(e, s.output)
      case OutOfFuel => Unfinished
  }

  /** A program is rejected before it runs, so with no output at all, exactly
      when its brackets are unbalanced. */
  lemma SyntaxErrorIffUnbalanced(source: string, input: seq<bv8>, fuel: nat)
    ensures Interpret(source, input, fuel).SyntaxError? <==> !Balanced(Lex(source))
  {
    ParseOkIffBalanced(Lex(source));
  }

  /** Input is only consumed from the front; `Machine.ExecExtends` states the
      same of every reachable state, including that output written before a
      panic stays written. */
  lemma RunConsumesInputInOrder(source: string, input: seq<bv8>, fuel: nat)
    ensures var r := Interpret(source, input, fuel);
      r.Finished? ==> |r.unread| <= |input| && r.unread == input[|input| - |r.unread|..]
  {
    if Parse(Lex(source)).Ok? {
      ExecExtends(Parse(Lex(source)).value, InitialState(input), fuel);
    }
  }

  /** `,.` with the input byte 0x41 writes that byte and consumes it. */
  lemma EchoOneByte(fuel: nat)
    ensures Interpret(",.", [0x41], fuel) == Finished([0x41], [])
  {
    var ts := Lex(",.");
    assert ts == [Token.Input, Token.Output];
    var prog := [Instruction.Input, Instruction.Output];
    assert Flatten(prog) == ts;
    ParseFlatten(prog);
    var s := InitialState([0x41]);
    ExecAppend([Instruction.Input], [Instruction.Output], s, fuel);
    ExecInput(s, fuel);
    var t := Exec([Instruction.Input], s, fuel).st;
    ExecOutput(t, fuel);
  }

  /** `[` alone is rejected: the loop opened at index 0 never ends. */
  lemma LoneOpenRejected(input: seq<bv8>, fuel: nat)
    ensures Interpret("[", input, fuel) == SyntaxError(UnmatchedOpen(0))
  {
    var ts := Lex("[");
    assert ts == [LoopOpen];
    assert Scan(ts, 0, 0, 0, []) == Scan(ts, 1, 1, 0, []);
  }

  /** `]` alone is rejected: the loop ending at index 0 has no beginning. */
  lemma LoneCloseRejected(input: seq<bv8>, fuel: nat)
    ensures Interpret("]", input, fuel) == SyntaxError(UnmatchedClose(0))
  {
    var ts := Lex("]");
    assert ts == [LoopClose];
    assert Scan(ts, 0, 0, 0, []) == Err(UnmatchedClose(0));
  }

  /** Text made only of comments is the empty program: it writes nothing and
      reads nothing. */
  lemma CommentsOnlyDoNothing(source: string, input: seq<bv8>, fuel: nat)
    requires forall i :: 0 <= i < |source| ==> !IsCommand(source[i])
    ensures Interpret(source, input, fuel) == Finished([], input)
  {
    LexEmptyIffNoCommands(source);
    assert Parse([]) == Ok([]);
  }

  /** For instance, `hello world` holds no command character. */
  lemma HelloWorldIsComment(input: seq<bv8>, fuel: nat)
    ensures Interpret("hello world", input, fuel) == Finished([], input)
  {
    var source := "hello world";
    assert forall i :: 0 <= i < |source| ==> !IsCommand(source[i]);
    CommentsOnlyDoNothing(source, input, fuel);
  }
}
