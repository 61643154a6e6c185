/** The executor: a tree-walking interpreter over a byte tape and a cursor.
    Standard input is a byte sequence consumed from the front and standard
    output a byte sequence that grows at the back. */
module Machine {
  import opened Syntax

  datatype State = State(tape: seq<bv8>, cursor: nat, input: seq<bv8>, output: seq<bv8>)

  /** The ways `run` panics. */
  datatype RuntimeError =
    | CursorUnderflow          // `<` with the cursor at cell 0
    | CursorOutOfRange(at: nat) // a cell access with the cursor past the last cell
    | InputExhausted           // `,` with no input byte left

  /** The outcome of running a program: it finishes, it panics (keeping the
      state reached, so output already written stays written), or the fuel
      bounding the number of loop passes runs out. */
  datatype Outcome = Done(st: State) | Crash(err: RuntimeError, st: State) | OutOfFuel

  predicate OnTape(s: State) {
    s.cursor < |s.tape|
  }

  /** `t` is a state that running from `s` can reach: the tape keeps its
      length, input is only consumed from the front, output only grows. */
  ghost predicate Extends(s: State, t: State) {
    && |t.tape| == |s.tape|
    && |t.input| <= |s.input|
    && t.input == s.input[|s.input| - |t.input|..]
    && s.output <= t.output
  }

  lemma ExtendsTransitive(s: State, t: State, u: State)
    requires Extends(s, t) && Extends(t, u)
    ensures Extends(s, u)
  {
  }

  /** Only the current cell may differ between `s` and `t`. */
  ghost predicate OnlyCellChanged(s: State, t: State) {
    && |t.tape| == |s.tape|
    && t.cursor == s.cursor
    && t.input == s.input
    && t.output == s.output
    && forall k :: 0 <= k < |s.tape| && k != s.cursor ==> t.tape[k] == s.tape[k]
  }

  /** The effect of one leaf instruction. */
  function Step(ins: Instruction, s: State): (r: Outcome)
    requires !ins.Loop?
    ensures !r.OutOfFuel?
    ensures Extends(s, r.st)
  {
    match ins
    case IncrementPointer => Done(s.(cursor := s.cursor + 1))
    case DecrementPointer =>
      if s.cursor == 0 then Crash(CursorUnderflow, s) else Done(s.(cursor := s.cursor - 1))
    case Increment =>
      if !OnTape(s) then Crash(CursorOutOfRange(s.cursor), s)
      else Done(s.(tape := s.tape[s.cursor := s.tape[s.cursor] + 1]))
    case Decrement =>
      if !OnTape(s) then Crash(CursorOutOfRange(s.cursor), s)
      else Done(s.(tape := s.tape[s.cursor := s.tape[s.cursor] - 1]))
    case Output =>
      if !OnTape(s) then Crash(CursorOutOfRange(s.cursor), s)
      else Done(s.(output := s.output + [s.tape[s.cursor]]))
    case Input =>
      // The byte is read before the cell is indexed.
      if s.input == [] then Crash(InputExhausted, s)
      else if !OnTape(s) then Crash(CursorOutOfRange(s.cursor), s.(input := s.input[1..]))
      else Done(s.(tape := s.tape[s.cursor := s.input[0]], input := s.input[1..]))
  }

  /** `run`: the instructions in order, stopping at the first panic. */
  function Exec(prog: seq<Instruction>, s: State, fuel: nat): Outcome
    decreases fuel, |prog|
  {
    if prog == [] then Done(s)
    else
      var first := match prog[0]
        case Loop(body) => RunLoop(body, s, fuel)
        case leaf => Step(leaf, s);
      match first
      case Done(s') => Exec(prog[1..], s', fuel)
      case _ => first
  }

  /** `while tape[data_pointer] != 0 { run(body) }`; each pass costs one unit of fuel. */
  function RunLoop(body: seq<Instruction>, s: State, fuel: nat): Outcome
    decreases fuel, 0
  {
    if !OnTape(s) then Crash(CursorOutOfRange(s.cursor), s)
    else if s.tape[s.cursor] == 0 then Done(s)
    else if fuel == 0 then OutOfFuel
    else
      match Exec(body, s, fuel - 1)
      case Done(s') => RunLoop(body, s', fuel - 1)
      case r => r
  }

  // ---------------------------------------------------------------------
  // Single instructions

  /** A one-instruction program is that instruction's step or loop. */
  lemma ExecSingle(ins: Instruction, s: State, fuel: nat)
    ensures Exec([ins], s, fuel) == if ins.Loop? then RunLoop(ins.body, s, fuel) else Step(ins, s)
  {
  }

  /** 8-bit addition and subtraction of one wrap around modulo 256. */
  lemma WrapAdd(v: bv8)
    ensures (v + 1) as int == (v as int + 1) % 256
  {
  }

  lemma WrapSub(v: bv8)
    ensures (v - 1) as int == (v as int - 1) % 256
  {
  }

  /** `+` adds one to the current cell modulo 256 and changes nothing else;
      it fails only when the cursor is past the last cell. */
  lemma ExecIncrement(s: State, fuel: nat)
    ensures var r := Exec([Increment], s, fuel);
      && (r.Done? <==> OnTape(s))
      && (r.Done? ==> OnlyCellChanged(s, r.st)
                      && r.st.tape[s.cursor] as int == (s.tape[s.cursor] as int + 1) % 256)
      && (!r.Done? ==> r == Crash(CursorOutOfRange(s.cursor), s))
  {
    ExecSingle(Increment, s, fuel);
    if OnTape(s) {
      WrapAdd(s.tape[s.cursor]);
      var t := s.(tape := s.tape[s.cursor := s.tape[s.cursor] + 1]);
      assert Exec([Increment], s, fuel) == Done(t);
      assert OnlyCellChanged(s, t);
    }
  }

  /** `-` subtracts one from the current cell modulo 256 and changes nothing
      else; it fails only when the cursor is past the last cell. */
  lemma ExecDecrement(s: State, fuel: nat)
    ensures var r := Exec([Decrement], s, fuel);
      && (r.Done? <==> OnTape(s))
      && (r.Done? ==> OnlyCellChanged(s, r.st)
                      && r.st.tape[s.cursor] as int == (s.tape[s.cursor] as int - 1) % 256)
      && (!r.Done? ==> r == Crash(CursorOutOfRange(s.cursor), s))
  {
    ExecSingle(Decrement, s, fuel);
    if OnTape(s) {
      WrapSub(s.tape[s.cursor]);
      var t := s.(tape := s.tape[s.cursor := s.tape[s.cursor] - 1]);
      assert Exec([Decrement], s, fuel) == Done(t);
      assert OnlyCellChanged(s, t);
    }
  }

  /** The two wrap-around cases of the 8-bit cells: 255 + 1 = 0 and 0 - 1 = 255. */
  lemma CellsWrap(s: State, fuel: nat)
    requires OnTape(s)
    ensures s.tape[s.cursor] == 255 ==> Exec([Increment], s, fuel) == Done(s.(tape := s.tape[s.cursor := 0]))
    ensures s.tape[s.cursor] == 0 ==> Exec([Decrement], s, fuel) == Done(s.(tape := s.tape[s.cursor := 255]))
  {
  }

  /** `>` moves the cursor one cell right and never fails by itself. */
  lemma ExecIncrementPointer(s: State, fuel: nat)
    ensures var r := Exec([IncrementPointer], s, fuel);
      && r.Done?
      && r.st.cursor == s.cursor + 1
      && r.st.tape == s.tape && r.st.input == s.input && r.st.output == s.output
  {
  }

  /** `<` moves the cursor one cell left; it fails exactly at cell 0. */
  lemma ExecDecrementPointer(s: State, fuel: nat)
    ensures var r := Exec([DecrementPointer], s, fuel);
      && (r.Done? <==> s.cursor > 0)
      && (r.Done? ==> r.st.cursor == s.cursor - 1
                      && r.st.tape == s.tape && r.st.input == s.input && r.st.output == s.output)
      && (!r.Done? ==> r == Crash(CursorUnderflow, s))
  {
  }

  /** `.` appends the current cell to the output and changes nothing else. */
  lemma ExecOutput(s: State, fuel: nat)
    ensures var r := Exec([Output], s, fuel);
      && (r.Done? <==> OnTape(s))
      && (r.Done? ==> r.st.output == s.output + [s.tape[s.cursor]]
                      && r.st.tape == s.tape && r.st.cursor == s.cursor && r.st.input == s.input)
      && (!r.Done? ==> r == Crash(CursorOutOfRange(s.cursor), s))
  {
  }

  /** `,` consumes exactly one input byte and stores it in the current cell;
      it fails when the input is exhausted, and when the cursor is past the
      last cell (after the byte has been read). */
  lemma ExecInput(s: State, fuel: nat)
    ensures var r := Exec([Input], s, fuel);
      && (r.Done? <==> s.input != [] && OnTape(s))
      && (s.input == [] ==> r == Crash(InputExhausted, s))
      && (s.input != [] && !OnTape(s) ==> r == Crash(CursorOutOfRange(s.cursor), s.(input := s.input[1..])))
      && (r.Done? ==> && |r.st.tape| == |s.tape| && r.st.cursor == s.cursor && r.st.output == s.output
                      && r.st.input == s.input[1..]
                      && r.st.tape[s.cursor] == s.input[0]
                      && forall k :: 0 <= k < |s.tape| && k != s.cursor ==> r.st.tape[k] == s.tape[k])
  {
  }

  // ---------------------------------------------------------------------
  // Sequences and loops

  /** Running `p + q` runs `p`, then `q` from where `p` finished. */
  lemma {:induction false} ExecAppend(p: seq<Instruction>, q: seq<Instruction>, s: State, fuel: nat)
    ensures Exec(p + q, s, fuel) ==
      match Exec(p, s, fuel)
      case Done(t) => Exec(q, t, fuel)
      case r => r
    decreases |p|
  {
    if p == [] {
      assert p + q == q;
    } else {
      assert (p + q)[0] == p[0];
      assert (p + q)[1..] == p[1..] + q;
      var first := match p[0]
        case Loop(body) => RunLoop(body, s, fuel)
        case leaf => Step(leaf, s);
      if first.Done? {
        ExecAppend(p[1..], q, first.st, fuel);
      }
    }
  }

  /** A reachable state extends the one it was reached from. */
  lemma {:induction false} ExecExtends(prog: seq<Instruction>, s: State, fuel: nat)
    ensures !Exec(prog, s, fuel).OutOfFuel? ==> Extends(s, Exec(prog, s, fuel).st)
    decreases fuel, |prog|
  {
    if prog != [] {
      var first := match prog[0]
        case Loop(body) => RunLoop(body, s, fuel)
        case leaf => Step(leaf, s);
      if prog[0].Loop? {
        RunLoopExtends(prog[0].body, s, fuel);
      }
      if first.Done? {
        ExecExtends(prog[1..], first.st, fuel);
        if !Exec(prog[1..], first.st, fuel).OutOfFuel? {
          ExtendsTransitive(s, first.st, Exec(prog[1..], first.st, fuel).st);
        }
      }
    }
  }

  lemma {:induction false} RunLoopExtends(body: seq<Instruction>, s: State, fuel: nat)
    ensures !RunLoop(body, s, fuel).OutOfFuel? ==> Extends(s, RunLoop(body, s, fuel).st)
    decreases fuel, 0
  {
    if OnTape(s) && s.tape[s.cursor] != 0 && fuel > 0 {
      var r := Exec(body, s, fuel - 1);
      ExecExtends(body, s, fuel - 1);
      if r.Done? {
        RunLoopExtends(body, r.st, fuel - 1);
        if !RunLoop(body, r.st, fuel - 1).OutOfFuel? {
          ExtendsTransitive(s, r.st, RunLoop(body, r.st, fuel - 1).st);
        }
      }
    }
  }

  /** More fuel never changes an outcome that did not run out of fuel: fuel
      only bounds the run, it does not alter its meaning. */
  lemma {:induction false} ExecMonotone(prog: seq<Instruction>, s: State, fuel: nat, more: nat)
    requires fuel <= more
    requires !Exec(prog, s, fuel).OutOfFuel?
    ensures Exec(prog, s, more) == Exec(prog, s, fuel)
    decreases fuel, |prog|
  {
    if prog != [] {
      if prog[0].Loop? {
        RunLoopMonotone(prog[0].body, s, fuel, more);
      }
      var first := match prog[0]
        case Loop(body) => RunLoop(body, s, fuel)
        case leaf => Step(leaf, s);
      if first.Done? {
        ExecMonotone(prog[1..], first.st, fuel, more);
      }
    }
  }

  /** One pass of a loop whose cell is nonzero: the body runs, and then the loop again. */
  lemma RunLoopPass(body: seq<Instruction>, s: State, fuel: nat)
    requires OnTape(s) && s.tape[s.cursor] != 0 && fuel > 0
    ensures var r := Exec(body, s, fuel - 1);
      RunLoop(body, s, fuel) == if r.Done? then RunLoop(body, r.st, fuel - 1) else r
  {
  }

  lemma {:induction false} RunLoopMonotone(body: seq<Instruction>, s: State, fuel: nat, more: nat)
    requires fuel <= more
    requires !RunLoop(body, s, fuel).OutOfFuel?
    ensures RunLoop(body, s, more) == RunLoop(body, s, fuel)
    decreases fuel, 0
  {
    if OnTape(s) && s.tape[s.cursor] != 0 && fuel > 0 {
      RunLoopPass(body, s, fuel);
      RunLoopPass(body, s, more);
      ExecMonotone(body, s, fuel - 1, more - 1);
      var r := Exec(body, s, fuel - 1);
      if r.Done? {
        RunLoopMonotone(body, r.st, fuel - 1, more - 1);
      }
    }
  }

  /** A loop that finishes leaves the cursor on a cell holding 0. */
  lemma {:induction false} RunLoopEndsOnZero(body: seq<Instruction>, s: State, fuel: nat)
    ensures RunLoop(body, s, fuel).Done? ==>
      var t := RunLoop(body, s, fuel).st;
      OnTape(t) && t.tape[t.cursor] == 0
    decreases fuel
  {
    if OnTape(s) && s.tape[s.cursor] != 0 && fuel > 0 {
      var r := Exec(body, s, fuel - 1);
      if r.Done? {
        RunLoopEndsOnZero(body, r.st, fuel - 1);
      }
    }
  }

  /** After a `Loop` instruction finishes, the current cell is 0. */
  lemma ExecLoopEndsOnZero(body: seq<Instruction>, s: State, fuel: nat)
    ensures Exec([Loop(body)], s, fuel).Done? ==>
      var t := Exec([Loop(body)], s, fuel).st;
      OnTape(t) && t.tape[t.cursor] == 0
  {
    ExecSingle(Loop(body), s, fuel);
    RunLoopEndsOnZero(body, s, fuel);
  }

  /** The loop test reads the current cell: with the cursor past the last
      cell the loop fails before its first pass, leaving the state as it was. */
  lemma ExecLoopOffTape(body: seq<Instruction>, s: State, fuel: nat)
    requires !OnTape(s)
    ensures Exec([Loop(body)], s, fuel) == Crash(CursorOutOfRange(s.cursor), s)
  {
  }

  /** A loop entered on a zero cell runs its body zero times: the state,
      the output included, is left as it was. */
  lemma ExecLoopSkipped(body: seq<Instruction>, rest: seq<Instruction>, s: State, fuel: nat)
    requires OnTape(s) && s.tape[s.cursor] == 0
    ensures Exec([Loop(body)], s, fuel) == Done(s)
    ensures Exec([Loop(body)] + rest, s, fuel) == Exec(rest, s, fuel)
  {
    ExecAppend([Loop(body)], rest, s, fuel);
  }

  /** The loop tests the cell before each pass: on a nonzero cell it runs the
      body once and then behaves as the loop started from where the body
      finished, whatever fuel either run was given. */
  lemma LoopUnrolls(body: seq<Instruction>, s: State, t: State, fuel: nat, fuel': nat)
    requires OnTape(s) && s.tape[s.cursor] != 0
    requires Exec(body, s, fuel) == Done(t)
    requires !Exec([Loop(body)], t, fuel').OutOfFuel?
    ensures var big := if fuel < fuel' then fuel' + 1 else fuel + 1;
      Exec([Loop(body)], s, big) == Exec([Loop(body)], t, fuel')
  {
    var big := if fuel < fuel' then fuel' + 1 else fuel + 1;
    ExecSingle(Loop(body), s, big);
    ExecSingle(Loop(body), t, fuel');
    ExecMonotone(body, s, fuel, big - 1);
    RunLoopMonotone(body, t, fuel', big - 1);
    RunLoopPass(body, s, big);
  }
}
