/** The instruction tree the parser builds: six leaf instructions and a loop
    that owns the instructions of its body. */
module Syntax {
  import opened Wrappers
  import opened Tokens

  datatype Instruction =
    | IncrementPointer
    | DecrementPointer
    | Increment
    | Decrement
    | Output
    | Input
    | Loop(body: seq<Instruction>)

  predicate IsBracket(t: Token) {
    t == LoopOpen || t == LoopClose
  }

  /** The token a leaf instruction was made from. */
  function TokenOf(i: Instruction): (t: Token)
    requires !i.Loop?
    ensures !IsBracket(t)
  {
    match i
    case IncrementPointer => Token.IncrementPointer
    case DecrementPointer => Token.DecrementPointer
    case Increment => Token.Increment
    case Decrement => Token.Decrement
    case Output => Token.Output
    case Input => Token.Input
  }

  /** `TryFrom<Token> for Instruction`: fails exactly on the two brackets;
      every other token becomes the leaf instruction it names. */
  function FromToken(t: Token): (r: Option<Instruction>)
    ensures r.None? <==> IsBracket(t)
    ensures r.Some? ==> !r.value.Loop? && TokenOf(r.value) == t
  {
    match t
    case IncrementPointer => Some(Instruction.IncrementPointer)
    case DecrementPointer => Some(Instruction.DecrementPointer)
    case Increment => Some(Instruction.Increment)
    case Decrement => Some(Instruction.Decrement)
    case Output => Some(Instruction.Output)
    case Input => Some(Instruction.Input)
    case _ => None
  }

  /** The leaf instructions correspond one-to-one to the non-bracket tokens. */
  lemma FromTokenOf(i: Instruction)
    requires !i.Loop?
    ensures FromToken(TokenOf(i)) == Some(i)
  {
  }

  /** Writes an instruction tree back as tokens, each `Loop(b)` as `[`, the
      tokens of `b`, `]`. */
  function Flatten(prog: seq<Instruction>): seq<Token>
    decreases prog
  {
    if prog == [] then []
    else
      var head := match prog[0]
        case Loop(body) => [LoopOpen] + Flatten(body) + [LoopClose]
        case leaf => [TokenOf(leaf)];
      head + Flatten(prog[1..])
  }

  /** The number of leaf instructions, counted through every loop body. */
  function LeafCount(prog: seq<Instruction>): nat
    decreases prog
  {
    if prog == [] then 0
    else
      var head := match prog[0]
        case Loop(body) => LeafCount(body)
        case _ => 1;
      head + LeafCount(prog[1..])
  }

  /** The number of tokens that are not brackets. */
  function NonBracketCount(ts: seq<Token>): nat
  {
    if ts == [] then 0
    else (if IsBracket(ts[0]) then 0 else 1) + NonBracketCount(ts[1..])
  }

  lemma {:induction false} NonBracketCountAppend(a: seq<Token>, b: seq<Token>)
    ensures NonBracketCount(a + b) == NonBracketCount(a) + NonBracketCount(b)
  {
    if a == [] {
      assert a + b == b;
    } else {
      assert (a + b)[0] == a[0];
      assert (a + b)[1..] == a[1..] + b;
      NonBracketCountAppend(a[1..], b);
    }
  }

  /** Flattening keeps every leaf as exactly one non-bracket token. */
  lemma {:induction false} LeafCountFlatten(prog: seq<Instruction>)
    ensures NonBracketCount(Flatten(prog)) == LeafCount(prog)
    decreases prog
  {
    if prog != [] {
      LeafCountFlatten(prog[1..]);
      match prog[0]
      case Loop(body) =>
        LeafCountFlatten(body);
        NonBracketCountAppend([LoopOpen] + Flatten(body) + [LoopClose], Flatten(prog[1..]));
        NonBracketCountAppend([LoopOpen] + Flatten(body), [LoopClose]);
        NonBracketCountAppend([LoopOpen], Flatten(body));
      case leaf =>
        NonBracketCountAppend([TokenOf(leaf)], Flatten(prog[1..]));
    }
  }

  lemma {:induction false} FlattenAppend(p: seq<Instruction>, q: seq<Instruction>)
    ensures Flatten(p + q) == Flatten(p) + Flatten(q)
  {
    if p == [] {
      assert p + q == q;
    } else {
      assert (p + q)[0] == p[0];
      assert (p + q)[1..] == p[1..] + q;
      FlattenAppend(p[1..], q);
    }
  }
}
