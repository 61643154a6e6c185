/** The lexer: source text to the flat sequence of the eight command tokens.
    Every character that is not a command is a comment and is dropped. */
module Tokens {
  import opened Wrappers

  datatype Token =
    | IncrementPointer  // '>'
    | DecrementPointer  // '<'
    | Increment         // '+'
    | Decrement         // '-'
    | Output            // '.'
    | Input             // ','
    | LoopOpen          // '['
    | LoopClose         // ']'

  /** The eight characters the language recognises. */
  predicate IsCommand(c: char) {
    c in {'>', '<', '+', '-', '.', ',', '[', ']'}
  }

  /** The character each token is written as. */
  function CharOf(t: Token): (c: char)
    ensures IsCommand(c)
  {
    match t
    case IncrementPointer => '>'
    case DecrementPointer => '<'
    case Increment => '+'
    case Decrement => '-'
    case Output => '.'
    case Input => ','
    case LoopOpen => '['
    case LoopClose => ']'
  }

  /** `TryFrom<char> for Token`: a command character becomes its token,
      anything else is rejected. */
  function FromChar(c: char): (r: Option<Token>)
    ensures r.Some? <==> IsCommand(c)
    ensures r.Some? ==> CharOf(r.value) == c
  {
    match c
    case '>' => Some(IncrementPointer)
    case '<' => Some(DecrementPointer)
    case '+' => Some(Increment)
    case '-' => Some(Decrement)
    case '.' => Some(Output)
    case ',' => Some(Input)
    case '[' => Some(LoopOpen)
    case ']' => Some(LoopClose)
    case _ => None
  }

  /** Writing a token down and reading it back gives the same token. */
  lemma FromCharOfChar(t: Token)
    ensures FromChar(CharOf(t)) == Some(t)
  {
  }

  /** `lexer`: the tokens of the command characters of `source`, in order. */
  function Lex(source: string): seq<Token>
  {
    if source == [] then []
    else
      var rest := Lex(source[1..]);
      match FromChar(source[0])
      case Some(t) => [t] + rest
      case None => rest
  }

  /** The command characters of `source`, in order: the comments removed. */
  function Commands(source: string): (cs: string)
    ensures forall i :: 0 <= i < |cs| ==> IsCommand(cs[i])
  {
    if source == [] then []
    else if IsCommand(source[0]) then [source[0]] + Commands(source[1..])
    else Commands(source[1..])
  }

  /** Writes a token sequence back as text. */
  function Unlex(ts: seq<Token>): (cs: string)
    ensures |cs| == |ts|
    ensures forall i :: 0 <= i < |ts| ==> cs[i] == CharOf(ts[i])
  {
    if ts == [] then [] else [CharOf(ts[0])] + Unlex(ts[1..])
  }

  /** The lexer keeps exactly the command characters, in source order, each
      mapped to its token: writing the tokens back yields the source with
      its comments removed. */
  lemma {:induction false} UnlexLex(source: string)
    ensures Unlex(Lex(source)) == Commands(source)
  {
    if source != [] {
      UnlexLex(source[1..]);
      if IsCommand(source[0]) {
        assert Lex(source) == [FromChar(source[0]).value] + Lex(source[1..]);
      }
    }
  }

  /** Lexing the text of a token sequence gives back that sequence. */
  lemma {:induction false} LexUnlex(ts: seq<Token>)
    ensures Lex(Unlex(ts)) == ts
  {
    if ts != [] {
      LexUnlex(ts[1..]);
      FromCharOfChar(ts[0]);
      assert Unlex(ts)[1..] == Unlex(ts[1..]);
    }
  }

  /** The lexer works character by character: it distributes over concatenation. */
  lemma {:induction false} LexAppend(a: string, b: string)
    ensures Lex(a + b) == Lex(a) + Lex(b)
  {
    if a != [] {
      assert (a + b)[0] == a[0];
      assert (a + b)[1..] == a[1..] + b;
      LexAppend(a[1..], b);
      if FromChar(a[0]).Some? {
        var t := FromChar(a[0]).value;
        assert [t] + (Lex(a[1..]) + Lex(b)) == ([t] + Lex(a[1..])) + Lex(b);
      }
    } else {
      assert a + b == b;
    }
  }

  /** Text without a single command character, such as a comment-only or
      empty string, yields no tokens at all; and only such text does. */
  lemma {:induction false} LexEmptyIffNoCommands(source: string)
    ensures Lex(source) == [] <==> forall i :: 0 <= i < |source| ==> !IsCommand(source[i])
  {
    if source != [] {
      LexEmptyIffNoCommands(source[1..]);
      assert forall i :: 1 <= i < |source| ==> source[i] == source[1..][i - 1];
      if forall i :: 0 <= i < |source| ==> !IsCommand(source[i]) {
        assert forall i :: 0 <= i < |source[1..]| ==> !IsCommand(source[1..][i]) by {
          forall i | 0 <= i < |source[1..]| ensures !IsCommand(source[1..][i]) {
            assert source[1..][i] == source[i + 1];
          }
        }
      }
    }
  }

  /** The lexer as the source writes it: one pass over the characters,
      pushing the token of each command character. */
  method Lexer(source: string) returns (tokens: seq<Token>)
    ensures tokens == Lex(source)
  {
    tokens := [];
    var i := 0;
    while i < |source|
      invariant 0 <= i <= |source|
      invariant tokens == Lex(source[..i])
    {
      assert source[..i + 1] == source[..i] + [source[i]];
      LexAppend(source[..i], [source[i]]);
      if FromChar(source[i]).Some? {
        tokens := tokens + [FromChar(source[i]).value];
      }
      i := i + 1;
    }
    assert source[..i] == source;
  }
}
