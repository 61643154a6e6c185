/** The parser: the flat token sequence to an instruction tree, each
    outermost matched `[ ... ]` span becoming one `Loop` whose body is the
    parse of the tokens strictly inside it. */
module Parser {
  import opened Wrappers
  import opened Tokens
  import opened Syntax

  /** The two ways `parser` panics, with the token index its message names. */
  datatype ParseError =
    | UnmatchedClose(at: nat)  // a `]` met at depth zero
    | UnmatchedOpen(at: nat)   // depth still positive at the end; `at` is the outermost open `[`

  /** How much a token changes the bracket nesting. */
  function Delta(t: Token): int {
    match t
    case LoopOpen => 1
    case LoopClose => -1
    case _ => 0
  }

  /** Opening brackets minus closing brackets. */
  function Nesting(ts: seq<Token>): int
  {
    if ts == [] then 0 else Nesting(ts[..|ts| - 1]) + Delta(ts[|ts| - 1])
  }

  /** The nesting after the first `k` tokens. */
  function Depth(ts: seq<Token>, k: nat): int
    requires k <= |ts|
  {
    Nesting(ts[..k])
  }

  /** No prefix of `ts` of length at most `n` closes more brackets than it opens. */
  ghost predicate NeverNegative(ts: seq<Token>, n: nat)
    requires n <= |ts|
  {
    forall k :: 0 <= k <= n ==> Depth(ts, k) >= 0
  }

  /** Every `]` closes an earlier `[` and every `[` is closed. */
  ghost predicate Balanced(ts: seq<Token>) {
    NeverNegative(ts, |ts|) && Nesting(ts) == 0
  }

  /** `ts[c]` is the first `]` that has no matching `[`. */
  ghost predicate FirstUnmatchedClose(ts: seq<Token>, c: nat) {
    c < |ts| && NeverNegative(ts, c) && Depth(ts, c + 1) < 0
  }

  /** `ts[j]` is the last `[` opened at nesting zero, and it is never closed. */
  ghost predicate LastUnmatchedOpen(ts: seq<Token>, j: nat) {
    && j < |ts|
    && NeverNegative(ts, |ts|)
    && Depth(ts, j) == 0
    && forall k :: j < k <= |ts| ==> Depth(ts, k) > 0
  }

  /** An outermost `[` that is never closed leaves the brackets unbalanced,
      so the `Nesting(ts) > 0` that accompanies `LastUnmatchedOpen` below
      is implied by it and spelled out only for the reader. */
  lemma LastUnmatchedOpenNests(ts: seq<Token>, j: nat)
    requires LastUnmatchedOpen(ts, j)
    ensures Nesting(ts) > 0
  {
    assert Depth(ts, |ts|) > 0;
    assert ts[..|ts|] == ts;
  }

  /** `parser`: one scan with a local depth counter. */
  function Parse(ts: seq<Token>): Result<seq<Instruction>, ParseError>
    decreases |ts|, 1
  {
    Scan(ts, 0, 0, 0, [])
  }

  /** The loop of `parser` from index `i`, with the current depth, the index
      of the outermost open loop and the instructions built so far. */
  function Scan(ts: seq<Token>, i: nat, depth: nat, start: nat, acc: seq<Instruction>)
    : Result<seq<Instruction>, ParseError>
    requires i <= |ts|
    requires depth > 0 ==> start < i
    decreases |ts|, 0, |ts| - i
  {
    if i == |ts| then
      if depth != 0 then Err(UnmatchedOpen(start)) else Ok(acc)
    else if depth == 0 then
      match ts[i]
      case LoopOpen => Scan(ts, i + 1, 1, i, acc)
      case LoopClose => Err(UnmatchedClose(i))
      case t => Scan(ts, i + 1, 0, start, acc + [FromToken(t).value])
    else
      match ts[i]
      case LoopOpen => Scan(ts, i + 1, depth + 1, start, acc)
      case LoopClose =>
        if depth == 1 then
          match Parse(ts[start + 1..i])
          case Ok(body) => Scan(ts, i + 1, 0, start, acc + [Loop(body)])
          case Err(e) => Err(e)
        else Scan(ts, i + 1, depth - 1, start, acc)
      case _ => Scan(ts, i + 1, depth, start, acc)
  }

  // ---------------------------------------------------------------------
  // Facts about nesting

  lemma {:induction false} NestingAppend(a: seq<Token>, b: seq<Token>)
    ensures Nesting(a + b) == Nesting(a) + Nesting(b)
    decreases |b|
  {
    if b == [] {
      assert a + b == a;
    } else {
      var b' := b[..|b| - 1];
      assert (a + b)[..|a + b| - 1] == a + b';
      NestingAppend(a, b');
    }
  }

  lemma DepthStep(ts: seq<Token>, k: nat)
    requires k < |ts|
    ensures Depth(ts, k + 1) == Depth(ts, k) + Delta(ts[k])
  {
    assert ts[..k + 1][..k] == ts[..k];
  }

  lemma DepthSlice(ts: seq<Token>, a: nat, b: nat)
    requires a <= b <= |ts|
    ensures Depth(ts, b) == Depth(ts, a) + Nesting(ts[a..b])
  {
    assert ts[..b] == ts[..a] + ts[a..b];
    NestingAppend(ts[..a], ts[a..b]);
  }

  // ---------------------------------------------------------------------
  // Soundness: every outcome of the parser is explained by the nesting

  /** What each outcome of the parser says about its input. */
  ghost predicate Explains(ts: seq<Token>, r: Result<seq<Instruction>, ParseError>) {
    match r
    case Ok(prog) => Flatten(prog) == ts && Balanced(ts)
    case Err(UnmatchedClose(c)) => FirstUnmatchedClose(ts, c)
    case Err(UnmatchedOpen(j)) => LastUnmatchedOpen(ts, j) && Nesting(ts) > 0
  }

  /** What holds at each step of the scan. */
  ghost predicate ScanInv(ts: seq<Token>, i: nat, depth: nat, start: nat, acc: seq<Instruction>) {
    && i <= |ts|
    && NeverNegative(ts, i)
    && Depth(ts, i) == depth
    && (depth == 0 ==> Flatten(acc) == ts[..i])
    && (depth > 0 ==>
          && start < i
          && ts[start] == LoopOpen
          && Depth(ts, start) == 0
          && Flatten(acc) == ts[..start]
          && forall k :: start < k <= i ==> Depth(ts, k) > 0)
  }

  lemma FlattenSnoc(acc: seq<Instruction>, last: Instruction)
    ensures Flatten(acc + [last]) == Flatten(acc) + Flatten([last])
  {
    FlattenAppend(acc, [last]);
  }

  lemma {:induction false} ParseSound(ts: seq<Token>)
    ensures Explains(ts, Parse(ts))
    decreases |ts|, 1
  {
    assert ts[..0] == [];
    ScanSound(ts, 0, 0, 0, []);
  }

  /** A balanced sequence has no unmatched `]`. */
  lemma BalancedNoUnmatchedClose(ts: seq<Token>, c: nat)
    requires Balanced(ts)
    ensures !FirstUnmatchedClose(ts, c)
  {
  }

  /** A balanced span never makes the parser fail. */
  lemma BalancedParses(ts: seq<Token>)
    requires Balanced(ts)
    ensures Parse(ts).Ok?
    ensures Flatten(Parse(ts).value) == ts
    decreases |ts|, 2
  {
    ParseSound(ts);
    forall c: nat
      ensures !FirstUnmatchedClose(ts, c)
    {
      BalancedNoUnmatchedClose(ts, c);
    }
  }

  lemma {:induction false} ScanSound(ts: seq<Token>, i: nat, depth: nat, start: nat, acc: seq<Instruction>)
    requires ScanInv(ts, i, depth, start, acc)
    ensures Explains(ts, Scan(ts, i, depth, start, acc))
    decreases |ts|, 0, |ts| - i, 1
  {
    if i == |ts| {
      ScanEnd(ts, depth, start, acc);
    } else if depth == 0 {
      match ts[i]
      case LoopOpen => SoundOpenOuter(ts, i, start, acc);
      case LoopClose => SoundStrayClose(ts, i, start, acc);
      case _ => SoundLeaf(ts, i, start, acc);
    } else if ts[i] == LoopClose && depth == 1 {
      SoundCloseOuter(ts, i, start, acc);
    } else {
      SoundNested(ts, i, depth, start, acc);
    }
  }

  // ScanSound, one kind of token at a time

  lemma {:induction false} SoundOpenOuter(ts: seq<Token>, i: nat, start: nat, acc: seq<Instruction>)
    requires ScanInv(ts, i, 0, start, acc) && i < |ts| && ts[i] == LoopOpen
    ensures Explains(ts, Scan(ts, i, 0, start, acc))
    decreases |ts|, 0, |ts| - i, 0
  {
    ScanOpenOuter(ts, i, start, acc);
    InvOpenOuter(ts, i, start, acc);
    ScanSound(ts, i + 1, 1, i, acc);
  }

  lemma SoundStrayClose(ts: seq<Token>, i: nat, start: nat, acc: seq<Instruction>)
    requires ScanInv(ts, i, 0, start, acc) && i < |ts| && ts[i] == LoopClose
    ensures Explains(ts, Scan(ts, i, 0, start, acc))
  {
    ScanStrayClose(ts, i, start, acc);
    DepthStep(ts, i);
  }

  lemma {:induction false} SoundLeaf(ts: seq<Token>, i: nat, start: nat, acc: seq<Instruction>)
    requires ScanInv(ts, i, 0, start, acc) && i < |ts| && !IsBracket(ts[i])
    ensures Explains(ts, Scan(ts, i, 0, start, acc))
    decreases |ts|, 0, |ts| - i, 0
  {
    ScanLeafToken(ts, i, start, acc);
    InvLeaf(ts, i, start, acc);
    ScanSound(ts, i + 1, 0, start, acc + [FromToken(ts[i]).value]);
  }

  lemma {:induction false} SoundCloseOuter(ts: seq<Token>, i: nat, start: nat, acc: seq<Instruction>)
    requires ScanInv(ts, i, 1, start, acc) && i < |ts| && ts[i] == LoopClose
    ensures Explains(ts, Scan(ts, i, 1, start, acc))
    decreases |ts|, 0, |ts| - i, 0
  {
    var span := ts[start + 1..i];
    SpanBalanced(ts, i, start, acc);
    BalancedParses(span);
    var body := Parse(span).value;
    ScanCloseOuter(ts, i, start, acc, body);
    InvCloseOuter(ts, i, start, acc, body);
    ScanSound(ts, i + 1, 0, start, acc + [Loop(body)]);
  }

  lemma {:induction false} SoundNested(ts: seq<Token>, i: nat, depth: nat, start: nat, acc: seq<Instruction>)
    requires ScanInv(ts, i, depth, start, acc) && i < |ts| && depth > 0 && !(ts[i] == LoopClose && depth == 1)
    ensures Explains(ts, Scan(ts, i, depth, start, acc))
    decreases |ts|, 0, |ts| - i, 0
  {
    InvNested(ts, i, depth, start, acc);
    ScanNested(ts, i, depth, start, acc);
    ScanSound(ts, i + 1, depth + Delta(ts[i]), start, acc);
  }

  // One step of the scan for each kind of token, at nesting zero and inside a loop.

  lemma ScanOpenOuter(ts: seq<Token>, i: nat, start: nat, acc: seq<Instruction>)
    requires i < |ts| && ts[i] == LoopOpen
    ensures Scan(ts, i, 0, start, acc) == Scan(ts, i + 1, 1, i, acc)
  {
  }

  lemma ScanStrayClose(ts: seq<Token>, i: nat, start: nat, acc: seq<Instruction>)
    requires i < |ts| && ts[i] == LoopClose
    ensures Scan(ts, i, 0, start, acc) == Err(UnmatchedClose(i))
  {
  }

  lemma ScanLeafToken(ts: seq<Token>, i: nat, start: nat, acc: seq<Instruction>)
    requires i < |ts| && !IsBracket(ts[i])
    ensures Scan(ts, i, 0, start, acc) == Scan(ts, i + 1, 0, start, acc + [FromToken(ts[i]).value])
  {
  }

  lemma ScanCloseOuter(ts: seq<Token>, i: nat, start: nat, acc: seq<Instruction>, body: seq<Instruction>)
    requires start < i < |ts| && ts[i] == LoopClose && Parse(ts[start + 1..i]) == Ok(body)
    ensures Scan(ts, i, 1, start, acc) == Scan(ts, i + 1, 0, start, acc + [Loop(body)])
  {
  }

  lemma ScanNested(ts: seq<Token>, i: nat, depth: nat, start: nat, acc: seq<Instruction>)
    requires start < i < |ts| && depth > 0 && !(ts[i] == LoopClose && depth == 1)
    ensures depth + Delta(ts[i]) > 0
    ensures Scan(ts, i, depth, start, acc) == Scan(ts, i + 1, depth + Delta(ts[i]), start, acc)
  {
  }

  lemma ScanEnd(ts: seq<Token>, depth: nat, start: nat, acc: seq<Instruction>)
    requires ScanInv(ts, |ts|, depth, start, acc)
    ensures Explains(ts, Scan(ts, |ts|, depth, start, acc))
  {
    assert ts[..|ts|] == ts;
  }

  lemma InvOpenOuter(ts: seq<Token>, i: nat, start: nat, acc: seq<Instruction>)
    requires ScanInv(ts, i, 0, start, acc)
    requires i < |ts| && ts[i] == LoopOpen
    ensures ScanInv(ts, i + 1, 1, i, acc)
  {
    DepthStep(ts, i);
  }

  lemma InvLeaf(ts: seq<Token>, i: nat, start: nat, acc: seq<Instruction>)
    requires ScanInv(ts, i, 0, start, acc)
    requires i < |ts| && !IsBracket(ts[i])
    ensures ScanInv(ts, i + 1, 0, start, acc + [FromToken(ts[i]).value])
  {
    DepthStep(ts, i);
    FlattenSnoc(acc, FromToken(ts[i]).value);
    assert ts[..i + 1] == ts[..i] + [ts[i]];
  }

  lemma InvNested(ts: seq<Token>, i: nat, depth: nat, start: nat, acc: seq<Instruction>)
    requires ScanInv(ts, i, depth, start, acc)
    requires i < |ts| && depth > 0 && !(ts[i] == LoopClose && depth == 1)
    ensures depth + Delta(ts[i]) > 0
    ensures ScanInv(ts, i + 1, depth + Delta(ts[i]), start, acc)
  {
    DepthStep(ts, i);
  }

  lemma InvCloseOuter(ts: seq<Token>, i: nat, start: nat, acc: seq<Instruction>, body: seq<Instruction>)
    requires ScanInv(ts, i, 1, start, acc)
    requires i < |ts| && ts[i] == LoopClose
    requires Flatten(body) == ts[start + 1..i]
    ensures ScanInv(ts, i + 1, 0, start, acc + [Loop(body)])
  {
    DepthStep(ts, i);
    FlattenCloseOuter(ts, i, start, acc, body);
  }

  lemma FlattenCloseOuter(ts: seq<Token>, i: nat, start: nat, acc: seq<Instruction>, body: seq<Instruction>)
    requires start < i < |ts| && ts[start] == LoopOpen && ts[i] == LoopClose
    requires Flatten(acc) == ts[..start]
    requires Flatten(body) == ts[start + 1..i]
    ensures Flatten(acc + [Loop(body)]) == ts[..i + 1]
  {
    var inner := [LoopOpen] + ts[start + 1..i] + [LoopClose];
    assert Flatten([Loop(body)]) == inner by {
      assert [Loop(body)][1..] == [];
    }
    FlattenSnoc(acc, Loop(body));
    assert ts[..i + 1] == ts[..start] + inner;
  }

  /** When the outermost loop closes at `i`, the tokens strictly inside it are balanced. */
  lemma SpanBalanced(ts: seq<Token>, i: nat, start: nat, acc: seq<Instruction>)
    requires ScanInv(ts, i, 1, start, acc)
    requires i < |ts| && ts[i] == LoopClose
    ensures Balanced(ts[start + 1..i])
  {
    var span := ts[start + 1..i];
    DepthStep(ts, start);
    forall m | 0 <= m <= |span|
      ensures Depth(span, m) >= 0
    {
      assert span[..m] == ts[start + 1..start + 1 + m];
      DepthSlice(ts, start + 1, start + 1 + m);
    }
    DepthSlice(ts, start + 1, i);
  }

  // ---------------------------------------------------------------------
  // The parser's contract

  /** Flattening a parsed tree gives back exactly the tokens it was parsed from. */
  lemma FlattenParse(ts: seq<Token>)
    ensures Parse(ts).Ok? ==> Flatten(Parse(ts).value) == ts
  {
    ParseSound(ts);
  }

  /** The parser fails exactly on bracket-unbalanced input. */
  lemma ParseOkIffBalanced(ts: seq<Token>)
    ensures Parse(ts).Ok? <==> Balanced(ts)
  {
    ParseSound(ts);
    if Balanced(ts) {
      BalancedParses(ts);
    }
  }

  /** The parser reports an unmatched `]` at `c` exactly when `ts[c]` is the
      first `]` that closes more brackets than were opened before it. */
  lemma ParseUnmatchedCloseIff(ts: seq<Token>, c: nat)
    ensures Parse(ts) == Err(UnmatchedClose(c)) <==> FirstUnmatchedClose(ts, c)
  {
    ParseSound(ts);
    if FirstUnmatchedClose(ts, c) {
      match Parse(ts)
      case Ok(_) =>
      case Err(UnmatchedClose(_)) =>
      case Err(UnmatchedOpen(_)) =>
    }
  }

  /** The parser reports an unmatched `[` at `j` exactly when no `]` is
      unmatched and `ts[j]` is the last `[` opened at nesting zero: the
      outermost loop that never ends. That some `[` is unmatched follows
      (`LastUnmatchedOpenNests`). */
  lemma ParseUnmatchedOpenIff(ts: seq<Token>, j: nat)
    ensures Parse(ts) == Err(UnmatchedOpen(j)) <==> LastUnmatchedOpen(ts, j) && Nesting(ts) > 0
  {
    ParseSound(ts);
    if LastUnmatchedOpen(ts, j) && Nesting(ts) > 0 {
      match Parse(ts)
      case Ok(_) =>
      case Err(UnmatchedClose(c)) =>
      case Err(UnmatchedOpen(_)) =>
    }
  }

  /** A parsed tree holds one leaf per non-bracket token. */
  lemma ParseLeafCount(ts: seq<Token>)
    ensures Parse(ts).Ok? ==> LeafCount(Parse(ts).value) == NonBracketCount(ts)
  {
    ParseSound(ts);
    if Parse(ts).Ok? {
      LeafCountFlatten(Parse(ts).value);
    }
  }

  // ---------------------------------------------------------------------
  // Every tree is the parse of its own flattening

  /** Inside a loop the scan only counts brackets until the depth drops to zero. */
  lemma {:induction false} ScanSkip(ts: seq<Token>, i: nat, j: nat, depth: nat, start: nat, acc: seq<Instruction>)
    requires start < i <= j <= |ts| && depth > 0
    requires forall k :: i <= k <= j ==> depth + Depth(ts, k) - Depth(ts, i) > 0
    ensures depth + Depth(ts, j) - Depth(ts, i) > 0
    ensures Scan(ts, i, depth, start, acc) == Scan(ts, j, depth + Depth(ts, j) - Depth(ts, i), start, acc)
    decreases j - i
  {
    if i < j {
      DepthStep(ts, i);
      var depth' := depth + Delta(ts[i]);
      assert depth' > 0 by {
        assert depth + Depth(ts, i + 1) - Depth(ts, i) > 0;
      }
      assert Scan(ts, i, depth, start, acc) == Scan(ts, i + 1, depth', start, acc);
      ScanSkip(ts, i + 1, j, depth', start, acc);
    }
  }

  lemma TakeDrop<T>(s: seq<T>, n: nat)
    requires n <= |s|
    ensures s[..n] + s[n..] == s
  {
  }

  lemma TakeOneMore<T>(s: seq<T>, k: nat)
    requires k < |s|
    ensures s[..k + 1][..k] == s[..k] && s[..k + 1][k..] == [s[k]]
  {
  }

  lemma FlattenTake(prog: seq<Instruction>, n: nat)
    requires n <= |prog|
    ensures Flatten(prog) == Flatten(prog[..n]) + Flatten(prog[n..])
  {
    TakeDrop(prog, n);
    FlattenAppend(prog[..n], prog[n..]);
  }

  lemma FlattenSplit(prog: seq<Instruction>, k: nat)
    requires k < |prog|
    ensures Flatten(prog) == Flatten(prog[..k]) + Flatten([prog[k]]) + Flatten(prog[k + 1..])
    ensures Flatten(prog[..k + 1]) == Flatten(prog[..k]) + Flatten([prog[k]])
  {
    FlattenTake(prog, k + 1);
    FlattenTake(prog[..k + 1], k);
    TakeOneMore(prog, k);
  }

  lemma {:induction false} ScanFlatten(prog: seq<Instruction>, k: nat, start: nat)
    requires k <= |prog|
    ensures |Flatten(prog[..k])| <= |Flatten(prog)|
    ensures Scan(Flatten(prog), |Flatten(prog[..k])|, 0, start, prog[..k]) == Ok(prog)
    decreases prog, |prog| - k
  {
    if k == |prog| {
      assert prog[..k] == prog;
    } else {
      match prog[k]
      case Loop(body) =>
        ParseFlatten(body);
        ScanLoopStep(prog, k, body, start);
        ScanFlatten(prog, k + 1, |Flatten(prog[..k])|);
      case _ =>
        ScanLeafStep(prog, k, start);
        ScanFlatten(prog, k + 1, start);
    }
  }

  /** Scanning over the tokens of a loop at nesting zero adds that loop. */
  lemma ScanLoopStep(prog: seq<Instruction>, k: nat, body: seq<Instruction>, start: nat)
    requires k < |prog| && prog[k] == Loop(body) && Parse(Flatten(body)) == Ok(body)
    ensures |Flatten(prog[..k])| < |Flatten(prog[..k + 1])| <= |Flatten(prog)|
    ensures var ts, i := Flatten(prog), |Flatten(prog[..k])|;
      Scan(ts, i, 0, start, prog[..k]) == Scan(ts, |Flatten(prog[..k + 1])|, 0, i, prog[..k + 1])
  {
    var ts := Flatten(prog);
    var i := |Flatten(prog[..k])|;
    var fb := Flatten(body);
    var next := |Flatten(prog[..k + 1])|;
    LoopTokensAt(prog, k, body, ts, i, fb, next);
    ParseOkIffBalanced(fb);
    assert prog[..k + 1] == prog[..k] + [Loop(body)];
    ScanLoopSpan(ts, i, fb, start, prog[..k], body, next, prog[..k + 1]);
  }

  /** Scanning over the token of a leaf at nesting zero adds that leaf. */
  lemma ScanLeafStep(prog: seq<Instruction>, k: nat, start: nat)
    requires k < |prog| && !prog[k].Loop?
    ensures |Flatten(prog[..k])| < |Flatten(prog[..k + 1])| <= |Flatten(prog)|
    ensures var ts, i := Flatten(prog), |Flatten(prog[..k])|;
      Scan(ts, i, 0, start, prog[..k]) == Scan(ts, |Flatten(prog[..k + 1])|, 0, start, prog[..k + 1])
  {
    var ts := Flatten(prog);
    var i := |Flatten(prog[..k])|;
    assert prog[..k + 1] == prog[..k] + [prog[k]];
    LeafTokenAt(prog, k);
    FromTokenOf(prog[k]);
    assert Scan(ts, i, 0, start, prog[..k]) == Scan(ts, i + 1, 0, start, prog[..k] + [prog[k]]);
  }

  /** A balanced span between an outermost `[` and its `]` is scanned into one loop. */
  lemma ScanLoopSpan(ts: seq<Token>, i: nat, fb: seq<Token>, start: nat, acc: seq<Instruction>, body: seq<Instruction>,
                     next: nat, acc': seq<Instruction>)
    requires i + 1 + |fb| < |ts|
    requires ts[i] == LoopOpen && ts[i + 1..i + 1 + |fb|] == fb && ts[i + 1 + |fb|] == LoopClose
    requires Balanced(fb) && Parse(fb) == Ok(body)
    requires next == i + 2 + |fb| && acc' == acc + [Loop(body)]
    ensures Scan(ts, i, 0, start, acc) == Scan(ts, next, 0, i, acc')
  {
    InsideBalancedSpan(ts, i + 1, fb);
    ScanOverSpan(ts, i, i + 1 + |fb|, start, acc, body);
  }

  /** The scan passes an outermost loop in one go when the nesting stays
      positive inside it and its contents parse to `body`. */
  lemma ScanOverSpan(ts: seq<Token>, i: nat, j: nat, start: nat, acc: seq<Instruction>, body: seq<Instruction>)
    requires i < j < |ts| && ts[i] == LoopOpen && ts[j] == LoopClose
    requires forall m :: i + 1 <= m <= j ==> 1 + Depth(ts, m) - Depth(ts, i + 1) > 0
    requires Depth(ts, j) == Depth(ts, i + 1)
    requires Parse(ts[i + 1..j]) == Ok(body)
    ensures Scan(ts, i, 0, start, acc) == Scan(ts, j + 1, 0, i, acc + [Loop(body)])
  {
    ScanOpenOuter(ts, i, start, acc);
    ScanSkip(ts, i + 1, j, 1, i, acc);
    ScanCloseOuter(ts, j, i, acc, body);
  }

  /** Across a balanced span the nesting never drops below where it started
      and comes back to it at the end. */
  lemma InsideBalancedSpan(ts: seq<Token>, a: nat, fb: seq<Token>)
    requires a + |fb| <= |ts| && ts[a..a + |fb|] == fb && Balanced(fb)
    ensures forall m :: a <= m <= a + |fb| ==> 1 + Depth(ts, m) - Depth(ts, a) > 0
    ensures Depth(ts, a + |fb|) == Depth(ts, a)
  {
    forall m | a <= m <= a + |fb|
      ensures 1 + Depth(ts, m) - Depth(ts, a) > 0
    {
      DepthSlice(ts, a, m);
      assert ts[a..m] == fb[..m - a];
      assert Depth(fb, m - a) >= 0;
    }
    DepthSlice(ts, a, a + |fb|);
  }

  /** Where the tokens of the `k`-th instruction sit in the flattened tree. */
  lemma LoopTokensAt(prog: seq<Instruction>, k: nat, body: seq<Instruction>, ts: seq<Token>, i: nat, fb: seq<Token>, next: nat)
    requires k < |prog| && prog[k] == Loop(body)
    requires ts == Flatten(prog) && i == |Flatten(prog[..k])| && fb == Flatten(body) && next == |Flatten(prog[..k + 1])|
    ensures i + 1 + |fb| < |ts| && next == i + 2 + |fb|
    ensures ts[i] == LoopOpen && ts[i + 1..i + 1 + |fb|] == fb && ts[i + 1 + |fb|] == LoopClose
  {
    FlattenSplit(prog, k);
    assert Flatten([prog[k]]) == [LoopOpen] + Flatten(body) + [LoopClose] by {
      assert [prog[k]][1..] == [];
    }
  }

  lemma LeafTokenAt(prog: seq<Instruction>, k: nat)
    requires k < |prog| && !prog[k].Loop?
    ensures var i := |Flatten(prog[..k])|;
      && i < |Flatten(prog)|
      && Flatten(prog)[i] == TokenOf(prog[k])
      && |Flatten(prog[..k + 1])| == i + 1
  {
    FlattenSplit(prog, k);
    assert Flatten([prog[k]]) == [TokenOf(prog[k])] by {
      assert [prog[k]][1..] == [];
    }
  }

  /** Every instruction tree is the parse of its own flattening: together with
      `FlattenParse`, parsing and flattening are inverse bijections between
      instruction trees and balanced token sequences. */
  lemma {:induction false} ParseFlatten(prog: seq<Instruction>)
    ensures Parse(Flatten(prog)) == Ok(prog)
    decreases prog, |prog| + 1
  {
    assert prog[..0] == [];
    ScanFlatten(prog, 0, 0);
  }
}
