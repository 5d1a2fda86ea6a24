/** What the parser makes of two kinds of text that the compiler does not claim to handle: a minus sign
    before something that is not a constant, and a call without arguments. */
module JitLimits {
  import opened Wrappers
  import opened Decimals
  import opened Sequences
  import opened JitLexer
  import opened JitParser
  import opened JitSyntax
  import opened JitParserProof

  // ---------------------------------------------------------------------------------------------
  // The leftmost constant of a rendering
  // ---------------------------------------------------------------------------------------------

  predicate HasLiteral(s: Source) {
    match s
    case SLiteral(_, _) => true
    case SRef(_) => false
    case SCall(_, args) => SomeLiteral(args)
    case SBinary(_, l, r) => HasLiteral(l) || HasLiteral(r)
    case SBrackets(inner) => HasLiteral(inner)
  }

  predicate SomeLiteral(ss: Sources) {
    match ss
    case SSingle(s) => HasLiteral(s)
    case SMore(s, rest) => HasLiteral(s) || SomeLiteral(rest)
  }

  /** The rendering with its leftmost constant negative, and unchanged if it has no constant. */
  function Signed(s: Source): Source {
    match s
    case SLiteral(_, digits) => SLiteral(true, digits)
    case SRef(_) => s
    case SCall(name, args) => SCall(name, SignedArgs(args))
    case SBinary(op, l, r) => if HasLiteral(l) then SBinary(op, Signed(l), r) else SBinary(op, l, Signed(r))
    case SBrackets(inner) => SBrackets(Signed(inner))
  }

  function SignedArgs(ss: Sources): Sources {
    match ss
    case SSingle(s) => SSingle(Signed(s))
    case SMore(s, rest) => if HasLiteral(s) then SMore(Signed(s), rest) else SMore(s, SignedArgs(rest))
  }

  lemma {:induction false} SignedIsLegal(s: Source, level: nat)
    requires Legal(s, level)
    ensures Legal(Signed(s), level) && (!HasLiteral(s) ==> Signed(s) == s)
  {
    match s
    case SLiteral(_, _) =>
    case SRef(_) =>
    case SCall(_, args) => SignedArgsAreLegal(args);
    case SBinary(Mul, l, r) =>
      SignedIsLegal(l, PRODUCT);
      SignedIsLegal(r, FACTOR);
    case SBinary(_, l, r) =>
      SignedIsLegal(l, SUM);
      SignedIsLegal(r, PRODUCT);
    case SBrackets(inner) => SignedIsLegal(inner, SUM);
  }

  lemma {:induction false} SignedArgsAreLegal(ss: Sources)
    requires LegalArgs(ss)
    ensures LegalArgs(SignedArgs(ss)) && Count(Trees(SignedArgs(ss))) == Count(Trees(ss))
    ensures !SomeLiteral(ss) ==> SignedArgs(ss) == ss
  {
    match ss
    case SSingle(s) => SignedIsLegal(s, SUM);
    case SMore(s, rest) =>
      SignedIsLegal(s, SUM);
      SignedArgsAreLegal(rest);
  }

  // ---------------------------------------------------------------------------------------------
  // Where the sign belongs among the tokens
  // ---------------------------------------------------------------------------------------------

  predicate NoNumber(ts: seq<Token>) { forall t <- ts :: !t.Number? }

  /** A minus sign after `a` cannot be a subtraction. */
  predicate OpenEnd(a: seq<Token>) { a == [] || IsPrefixPosition(a[|a| - 1]) }

  const MINUS := Operation('-')

  /** The tokens `ts` have their first number behind `a`, perhaps with a sign, and `us` are the same
      with the sign. */
  ghost predicate Splits(ts: seq<Token>, us: seq<Token>, a: seq<Token>, negative: bool, v: int, b: seq<Token>) {
    && ts == a + ((if negative then [MINUS] else []) + [Number(v)] + b)
    && us == a + ([MINUS] + [Number(v)] + b)
    && NoNumber(a) && OpenEnd(a)
  }

  lemma SplitInside(x: seq<Token>, ts: seq<Token>, us: seq<Token>, y: seq<Token>,
                    a: seq<Token>, negative: bool, v: int, b: seq<Token>)
    requires Splits(ts, us, a, negative, v, b) && NoNumber(x) && OpenEnd(x)
    ensures Splits(x + (ts + y), x + (us + y), x + a, negative, v, b + y)
  {
  }

  ghost function Toks(s: Source): seq<Token> { TokensOf(Words(s)) }

  ghost function ArgsToks(ss: Sources): seq<Token> { TokensOf(ArgsWords(ss)) }

  lemma BinaryTokens(op: BinOp, l: Source, r: Source)
    ensures Toks(SBinary(op, l, r)) == [] + (Toks(l) + ([Operation(Sym(op))] + Toks(r)))
    ensures Toks(SBinary(op, l, r)) == (Toks(l) + [Operation(Sym(op))]) + (Toks(r) + [])
  {
    TokensOfThen(Words(l), OperatorWord(op), Words(r));
    Regroup(Toks(l), [Operation(Sym(op))], Toks(r));
  }

  lemma CallToks(name: Identifier, args: Sources)
    ensures Toks(SCall(name, args)) == [Name(name), OpenBracket(0)] + (ArgsToks(args) + [CloseBracket])
  {
    CallTokens(name, args);
  }

  lemma BracketToks(inner: Source)
    ensures Toks(SBrackets(inner)) == [OpenBracket(0)] + (Toks(inner) + [CloseBracket])
  {
    BracketsTokens(inner);
  }

  lemma ArgsTokens(s: Source, rest: Sources)
    ensures ArgsToks(SMore(s, rest)) == [] + (Toks(s) + ([Token.Comma] + ArgsToks(rest)))
    ensures ArgsToks(SMore(s, rest)) == (Toks(s) + [Token.Comma]) + (ArgsToks(rest) + [])
  {
    TokensOfThen(Words(s), COMMA, ArgsWords(rest));
    Regroup(Toks(s), [Token.Comma], ArgsToks(rest));
  }

  /** The signed rendering differs in the sign of its first number only. */
  lemma {:induction false} SplitSource(s: Source) returns (a: seq<Token>, negative: bool, v: int, b: seq<Token>)
    ensures if HasLiteral(s) then Splits(Toks(s), Toks(Signed(s)), a, negative, v, b) else NoNumber(Toks(s))
    decreases s
  {
    hide Splits, Toks, ArgsToks, NoNumber;
    NoNumberHere();
    match s
    case SLiteral(neg, digits) =>
      a, negative, v, b := [], neg, Decimal(digits), [];
      SplitLiteral(neg, digits);
    case SRef(name) =>
      a, negative, v, b := [], false, 0, [];
      NoNumberInName(name);
    case SCall(name, args) =>
      a, negative, v, b := SplitArgs(args);
      CallToks(name, args);
      CallToks(name, SignedArgs(args));
      var x, y := [Name(name), OpenBracket(0)], [CloseBracket];
      OpenCall(name);
      if SomeLiteral(args) {
        SplitInside(x, ArgsToks(args), ArgsToks(SignedArgs(args)), y, a, negative, v, b);
        a, b := x + a, b + y;
      } else {
        NoNumberInside(x, ArgsToks(args), y);
      }
    case SBinary(op, l, r) =>
      a, negative, v, b := SplitSource(l);
      var t := [Operation(Sym(op))];
      BinaryTokens(op, l, r);
      BinaryTokens(op, Signed(l), r);
      BinaryTokens(op, l, Signed(r));
      if HasLiteral(l) {
        SplitInside([], Toks(l), Toks(Signed(l)), t + Toks(r), a, negative, v, b);
        a, b := [] + a, b + (t + Toks(r));
      } else {
        a, negative, v, b := SplitSource(r);
        OpenOperator(Toks(l), op);
        if HasLiteral(r) {
          SplitInside(Toks(l) + t, Toks(r), Toks(Signed(r)), [], a, negative, v, b);
          a, b := Toks(l) + t + a, b + [];
        } else {
          NoNumberInside(Toks(l) + t, Toks(r), []);
        }
      }
    case SBrackets(inner) =>
      a, negative, v, b := SplitSource(inner);
      BracketToks(inner);
      BracketToks(Signed(inner));
      var x, y := [OpenBracket(0)], [CloseBracket];
      if HasLiteral(inner) {
        SplitInside(x, Toks(inner), Toks(Signed(inner)), y, a, negative, v, b);
        a, b := x + a, b + y;
      } else {
        NoNumberInside(x, Toks(inner), y);
      }
  }

  lemma {:induction false} SplitArgs(ss: Sources) returns (a: seq<Token>, negative: bool, v: int, b: seq<Token>)
    ensures if SomeLiteral(ss) then Splits(ArgsToks(ss), ArgsToks(SignedArgs(ss)), a, negative, v, b)
            else NoNumber(ArgsToks(ss))
    decreases ss
  {
    hide Splits, NoNumber;
    NoNumberHere();
    match ss
    case SSingle(s) => a, negative, v, b := SplitSource(s);
    case SMore(s, rest) =>
      hide Toks, ArgsToks;
      a, negative, v, b := SplitSource(s);
      var t := [Token.Comma];
      ArgsTokens(s, rest);
      ArgsTokens(Signed(s), rest);
      ArgsTokens(s, SignedArgs(rest));
      if HasLiteral(s) {
        SplitInside([], Toks(s), Toks(Signed(s)), t + ArgsToks(rest), a, negative, v, b);
        a, b := [] + a, b + (t + ArgsToks(rest));
      } else {
        a, negative, v, b := SplitArgs(rest);
        OpenComma(Toks(s));
        if SomeLiteral(rest) {
          SplitInside(Toks(s) + t, ArgsToks(rest), ArgsToks(SignedArgs(rest)), [], a, negative, v, b);
          a, b := Toks(s) + t + a, b + [];
        } else {
          NoNumberInside(Toks(s) + t, ArgsToks(rest), []);
        }
      }
  }

  lemma SplitLiteral(negative: bool, digits: Numeral)
    ensures Splits(Toks(SLiteral(negative, digits)), Toks(SLiteral(true, digits)), [], negative, Decimal(digits), [])
  {
    assert Toks(SLiteral(true, digits)) == [] + ([MINUS] + [Number(Decimal(digits))] + []);
    assert Toks(SLiteral(false, digits)) == [] + ([] + [Number(Decimal(digits))] + []);
  }

  lemma NoNumberInName(name: Identifier)
    ensures NoNumber(Toks(SRef(name)))
  {
  }

  lemma NoNumberInside(x: seq<Token>, ts: seq<Token>, y: seq<Token>)
    requires NoNumber(x) && NoNumber(ts) && NoNumber(y)
    ensures NoNumber(x + (ts + y))
  {
  }

  lemma NoNumberHere()
    ensures NoNumber([]) && OpenEnd([]) && NoNumber([OpenBracket(0)]) && OpenEnd([OpenBracket(0)])
    ensures NoNumber([CloseBracket])
  {
  }

  lemma OpenCall(name: Identifier)
    ensures NoNumber([Name(name), OpenBracket(0)]) && OpenEnd([Name(name), OpenBracket(0)])
  {
  }

  lemma OpenOperator(ts: seq<Token>, op: BinOp)
    requires NoNumber(ts)
    ensures NoNumber(ts + [Operation(Sym(op))]) && OpenEnd(ts + [Operation(Sym(op))])
  {
  }

  lemma OpenComma(ts: seq<Token>)
    requires NoNumber(ts)
    ensures NoNumber(ts + [Token.Comma]) && OpenEnd(ts + [Token.Comma])
  {
  }

  // ---------------------------------------------------------------------------------------------
  // A minus sign that waits for a constant
  // ---------------------------------------------------------------------------------------------

  /** The parser with a minus sign still waiting. */
  function Signing(p: Parser): Parser { p.(unaryMinus := true) }

  /** Tokens that are not numbers leave the waiting sign alone, and the sign leaves them alone. */
  lemma {:induction false} SignWaits(p: Parser, ts: seq<Token>)
    requires p.Plugged() && NoNumber(ts)
    ensures var q := Run(p, ts); Run(Signing(p), ts) == if q.Some? then Some(Signing(q.value)) else None
    decreases |ts|
  {
    if ts != [] {
      assert ts[0] in ts;
      assert NoNumber(ts[1..]);
      SignWaitsOnce(p, ts[0]);
      var next := Step(p, ts[0]);
      hide Step;
      if next.Some? {
        SignWaits(next.value, ts[1..]);
      }
    }
  }

  lemma SignWaitsOnce(p: Parser, t: Token)
    requires p.Plugged() && !t.Number?
    ensures var q := Step(p, t); Step(Signing(p), t) == if q.Some? then Some(Signing(q.value)) else None
  {
    hide PopToBracket, PopOperators, PushToPoliz;
    assert Settle(Signing(p), t) == Signing(Settle(p, t));
  }

  /** After tokens that end where an operand must follow, a minus sign cannot be a subtraction. */
  lemma OpenAfter(p: Parser, ts: seq<Token>, q: Parser)
    requires p.Plugged() && IsPrefixPosition(p.last) && OpenEnd(ts) && Run(p, ts) == Some(q)
    ensures q.Plugged() && IsPrefixPosition(q.last)
  {
    if ts != [] {
      var n := |ts| - 1;
      assert ts == ts[..n] + [ts[n]];
      RunConcat(p, ts[..n], [ts[n]]);
      RunOne(Run(p, ts[..n]).value, ts[n]);
    }
  }

  /** The number takes the waiting sign, as if the sign stood right before it. */
  lemma SignTaken(p: Parser, negative: bool, v: int, b: seq<Token>)
    requires p.Plugged() && IsPrefixPosition(p.last)
    ensures Run(Signing(p), (if negative then [MINUS] else []) + [Number(v)] + b)
         == Run(p, [MINUS] + [Number(v)] + b)
  {
    var ts := [Number(v)] + b;
    var p1 := Signing(p).(last := MINUS);
    assert Step(p, MINUS) == Some(p1) && Step(Signing(p), MINUS) == Some(p1);
    assert Step(p1, Number(v)) == Step(Signing(p), Number(v));
    hide Step;
    assert ts[1..] == b;
    assert ([MINUS] + [Number(v)] + b)[1..] == ts;
    assert [] + [Number(v)] + b == ts;
  }

  /** From any parser that is about to read a legal expression with a minus sign waiting: the sign goes
      to the leftmost constant of the expression, however deep inside, and nothing else changes. An
      expression without constants is read as it stands, and the sign goes on waiting. */
  lemma MinusGoesToLeftmostConstant(s: Source, level: nat, p: Parser) returns (q: Parser)
    requires level <= FACTOR && Legal(s, level) && Ready(p, level)
    ensures Done(q, p.stack + Pending(Signed(s)), p.poliz + Emitted(Signed(s)))
    ensures Run(Signing(p), TokensOf(Words(s))) == Some(if HasLiteral(s) then q else Signing(q))
  {
    SignedIsLegal(s, level);
    q := ReadExpression(Signed(s), level, p);
    var a, negative, v, b := SplitSource(s);
    hide Run, Words, TokensOf, Done, Legal;
    if HasLiteral(s) {
      SignMoves(p, Toks(s), Toks(Signed(s)), a, negative, v, b);
    } else {
      SignWaits(p, Toks(s));
    }
  }

  lemma SignMoves(p: Parser, ts: seq<Token>, us: seq<Token>, a: seq<Token>, negative: bool, v: int, b: seq<Token>)
    requires p.Plugged() && IsPrefixPosition(p.last) && Splits(ts, us, a, negative, v, b)
    ensures Run(Signing(p), ts) == Run(p, us)
  {
    hide Run;
    RunConcat(p, a, [MINUS] + [Number(v)] + b);
    RunConcat(Signing(p), a, (if negative then [MINUS] else []) + [Number(v)] + b);
    SignWaits(p, a);
    var pa := Run(p, a);
    if pa.Some? {
      OpenAfter(p, a, pa.value);
      SignTaken(pa.value, negative, v, b);
    }
  }

  /** `text` writes a minus sign and then the rendering `s`, with skipped characters around the words. */
  ghost predicate RendersMinus(text: string, s: Source) {
    Legal(s, SUM) &&
    exists gaps: seq<string> ::
      |gaps| == |Words(s)| + 2 && (forall g <- gaps :: IsGap(g)) &&
      text == Layout([OperatorWord(Sub)] + Words(s), gaps)
  }

  /** A minus sign before a whole expression, in brackets or not, negates its leftmost constant only,
      and is lost when there is no constant. */
  lemma LeadingMinus(text: string, s: Source)
    requires RendersMinus(text, s)
    ensures FromInfix(text) == Some(PostOrder(Tree(Signed(s))))
  {
    hide Words, TokensOf, Run, Tokens, PostOrder, Tree, Signed, HasLiteral, Emitted, Pending, Done, Flush, RendersMinus;
    TokensOfMinus(text, s);
    assert Legal(s, SUM) by { LegalAfterMinus(text, s); }
    var ready := START.(last := MINUS);
    var p := MinusGoesToLeftmostConstant(s, SUM, ready);
    var last := if HasLiteral(s) then p else Signing(p);
    var q := EndOfText(Signed(s), p, last);
    RunNothing(START);
    RunNothing(q);
    assert Step(START, MINUS) == Some(Signing(ready));
    var ts := TokensOf(Words(s));
    RunThen(START, [], START, MINUS, Signing(ready), ts, last);
    assert [] + [MINUS] + ts == [MINUS] + ts;
    RunThen(START, [MINUS] + ts, last, Undefined, q, [], q);
    assert [MINUS] + ts + [Undefined] + [] == [MINUS] + ts + [Undefined];
  }

  lemma LegalAfterMinus(text: string, s: Source)
    requires RendersMinus(text, s)
    ensures Legal(s, SUM)
  {
  }

  /** The end of the text after an expression, whether or not a sign still waits. */
  lemma EndOfText(s: Source, p: Parser, last: Parser) returns (q: Parser)
    requires Done(p, [Undefined] + Pending(s), [] + Emitted(s)) && (last == p || last == Signing(p))
    ensures last.Plugged() && Step(last, Undefined) == Some(q) && q.Plugged()
    ensures Flush(q.stack, q.poliz) == PostOrder(Tree(s))
  {
    hide Emitted, Pending, PostOrder, Tree, Flush;
    StepAfterOperand(last, Undefined);
    q := Step(last, Undefined).value;
    EmittedThenPopped(s);
    FlushAll(Pending(s), Emitted(s));
    assert [] + Emitted(s) == Emitted(s);
  }

  lemma TokensOfMinus(text: string, s: Source)
    requires RendersMinus(text, s)
    ensures Tokens(text + " ") == [MINUS] + TokensOf(Words(s)) + [Undefined]
  {
    hide Words, Tokens, TokensOf;
    var gaps: seq<string> :|
      |gaps| == |Words(s)| + 2 && (forall g <- gaps :: IsGap(g)) && text == Layout([OperatorWord(Sub)] + Words(s), gaps);
    WordsSeparable(s);
    SeparableConcat([], [OperatorWord(Sub)], Words(s));
    assert [] + [OperatorWord(Sub)] + Words(s) == [OperatorWord(Sub)] + Words(s);
    TokensOfLayout([OperatorWord(Sub)] + Words(s), gaps);
    TokensOfThen([], OperatorWord(Sub), Words(s));
    assert TokensOf([]) == [];
    assert [] + [MINUS] + TokensOf(Words(s)) == [MINUS] + TokensOf(Words(s));
  }

  // ---------------------------------------------------------------------------------------------
  // Calls without arguments
  // ---------------------------------------------------------------------------------------------

  /** From any parser that is about to read an operand: an empty argument list counts as one argument. */
  lemma EmptyCallCountsAsOne(name: string, p: Parser)
    requires p.Plugged() && !p.last.Name?
    ensures Run(p, [Name(name), OpenBracket(0), CloseBracket])
         == Some(p.(poliz := p.poliz + [Function(name, 1)], last := CloseBracket))
  {
    var p1 := p.(last := Name(name));
    var outer := p.stack + [Func(name)];
    var p2 := p.(stack := outer + [OpenBracket(1)], last := OpenBracket(1));
    var p3 := p.(poliz := p.poliz + [Function(name, 1)], last := CloseBracket);
    assert Step(p, Name(name)) == Some(p1);
    assert Step(p1, OpenBracket(0)) == Some(p2);
    CloseEmptyCall(name, p);
    hide Step;
    RunOne(p, Name(name));
    RunOne(p2, CloseBracket);
    RunThen(p, [Name(name)], p1, OpenBracket(0), p2, [CloseBracket], p3);
    assert [Name(name)] + [OpenBracket(0)] + [CloseBracket] == [Name(name), OpenBracket(0), CloseBracket];
  }

  lemma CloseEmptyCall(name: string, p: Parser)
    requires p.Plugged()
    ensures Step(p.(stack := p.stack + [Func(name)] + [OpenBracket(1)], last := OpenBracket(1)), CloseBracket)
         == Some(p.(poliz := p.poliz + [Function(name, 1)], last := CloseBracket))
  {
    var outer := p.stack + [Func(name)];
    assert Pop(outer + [OpenBracket(1)]) == outer && Pop(outer) == p.stack;
    assert PopToBracket(outer + [OpenBracket(1)], p.poliz) == Some((outer + [OpenBracket(1)], p.poliz));
  }
}
