/** The shunting-yard parser yields the post-order of the tree a text renders. */
module JitParserProof {
  import opened Wrappers
  import opened Decimals
  import opened Sequences
  import opened JitLexer
  import opened JitParser
  import opened JitSyntax

  /** What is still on the parser's stack, above where it started, after the words of `s`. */
  function Pending(s: Source): seq<Token> {
    match s
    case SBinary(op, _, r) => [Operation(Sym(op))] + Pending(r)
    case _ => []
  }

  /** What has been sent to the output by then. */
  function Emitted(s: Source): seq<Operand> {
    match s
    case SBinary(_, l, r) => PostOrder(Tree(l)) + Emitted(r)
    case _ => PostOrder(Tree(s))
  }

  /** The operators `ops` popped one by one from the top of a stack. */
  function Popped(ops: seq<Token>): seq<Operand> {
    if ops == [] then [] else PushToPoliz([], Top(ops), 0) + Popped(Pop(ops))
  }

  predicate AllOperations(ops: seq<Token>) { forall t <- ops :: t.Operation? }

  lemma {:induction false} PoppedCons(t: Token, ops: seq<Token>)
    ensures Popped([t] + ops) == Popped(ops) + PushToPoliz([], t, 0)
  {
    if ops == [] {
      assert [t] + ops == [t];
      assert Popped([]) == [];
    } else {
      PoppedCons(t, Pop(ops));
      assert Pop([t] + ops) == [t] + Pop(ops);
    }
  }

  /** Popping what is pending completes the post-order. */
  lemma {:induction false} EmittedThenPopped(s: Source)
    ensures Emitted(s) + Popped(Pending(s)) == PostOrder(Tree(s))
    ensures AllOperations(Pending(s))
  {
    match s
    case SBinary(op, l, r) =>
      EmittedThenPopped(r);
      PoppedCons(Operation(Sym(op)), Pending(r));
      hide Popped, Sym;
      Regroup(PostOrder(Tree(l)), Emitted(r), Popped(Pending(r)) + [MathOperator(Sym(op))]);
      Regroup(Emitted(r), Popped(Pending(r)), [MathOperator(Sym(op))]);
      Regroup(PostOrder(Tree(l)), PostOrder(Tree(r)), [MathOperator(Sym(op))]);
    case _ =>
  }

  lemma Completes(poliz: seq<Operand>, s: Source)
    ensures poliz + Emitted(s) + Popped(Pending(s)) == poliz + PostOrder(Tree(s))
    ensures AllOperations(Pending(s))
  {
    EmittedThenPopped(s);
    assert poliz + Emitted(s) + Popped(Pending(s)) == poliz + (Emitted(s) + Popped(Pending(s)));
  }

  /** Only multiplications are pending after a product, and nothing after a factor. */
  lemma PendingShape(s: Source)
    requires Legal(s, PRODUCT)
    ensures forall t <- Pending(s) :: t == Operation('*')
    ensures Legal(s, FACTOR) ==> Pending(s) == []
  {
  }

  lemma PoppedNone()
    ensures Popped([]) == []
  {
  }

  /** Popping the top operator first and the others after it is popping them all. */
  lemma PopOne(poliz: seq<Operand>, ops: seq<Token>)
    requires ops != []
    ensures PushToPoliz(poliz, Top(ops), 0) + Popped(Pop(ops)) == poliz + Popped(ops)
  {
    hide Top, Pop;
    assert PushToPoliz(poliz, Top(ops), 0) == poliz + PushToPoliz([], Top(ops), 0);
    Regroup(poliz, PushToPoliz([], Top(ops), 0), Popped(Pop(ops)));
  }

  lemma {:induction false} PopOperatorsAll(stack: seq<Token>, ops: seq<Token>, poliz: seq<Operand>, sym: char)
    requires stack != [] && stack[0].Undefined? && !Yields(Top(stack), sym)
    requires forall t <- ops :: Yields(t, sym)
    ensures PopOperators(stack + ops, poliz, sym) == (stack, poliz + Popped(ops))
  {
    hide Popped, PushToPoliz;
    PoppedNone();
    if ops == [] {
      assert stack + ops == stack;
      assert poliz + Popped(ops) == poliz;
    } else {
      assert Top(ops) in ops && Pop(stack + ops) == stack + Pop(ops);
      PopOne(poliz, ops);
      PopOperatorsAll(stack, Pop(ops), PushToPoliz(poliz, Top(ops), 0), sym);
    }
  }

  lemma {:induction false} PopToBracketAll(stack: seq<Token>, ops: seq<Token>, poliz: seq<Operand>)
    requires stack != [] && Top(stack).OpenBracket? && AllOperations(ops)
    ensures PopToBracket(stack + ops, poliz) == Some((stack, poliz + Popped(ops)))
  {
    hide Popped, PushToPoliz;
    PoppedNone();
    if ops == [] {
      assert stack + ops == stack;
      assert poliz + Popped(ops) == poliz;
    } else {
      assert Top(ops) in ops && Pop(stack + ops) == stack + Pop(ops);
      PopOne(poliz, ops);
      PopToBracketAll(stack, Pop(ops), PushToPoliz(poliz, Top(ops), 0));
    }
  }

  lemma {:induction false} FlushAll(ops: seq<Token>, poliz: seq<Operand>)
    requires AllOperations(ops)
    ensures Flush([Undefined] + ops, poliz) == poliz + Popped(ops)
  {
    hide Popped, PushToPoliz;
    PoppedNone();
    if ops == [] {
      assert [Undefined] + ops == [Undefined];
      assert poliz + Popped(ops) == poliz;
    } else {
      assert Top(ops) in ops && Pop([Undefined] + ops) == [Undefined] + Pop(ops);
      PopOne(poliz, ops);
      FlushAll(Pop(ops), PushToPoliz(poliz, Top(ops), 0));
    }
  }

  lemma {:induction false} RunConcat(p: Parser, a: seq<Token>, b: seq<Token>)
    requires p.Plugged()
    ensures Run(p, a + b) == (var q := Run(p, a); if q.None? then None else Run(q.value, b))
    decreases |a|
  {
    if a == [] {
      assert a + b == b;
    } else {
      assert (a + b)[0] == a[0] && (a + b)[1..] == a[1..] + b;
      var next := Step(p, a[0]);
      if next.Some? {
        RunConcat(next.value, a[1..], b);
      }
    }
  }

  /** The parser is about to read an expression written at precedence `level`. */
  ghost predicate Ready(p: Parser, level: nat) {
    && p.Plugged() && !p.unaryMinus && IsPrefixPosition(p.last)
    && !Top(p.stack).Func?
    && (level == SUM ==> !Top(p.stack).Operation?)
    && (level == PRODUCT ==> Top(p.stack) != Operation('*'))
  }

  /** The parser has read an operand; a trailing name still waits for the token after it. */
  ghost predicate Done(p: Parser, stack: seq<Token>, poliz: seq<Operand>) {
    var q := Settle(p, Undefined);
    && p.Plugged() && q.stack == stack && q.poliz == poliz && !q.unaryMinus
    && (q.last.Var? || q.last.Number? || q.last.CloseBracket?)
  }

  /** After an operand, a token other than an opening bracket acts on the settled parser. */
  lemma StepAfterOperand(p: Parser, token: Token)
    requires p.Plugged() && !token.OpenBracket?
    ensures Step(p, token) == Step(Settle(p, Undefined), token)
  {
  }

  lemma RunNothing(p: Parser)
    requires p.Plugged()
    ensures Run(p, []) == Some(p)
  {
  }

  lemma RunOne(p: Parser, token: Token)
    requires p.Plugged()
    ensures Run(p, [token]) == Step(p, token)
  {
    assert [token][1..] == [];
  }

  /** Tokens `a`, then the token `t`, then tokens `b`. */
  lemma RunThen(p: Parser, a: seq<Token>, p1: Parser, t: Token, p2: Parser, b: seq<Token>, p3: Parser)
    requires p.Plugged() && Run(p, a) == Some(p1) && Step(p1, t) == Some(p2) && Run(p2, b) == Some(p3)
    ensures Run(p, a + [t] + b) == Some(p3)
  {
    RunConcat(p, a, [t] + b);
    assert a + [t] + b == a + ([t] + b);
    assert ([t] + b)[1..] == b;
  }

  lemma OperatorAfterOperand(p: Parser, stack: seq<Token>, ops: seq<Token>, poliz: seq<Operand>, sym: char)
    requires Done(p, stack + ops, poliz)
    requires stack != [] && stack[0].Undefined? && !Yields(Top(stack), sym)
    requires forall t <- ops :: Yields(t, sym)
    ensures Step(p, Operation(sym))
         == Some(Parser(stack + [Operation(sym)], poliz + Popped(ops), Operation(sym), false))
  {
    StepAfterOperand(p, Operation(sym));
    PopOperatorsAll(stack, ops, poliz, sym);
  }

  lemma CommaAfterOperand(p: Parser, outer: seq<Token>, k: int, ops: seq<Token>, poliz: seq<Operand>)
    requires Done(p, outer + [OpenBracket(k)] + ops, poliz) && AllOperations(ops)
    ensures Step(p, Token.Comma)
         == Some(Parser(outer + [OpenBracket(k + 1)], poliz + Popped(ops), Token.Comma, false))
  {
    StepAfterOperand(p, Token.Comma);
    PopToBracketAll(outer + [OpenBracket(k)], ops, poliz);
    assert Pop(outer + [OpenBracket(k)]) == outer;
  }

  /** A closing bracket removes its partner, and the function name under it when there is one. */
  lemma CloseAfterOperand(p: Parser, outer: seq<Token>, k: int, ops: seq<Token>, poliz: seq<Operand>)
    requires Done(p, outer + [OpenBracket(k)] + ops, poliz) && AllOperations(ops)
    requires outer != [] && (Top(outer).Func? ==> |outer| > 1)
    ensures Step(p, CloseBracket)
         == Some(if Top(outer).Func?
                 then Parser(Pop(outer), PushToPoliz(poliz + Popped(ops), Top(outer), k), CloseBracket, false)
                 else Parser(outer, poliz + Popped(ops), CloseBracket, false))
  {
    StepAfterOperand(p, CloseBracket);
    PopToBracketAll(outer + [OpenBracket(k)], ops, poliz);
    assert Pop(outer + [OpenBracket(k)]) == outer;
  }

  lemma TokensOfThen(a: seq<Lexeme>, w: Lexeme, b: seq<Lexeme>)
    ensures TokensOf(a + [w] + b) == TokensOf(a) + [w.token] + TokensOf(b)
  {
  }

  lemma BracketsTokens(inner: Source)
    ensures TokensOf(Words(SBrackets(inner)))
         == [] + [OpenBracket(0)] + (TokensOf(Words(inner)) + [CloseBracket] + [])
  {
    TokensOfThen(Words(inner), CLOSE, []);
    assert Words(SBrackets(inner)) == [] + [OPEN] + (Words(inner) + [CLOSE] + []);
    TokensOfThen([], OPEN, Words(inner) + [CLOSE] + []);
  }

  lemma CallTokens(name: Identifier, args: Sources)
    ensures TokensOf(Words(SCall(name, args)))
         == [Name(name)] + [OpenBracket(0)] + (TokensOf(ArgsWords(args)) + [CloseBracket] + [])
  {
    var word := [Lexeme(name, Name(name))];
    TokensOfThen(ArgsWords(args), CLOSE, []);
    assert Words(SCall(name, args)) == word + [OPEN] + (ArgsWords(args) + [CLOSE] + []);
    TokensOfThen(word, OPEN, ArgsWords(args) + [CLOSE] + []);
    assert TokensOf(word) == [Name(name)];
  }

  /** Reading the words of a legal rendering leaves what was on the stack in place, sends
      `Emitted(s)` to the output and puts `Pending(s)` on the stack. */
  lemma {:induction false} ReadExpression(s: Source, level: nat, p: Parser) returns (q: Parser)
    requires level <= FACTOR && Legal(s, level) && Ready(p, level)
    ensures Run(p, TokensOf(Words(s))) == Some(q)
    ensures Done(q, p.stack + Pending(s), p.poliz + Emitted(s))
    decreases s, 1
  {
    match s
    case SLiteral(negative, digits) => q := ReadLiteral(negative, digits, p);
    case SRef(name) => q := ReadName(name, p);
    case SCall(name, args) => q := ReadCall(name, args, p);
    case SBrackets(inner) => q := ReadBrackets(inner, p);
    case SBinary(op, l, r) => q := ReadBinary(op, l, r, level, p);
  }

  lemma ReadLiteral(negative: bool, digits: Numeral, p: Parser) returns (q: Parser)
    requires Ready(p, FACTOR)
    ensures Run(p, TokensOf(Words(SLiteral(negative, digits)))) == Some(q)
    ensures Done(q, p.stack + [], p.poliz + [Constant(if negative then -Decimal(digits) else Decimal(digits))])
  {
    var number := Number(Decimal(digits));
    assert p.stack + [] == p.stack;
    if negative {
      var p1 := p.(unaryMinus := true, last := Operation('-'));
      q := Step(p1, number).value;
      assert TokensOf(Words(SLiteral(true, digits))) == [] + [Operation('-')] + [number];
      RunOne(p1, number);
      RunThen(p, [], p, Operation('-'), p1, [number], q);
    } else {
      q := Step(p, number).value;
      assert TokensOf(Words(SLiteral(false, digits))) == [number];
      RunOne(p, number);
    }
  }

  lemma ReadName(name: Identifier, p: Parser) returns (q: Parser)
    requires Ready(p, FACTOR)
    ensures Run(p, TokensOf(Words(SRef(name)))) == Some(q)
    ensures Done(q, p.stack + [], p.poliz + [Variable(name)])
  {
    q := p.(last := Name(name));
    assert TokensOf(Words(SRef(name))) == [Name(name)];
    assert p.stack + [] == p.stack;
    RunOne(p, Name(name));
  }

  lemma {:induction false} ReadBinary(op: BinOp, l: Source, r: Source, level: nat, p: Parser) returns (q: Parser)
    requires level <= FACTOR && Legal(SBinary(op, l, r), level) && Ready(p, level)
    ensures Run(p, TokensOf(Words(SBinary(op, l, r)))) == Some(q)
    ensures Done(q, p.stack + ([Operation(Sym(op))] + Pending(r)), p.poliz + (PostOrder(Tree(l)) + Emitted(r)))
    decreases SBinary(op, l, r), 0
  {
    var token := Operation(Sym(op));
    var p1 := ReadExpression(l, if op.Mul? then PRODUCT else SUM, p);
    Completes(p.poliz, l);
    if op.Mul? {
      PendingShape(l);
    }
    OperatorAfterOperand(p1, p.stack, Pending(l), p.poliz + Emitted(l), Sym(op));
    var p2 := Parser(p.stack + [token], p.poliz + PostOrder(Tree(l)), token, false);
    q := ReadExpression(r, if op.Mul? then FACTOR else PRODUCT, p2);
    RunThen(p, TokensOf(Words(l)), p1, token, p2, TokensOf(Words(r)), q);
    TokensOfThen(Words(l), OperatorWord(op), Words(r));
    Regroup(p.stack, [token], Pending(r));
    Regroup(p.poliz, PostOrder(Tree(l)), Emitted(r));
  }

  lemma {:induction false} ReadBrackets(inner: Source, p: Parser) returns (q: Parser)
    requires Legal(inner, SUM) && Ready(p, FACTOR)
    ensures Run(p, TokensOf(Words(SBrackets(inner)))) == Some(q)
    ensures Done(q, p.stack + [], p.poliz + PostOrder(Tree(inner)))
    decreases SBrackets(inner), 0
  {
    var words := TokensOf(Words(inner));
    var p1 := Parser(p.stack + [OpenBracket(1)], p.poliz, OpenBracket(1), false);
    var p2 := ReadExpression(inner, SUM, p1);
    Completes(p.poliz, inner);
    CloseAfterOperand(p2, p.stack, 1, Pending(inner), p.poliz + Emitted(inner));
    q := Step(p2, CloseBracket).value;
    RunThen(p1, words, p2, CloseBracket, q, [], q);
    RunThen(p, [], p, OpenBracket(0), p1, words + [CloseBracket] + [], q);
    BracketsTokens(inner);
    assert p.stack == p.stack + [];
  }

  lemma {:induction false} ReadCall(name: Identifier, args: Sources, p: Parser) returns (q: Parser)
    requires LegalArgs(args) && Count(Trees(args)) < 256 && Ready(p, FACTOR)
    ensures Run(p, TokensOf(Words(SCall(name, args)))) == Some(q)
    ensures Done(q, p.stack + [],
                 p.poliz + (ArgsPostOrder(Trees(args)) + [Function(name, Count(Trees(args)))]))
    decreases SCall(name, args), 0
  {
    hide Words, ArgsWords, TokensOf, Run, PostOrder, ArgsPostOrder, ArgsEmitted, ArgsPending, Trees, Done, Legal;
    var body := TokensOf(ArgsWords(args));
    var count := Count(Trees(args));
    var outer := p.stack + [Func(name)];
    var p1 := p.(last := Name(name));
    var p2 := Parser(outer + [OpenBracket(1)], p.poliz, OpenBracket(1), false);
    var p3 := ReadArguments(args, outer, 1, p2);
    q := CallClose(p3, name, args, p.stack, p.poliz);
    RunNothing(q);
    RunThen(p2, body, p3, CloseBracket, q, [], q);
    RunOne(p, Name(name));
    RunThen(p, [Name(name)], p1, OpenBracket(0), p2, body + [CloseBracket] + [], q);
    CallTokens(name, args);
    assert p.stack + [] == p.stack;
  }

  lemma CallClose(p: Parser, name: Identifier, args: Sources, stack: seq<Token>, poliz: seq<Operand>)
    returns (q: Parser)
    requires stack != [] && stack[0].Undefined? && Count(Trees(args)) < 256
    requires Done(p, stack + [Func(name)] + [OpenBracket(Count(Trees(args)))] + ArgsPending(args),
                  poliz + ArgsEmitted(args))
    ensures Step(p, CloseBracket) == Some(q)
    ensures Done(q, stack, poliz + (ArgsPostOrder(Trees(args)) + [Function(name, Count(Trees(args)))]))
  {
    var count := Count(Trees(args));
    ArgsComplete(poliz, args);
    CloseAfterOperand(p, stack + [Func(name)], count, ArgsPending(args), poliz + ArgsEmitted(args));
    q := Step(p, CloseBracket).value;
    Regroup(poliz, ArgsPostOrder(Trees(args)), [Function(name, count)]);
    assert Pop(stack + [Func(name)]) == stack;
  }

  /** The operators still pending after the last argument, and the output so far. */
  function ArgsPending(ss: Sources): seq<Token> {
    match ss case SSingle(s) => Pending(s) case SMore(_, rest) => ArgsPending(rest)
  }

  function ArgsEmitted(ss: Sources): seq<Operand> {
    match ss
    case SSingle(s) => Emitted(s)
    case SMore(s, rest) => PostOrder(Tree(s)) + ArgsEmitted(rest)
  }

  lemma {:induction false} ArgsComplete(poliz: seq<Operand>, ss: Sources)
    ensures poliz + ArgsEmitted(ss) + Popped(ArgsPending(ss)) == poliz + ArgsPostOrder(Trees(ss))
    ensures AllOperations(ArgsPending(ss))
    decreases ss
  {
    match ss
    case SSingle(s) => Completes(poliz, s);
    case SMore(s, rest) =>
      ArgsComplete(poliz + PostOrder(Tree(s)), rest);
      Regroup(poliz, PostOrder(Tree(s)), ArgsEmitted(rest));
      Regroup(poliz, PostOrder(Tree(s)), ArgsPostOrder(Trees(rest)));
  }

  /** The comma rule counts the arguments in the opening bracket on the stack. */
  lemma {:induction false} ReadArguments(args: Sources, outer: seq<Token>, k: int, p: Parser) returns (q: Parser)
    requires LegalArgs(args) && Ready(p, SUM) && outer != [] && p.stack == outer + [OpenBracket(k)]
    ensures Run(p, TokensOf(ArgsWords(args))) == Some(q)
    ensures Done(q, outer + [OpenBracket(k + Count(Trees(args)) - 1)] + ArgsPending(args),
                 p.poliz + ArgsEmitted(args))
    decreases args
  {
    hide Words, ArgsWords, TokensOf, Run, Step, PostOrder, Emitted, Pending, Tree, Legal, Done, Ready;
    match args
    case SSingle(s) =>
      q := ReadExpression(s, SUM, p);
      assert ArgsWords(args) == Words(s) by { ArgsWordsOf(args); }
    case SMore(s, rest) =>
      var p1, p2 := ReadToComma(s, outer, k, p);
      q := ReadArguments(rest, outer, k + 1, p2);
      ArgsWordsOf(args);
      TokensOfThen(Words(s), COMMA, ArgsWords(rest));
      RunThen(p, TokensOf(Words(s)), p1, Token.Comma, p2, TokensOf(ArgsWords(rest)), q);
      Regroup(p.poliz, PostOrder(Tree(s)), ArgsEmitted(rest));
  }

  lemma ArgsWordsOf(args: Sources)
    ensures match args
            case SSingle(s) => ArgsWords(args) == Words(s)
            case SMore(s, rest) => ArgsWords(args) == Words(s) + [COMMA] + ArgsWords(rest)
    ensures COMMA.token == Token.Comma
  {
  }

  /** One argument and the comma after it. */
  lemma {:induction false} ReadToComma(s: Source, outer: seq<Token>, k: int, p: Parser) returns (p1: Parser, p2: Parser)
    requires Legal(s, SUM) && Ready(p, SUM) && outer != [] && p.stack == outer + [OpenBracket(k)]
    ensures Run(p, TokensOf(Words(s))) == Some(p1) && Step(p1, Token.Comma) == Some(p2)
    ensures p2 == Parser(outer + [OpenBracket(k + 1)], p.poliz + PostOrder(Tree(s)), Token.Comma, false)
    ensures Ready(p2, SUM)
    decreases s, 2
  {
    p1 := ReadExpression(s, SUM, p);
    hide Words, TokensOf, Run, Step, PostOrder, Emitted, Pending, Tree, Legal, Done;
    Completes(p.poliz, s);
    CommaAfterOperand(p1, outer, k, Pending(s), p.poliz + Emitted(s));
    p2 := Parser(outer + [OpenBracket(k + 1)], p.poliz + PostOrder(Tree(s)), Token.Comma, false);
    assert p2.stack[0] == p.stack[0];
  }

  /** Shunting-yard correctness: for every tree and every legal rendering of it as text, the parser
      yields exactly the tree's post-order, with the argument counts and negated constants. */
  lemma FromInfixIsPostOrder(text: string, s: Source)
    requires Renders(text, s)
    ensures FromInfix(text) == Some(PostOrder(Tree(s)))
  {
    var gaps: seq<string> :|
      |gaps| == |Words(s)| + 1 && (forall g <- gaps :: IsGap(g)) && text == Layout(Words(s), gaps);
    WordsSeparable(s);
    TokensOfLayout(Words(s), gaps);
    var tokens := TokensOf(Words(s));
    var p := ReadExpression(s, SUM, START);
    StepAfterOperand(p, Undefined);
    var q := Step(p, Undefined).value;
    RunThen(START, tokens, p, Undefined, q, [], q);
    assert tokens + [Undefined] + [] == tokens + [Undefined];
    EmittedThenPopped(s);
    FlushAll(Pending(s), Emitted(s));
    assert START.poliz + Emitted(s) == Emitted(s);
  }
}
