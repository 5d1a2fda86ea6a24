/** What the tokenizer, the parser and the meaning of expressions come to on plain characters and tokens. */
module JitPlain {
  import opened Wrappers
  import opened Decimals
  import opened JitLexer
  import opened JitParser
  import opened JitSyntax
  import opened JitParserProof
  import opened JitCodegen
  import opened JitSemantics

  // ---------------------------------------------------------------------------------------------
  // Characters
  // ---------------------------------------------------------------------------------------------

  predicate Letter(c: char) { 'a' <= c <= 'z' || 'A' <= c <= 'Z' }

  predicate Digit(c: char) { '0' <= c <= '9' }

  /** The identifiers of expressions, and what may stand between words. */
  lemma Spelling(s: string)
    ensures IsIdentifier(s) <==> s != "" && Letter(s[0]) && forall c <- s :: Letter(c) || Digit(c)
    ensures IsNumeral(s) <==> s != "" && forall c <- s :: Digit(c)
    ensures IsGap(s) <==> forall c <- s ::
              !Letter(c) && !Digit(c) && c != '+' && c != '-' && c != '*' && c != '(' && c != ')' && c != ','
  {
    assert (forall c <- s :: IsDigit(c)) <==> forall c <- s :: Digit(c);
  }

  /** A letter and all letters and digits behind it are one name. */
  lemma NameRead(name: string, rest: string)
    requires name != "" && Letter(name[0]) && forall c <- name :: Letter(c) || Digit(c)
    requires rest != "" ==> !Letter(rest[0]) && !Digit(rest[0])
    ensures Scan(name + rest) == (Name(name), rest)
  {
    assert forall c <- name :: IsWordChar(c);
    ScanWord(Lexeme(name, Name(name)), rest);
  }

  /** A digit and all digits behind it are one number, in base ten. */
  lemma NumberRead(digits: string, rest: string)
    requires digits != "" && forall c <- digits :: Digit(c)
    requires rest != "" ==> !Letter(rest[0]) && !Digit(rest[0])
    ensures forall c <- digits :: IsDigit(c)
    ensures Scan(digits + rest) == (Number(Decimal(digits)), rest)
  {
    assert forall c <- digits :: IsDigit(c);
    ScanWord(Lexeme(digits, Number(Decimal(digits))), rest);
  }

  /** Operators, brackets and commas are tokens of one character, and all other characters but letters
      and digits are skipped. */
  lemma OtherCharacters(c: char, rest: string)
    requires !Letter(c) && !Digit(c)
    ensures Scan([c] + rest) ==
            if c == '+' || c == '-' || c == '*' then (Operation(c), rest)
            else if c == '(' then (OpenBracket(0), rest)
            else if c == ')' then (CloseBracket, rest)
            else if c == ',' then (Token.Comma, rest)
            else Scan(rest)
  {
    assert ([c] + rest)[1..] == rest;
  }

  // ---------------------------------------------------------------------------------------------
  // Tokens
  // ---------------------------------------------------------------------------------------------

  /** The output of the parser for tokens up to the end of the text. */
  function Parsed(ts: seq<Token>): Option<seq<Operand>> {
    var p := Run(START, ts + [Undefined]);
    if p.None? then None else Some(Flush(p.value.stack, p.value.poliz))
  }

  lemma ParsedText(text: string, ts: seq<Token>)
    requires Tokens(text + " ") == ts + [Undefined]
    ensures FromInfix(text) == Parsed(ts)
  {
  }

  /** A text that renders `s` has the words of `s` as its tokens. */
  lemma ParsedSource(s: Source, ts: seq<Token>)
    requires Legal(s, SUM) && ts == TokensOf(Words(s))
    ensures Parsed(ts) == Some(PostOrder(Tree(s)))
  {
    hide Words, TokensOf, PostOrder, Tree, Emitted, Pending, Done, Flush, Run;
    var p := ReadExpression(s, SUM, START);
    assert [] + Emitted(s) == Emitted(s);
    var q := EndOfExpression(s, p);
    RunNothing(q);
    RunThen(START, ts, p, Undefined, q, [], q);
    assert ts + [Undefined] + [] == ts + [Undefined];
  }

  lemma EndOfExpression(s: Source, p: Parser) returns (q: Parser)
    requires Done(p, [Undefined] + Pending(s), [] + Emitted(s))
    ensures p.Plugged() && Step(p, Undefined) == Some(q) && q.Plugged()
    ensures Flush(q.stack, q.poliz) == PostOrder(Tree(s))
  {
    hide Emitted, Pending, PostOrder, Tree, Flush;
    StepAfterOperand(p, Undefined);
    q := Step(p, Undefined).value;
    EmittedThenPopped(s);
    FlushAll(Pending(s), Emitted(s));
    assert [] + Emitted(s) == Emitted(s);
  }

  predicate Operator(c: char) { c == '+' || c == '-' || c == '*' }

  function OpOf(c: char): (op: BinOp)
    requires Operator(c)
    ensures Sym(op) == c
  {
    if c == '+' then Add else if c == '-' then Sub else Mul
  }

  /** A rendering, its tokens and its post-order. */
  ghost predicate Reads(s: Source, ts: seq<Token>, level: nat, poliz: seq<Operand>) {
    Legal(s, level) && TokensOf(Words(s)) == ts && PostOrder(Tree(s)) == poliz
  }

  lemma NameReads(a: string, level: nat)
    requires IsIdentifier(a)
    ensures Reads(SRef(a), [Name(a)], level, [Variable(a)])
  {
  }

  lemma BinaryReads(l: Source, ls: seq<Token>, lp: seq<Operand>, c: char, r: Source, rs: seq<Token>, rp: seq<Operand>)
    requires Operator(c)
    requires Reads(l, ls, if c == '*' then PRODUCT else SUM, lp) && Reads(r, rs, if c == '*' then FACTOR else PRODUCT, rp)
    ensures Reads(SBinary(OpOf(c), l, r), ls + [Operation(c)] + rs, if c == '*' then PRODUCT else SUM, lp + rp + [MathOperator(c)])
    ensures Legal(SBinary(OpOf(c), l, r), SUM)
  {
    TokensOfThen(Words(l), OperatorWord(OpOf(c)), Words(r));
    hide TokensOf;
    assert Words(SBinary(OpOf(c), l, r)) == Words(l) + [OperatorWord(OpOf(c))] + Words(r);
  }

  lemma BracketsRead(s: Source, ts: seq<Token>, poliz: seq<Operand>)
    requires Reads(s, ts, SUM, poliz)
    ensures Reads(SBrackets(s), [OpenBracket(0)] + ts + [CloseBracket], FACTOR, poliz)
  {
    BracketsTokens(s);
    assert [] + [OpenBracket(0)] + (ts + [CloseBracket] + []) == [OpenBracket(0)] + ts + [CloseBracket];
  }

  lemma ReadsParsed(s: Source, ts: seq<Token>, poliz: seq<Operand>)
    requires Reads(s, ts, SUM, poliz)
    ensures Parsed(ts) == Some(poliz)
  {
    ParsedSource(s, ts);
  }

  /** Of two operators the second goes first only when it is a multiplication and the first is not. */
  lemma Precedence(a: string, s: char, b: string, t: char, c: string)
    requires IsIdentifier(a) && IsIdentifier(b) && IsIdentifier(c) && Operator(s) && Operator(t)
    ensures Parsed([Name(a), Operation(s), Name(b), Operation(t), Name(c)]) ==
            Some(if t == '*' && s != '*'
                 then [Variable(a), Variable(b), Variable(c), MathOperator(t), MathOperator(s)]
                 else [Variable(a), Variable(b), MathOperator(s), Variable(c), MathOperator(t)])
  {
    hide Reads, Parsed;
    var x, y, z := SRef(a), SRef(b), SRef(c);
    var va, vb, vc := [Variable(a)], [Variable(b)], [Variable(c)];
    var ts := [Name(a), Operation(s), Name(b), Operation(t), Name(c)];
    forall level: nat ensures Reads(x, [Name(a)], level, va) && Reads(y, [Name(b)], level, vb) && Reads(z, [Name(c)], level, vc) {
      NameReads(a, level);
      NameReads(b, level);
      NameReads(c, level);
    }
    if t == '*' && s != '*' {
      BinaryReads(y, [Name(b)], vb, t, z, [Name(c)], vc);
      BinaryReads(x, [Name(a)], va, s, SBinary(OpOf(t), y, z), [Name(b)] + [Operation(t)] + [Name(c)], vb + vc + [MathOperator(t)]);
      assert [Name(a)] + [Operation(s)] + ([Name(b)] + [Operation(t)] + [Name(c)]) == ts;
      assert va + (vb + vc + [MathOperator(t)]) + [MathOperator(s)]
          == [Variable(a), Variable(b), Variable(c), MathOperator(t), MathOperator(s)];
      ReadsParsed(SBinary(OpOf(s), x, SBinary(OpOf(t), y, z)), ts,
                  [Variable(a), Variable(b), Variable(c), MathOperator(t), MathOperator(s)]);
    } else {
      var inner := SBinary(OpOf(s), x, y);
      BinaryReads(x, [Name(a)], va, s, y, [Name(b)], vb);
      LowerLevel(inner, [Name(a)] + [Operation(s)] + [Name(b)], va + vb + [MathOperator(s)]);
      BinaryReads(inner, [Name(a)] + [Operation(s)] + [Name(b)], va + vb + [MathOperator(s)], t, z, [Name(c)], vc);
      assert [Name(a)] + [Operation(s)] + [Name(b)] + [Operation(t)] + [Name(c)] == ts;
      assert va + vb + [MathOperator(s)] + vc + [MathOperator(t)]
          == [Variable(a), Variable(b), MathOperator(s), Variable(c), MathOperator(t)];
      LowerLevel(SBinary(OpOf(t), inner, z), ts, [Variable(a), Variable(b), MathOperator(s), Variable(c), MathOperator(t)]);
      ReadsParsed(SBinary(OpOf(t), inner, z), ts, [Variable(a), Variable(b), MathOperator(s), Variable(c), MathOperator(t)]);
    }
  }

  /** A product may stand where a sum is expected. */
  lemma LowerLevel(s: Source, ts: seq<Token>, poliz: seq<Operand>)
    ensures Reads(s, ts, PRODUCT, poliz) ==> Reads(s, ts, SUM, poliz)
    ensures Reads(s, ts, FACTOR, poliz) ==> Reads(s, ts, PRODUCT, poliz)
  {
  }

  /** Brackets keep together what they enclose. */
  lemma Bracketing(a: string, s: char, b: string, t: char, c: string)
    requires IsIdentifier(a) && IsIdentifier(b) && IsIdentifier(c) && Operator(s) && Operator(t)
    ensures Parsed([Name(a), Operation(s), OpenBracket(0), Name(b), Operation(t), Name(c), CloseBracket]) ==
            Some([Variable(a), Variable(b), Variable(c), MathOperator(t), MathOperator(s)])
  {
    hide Reads, Parsed;
    var x, y, z := SRef(a), SRef(b), SRef(c);
    var va, vb, vc := [Variable(a)], [Variable(b)], [Variable(c)];
    var ts := [Name(a), Operation(s), OpenBracket(0), Name(b), Operation(t), Name(c), CloseBracket];
    forall level: nat ensures Reads(x, [Name(a)], level, va) && Reads(y, [Name(b)], level, vb) && Reads(z, [Name(c)], level, vc) {
      NameReads(a, level);
      NameReads(b, level);
      NameReads(c, level);
    }
    var inner, its, ip := SBinary(OpOf(t), y, z), [Name(b)] + [Operation(t)] + [Name(c)], vb + vc + [MathOperator(t)];
    BinaryReads(y, [Name(b)], vb, t, z, [Name(c)], vc);
    LowerLevel(inner, its, ip);
    BracketsRead(inner, its, ip);
    LowerLevel(SBrackets(inner), [OpenBracket(0)] + its + [CloseBracket], ip);
    BinaryReads(x, [Name(a)], va, s, SBrackets(inner), [OpenBracket(0)] + its + [CloseBracket], ip);
    assert [Name(a)] + [Operation(s)] + ([OpenBracket(0)] + its + [CloseBracket]) == ts;
    var poliz := [Variable(a), Variable(b), Variable(c), MathOperator(t), MathOperator(s)];
    assert va + ip + [MathOperator(s)] == poliz;
    LowerLevel(SBinary(OpOf(s), x, SBrackets(inner)), ts, poliz);
    ReadsParsed(SBinary(OpOf(s), x, SBrackets(inner)), ts, poliz);
  }

  /** A call comes after its arguments, which stay in order, and knows how many there are. */
  lemma Calling(f: string, a: string, b: string)
    requires IsIdentifier(f) && IsIdentifier(a) && IsIdentifier(b)
    ensures Parsed([Name(f), OpenBracket(0), Name(a), Token.Comma, Name(b), CloseBracket]) ==
            Some([Variable(a), Variable(b), Function(f, 2)])
  {
    hide Words, ArgsWords, TokensOf, PostOrder, ArgsPostOrder, Legal, LegalArgs, Tree, Trees, Count, Parsed;
    var x, y := SRef(a), SRef(b);
    var last, args := SSingle(y), SMore(x, SSingle(y));
    NameIs(a);
    NameIs(b);
    OneArgument(y);
    MoreArguments(x, last);
    CallIs(f, args);
    CallTokens(f, args);
    TokensOfThen(Words(x), COMMA, ArgsWords(last));
    var ts := [Name(f), OpenBracket(0), Name(a), Token.Comma, Name(b), CloseBracket];
    assert TokensOf(Words(SCall(f, args))) == ts;
    ParsedSource(SCall(f, args), ts);
    assert [Variable(a)] + [Variable(b)] + [Function(f, 2)] == [Variable(a), Variable(b), Function(f, 2)];
  }

  lemma NameIs(a: string)
    requires IsIdentifier(a)
    ensures Legal(SRef(a), SUM) && TokensOf(Words(SRef(a))) == [Name(a)] && PostOrder(Tree(SRef(a))) == [Variable(a)]
  {
  }

  lemma OneArgument(s: Source)
    ensures LegalArgs(SSingle(s)) == Legal(s, SUM) && ArgsWords(SSingle(s)) == Words(s)
    ensures Count(Trees(SSingle(s))) == 1 && ArgsPostOrder(Trees(SSingle(s))) == PostOrder(Tree(s))
  {
  }

  lemma MoreArguments(s: Source, rest: Sources)
    ensures LegalArgs(SMore(s, rest)) == (Legal(s, SUM) && LegalArgs(rest))
    ensures ArgsWords(SMore(s, rest)) == Words(s) + [COMMA] + ArgsWords(rest) && COMMA.token == Token.Comma
    ensures Count(Trees(SMore(s, rest))) == 1 + Count(Trees(rest))
    ensures ArgsPostOrder(Trees(SMore(s, rest))) == PostOrder(Tree(s)) + ArgsPostOrder(Trees(rest))
  {
  }

  lemma CallIs(f: Identifier, args: Sources)
    ensures Legal(SCall(f, args), SUM) == (LegalArgs(args) && Count(Trees(args)) < 256)
    ensures PostOrder(Tree(SCall(f, args))) == ArgsPostOrder(Trees(args)) + [Function(f, Count(Trees(args)))]
  {
  }

  /** A minus sign before a number at the start belongs to the number. */
  lemma NegativeNumber(digits: string)
    requires IsNumeral(digits)
    ensures Parsed([Operation('-'), Number(Decimal(digits))]) == Some([Constant(-Decimal(digits))])
  {
    var source := SLiteral(true, digits);
    assert TokensOf(Words(source)) == [Operation('-'), Number(Decimal(digits))];
    ParsedSource(source, TokensOf(Words(source)));
  }

  // ---------------------------------------------------------------------------------------------
  // Meaning
  // ---------------------------------------------------------------------------------------------

  /** The value of sums, differences and products, and the order of arguments. */
  lemma Meaning(l: Expr, r: Expr, w: World, name: string)
    requires Defined(l, w) && Defined(r, w)
    ensures Value(Binary(Add, l, r), w) == Value(l, w) + Value(r, w)
    ensures Value(Binary(Sub, l, r), w) == Value(l, w) - Value(r, w)
    ensures Value(Binary(Mul, l, r), w) == Value(l, w) * Value(r, w)
    ensures Values(More(l, Single(r)), w) == [Value(l, w) % 0x1_0000_0000, Value(r, w) % 0x1_0000_0000]
    ensures IsFunction(w, name, 2) ==>
              Value(Call(name, More(l, Single(r))), w) ==
              w.env.externs[Address(w, name)].result([Value(l, w) % 0x1_0000_0000, Value(r, w) % 0x1_0000_0000])
  {
  }

  /** The pops before a call: the last argument, which is on top, goes to the highest register. */
  lemma PopWords()
    ensures Pops(1) == [0xe49d0004]
    ensures Pops(2) == [0xe49d1004, 0xe49d0004]
    ensures Pops(3) == [0xe49d2004, 0xe49d1004, 0xe49d0004]
    ensures Pops(4) == [0xe49d3004, 0xe49d2004, 0xe49d1004, 0xe49d0004]
  {
    assert Pops(0) == [];
    assert Pops(1) == [PopR(0)] + Pops(0);
    assert Pops(2) == [PopR(1)] + Pops(1);
    assert Pops(3) == [PopR(2)] + Pops(2);
    assert Pops(4) == [PopR(3)] + Pops(3);
  }
}
