/** Syntax trees of expressions, their legal renderings as text, and the reverse Polish order. */
module JitSyntax {
  import opened Decimals
  import opened JitLexer
  import opened JitParser

  datatype BinOp = Add | Sub | Mul

  function Sym(op: BinOp): char {
    match op case Add => '+' case Sub => '-' case Mul => '*'
  }

  datatype Expr =
    | Literal(value: int)
    | Ref(name: string)
    | Call(name: string, args: Exprs)
    | Binary(op: BinOp, left: Expr, right: Expr)

  /** One or more arguments. */
  datatype Exprs = Single(e: Expr) | More(e: Expr, rest: Exprs)

  function Count(es: Exprs): nat {
    match es case Single(_) => 1 case More(_, rest) => 1 + Count(rest)
  }

  /** Operands before their operator, arguments before their function. */
  function PostOrder(e: Expr): seq<Operand> {
    match e
    case Literal(v) => [Constant(v)]
    case Ref(name) => [Variable(name)]
    case Call(name, args) => ArgsPostOrder(args) + [Function(name, Count(args))]
    case Binary(op, l, r) => PostOrder(l) + PostOrder(r) + [MathOperator(Sym(op))]
  }

  function ArgsPostOrder(es: Exprs): seq<Operand> {
    match es
    case Single(e) => PostOrder(e)
    case More(e, rest) => PostOrder(e) + ArgsPostOrder(rest)
  }

  // ---------------------------------------------------------------------------------------------
  // Renderings: a tree as it is written, with its brackets and digit strings
  // ---------------------------------------------------------------------------------------------

  type Identifier = s: string | IsIdentifier(s) witness "x"

  datatype Source =
    | SLiteral(negative: bool, digits: Numeral)
    | SRef(name: Identifier)
    | SCall(name: Identifier, args: Sources)
    | SBinary(op: BinOp, left: Source, right: Source)
    | SBrackets(inner: Source)

  datatype Sources = SSingle(s: Source) | SMore(s: Source, rest: Sources)

  /** The tree a rendering stands for. */
  function Tree(s: Source): Expr {
    match s
    case SLiteral(negative, digits) => Literal(if negative then -Decimal(digits) else Decimal(digits))
    case SRef(name) => Ref(name)
    case SCall(name, args) => Call(name, Trees(args))
    case SBinary(op, l, r) => Binary(op, Tree(l), Tree(r))
    case SBrackets(inner) => Tree(inner)
  }

  function Trees(ss: Sources): Exprs {
    match ss
    case SSingle(s) => Single(Tree(s))
    case SMore(s, rest) => More(Tree(s), Trees(rest))
  }

  const SUM: nat := 0
  const PRODUCT: nat := 1
  const FACTOR: nat := 2

  /** `s` may be written where something of precedence at least `level` is expected. `*` binds
      tighter than `+` and `-`, and all three associate to the left. A minus sign may precede
      constants only, and the argument count must fit in a byte. */
  ghost predicate Legal(s: Source, level: nat) {
    match s
    case SLiteral(_, _) => true
    case SRef(_) => true
    case SCall(_, args) => LegalArgs(args) && Count(Trees(args)) < 256
    case SBinary(Mul, l, r) => level <= PRODUCT && Legal(l, PRODUCT) && Legal(r, FACTOR)
    case SBinary(_, l, r) => level <= SUM && Legal(l, SUM) && Legal(r, PRODUCT)
    case SBrackets(inner) => Legal(inner, SUM)
  }

  ghost predicate LegalArgs(ss: Sources) {
    match ss
    case SSingle(s) => Legal(s, SUM)
    case SMore(s, rest) => Legal(s, SUM) && LegalArgs(rest)
  }

  const OPEN := Lexeme("(", OpenBracket(0))
  const CLOSE := Lexeme(")", CloseBracket)
  const COMMA := Lexeme(",", Token.Comma)

  function OperatorWord(op: BinOp): Lexeme { Lexeme([Sym(op)], Operation(Sym(op))) }

  /** The words of a rendering, left to right. */
  function Words(s: Source): seq<Lexeme> {
    match s
    case SLiteral(negative, digits) =>
      (if negative then [OperatorWord(Sub)] else []) + [Lexeme(digits, Number(Decimal(digits)))]
    case SRef(name) => [Lexeme(name, Name(name))]
    case SCall(name, args) => [Lexeme(name, Name(name)), OPEN] + ArgsWords(args) + [CLOSE]
    case SBinary(op, l, r) => Words(l) + [OperatorWord(op)] + Words(r)
    case SBrackets(inner) => [OPEN] + Words(inner) + [CLOSE]
  }

  function ArgsWords(ss: Sources): seq<Lexeme> {
    match ss
    case SSingle(s) => Words(s)
    case SMore(s, rest) => Words(s) + [COMMA] + ArgsWords(rest)
  }

  /** `text` writes the rendering `s` with skipped characters (spaces, say) around its words. */
  ghost predicate Renders(text: string, s: Source) {
    Legal(s, SUM) &&
    exists gaps: seq<string> ::
      |gaps| == |Words(s)| + 1 && (forall g <- gaps :: IsGap(g)) && text == Layout(Words(s), gaps)
  }

  lemma SeparableConcat(a: seq<Lexeme>, b: seq<Lexeme>, c: seq<Lexeme>)
    requires Separable(a) && Separable(c) && |b| == 1 && Spelled(b[0])
    requires !b[0].token.Name? && !b[0].token.Number?
    ensures Separable(a + b + c)
  {
    var ws := a + b + c;
    forall i | 0 <= i < |ws| - 1
      ensures !IsRunOn(ws[i].token, ws[i + 1].token)
    {
      if i < |a| - 1 {
        assert !IsRunOn(a[i].token, a[i + 1].token);
      } else if i > |a| {
        var k := i - |a| - 1;
        assert !IsRunOn(c[k].token, c[k + 1].token);
      }
    }
  }

  /** No rendering puts two names or numbers next to each other, so no space is ever needed. */
  lemma {:induction false} WordsSeparable(s: Source)
    ensures Separable(Words(s))
  {
    match s
    case SLiteral(negative, digits) =>
    case SRef(name) =>
    case SCall(name, args) =>
      ArgsWordsSeparable(args);
      SeparableConcat([Lexeme(name, Name(name))], [OPEN], ArgsWords(args));
      SeparableConcat([Lexeme(name, Name(name))] + [OPEN] + ArgsWords(args), [CLOSE], []);
      assert Words(s) == [Lexeme(name, Name(name))] + [OPEN] + ArgsWords(args) + [CLOSE] + [];
    case SBinary(op, l, r) =>
      WordsSeparable(l);
      WordsSeparable(r);
      SeparableConcat(Words(l), [OperatorWord(op)], Words(r));
    case SBrackets(inner) =>
      WordsSeparable(inner);
      SeparableConcat([], [OPEN], Words(inner));
      SeparableConcat([] + [OPEN] + Words(inner), [CLOSE], []);
      assert Words(s) == [] + [OPEN] + Words(inner) + [CLOSE] + [];
  }

  lemma {:induction false} ArgsWordsSeparable(ss: Sources)
    ensures Separable(ArgsWords(ss))
  {
    match ss
    case SSingle(s) => WordsSeparable(s);
    case SMore(s, rest) =>
      WordsSeparable(s);
      ArgsWordsSeparable(rest);
      SeparableConcat(Words(s), [COMMA], ArgsWords(rest));
  }

  // ---------------------------------------------------------------------------------------------
  // Every tree can be written
  // ---------------------------------------------------------------------------------------------

  /** Trees a text can denote: constants and names spellable, calls with at most 255 arguments. */
  ghost predicate Expressible(e: Expr) {
    match e
    case Literal(_) => true
    case Ref(name) => IsIdentifier(name)
    case Call(name, args) => IsIdentifier(name) && Count(args) < 256 && ExpressibleArgs(args)
    case Binary(_, l, r) => Expressible(l) && Expressible(r)
  }

  ghost predicate ExpressibleArgs(es: Exprs) {
    match es
    case Single(e) => Expressible(e)
    case More(e, rest) => Expressible(e) && ExpressibleArgs(rest)
  }

  /** A rendering with brackets around every operation. */
  function Bracketed(e: Expr): Source
    requires Expressible(e)
  {
    match e
    case Literal(v) => if v < 0 then SLiteral(true, Digits(-v)) else SLiteral(false, Digits(v))
    case Ref(name) => SRef(name)
    case Call(name, args) => SCall(name, BracketedArgs(args))
    case Binary(op, l, r) => SBrackets(SBinary(op, Bracketed(l), Bracketed(r)))
  }

  function BracketedArgs(es: Exprs): Sources
    requires ExpressibleArgs(es)
  {
    match es
    case Single(e) => SSingle(Bracketed(e))
    case More(e, rest) => SMore(Bracketed(e), BracketedArgs(rest))
  }

  /** Every expressible tree has a legal rendering. */
  lemma {:induction false} BracketedIsLegal(e: Expr)
    requires Expressible(e)
    ensures Tree(Bracketed(e)) == e && forall level :: Legal(Bracketed(e), level)
  {
    match e
    case Literal(v) =>
    case Ref(name) =>
    case Call(name, args) => BracketedArgsAreLegal(args);
    case Binary(op, l, r) =>
      BracketedIsLegal(l);
      BracketedIsLegal(r);
      assert Legal(SBinary(op, Bracketed(l), Bracketed(r)), SUM);
  }

  lemma {:induction false} BracketedArgsAreLegal(es: Exprs)
    requires ExpressibleArgs(es)
    ensures Trees(BracketedArgs(es)) == es && LegalArgs(BracketedArgs(es))
  {
    match es
    case Single(e) => BracketedIsLegal(e);
    case More(e, rest) =>
      BracketedIsLegal(e);
      BracketedArgsAreLegal(rest);
  }
}
