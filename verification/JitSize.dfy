/** How much of the buffer an expression takes, from its tree alone. */
module JitSize {
  import opened JitParser
  import opened JitSyntax
  import opened JitCodegen
  import JitParserProof

  /** The commands of an expression: two for a constant, three for a variable, four for an operator,
      and five and one more for each argument of a call. */
  function CommandCount(e: Expr): nat {
    match e
    case Literal(_) => 2
    case Ref(_) => 3
    case Call(_, args) => ArgsCommandCount(args) + Count(args) + 5
    case Binary(_, l, r) => CommandCount(l) + CommandCount(r) + 4
  }

  function ArgsCommandCount(es: Exprs): nat {
    match es
    case Single(e) => CommandCount(e)
    case More(e, rest) => CommandCount(e) + ArgsCommandCount(rest)
  }

  function ConstantCount(e: Expr): nat {
    match e
    case Literal(_) => 1
    case Ref(_) => 0
    case Call(_, args) => ArgsConstantCount(args)
    case Binary(_, l, r) => ConstantCount(l) + ConstantCount(r)
  }

  function ArgsConstantCount(es: Exprs): nat {
    match es
    case Single(e) => ConstantCount(e)
    case More(e, rest) => ConstantCount(e) + ArgsConstantCount(rest)
  }

  lemma PopsCount(n: nat)
    ensures |Pops(n)| == n
  {
  }

  lemma {:induction false} ProcessAllConcat(c: Code, a: seq<Operand>, b: seq<Operand>)
    ensures ProcessAll(c, a + b) == ProcessAll(ProcessAll(c, a), b)
    decreases |a|
  {
    hide Process;
    if a == [] {
      assert a + b == b;
    } else {
      assert (a + b)[1..] == a[1..] + b;
      ProcessAllConcat(Process(c, a[0]), a[1..], b);
    }
  }

  /** `d` goes on from `c` with so many more commands and literals. */
  predicate Longer(c: Code, d: Code, commands: nat, literals: nat) {
    |d.commands| == |c.commands| + commands && |d.data| == |c.data| + literals
  }

  lemma {:induction false} SizeOfExpression(c: Code, e: Expr)
    ensures Longer(c, ProcessAll(c, PostOrder(e)), CommandCount(e), ConstantCount(e))
    decreases e
  {
    hide ProcessAll;
    match e
    case Literal(v) => SizeOfOperand(c, Constant(v), 2, 1);
    case Ref(name) => SizeOfOperand(c, Variable(name), 3, 0);
    case Call(name, args) =>
      SizeOfArguments(c, args);
      ProcessAllConcat(c, ArgsPostOrder(args), [Function(name, Count(args))]);
      SizeOfOperand(ProcessAll(c, ArgsPostOrder(args)), Function(name, Count(args)), Count(args) + 5, 0);
    case Binary(op, l, r) =>
      SizeOfExpression(c, l);
      SizeOfExpression(ProcessAll(c, PostOrder(l)), r);
      ProcessAllConcat(c, PostOrder(l), PostOrder(r));
      ProcessAllConcat(c, PostOrder(l) + PostOrder(r), [MathOperator(Sym(op))]);
      SizeOfOperand(ProcessAll(c, PostOrder(l) + PostOrder(r)), MathOperator(Sym(op)), 4, 0);
  }

  /** The operands that occur in the post-order of a tree. */
  lemma SizeOfOperand(c: Code, operand: Operand, commands: nat, literals: nat)
    requires match operand
             case Constant(_) => commands == 2 && literals == 1
             case Variable(_) => commands == 3 && literals == 0
             case MathOperator(sym) => (sym == '+' || sym == '-' || sym == '*') && commands == 4 && literals == 0
             case Function(_, n) => n > 0 && commands == n + 5 && literals == 0
    ensures Longer(c, ProcessAll(c, [operand]), commands, literals)
  {
    assert [operand][1..] == [];
    if operand.Function? {
      PopsCount(operand.arguments);
    }
  }

  lemma {:induction false} SizeOfArguments(c: Code, es: Exprs)
    ensures Longer(c, ProcessAll(c, ArgsPostOrder(es)), ArgsCommandCount(es), ArgsConstantCount(es))
    decreases es
  {
    match es
    case Single(e) => SizeOfExpression(c, e);
    case More(e, rest) =>
      SizeOfExpression(c, e);
      SizeOfArguments(ProcessAll(c, PostOrder(e)), rest);
      ProcessAllConcat(c, PostOrder(e), ArgsPostOrder(rest));
  }

  lemma {:induction false} SizeOfSymbols(c: Code, externs: seq<Symbol>)
    ensures Longer(c, WithSymbols(c, externs), 0, |externs|)
    decreases |externs|
  {
    if externs != [] {
      SizeOfSymbols(Code(c.symbols[externs[0].name := NextDataWordShift(c.data)], c.commands,
                         c.data + [externs[0].pointer]), externs[1..]);
    }
  }

  /** The code for a text fits in the buffer if and only if the commands and constants of its tree,
      the symbols, and four words around them do. */
  lemma FitsExactly(text: string, s: Source, externs: seq<Symbol>)
    requires Renders(text, s)
    ensures FromInfix(text).Some?
    ensures Fits(Generate(FromInfix(text).value, externs)) <==>
              CommandCount(Tree(s)) + ConstantCount(Tree(s)) + |externs| + 4 <= BUFFER_WORDS
  {
    JitParserProof.FromInfixIsPostOrder(text, s);
    hide FromInfix, Renders, ProcessAll, WithSymbols, CommandCount, ConstantCount, PostOrder;
    SizeOfSymbols(Code(map[], [], []), externs);
    SizeOfExpression(Start(externs), Tree(s));
  }
}
