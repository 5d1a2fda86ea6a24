/** The meaning of expressions over the integers, and the stack evaluation of their reverse Polish
    form over 32-bit words. */
module JitSemantics {
  import opened Wrappers
  import opened ArmMachine
  import opened JitParser
  import opened JitSyntax
  import opened JitCodegen

  /** What names refer to: the symbol table, the external functions, and memory as it is when the
      compiled code is entered, with the stack below `stackTop`. */
  datatype World = World(externs: seq<Symbol>, env: Env, mem: map<Word, Word>, stackTop: Word)

  predicate Known(externs: seq<Symbol>, name: string) {
    externs != [] && (externs[|externs| - 1].name == name || Known(externs[..|externs| - 1], name))
  }

  /** Of equally named symbols the last one counts. */
  function Last(externs: seq<Symbol>, name: string): (i: nat)
    requires Known(externs, name)
    ensures i < |externs| && externs[i].name == name
    ensures forall j :: i < j < |externs| ==> externs[j].name != name
  {
    if externs[|externs| - 1].name == name then |externs| - 1 else Last(externs[..|externs| - 1], name)
  }

  function Address(w: World, name: string): Word
    requires Known(w.externs, name)
  {
    w.externs[Last(w.externs, name)].pointer
  }

  predicate IsVariable(w: World, name: string) {
    Known(w.externs, name) &&
    var a := Address(w, name);
    a % 4 == 0 && a in w.mem && !(w.env.stackLimit <= a < w.stackTop)
  }

  predicate IsFunction(w: World, name: string, arguments: int) {
    Known(w.externs, name) &&
    var a := Address(w, name);
    a % 4 == 0 && a in w.env.externs && w.env.externs[a].arity == arguments && 1 <= arguments <= 4
  }

  /** Every name is in the symbol table, calls pass as many arguments as the function takes (at
      most four), and constants are in the range of a negatable C `int`. */
  ghost predicate Defined(e: Expr, w: World) {
    match e
    case Literal(v) => -0x7fff_ffff <= v <= 0x7fff_ffff
    case Ref(name) => IsVariable(w, name)
    case Call(name, args) => IsFunction(w, name, Count(args)) && ArgsDefined(args, w)
    case Binary(_, l, r) => Defined(l, w) && Defined(r, w)
  }

  ghost predicate ArgsDefined(es: Exprs, w: World) {
    match es
    case Single(e) => Defined(e, w)
    case More(e, rest) => Defined(e, w) && ArgsDefined(rest, w)
  }

  /** The value of an expression: exact integer arithmetic, reduced to words only where arguments
      are passed to external functions. */
  ghost function Value(e: Expr, w: World): int
    requires Defined(e, w)
  {
    match e
    case Literal(v) => v
    case Ref(name) => w.mem[Address(w, name)]
    case Call(name, args) => w.env.externs[Address(w, name)].result(Values(args, w))
    case Binary(Add, l, r) => Value(l, w) + Value(r, w)
    case Binary(Sub, l, r) => Value(l, w) - Value(r, w)
    case Binary(Mul, l, r) => Value(l, w) * Value(r, w)
  }

  ghost function Values(es: Exprs, w: World): (vs: seq<Word>)
    requires ArgsDefined(es, w)
    ensures |vs| == Count(es)
  {
    match es
    case Single(e) => [ToWord(Value(e, w))]
    case More(e, rest) => [ToWord(Value(e, w))] + Values(rest, w)
  }

  /** One operand of the reverse Polish form against a stack of words, the last one on top. */
  function Apply(w: World, vals: seq<Word>, operand: Operand): Option<seq<Word>> {
    match operand
    case Constant(v) => Some(vals + [ToWord(v)])
    case Variable(name) => if IsVariable(w, name) then Some(vals + [w.mem[Address(w, name)]]) else None
    case Function(name, n) =>
      if IsFunction(w, name, n) && n <= |vals| then
        Some(vals[..|vals| - n] + [w.env.externs[Address(w, name)].result(vals[|vals| - n..])])
      else None
    case MathOperator(sym) =>
      if |vals| < 2 then None
      else
        var a, b := vals[|vals| - 2] as int, vals[|vals| - 1] as int;
        var rest := vals[..|vals| - 2];
        if sym == '*' then Some(rest + [ToWord(a * b)])
        else if sym == '+' then Some(rest + [ToWord(a + b)])
        else if sym == '-' then Some(rest + [ToWord(a - b)])
        else None
  }

  function Evaluate(w: World, vals: seq<Word>, poliz: seq<Operand>): Option<seq<Word>>
    decreases |poliz|
  {
    if poliz == [] then Some(vals)
    else
      var next := Apply(w, vals, poliz[0]);
      if next.None? then None else Evaluate(w, next.value, poliz[1..])
  }

  lemma ReduceSum(a: int, b: int)
    ensures ToWord(ToWord(a) as int + ToWord(b) as int) == ToWord(a + b)
    ensures ToWord(ToWord(a) as int - ToWord(b) as int) == ToWord(a - b)
  {
    var qa, qb := a / WORD, b / WORD;
    var ra, rb := a % WORD, b % WORD;
    assert a == WORD * qa + ra && b == WORD * qb + rb;
    AddMultiple(ra + rb, qa + qb);
    AddMultiple(ra - rb, qa - qb);
  }

  lemma ReduceProduct(a: int, b: int)
    ensures ToWord(ToWord(a) as int * ToWord(b) as int) == ToWord(a * b)
  {
    var qa, qb := a / WORD, b / WORD;
    var ra, rb := a % WORD, b % WORD;
    calc {
      a * b;
      (WORD * qa + ra) * b;
      WORD * (qa * b) + ra * b;
      { assert ra * b == ra * (WORD * qb + rb) == WORD * (ra * qb) + ra * rb; }
      WORD * (qa * b) + WORD * (ra * qb) + ra * rb;
      ra * rb + WORD * (qa * b + ra * qb);
    }
    AddMultiple(ra * rb, qa * b + ra * qb);
  }

  lemma AddMultiple(x: int, k: int)
    ensures ToWord(x + WORD * k) == ToWord(x)
  {
  }

  lemma EvaluateOne(w: World, vals: seq<Word>, operand: Operand, rest: seq<Operand>)
    requires Apply(w, vals, operand).Some?
    ensures Evaluate(w, vals, [operand] + rest) == Evaluate(w, Apply(w, vals, operand).value, rest)
  {
    assert ([operand] + rest)[1..] == rest;
  }

  /** Evaluating the post-order of a tree pushes exactly its value, reduced to a word, and leaves
      the stack below it alone. */
  lemma {:induction false} EvaluatePostOrder(e: Expr, w: World, vals: seq<Word>, rest: seq<Operand>)
    requires Defined(e, w)
    ensures Evaluate(w, vals, PostOrder(e) + rest) == Evaluate(w, vals + [ToWord(Value(e, w))], rest)
    decreases e
  {
    hide Apply, Evaluate;
    match e
    case Literal(v) =>
      ApplyLeaf(w, vals, e);
      EvaluateOne(w, vals, Constant(v), rest);
    case Ref(name) =>
      ApplyLeaf(w, vals, e);
      EvaluateOne(w, vals, Variable(name), rest);
    case Call(name, args) =>
      var operand := Function(name, Count(args));
      EvaluateArgs(args, w, vals, [operand] + rest);
      assert PostOrder(e) + rest == ArgsPostOrder(args) + ([operand] + rest);
      ApplyCall(w, vals, Values(args, w), name);
      EvaluateOne(w, vals + Values(args, w), operand, rest);
    case Binary(op, l, r) =>
      var operand := MathOperator(Sym(op));
      EvaluatePostOrder(l, w, vals, PostOrder(r) + [operand] + rest);
      assert PostOrder(e) + rest == PostOrder(l) + (PostOrder(r) + [operand] + rest);
      var vals1 := vals + [ToWord(Value(l, w))];
      EvaluatePostOrder(r, w, vals1, [operand] + rest);
      assert PostOrder(r) + [operand] + rest == PostOrder(r) + ([operand] + rest);
      ApplyBinary(w, vals, op, Value(l, w), Value(r, w));
      EvaluateOne(w, vals1 + [ToWord(Value(r, w))], operand, rest);
  }

  lemma ApplyLeaf(w: World, vals: seq<Word>, e: Expr)
    requires Defined(e, w) && (e.Literal? || e.Ref?)
    ensures Apply(w, vals, if e.Literal? then Constant(e.value) else Variable(e.name))
         == Some(vals + [ToWord(Value(e, w))])
  {
  }

  lemma ApplyCall(w: World, vals: seq<Word>, args: seq<Word>, name: string)
    requires IsFunction(w, name, |args|)
    ensures Apply(w, vals + args, Function(name, |args|))
         == Some(vals + [ToWord(w.env.externs[Address(w, name)].result(args))])
  {
    assert (vals + args)[..|vals|] == vals && (vals + args)[|vals|..] == args;
  }

  lemma ApplyBinary(w: World, vals: seq<Word>, op: BinOp, a: int, b: int)
    ensures Apply(w, vals + [ToWord(a)] + [ToWord(b)], MathOperator(Sym(op)))
         == Some(vals + [ToWord(match op case Add => a + b case Sub => a - b case Mul => a * b)])
  {
    var x, y := ToWord(a), ToWord(b);
    ReduceSum(a, b);
    ReduceProduct(a, b);
    hide ToWord;
    var stack := vals + [x] + [y];
    assert stack[..|vals|] == vals && stack[|vals|] == x && stack[|vals| + 1] == y;
  }

  lemma {:induction false} EvaluateArgs(es: Exprs, w: World, vals: seq<Word>, rest: seq<Operand>)
    requires ArgsDefined(es, w)
    ensures Evaluate(w, vals, ArgsPostOrder(es) + rest) == Evaluate(w, vals + Values(es, w), rest)
    decreases es
  {
    hide Apply, Evaluate;
    match es
    case Single(e) => EvaluatePostOrder(e, w, vals, rest);
    case More(e, more) =>
      EvaluatePostOrder(e, w, vals, ArgsPostOrder(more) + rest);
      assert ArgsPostOrder(es) + rest == PostOrder(e) + (ArgsPostOrder(more) + rest);
      EvaluateArgs(more, w, vals + [ToWord(Value(e, w))], rest);
      assert vals + Values(es, w) == vals + [ToWord(Value(e, w))] + Values(more, w);
  }
}
