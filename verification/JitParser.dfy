/** The shunting-yard translation from tokens to reverse Polish notation
    (`ReversePolishNotation::FromInfixString`), as a function of its state and as the loop that
    computes it. */
module JitParser {
  import opened Wrappers
  import opened JitLexer

  /** An element of the reverse Polish notation, the `StackOperand` of the program. */
  datatype Operand =
    | Constant(value: int)
    | MathOperator(sym: char)
    | Function(name: string, arguments: int)
    | Variable(name: string)

  /** The parser between two tokens. The last element of `stack` is its top, and the first one is
      the `Undefined` plug. */
  datatype Parser = Parser(stack: seq<Token>, poliz: seq<Operand>, last: Token, unaryMinus: bool)
  {
    ghost predicate Plugged() { stack != [] && stack[0].Undefined? }
  }

  const START := Parser([Undefined], [], Undefined, false)

  function Top(stack: seq<Token>): Token
    requires stack != []
  {
    stack[|stack| - 1]
  }

  function Pop(stack: seq<Token>): seq<Token>
    requires stack != []
  {
    stack[..|stack| - 1]
  }

  /** `PushTokenToPoliz`; the count is stored in a `uint8_t`. */
  function PushToPoliz(poliz: seq<Operand>, token: Token, args: int): seq<Operand> {
    match token
    case Number(v) => poliz + [Constant(v)]
    case Func(name) => poliz + [Function(name, args % 256)]
    case Var(name) => poliz + [Variable(name)]
    case Operation(c) => poliz + [MathOperator(c)]
    case _ => poliz
  }

  /** A name waits for the token after it: before an opening bracket it is a function. */
  function Settle(p: Parser, token: Token): Parser {
    if !p.last.Name? then p
    else if token.OpenBracket? then
      p.(last := Func(p.last.name), stack := p.stack + [Func(p.last.name)])
    else
      p.(last := Var(p.last.name), poliz := PushToPoliz(p.poliz, Var(p.last.name), 0))
  }

  /** Moves tokens from the stack to the output until an opening bracket is on top. Running past
      the plug is undefined behaviour in the program and `None` here. */
  function PopToBracket(stack: seq<Token>, poliz: seq<Operand>): (r: Option<(seq<Token>, seq<Operand>)>)
    ensures r.Some? ==> r.value.0 != [] && r.value.0 <= stack && Top(r.value.0).OpenBracket?
  {
    if stack == [] then None
    else if Top(stack).OpenBracket? then Some((stack, poliz))
    else PopToBracket(Pop(stack), PushToPoliz(poliz, Top(stack), 0))
  }

  /** Whether a new operator `sym` first sends the operator on top of the stack to the output. */
  predicate Yields(top: Token, sym: char) {
    top.Operation? && (sym != '*' || top.sym == '*')
  }

  function PopOperators(stack: seq<Token>, poliz: seq<Operand>, sym: char): (r: (seq<Token>, seq<Operand>))
    requires stack != [] && stack[0].Undefined?
    ensures r.0 != [] && r.0[0].Undefined?
  {
    if Yields(Top(stack), sym) then PopOperators(Pop(stack), PushToPoliz(poliz, Top(stack), 0), sym)
    else (stack, poliz)
  }

  /** A minus sign here cannot be a subtraction. */
  predicate IsPrefixPosition(last: Token) {
    last.OpenBracket? || last.Comma? || last.Undefined? || last.Operation?
  }

  /** One round of the main loop. */
  function Step(before: Parser, token: Token): (r: Option<Parser>)
    requires before.Plugged()
    ensures r.Some? ==> r.value.Plugged()
  {
    var p := Settle(before, token);
    match token
    case Number(v) =>
      var n := if p.unaryMinus then Number(-v) else token;
      Some(p.(unaryMinus := false, poliz := PushToPoliz(p.poliz, n, 0), last := n))
    case Comma =>
      var popped := PopToBracket(p.stack, p.poliz);
      if popped.None? then None
      else
        var (stack, poliz) := popped.value;
        Some(p.(stack := Pop(stack) + [OpenBracket(Top(stack).args + 1)], poliz := poliz, last := token))
    case OpenBracket(_) =>
      Some(p.(stack := p.stack + [OpenBracket(1)], last := OpenBracket(1)))
    case CloseBracket =>
      var popped := PopToBracket(p.stack, p.poliz);
      if popped.None? || |popped.value.0| < 2 then None
      else
        var (stack, poliz) := popped.value;
        var below := Pop(stack);
        if Top(below).Func? then
          if |below| < 2 then None
          else
            Some(p.(stack := Pop(below), poliz := PushToPoliz(poliz, Top(below), Top(stack).args), last := token))
        else Some(p.(stack := below, poliz := poliz, last := token))
    case Operation(c) =>
      if c == '-' && IsPrefixPosition(p.last) then Some(p.(unaryMinus := true, last := token))
      else
        var (stack, poliz) := PopOperators(p.stack, p.poliz, c);
        Some(p.(stack := stack + [token], poliz := poliz, last := token))
    case _ => Some(p.(last := token))
  }

  /** All rounds of the main loop. */
  function Run(p: Parser, tokens: seq<Token>): (r: Option<Parser>)
    requires p.Plugged()
    ensures r.Some? ==> r.value.Plugged()
    decreases |tokens|
  {
    if tokens == [] then Some(p)
    else
      var next := Step(p, tokens[0]);
      if next.None? then None else Run(next.value, tokens[1..])
  }

  /** The closing loop: everything above the plug goes to the output. */
  function Flush(stack: seq<Token>, poliz: seq<Operand>): seq<Operand>
    requires stack != [] && stack[0].Undefined?
  {
    if Top(stack).Undefined? then poliz
    else Flush(Pop(stack), PushToPoliz(poliz, Top(stack), 0))
  }

  /** The reverse Polish notation of a text; `None` where the program's behaviour is undefined. */
  function FromInfix(expression: string): Option<seq<Operand>> {
    var p := Run(START, Tokens(expression + " "));
    if p.None? then None else Some(Flush(p.value.stack, p.value.poliz))
  }

  /** The loop of the program computes `FromInfix`. */
  method FromInfixString(reader: Reader, expression: string) returns (r: Option<seq<Operand>>)
    modifies reader
    ensures r == FromInfix(expression)
  {
    reader.exprString, reader.pointer := expression + " ", 0;
    var p := START;
    assert reader.Unread() == expression + " ";
    while reader.pointer < |reader.exprString|
      invariant reader.Valid() && p.Plugged()
      invariant Run(START, Tokens(expression + " ")) == Run(p, Tokens(reader.Unread()))
      decreases |reader.Unread()|
    {
      ghost var unread := reader.Unread();
      var token := reader.ReadToken();
      assert Tokens(unread) == [token] + Tokens(reader.Unread());
      var next := ProcessToken(p, token);
      if next.None? { return None; }
      p := next.value;
    }
    var stack, poliz := p.stack, p.poliz;
    while !Top(stack).Undefined?
      invariant stack != [] && stack[0].Undefined?
      invariant Flush(stack, poliz) == Flush(p.stack, p.poliz)
      decreases |stack|
    {
      poliz := PushToPoliz(poliz, Top(stack), 0);
      stack := Pop(stack);
    }
    return Some(poliz);
  }

  /** The body of the main loop: one token against the stack and the output. */
  method ProcessToken(p: Parser, token0: Token) returns (r: Option<Parser>)
    requires p.Plugged()
    ensures r == Step(p, token0)
  {
    var Parser(stack, poliz, last, unaryMinus) := p;
    var token := token0;
    if last.Name? {
      if token.OpenBracket? {
        last := Func(last.name);
        stack := stack + [last];
      } else {
        last := Var(last.name);
        poliz := PushToPoliz(poliz, last, 0);
      }
    }
    match token {
      case Number(v) =>
        if unaryMinus {
          token := Number(v * -1);
          unaryMinus := false;
        }
        poliz := PushToPoliz(poliz, token, 0);
      case Comma =>
        var popped := PopUntilBracket(stack, poliz);
        if popped.None? { return None; }
        stack, poliz := popped.value.0, popped.value.1;
        stack := Pop(stack) + [OpenBracket(Top(stack).args + 1)];
      case OpenBracket(_) =>
        token := OpenBracket(1);
        stack := stack + [token];
      case CloseBracket =>
        var popped := PopUntilBracket(stack, poliz);
        if popped.None? || |popped.value.0| < 2 { return None; }
        stack, poliz := popped.value.0, popped.value.1;
        var args := Top(stack).args;
        stack := Pop(stack);
        if Top(stack).Func? {
          if |stack| < 2 { return None; }
          poliz := PushToPoliz(poliz, Top(stack), args);
          stack := Pop(stack);
        }
      case Operation(c) =>
        if c == '-' && IsPrefixPosition(last) {
          unaryMinus := true;
        } else {
          ghost var settled := (stack, poliz);
          while Yields(Top(stack), c)
            invariant stack != [] && stack[0].Undefined?
            invariant PopOperators(stack, poliz, c) == PopOperators(settled.0, settled.1, c)
            decreases |stack|
          {
            poliz := PushToPoliz(poliz, Top(stack), 0);
            stack := Pop(stack);
          }
          stack := stack + [token];
        }
      case _ =>
    }
    return Some(Parser(stack, poliz, token, unaryMinus));
  }

  /** The popping loop shared by commas and closing brackets. */
  method PopUntilBracket(stack0: seq<Token>, poliz0: seq<Operand>)
    returns (r: Option<(seq<Token>, seq<Operand>)>)
    ensures r == PopToBracket(stack0, poliz0)
  {
    var stack, poliz := stack0, poliz0;
    while stack != [] && !Top(stack).OpenBracket?
      invariant PopToBracket(stack, poliz) == PopToBracket(stack0, poliz0)
      decreases |stack|
    {
      poliz := PushToPoliz(poliz, Top(stack), 0);
      stack := Pop(stack);
    }
    return if stack == [] then None else Some((stack, poliz));
  }
}
