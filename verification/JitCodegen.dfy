/** The code generator of the expression compiler (`ExpressionFuncGenerator`): operands in reverse
    Polish order to ARM words, with a literal pool that grows down from the end of the buffer. */
module JitCodegen {
  import opened ArmMachine
  import opened JitParser

  const BUFFER_SIZE: nat := 0x1000
  const WORD_SIZE: nat := 4
  const BUFFER_WORDS: nat := 1024

  // The instruction words of `arm_commands`.
  const ADD: Word := 0xe0810002
  const SUB: Word := 0xe0410002
  const MUL: Word := 0xe0000291
  const PUSH_R0: Word := 0xe52d0004
  const PUSH_R4_LR: Word := 0xe92d4010
  const POP_R4_LR: Word := 0xe8bd4010
  const LOAD_R4: Word := 0xe5940000
  const GOTO_R4: Word := 0xe1a0f004
  const SAVE_PC: Word := 0xe1a0e00f
  const INCREMENT_LR: Word := 0xe28ee004
  const EXIT: Word := 0xe12fff1e

  function PopR(n: int): Word { ToWord(0xe49d0004 + 0x1000 * n) }

  function LoadConstant(shift: Word): Word { ToWord(0xe59f0000 + shift - 2 * WORD_SIZE) }

  function LoadShiftedAddr(shift: Word): Word { ToWord(0xe59f4000 + shift - 2 * WORD_SIZE) }

  /** A symbol of the table passed to the compiler. */
  datatype Symbol = Symbol(name: string, pointer: Word)

  /** The generator between two operands: where each symbol's address lies in the buffer, the
      commands so far and the words of the literal pool so far. */
  datatype Code = Code(symbols: map<string, Word>, commands: seq<Word>, data: seq<Word>)

  function NextDataWordShift(data: seq<Word>): Word {
    ToWord(BUFFER_SIZE - WORD_SIZE * (|data| + 1))
  }

  /** The distance from the next command to the place `shift` in the buffer, as `addr_t`. */
  function Distance(shift: Word, commands: seq<Word>): Word {
    ToWord(shift - |commands| * WORD_SIZE)
  }

  /** Looking up an absent name in the `std::map` yields zero. */
  function Lookup(symbols: map<string, Word>, name: string): Word {
    if name in symbols then symbols[name] else 0
  }

  /** Pops for registers `n - 1` down to `0`. */
  function Pops(n: nat): seq<Word> {
    if n == 0 then [] else [PopR(n - 1)] + Pops(n - 1)
  }

  function OperatorCode(sym: char): seq<Word> {
    if sym == '*' then [MUL] else if sym == '+' then [ADD] else if sym == '-' then [SUB] else []
  }

  /** The code of one operand without the final push. */
  function OperandCode(c: Code, operand: Operand): seq<Word> {
    match operand
    case Constant(_) => [LoadConstant(Distance(NextDataWordShift(c.data), c.commands))]
    case Variable(name) => [LoadShiftedAddr(Distance(Lookup(c.symbols, name), c.commands)), LOAD_R4]
    case Function(name, n) =>
      var pops := if n > 0 then Pops(n) else [];
      pops + [LoadShiftedAddr(Distance(Lookup(c.symbols, name), c.commands + pops)), SAVE_PC, INCREMENT_LR, GOTO_R4]
    case MathOperator(sym) => [PopR(2), PopR(1)] + OperatorCode(sym)
  }

  function OperandData(operand: Operand): seq<Word> {
    match operand case Constant(v) => [ToWord(v)] case _ => []
  }

  /** `ProcessStackOperand`. */
  function Process(c: Code, operand: Operand): Code {
    Code(c.symbols, c.commands + OperandCode(c, operand) + [PUSH_R0], c.data + OperandData(operand))
  }

  function ProcessAll(c: Code, poliz: seq<Operand>): Code
    decreases |poliz|
  {
    if poliz == [] then c else ProcessAll(Process(c, poliz[0]), poliz[1..])
  }

  /** `SetSymbols`: one pool word per symbol; of equal names the last one counts. */
  function WithSymbols(c: Code, externs: seq<Symbol>): Code
    decreases |externs|
  {
    if externs == [] then c
    else
      WithSymbols(Code(c.symbols[externs[0].name := NextDataWordShift(c.data)], c.commands,
                      c.data + [externs[0].pointer]),
                 externs[1..])
  }

  const EPILOGUE: seq<Word> := [PopR(0), POP_R4_LR, EXIT]

  /** All the commands and data words for an expression. */
  function Generate(poliz: seq<Operand>, externs: seq<Symbol>): Code {
    Finish(ProcessAll(Start(externs), poliz))
  }

  /** The generator after `SetSymbols` and the first command. */
  function Start(externs: seq<Symbol>): Code {
    WithSymbols(Code(map[], [], []), externs).(commands := [PUSH_R4_LR])
  }

  function Finish(c: Code): Code { c.(commands := c.commands + EPILOGUE) }

  predicate Fits(c: Code) { |c.commands| + |c.data| <= BUFFER_WORDS }

  /** Neither the commands nor the literals leave the buffer, although they may meet in it. */
  predicate EachFits(c: Code) { |c.commands| <= BUFFER_WORDS && |c.data| <= BUFFER_WORDS }

  /** What a buffer holds after `WriteCommandsByPtr`, when everything fits. */
  ghost predicate Holds(buffer: seq<Word>, c: Code) {
    && |buffer| == BUFFER_WORDS && Fits(c)
    && (forall i :: 0 <= i < |c.commands| ==> buffer[i] == c.commands[i])
    && forall i :: 0 <= i < |c.data| ==> buffer[BUFFER_WORDS - 1 - i] == c.data[i]
  }

  /** Commands and literals written into a buffer one after the other; where they meet, the literals
      stay. */
  function Written(buffer: seq<Word>, c: Code): (r: seq<Word>)
    requires |buffer| == BUFFER_WORDS
    ensures |r| == BUFFER_WORDS
  {
    seq(BUFFER_WORDS, i requires 0 <= i < BUFFER_WORDS =>
      if BUFFER_WORDS - 1 - i < |c.data| then c.data[BUFFER_WORDS - 1 - i]
      else if i < |c.commands| then c.commands[i]
      else buffer[i])
  }

  lemma WrittenHolds(buffer: seq<Word>, c: Code)
    requires |buffer| == BUFFER_WORDS && Fits(c)
    ensures Holds(Written(buffer, c), c)
  {
  }

  // ---------------------------------------------------------------------------------------------
  // The generator object
  // ---------------------------------------------------------------------------------------------

  class ExpressionFuncGenerator {
    var expression: seq<Operand>
    var symbolsPtr: map<string, Word>
    var programCommands: seq<Word>
    var dataSection: seq<Word>

    ghost function State(): Code
      reads this
    {
      Code(symbolsPtr, programCommands, dataSection)
    }

    constructor (expression: seq<Operand>)
      ensures this.expression == expression && State() == Code(map[], [], [])
    {
      this.expression := expression;
      symbolsPtr, programCommands, dataSection := map[], [], [];
    }

    method SetSymbols(externs: seq<Symbol>)
      modifies this`symbolsPtr, this`dataSection
      ensures State() == WithSymbols(old(State()), externs)
    {
      for i := 0 to |externs|
        invariant WithSymbols(State(), externs[i..]) == WithSymbols(old(State()), externs)
        invariant programCommands == old(programCommands)
      {
        symbolsPtr := symbolsPtr[externs[i].name := NextDataWordShift(dataSection)];
        dataSection := dataSection + [externs[i].pointer];
        assert externs[i..][1..] == externs[i + 1..];
      }
    }

    method PushCommand(cmd: Word)
      modifies this`programCommands
      ensures programCommands == old(programCommands) + [cmd]
    {
      programCommands := programCommands + [cmd];
    }

    method GenerateMachineCommands()
      modifies this`programCommands, this`dataSection
      ensures State() == Finish(ProcessAll(old(State()).(commands := old(programCommands) + [PUSH_R4_LR]), expression))
    {
      PushCommand(PUSH_R4_LR);
      ghost var start := State();
      for i := 0 to |expression|
        invariant ProcessAll(State(), expression[i..]) == ProcessAll(start, expression)
      {
        ProcessStackOperand(expression[i]);
        assert expression[i..][1..] == expression[i + 1..];
      }
      PushCommand(PopR(0));
      PushCommand(POP_R4_LR);
      PushCommand(EXIT);
      assert programCommands == ProcessAll(start, expression).commands + EPILOGUE;
    }

    /** The last argument is on top of the stack. */
    method PopArguments(arguments: int)
      modifies this`programCommands
      ensures programCommands == old(programCommands) + (if arguments > 0 then Pops(arguments) else [])
    {
      var i := arguments - 1;
      while i >= 0
        invariant arguments <= 0 ==> programCommands == old(programCommands)
        invariant arguments > 0 ==>
          -1 <= i < arguments && programCommands + Pops(i + 1) == old(programCommands) + Pops(arguments)
      {
        ghost var soFar := programCommands;
        PushCommand(PopR(i));
        assert programCommands + Pops(i) == soFar + ([PopR(i)] + Pops(i));
        i := i - 1;
      }
    }

    method ProcessStackOperand(operand: Operand)
      modifies this`programCommands, this`dataSection
      ensures State() == Process(old(State()), operand)
    {
      ghost var before := State();
      match operand {
        case Constant(value) =>
          var shift := NextDataWordShift(dataSection);
          dataSection := dataSection + [ToWord(value)];
          PushCommand(LoadConstant(Distance(shift, programCommands)));
          assert programCommands == before.commands + OperandCode(before, operand);
        case Variable(name) =>
          var shift := Lookup(symbolsPtr, name);
          PushCommand(LoadShiftedAddr(Distance(shift, programCommands)));
          PushCommand(LOAD_R4);
          assert programCommands == before.commands + OperandCode(before, operand);
        case Function(name, arguments) =>
          PopArguments(arguments);
          var shift := Lookup(symbolsPtr, name);
          PushCommand(LoadShiftedAddr(Distance(shift, programCommands)));
          PushCommand(SAVE_PC);
          PushCommand(INCREMENT_LR);
          PushCommand(GOTO_R4);
          assert programCommands == before.commands + OperandCode(before, operand);
        case MathOperator(sym) =>
          PushCommand(PopR(2));
          PushCommand(PopR(1));
          if sym == '*' {
            PushCommand(MUL);
          } else if sym == '+' {
            PushCommand(ADD);
          } else if sym == '-' {
            PushCommand(SUB);
          }
          assert programCommands == before.commands + OperandCode(before, operand);
      }
      PushCommand(PUSH_R0);
      assert programCommands == before.commands + OperandCode(before, operand) + [PUSH_R0];
      assert dataSection == before.data + OperandData(operand);
    }

    /** Commands from the start of the buffer up, data from its end down. */
    method WriteCommandsByPtr(buffer: array<Word>)
      requires buffer.Length == BUFFER_WORDS && EachFits(State())
      modifies buffer
      ensures buffer[..] == Written(old(buffer[..]), State())
      ensures Fits(State()) ==> Holds(buffer[..], State())
    {
      for i := 0 to |programCommands|
        invariant forall k :: 0 <= k < i ==> buffer[k] == programCommands[k]
        invariant forall k :: i <= k < BUFFER_WORDS ==> buffer[k] == old(buffer[k])
      {
        buffer[i] := programCommands[i];
      }
      for i := 0 to |dataSection|
        invariant forall k :: 0 <= k < BUFFER_WORDS - i ==>
                    buffer[k] == if k < |programCommands| then programCommands[k] else old(buffer[k])
        invariant forall k :: BUFFER_WORDS - i <= k < BUFFER_WORDS ==> buffer[k] == dataSection[BUFFER_WORDS - 1 - k]
      {
        buffer[BUFFER_WORDS - 1 - i] := dataSection[i];
      }
      assert buffer[..] == Written(old(buffer[..]), State());
      if Fits(State()) {
        WrittenHolds(old(buffer[..]), State());
      }
    }
  }

  lemma {:induction false} NoCommandsYet(c: Code, externs: seq<Symbol>)
    ensures WithSymbols(c, externs).commands == c.commands
    decreases |externs|
  {
    if externs != [] {
      NoCommandsYet(Code(c.symbols[externs[0].name := NextDataWordShift(c.data)], c.commands,
                         c.data + [externs[0].pointer]), externs[1..]);
    }
  }

  /** The buffer holds the code of an expression, commands and literals each in place when they fit. */
  ghost predicate Compiled(before: seq<Word>, after: seq<Word>, poliz: seq<Operand>, externs: seq<Symbol>) {
    var g := Generate(poliz, externs);
    && |before| == BUFFER_WORDS && after == Written(before, g)
    && (Fits(g) ==> Holds(after, g))
  }

  /** The steps of `jit_compile_expression_to_arm` after parsing. */
  method Compile(poliz: seq<Operand>, externs: seq<Symbol>, buffer: array<Word>)
    requires buffer.Length == BUFFER_WORDS && EachFits(Generate(poliz, externs))
    modifies buffer
    ensures Compiled(old(buffer[..]), buffer[..], poliz, externs)
  {
    var generator := new ExpressionFuncGenerator(poliz);
    generator.SetSymbols(externs);
    NoCommandsYet(Code(map[], [], []), externs);
    assert [] + [PUSH_R4_LR] == [PUSH_R4_LR];
    generator.GenerateMachineCommands();
    generator.WriteCommandsByPtr(buffer);
  }
}
