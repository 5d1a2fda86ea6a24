/** The expression compiler is correct: running the generated buffer computes the expression. */
module JitCorrect {
  import opened Wrappers
  import opened Sequences
  import opened ArmMachine
  import opened JitLexer
  import opened JitParser
  import opened JitSyntax
  import JitParserProof
  import opened JitCodegen
  import opened JitInstructions
  import opened JitMachineProof
  import opened JitSemantics

  // ---------------------------------------------------------------------------------------------
  // Layout of the buffer
  // ---------------------------------------------------------------------------------------------

  /** `c` is the generator at an earlier moment of generating `g`. */
  ghost predicate Earlier(c: Code, g: Code) {
    c.commands <= g.commands && c.data <= g.data && c.symbols == g.symbols
  }

  lemma {:induction false} ProcessAllGrows(c: Code, poliz: seq<Operand>)
    ensures Earlier(c, ProcessAll(c, poliz))
    ensures |ProcessAll(c, poliz).commands| >= |c.commands| + |poliz|
    decreases |poliz|
  {
    if poliz != [] {
      hide OperandCode, OperandData;
      ProcessAllGrows(Process(c, poliz[0]), poliz[1..]);
    }
  }

  /** A pool word `d` reached from command `k`: the offset is in range, exact, and lands behind
      the last command. */
  lemma PoolReach(g: Code, k: nat, d: nat, commands: seq<Word>)
    requires Fits(g) && d < |g.data| && |commands| == k && k + 2 <= |g.commands|
    ensures var shift := Distance(ToWord(BUFFER_SIZE - WORD_SIZE * (d + 1)), commands);
            && 8 <= shift <= 4095 + 8
            && WORD_SIZE * k + shift == WORD_SIZE * (BUFFER_WORDS - 1 - d)
            && BUFFER_WORDS - 1 - d >= |g.commands|
  {
    var at := BUFFER_SIZE - WORD_SIZE * (d + 1);
    assert 0 <= at < BUFFER_SIZE && 0 <= at - WORD_SIZE * k < BUFFER_SIZE;
  }

  /** The pool starts with the symbols' pointers, and the map leads to the last one of a name. */
  lemma {:induction false} SymbolsLaid(externs: seq<Symbol>)
    ensures var c := WithSymbols(Code(map[], [], []), externs);
            && |c.data| == |externs|
            && (forall i :: 0 <= i < |externs| ==> c.data[i] == externs[i].pointer)
            && forall name :: Known(externs, name) ==>
                 name in c.symbols && c.symbols[name] == ToWord(BUFFER_SIZE - WORD_SIZE * (Last(externs, name) + 1))
    decreases |externs|
  {
    if externs != [] {
      var front, e := externs[..|externs| - 1], externs[|externs| - 1];
      SymbolsLaid(front);
      WithSymbolsSnoc(Code(map[], [], []), front, e);
      assert externs == front + [e];
    }
  }

  lemma {:induction false} WithSymbolsSnoc(c: Code, externs: seq<Symbol>, e: Symbol)
    ensures WithSymbols(c, externs + [e]) == WithSymbols(WithSymbols(c, externs), [e])
    decreases |externs|
  {
    if externs == [] {
      assert externs + [e] == [e];
    } else {
      assert (externs + [e])[1..] == externs[1..] + [e];
      WithSymbolsSnoc(Code(c.symbols[externs[0].name := NextDataWordShift(c.data)], c.commands,
                           c.data + [externs[0].pointer]), externs[1..], e);
    }
  }

  // ---------------------------------------------------------------------------------------------
  // One operand
  // ---------------------------------------------------------------------------------------------

  /** A running call of the code `g` generated with the symbols of `w`. */
  ghost predicate Running(f: Activation, w: World, g: Code, room: nat) {
    && f.Valid() && f.Ready(room) && Holds(f.buffer, g)
    && w.env == f.env && w.mem == f.entry.mem && w.stackTop == f.entry.r[SP]
    && SymbolsIn(g, w.externs)
  }

  /** Every symbol's pointer is in the pool, at the place the symbol map says. */
  ghost predicate SymbolsIn(g: Code, externs: seq<Symbol>) {
    && |externs| <= |g.data|
    && (forall i :: 0 <= i < |externs| ==> g.data[i] == externs[i].pointer)
    && forall name :: Known(externs, name) ==>
         name in g.symbols && g.symbols[name] == ToWord(BUFFER_SIZE - WORD_SIZE * (Last(externs, name) + 1))
  }

  /** The words pushed on entry. */
  function Saved(f: Activation): seq<Word>
    requires |f.entry.r| == 16
  {
    [f.entry.r[LR], f.entry.r[4]]
  }

  /** Loading pool word `d` into `r0` or `r4`. */
  lemma RunLoad(f: Activation, w: World, g: Code, room: nat, s: Cpu, k: nat, cells: seq<Word>,
                rd: nat, d: nat, commands: seq<Word>)
    returns (t: Cpu)
    requires Running(f, w, g, room) && At(f, s, k, cells) && (rd == 0 || rd == 4)
    requires d < |g.data| && |commands| == k && k + 2 <= |g.commands|
    requires var shift := Distance(ToWord(BUFFER_SIZE - WORD_SIZE * (d + 1)), commands);
             g.commands[k] == (if rd == 0 then LoadConstant(shift) else LoadShiftedAddr(shift))
    ensures Steps(f, s, t) && At(f, t, k + 1, cells) && t.mem == s.mem && t.r[rd] == g.data[d]
    ensures forall j :: 0 <= j <= 4 && j != rd ==> t.r[j] == s.r[j]
  {
    hide Execute, Decode, ArmMachine.Step, Env.Standard, SymbolsIn;
    PoolReach(g, k, d, commands);
    var shift := Distance(ToWord(BUFFER_SIZE - WORD_SIZE * (d + 1)), commands);
    assert f.CodeAt(BUFFER_WORDS - 1 - d);
    assert s.r[PC] + shift == f.base + WORD_SIZE * (BUFFER_WORDS - 1 - d);
    assert s.mem[s.r[PC] + shift] == g.data[d];
    hide Distance, ToWord;
    ExecuteLiteralLoad(s, shift, rd);
    t := StepRegister(f, s, k, cells, room, rd, g.data[d]);
  }

  /** The pops before a call put the arguments into the first registers, in order. */
  lemma {:induction false} RunPops(f: Activation, s: Cpu, k: nat, cells: seq<Word>, room: nat, n: nat)
    returns (t: Cpu)
    requires f.Valid() && f.Ready(room) && At(f, s, k, cells) && n <= 4 && n <= |cells|
    requires k + n < BUFFER_WORDS && f.buffer[k..k + n] == Pops(n)
    ensures Reaches(f.env, s, n, t) && At(f, t, k + n, cells[..|cells| - n])
    ensures forall j :: 0 <= j < n ==> t.r[j] == cells[|cells| - n + j]
    ensures forall j :: n <= j <= 4 ==> t.r[j] == s.r[j]
    decreases n
  {
    hide Execute, Decode, ArmMachine.Step, Env.Standard, Activation.Ready, Pops;
    if n == 0 {
      t := s;
      assert cells[..|cells|] == cells;
    } else {
      FirstPop(f.buffer, k, n);
      var u := StepPop(f, s, k, cells, room, n - 1);
      t := RunPops(f, u, k + 1, cells[..|cells| - 1], room, n - 1);
      assert cells[..|cells| - 1][..|cells| - n] == cells[..|cells| - n];
    }
  }

  lemma FirstPop(buffer: seq<Word>, k: nat, n: nat)
    requires 0 < n <= 4 && k + n < |buffer| && buffer[k..k + n] == Pops(n)
    ensures buffer[k] == PopR(n - 1) && buffer[k + 1..k + n] == Pops(n - 1)
  {
    assert buffer[k] == buffer[k..k + n][0];
    assert buffer[k + 1..k + n] == buffer[k..k + n][1..];
  }

  /** Registers up to `n` agree when `r0` to `r4` do. */
  lemma SameArguments(s: Cpu, t: Cpu, n: nat)
    requires s.Valid() && t.Valid() && n <= 4 && forall j :: 0 <= j <= 4 ==> s.r[j] == t.r[j]
    ensures s.r[..n] == t.r[..n]
  {
  }

  /** Saving the return address, jumping through `r4`, and the external function itself. */
  lemma RunCall(f: Activation, s: Cpu, k: nat, cells: seq<Word>, room: nat) returns (t: Cpu)
    requires f.Valid() && f.Ready(room) && At(f, s, k, cells) && k + 3 < BUFFER_WORDS - 1
    requires f.buffer[k] == SAVE_PC && f.buffer[k + 1] == INCREMENT_LR && f.buffer[k + 2] == GOTO_R4
    requires s.r[4] % 4 == 0 && s.r[4] in f.env.externs
    ensures Reaches(f.env, s, 4, t) && At(f, t, k + 3, cells)
    ensures var e := f.env.externs[s.r[4]]; e.arity <= 4 && t.r[0] == e.result(s.r[..e.arity])
  {
    hide Execute, Decode, ArmMachine.Step, Env.Standard;
    var s2 := LinkReturn(f, s, k, cells, room);
    var s3 := JumpToExtern(f, s2, k + 2, cells, room);
    t := ReturnFromExtern(f, s3, k + 3, cells);
    SameArguments(s3, s, f.env.externs[s.r[4]].arity);
    ReachesStep(f.env, s, 2, s2, s3);
    ReachesStep(f.env, s, 3, s3, t);
  }

  lemma LinkReturn(f: Activation, s: Cpu, k: nat, cells: seq<Word>, room: nat) returns (t: Cpu)
    requires f.Valid() && f.Ready(room) && At(f, s, k, cells) && k + 2 < BUFFER_WORDS - 1
    requires f.buffer[k] == SAVE_PC && f.buffer[k + 1] == INCREMENT_LR
    ensures Reaches(f.env, s, 2, t) && At(f, t, k + 2, cells)
    ensures t.r[LR] == f.base + WORD_SIZE * (k + 3) && forall j :: 0 <= j <= 4 ==> t.r[j] == s.r[j]
  {
    hide Execute, Decode, ArmMachine.Step, Env.Standard;
    ExecuteSavePc(s);
    var u := StepRegister(f, s, k, cells, room, LR, s.r[PC] + 8);
    ExecuteIncrementLr(u);
    t := StepRegister(f, u, k + 1, cells, room, LR, u.r[LR] + 4);
    assert Reaches(f.env, t, 0, t);
    assert Reaches(f.env, u, 1, t);
  }

  /** About to run the external function whose address was in `r4`. */
  ghost predicate AtExtern(f: Activation, s: Cpu, k: nat, cells: seq<Word>)
    requires f.Valid()
  {
    && s.Valid() && s.r[PC] == s.r[4] && s.r[LR] == f.base + WORD_SIZE * k
    && At(f, s.(r := s.r[PC := s.r[LR]]), k, cells)
  }

  lemma JumpToExtern(f: Activation, s: Cpu, k: nat, cells: seq<Word>, room: nat) returns (t: Cpu)
    requires f.Valid() && f.Ready(room) && At(f, s, k, cells) && k < BUFFER_WORDS - 1
    requires f.buffer[k] == GOTO_R4 && s.r[4] % 4 == 0 && s.r[LR] == f.base + WORD_SIZE * (k + 1)
    ensures Steps(f, s, t) && AtExtern(f, t, k + 1, cells)
    ensures forall j :: 0 <= j < PC ==> t.r[j] == s.r[j]
  {
    hide Execute, Decode, ArmMachine.Step, Env.Standard;
    Fetch(f, s, k, cells, room);
    ExecuteJumps(s);
    t := s.(r := s.r[PC := s.r[4]]);
    var u := t.(r := t.r[PC := t.r[LR]]);
    forall i | 0 <= i < |cells|
      ensures MemoryIs(u, Cell(f.entry.r[SP], i), cells[i])
    {
      assert MemoryIs(s, Cell(f.entry.r[SP], i), cells[i]);
    }
  }

  lemma ReturnFromExtern(f: Activation, s: Cpu, k: nat, cells: seq<Word>) returns (t: Cpu)
    requires f.Valid() && AtExtern(f, s, k, cells) && s.r[PC] in f.env.externs
    ensures Steps(f, s, t) && At(f, t, k, cells)
    ensures var e := f.env.externs[s.r[PC]]; e.arity <= 4 && t.r[0] == e.result(s.r[..e.arity])
  {
    hide Execute, Decode, At;
    var e := f.env.externs[s.r[PC]];
    assert f.env.Returns(e, s);
    t := e.effect(s);
    var u := s.(r := s.r[PC := s.r[LR]]);
    assert u.r[4..12] == s.r[4..12];
    StackSurvives(f, u, t, k, cells);
  }

  /** Writing below the stack pointer disturbs nothing that `At` speaks of. */
  lemma StackSurvives(f: Activation, s: Cpu, t: Cpu, k: nat, cells: seq<Word>)
    requires f.Valid() && At(f, s, k, cells) && t.Valid()
    requires t.r[PC] == s.r[PC] && t.r[SP] == s.r[SP] && t.r[4..12] == s.r[4..12]
    requires t.mem.Keys == s.mem.Keys
    requires forall x :: x in s.mem && !(f.env.stackLimit <= x < s.r[SP]) ==> t.mem[x] == s.mem[x]
    ensures At(f, t, k, cells)
  {
    forall i | 0 <= i < |cells|
      ensures MemoryIs(t, Cell(f.entry.r[SP], i), cells[i])
    {
      assert MemoryIs(s, Cell(f.entry.r[SP], i), cells[i]);
    }
    assert t.r[5..12] == t.r[4..12][1..] == s.r[4..12][1..] == s.r[5..12];
  }

  /** Command words `code` are in the buffer from command `k` on, and at least four follow them. */
  ghost predicate Loaded(f: Activation, g: Code, k: nat, code: seq<Word>) {
    && |f.buffer| == BUFFER_WORDS && k + |code| + 4 <= |g.commands| <= BUFFER_WORDS
    && f.buffer[k..k + |code|] == g.commands[k..k + |code|] == code
  }

  lemma LoadedAt(f: Activation, g: Code, k: nat, code: seq<Word>, i: nat)
    requires Loaded(f, g, k, code) && i < |code|
    ensures f.buffer[k + i] == g.commands[k + i] == code[i]
  {
    assert f.buffer[k..k + |code|][i] == g.commands[k..k + |code|][i] == code[i];
  }

  function PoolShift(d: nat, commands: seq<Word>): Word {
    Distance(ToWord(BUFFER_SIZE - WORD_SIZE * (d + 1)), commands)
  }

  lemma RunConstant(f: Activation, w: World, g: Code, room: nat, commands: seq<Word>, s: Cpu, cells: seq<Word>, d: nat)
    returns (t: Cpu)
    requires Running(f, w, g, room) && At(f, s, |commands|, cells) && d < |g.data|
    requires Loaded(f, g, |commands|, [LoadConstant(PoolShift(d, commands))])
    ensures Reaches(f.env, s, 1, t) && At(f, t, |commands| + 1, cells) && t.r[0] == g.data[d]
  {
    hide Execute, Decode, ArmMachine.Step, Env.Standard;
    LoadedAt(f, g, |commands|, [LoadConstant(PoolShift(d, commands))], 0);
    t := RunLoad(f, w, g, room, s, |commands|, cells, 0, d, commands);
    assert Reaches(f.env, t, 0, t);
  }

  lemma RunVariable(f: Activation, w: World, g: Code, room: nat, commands: seq<Word>, s: Cpu, cells: seq<Word>,
                    name: string)
    returns (t: Cpu)
    requires Running(f, w, g, room) && At(f, s, |commands|, cells) && IsVariable(w, name)
    requires Loaded(f, g, |commands|, [LoadShiftedAddr(PoolShift(Last(w.externs, name), commands)), LOAD_R4])
    ensures Reaches(f.env, s, 2, t) && At(f, t, |commands| + 2, cells) && t.r[0] == w.mem[Address(w, name)]
  {
    hide Execute, Decode, ArmMachine.Step, Env.Standard;
    var k := |commands|;
    var code := [LoadShiftedAddr(PoolShift(Last(w.externs, name), commands)), LOAD_R4];
    LoadedAt(f, g, k, code, 0);
    LoadedAt(f, g, k, code, 1);
    var u := RunLoad(f, w, g, room, s, k, cells, 4, Last(w.externs, name), commands);
    assert u.r[4] == Address(w, name);
    assert u.mem[u.r[4]] == w.mem[Address(w, name)];
    ExecuteLoadR4(u);
    t := StepRegister(f, u, k + 1, cells, room, 0, u.mem[u.r[4]]);
    assert Reaches(f.env, t, 0, t);
    assert Reaches(f.env, u, 1, t);
  }

  function Combine(sym: char, a: Word, b: Word): Word {
    var x, y := a as int, b as int;
    ToWord(if sym == '*' then x * y else if sym == '+' then x + y else x - y)
  }

  lemma RunOperator(f: Activation, g: Code, room: nat, k: nat, s: Cpu, cells: seq<Word>, sym: char, a: Word, b: Word)
    returns (t: Cpu)
    requires f.Valid() && f.Ready(room) && At(f, s, k, cells + [a, b]) && IsOperator(sym)
    requires Loaded(f, g, k, [PopR(2), PopR(1)] + OperatorCode(sym))
    ensures Reaches(f.env, s, 3, t) && At(f, t, k + 3, cells) && t.r[0] == Combine(sym, a, b)
  {
    hide Execute, Decode, ArmMachine.Step, Env.Standard;
    var code := [PopR(2), PopR(1)] + OperatorCode(sym);
    LoadedAt(f, g, k, code, 0);
    LoadedAt(f, g, k, code, 1);
    LoadedAt(f, g, k, code, 2);
    var u1 := StepPop(f, s, k, cells + [a, b], room, 2);
    assert (cells + [a, b])[..|cells| + 1] == cells + [a];
    var u2 := StepPop(f, u1, k + 1, cells + [a], room, 1);
    assert (cells + [a])[..|cells|] == cells;
    assert u2.r[1] == a && u2.r[2] == b;
    ExecuteArithmetic(u2);
    t := StepRegister(f, u2, k + 2, cells, room, 0, Combine(sym, a, b));
    assert Reaches(f.env, t, 0, t);
    assert Reaches(f.env, u2, 1, t);
    assert Reaches(f.env, u1, 2, t);
  }

  lemma RunFunction(f: Activation, w: World, g: Code, room: nat, commands: seq<Word>, s: Cpu,
                    cells: seq<Word>, args: seq<Word>, name: string)
    returns (t: Cpu)
    requires Running(f, w, g, room) && At(f, s, |commands|, cells + args) && IsFunction(w, name, |args|)
    requires Loaded(f, g, |commands|, CallCode(w, commands, |args|, name))
    ensures Reaches(f.env, s, |args| + 5, t) && At(f, t, |commands| + |args| + 4, cells)
    ensures t.r[0] == w.env.externs[Address(w, name)].result(args)
  {
    hide Execute, Decode, ArmMachine.Step, Env.Standard, SymbolsIn, Holds;
    var k, m := |commands|, |args|;
    var code := CallCode(w, commands, m, name);
    PopsLength(m);
    assert f.buffer[k..k + m] == f.buffer[k..k + |code|][..m] == code[..m] == Pops(m);
    var u := RunPops(f, s, k, cells + args, room, m);
    assert (cells + args)[..|cells|] == cells && (cells + args)[|cells|..] == args;
    assert u.r[..m] == args;
    t := RunJump(f, w, g, room, commands + Pops(m), u, cells, name, code, m);
    ReachesTrans(f.env, s, m, u, 5, t);
  }

  /** After the pops: loading the function's address and calling it. */
  lemma RunJump(f: Activation, w: World, g: Code, room: nat, commands: seq<Word>, s: Cpu, cells: seq<Word>,
                name: string, code: seq<Word>, m: nat)
    returns (t: Cpu)
    requires Running(f, w, g, room) && At(f, s, |commands|, cells) && IsFunction(w, name, m)
    requires m <= |commands| && Loaded(f, g, |commands| - m, code) && |code| == m + 4
    requires code[m..] == [LoadShiftedAddr(PoolShift(Last(w.externs, name), commands)), SAVE_PC, INCREMENT_LR, GOTO_R4]
    ensures Reaches(f.env, s, 5, t) && At(f, t, |commands| + 4, cells)
    ensures t.r[0] == w.env.externs[Address(w, name)].result(s.r[..m])
  {
    hide Execute, Decode, ArmMachine.Step, Env.Standard;
    var k := |commands|;
    LoadedAt(f, g, k - m, code, m);
    LoadedAt(f, g, k - m, code, m + 1);
    LoadedAt(f, g, k - m, code, m + 2);
    LoadedAt(f, g, k - m, code, m + 3);
    assert code[m] == code[m..][0] && code[m + 1] == code[m..][1];
    assert code[m + 2] == code[m..][2] && code[m + 3] == code[m..][3];
    hide Loaded, Holds, PoolShift, IsFunction, Last, SymbolsIn;
    var u := RunLoad(f, w, g, room, s, k, cells, 4, Last(w.externs, name), commands);
    assert u.r[4] == Address(w, name);
    t := RunCall(f, u, k + 1, cells, room);
    assert u.r[..m] == s.r[..m];
    assert Reaches(f.env, u, 4, t);
  }

  function CallCode(w: World, commands: seq<Word>, n: nat, name: string): seq<Word>
    requires Known(w.externs, name)
  {
    Pops(n) + [LoadShiftedAddr(PoolShift(Last(w.externs, name), commands + Pops(n))), SAVE_PC, INCREMENT_LR, GOTO_R4]
  }

  lemma {:induction false} PopsLength(n: nat)
    ensures |Pops(n)| == n
  {
    if n > 0 {
      PopsLength(n - 1);
    }
  }

  /** In the buffer, the code of an operand stands where the generator put it. */
  lemma OperandLoaded(f: Activation, g: Code, c: Code, operand: Operand)
    requires Holds(f.buffer, g) && Earlier(Process(c, operand), g)
    requires |Process(c, operand).commands| + 3 <= |g.commands|
    ensures Loaded(f, g, |c.commands|, OperandCode(c, operand))
    ensures f.buffer[|c.commands| + |OperandCode(c, operand)|] == PUSH_R0
    ensures operand.Constant? ==> |c.data| < |g.data| && g.data[|c.data|] == ToWord(operand.value)
  {
    var code := OperandCode(c, operand);
    var all := Process(c, operand).commands;
    var k := |c.commands|;
    assert g.commands[..|all|] == all;
    assert all[k..k + |code|] == code && all[k + |code|] == PUSH_R0;
    assert g.commands[k..k + |code|] == g.commands[..|all|][k..k + |code|];
    assert f.buffer[k..k + |code|] == g.commands[k..k + |code|];
    if operand.Constant? {
      assert Process(c, operand).data[|c.data|] == ToWord(operand.value);
    }
  }

  lemma AtValid(f: Activation, s: Cpu, k: nat, cells: seq<Word>)
    requires f.Valid() && At(f, s, k, cells)
    ensures s.Valid()
  {
  }

  /** The code of an operand, with the symbol map resolved. */
  lemma OperandCodeIs(w: World, g: Code, c: Code, operand: Operand, vals: seq<Word>)
    requires SymbolsIn(g, w.externs) && c.symbols == g.symbols && Apply(w, vals, operand).Some?
    ensures var code := OperandCode(c, operand);
            match operand
            case Constant(_) => code == [LoadConstant(PoolShift(|c.data|, c.commands))]
            case Variable(name) =>
              code == [LoadShiftedAddr(PoolShift(Last(w.externs, name), c.commands)), LOAD_R4]
            case MathOperator(sym) => code == [PopR(2), PopR(1)] + OperatorCode(sym) && |code| == 3
            case Function(name, m) => code == CallCode(w, c.commands, m, name) && |code| == m + 4
  {
    hide SymbolsIn, Distance, Lookup, PoolShift, Pops, NextDataWordShift;
    match operand
    case Constant(_) => LiteralShift(c);
    case Variable(name) => SymbolShift(w, g, c, name, c.commands);
    case MathOperator(sym) =>
    case Function(name, m) =>
      PopsLength(m);
      SymbolShift(w, g, c, name, c.commands + Pops(m));
  }

  lemma LiteralShift(c: Code)
    ensures Distance(NextDataWordShift(c.data), c.commands) == PoolShift(|c.data|, c.commands)
  {
  }

  lemma SymbolShift(w: World, g: Code, c: Code, name: string, commands: seq<Word>)
    requires SymbolsIn(g, w.externs) && c.symbols == g.symbols && Known(w.externs, name)
    ensures Distance(Lookup(c.symbols, name), commands) == PoolShift(Last(w.externs, name), commands)
  {
  }

  lemma TopWords(below: seq<Word>, vals: seq<Word>, m: nat)
    requires m <= |vals|
    ensures below + vals == below + vals[..|vals| - m] + vals[|vals| - m..]
    ensures m == 2 ==> vals[|vals| - 2..] == [vals[|vals| - 2], vals[|vals| - 1]]
  {
    var front, top := vals[..|vals| - m], vals[|vals| - m..];
    assert vals == front + top;
    Regroup(below, front, top);
  }

  lemma RunOnTop(f: Activation, g: Code, room: nat, k: nat, s: Cpu, vals: seq<Word>, sym: char)
    returns (t: Cpu, left: seq<Word>)
    requires f.Valid() && f.Ready(room) && At(f, s, k, Saved(f) + vals) && IsOperator(sym) && |vals| >= 2
    requires Loaded(f, g, k, [PopR(2), PopR(1)] + OperatorCode(sym))
    ensures left == vals[..|vals| - 2] && Reaches(f.env, s, 3, t) && At(f, t, k + 3, Saved(f) + left)
    ensures t.Valid() && t.r[0] == Combine(sym, vals[|vals| - 2], vals[|vals| - 1])
  {
    hide Execute, Decode, ArmMachine.Step, Env.Standard, At, Reaches, Loaded, Activation.Ready, Saved, Combine, OperatorCode;
    left := vals[..|vals| - 2];
    TopWords(Saved(f), vals, 2);
    t := RunOperator(f, g, room, k, s, Saved(f) + left, sym, vals[|vals| - 2], vals[|vals| - 1]);
    AtValid(f, t, k + 3, Saved(f) + left);
  }

  lemma RunOnArguments(f: Activation, w: World, g: Code, room: nat, commands: seq<Word>, s: Cpu, vals: seq<Word>,
                       m: nat, name: string) returns (t: Cpu, left: seq<Word>)
    requires Running(f, w, g, room) && m <= |vals| && IsFunction(w, name, m)
    requires At(f, s, |commands|, Saved(f) + vals) && Loaded(f, g, |commands|, CallCode(w, commands, m, name))
    ensures left == vals[..|vals| - m] && Reaches(f.env, s, m + 5, t) && At(f, t, |commands| + m + 4, Saved(f) + left)
    ensures t.Valid() && t.r[0] == w.env.externs[Address(w, name)].result(vals[|vals| - m..])
  {
    hide Execute, Decode, ArmMachine.Step, Env.Standard, At, Reaches, Loaded, Activation.Ready, Saved, Running, CallCode,
         Holds, SymbolsIn, IsFunction, Pops, Last, Address;
    IsRunning(f, w, g, room);
    left := vals[..|vals| - m];
    TopWords(Saved(f), vals, m);
    t := RunFunction(f, w, g, room, commands, s, Saved(f) + left, vals[|vals| - m..], name);
    AtValid(f, t, |commands| + m + 4, Saved(f) + left);
  }

  lemma IsRunning(f: Activation, w: World, g: Code, room: nat)
    requires Running(f, w, g, room)
    ensures f.Valid() && f.Ready(room)
  {
  }

  /** What one operand does to the stack of words, case by case. */
  lemma ApplyIs(w: World, vals: seq<Word>, operand: Operand)
    requires Apply(w, vals, operand).Some?
    ensures var next := Apply(w, vals, operand).value;
            match operand
            case Constant(v) => next == vals + [ToWord(v)]
            case Variable(name) => IsVariable(w, name) && next == vals + [w.mem[Address(w, name)]]
            case MathOperator(sym) =>
              && IsOperator(sym) && |vals| >= 2
              && next == vals[..|vals| - 2] + [Combine(sym, vals[|vals| - 2], vals[|vals| - 1])]
            case Function(name, m) =>
              && IsFunction(w, name, m) && 1 <= m <= |vals|
              && next == vals[..|vals| - m] + [w.env.externs[Address(w, name)].result(vals[|vals| - m..])]
  {
  }

  /** The machine is about to run the code of an operand, with `vals` on its stack. */
  ghost predicate CanRun(f: Activation, w: World, g: Code, room: nat, c: Code, operand: Operand, s: Cpu, vals: seq<Word>) {
    && Running(f, w, g, room) && At(f, s, |c.commands|, Saved(f) + vals)
    && Loaded(f, g, |c.commands|, OperandCode(c, operand)) && c.symbols == g.symbols && SymbolsIn(g, w.externs)
    && (operand.Constant? ==> |c.data| < |g.data| && g.data[|c.data|] == ToWord(operand.value))
    && Apply(w, vals, operand).Some?
  }

  /** After `n` steps the code of the operand has run, up to its push: the result is in `r0`, and `left` is
      on the stack. */
  ghost predicate Ran(f: Activation, w: World, c: Code, operand: Operand, s: Cpu, vals: seq<Word>,
                      n: nat, t: Cpu, left: seq<Word>)
    requires f.Valid() && Apply(w, vals, operand).Some?
  {
    && Reaches(f.env, s, n, t) && t.Valid() && At(f, t, |c.commands| + |OperandCode(c, operand)|, Saved(f) + left)
    && Apply(w, vals, operand).value == left + [t.r[0]]
  }

  lemma RunConstantCode(f: Activation, w: World, g: Code, room: nat, c: Code, v: int, s: Cpu, vals: seq<Word>)
    returns (t: Cpu, left: seq<Word>)
    requires CanRun(f, w, g, room, c, Constant(v), s, vals)
    ensures Ran(f, w, c, Constant(v), s, vals, 1, t, left)
  {
    hide Execute, Decode, ArmMachine.Step, Env.Standard, At, Reaches, Loaded, Holds, Activation.Ready, SymbolsIn, Apply,
         OperandCode, OperatorCode, Combine, CallCode, PoolShift, Saved, IsVariable, IsFunction, Running, ToWord;
    OperandCodeIs(w, g, c, Constant(v), vals);
    ApplyIs(w, vals, Constant(v));
    IsRunning(f, w, g, room);
    left := vals;
    t := RunConstant(f, w, g, room, c.commands, s, Saved(f) + vals, |c.data|);
    AtValid(f, t, |c.commands| + 1, Saved(f) + left);
  }

  lemma RunVariableCode(f: Activation, w: World, g: Code, room: nat, c: Code, name: string, s: Cpu, vals: seq<Word>)
    returns (t: Cpu, left: seq<Word>)
    requires CanRun(f, w, g, room, c, Variable(name), s, vals)
    ensures Ran(f, w, c, Variable(name), s, vals, 2, t, left)
  {
    hide Execute, Decode, ArmMachine.Step, Env.Standard, At, Reaches, Loaded, Holds, Activation.Ready, SymbolsIn, Apply,
         OperandCode, OperatorCode, Combine, CallCode, PoolShift, Saved, IsVariable, IsFunction, Running, ToWord;
    OperandCodeIs(w, g, c, Variable(name), vals);
    ApplyIs(w, vals, Variable(name));
    IsRunning(f, w, g, room);
    left := vals;
    t := RunVariable(f, w, g, room, c.commands, s, Saved(f) + vals, name);
    AtValid(f, t, |c.commands| + 2, Saved(f) + left);
  }

  lemma RunOperatorCode(f: Activation, w: World, g: Code, room: nat, c: Code, sym: char, s: Cpu, vals: seq<Word>)
    returns (t: Cpu, left: seq<Word>)
    requires CanRun(f, w, g, room, c, MathOperator(sym), s, vals)
    ensures Ran(f, w, c, MathOperator(sym), s, vals, 3, t, left)
  {
    hide Execute, Decode, ArmMachine.Step, Env.Standard, At, Reaches, Loaded, Holds, Activation.Ready, SymbolsIn, Apply,
         OperandCode, OperatorCode, Combine, CallCode, PoolShift, Saved, IsVariable, IsFunction, Running, ToWord;
    OperandCodeIs(w, g, c, MathOperator(sym), vals);
    ApplyIs(w, vals, MathOperator(sym));
    IsRunning(f, w, g, room);
    t, left := RunOnTop(f, g, room, |c.commands|, s, vals, sym);
  }

  lemma RunFunctionCode(f: Activation, w: World, g: Code, room: nat, c: Code, name: string, m: int, s: Cpu, vals: seq<Word>)
    returns (t: Cpu, left: seq<Word>)
    requires CanRun(f, w, g, room, c, Function(name, m), s, vals) && m >= 0
    ensures Ran(f, w, c, Function(name, m), s, vals, m + 5, t, left)
  {
    hide Execute, Decode, ArmMachine.Step, Env.Standard, At, Reaches, Loaded, Holds, Activation.Ready, SymbolsIn, Apply,
         OperandCode, OperatorCode, Combine, CallCode, PoolShift, Saved, IsVariable, IsFunction, Running, ToWord;
    OperandCodeIs(w, g, c, Function(name, m), vals);
    ApplyIs(w, vals, Function(name, m));
    IsRunning(f, w, g, room);
    t, left := RunOnArguments(f, w, g, room, c.commands, s, vals, m, name);
  }

  /** The code of one operand, up to its push: the result is in `r0`, the arguments are gone. */
  lemma RunOperandCode(f: Activation, w: World, g: Code, room: nat, c: Code, operand: Operand, s: Cpu, vals: seq<Word>)
    returns (n: nat, t: Cpu, left: seq<Word>)
    requires CanRun(f, w, g, room, c, operand, s, vals)
    ensures Ran(f, w, c, operand, s, vals, n, t, left)
  {
    hide Ran, CanRun, Apply, At, Running, Loaded, Holds, SymbolsIn, OperandCode, Activation.Ready, Env.Standard, ArmMachine.Step, Execute;
    CountOfFunction(f, w, g, room, c, operand, s, vals);
    match operand {
      case Constant(v) =>
        n := 1;
        t, left := RunConstantCode(f, w, g, room, c, v, s, vals);
      case Variable(name) =>
        n := 2;
        t, left := RunVariableCode(f, w, g, room, c, name, s, vals);
      case MathOperator(sym) =>
        n := 3;
        t, left := RunOperatorCode(f, w, g, room, c, sym, s, vals);
      case Function(name, m) =>
        n := m + 5;
        t, left := RunFunctionCode(f, w, g, room, c, name, m, s, vals);
    }
  }

  lemma CountOfFunction(f: Activation, w: World, g: Code, room: nat, c: Code, operand: Operand, s: Cpu, vals: seq<Word>)
    requires CanRun(f, w, g, room, c, operand, s, vals)
    ensures operand.Function? ==> operand.arguments >= 1
    ensures f.Valid() && Apply(w, vals, operand).Some?
  {
  }

  lemma ProcessIs(c: Code, operand: Operand, g: Code)
    requires Earlier(Process(c, operand), g)
    ensures |Process(c, operand).commands| == |c.commands| + |OperandCode(c, operand)| + 1
    ensures c.symbols == g.symbols
  {
  }

  /** The code of one operand pushes exactly one word in place of its arguments. */
  lemma RunOperand(f: Activation, w: World, g: Code, room: nat, c: Code, operand: Operand, s: Cpu, vals: seq<Word>)
    returns (n: nat, t: Cpu)
    requires Running(f, w, g, room) && At(f, s, |c.commands|, Saved(f) + vals)
    requires Earlier(Process(c, operand), g) && |Process(c, operand).commands| + 3 <= |g.commands|
    requires Apply(w, vals, operand).Some? && |Apply(w, vals, operand).value| + 1 < room
    ensures Reaches(f.env, s, n, t)
    ensures At(f, t, |Process(c, operand).commands|, Saved(f) + Apply(w, vals, operand).value)
  {
    hide Execute, Decode, ArmMachine.Step, Env.Standard, At, Reaches, Loaded, Apply, Activation.Ready, Holds;
    OperandLoaded(f, g, c, operand);
    IsRunning(f, w, g, room);
    ProcessIs(c, operand, g);
    hide Process, OperandCode, Running, Saved, Earlier;
    var m, u, left := RunOperandCode(f, w, g, room, c, operand, s, vals);
    t := StepPush(f, u, |c.commands| + |OperandCode(c, operand)|, Saved(f) + left, room);
    assert Saved(f) + left + [u.r[0]] == Saved(f) + (left + [u.r[0]]);
    ReachesStep(f.env, s, m, u, t);
    n := m + 1;
  }

  /** The code of a whole reverse Polish form does to the machine's stack what `Evaluate` does. */
  lemma {:induction false} RunAll(f: Activation, w: World, g: Code, room: nat, c: Code, poliz: seq<Operand>,
                                  s: Cpu, vals: seq<Word>)
    returns (n: nat, t: Cpu)
    requires Running(f, w, g, room) && At(f, s, |c.commands|, Saved(f) + vals)
    requires Finish(ProcessAll(c, poliz)) == g && |vals| + |poliz| + 2 <= room
    requires Evaluate(w, vals, poliz).Some?
    ensures Reaches(f.env, s, n, t)
    ensures At(f, t, |g.commands| - 3, Saved(f) + Evaluate(w, vals, poliz).value)
    decreases |poliz|
  {
    hide Execute, Decode, ArmMachine.Step, Env.Standard, At, Process, Activation.Ready;
    if poliz == [] {
      n, t := 0, s;
      assert s.Valid() by { AtValid(f, s, |c.commands|, Saved(f) + vals); }
    } else {
      var next := Apply(w, vals, poliz[0]).value;
      ApplyGrows(w, vals, poliz[0]);
      ProcessAllGrows(Process(c, poliz[0]), poliz[1..]);
      var m, u := RunOperand(f, w, g, room, c, poliz[0], s, vals);
      n, t := RunAll(f, w, g, room, Process(c, poliz[0]), poliz[1..], u, next);
      ReachesTrans(f.env, s, m, u, n, t);
      n := m + n;
    }
  }

  lemma ApplyGrows(w: World, vals: seq<Word>, operand: Operand)
    requires Apply(w, vals, operand).Some?
    ensures |Apply(w, vals, operand).value| <= |vals| + 1
  {
  }

  // ---------------------------------------------------------------------------------------------
  // The whole function
  // ---------------------------------------------------------------------------------------------

  /** The machine is back at the caller: the result is in `r0`; the stack pointer, `r4` to `r11`
      and all mapped memory outside the stack are as on entry. */
  ghost predicate Returned(f: Activation, t: Cpu, result: Word)
    requires f.Valid()
  {
    && t.Valid() && t.r[PC] == f.entry.r[LR] && t.r[0] == result
    && t.r[SP] == f.entry.r[SP] && t.r[4..12] == f.entry.r[4..12]
    && Framed(f, t)
  }

  lemma RunPrologue(f: Activation, room: nat) returns (t: Cpu)
    requires f.Valid() && f.Ready(room) && room >= 2 && f.buffer[0] == PUSH_R4_LR
    ensures Steps(f, f.entry, t) && At(f, t, 1, Saved(f))
  {
    hide Execute, Decode, ArmMachine.Step, Env.Standard;
    var s := f.entry;
    assert At(f, s, 0, []);
    Fetch(f, s, 0, [], room);
    ExecuteSave(s);
    t := Cpu(Next(s, SP, s.r[SP] - 8), s.mem[s.r[SP] - 8 := s.r[4]][s.r[SP] - 4 := s.r[LR]]);
  }

  lemma StepRestore(f: Activation, s: Cpu, k: nat, room: nat) returns (t: Cpu)
    requires f.Valid() && f.Ready(room) && At(f, s, k, Saved(f)) && k < BUFFER_WORDS - 1
    requires f.buffer[k] == POP_R4_LR
    ensures Steps(f, s, t) && At(f, t, k + 1, []) && t.r[0] == s.r[0]
    ensures t.r[4] == f.entry.r[4] && t.r[LR] == f.entry.r[LR]
  {
    hide Execute, Decode, ArmMachine.Step, Env.Standard;
    Fetch(f, s, k, Saved(f), room);
    assert MemoryIs(s, Cell(f.entry.r[SP], 0), f.entry.r[LR]);
    assert MemoryIs(s, Cell(f.entry.r[SP], 1), f.entry.r[4]);
    ExecuteRestore(s);
    t := s.(r := Next(s, SP, s.r[SP] + 8)[4 := s.mem[s.r[SP]]][LR := s.mem[s.r[SP] + 4]]);
  }

  lemma RunEpilogue(f: Activation, g: Code, room: nat, s: Cpu, v: Word) returns (t: Cpu)
    requires f.Valid() && f.Ready(room) && Holds(f.buffer, g) && |g.commands| >= 3
    requires At(f, s, |g.commands| - 3, Saved(f) + [v])
    requires g.commands[|g.commands| - 3..] == EPILOGUE
    ensures Reaches(f.env, s, 3, t) && Returned(f, t, v)
  {
    hide Execute, Decode, ArmMachine.Step, Env.Standard;
    var k := |g.commands| - 3;
    assert g.commands[k] == g.commands[k..][0] && g.commands[k + 1] == g.commands[k..][1];
    assert g.commands[k + 2] == g.commands[k..][2];
    var u := StepPop(f, s, k, Saved(f) + [v], room, 0);
    assert (Saved(f) + [v])[..2] == Saved(f);
    var u2 := StepRestore(f, u, k + 1, room);
    Fetch(f, u2, k + 2, [], room);
    ExecuteJumps(u2);
    t := u2.(r := u2.r[PC := u2.r[LR]]);
    assert Reaches(f.env, t, 0, t);
    assert Reaches(f.env, u2, 1, t);
    assert Reaches(f.env, u, 2, t);
  }

  /** Compiler correctness, from the tree: when the code and its pool fit, running the buffer on a
      standard machine returns to the caller with the value of the expression, modulo 2^32. */
  lemma CompiledCodeComputes(f: Activation, e: Expr, externs: seq<Symbol>) returns (n: nat, t: Cpu)
    requires f.Valid() && f.Ready(|PostOrder(e)| + 2)
    requires Holds(f.buffer, Generate(PostOrder(e), externs))
    requires Defined(e, World(externs, f.env, f.entry.mem, f.entry.r[SP]))
    ensures Reaches(f.env, f.entry, n, t)
    ensures Returned(f, t, ToWord(Value(e, World(externs, f.env, f.entry.mem, f.entry.r[SP]))))
  {
    hide Execute, Decode, ArmMachine.Step, Env.Standard, At, Activation.Ready, Process, OperandCode,
         Evaluate, ToWord, Value, PostOrder, Defined;
    var w := World(externs, f.env, f.entry.mem, f.entry.r[SP]);
    EvaluatesToValue(e, w);
    var poliz := PostOrder(e);
    var g := Generate(poliz, externs);
    var room := |poliz| + 2;
    var c := Start(externs);
    var body := ProcessAll(c, poliz);
    GeneratedSymbols(poliz, externs);
    assert g.commands[0] == body.commands[0] == PUSH_R4_LR;
    assert g.commands[|g.commands| - 3..] == EPILOGUE;
    hide ProcessAll, WithSymbols, SymbolsIn, Returned;
    var v := ToWord(Value(e, w));
    var s1 := RunPrologue(f, room);
    assert Saved(f) + [] == Saved(f);
    var m, s2 := RunAll(f, w, g, room, c, poliz, s1, []);
    assert Saved(f) + ([] + [v]) == Saved(f) + [v];
    t := RunEpilogue(f, g, room, s2, v);
    assert Reaches(f.env, f.entry, m + 1, s2);
    ReachesTrans(f.env, f.entry, m + 1, s2, 3, t);
    n := m + 4;
  }

  lemma EvaluatesToValue(e: Expr, w: World)
    requires Defined(e, w)
    ensures Evaluate(w, [], PostOrder(e)) == Some([] + [ToWord(Value(e, w))])
  {
    hide PostOrder, Defined, Value, ToWord;
    EvaluatePostOrder(e, w, [], []);
    assert PostOrder(e) + [] == PostOrder(e);
  }

  lemma GeneratedSymbols(poliz: seq<Operand>, externs: seq<Symbol>)
    ensures var g := Generate(poliz, externs);
            && SymbolsIn(g, externs) && Earlier(Start(externs), ProcessAll(Start(externs), poliz))
            && |g.commands| >= 4 && |Start(externs).commands| == 1
  {
    hide Process;
    SymbolsLaid(externs);
    var c := WithSymbols(Code(map[], [], []), externs);
    ProcessAllGrows(Start(externs), poliz);
    var data := ProcessAll(Start(externs), poliz).data;
    assert data[..|c.data|] == c.data;
    forall i | 0 <= i < |externs| ensures data[i] == externs[i].pointer {
      assert data[..|c.data|][i] == c.data[i];
    }
  }

  /** Compiler correctness, end to end: for every tree and every legal rendering of it as text, the
      buffer written for the text, entered at its first word, computes the tree's value. */
  lemma CompilerCorrect(text: string, s: Source, f: Activation, externs: seq<Symbol>) returns (n: nat, t: Cpu)
    requires Renders(text, s) && f.Valid() && f.Ready(|PostOrder(Tree(s))| + 2)
    requires FromInfix(text).Some? ==> Holds(f.buffer, Generate(FromInfix(text).value, externs))
    requires Defined(Tree(s), World(externs, f.env, f.entry.mem, f.entry.r[SP]))
    ensures Reaches(f.env, f.entry, n, t)
    ensures Returned(f, t, ToWord(Value(Tree(s), World(externs, f.env, f.entry.mem, f.entry.r[SP]))))
  {
    hide Env.Standard, Reaches, Returned, Activation.Ready;
    JitParserProof.FromInfixIsPostOrder(text, s);
    n, t := CompiledCodeComputes(f, Tree(s), externs);
  }

  /** The exported function of the program. */
  method JitCompileExpressionToArm(expression: string, externs: seq<Symbol>, outBuffer: array<Word>)
    returns (ok: bool)
    requires outBuffer.Length == BUFFER_WORDS
    requires FromInfix(expression).Some? ==> EachFits(Generate(FromInfix(expression).value, externs))
    modifies outBuffer
    ensures ok == FromInfix(expression).Some?
    ensures ok ==> Compiled(old(outBuffer[..]), outBuffer[..], FromInfix(expression).value, externs)
  {
    hide *;
    var parser := new Reader();
    var polishStack := FromInfixString(parser, expression);
    if polishStack.None? { return false; }
    Compile(polishStack.value, externs, outBuffer);
    return true;
  }
}
