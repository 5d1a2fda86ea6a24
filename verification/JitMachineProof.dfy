/** Running the generated commands: each one moves the machine the way the expression stack moves. */
module JitMachineProof {
  import opened Wrappers
  import opened ArmMachine
  import opened JitCodegen
  import opened JitInstructions

  /** A call of the generated code: where the buffer lies, what it holds, and the machine as it
      was on entry. */
  datatype Activation = Activation(env: Env, base: Word, buffer: seq<Word>, entry: Cpu)
  {
    ghost predicate Valid() {
      && entry.Valid() && |buffer| == BUFFER_WORDS && env.Standard()
    }

    /** The caller's part: the buffer is loaded at `base` and executable from there, the stack
        below the stack pointer is mapped, apart from the buffer, with `room` free words. */
    ghost predicate Ready(room: nat)
      requires Valid()
    {
      && entry.r[PC] == base && entry.r[LR] % 4 == 0
      && base % 4 == 0 && base + BUFFER_SIZE <= WORD
      && (forall i :: 0 <= i < BUFFER_WORDS ==> CodeAt(i))
      && entry.r[SP] % 4 == 0
      && env.stackLimit + WORD_SIZE * room <= entry.r[SP]
      && (forall x: Word :: env.stackLimit <= x < entry.r[SP] && x % 4 == 0 ==> x in entry.mem)
      && (base + BUFFER_SIZE <= env.stackLimit || entry.r[SP] <= base)
    }

    /** Word `i` of the buffer is in memory, and is not taken for an external function. */
    ghost predicate CodeAt(i: nat)
      requires |buffer| == BUFFER_WORDS && i < BUFFER_WORDS
    {
      MemoryIs(entry, base + WORD_SIZE * i, buffer[i]) && base + WORD_SIZE * i !in env.externs
    }
  }

  ghost predicate MemoryIs(s: Cpu, a: int, v: Word) {
    a in s.mem && s.mem[a] == v
  }

  /** The address of stack cell `i`; cells 0 and 1 hold the pair saved on entry. */
  function Cell(top: Word, i: int): int { top - WORD_SIZE * (i + 1) }

  /** Between commands: the machine is about to run command `k`, the stack holds exactly `cells`
      below where it was on entry, and nothing outside the stack has changed since. */
  ghost predicate At(f: Activation, s: Cpu, k: nat, cells: seq<Word>)
    requires f.Valid()
  {
    && s.Valid()
    && s.r[PC] == f.base + WORD_SIZE * k
    && s.r[SP] == f.entry.r[SP] - WORD_SIZE * |cells|
    && f.env.stackLimit <= s.r[SP]
    && (forall i :: 0 <= i < |cells| ==> MemoryIs(s, Cell(f.entry.r[SP], i), cells[i]))
    && s.r[5..12] == f.entry.r[5..12]
    && Framed(f, s)
  }

  /** The same memory is mapped as on entry, and only the stack may differ. */
  ghost predicate Framed(f: Activation, s: Cpu)
    requires f.Valid()
  {
    && s.mem.Keys == f.entry.mem.Keys
    && forall x :: x in s.mem && !(f.env.stackLimit <= x < f.entry.r[SP]) ==> s.mem[x] == f.entry.mem[x]
  }

  /** The machine fetches command `k` of the buffer. */
  lemma Fetch(f: Activation, s: Cpu, k: nat, cells: seq<Word>, room: nat)
    requires f.Valid() && f.Ready(room) && At(f, s, k, cells) && k < BUFFER_WORDS
    ensures Step(f.env, s) == Execute(s, Decode(f.buffer[k]))
  {
    hide Decode, Execute;
    assert f.CodeAt(k);
  }

  /** One step of the machine, from command `k` on. */
  ghost predicate Steps(f: Activation, s: Cpu, t: Cpu)
    requires f.Valid() && s.Valid()
  {
    t.Valid() && Step(f.env, s) == Some(t)
  }

  lemma StepPush(f: Activation, s: Cpu, k: nat, cells: seq<Word>, room: nat) returns (t: Cpu)
    requires f.Valid() && f.Ready(room) && At(f, s, k, cells) && k < BUFFER_WORDS - 1 && |cells| < room
    requires f.buffer[k] == PUSH_R0
    ensures Steps(f, s, t) && At(f, t, k + 1, cells + [s.r[0]])
  {
    hide Decode, Execute, Step, Env.Standard;
    Fetch(f, s, k, cells, room);
    ExecutePush(s);
    t := Cpu(Next(s, SP, s.r[SP] - 4), s.mem[s.r[SP] - 4 := s.r[0]]);
    var top := f.entry.r[SP];
    forall i | 0 <= i < |cells|
      ensures MemoryIs(t, Cell(top, i), (cells + [s.r[0]])[i])
    {
      assert MemoryIs(s, Cell(top, i), cells[i]);
    }
  }

  lemma StepPop(f: Activation, s: Cpu, k: nat, cells: seq<Word>, room: nat, n: nat) returns (t: Cpu)
    requires f.Valid() && f.Ready(room) && At(f, s, k, cells) && k < BUFFER_WORDS - 1 && cells != []
    requires n <= 3 && f.buffer[k] == PopR(n)
    ensures Steps(f, s, t) && At(f, t, k + 1, cells[..|cells| - 1])
    ensures t.r[n] == cells[|cells| - 1] && forall j :: 0 <= j <= 4 && j != n ==> t.r[j] == s.r[j]
  {
    hide Decode, Execute, Step, Env.Standard;
    Fetch(f, s, k, cells, room);
    assert MemoryIs(s, Cell(f.entry.r[SP], |cells| - 1), cells[|cells| - 1]);
    ExecutePop(s, n);
    t := s.(r := Next(s, SP, s.r[SP] + 4)[n := s.mem[s.r[SP]]]);
    var top := f.entry.r[SP];
    forall i | 0 <= i < |cells| - 1
      ensures MemoryIs(t, Cell(top, i), cells[..|cells| - 1][i])
    {
      assert MemoryIs(s, Cell(top, i), cells[i]);
    }
  }

  /** An instruction that only sets one of `r0` to `r4` or the link register. */
  lemma StepRegister(f: Activation, s: Cpu, k: nat, cells: seq<Word>, room: nat, i: nat, v: Word) returns (t: Cpu)
    requires f.Valid() && f.Ready(room) && At(f, s, k, cells) && k < BUFFER_WORDS - 1
    requires i <= 4 || i == LR
    requires Execute(s, Decode(f.buffer[k])) == Some(s.(r := Next(s, i, v)))
    ensures Steps(f, s, t) && At(f, t, k + 1, cells) && t.mem == s.mem
    ensures t.r[i] == v && forall j :: (0 <= j <= 4 || j == LR) && j != i ==> t.r[j] == s.r[j]
  {
    hide Decode, Execute, Step, Env.Standard;
    Fetch(f, s, k, cells, room);
    t := s.(r := Next(s, i, v));
    var top := f.entry.r[SP];
    forall i | 0 <= i < |cells|
      ensures MemoryIs(t, Cell(top, i), cells[i])
    {
      assert MemoryIs(s, Cell(top, i), cells[i]);
    }
  }
}
