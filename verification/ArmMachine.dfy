/** A step machine for the part of the 32-bit ARM instruction set that the expression compiler
    emits: instruction words are decoded field by field, registers and memory hold 32-bit words,
    and a jump to an external function runs that function. */
module ArmMachine {
  import opened Wrappers

  const WORD: nat := 0x1_0000_0000

  type Word = w: int | 0 <= w < WORD

  function ToWord(n: int): Word { n % WORD }

  const SP := 13
  const LR := 14
  const PC := 15

  /** The decoded form of an instruction. Every instruction modelled is unconditional. */
  datatype Instruction =
    | Register(opcode: nat, rn: nat, rd: nat, rm: nat)
    | Immediate(opcode: nat, rn: nat, rd: nat, value: nat)
    | Multiply(rd: nat, rm: nat, rs: nat)
    | Transfer(load: bool, pre: bool, up: bool, writeback: bool, rn: nat, rd: nat, offset: nat)
    | Block(load: bool, pre: bool, up: bool, rn: nat, list: nat)
    | BranchExchange(rm: nat)
    | Unknown

  /** `width` bits of `w`, the lowest of which is bit `low`, given as the power of two `unit`. */
  function Field(w: int, unit: int, size: int): (f: nat)
    requires unit > 0 && size > 0
    ensures f < size
  {
    (w / unit) % size
  }

  const BIT4 := 0x10
  const BIT8 := 0x100
  const BIT12 := 0x1000
  const BIT16 := 0x1_0000
  const BIT20 := 0x10_0000
  const BIT21 := 0x20_0000
  const BIT22 := 0x40_0000
  const BIT23 := 0x80_0000
  const BIT24 := 0x100_0000
  const BIT25 := 0x200_0000

  predicate Flag(w: int, unit: int)
    requires unit > 0
  {
    Field(w, unit, 2) == 1
  }

  /** Decoding looks at the condition field (always), the instruction class in bits 25 to 27 and
      then the fields of that class. Flag-setting, shifted and rotated forms, byte transfers and
      user-mode block transfers are not decoded. */
  function Decode(w: Word): Instruction {
    var rn, rd, rm := Field(w, BIT16, 16), Field(w, BIT12, 16), Field(w, 1, 16);
    if w / BIT4 == 0xe12fff1 then BranchExchange(rm)
    else if w / BIT20 == 0xe00 && rd == 0 && Field(w, BIT4, 16) == 9 then
      Multiply(rn, rm, Field(w, BIT8, 16))
    else if w / BIT25 == 0x70 && !Flag(w, BIT20) && Field(w, BIT4, 256) == 0 then
      Register(Field(w, BIT21, 16), rn, rd, rm)
    else if w / BIT25 == 0x71 && !Flag(w, BIT20) && Field(w, BIT8, 16) == 0 then
      Immediate(Field(w, BIT21, 16), rn, rd, Field(w, 1, 256))
    else if w / BIT25 == 0x72 && !Flag(w, BIT22) then
      Transfer(Flag(w, BIT20), Flag(w, BIT24), Flag(w, BIT23), Flag(w, BIT21), rn, rd, Field(w, 1, BIT12))
    else if w / BIT25 == 0x74 && !Flag(w, BIT22) && Flag(w, BIT21) then
      Block(Flag(w, BIT20), Flag(w, BIT24), Flag(w, BIT23), rn, Field(w, 1, BIT16))
    else Unknown
  }

  // ---------------------------------------------------------------------------------------------
  // Machine states
  // ---------------------------------------------------------------------------------------------

  /** Sixteen registers and the mapped words of memory, by their byte addresses. */
  datatype Cpu = Cpu(r: seq<Word>, mem: map<Word, Word>)
  {
    ghost predicate Valid() { |r| == 16 }
  }

  /** An external function: its result in `r0` as a function of its arguments in the first
      registers, and everything a call of it does to the machine. */
  datatype Extern = Extern(arity: nat, result: seq<Word> -> Word, effect: Cpu -> Cpu)

  /** External functions by their addresses, and the lowest address of the stack. */
  datatype Env = Env(externs: map<Word, Extern>, stackLimit: nat)
  {
    /** Calls follow the procedure call standard: at most four arguments in `r0` to `r3`, the
        result in `r0`; `r4` to `r11` and the stack pointer survive; only memory below the stack
        pointer changes; control returns to the address in the link register. */
    ghost predicate Standard() {
      forall a, s: Cpu :: a in externs && s.Valid() ==> Returns(externs[a], s)
    }

    ghost predicate Returns(f: Extern, s: Cpu)
      requires s.Valid()
    {
      var t := f.effect(s);
      && t.Valid() && f.arity <= 4
      && t.r[0] == f.result(s.r[..f.arity])
      && t.r[4..12] == s.r[4..12] && t.r[SP] == s.r[SP]
      && t.r[PC] == s.r[LR]
      && t.mem.Keys == s.mem.Keys
      && forall x :: x in s.mem && !(stackLimit <= x < s.r[SP]) ==> t.mem[x] == s.mem[x]
    }
  }

  /** The value an instruction reads from register `i`; the program counter reads eight ahead. */
  function Read(s: Cpu, i: nat): Word
    requires s.Valid() && i < 16
  {
    if i == PC then ToWord(s.r[PC] as int + 8) else s.r[i]
  }

  /** The next state when the instruction only writes register `i`. Writing the program counter
      branches, and the target must be a word address. */
  function Write(s: Cpu, i: nat, v: Word): (r: Option<Cpu>)
    requires s.Valid() && i < 16
    ensures r.Some? ==> r.value.Valid()
  {
    if i == PC then
      if v % 4 == 0 then Some(s.(r := s.r[PC := v])) else None
    else Some(s.(r := s.r[i := v][PC := ToWord(s.r[PC] as int + 4)]))
  }

  /** The value of a data-processing operation; `None` for the ones not modelled. */
  function Operate(opcode: nat, a: Word, b: Word): Option<Word> {
    if opcode == 4 then Some(ToWord(a + b))
    else if opcode == 2 then Some(ToWord(a - b))
    else if opcode == 13 then Some(b)
    else None
  }

  predicate Mapped(s: Cpu, a: Word) { a % 4 == 0 && a in s.mem }

  /** The registers named in a block transfer's list, ascending; bit 0 stands for register `i`. */
  function Listed(list: nat, i: nat): (regs: seq<nat>)
    requires i <= 16
    ensures forall k <- regs :: k < 16
    decreases 16 - i
  {
    if i == 16 then []
    else (if list % 2 == 1 then [i] else []) + Listed(list / 2, i + 1)
  }

  /** Stores registers `list` to ascending addresses from `a`. */
  function StoreAll(s: Cpu, list: seq<nat>, a: Word): (r: Option<Cpu>)
    requires s.Valid() && forall i <- list :: i < 16
    ensures r.Some? ==> r.value.Valid()
    decreases |list|
  {
    if list == [] then Some(s)
    else if !Mapped(s, a) then None
    else
      assert list[0] in list && forall i <- list[1..] :: i in list;
      StoreAll(s.(mem := s.mem[a := Read(s, list[0])]), list[1..], ToWord(a as int + 4))
  }

  /** Loads registers `list` from ascending addresses from `a`. */
  function LoadAll(s: Cpu, list: seq<nat>, a: Word): (r: Option<Cpu>)
    requires s.Valid() && forall i <- list :: i < 16
    ensures r.Some? ==> r.value.Valid()
    decreases |list|
  {
    if list == [] then Some(s)
    else if !Mapped(s, a) then None
    else
      assert list[0] in list && forall i <- list[1..] :: i in list;
      LoadAll(s.(r := s.r[list[0] := s.mem[a]]), list[1..], ToWord(a as int + 4))
  }

  /** A single-word load or store. */
  function Access(s: Cpu, i: Instruction): (r: Option<Cpu>)
    requires s.Valid() && i.Transfer? && i.rn < 16 && i.rd < 16
    ensures r.Some? ==> r.value.Valid()
  {
    var base := Read(s, i.rn);
    var indexed := ToWord(if i.up then base + i.offset else base - i.offset);
    var a := if i.pre then indexed else base;
    var writesBase := !i.pre || i.writeback;
    if !Mapped(s, a) || (!i.pre && i.writeback) || (writesBase && (i.rn == i.rd || i.rn == PC)) then None
    else
      var t := if writesBase then s.(r := s.r[i.rn := indexed]) else s;
      if i.load then Write(t, i.rd, s.mem[a])
      else Some(t.(mem := s.mem[a := Read(s, i.rd)], r := t.r[PC := ToWord(s.r[PC] as int + 4)]))
  }

  /** A block transfer with base update, in the two forms that make a full descending stack. */
  function AccessBlock(s: Cpu, i: Instruction): (r: Option<Cpu>)
    requires s.Valid() && i.Block? && i.rn < 16
    ensures r.Some? ==> r.value.Valid()
  {
    var list := Listed(i.list, 0);
    var base := Read(s, i.rn);
    if i.rn == PC || i.rn in list || PC in list || i.load == i.pre || i.load != i.up then None
    else
      var low := if i.load then base else ToWord(base - 4 * |list|);
      var t := if i.load then LoadAll(s, list, low) else StoreAll(s, list, low);
      if t.None? then None
      else Write(t.value, i.rn, if i.load then ToWord(base + 4 * |list|) else low)
  }

  function Execute(s: Cpu, i: Instruction): (r: Option<Cpu>)
    requires s.Valid()
    ensures r.Some? ==> r.value.Valid()
  {
    match i
    case Register(opcode, rn, rd, rm) =>
      if rn >= 16 || rd >= 16 || rm >= 16 then None
      else
        var v := Operate(opcode, Read(s, rn), Read(s, rm));
        if v.None? then None else Write(s, rd, v.value)
    case Immediate(opcode, rn, rd, value) =>
      if rn >= 16 || rd >= 16 then None
      else
        var v := Operate(opcode, Read(s, rn), ToWord(value));
        if v.None? then None else Write(s, rd, v.value)
    case Multiply(rd, rm, rs) =>
      if rd >= 16 || rm >= 16 || rs >= 16 then None
      else Write(s, rd, ToWord(Read(s, rm) * Read(s, rs)))
    case Transfer(_, _, _, _, rn, rd, _) =>
      if rn >= 16 || rd >= 16 then None else Access(s, i)
    case Block(_, _, _, rn, _) =>
      if rn >= 16 then None else AccessBlock(s, i)
    case BranchExchange(rm) =>
      if rm >= 16 then None else Write(s, PC, Read(s, rm))
    case Unknown => None
  }

  /** One step: an external function runs to its return, anything else is one instruction. `None`
      is a fault: unmapped memory, a misaligned address or an instruction outside the model. */
  function Step(env: Env, s: Cpu): Option<Cpu>
    requires s.Valid()
  {
    if s.r[PC] in env.externs then Some(env.externs[s.r[PC]].effect(s))
    else if !Mapped(s, s.r[PC]) then None
    else Execute(s, Decode(s.mem[s.r[PC]]))
  }

  /** `n` steps lead from `s` to `t` without a fault. */
  ghost predicate Reaches(env: Env, s: Cpu, n: nat, t: Cpu)
    decreases n
  {
    s.Valid() &&
    if n == 0 then s == t
    else
      var next := Step(env, s);
      next.Some? && Reaches(env, next.value, n - 1, t)
  }

  lemma {:induction false} ReachesTrans(env: Env, s: Cpu, m: nat, t: Cpu, n: nat, u: Cpu)
    requires Reaches(env, s, m, t) && Reaches(env, t, n, u)
    ensures Reaches(env, s, m + n, u)
    decreases m
  {
    hide Step;
    if m > 0 {
      ReachesTrans(env, Step(env, s).value, m - 1, t, n, u);
    }
  }

  lemma ReachesStep(env: Env, s: Cpu, m: nat, t: Cpu, u: Cpu)
    requires Reaches(env, s, m, t) && t.Valid() && Step(env, t) == Some(u) && u.Valid()
    ensures Reaches(env, s, m + 1, u)
  {
    assert Reaches(env, u, 0, u);
    assert Reaches(env, t, 1, u);
    ReachesTrans(env, s, m, t, 1, u);
  }
}
