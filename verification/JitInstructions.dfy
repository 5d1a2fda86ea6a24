/** What each instruction word of the code generator decodes to. */
module JitInstructions {
  import opened Wrappers
  import opened ArmMachine
  import opened JitCodegen

  lemma DecodeArithmetic()
    ensures Decode(ADD) == Register(4, 1, 0, 2)
    ensures Decode(SUB) == Register(2, 1, 0, 2)
    ensures Decode(MUL) == Multiply(0, 1, 2)
  {
  }

  lemma DecodeStack()
    ensures Decode(PUSH_R0) == Transfer(false, true, false, true, SP, 0, 4)
    ensures Decode(PUSH_R4_LR) == Block(false, true, false, SP, 0x4010)
    ensures Decode(POP_R4_LR) == Block(true, false, true, SP, 0x4010)
  {
  }

  lemma DecodePop(n: nat)
    requires n < 16
    ensures Decode(PopR(n)) == Transfer(true, false, true, false, SP, n, 4)
  {
  }

  lemma DecodeControl()
    ensures Decode(LOAD_R4) == Transfer(true, true, true, false, 4, 0, 0)
    ensures Decode(SAVE_PC) == Register(13, 0, LR, PC)
    ensures Decode(INCREMENT_LR) == Immediate(4, LR, LR, 4)
    ensures Decode(GOTO_R4) == Register(13, 0, PC, 4)
    ensures Decode(EXIT) == BranchExchange(LR)
  {
  }

  /** A literal load reaches `shift` bytes ahead of itself, at most 4095 past the address that is
      read as the program counter; the offset never carries into the other fields. */
  lemma DecodeLiteralLoad(shift: Word)
    requires 8 <= shift <= 4095 + 8
    ensures Decode(LoadConstant(shift)) == Transfer(true, true, true, false, PC, 0, shift - 8)
    ensures Decode(LoadShiftedAddr(shift)) == Transfer(true, true, true, false, PC, 4, shift - 8)
  {
    hide Decode;
    DecodeLiteral(0, shift - 8);
    DecodeLiteral(4, shift - 8);
  }

  lemma DecodeLiteral(rd: nat, offset: nat)
    requires rd == 0 || rd == 4
    requires offset < BIT12
    ensures Decode(0xe59f0000 + BIT12 * rd + offset) == Transfer(true, true, true, false, PC, rd, offset)
  {
    var w := 0xe59f0000 + BIT12 * rd + offset;
    assert w / BIT4 / BIT4 / BIT4 / BIT4 == 0xe59f;
    assert w / BIT12 == 0xe59f0 + rd && w % BIT12 == offset;
    assert w / BIT16 == 0xe59f;
    assert w / BIT20 == 0xe59 && w / BIT21 == 0x72c && w / BIT22 == 0x396;
    assert w / BIT23 == 0x1cb && w / BIT24 == 0xe5 && w / BIT25 == 0x72;
  }

  /** The pair saved on entry and restored on exit is `r4` and the link register. */
  lemma ListedSavedPair()
    ensures Listed(0x4010, 0) == [4, LR]
  {
    assert Listed(0x0, 15) == [] + Listed(0, 16);
    assert Listed(0x1, 14) == [14] + Listed(0, 15);
    assert Listed(0x2, 13) == [] + Listed(1, 14);
    assert Listed(0x4, 12) == [] + Listed(2, 13);
    assert Listed(0x8, 11) == [] + Listed(4, 12);
    assert Listed(0x10, 10) == [] + Listed(8, 11);
    assert Listed(0x20, 9) == [] + Listed(0x10, 10);
    assert Listed(0x40, 8) == [] + Listed(0x20, 9);
    assert Listed(0x80, 7) == [] + Listed(0x40, 8);
    assert Listed(0x100, 6) == [] + Listed(0x80, 7);
    assert Listed(0x200, 5) == [] + Listed(0x100, 6);
    assert Listed(0x401, 4) == [4] + Listed(0x200, 5);
    assert Listed(0x802, 3) == [] + Listed(0x401, 4);
    assert Listed(0x1004, 2) == [] + Listed(0x802, 3);
    assert Listed(0x2008, 1) == [] + Listed(0x1004, 2);
  }

  // ---------------------------------------------------------------------------------------------
  // What they do
  // ---------------------------------------------------------------------------------------------

  /** The registers after an instruction that writes `v` to register `i` and goes on. */
  function Next(s: Cpu, i: nat, v: Word): seq<Word>
    requires s.Valid() && i < PC
  {
    s.r[i := v][PC := ToWord(s.r[PC] as int + 4)]
  }

  lemma ExecutePush(s: Cpu)
    requires s.Valid() && s.r[SP] >= 4 && Mapped(s, s.r[SP] - 4)
    ensures Execute(s, Decode(PUSH_R0))
         == Some(Cpu(Next(s, SP, s.r[SP] - 4), s.mem[s.r[SP] - 4 := s.r[0]]))
  {
    DecodeStack();
    hide Decode;
  }

  lemma ExecutePop(s: Cpu, n: nat)
    requires s.Valid() && n <= 3 && s.r[SP] + 4 < WORD && Mapped(s, s.r[SP])
    ensures Execute(s, Decode(PopR(n)))
         == Some(s.(r := Next(s, SP, s.r[SP] + 4)[n := s.mem[s.r[SP]]]))
  {
    DecodePop(n);
    hide Decode;
    var v := s.mem[s.r[SP]];
    assert s.r[SP := s.r[SP] + 4][n := v][PC := ToWord(s.r[PC] as int + 4)] == Next(s, SP, s.r[SP] + 4)[n := v];
  }

  /** A literal load at an address that leaves room for the read-ahead. */
  lemma ExecuteLiteralLoad(s: Cpu, shift: Word, rd: nat)
    requires s.Valid() && 8 <= shift <= 4095 + 8 && (rd == 0 || rd == 4)
    requires s.r[PC] + shift < WORD && Mapped(s, s.r[PC] + shift)
    ensures Execute(s, Decode(if rd == 0 then LoadConstant(shift) else LoadShiftedAddr(shift)))
         == Some(s.(r := Next(s, rd, s.mem[s.r[PC] + shift])))
  {
    DecodeLiteralLoad(shift);
    hide Decode;
    assert Read(s, PC) == s.r[PC] + 8;
    assert ToWord(Read(s, PC) as int + (shift - 8)) == s.r[PC] + shift;
  }

  lemma ExecuteLoadR4(s: Cpu)
    requires s.Valid() && Mapped(s, s.r[4])
    ensures Execute(s, Decode(LOAD_R4)) == Some(s.(r := Next(s, 0, s.mem[s.r[4]])))
  {
    DecodeControl();
    hide Decode;
  }

  lemma ExecuteArithmetic(s: Cpu)
    requires s.Valid()
    ensures Execute(s, Decode(ADD)) == Some(s.(r := Next(s, 0, ToWord(s.r[1] as int + s.r[2] as int))))
    ensures Execute(s, Decode(SUB)) == Some(s.(r := Next(s, 0, ToWord(s.r[1] as int - s.r[2] as int))))
    ensures Execute(s, Decode(MUL)) == Some(s.(r := Next(s, 0, ToWord(s.r[1] as int * s.r[2] as int))))
  {
    DecodeArithmetic();
    hide Decode;
  }

  lemma ExecuteSavePc(s: Cpu)
    requires s.Valid()
    ensures Execute(s, Decode(SAVE_PC)) == Some(s.(r := Next(s, LR, ToWord(s.r[PC] as int + 8))))
  {
    DecodeControl();
    hide Decode;
  }

  lemma ExecuteIncrementLr(s: Cpu)
    requires s.Valid()
    ensures Execute(s, Decode(INCREMENT_LR)) == Some(s.(r := Next(s, LR, ToWord(s.r[LR] as int + 4))))
  {
    DecodeControl();
    hide Decode;
  }

  lemma ExecuteJumps(s: Cpu)
    requires s.Valid()
    ensures s.r[4] % 4 == 0 ==> Execute(s, Decode(GOTO_R4)) == Some(s.(r := s.r[PC := s.r[4]]))
    ensures s.r[LR] % 4 == 0 ==> Execute(s, Decode(EXIT)) == Some(s.(r := s.r[PC := s.r[LR]]))
  {
    DecodeControl();
    hide Decode;
  }

  lemma ExecuteSave(s: Cpu)
    requires s.Valid() && s.r[SP] >= 8 && Mapped(s, s.r[SP] - 8) && Mapped(s, s.r[SP] - 4)
    ensures Execute(s, Decode(PUSH_R4_LR))
         == Some(Cpu(Next(s, SP, s.r[SP] - 8), s.mem[s.r[SP] - 8 := s.r[4]][s.r[SP] - 4 := s.r[LR]]))
  {
    DecodeStack();
    ListedSavedPair();
    hide Decode, Listed;
    var low := s.r[SP] - 8;
    var s1 := s.(mem := s.mem[low := s.r[4]]);
    var s2 := s1.(mem := s1.mem[low + 4 := s.r[LR]]);
    assert [4, LR][1..] == [LR] && [LR][1..] == [];
    assert StoreAll(s2, [], low + 8) == Some(s2);
    assert StoreAll(s1, [LR], low + 4) == Some(s2);
    assert StoreAll(s, [4, LR], low) == Some(s2);
  }

  lemma ExecuteRestore(s: Cpu)
    requires s.Valid() && s.r[SP] + 8 < WORD && Mapped(s, s.r[SP]) && Mapped(s, s.r[SP] + 4)
    ensures Execute(s, Decode(POP_R4_LR))
         == Some(s.(r := Next(s, SP, s.r[SP] + 8)[4 := s.mem[s.r[SP]]][LR := s.mem[s.r[SP] + 4]]))
  {
    DecodeStack();
    ListedSavedPair();
    hide Decode, Listed;
    var low := s.r[SP];
    var v4, vl := s.mem[low], s.mem[low + 4];
    var s1 := s.(r := s.r[4 := v4]);
    var s2 := s1.(r := s1.r[LR := vl]);
    assert [4, LR][1..] == [LR] && [LR][1..] == [];
    assert LoadAll(s2, [], low + 8) == Some(s2);
    assert LoadAll(s1, [LR], low + 4) == Some(s2);
    assert LoadAll(s, [4, LR], low) == Some(s2);
    assert s.r[4 := v4][LR := vl][SP := low + 8][PC := ToWord(s.r[PC] as int + 4)]
        == Next(s, SP, low + 8)[4 := v4][LR := vl];
  }
}
