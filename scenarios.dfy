/**
 * The programs of the simulator's own test suite, each generalised over the
 * immediates it uses: a fresh `Computer` is loaded with the instructions and
 * runs a number of fetch-execute cycles, as `Run` describes and
 * `RunProgram` performs on the class.
 */
module Scenarios {
  import opened Binary
  import opened Int32
  import opened InstructionString
  import opened Instructions
  import opened Engine
  import opened Encoding
  import opened ExecuteProperties

  /**
   * `i` is an immediate-shape record with the mnemonic of opcode `op`,
   * registers `rs` and `rt` and immediate field `imm`, its signed
   * immediate read as the simulator reads it. `ImmediateWordFields` shows
   * that decoding the word `EncodeImmediate` builds gives such a record.
   */
  predicate ImmediateFields(i: Instr, op: int, rs: int, rt: int, imm: int)
  {
    && ImmediateOperands(i) && i.name == ImmediateName(op)
    && i.source == rs && i.target == rt && i.immediateUnsigned == imm
    && (imm < 0x8000 ==> i.immediateSigned == imm)
    && (imm >= 0xC000 ==> i.immediateSigned == imm - 0x1_0000)
    && (imm >= 0x8000 ==> i.immediateSigned < 0)
  }

  /** `i` is a register-shape record with the mnemonic of function code `fn` and these registers. */
  predicate RegisterFields(i: Instr, rs: int, rt: int, rd: int, fn: int)
  {
    && RegisterOperands(i) && i.name == RegisterName(0, fn)
    && i.source == rs && i.target == rt && i.destination == rd
  }

  /** `i` is the `jump` record with address field `addr`, read as the simulator reads it. */
  predicate JumpFields(i: Instr, addr: int)
  {
    && i.Jump? && i.name == Some(JUMP)
    && (addr < 0x200_0000 ==> i.jumpAddress == addr)
    && (addr >= 0x200_0000 ==> i.jumpAddress < 0)
  }

  /** `new ImmediateInstruction(...)` on an encoded word is a decoded record with the fields it was built from. */
  lemma ImmediateWordFields(op: nat, rs: nat, rt: nat, imm: nat)
    requires op < 64 && op != 0 && op != 2 && rs < 32 && rt < 32 && imm < 0x1_0000
    ensures var i := NewImmediate(EncodeImmediate(op, rs, rt, imm));
      Decoded(i) && ImmediateFields(i, op, rs, rt, imm)
  {
    ImmediateFieldsRoundTrip(op, rs, rt, imm);
    EncodedImmediateSigned(op, rs, rt, imm);
  }

  /** `new RegisterInstruction(...)` on an encoded word is a decoded record with the fields it was built from. */
  lemma RegisterWordFields(rs: nat, rt: nat, rd: nat, fn: nat)
    requires rs < 32 && rt < 32 && rd < 32 && fn < 64
    ensures var i := NewRegister(EncodeRegister(0, rs, rt, rd, 0, fn));
      Decoded(i) && RegisterFields(i, rs, rt, rd, fn)
  {
    RegisterFieldsRoundTrip(0, rs, rt, rd, 0, fn);
  }

  /** `new JumpInstruction(...)` on an encoded word is a decoded record with the address it was built from. */
  lemma JumpWordFields(addr: nat)
    requires addr < 0x400_0000
    ensures var i := NewJump(EncodeJump(2, addr));
      Decoded(i) && JumpFields(i, addr)
  {
    JumpFieldsRoundTrip(2, addr);
  }

  /** The state of a new `Computer`: every register and memory cell zero, pc 0. */
  function Initial(): (m: Machine)
    ensures WellSized(m) && m.pc == 0
    ensures forall k :: 0 <= k < MAX_REGISTERS ==> m.gpr[k] == 0
    ensures forall a :: 0 <= a < MAX_MEMORY ==> m.mem[a] == 0
  {
    Machine(seq(MAX_REGISTERS, _ => 0), seq(MAX_MEMORY, _ => 0), 0)
  }

  /** A program that fits the instruction memory, every instruction built by the factory from its word. */
  predicate Loadable(prog: seq<Instr>)
  {
    |prog| <= MAX_MEMORY && forall k {:trigger Decoded(prog[k])} :: 0 <= k < |prog| ==> Decoded(prog[k])
  }

  /** A loaded instruction runs the operation its mnemonic names, from any machine. */
  lemma LoadedFollowsName(prog: seq<Instr>, k: int, m: Machine)
    requires Loadable(prog) && 0 <= k < |prog| && WellSized(m)
    ensures Executable(prog[k]) && Named(prog[k])
    ensures Step(m, |prog|, prog[k]) == ByName(m, |prog|, prog[k])
  {
    assert Decoded(prog[k]);
    StepFollowsName(m, |prog|, prog[k]);
  }

  /**
   * `n` fetch-execute cycles on a new computer loaded with `prog`, each
   * running the operation the fetched instruction's mnemonic names
   * (`StepFollowsName`). Once pc is off the program the remaining cycles
   * change nothing: there `fetch` yields no instruction and `execute` throws.
   */
  function Run(prog: seq<Instr>, n: nat): (r: Machine)
    ensures WellSized(r)
  {
    if n == 0 then Initial()
    else
      var m := Run(prog, n - 1);
      if 0 <= m.pc < |prog| <= MAX_MEMORY && Named(prog[m.pc]) then ByName(m.(pc := m.pc + 1), |prog|, prog[m.pc])
      else m
  }

  /** The cycle after the first `n`. */
  lemma RunNext(prog: seq<Instr>, n: nat)
    ensures var m := Run(prog, n);
      Run(prog, n + 1) ==
        if 0 <= m.pc < |prog| <= MAX_MEMORY && Named(prog[m.pc]) then ByName(m.(pc := m.pc + 1), |prog|, prog[m.pc])
        else m
  {
  }

  /** A test's set-up: a new computer with every instruction of `prog` inserted in order. */
  method Load(prog: seq<Instr>) returns (c: Computer)
    requires |prog| <= MAX_MEMORY
    ensures fresh(c) && fresh(c.gpr) && fresh(c.mem) && c.Valid() && c.ic == |prog|
    ensures forall k :: 0 <= k < |prog| ==> c.instructions[k] == Some(prog[k])
    ensures c.State() == Initial()
  {
    c := new Computer();
    ghost var start := c.State();
    assert start == Initial();
    for k := 0 to |prog|
      invariant c.Valid() && fresh(c) && fresh(c.instructions) && fresh(c.gpr) && fresh(c.mem) && c.ic == k
      invariant forall j :: 0 <= j < k ==> c.instructions[j] == Some(prog[j])
      invariant c.State() == start
    {
      c.InsertInstruction(prog[k]);
    }
  }

  /** The cycle after the first `n`, while pc is on the program: the record there runs by `Step`. */
  lemma RunAdvance(prog: seq<Instr>, n: nat)
    requires Loadable(prog) && 0 <= Run(prog, n).pc < |prog|
    ensures var m := Run(prog, n);
      Executable(prog[m.pc]) && Run(prog, n + 1) == Step(m.(pc := m.pc + 1), |prog|, prog[m.pc])
  {
    var m := Run(prog, n);
    LoadedFollowsName(prog, m.pc, m.(pc := m.pc + 1));
    RunNext(prog, n);
  }

  /** `fetch` then `execute`: the record in slot pc runs on the advanced program counter. */
  method FetchExecute(c: Computer, ghost i: Instr)
    requires c.Valid() && 0 <= c.pc < c.ic && c.instructions[c.pc] == Some(i) && Executable(i)
    modifies c`pc, c`ir, c.gpr, c.mem
    ensures c.Valid() && c.State() == Step(old(c.State()).(pc := old(c.pc) + 1), c.ic, i)
  {
    ghost var advanced := c.State().(pc := c.pc + 1);
    c.Fetch();
    assert c.ir == Some(i) && c.State() == advanced;
    c.Execute();
  }

  /**
   * One round of `fetch` then `execute` on the loaded program: the
   * computer moves from `Run(prog, n)` to `Run(prog, n + 1)`. Once the
   * program counter is off the program, `fetch` would yield no instruction
   * and the round is not taken.
   */
  method Cycle(c: Computer, prog: seq<Instr>, ghost n: nat)
    requires Loadable(prog) && c.Valid() && c.ic == |prog|
    requires forall k :: 0 <= k < |prog| ==> c.instructions[k] == Some(prog[k])
    requires c.State() == Run(prog, n)
    modifies c`pc, c`ir, c.gpr, c.mem
    ensures c.Valid() && c.State() == Run(prog, n + 1)
  {
    if 0 <= c.pc < c.ic {
      ghost var i := prog[c.pc];
      assert c.instructions[c.pc] == Some(i);
      RunAdvance(prog, n);
      ghost var next := Step(c.State().(pc := c.pc + 1), c.ic, i);
      assert next == Run(prog, n + 1);
      FetchExecute(c, i);
    } else {
      RunNext(prog, n);
    }
  }

  /** A test's body: `cycles` rounds of `fetch` and `execute` on the loaded program. */
  method RunCycles(c: Computer, prog: seq<Instr>, cycles: nat)
    requires Loadable(prog) && c.Valid() && c.ic == |prog| && c.State() == Initial()
    requires forall k :: 0 <= k < |prog| ==> c.instructions[k] == Some(prog[k])
    modifies c`pc, c`ir, c.gpr, c.mem
    ensures c.Valid() && c.State() == Run(prog, cycles)
  {
    for i := 0 to cycles
      invariant c.Valid() && c.ic == |prog|
      invariant forall k :: 0 <= k < |prog| ==> c.instructions[k] == Some(prog[k])
      invariant c.State() == Run(prog, i)
    {
      Cycle(c, prog, i);
    }
  }

  /** A whole test: load `prog`, run `cycles` rounds, and the computer is where `Run` says. */
  method RunProgram(prog: seq<Instr>, cycles: nat) returns (c: Computer)
    requires Loadable(prog)
    ensures fresh(c) && c.Valid() && c.State() == Run(prog, cycles)
  {
    c := Load(prog);
    RunCycles(c, prog, cycles);
  }

  /** The program counter never leaves [0, |prog|]: it steps by one or branches to a loaded slot. */
  lemma {:induction false} RunPcInRange(prog: seq<Instr>, n: nat)
    requires |prog| <= MAX_MEMORY
    ensures 0 <= Run(prog, n).pc <= |prog|
  {
    if n > 0 {
      RunPcInRange(prog, n - 1);
      var m := Run(prog, n - 1);
      RunNext(prog, n - 1);
      if 0 <= m.pc < |prog| <= MAX_MEMORY && Named(prog[m.pc]) {
        ByNameFrame(m.(pc := m.pc + 1), |prog|, prog[m.pc]);
      }
    }
  }

  /** The first cycle runs the first record on a new computer. */
  lemma RunFirst(prog: seq<Instr>)
    requires 0 < |prog| <= MAX_MEMORY && Named(prog[0])
    ensures Run(prog, 1) == ByName(Initial().(pc := 1), |prog|, prog[0])
  {
    RunNext(prog, 0);
  }

  /** After `n` cycles that end at slot `n - 1` with a non-control record, cycle `n + 1` runs slot `n`. */
  lemma RunStraight(prog: seq<Instr>, n: nat)
    requires 0 < n < |prog| <= MAX_MEMORY && Plain(prog[n - 1]) && Named(prog[n])
    requires Run(prog, n) == ByName(Run(prog, n - 1).(pc := n), |prog|, prog[n - 1])
    ensures Run(prog, n + 1) == ByName(Run(prog, n).(pc := n + 1), |prog|, prog[n])
  {
    NonControlKeepsPc(Run(prog, n - 1).(pc := n), |prog|, prog[n - 1]);
    RunNext(prog, n);
  }

  /** A one-instruction program: its one cycle runs the record on a new computer. */
  lemma RunOne(a: Instr)
    requires Named(a)
    ensures Run([a], 1) == ByName(Initial().(pc := 1), 1, a)
  {
    RunNext([a], 0);
  }

  /** A two-instruction program that opens with a non-control record runs both records in order. */
  lemma RunTwo(a: Instr, b: Instr)
    requires Plain(a) && Named(b)
    ensures Run([a, b], 1) == ByName(Initial().(pc := 1), 2, a)
    ensures Run([a, b], 2) == ByName(Run([a, b], 1).(pc := 2), 2, b)
  {
    var prog := [a, b];
    RunFirst(prog);
    RunStraight(prog, 1);
  }

  /** A three-instruction program whose first two records are not control operations runs all three in order. */
  lemma RunThree(a: Instr, b: Instr, c: Instr)
    requires Plain(a) && Plain(b) && Named(c)
    ensures Run([a, b, c], 1) == ByName(Initial().(pc := 1), 3, a)
    ensures Run([a, b, c], 2) == ByName(Run([a, b, c], 1).(pc := 2), 3, b)
    ensures Run([a, b, c], 3) == ByName(Run([a, b, c], 2).(pc := 3), 3, c)
  {
    var prog := [a, b, c];
    RunFirst(prog);
    RunStraight(prog, 1);
    RunStraight(prog, 2);
  }

  /**
   * `shouldNotExectuteJrNegativeValue` (`addi $0, $0, imm` then `jr $0`):
   * a negative target is not taken, and the sum is the immediate
   * sign-extended.
   */
  lemma JrNegativeTarget(addi: Instr, jr: Instr, imm: nat)
    requires 0x8000 <= imm < 0x1_0000
    requires ImmediateFields(addi, 8, 0, 0, imm) && RegisterFields(jr, 0, 0, 0, 8)
    ensures var m := Run([addi, jr], 2);
      && m.gpr[0] < 0 && m.pc == 2
      && (imm >= 0xC000 ==> m.gpr[0] == imm - 0x1_0000)
  {
    RunTwo(addi, jr);
  }

  /**
   * `shouldNotExectuteJrOutOfBounds` (`addi $0, $0, imm` then `jr $0`): a
   * non-negative target is taken only when it is a loaded slot.
   */
  lemma JrTarget(addi: Instr, jr: Instr, imm: nat)
    requires imm < 0x8000
    requires ImmediateFields(addi, 8, 0, 0, imm) && RegisterFields(jr, 0, 0, 0, 8)
    ensures var m := Run([addi, jr], 2);
      m.gpr[0] == imm && m.pc == if imm < 2 then imm else 2
  {
    RunTwo(addi, jr);
  }

  /** `shouldExectuteJumpRegister`: `jr $0` with $0 still zero jumps back to slot 0. */
  lemma JrToStart(jr: Instr)
    requires RegisterFields(jr, 0, 0, 0, 8)
    ensures Run([jr], 1).pc == 0
  {
    RunOne(jr);
  }

  /** `shouldExectuteAdd`: `add $0, $0, $0` on a new computer leaves $0 zero. */
  lemma AddOfZeros(add: Instr)
    requires RegisterFields(add, 0, 0, 0, 20)
    ensures Run([add], 1).gpr[0] == 0 && Run([add], 1).pc == 1
  {
    RunOne(add);
  }

  /** `shouldExecuteAddu` (`addi $0, $0, imm` then `addu $0, $0, $0`): the register doubles. */
  lemma AdduDoubles(addi: Instr, addu: Instr, imm: nat)
    requires imm < 0x8000
    requires ImmediateFields(addi, 8, 0, 0, imm) && RegisterFields(addu, 0, 0, 0, 21)
    ensures Run([addi, addu], 2).gpr[0] == 2 * imm
  {
    RunTwo(addi, addu);
  }

  /** `shouldExectureAnd` (`addi $0, $0, imm` then `and $1, $0, $1`): and with a zero register is zero. */
  lemma AndWithZero(addi: Instr, and: Instr, imm: nat)
    requires imm < 0x1_0000
    requires ImmediateFields(addi, 8, 0, 0, imm) && RegisterFields(and, 0, 1, 1, 24)
    ensures var m := Run([addi, and], 2); m.gpr[1] == 0 && m.gpr[0] == addi.immediateSigned
  {
    RunTwo(addi, and);
    var m1 := Run([addi, and], 1);
    assert m1.gpr[0] == addi.immediateSigned && m1.gpr[1] == 0;
    AndZero(addi.immediateSigned);
  }

  /** `shouldExecuteOr` (`addi $0, $0, imm` then `or $1, $0, $1`): or with a zero register copies $0. */
  lemma OrWithZero(addi: Instr, or: Instr, imm: nat)
    requires imm < 0x1_0000
    requires ImmediateFields(addi, 8, 0, 0, imm) && RegisterFields(or, 0, 1, 1, 25)
    ensures var m := Run([addi, or], 2); m.gpr[1] == m.gpr[0] == addi.immediateSigned
  {
    RunTwo(addi, or);
    var m1 := Run([addi, or], 1);
    assert m1.gpr[0] == addi.immediateSigned && m1.gpr[1] == 0;
    OrZero(addi.immediateSigned);
  }

  /** `shouldExecuteNoRegisterInstruction`: a function code outside the table has no name and does nothing. */
  lemma UnlistedFunctionCode(r: Instr, fn: nat)
    requires fn !in RegisterCodes && RegisterFields(r, 0, 1, 1, fn)
    ensures r.name == None && Run([r], 1) == Initial().(pc := 1)
  {
    RunOne(r);
  }

  /**
   * `shouldExecuteJump`, `shouldNotExecuteJumpOutOfBounds` and
   * `shouldNotExecuteJumpNegativeValue`: a lone `jump` is taken only to
   * slot 0; any other address, negative ones included, is skipped.
   */
  lemma JumpAlone(j: Instr, addr: nat)
    requires JumpFields(j, addr)
    ensures Run([j], 1).pc == if addr == 0 then 0 else 1
  {
    RunOne(j);
  }

  /**
   * `shouldExecuteBeq` and the three tests after it (`addiu $0, $0, x`,
   * `addiu $1, $1, y`, `beq $0, $1, t`): the branch is taken exactly when
   * the registers are equal and the target is one of the three loaded slots.
   */
  lemma BeqAfterTwoAddius(a0: Instr, a1: Instr, beq: Instr, x: nat, y: nat, t: nat)
    requires ImmediateFields(a0, 9, 0, 0, x) && ImmediateFields(a1, 9, 1, 1, y)
    requires ImmediateFields(beq, 4, 0, 1, t)
    ensures Run([a0, a1, beq], 3).pc ==
      if x == y && 0 <= beq.immediateSigned < 3 then beq.immediateSigned as int else 3
  {
    RunThree(a0, a1, beq);
  }

  /**
   * `shouldExecuteBne` and the three tests after it, with `bne` in place of
   * `beq`: taken exactly when the registers differ and the target is loaded.
   */
  lemma BneAfterTwoAddius(a0: Instr, a1: Instr, bne: Instr, x: nat, y: nat, t: nat)
    requires ImmediateFields(a0, 9, 0, 0, x) && ImmediateFields(a1, 9, 1, 1, y)
    requires ImmediateFields(bne, 5, 0, 1, t)
    ensures Run([a0, a1, bne], 3).pc ==
      if x != y && 0 <= bne.immediateSigned < 3 then bne.immediateSigned as int else 3
  {
    RunThree(a0, a1, bne);
  }

  /** `shouldExecuteAddi`: `addi $0, $0, imm` stores the immediate sign-extended (0xFFFF gives -1). */
  lemma AddiAlone(addi: Instr, imm: nat)
    requires ImmediateFields(addi, 8, 0, 0, imm)
    ensures var r := Run([addi], 1).gpr[0];
      && (imm < 0x8000 ==> r == imm)
      && (imm >= 0xC000 ==> r == imm - 0x1_0000)
      && (imm >= 0x8000 ==> r < 0)
  {
    RunOne(addi);
  }

  /** `shouldExecuteAddiu`: `addiu $0, $0, imm` stores the immediate zero-extended (0xFFFF gives 65535). */
  lemma AddiuAlone(addiu: Instr, imm: nat)
    requires ImmediateFields(addiu, 9, 0, 0, imm)
    ensures Run([addiu], 1).gpr[0] == imm
  {
    RunOne(addiu);
  }

  /** `shouldExecuteAndi` (`addiu $0, $0, x` then `andi $0, $0, 0`): the register is cleared. */
  lemma AndiClears(addiu: Instr, andi: Instr, x: nat)
    requires ImmediateFields(addiu, 9, 0, 0, x) && ImmediateFields(andi, 12, 0, 0, 0)
    ensures Run([addiu, andi], 2).gpr[0] == 0
  {
    RunTwo(addiu, andi);
    AndZero(x);
  }

  /**
   * `shouldExecuteOri` (`addiu $0, $0, x` then `ori $0, $0, y`): the
   * register holds `x | y`; `OrExample` works out the test's 65533 | 2.
   */
  lemma OriCombines(addiu: Instr, ori: Instr, x: nat, y: nat)
    requires y < 0x8000
    requires ImmediateFields(addiu, 9, 0, 0, x) && ImmediateFields(ori, 13, 0, 0, y)
    ensures Run([addiu, ori], 2).gpr[0] == Or32(x, y)
  {
    RunTwo(addiu, ori);
  }

  /**
   * `shouldExecuteLw` (`addiu $0, $0, x`, `sw $0, d($0)`, `lw $0, d($0)`):
   * with the address inside memory, the store lands at `x + d` and the load
   * reads the stored value back.
   */
  lemma LoadAfterStore(addiu: Instr, sw: Instr, lw: Instr, x: nat, d: nat)
    requires d < 0x8000 && x + d < MAX_MEMORY
    requires ImmediateFields(addiu, 9, 0, 0, x)
    requires ImmediateFields(sw, 43, 0, 0, d) && ImmediateFields(lw, 23, 0, 0, d)
    ensures var m := Run([addiu, sw, lw], 3);
      m.gpr[0] == x && m.mem == Initial().mem[x + d := x]
  {
    RunThree(addiu, sw, lw);
  }

  /**
   * `shouldNotExecuteLwMaxMemReached` and `shouldNotExecuteLwNegativeMem`
   * (`addi $0, $0, x` then `lw $0, d($0)`): an address outside memory leaves
   * the register as `addi` set it.
   */
  lemma LoadOutside(addi: Instr, lw: Instr, x: nat, d: nat)
    requires (x < 0x8000 || x >= 0xC000) && (d < 0x8000 || d >= 0xC000)
    requires ImmediateFields(addi, 8, 0, 0, x) && ImmediateFields(lw, 23, 0, 0, d)
    requires var a := addi.immediateSigned as int + lw.immediateSigned; a < 0 || a >= MAX_MEMORY
    ensures Run([addi, lw], 2).gpr[0] == addi.immediateSigned
  {
    RunTwo(addi, lw);
  }

  /**
   * `shouldExecuteSw` (`addiu $0, $0, x` then `sw $0, d($0)`): memory
   * changes at `x + d` only, so with x = d = 1 cell 1 stays zero.
   */
  lemma StoreInside(addiu: Instr, sw: Instr, x: nat, d: nat)
    requires d < 0x8000 && x + d < MAX_MEMORY
    requires ImmediateFields(addiu, 9, 0, 0, x) && ImmediateFields(sw, 43, 0, 0, d)
    ensures Run([addiu, sw], 2).mem == Initial().mem[x + d := x]
  {
    RunTwo(addiu, sw);
  }

  /**
   * `shouldExecuteSwMaxMemReached` and `shouldExecuteSwNegativeMemory`
   * (`addi $0, $0, x` then `sw $0, d($0)`): an address outside memory
   * leaves memory untouched.
   */
  lemma StoreOutside(addi: Instr, sw: Instr, x: nat, d: nat)
    requires (x < 0x8000 || x >= 0xC000) && (d < 0x8000 || d >= 0xC000)
    requires ImmediateFields(addi, 8, 0, 0, x) && ImmediateFields(sw, 43, 0, 0, d)
    requires var a := addi.immediateSigned as int + sw.immediateSigned; a < 0 || a >= MAX_MEMORY
    ensures Run([addi, sw], 2).mem == Initial().mem
  {
    RunTwo(addi, sw);
  }
}
