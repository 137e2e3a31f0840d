/**
 * What one `execute` does, stated against the instruction's mnemonic rather
 * than against the codes the dispatcher reads, and how the operations
 * relate to each other.
 */
module ExecuteProperties {
  import opened Binary
  import opened Int32
  import opened InstructionString
  import opened Instructions
  import opened Engine

  /** The mnemonics of the operations that only move the program counter. */
  predicate ControlMnemonic(n: Mnemonic)
  {
    n.JR? || n.JUMP? || n.BEQ? || n.BNE?
  }

  /** The operations that only move the program counter. */
  predicate IsControl(i: Instr)
  {
    i.name.Some? && ControlMnemonic(i.name.value)
  }

  /** The register an operation writes: the destination of a register shape, the target otherwise. */
  function Written(i: Instr): nat
    requires i.Register? || i.Immediate?
  {
    if i.Register? then i.destination else i.target
  }

  /** Mnemonic `n` fits the shape of `i`: the registers it names index the register file. */
  predicate Fits(n: Mnemonic, i: Instr)
  {
    && (RegisterMnemonic(n) ==> RegisterOperands(i))
    && (n == JUMP ==> i.Jump?)
    && (ImmediateMnemonic(n) ==> ImmediateOperands(i))
  }

  /** A record whose mnemonic, if it has one, fits its shape. */
  predicate Named(i: Instr)
  {
    i.name.Some? ==> Fits(i.name.value, i)
  }

  /** A named record that is not a control operation: after it, execution goes on at the next slot. */
  predicate Plain(i: Instr)
  {
    Named(i) && !IsControl(i)
  }

  /** The operation the mnemonic names; unnamed records change nothing. */
  function ByName(m: Machine, ic: int, i: Instr): Machine
    requires WellSized(m) && Named(i)
  {
    match i.name
    case None => m
    case Some(n) =>
      match n
      case JR => JrStep(m, ic, i)
      case ADD => AddStep(m, i)
      case ADDU => AdduStep(m, i)
      case AND => AndStep(m, i)
      case OR => OrStep(m, i)
      case JUMP => JumpStep(m, ic, i)
      case BEQ => BeqStep(m, ic, i)
      case BNE => BneStep(m, ic, i)
      case ADDI => AddiStep(m, i)
      case ADDIU => AddiuStep(m, i)
      case ANDI => AndiStep(m, i)
      case ORI => OriStep(m, i)
      case LW => LwStep(m, i)
      case SW => SwStep(m, i)
  }

  /**
   * A 6-bit function code read through `twosComplement` is in the register
   * table exactly when its unsigned value is, and then the two agree: a
   * code with its top bit set reads as negative, and is unnamed as well.
   */
  lemma FunctionCodeAgrees(f: string)
    requires IsBinary(f) && |f| == 6
    ensures TwosComplement(f) in RegisterCodes <==> Unsigned(f) in RegisterCodes
    ensures Unsigned(f) in RegisterCodes ==> TwosComplement(f) == Unsigned(f)
  {
    var u, t := Unsigned(f), TwosComplement(f);
    assert Pow2(5) == 32 && Pow2(6) == 64 by { Pow2Values(); }
    if f[0] == '1' {
      assert u >= 32 && t < 0;
      assert u !in RegisterCodes && t !in RegisterCodes;
    } else {
      assert t == u;
    }
  }

  /** Register shape: the function-code stage does the work and the opcode stage matches nothing. */
  lemma RegisterDispatch(m: Machine, ic: int, i: Instr)
    requires WellSized(m) && ValidWord(i.word) && OpcodeValue(i.word) == 0
    requires i.Register? && RegisterOperands(i) && IsBinary(i.funct) && |i.funct| == 6
    requires i.name == RegisterName(0, Unsigned(i.funct))
    ensures Executable(i) && Named(i)
    ensures Step(m, ic, i) == ByName(m, ic, i)
  {
    FunctionCodeAgrees(i.funct);
    var first := FunctionStage(m, ic, i);
    assert OpcodeStage(first, ic, i) == first;
  }

  /** Jump shape: opcode 2, named `jump`. */
  lemma JumpDispatch(m: Machine, ic: int, i: Instr)
    requires WellSized(m) && ValidWord(i.word) && OpcodeValue(i.word) == 2
    requires i.Jump? && i.name == Some(JUMP)
    ensures Executable(i) && Named(i)
    ensures Step(m, ic, i) == ByName(m, ic, i)
  {
    assert FunctionStage(m, ic, i) == m;
  }

  /** Immediate shape: the opcode stage and the immediate table read the same opcode. */
  lemma ImmediateDispatch(m: Machine, ic: int, i: Instr)
    requires WellSized(m) && ValidWord(i.word) && OpcodeValue(i.word) != 0 && OpcodeValue(i.word) != 2
    requires ImmediateOperands(i) && i.name == ImmediateName(OpcodeValue(i.word))
    ensures Executable(i) && Named(i)
    ensures Step(m, ic, i) == ByName(m, ic, i)
  {
    assert FunctionStage(m, ic, i) == m;
  }

  /** The dispatcher of `execute` runs exactly the operation a decoded record's mnemonic names. */
  lemma StepFollowsName(m: Machine, ic: int, i: Instr)
    requires WellSized(m) && Decoded(i)
    ensures Executable(i) && Named(i)
    ensures Step(m, ic, i) == ByName(m, ic, i)
  {
    var w := i.word;
    if OpcodeValue(w) == 0 {
      assert i == NewRegister(w);
      RegisterDispatch(m, ic, i);
    } else if OpcodeValue(w) == 2 {
      assert i == NewJump(w);
      JumpDispatch(m, ic, i);
    } else {
      assert i == NewImmediate(w);
      ImmediateDispatch(m, ic, i);
    }
  }

  /** A record whose code is in no table (its name is absent) executes as a no-op. */
  lemma UnnamedIsNoOp(m: Machine, ic: int, i: Instr)
    requires WellSized(m) && Decoded(i) && i.name.None?
    ensures Executable(i)
    ensures Step(m, ic, i) == m
  {
    StepFollowsName(m, ic, i);
  }

  /**
   * What the named operation may change: a control operation only the
   * program counter, and only to a loaded slot; `sw` one memory cell; every
   * other operation the one register it writes.
   */
  lemma ByNameFrame(m: Machine, ic: int, i: Instr)
    requires WellSized(m) && Named(i)
    ensures var r := ByName(m, ic, i);
      && |r.gpr| == |m.gpr| && |r.mem| == |m.mem|
      && (r.pc == m.pc || (IsControl(i) && 0 <= r.pc < ic))
      && (IsControl(i) || i.name.None? ==> r.gpr == m.gpr && r.mem == m.mem)
      && (i.name == Some(SW) ==>
            r.gpr == m.gpr && forall a :: 0 <= a < MAX_MEMORY && a != Address(m, i) ==> r.mem[a] == m.mem[a])
      && (i.name.Some? && !IsControl(i) && i.name != Some(SW) ==>
            r.mem == m.mem && forall k :: 0 <= k < MAX_REGISTERS && k != Written(i) ==> r.gpr[k] == m.gpr[k])
  {
  }

  /** A named operation that is not a control operation leaves the program counter where it was. */
  lemma NonControlKeepsPc(m: Machine, ic: int, i: Instr)
    requires WellSized(m) && Plain(i)
    ensures ByName(m, ic, i).pc == m.pc
  {
    ByNameFrame(m, ic, i);
  }

  /** What one `execute` of a decoded record may change, as `ByNameFrame` states it. */
  lemma StepFrame(m: Machine, ic: int, i: Instr)
    requires WellSized(m) && Decoded(i)
    ensures Executable(i) && Named(i)
    ensures var r := Step(m, ic, i);
      && |r.gpr| == |m.gpr| && |r.mem| == |m.mem|
      && (r.pc == m.pc || (IsControl(i) && 0 <= r.pc < ic))
      && (IsControl(i) || i.name.None? ==> r.gpr == m.gpr && r.mem == m.mem)
      && (i.name == Some(SW) ==>
            r.gpr == m.gpr && forall a :: 0 <= a < MAX_MEMORY && a != Address(m, i) ==> r.mem[a] == m.mem[a])
      && (i.name.Some? && !IsControl(i) && i.name != Some(SW) ==>
            r.mem == m.mem && forall k :: 0 <= k < MAX_REGISTERS && k != Written(i) ==> r.gpr[k] == m.gpr[k])
  {
    StepFollowsName(m, ic, i);
    ByNameFrame(m, ic, i);
  }

  /** `add` and `addu` store the same bits: masking to unsigned does not change the low 32 bits of the sum. */
  lemma AddAgreesWithAddu(m: Machine, r: Instr)
    requires WellSized(m) && RegisterOperands(r)
    ensures AddStep(m, r) == AdduStep(m, r)
  {
    var a, b := m.gpr[r.source], m.gpr[r.target];
    Wrap32Congruent(a as int + b, Unsigned32(a) + Unsigned32(b));
  }

  /** With the immediate's sign bit clear, a decoded record's two immediates are the same number. */
  lemma NonNegativeImmediate(i: Instr)
    requires Decoded(i) && i.Immediate? && i.word[16] == '0'
    ensures ImmediateOperands(i)
    ensures i.immediateSigned as int == i.immediateUnsigned
  {
    assert i == NewImmediate(i.word);
  }

  /**
   * When the two immediates agree (for a decoded record: when its sign bit
   * is clear, by `NonNegativeImmediate`), `addiu` and `addi` store the same value.
   */
  lemma AddiuAgreesWithAddi(m: Machine, i: Instr)
    requires WellSized(m) && ImmediateOperands(i) && i.immediateSigned as int == i.immediateUnsigned
    ensures AddiuStep(m, i) == AddiStep(m, i)
  {
  }

  /** A word stored by `sw` and loaded back by `lw` from the same address is the stored register. */
  lemma StoreThenLoad(m: Machine, s: Instr, l: Instr)
    requires WellSized(m) && ImmediateOperands(s) && ImmediateOperands(l)
    requires 0 <= Address(m, s) < MAX_MEMORY
    requires Address(SwStep(m, s), l) == Address(m, s)
    ensures LwStep(SwStep(m, s), l).gpr[l.target] == m.gpr[s.target]
    ensures LwStep(SwStep(m, s), l).mem == m.mem[Address(m, s) := m.gpr[s.target]]
  {
  }

  /**
   * `beq` and `bne` check the target's bounds and the registers in
   * different orders, yet with the same fields one branches exactly when
   * the other does not.
   */
  lemma BeqBneOpposite(m: Machine, ic: int, r: Instr)
    requires WellSized(m) && ImmediateOperands(r)
    ensures var taken := m.(pc := r.immediateSigned);
      var inRange := 0 <= r.immediateSigned < ic;
      var equal := m.gpr[r.source] == m.gpr[r.target];
      && BeqStep(m, ic, r) == (if inRange && equal then taken else m)
      && BneStep(m, ic, r) == (if inRange && !equal then taken else m)
  {
  }
}
