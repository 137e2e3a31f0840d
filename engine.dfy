/**
 * The execution engine: registers, data memory, the loaded instructions and
 * the program counter, with fetch, the two-stage dispatch of `execute` and
 * the fourteen operation handlers.
 *
 * Each handler is specified by a function on `Machine`, the part of the
 * state that execution may change; `Step` is `execute` on that value.
 */
module Engine {
  import opened Binary
  import opened Int32
  import opened InstructionString
  import opened Instructions

  const MAX_MEMORY: int := 64
  const MAX_REGISTERS: int := 32

  /** Registers, data memory and program counter. */
  datatype Machine = Machine(gpr: seq<int32>, mem: seq<int32>, pc: int)

  predicate WellSized(m: Machine)
  {
    |m.gpr| == MAX_REGISTERS && |m.mem| == MAX_MEMORY
  }

  /** A register-shape record whose register fields index the register file. */
  predicate RegisterOperands(r: Instr)
  {
    r.Register? && r.source < 32 && r.target < 32 && r.destination < 32
  }

  /** An immediate-shape record whose register fields index the register file. */
  predicate ImmediateOperands(r: Instr)
  {
    r.Immediate? && r.source < 32 && r.target < 32 && r.immediateUnsigned < 0x1_0000
  }

  /** The bound check shared by `jr`, `jump`, `beq` and `bne`: only targets in [0, ic) are taken. */
  function Branch(m: Machine, ic: int, target: int32): Machine
  {
    if target >= 0 && target < ic then m.(pc := target) else m
  }

  /** `add`: signed `int` addition. */
  function AddStep(m: Machine, r: Instr): Machine
    requires WellSized(m) && RegisterOperands(r)
  {
    m.(gpr := m.gpr[r.destination := Wrap32(m.gpr[r.source] as int + m.gpr[r.target])])
  }

  /** `addu`: both operands masked to unsigned 32-bit `long`s, the sum cast back to `int`. */
  function AdduStep(m: Machine, r: Instr): Machine
    requires WellSized(m) && RegisterOperands(r)
  {
    var temp1, temp2 := Unsigned32(m.gpr[r.source]), Unsigned32(m.gpr[r.target]);
    m.(gpr := m.gpr[r.destination := Wrap32(temp1 as int + temp2)])
  }

  /** `and`. */
  function AndStep(m: Machine, r: Instr): Machine
    requires WellSized(m) && RegisterOperands(r)
  {
    m.(gpr := m.gpr[r.destination := And32(m.gpr[r.source], m.gpr[r.target])])
  }

  /** `or`. */
  function OrStep(m: Machine, r: Instr): Machine
    requires WellSized(m) && RegisterOperands(r)
  {
    m.(gpr := m.gpr[r.destination := Or32(m.gpr[r.source], m.gpr[r.target])])
  }

  /** `jr`: jump to the value held in the source register. */
  function JrStep(m: Machine, ic: int, r: Instr): Machine
    requires WellSized(m) && RegisterOperands(r)
  {
    Branch(m, ic, m.gpr[r.source])
  }

  /** `addi`: the signed immediate added with `int` wrap-around. */
  function AddiStep(m: Machine, r: Instr): Machine
    requires WellSized(m) && ImmediateOperands(r)
  {
    m.(gpr := m.gpr[r.target := Wrap32(m.gpr[r.source] as int + r.immediateSigned)])
  }

  /**
   * `addiu`: the source register widened to `long`, printed unsigned in
   * binary and parsed back, plus the unsigned immediate, cast to `int`.
   * The detour through the string leaves the register's value as it was,
   * so the target receives the wrapped sum with the immediate read unsigned.
   */
  function AddiuStep(m: Machine, r: Instr): (next: Machine)
    requires WellSized(m) && ImmediateOperands(r)
    ensures next == m.(gpr := m.gpr[r.target := Wrap32(m.gpr[r.source] as int + r.immediateUnsigned)])
  {
    UnsignedStringRoundTrip(m.gpr[r.source]);
    var temp1 := ParseUnsignedLong(ToUnsignedString(m.gpr[r.source]));
    var temp2 := r.immediateUnsigned;
    m.(gpr := m.gpr[r.target := Wrap32(temp1 as int + temp2)])
  }

  /** `andi`: with the sign-extended immediate. */
  function AndiStep(m: Machine, r: Instr): Machine
    requires WellSized(m) && ImmediateOperands(r)
  {
    m.(gpr := m.gpr[r.target := And32(m.gpr[r.source], r.immediateSigned)])
  }

  /** `ori`: with the sign-extended immediate. */
  function OriStep(m: Machine, r: Instr): Machine
    requires WellSized(m) && ImmediateOperands(r)
  {
    m.(gpr := m.gpr[r.target := Or32(m.gpr[r.source], r.immediateSigned)])
  }

  /** The address `lw` and `sw` use: source register plus signed immediate, as an `int` sum. */
  function Address(m: Machine, r: Instr): int32
    requires WellSized(m) && ImmediateOperands(r)
  {
    Wrap32(m.gpr[r.source] as int + r.immediateSigned)
  }

  /** `lw`: load only from an address inside memory. */
  function LwStep(m: Machine, r: Instr): Machine
    requires WellSized(m) && ImmediateOperands(r)
  {
    var address := Address(m, r);
    if address >= 0 && address < MAX_MEMORY then m.(gpr := m.gpr[r.target := m.mem[address]]) else m
  }

  /** `sw`: store only to an address inside memory. */
  function SwStep(m: Machine, r: Instr): Machine
    requires WellSized(m) && ImmediateOperands(r)
  {
    var address := Address(m, r);
    if address >= 0 && address < MAX_MEMORY then m.(mem := m.mem[address := m.gpr[r.target]]) else m
  }

  /** `beq`: registers compared first, then the target's bounds. */
  function BeqStep(m: Machine, ic: int, r: Instr): Machine
    requires WellSized(m) && ImmediateOperands(r)
  {
    if m.gpr[r.source] == m.gpr[r.target] then Branch(m, ic, r.immediateSigned) else m
  }

  /** `bne`: the target's bounds checked first, then the registers. */
  function BneStep(m: Machine, ic: int, r: Instr): Machine
    requires WellSized(m) && ImmediateOperands(r)
  {
    var address := r.immediateSigned;
    if address >= 0 && address < ic then
      if m.gpr[r.source] != m.gpr[r.target] then m.(pc := address) else m
    else m
  }

  /** `jump`: to the decoded jump address. */
  function JumpStep(m: Machine, ic: int, j: Instr): Machine
    requires j.Jump?
  {
    Branch(m, ic, j.jumpAddress)
  }

  /**
   * What `execute` needs of ir so that none of its casts and none of the
   * register reads of the handler it picks can fail: a register shape with
   * a parsable function code for opcode 0, a jump shape for opcode 2, and an
   * immediate shape for the listed opcodes.
   */
  predicate Executable(i: Instr)
  {
    && ValidWord(i.word)
    && (OpcodeValue(i.word) == 0 ==>
          i.Register? && IsBinary(i.funct) && 1 <= |i.funct| <= 32
          && (TwosComplement(i.funct) in RegisterCodes ==> RegisterOperands(i)))
    && (OpcodeValue(i.word) == 2 ==> i.Jump?)
    && (OpcodeValue(i.word) in ImmediateCodes ==> ImmediateOperands(i))
  }

  /** Every record the factory builds from its word can be executed. */
  lemma DecodedExecutable(i: Instr)
    requires Decoded(i)
    ensures Executable(i)
  {
    var w := i.word;
    if OpcodeValue(w) == 0 {
      assert i == NewRegister(w);
      RegisterExecutable(w);
    } else if OpcodeValue(w) == 2 {
      assert i == NewJump(w);
      JumpExecutable(w);
    } else {
      assert i == NewImmediate(w);
      ImmediateExecutable(w);
    }
  }

  lemma RegisterExecutable(w: string)
    requires ValidWord(w) && OpcodeValue(w) == 0
    ensures Executable(NewRegister(w))
  {
  }

  lemma JumpExecutable(w: string)
    requires ValidWord(w) && OpcodeValue(w) == 2
    ensures Executable(NewJump(w))
  {
  }

  lemma ImmediateExecutable(w: string)
    requires ValidWord(w) && OpcodeValue(w) != 0 && OpcodeValue(w) != 2
    ensures Executable(NewImmediate(w))
  {
  }

  /** The first stage of `execute`: for opcode 0, the function code read through `twosComplement`. */
  function FunctionStage(m: Machine, ic: int, i: Instr): (r: Machine)
    requires WellSized(m) && Executable(i)
    ensures WellSized(r)
  {
    if OpcodeValue(i.word) == 0 then
      match TwosComplement(i.funct)
      case 8 => JrStep(m, ic, i)
      case 20 => AddStep(m, i)
      case 21 => AdduStep(m, i)
      case 24 => AndStep(m, i)
      case 25 => OrStep(m, i)
      case _ => m
    else m
  }

  /** The second stage of `execute`: the opcode, which for opcode 0 matches no case. */
  function OpcodeStage(m: Machine, ic: int, i: Instr): (r: Machine)
    requires WellSized(m) && Executable(i)
    ensures WellSized(r)
  {
    match OpcodeValue(i.word)
    case 2 => JumpStep(m, ic, i)
    case 4 => BeqStep(m, ic, i)
    case 5 => BneStep(m, ic, i)
    case 8 => AddiStep(m, i)
    case 9 => AddiuStep(m, i)
    case 12 => AndiStep(m, i)
    case 13 => OriStep(m, i)
    case 23 => LwStep(m, i)
    case 43 => SwStep(m, i)
    case _ => m
  }

  /**
   * `execute`: the function-code stage for opcode 0, the opcode stage
   * otherwise; unlisted codes change nothing. `StepIsTwoStages` shows this
   * is running both stages in order, as the source does.
   */
  function Step(m: Machine, ic: int, i: Instr): (r: Machine)
    requires WellSized(m) && Executable(i)
    ensures WellSized(r)
  {
    if OpcodeValue(i.word) == 0 then FunctionStage(m, ic, i) else OpcodeStage(m, ic, i)
  }

  /** Each stage leaves the machine alone when the other one is in charge, so running both is `Step`. */
  lemma StepIsTwoStages(m: Machine, ic: int, i: Instr)
    requires WellSized(m) && Executable(i)
    ensures OpcodeValue(i.word) != 0 ==> FunctionStage(m, ic, i) == m
    ensures OpcodeValue(i.word) == 0 ==> OpcodeStage(FunctionStage(m, ic, i), ic, i) == FunctionStage(m, ic, i)
    ensures Step(m, ic, i) == OpcodeStage(FunctionStage(m, ic, i), ic, i)
  {
  }

  class Computer {
    var pc: int32
    var ic: int32
    var ir: Option<Instr>
    const instructions: array<Option<Instr>>
    const gpr: array<int32>
    const mem: array<int32>

    /** The arrays have their fixed sizes, and registers and memory are separate arrays. */
    ghost predicate Sized()
      reads this
    {
      instructions.Length == MAX_MEMORY && gpr.Length == MAX_REGISTERS && mem.Length == MAX_MEMORY && gpr != mem
    }

    /** Fixed sizes, a count within capacity, and slots filled exactly below the count. */
    ghost predicate Valid()
      reads this, instructions
    {
      && Sized()
      && 0 <= ic <= MAX_MEMORY
      && forall k :: 0 <= k < MAX_MEMORY ==> (instructions[k].Some? <==> k < ic)
    }

    /** The registers, memory and program counter as a value. */
    ghost function State(): Machine
      reads this, gpr, mem
    {
      Machine(gpr[..], mem[..], pc)
    }

    constructor ()
      ensures Valid() && fresh(instructions) && fresh(gpr) && fresh(mem)
      ensures pc == 0 && ic == 0 && ir == None
      ensures gpr[..] == seq(MAX_REGISTERS, _ => 0)
      ensures mem[..] == seq(MAX_MEMORY, _ => 0)
      ensures instructions[..] == seq(MAX_MEMORY, _ => None)
    {
      instructions := new Option<Instr>[MAX_MEMORY](_ => None);
      mem := new int32[MAX_MEMORY](_ => 0);
      gpr := new int32[MAX_REGISTERS](_ => 0);
      pc, ic, ir := 0, 0, None;
    }

    /** `fetch`: the slot at pc (empty past the loaded instructions) becomes ir, and pc advances. */
    method Fetch()
      requires Valid() && 0 <= pc < MAX_MEMORY
      modifies this`pc, this`ir
      ensures Valid()
      ensures ir == instructions[old(pc)] && pc == old(pc) + 1
      ensures ir.Some? <==> old(pc) < ic
    {
      ir := instructions[pc];
      pc := pc + 1;
    }

    /** `insertInstruction`: write slot ic, then count it. */
    method InsertInstruction(newInstruction: Instr)
      requires Valid() && ic < MAX_MEMORY
      modifies this`ic, instructions
      ensures Valid()
      ensures instructions[..] == old(instructions[..])[old(ic) := Some(newInstruction)]
      ensures ic == old(ic) + 1
    {
      instructions[ic] := Some(newInstruction);
      ic := ic + 1;
    }

    /** `setPc`. */
    method SetPc(newPc: int32)
      requires Valid()
      modifies this`pc
      ensures Valid() && pc == newPc
    {
      pc := newPc;
    }

    /** `decode`: the opcode of a word as a number. */
    method Decode(word: string) returns (op: int)
      requires ValidWord(word)
      ensures op == OpcodeValue(word) && 0 <= op < 64
    {
      op := Unsigned(ParseOpcode(word));
    }

    method Add(instruction: Instr)
      requires Valid() && RegisterOperands(instruction)
      modifies gpr
      ensures State() == AddStep(old(State()), instruction)
    {
      var temp1 := gpr[instruction.source];
      var temp2 := gpr[instruction.target];
      var sum := Wrap32(temp1 as int + temp2);
      gpr[instruction.destination] := sum;
    }

    method Addu(instruction: Instr)
      requires Valid() && RegisterOperands(instruction)
      modifies gpr
      ensures State() == AdduStep(old(State()), instruction)
    {
      var temp1 := Unsigned32(gpr[instruction.source]);
      var temp2 := Unsigned32(gpr[instruction.target]);
      gpr[instruction.destination] := Wrap32(temp1 as int + temp2);
    }

    method And(instruction: Instr)
      requires Valid() && RegisterOperands(instruction)
      modifies gpr
      ensures State() == AndStep(old(State()), instruction)
    {
      gpr[instruction.destination] := And32(gpr[instruction.source], gpr[instruction.target]);
    }

    method Or(instruction: Instr)
      requires Valid() && RegisterOperands(instruction)
      modifies gpr
      ensures State() == OrStep(old(State()), instruction)
    {
      gpr[instruction.destination] := Or32(gpr[instruction.source], gpr[instruction.target]);
    }

    method Jr(instruction: Instr)
      requires Valid() && RegisterOperands(instruction)
      modifies this`pc
      ensures Valid()
      ensures State() == JrStep(old(State()), ic, instruction)
    {
      var address := gpr[instruction.source];
      if address >= 0 && address < ic {
        pc := address;
      }
    }

    method Addi(instruction: Instr)
      requires Valid() && ImmediateOperands(instruction)
      modifies gpr
      ensures State() == AddiStep(old(State()), instruction)
    {
      gpr[instruction.target] := Wrap32(gpr[instruction.source] as int + instruction.immediateSigned);
    }

    method Addiu(instruction: Instr)
      requires Valid() && ImmediateOperands(instruction)
      modifies gpr
      ensures State() == AddiuStep(old(State()), instruction)
    {
      var temp1: int64 := gpr[instruction.source];
      var stringtemp := ToUnsignedString(temp1);
      temp1 := ParseUnsignedLong(stringtemp);
      var temp2: int64 := instruction.immediateUnsigned;
      gpr[instruction.target] := Wrap32(temp1 as int + temp2);
    }

    method Andi(instruction: Instr)
      requires Valid() && ImmediateOperands(instruction)
      modifies gpr
      ensures State() == AndiStep(old(State()), instruction)
    {
      gpr[instruction.target] := And32(gpr[instruction.source], instruction.immediateSigned);
    }

    method Ori(instruction: Instr)
      requires Valid() && ImmediateOperands(instruction)
      modifies gpr
      ensures State() == OriStep(old(State()), instruction)
    {
      gpr[instruction.target] := Or32(gpr[instruction.source], instruction.immediateSigned);
    }

    method Lw(instruction: Instr)
      requires Valid() && ImmediateOperands(instruction)
      modifies gpr
      ensures State() == LwStep(old(State()), instruction)
    {
      var address := Wrap32(gpr[instruction.source] as int + instruction.immediateSigned);
      if address >= 0 && address < mem.Length {
        gpr[instruction.target] := mem[address];
      }
    }

    method Sw(instruction: Instr)
      requires Valid() && ImmediateOperands(instruction)
      modifies mem
      ensures State() == SwStep(old(State()), instruction)
    {
      var address := Wrap32(gpr[instruction.source] as int + instruction.immediateSigned);
      if address >= 0 && address < mem.Length {
        mem[address] := gpr[instruction.target];
      }
    }

    method Beq(instruction: Instr)
      requires Valid() && ImmediateOperands(instruction)
      modifies this`pc
      ensures Valid()
      ensures State() == BeqStep(old(State()), ic, instruction)
    {
      var address := instruction.immediateSigned;
      if gpr[instruction.source] == gpr[instruction.target] {
        if address >= 0 && address < ic {
          pc := address;
        }
      }
    }

    method Bne(instruction: Instr)
      requires Valid() && ImmediateOperands(instruction)
      modifies this`pc
      ensures Valid()
      ensures State() == BneStep(old(State()), ic, instruction)
    {
      var address := instruction.immediateSigned;
      if address >= 0 && address < ic {
        if gpr[instruction.source] != gpr[instruction.target] {
          pc := address;
        }
      }
    }

    method Jump(instruction: Instr)
      requires Valid() && instruction.Jump?
      modifies this`pc
      ensures Valid()
      ensures State() == JumpStep(old(State()), ic, instruction)
    {
      var address := instruction.jumpAddress;
      if address >= 0 && address < ic {
        pc := address;
      }
    }

    /** `execute`: the instruction in ir, dispatched in two stages as `Step` describes. */
    method Execute()
      requires Valid() && ir.Some? && Executable(ir.value)
      modifies this`pc, gpr, mem
      ensures Valid()
      ensures State() == Step(old(State()), ic, ir.value)
    {
      var instr := ir.value;
      ghost var start := State();
      var opcode := Decode(instr.word);
      if opcode == 0 {
        var functionCode := TwosComplement(instr.funct);
        match functionCode {
        case 8 => Jr(instr);
        case 20 => Add(instr);
        case 21 => Addu(instr);
        case 24 => And(instr);
        case 25 => Or(instr);
        case _ =>
        }
      }
      assert State() == FunctionStage(start, ic, instr);
      StepIsTwoStages(start, ic, instr);
      ghost var middle := State();
      match opcode {
      case 2 => Jump(instr);
      case 4 => Beq(instr);
      case 5 => Bne(instr);
      case 8 => Addi(instr);
      case 9 => Addiu(instr);
      case 12 => Andi(instr);
      case 13 => Ori(instr);
      case 23 => Lw(instr);
      case 43 => Sw(instr);
      case _ =>
      }
      assert State() == OpcodeStage(middle, ic, instr);
    }
  }
}
