/**
 * Decoded instructions: one datatype with a constructor per shape, each
 * keeping the word it was decoded from and a mnemonic looked up in the
 * simulator's own tables (absent when the code is not in the table).
 */
module Instructions {
  import opened Binary
  import opened Int32
  import opened InstructionString

  datatype Option<T> = None | Some(value: T)

  /** The mnemonics the three name tables hold. */
  datatype Mnemonic = JR | ADD | ADDU | AND | OR | JUMP | BEQ | BNE | ADDI | ADDIU | ANDI | ORI | LW | SW

  /** The name string the tables return for each mnemonic. */
  function Text(n: Mnemonic): string
  {
    match n
    case JR => "jr"
    case ADD => "add"
    case ADDU => "addu"
    case AND => "and"
    case OR => "or"
    case JUMP => "jump"
    case BEQ => "beq"
    case BNE => "bne"
    case ADDI => "addi"
    case ADDIU => "addiu"
    case ANDI => "andi"
    case ORI => "ori"
    case LW => "lw"
    case SW => "sw"
  }

  /** The mnemonics of the register table. */
  predicate RegisterMnemonic(n: Mnemonic)
  {
    n.JR? || n.ADD? || n.ADDU? || n.AND? || n.OR?
  }

  /** The mnemonics of the immediate table. */
  predicate ImmediateMnemonic(n: Mnemonic)
  {
    n.BEQ? || n.BNE? || n.ADDI? || n.ADDIU? || n.ANDI? || n.ORI? || n.LW? || n.SW?
  }

  /** Distinct mnemonics have distinct names, so the enumeration loses nothing. */
  lemma TextInjective(a: Mnemonic, b: Mnemonic)
    requires Text(a) == Text(b)
    ensures a == b
  {
    assert Text(a)[0] == Text(b)[0] && |Text(a)| == |Text(b)|;
    if |Text(a)| > 1 {
      assert Text(a)[1] == Text(b)[1];
    }
    if |Text(a)| > 2 {
      assert Text(a)[2] == Text(b)[2];
    }
  }

  datatype Instr =
    | Register(word: string, opcode: string, funct: string, shift: nat, destination: nat,
               source: nat, target: nat, name: Option<Mnemonic>)
    | Immediate(word: string, opcode: string, source: nat, target: nat,
                immediateSigned: int32, immediateUnsigned: nat, name: Option<Mnemonic>)
    | Jump(word: string, opcode: string, jumpAddress: int32, name: Option<Mnemonic>)

  /** The function codes the register table names. */
  const RegisterCodes: set<int> := {8, 20, 21, 24, 25}

  /** The opcodes the immediate table names. */
  const ImmediateCodes: set<int> := {4, 5, 8, 9, 12, 13, 23, 43}

  /** Register-shape names: looked up by function code, and only for opcode 0. */
  function RegisterName(opcode: int, funct: int): (r: Option<Mnemonic>)
    ensures r.Some? <==> opcode == 0 && funct in RegisterCodes
    ensures r.Some? ==> RegisterMnemonic(r.value)
  {
    if opcode != 0 then None
    else if funct == 8 then Some(JR)
    else if funct == 20 then Some(ADD)
    else if funct == 21 then Some(ADDU)
    else if funct == 24 then Some(AND)
    else if funct == 25 then Some(OR)
    else None
  }

  /** Immediate-shape names, looked up by opcode. */
  function ImmediateName(opcode: int): (r: Option<Mnemonic>)
    ensures r.Some? <==> opcode in ImmediateCodes
    ensures r.Some? ==> ImmediateMnemonic(r.value)
  {
    if opcode == 4 then Some(BEQ)
    else if opcode == 5 then Some(BNE)
    else if opcode == 8 then Some(ADDI)
    else if opcode == 9 then Some(ADDIU)
    else if opcode == 12 then Some(ANDI)
    else if opcode == 13 then Some(ORI)
    else if opcode == 23 then Some(LW)
    else if opcode == 43 then Some(SW)
    else None
  }

  /** Jump-shape names: only opcode 2 has one. */
  function JumpName(opcode: int): (r: Option<Mnemonic>)
    ensures r.Some? <==> opcode == 2
    ensures r.Some? ==> r.value == JUMP
  {
    if opcode == 2 then Some(JUMP) else None
  }

  /** Different function codes get different names in the register table. */
  lemma RegisterNamesDistinct(c1: int, c2: int)
    ensures RegisterName(0, c1).Some? && RegisterName(0, c1) == RegisterName(0, c2) ==> c1 == c2
  {
  }

  /** Different opcodes get different names in the immediate table. */
  lemma ImmediateNamesDistinct(c1: int, c2: int)
    ensures ImmediateName(c1).Some? && ImmediateName(c1) == ImmediateName(c2) ==> c1 == c2
  {
  }

  /** `new RegisterInstruction(is)`: the register-shape fields of the word. */
  function NewRegister(w: string): (r: Instr)
    requires ValidWord(w)
    ensures r.Register? && r.word == w
    ensures r.source < 32 && r.target < 32 && r.destination < 32 && r.shift < 32
    ensures |r.funct| == 6 && IsBinary(r.funct)
  {
    Register(w, ParseOpcode(w), ParseFunction(w), ParseShift(w), ParseDestination(w),
             ParseSource(w), ParseTarget(w),
             RegisterName(OpcodeValue(w), Unsigned(ParseFunction(w))))
  }

  /** `new ImmediateInstruction(is)`: the immediate-shape fields of the word. */
  function NewImmediate(w: string): (r: Instr)
    requires ValidWord(w)
    ensures r.Immediate? && r.word == w
    ensures r.source < 32 && r.target < 32 && r.immediateUnsigned < 65536
  {
    Immediate(w, ParseOpcode(w), ParseSource(w), ParseTarget(w),
              ParseImmediateSigned(w), ParseImmediateUnsigned(w), ImmediateName(OpcodeValue(w)))
  }

  /** `new JumpInstruction(is)`: the jump-shape fields of the word. */
  function NewJump(w: string): (r: Instr)
    requires ValidWord(w)
    ensures r.Jump? && r.word == w
  {
    Jump(w, ParseOpcode(w), ParseJumpAddress(w), JumpName(OpcodeValue(w)))
  }

  /** `createInstruction`: the shape chosen from the word's type string. */
  function CreateInstruction(w: string): (r: Instr)
    requires ValidWord(w)
    ensures r.word == w
    ensures r.Register? <==> OpcodeValue(w) == 0
    ensures r.Jump? <==> OpcodeValue(w) == 2
    ensures r.Immediate? <==> OpcodeValue(w) != 0 && OpcodeValue(w) != 2
  {
    var t := GetType(w);
    if t == "R" then NewRegister(w)
    else if t == "J" then NewJump(w)
    else NewImmediate(w)
  }

  /** An instruction the factory built from its own word: its shape matches its opcode. */
  predicate Decoded(i: Instr)
  {
    ValidWord(i.word) && i == CreateInstruction(i.word)
  }
}
