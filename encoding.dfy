/**
 * Instruction words built from their fields, one encoder per shape, and the
 * decoder read against them: decoding an encoded word gives the fields
 * back, and encoding a word's decoded fields gives the word back.
 */
module Encoding {
  import opened Binary
  import opened Int32
  import opened InstructionString
  import opened Instructions

  /** A register-shape word: opcode, source, target, destination, shift, function code. */
  function EncodeRegister(op: nat, rs: nat, rt: nat, rd: nat, sh: nat, fn: nat): (w: string)
    requires op < 64 && rs < 32 && rt < 32 && rd < 32 && sh < 32 && fn < 64
    ensures ValidWord(w)
  {
    Pow2Values();
    var a, b, c, d, e, f := ToBits(op, 6), ToBits(rs, 5), ToBits(rt, 5), ToBits(rd, 5), ToBits(sh, 5), ToBits(fn, 6);
    BinaryConcat(a, b);
    BinaryConcat(a + b, c);
    BinaryConcat(a + b + c, d);
    BinaryConcat(a + b + c + d, e);
    BinaryConcat(a + b + c + d + e, f);
    a + b + c + d + e + f
  }

  /** An immediate-shape word: opcode, source, target, 16-bit immediate. */
  function EncodeImmediate(op: nat, rs: nat, rt: nat, imm: nat): (w: string)
    requires op < 64 && rs < 32 && rt < 32 && imm < 0x1_0000
    ensures ValidWord(w)
  {
    Pow2Values();
    var a, b, c, d := ToBits(op, 6), ToBits(rs, 5), ToBits(rt, 5), ToBits(imm, 16);
    BinaryConcat(a, b);
    BinaryConcat(a + b, c);
    BinaryConcat(a + b + c, d);
    a + b + c + d
  }

  /** A jump-shape word: opcode and 26-bit address. */
  function EncodeJump(op: nat, addr: nat): (w: string)
    requires op < 64 && addr < 0x400_0000
    ensures ValidWord(w)
  {
    Pow2Values();
    var a, b := ToBits(op, 6), ToBits(addr, 26);
    BinaryConcat(a, b);
    a + b
  }

  /** Decoding a register-shape word gives back every field it was built from. */
  lemma RegisterFieldsRoundTrip(op: nat, rs: nat, rt: nat, rd: nat, sh: nat, fn: nat)
    requires op < 64 && rs < 32 && rt < 32 && rd < 32 && sh < 32 && fn < 64
    ensures var w := EncodeRegister(op, rs, rt, rd, sh, fn);
      var r := NewRegister(w);
      OpcodeValue(w) == op && r.source == rs && r.target == rt && r.destination == rd
      && r.shift == sh && Unsigned(r.funct) == fn
  {
    Pow2Values();
    var w := EncodeRegister(op, rs, rt, rd, sh, fn);
    var a, b, c, d, e, f := ToBits(op, 6), ToBits(rs, 5), ToBits(rt, 5), ToBits(rd, 5), ToBits(sh, 5), ToBits(fn, 6);
    assert w == a + b + c + d + e + f;
    assert w[0..6] == a && w[6..11] == b && w[11..16] == c;
    assert w[16..21] == d && w[21..26] == e && w[26..32] == f;
    UnsignedToBits(op, 6);
    UnsignedToBits(rs, 5);
    UnsignedToBits(rt, 5);
    UnsignedToBits(rd, 5);
    UnsignedToBits(sh, 5);
    UnsignedToBits(fn, 6);
  }

  /** Decoding an immediate-shape word gives back its registers and its immediate, read unsigned. */
  lemma ImmediateFieldsRoundTrip(op: nat, rs: nat, rt: nat, imm: nat)
    requires op < 64 && rs < 32 && rt < 32 && imm < 0x1_0000
    ensures var w := EncodeImmediate(op, rs, rt, imm);
      var r := NewImmediate(w);
      OpcodeValue(w) == op && r.source == rs && r.target == rt && r.immediateUnsigned == imm
      && (imm < 0x8000 ==> r.immediateSigned == imm)
      && (imm >= 0x8000 ==> r.immediateSigned < 0)
  {
    Pow2Values();
    var w := EncodeImmediate(op, rs, rt, imm);
    var a, b, c, d := ToBits(op, 6), ToBits(rs, 5), ToBits(rt, 5), ToBits(imm, 16);
    assert w == a + b + c + d;
    assert w[0..6] == a && w[6..11] == b && w[11..16] == c && w[16..32] == d;
    UnsignedToBits(op, 6);
    UnsignedToBits(rs, 5);
    UnsignedToBits(rt, 5);
    UnsignedToBits(imm, 16);
    assert w[16] == d[0];
  }

  /** Decoding a jump-shape word gives back its opcode and, below 2^25, its address. */
  lemma JumpFieldsRoundTrip(op: nat, addr: nat)
    requires op < 64 && addr < 0x400_0000
    ensures var w := EncodeJump(op, addr);
      OpcodeValue(w) == op
      && (addr < 0x200_0000 ==> NewJump(w).jumpAddress == addr)
      && (addr >= 0x200_0000 ==> NewJump(w).jumpAddress < 0)
  {
    Pow2Values();
    var w := EncodeJump(op, addr);
    var a, b := ToBits(op, 6), ToBits(addr, 26);
    assert w == a + b;
    assert w[0..6] == a && w[6..32] == b;
    UnsignedToBits(op, 6);
    UnsignedToBits(addr, 26);
    assert w[6] == b[0];
  }

  /** A word is its six register-shape pieces put together. */
  lemma RegisterPieces(w: string)
    requires |w| == 32
    ensures w == w[0..6] + w[6..11] + w[11..16] + w[16..21] + w[21..26] + w[26..32]
  {
  }

  /** A word is its four immediate-shape pieces put together. */
  lemma ImmediatePieces(w: string)
    requires |w| == 32
    ensures w == w[0..6] + w[6..11] + w[11..16] + w[16..32]
  {
  }

  /** The six register-shape fields of a word, written back at their widths, are its six pieces. */
  lemma RegisterFieldBits(w: string)
    requires ValidWord(w)
    ensures ToBits(OpcodeValue(w), 6) == w[0..6]
    ensures ToBits(ParseSource(w), 5) == w[6..11] && ToBits(ParseTarget(w), 5) == w[11..16]
    ensures ToBits(ParseDestination(w), 5) == w[16..21] && ToBits(ParseShift(w), 5) == w[21..26]
    ensures ToBits(Unsigned(ParseFunction(w)), 6) == w[26..32]
  {
    Pow2Values();
    FieldBits(w, 0, 6);
    FieldBits(w, 6, 11);
    FieldBits(w, 11, 16);
    FieldBits(w, 16, 21);
    FieldBits(w, 21, 26);
    FieldBits(w, 26, 32);
  }

  /** Every word is the register-shape encoding of its own decoded fields. */
  lemma RegisterWordRoundTrip(w: string)
    requires ValidWord(w)
    ensures EncodeRegister(OpcodeValue(w), ParseSource(w), ParseTarget(w), ParseDestination(w),
                           ParseShift(w), Unsigned(ParseFunction(w))) == w
  {
    RegisterFieldBits(w);
    RegisterPieces(w);
  }

  /** The four immediate-shape fields of a word, written back at their widths, are its four pieces. */
  lemma ImmediateFieldBits(w: string)
    requires ValidWord(w)
    ensures ToBits(OpcodeValue(w), 6) == w[0..6]
    ensures ToBits(ParseSource(w), 5) == w[6..11] && ToBits(ParseTarget(w), 5) == w[11..16]
    ensures ToBits(ParseImmediateUnsigned(w), 16) == w[16..32]
  {
    Pow2Values();
    FieldBits(w, 0, 6);
    FieldBits(w, 6, 11);
    FieldBits(w, 11, 16);
    FieldBits(w, 16, 32);
  }

  /** Every word is the immediate-shape encoding of its own decoded fields. */
  lemma ImmediateWordRoundTrip(w: string)
    requires ValidWord(w)
    ensures EncodeImmediate(OpcodeValue(w), ParseSource(w), ParseTarget(w), ParseImmediateUnsigned(w)) == w
  {
    ImmediateFieldBits(w);
    ImmediatePieces(w);
  }

  /** Every word is the jump-shape encoding of its opcode and its unsigned 26-bit address. */
  lemma JumpWordRoundTrip(w: string)
    requires ValidWord(w)
    ensures Field(w, 6, 32) < 0x400_0000
    ensures EncodeJump(OpcodeValue(w), Field(w, 6, 32)) == w
  {
    Pow2Values();
    FieldBits(w, 0, 6);
    FieldBits(w, 6, 32);
    assert w == w[0..6] + w[6..32];
  }

  /** The first two characters of a 16-bit encoding: the sign bit, and the bit below it. */
  lemma ToBitsTopTwo(v: nat)
    requires v < 0x1_0000
    ensures Pow2(16) == 0x1_0000
    ensures (ToBits(v, 16)[0] == '1') == (v >= 0x8000)
    ensures v >= 0x8000 ==> ((ToBits(v, 16)[1] == '1') == (v >= 0xC000))
    ensures v < 0x8000 ==> ((ToBits(v, 16)[1] == '1') == (v >= 0x4000))
  {
    Pow2Values();
  }

  /**
   * The signed immediate of an encoded word, as the simulator computes it:
   * the 16-bit two's complement value below 0x8000 and from 0xC000 up, and
   * a different negative number in between.
   */
  lemma EncodedImmediateSigned(op: nat, rs: nat, rt: nat, imm: nat)
    requires op < 64 && rs < 32 && rt < 32 && imm < 0x1_0000
    ensures var s := NewImmediate(EncodeImmediate(op, rs, rt, imm)).immediateSigned;
      && (imm < 0x8000 ==> s == imm)
      && (imm >= 0xC000 ==> s == imm - 0x1_0000)
      && (0x8000 <= imm < 0xC000 ==> s < 0 && s != imm - 0x1_0000)
  {
    Pow2Values();
    var w := EncodeImmediate(op, rs, rt, imm);
    var d := ToBits(imm, 16);
    assert w == ToBits(op, 6) + ToBits(rs, 5) + ToBits(rt, 5) + d;
    assert w[16..32] == d;
    UnsignedToBits(imm, 16);
    ToBitsTopTwo(imm);
    ImmediateSignedExactIff(w);
    assert w[16] == d[0] && w[17] == d[1];
  }
}
