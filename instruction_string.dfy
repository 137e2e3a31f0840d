/**
 * The instruction word decoder: a 32-character string of '0'/'1' split into
 * the fields of the three instruction shapes, with the simulator's own
 * sign-handling for the signed fields.
 */
module InstructionString {
  import opened Binary
  import opened Int32

  /** An instruction word: exactly 32 binary characters. */
  predicate ValidWord(w: string)
  {
    |w| == 32 && IsBinary(w)
  }

  lemma SliceIsBinary(s: string, i: nat, j: nat)
    requires IsBinary(s) && i <= j <= |s|
    ensures IsBinary(s[i..j])
  {
    assert forall k :: 0 <= k < j - i ==> s[i..j][k] == s[i + k];
  }

  /** The 6-character opcode, characters 0..5. */
  function ParseOpcode(w: string): (r: string)
    requires ValidWord(w)
    ensures |r| == 6 && IsBinary(r)
  {
    SliceIsBinary(w, 0, 6);
    w[0..6]
  }

  /** The 6-character function code, characters 26..31. */
  function ParseFunction(w: string): (r: string)
    requires ValidWord(w)
    ensures |r| == 6 && IsBinary(r)
  {
    SliceIsBinary(w, 26, 32);
    w[26..32]
  }

  /** `(int) Long.parseLong(opcode, 2)`, as the decoder and the instruction records compute it. */
  function OpcodeValue(w: string): (op: nat)
    requires ValidWord(w)
    ensures op < 64
  {
    Unsigned(ParseOpcode(w))
  }

  /** An unsigned field of `w`, characters `i` to `j - 1`. */
  function Field(w: string, i: nat, j: nat): (r: nat)
    requires ValidWord(w) && i <= j <= 32
    ensures r < Pow2(j - i)
    ensures j - i == 5 ==> r < 32
    ensures j - i == 16 ==> r < 0x1_0000
  {
    SliceIsBinary(w, i, j);
    Pow2Values();
    Unsigned(w[i..j])
  }

  /** Writing a field back at its own width gives the characters it was read from. */
  lemma FieldBits(w: string, i: nat, j: nat)
    requires ValidWord(w) && i <= j <= 32
    ensures ToBits(Field(w, i, j), j - i) == w[i..j]
  {
    SliceIsBinary(w, i, j);
    ToBitsUnsigned(w[i..j]);
  }

  /** The source register index, characters 6..10. */
  function ParseSource(w: string): (r: nat)
    requires ValidWord(w)
    ensures r < 32
  {
    Field(w, 6, 11)
  }

  /** The target register index, characters 11..15. */
  function ParseTarget(w: string): (r: nat)
    requires ValidWord(w)
    ensures r < 32
  {
    Field(w, 11, 16)
  }

  /** The destination register index, characters 16..20. */
  function ParseDestination(w: string): (r: nat)
    requires ValidWord(w)
    ensures r < 32
  {
    Field(w, 16, 21)
  }

  /** The shift amount, characters 21..25. */
  function ParseShift(w: string): (r: nat)
    requires ValidWord(w)
    ensures r < 32
  {
    Field(w, 21, 26)
  }

  /** The immediate, characters 16..31, read unsigned. */
  function ParseImmediateUnsigned(w: string): (r: nat)
    requires ValidWord(w)
    ensures r < 65536
  {
    Field(w, 16, 32)
  }

  /**
   * `Arrays.fill` of the missing leading characters with the first
   * character: the field padded on the left to 32 characters.
   */
  function SignExtend(b: string): (r: string)
    requires 1 <= |b| <= 32
    ensures |r| == 32
    ensures r[32 - |b|..] == b
    ensures forall i :: 0 <= i < 32 - |b| ==> r[i] == b[0]
    ensures IsBinary(b) ==> IsBinary(r)
  {
    var ext := seq(32 - |b|, _ => b[0]);
    assert IsBinary(b) ==> IsBinary(ext);
    assert IsBinary(b) ==> IsBinary(ext + b) by {
      if IsBinary(b) { BinaryConcat(ext, b); }
    }
    ext + b
  }

  /** The value of a binary field read as a two's complement number of its own width. */
  function SignedValue(b: string): int
    requires IsBinary(b) && 1 <= |b|
  {
    Unsigned(b) - (if b[0] == '1' then Pow2(|b|) else 0)
  }

  /** Filling a field with `k` copies of one bit: zero, or all ones. */
  lemma {:induction false} UnsignedFill(c: char, k: nat)
    requires c == '0' || c == '1'
    ensures IsBinary(seq(k, _ => c))
    ensures Unsigned(seq(k, _ => c)) == if c == '1' then Pow2(k) - 1 else 0
  {
    if k > 0 {
      assert seq(k, _ => c)[1..] == seq(k - 1, _ => c);
      UnsignedFill(c, k - 1);
    }
  }

  /**
   * `twosComplement`: the field sign-extended to 32 characters, parsed as a
   * `long` and cast to `int`. That is the two's complement value of the
   * field at its own width.
   */
  function TwosComplement(b: string): (r: int32)
    requires IsBinary(b) && 1 <= |b| <= 32
    ensures r == SignedValue(b)
    ensures r < 0 <==> b[0] == '1'
  {
    TwosComplementValue(b);
    Wrap32(Unsigned(SignExtend(b)))
  }

  /** The padding and the field together span 2^32. */
  lemma PaddingScale(b: string)
    requires 1 <= |b| <= 32
    ensures Pow2(32 - |b|) * Pow2(|b|) == TWO_32
  {
    Pow2Add(32 - |b|, |b|);
    Pow2ThirtyTwo();
  }

  /** The arithmetic of placing a padding of value `up` (all ones or zero) above a field of scale `p`. */
  lemma PaddedSum(up: int, k: int, p: int, u: int, ones: bool)
    requires k * p == TWO_32
    requires up == if ones then k - 1 else 0
    ensures up * p + u == (if ones then TWO_32 - p else 0) + u
  {
    if ones {
      MulAddDistributes(k, -1, p);
    }
  }

  /** Sign extension adds the value of the padding, all ones or all zeros, above the field. */
  lemma SignExtendValue(b: string)
    requires IsBinary(b) && 1 <= |b| <= 32
    ensures IsBinary(SignExtend(b))
    ensures Unsigned(SignExtend(b)) == (if b[0] == '1' then TWO_32 - Pow2(|b|) else 0) + Unsigned(b)
  {
    var pad := seq(32 - |b|, _ => b[0]);
    assert SignExtend(b) == pad + b;
    UnsignedFill(b[0], 32 - |b|);
    UnsignedAppend(pad, b);
    PaddingScale(b);
    PaddedSum(Unsigned(pad), Pow2(32 - |b|), Pow2(|b|), Unsigned(b), b[0] == '1');
  }

  lemma TwosComplementValue(b: string)
    requires IsBinary(b) && 1 <= |b| <= 32
    ensures IsBinary(SignExtend(b))
    ensures Wrap32(Unsigned(SignExtend(b))) == SignedValue(b)
  {
    SignExtendValue(b);
    Pow2ThirtyTwo();
    var n := |b|;
    var x, p, h, u := Unsigned(SignExtend(b)), Pow2(n), Pow2(n - 1), Unsigned(b);
    assert p == 2 * h;
    if n < 32 { Pow2Monotone(n - 1, 31); }
    assert h <= TWO_31;
    assert x < TWO_32;
    Wrap32Unsigned(x);
    if b[0] == '1' {
      assert u >= h && x == TWO_32 - p + u;
      assert x >= TWO_31;
    } else {
      assert u < h && x == u;
    }
  }

  /** The index at which `slice`'s scan stops: the first '1' at or after `i`, or the last index. */
  function ScanEnd(b: string, i: nat): (k: nat)
    requires 1 <= i < |b|
    ensures i <= k < |b|
    ensures k == |b| - 1 || b[k] == '1'
    ensures forall j :: i <= j < k ==> b[j] != '1'
    decreases |b| - i
  {
    if b[i] == '1' || i == |b| - 1 then i else ScanEnd(b, i + 1)
  }

  /** What `slice` returns: the first character, then `b` from where the scan stops. */
  function Sliced(b: string): string
    requires 2 <= |b|
  {
    [b[0]] + b[ScanEnd(b, 1)..]
  }

  /** `slice`: the scanning loop, proved to return `Sliced(b)`. */
  method Slice(bits: string) returns (r: string)
    requires 2 <= |bits|
    ensures r == Sliced(bits)
  {
    var n := 1;
    var index := 1;
    while bits[index] != '1' && index < |bits| - 1
      invariant 1 <= index < |bits| && n == index
      invariant ScanEnd(bits, index) == ScanEnd(bits, 1)
      decreases |bits| - index
    {
      index := index + 1;
      n := n + 1;
    }
    r := [bits[0]] + bits[n..];
  }

  /**
   * The shape of `slice`'s result: it keeps the first and the last
   * character, and what it drops (characters 1 to k - 1) are all '0'.
   */
  lemma SlicedShape(b: string)
    requires IsBinary(b) && 2 <= |b|
    ensures IsBinary(Sliced(b)) && 2 <= |Sliced(b)| <= |b|
    ensures Sliced(b)[0] == b[0] && Sliced(b)[|Sliced(b)| - 1] == b[|b| - 1]
    ensures var k := ScanEnd(b, 1);
      Sliced(b) == [b[0]] + b[k..] && forall j :: 1 <= j < k ==> b[j] == '0'
  {
    var k := ScanEnd(b, 1);
    SliceIsBinary(b, 0, 1);
    SliceIsBinary(b, k, |b|);
    assert b[k..] == b[k..|b|] && [b[0]] == b[0..1];
    BinaryConcat(b[0..1], b[k..|b|]);
  }

  /** When the second character is '1' (a short field of two, too), `slice` changes nothing. */
  lemma SlicedIdentity(b: string)
    requires 2 <= |b| && (b[1] == '1' || |b| == 2)
    ensures Sliced(b) == b
  {
    assert b == [b[0]] + b[1..];
  }

  /** A field whose first bit is 0: the signed parse is the unsigned value of the field. */
  lemma SlicedNonNegative(b: string)
    requires IsBinary(b) && 2 <= |b| <= 32 && b[0] == '0'
    ensures IsBinary(Sliced(b))
    ensures TwosComplement(Sliced(b)) == Unsigned(b)
  {
    SlicedShape(b);
    var k := ScanEnd(b, 1);
    var s := Sliced(b);
    assert s[1..] == b[k..];
    LeadingZero(s);
    LeadingZero(b);
    UnsignedSkipZeros(b, 1, k);
  }

  /** A field whose first bit is 1: the signed parse is always negative. */
  lemma SlicedNegative(b: string)
    requires IsBinary(b) && 2 <= |b| <= 32 && b[0] == '1'
    ensures IsBinary(Sliced(b))
    ensures TwosComplement(Sliced(b)) < 0
  {
    SlicedShape(b);
  }

  /**
   * A field that starts "10": the scan drops at least one '0', so the
   * result reads the remaining bits against a smaller power of two than
   * true two's complement does.
   */
  lemma SlicedInexact(b: string)
    requires IsBinary(b) && 3 <= |b| <= 32 && b[0] == '1' && b[1] == '0'
    ensures IsBinary(Sliced(b))
    ensures TwosComplement(Sliced(b)) > SignedValue(b)
  {
    SlicedShape(b);
    var k := ScanEnd(b, 1);
    var s := Sliced(b);
    var n, m := |b|, |s|;
    assert m == n - k + 1 && k >= 2;
    assert s[1..] == b[k..];
    UnsignedSkipZeros(b, 1, k);
    assert Unsigned(s) == Pow2(m - 1) + Unsigned(b[k..]);
    assert Unsigned(b) == Pow2(n - 1) + Unsigned(b[1..]);
    assert Pow2(m) == 2 * Pow2(m - 1) && Pow2(n) == 2 * Pow2(n - 1);
    assert TwosComplement(s) == Unsigned(b[k..]) - Pow2(m - 1);
    assert SignedValue(b) == Unsigned(b[k..]) - Pow2(n - 1);
    Pow2Monotone(m - 1, n - 1);
  }

  /**
   * Where the simulator's signed parse agrees with true two's complement:
   * exactly when the field is non-negative or its first two bits are both 1.
   */
  lemma SlicedExactIff(b: string)
    requires IsBinary(b) && 3 <= |b| <= 32
    ensures IsBinary(Sliced(b))
    ensures TwosComplement(Sliced(b)) == SignedValue(b) <==> b[0] == '0' || b[1] == '1'
  {
    SlicedShape(b);
    if b[0] == '0' {
      SlicedNonNegative(b);
    } else if b[1] == '1' {
      SlicedIdentity(b);
    } else {
      SlicedInexact(b);
    }
  }

  /** A field of ones only is -1 however wide: `slice` keeps it whole and the padding continues it. */
  lemma AllOnes(b: string)
    requires 2 <= |b| <= 32 && forall k :: 0 <= k < |b| ==> b[k] == '1'
    ensures IsBinary(b) && Sliced(b) == b
    ensures TwosComplement(Sliced(b)) == -1
  {
    assert b == seq(|b|, _ => '1');
    UnsignedFill('1', |b|);
    SlicedIdentity(b);
  }

  /** Where the scan stops when it meets only '0's from `i` up to a '1' at `k`. */
  lemma {:induction false} ScanEndAt(b: string, i: nat, k: nat)
    requires 1 <= i <= k < |b| && b[k] == '1'
    requires forall j :: i <= j < k ==> b[j] == '0'
    ensures ScanEnd(b, i) == k
    decreases k - i
  {
    if i < k {
      ScanEndAt(b, i + 1, k);
    }
  }

  /**
   * The branch target of the negative-address `beq` and `bne` tests:
   * "1000000000000111" loses its twelve zeros to `slice` and reads as -1
   * (true two's complement would give -32761), so the branch is skipped.
   */
  lemma SlicedExample()
    ensures Sliced("1000000000000111") == "1111"
    ensures TwosComplement(Sliced("1000000000000111")) == -1
  {
    var b := "1000000000000111";
    ScanEndAt(b, 1, 13);
    assert b[13..] == "111";
    AllOnes("1111");
  }

  /** Facts about a signed field running from character `i` to the end of the word. */
  lemma SignedField(w: string, i: nat)
    requires ValidWord(w) && i <= 30
    ensures IsBinary(w[i..32]) && IsBinary(Sliced(w[i..32]))
    ensures w[i] == '0' ==> TwosComplement(Sliced(w[i..32])) == Field(w, i, 32)
    ensures TwosComplement(Sliced(w[i..32])) < 0 <==> w[i] == '1'
  {
    var b := w[i..32];
    SliceIsBinary(w, i, 32);
    SlicedShape(b);
    if b[0] == '0' { SlicedNonNegative(b); } else { SlicedNegative(b); }
  }

  /** `parseImmediateSigned`: characters 16..31 through `slice` and `twosComplement`. */
  function ParseImmediateSigned(w: string): (r: int32)
    requires ValidWord(w)
    ensures w[16] == '0' ==> r == ParseImmediateUnsigned(w)
    ensures r < 0 <==> w[16] == '1'
  {
    SignedField(w, 16);
    TwosComplement(Sliced(w[16..32]))
  }

  /** `parseJumpAddress`: characters 6..31 through `slice` and `twosComplement`. */
  function ParseJumpAddress(w: string): (r: int32)
    requires ValidWord(w)
    ensures w[6] == '0' ==> r == Field(w, 6, 32)
    ensures r < 0 <==> w[6] == '1'
  {
    SignedField(w, 6);
    TwosComplement(Sliced(w[6..32]))
  }

  /** The signed immediate is exact two's complement iff bit 16 is 0 or bits 16 and 17 are both 1. */
  lemma ImmediateSignedExactIff(w: string)
    requires ValidWord(w)
    ensures IsBinary(w[16..32])
    ensures ParseImmediateSigned(w) == SignedValue(w[16..32]) <==> w[16] == '0' || w[17] == '1'
  {
    SliceIsBinary(w, 16, 32);
    SlicedExactIff(w[16..32]);
  }

  /** The jump address is exact two's complement iff bit 6 is 0 or bits 6 and 7 are both 1. */
  lemma JumpAddressExactIff(w: string)
    requires ValidWord(w)
    ensures IsBinary(w[6..32])
    ensures ParseJumpAddress(w) == SignedValue(w[6..32]) <==> w[6] == '0' || w[7] == '1'
  {
    SliceIsBinary(w, 6, 32);
    SlicedExactIff(w[6..32]);
  }

  /** A jump address of twenty-six '1's decodes to -1, the out-of-range jump of the simulator's tests. */
  lemma JumpAllOnes(w: string)
    requires ValidWord(w) && forall k :: 6 <= k < 32 ==> w[k] == '1'
    ensures ParseJumpAddress(w) == -1
  {
    AllOnes(w[6..32]);
  }

  /**
   * `determineNegative`: character 16 of the word, the sign bit of the
   * immediate; on a word it agrees with the sign of the parsed immediate.
   */
  function DetermineNegative(bits: string): (r: bool)
    requires 17 <= |bits|
    ensures ValidWord(bits) ==> (r <==> ParseImmediateSigned(bits) < 0)
  {
    bits[16] == '1'
  }

  /** `determineType`: "R" for opcode 0, "J" for opcode 2, "I" for every other opcode. */
  function DetermineType(op: int): (t: string)
    ensures t == "R" || t == "J" || t == "I"
    ensures t == "R" <==> op == 0
    ensures t == "J" <==> op == 2
  {
    if op == 0 then "R" else if op == 2 then "J" else "I"
  }

  /** `getType`: the type the constructor derives from the word's opcode. */
  function GetType(w: string): (t: string)
    requires ValidWord(w)
    ensures t == "R" || t == "J" || t == "I"
    ensures t == "R" <==> OpcodeValue(w) == 0
    ensures t == "J" <==> OpcodeValue(w) == 2
  {
    DetermineType(OpcodeValue(w))
  }
}
