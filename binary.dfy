/**
 * Binary strings as the simulator reads them: `Long.parseLong(s, 2)` and
 * `Long.parseUnsignedLong(s, 2)` on a string of '0'/'1' characters without a
 * sign give the most-significant-bit-first unsigned value of the string.
 */
module Binary {

  /** Every character is '0' or '1'. */
  predicate IsBinary(s: string)
  {
    forall i :: 0 <= i < |s| ==> s[i] == '0' || s[i] == '1'
  }

  function Pow2(n: nat): (r: nat)
    ensures r >= 1
  {
    if n == 0 then 1 else 2 * Pow2(n - 1)
  }

  lemma {:induction false} Pow2Add(a: nat, b: nat)
    ensures Pow2(a + b) == Pow2(a) * Pow2(b)
  {
    if a > 0 {
      Pow2Add(a - 1, b);
      assert Pow2(a + b) == 2 * Pow2(a - 1 + b);
    }
  }

  /** The powers of two up to 2^32, for reading concrete instruction words. */
  lemma Pow2Values()
    ensures Pow2(1) == 2
    ensures Pow2(2) == 4
    ensures Pow2(3) == 8
    ensures Pow2(4) == 16
    ensures Pow2(5) == 32
    ensures Pow2(6) == 64
    ensures Pow2(7) == 128
    ensures Pow2(8) == 256
    ensures Pow2(9) == 512
    ensures Pow2(10) == 1024
    ensures Pow2(11) == 2048
    ensures Pow2(12) == 4096
    ensures Pow2(13) == 8192
    ensures Pow2(14) == 16384
    ensures Pow2(15) == 32768
    ensures Pow2(16) == 65536
    ensures Pow2(17) == 131072
    ensures Pow2(18) == 262144
    ensures Pow2(19) == 524288
    ensures Pow2(20) == 1048576
    ensures Pow2(21) == 2097152
    ensures Pow2(22) == 4194304
    ensures Pow2(23) == 8388608
    ensures Pow2(24) == 16777216
    ensures Pow2(25) == 33554432
    ensures Pow2(26) == 67108864
    ensures Pow2(27) == 134217728
    ensures Pow2(28) == 268435456
    ensures Pow2(29) == 536870912
    ensures Pow2(30) == 1073741824
    ensures Pow2(31) == 2147483648
    ensures Pow2(32) == 4294967296
  {
  }

  lemma {:induction false} Pow2Monotone(a: nat, b: nat)
    requires a < b
    ensures Pow2(a) < Pow2(b)
  {
    if b > a + 1 {
      Pow2Monotone(a, b - 1);
    }
  }

  /** The unsigned value of a binary string, most significant bit first. */
  function Unsigned(s: string): (r: nat)
    requires IsBinary(s)
    ensures r < Pow2(|s|)
    ensures |s| > 0 ==> (r >= Pow2(|s| - 1) <==> s[0] == '1')
  {
    if |s| == 0 then 0 else (if s[0] == '1' then Pow2(|s| - 1) else 0) + Unsigned(s[1..])
  }

  lemma BinaryConcat(a: string, b: string)
    requires IsBinary(a) && IsBinary(b)
    ensures IsBinary(a + b)
  {
    forall i | 0 <= i < |a + b| ensures (a + b)[i] == '0' || (a + b)[i] == '1' {
      if i >= |a| { assert (a + b)[i] == b[i - |a|]; }
    }
  }

  lemma MulAddDistributes(x: int, y: int, z: int)
    ensures x * z + y * z == (x + y) * z
  {
  }

  /** Appending bits: the prefix is shifted left by the length of the suffix. */
  lemma {:induction false} UnsignedAppend(a: string, b: string)
    requires IsBinary(a) && IsBinary(b)
    ensures IsBinary(a + b)
    ensures Unsigned(a + b) == Unsigned(a) * Pow2(|b|) + Unsigned(b)
  {
    BinaryConcat(a, b);
    if |a| > 0 {
      assert (a + b)[0] == a[0];
      assert (a + b)[1..] == a[1..] + b;
      UnsignedAppend(a[1..], b);
      Pow2Add(|a| - 1, |b|);
      var p, q := Pow2(|a| - 1), Pow2(|b|);
      assert Unsigned(a[1..] + b) == Unsigned(a[1..]) * q + Unsigned(b);
      if a[0] == '1' {
        assert Unsigned(a + b) == p * q + Unsigned(a[1..] + b);
        assert Unsigned(a) == p + Unsigned(a[1..]);
        MulAddDistributes(p, Unsigned(a[1..]), q);
      } else {
        assert Unsigned(a + b) == Unsigned(a[1..] + b);
        assert Unsigned(a) == Unsigned(a[1..]);
      }
    } else {
      assert a + b == b;
    }
  }

  /** A leading '0' adds nothing. */
  lemma LeadingZero(s: string)
    requires IsBinary(s) && |s| > 0 && s[0] == '0'
    ensures IsBinary(s[1..]) && Unsigned(s) == Unsigned(s[1..])
  {
  }

  /** A run of '0' characters in front of a string does not change its value. */
  lemma {:induction false} UnsignedSkipZeros(s: string, i: nat, j: nat)
    requires IsBinary(s) && i <= j <= |s|
    requires forall k :: i <= k < j ==> s[k] == '0'
    ensures Unsigned(s[i..]) == Unsigned(s[j..])
    decreases j - i
  {
    if i < j {
      assert s[i..][1..] == s[i + 1..];
      UnsignedSkipZeros(s, i + 1, j);
    }
  }

  /** The `w`-character binary string of `v`, most significant bit first. */
  function ToBits(v: nat, w: nat): (s: string)
    requires v < Pow2(w)
    ensures |s| == w && IsBinary(s)
  {
    if w == 0 then []
    else if v >= Pow2(w - 1) then ['1'] + ToBits(v - Pow2(w - 1), w - 1)
    else ['0'] + ToBits(v, w - 1)
  }

  /** Encoding then parsing gives the number back. */
  lemma {:induction false} UnsignedToBits(v: nat, w: nat)
    requires v < Pow2(w)
    ensures Unsigned(ToBits(v, w)) == v
  {
    if w > 0 {
      var s := ToBits(v, w);
      assert s[1..] == ToBits(if v >= Pow2(w - 1) then v - Pow2(w - 1) else v, w - 1);
      UnsignedToBits(if v >= Pow2(w - 1) then v - Pow2(w - 1) else v, w - 1);
    }
  }

  /** Parsing then encoding at the same width gives the string back. */
  lemma {:induction false} ToBitsUnsigned(s: string)
    requires IsBinary(s)
    ensures ToBits(Unsigned(s), |s|) == s
  {
    if |s| > 0 {
      ToBitsUnsigned(s[1..]);
      assert s == [s[0]] + s[1..];
    }
  }

  /**
   * The binary string with no leading zeros (just "0" for zero), as
   * `Long.toUnsignedString(x, 2)` writes an unsigned value.
   */
  function MinimalBits(u: nat): (s: string)
    ensures |s| >= 1 && IsBinary(s)
    ensures Unsigned(s) == u
    ensures s[0] == '1' || s == "0"
  {
    if u < 2 then
      if u == 1 then "1" else "0"
    else
      var hi, lo := MinimalBits(u / 2), if u % 2 == 1 then "1" else "0";
      UnsignedAppend(hi, lo);
      assert Unsigned(lo) == u % 2 && Pow2(|lo|) == 2;
      assert u / 2 * 2 + u % 2 == u;
      assert hi != "0" && (hi + lo)[0] == hi[0];
      hi + lo
  }
}
