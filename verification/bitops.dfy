/**
  The BMI1/BMI2 operations that the emulator dispatches to, one definition per
  operation for every operand width (the width is the length of the bit
  strings). Each follows the operation pseudocode of its page in Volume 2 of
  the Intel 64 and IA-32 Architectures Software Developer's Manual (RORX,
  ANDN, BLSR, BLSMSK, BLSI, BZHI, PEXT, PDEP, MULX, BEXTR, SARX/SHLX/SHRX).
  The lemmas relate each definition to natural-number arithmetic or to an
  independent bit-level description, and prove the round trips between the
  operations that are inverses of each other.
 */
module BitOps {
  import opened Bits

  type byte = x: nat | x < 256

  function Min(a: nat, b: nat): nat
  {
    if a <= b then a else b
  }

  // ---------------------------------------------------------------------
  // RORX: rotate right by an immediate count, masked to the operand width

  function RotateRight(s: Bits, k: nat): (r: Bits)
    requires k <= |s|
    ensures |r| == |s|
  {
    s[k..] + s[..k]
  }

  /** The count is imm8 AND 3FH for 64-bit operands and imm8 AND 1FH for 32-bit ones. */
  function Rorx(s: Bits, imm: byte): (r: Bits)
    requires |s| > 0
    ensures |r| == |s|
  {
    RotateRight(s, imm % |s|)
  }

  /** Bit i of the rotated value is bit i + k of the source, wrapping round. */
  lemma RotateRightAt(s: Bits, k: nat, i: nat)
    requires k <= |s| && i < |s|
    ensures RotateRight(s, k)[i] == s[(i + k) % |s|]
  {
    if i + k < |s| {
      DivModUnique(i + k, |s|, 0, i + k);
    } else {
      DivModUnique(i + k, |s|, 1, i + k - |s|);
    }
  }

  /** Rotating right by k then by the rest of the width restores the source. */
  lemma RotateRightInverse(s: Bits, k: nat)
    requires k <= |s|
    ensures RotateRight(RotateRight(s, k), |s| - k) == s
  {
    var r := RotateRight(s, k);
    assert r[|s| - k..] == s[..k];
    assert r[..|s| - k] == s[k..];
    assert s == s[..k] + s[k..];
  }

  /** The rotated value: the high part shifted down plus the low k bits moved to the top. */
  lemma RorxValue(s: Bits, imm: byte)
    requires |s| > 0
    ensures ToNat(Rorx(s, imm)) ==
            ToNat(s) / Pow2(imm % |s|) + (ToNat(s) % Pow2(imm % |s|)) * Pow2(|s| - imm % |s|)
  {
    var k := imm % |s|;
    var hi, lo := s[k..], s[..k];
    assert Rorx(s, imm) == hi + lo;
    ToNatAppend(hi, lo);
    ToNatPrefix(s, k);
    MulCommutes(Pow2(|s| - k), ToNat(lo));
  }

  // ---------------------------------------------------------------------
  // ANDN: the complement of the first source and-ed with the second

  function Andn(src1: Bits, src2: Bits): (r: Bits)
    requires |src1| == |src2|
    ensures |r| == |src1|
  {
    And(Not(src1), src2)
  }

  /** ANDN and AND split the second source's set bits between them. */
  lemma {:induction false} AndnSplitsSecond(a: Bits, b: Bits)
    requires |a| == |b|
    ensures ToNat(Andn(a, b)) + ToNat(And(a, b)) == ToNat(b)
  {
    if a != [] {
      assert Andn(a, b)[1..] == Andn(a[1..], b[1..]);
      assert And(a, b)[1..] == And(a[1..], b[1..]);
      AndnSplitsSecond(a[1..], b[1..]);
    }
  }

  // ---------------------------------------------------------------------
  // BLSR, BLSMSK, BLSI: SRC - 1 and -SRC in two's complement of the width

  /** SRC - 1, wrapping round at the width. */
  function Decrement(s: Bits): (r: Bits)
    ensures |r| == |s|
  {
    FromNat((ToNat(s) + Pow2(|s|) - 1) % Pow2(|s|), |s|)
  }

  /** -SRC, wrapping round at the width. */
  function Negate(s: Bits): (r: Bits)
    ensures |r| == |s|
  {
    ToNatBound(s);
    FromNat((Pow2(|s|) - ToNat(s)) % Pow2(|s|), |s|)
  }

  function Blsr(s: Bits): (r: Bits)
    ensures |r| == |s|
  {
    And(Decrement(s), s)
  }

  function Blsmsk(s: Bits): (r: Bits)
    ensures |r| == |s|
  {
    Xor(Decrement(s), s)
  }

  function Blsi(s: Bits): (r: Bits)
    ensures |r| == |s|
  {
    And(Negate(s), s)
  }

  /** The index of the lowest set bit, or the width when no bit is set. */
  function LowestSet(s: Bits): (k: nat)
    ensures k <= |s|
    ensures forall i :: 0 <= i < k ==> !s[i]
    ensures k < |s| ==> s[k]
  {
    if s == [] then 0 else if s[0] then 0 else 1 + LowestSet(s[1..])
  }

  lemma {:induction false} LowestSetIs(s: Bits, k: nat)
    requires k < |s| && s[k]
    requires forall i :: 0 <= i < k ==> !s[i]
    ensures LowestSet(s) == k
  {
    if k > 0 {
      assert !s[0];
      LowestSetIs(s[1..], k - 1);
    }
  }

  /** The arithmetic of one borrow step: the low bit and the rest of (2tv + b - 1) mod 2p. */
  lemma DecrementArith(b: nat, tv: nat, p: nat)
    requires b <= 1 && tv < p
    ensures var m := (b + 2 * tv + 2 * p - 1) % (2 * p);
            (b == 1 ==> m % 2 == 0 && m / 2 == tv) &&
            (b == 0 ==> m % 2 == 1 && m / 2 == (tv + p - 1) % p)
  {
    var m := (b + 2 * tv + 2 * p - 1) % (2 * p);
    if b == 1 {
      DivModUnique(2 * tv + 2 * p, 2 * p, 1, 2 * tv);
      DivModUnique(m, 2, tv, 0);
    } else {
      var n := 2 * (tv + p - 1) + 1;
      HalfMod(n, p);
      DivModUnique(m, 2, (tv + p - 1) % p, 1);
    }
  }

  /** Subtracting one borrows through the low zero bits and clears the lowest set bit. */
  lemma DecrementStep(s: Bits)
    requires |s| > 0
    ensures Decrement(s) == if s[0] then [false] + s[1..] else [true] + Decrement(s[1..])
  {
    var t := s[1..];
    var w, tv, p := |s|, ToNat(t), Pow2(|s| - 1);
    ToNatBound(t);
    assert Pow2(w) == 2 * p;
    assert ToNat(s) == Bit(s[0]) + 2 * tv;
    DecrementArith(Bit(s[0]), tv, p);
    var m := (ToNat(s) + Pow2(w) - 1) % Pow2(w);
    assert Decrement(s) == [m % 2 == 1] + FromNat(m / 2, w - 1);
    if s[0] {
      ToNatFromNat(t);
    }
  }

  /** The arithmetic of one negation step: the low bit and the rest of (2p - 2tv - b) mod 2p. */
  lemma NegateArith(b: nat, tv: nat, p: nat)
    requires b <= 1 && tv < p
    ensures var m := (2 * p - (b + 2 * tv)) % (2 * p);
            (b == 1 ==> m % 2 == 1 && m / 2 == p - 1 - tv) &&
            (b == 0 ==> m % 2 == 0 && m / 2 == (p - tv) % p)
  {
    var m := (2 * p - (b + 2 * tv)) % (2 * p);
    if b == 1 {
      DivModUnique(2 * p - 1 - 2 * tv, 2 * p, 0, 2 * p - 1 - 2 * tv);
      DivModUnique(m, 2, p - 1 - tv, 1);
    } else {
      var n := 2 * (p - tv);
      HalfMod(n, p);
      DivModUnique(m, 2, (p - tv) % p, 0);
    }
  }

  /** Negating keeps the bits up to the lowest set one and flips all the bits above it. */
  lemma NegateStep(s: Bits)
    requires |s| > 0
    ensures Negate(s) == if s[0] then [true] + Not(s[1..]) else [false] + Negate(s[1..])
  {
    var t := s[1..];
    var w, tv, p := |s|, ToNat(t), Pow2(|s| - 1);
    ToNatBound(t);
    assert Pow2(w) == 2 * p;
    assert ToNat(s) == Bit(s[0]) + 2 * tv;
    NegateArith(Bit(s[0]), tv, p);
    var m := (Pow2(w) - ToNat(s)) % Pow2(w);
    assert Negate(s) == [m % 2 == 1] + FromNat(m / 2, w - 1);
    if s[0] {
      ToNatNot(t);
      ToNatFromNat(Not(t));
    }
  }

  /** BLSR clears the lowest set bit and keeps every other bit. */
  lemma {:induction false} BlsrClearsLowest(s: Bits)
    ensures forall i :: 0 <= i < |s| ==> Blsr(s)[i] == (s[i] && i != LowestSet(s))
  {
    if s != [] {
      DecrementStep(s);
      var t := s[1..];
      if !s[0] {
        BlsrClearsLowest(t);
        forall i | 1 <= i < |s|
          ensures Blsr(s)[i] == (s[i] && i != LowestSet(s))
        {
          assert Blsr(s)[i] == Blsr(t)[i - 1];
        }
      }
    }
  }

  /** BLSMSK sets every bit up to and including the lowest set bit, and clears the rest. */
  lemma {:induction false} BlsmskMasksUpToLowest(s: Bits)
    ensures forall i :: 0 <= i < |s| ==> Blsmsk(s)[i] == (i <= LowestSet(s))
  {
    if s != [] {
      DecrementStep(s);
      var t := s[1..];
      if !s[0] {
        BlsmskMasksUpToLowest(t);
        forall i | 1 <= i < |s|
          ensures Blsmsk(s)[i] == (i <= LowestSet(s))
        {
          assert Blsmsk(s)[i] == Blsmsk(t)[i - 1];
        }
      }
    }
  }

  /** BLSI keeps only the lowest set bit. */
  lemma {:induction false} BlsiIsolatesLowest(s: Bits)
    ensures forall i :: 0 <= i < |s| ==> Blsi(s)[i] == (i == LowestSet(s))
  {
    if s != [] {
      NegateStep(s);
      var t := s[1..];
      if !s[0] {
        BlsiIsolatesLowest(t);
        forall i | 1 <= i < |s|
          ensures Blsi(s)[i] == (i == LowestSet(s))
        {
          assert Blsi(s)[i] == Blsi(t)[i - 1];
        }
      }
    }
  }

  /** Isolating the lowest bit of the most negative value gives that value back. */
  lemma BlsiOfSignBit(w: nat)
    requires w > 0
    ensures Blsi(Zeros(w - 1) + [true]) == Zeros(w - 1) + [true]
  {
    var s := Zeros(w - 1) + [true];
    LowestSetIs(s, w - 1);
    BlsiIsolatesLowest(s);
  }

  // ---------------------------------------------------------------------
  // BZHI: clear the bits from the index in the low byte of the second source up

  /** Keep the low n bits and zero the rest; unchanged when n reaches the width. */
  function LowBits(s: Bits, n: nat): (r: Bits)
    ensures |r| == |s|
  {
    if n < |s| then s[..n] + Zeros(|s| - n) else s
  }

  function Bzhi(src: Bits, index: Bits): (r: Bits)
    requires |index| >= 8
    ensures |r| == |src|
  {
    LowBits(src, ToNat(index[..8]))
  }

  lemma ModOfSmaller(x: nat, m: nat)
    requires x < m
    ensures x % m == x && x / m == 0
  {
    DivModUnique(x, m, 0, x);
  }

  /** Keeping the low n bits reduces the value modulo 2^n. */
  lemma LowBitsValue(s: Bits, n: nat)
    ensures ToNat(LowBits(s, n)) == ToNat(s) % Pow2(n)
  {
    if n < |s| {
      ToNatAppend(s[..n], Zeros(|s| - n));
      ToNatZeros(|s| - n);
      ToNatPrefix(s, n);
    } else {
      ToNatBound(s);
      Pow2Monotone(|s|, n);
      ModOfSmaller(ToNat(s), Pow2(n));
    }
  }

  // ---------------------------------------------------------------------
  // SHLX, SHRX, SARX: shift by the second source masked to the operand width

  /** The count is SRC2 AND 3FH for 64-bit operands and SRC2 AND 1FH for 32-bit ones. */
  function ShiftCount(count: Bits, w: nat): (c: nat)
    requires w > 0
    ensures c < w
  {
    ToNat(count) % w
  }

  function ShiftLeft(s: Bits, c: nat): (r: Bits)
    requires c <= |s|
    ensures |r| == |s|
  {
    Zeros(c) + s[..|s| - c]
  }

  function ShiftRight(s: Bits, c: nat): (r: Bits)
    requires c <= |s|
    ensures |r| == |s|
  {
    s[c..] + Zeros(c)
  }

  function ShiftRightArith(s: Bits, c: nat): (r: Bits)
    requires 0 < |s| && c <= |s|
    ensures |r| == |s|
  {
    s[c..] + Fill(s[|s| - 1], c)
  }

  function Shlx(src: Bits, count: Bits): (r: Bits)
    requires |src| > 0
    ensures |r| == |src|
  {
    ShiftLeft(src, ShiftCount(count, |src|))
  }

  function Shrx(src: Bits, count: Bits): (r: Bits)
    requires |src| > 0
    ensures |r| == |src|
  {
    ShiftRight(src, ShiftCount(count, |src|))
  }

  function Sarx(src: Bits, count: Bits): (r: Bits)
    requires |src| > 0
    ensures |r| == |src|
  {
    ShiftRightArith(src, ShiftCount(count, |src|))
  }

  /** A logical left shift multiplies by 2^c, wrapping round at the width. */
  lemma ShiftLeftValue(s: Bits, c: nat)
    requires c <= |s|
    ensures ToNat(ShiftLeft(s, c)) == Mul(ToNat(s), Pow2(c)) % Pow2(|s|)
  {
    var w := |s|;
    var low := s[..w - c];
    assert ShiftLeft(s, c) == Zeros(c) + low;
    ToNatAppend(Zeros(c), low);
    ToNatZeros(c);
    ToNatPrefix(s, w - c);
    Pow2Add(w - c, c);
    ShiftLeftArith(ToNat(s), Pow2(c), Pow2(w - c), ToNat(low), Pow2(w));
  }

  lemma ShiftLeftArith(x: nat, pc: nat, pr: nat, low: nat, pw: nat)
    requires pc > 0 && pr > 0 && low == x % pr && pw == pr * pc
    ensures pc * low == Mul(x, pc) % pw
  {
    ModScale(x, pr, pc);
  }

  /** A logical right shift divides by 2^c, rounding down. */
  lemma ShiftRightValue(s: Bits, c: nat)
    requires c <= |s|
    ensures ToNat(ShiftRight(s, c)) == ToNat(s) / Pow2(c)
  {
    ToNatAppend(s[c..], Zeros(c));
    ToNatZeros(c);
    ToNatPrefix(s, c);
  }

  /** The sign fill adds 2^w - 2^(w-c) to the logical shift's value when the sign bit is set. */
  lemma ShiftRightArithNat(s: Bits, c: nat)
    requires 0 < c <= |s|
    ensures ToNat(ShiftRightArith(s, c)) ==
            ToNat(s) / Pow2(c) + Pow2(|s| - c) * (if s[|s| - 1] then Pow2(c) - 1 else 0)
  {
    var sign := s[|s| - 1];
    assert ShiftRightArith(s, c) == s[c..] + Fill(sign, c);
    ToNatAppend(s[c..], Fill(sign, c));
    ToNatPrefix(s, c);
    ToNatFill(sign, c);
  }

  /** Subtracting the sign's weight before or after dividing by 2^c agrees, rounding down. */
  lemma SignFillArith(x: nat, pc: nat, ph: nat, sign: bool)
    requires pc > 0
    ensures x / pc + ph * (if sign then pc - 1 else 0) - (if sign then ph * pc else 0) ==
            (x - (if sign then ph * pc else 0)) / pc
  {
    if sign {
      DivSubMultiple(x, ph, pc);
      assert ph * (pc - 1) == ph * pc - ph;
    }
  }

  /** An arithmetic right shift divides the signed value by 2^c, rounding toward minus infinity. */
  lemma ShiftRightArithValue(s: Bits, c: nat)
    requires 0 < |s| && c <= |s|
    ensures ToInt(ShiftRightArith(s, c)) == ToInt(s) / Pow2(c)
  {
    var w := |s|;
    var r := ShiftRightArith(s, c);
    if c == 0 {
      assert r == s;
    } else {
      var x, pc, ph, sign := ToNat(s), Pow2(c), Pow2(w - c), s[w - 1];
      Pow2Add(w - c, c);
      var weight := if sign then ph * pc else 0;
      assert ToInt(s) + weight == x;
      assert r[w - 1] == sign;
      assert ToInt(r) + weight == ToNat(r);
      ShiftRightArithNat(s, c);
      SignFillArith(x, pc, ph, sign);
    }
  }

  // ---------------------------------------------------------------------
  // BEXTR: extract LEN = SRC2[15:8] bits starting at START = SRC2[7:0]

  function Bextr(src: Bits, control: Bits): (r: Bits)
    requires |control| >= 16
    ensures |r| == |src|
  {
    var start := ToNat(control[..8]);
    var len := ToNat(control[8..16]);
    LowBits(ShiftRight(src, Min(start, |src|)), len)
  }

  /** The extracted field is the source shifted down by START, reduced modulo 2^LEN. */
  lemma BextrValue(src: Bits, control: Bits)
    requires |control| >= 16
    ensures ToNat(Bextr(src, control)) ==
            (ToNat(src) / Pow2(ToNat(control[..8]))) % Pow2(ToNat(control[8..16]))
  {
    var start := ToNat(control[..8]);
    var len := ToNat(control[8..16]);
    var shifted := ShiftRight(src, Min(start, |src|));
    LowBitsValue(shifted, len);
    ShiftRightValue(src, Min(start, |src|));
    if start > |src| {
      ToNatBound(src);
      Pow2Monotone(|src|, start);
      ModOfSmaller(ToNat(src), Pow2(start));
      ModOfSmaller(ToNat(src), Pow2(|src|));
    }
  }

  // ---------------------------------------------------------------------
  // PEXT and PDEP: gather and scatter the bits selected by a mask

  function Popcount(m: Bits): (n: nat)
    ensures n <= |m|
  {
    if m == [] then 0 else Bit(m[0]) + Popcount(m[1..])
  }

  /** The bits of src at the positions where mask is set, lowest first. */
  function Gather(src: Bits, mask: Bits): (r: Bits)
    requires |src| == |mask|
    ensures |r| == Popcount(mask)
  {
    if mask == [] then []
    else (if mask[0] then [src[0]] else []) + Gather(src[1..], mask[1..])
  }

  /** The low bits of src placed, in order, at the positions where mask is set. */
  function Scatter(src: Bits, mask: Bits): (r: Bits)
    requires Popcount(mask) <= |src|
    ensures |r| == |mask|
  {
    if mask == [] then []
    else if mask[0] then [src[0]] + Scatter(src[1..], mask[1..])
    else [false] + Scatter(src, mask[1..])
  }

  function Pext(src: Bits, mask: Bits): (r: Bits)
    requires |src| == |mask|
    ensures |r| == |src|
  {
    Gather(src, mask) + Zeros(|src| - Popcount(mask))
  }

  function Pdep(src: Bits, mask: Bits): (r: Bits)
    requires |src| == |mask|
    ensures |r| == |src|
  {
    Scatter(src, mask)
  }

  lemma {:induction false} GatherScatter(v: Bits, m: Bits)
    requires Popcount(m) <= |v|
    ensures Gather(Scatter(v, m), m) == v[..Popcount(m)]
  {
    if m != [] {
      var s := Scatter(v, m);
      if m[0] {
        GatherScatter(v[1..], m[1..]);
        assert s[1..] == Scatter(v[1..], m[1..]);
        assert v[..Popcount(m)] == [v[0]] + v[1..][..Popcount(m[1..])];
      } else {
        GatherScatter(v, m[1..]);
        assert s[1..] == Scatter(v, m[1..]);
      }
    }
  }

  lemma {:induction false} ScatterGather(x: Bits, m: Bits, tail: Bits)
    requires |x| == |m|
    ensures Scatter(Gather(x, m) + tail, m) == And(x, m)
  {
    if m != [] {
      ScatterGather(x[1..], m[1..], tail);
      ScatterGatherStep(x, m, tail);
    }
  }

  /** One step of ScatterGather: the first mask bit decides whether x[0] is gathered and put back. */
  lemma ScatterGatherStep(x: Bits, m: Bits, tail: Bits)
    requires |x| == |m| > 0
    requires Scatter(Gather(x[1..], m[1..]) + tail, m[1..]) == And(x[1..], m[1..])
    ensures Scatter(Gather(x, m) + tail, m) == And(x, m)
  {
    var g := Gather(x, m) + tail;
    var rest := Gather(x[1..], m[1..]) + tail;
    assert And(x, m) == [x[0] && m[0]] + And(x[1..], m[1..]);
    if m[0] {
      assert g[0] == x[0] && g[1..] == rest;
    } else {
      assert g == rest;
    }
  }

  /** Depositing then extracting with the same mask gives back the low Popcount(mask) bits. */
  lemma PextOfPdep(v: Bits, m: Bits)
    requires |v| == |m|
    ensures Pext(Pdep(v, m), m) == LowBits(v, Popcount(m))
  {
    GatherScatter(v, m);
    if Popcount(m) == |v| {
      assert v[..|v|] == v;
    }
  }

  /** Extracting then depositing with the same mask keeps exactly the masked bits. */
  lemma PdepOfPext(x: Bits, m: Bits)
    requires |x| == |m|
    ensures Pdep(Pext(x, m), m) == And(x, m)
  {
    ScatterGather(x, m, Zeros(|x| - Popcount(m)));
  }

  // ---------------------------------------------------------------------
  // MULX: unsigned widening multiply of EDX/RDX by the source

  /** TEMP[2*OperandSize-1 : OperandSize], written to the ModRM.reg register. */
  function MulxHigh(a: Bits, b: Bits): (r: Bits)
    requires |a| == |b|
    ensures |r| == |a|
  {
    FromNat(Quotient(Mul(ToNat(a), ToNat(b)), Pow2(|a|)), |a|)
  }

  /** TEMP[OperandSize-1 : 0], written to the VEX.vvvv register. */
  function MulxLow(a: Bits, b: Bits): (r: Bits)
    requires |a| == |b|
    ensures |r| == |a|
  {
    FromNat(Mul(ToNat(a), ToNat(b)), |a|)
  }

  /** The two halves together hold the full double-width product. */
  lemma MulxProduct(a: Bits, b: Bits)
    requires |a| == |b|
    ensures ToNat(MulxHigh(a, b)) * Pow2(|a|) + ToNat(MulxLow(a, b)) == ToNat(a) * ToNat(b)
    ensures ToNat(MulxLow(a, b)) == (ToNat(a) * ToNat(b)) % Pow2(|a|)
  {
    var w := |a|;
    var x, y, p := ToNat(a), ToNat(b), Pow2(w);
    ToNatBound(a);
    ToNatBound(b);
    HighHalfBound(x, y, p);
    var prod := Mul(x, y);
    var hi := Quotient(prod, p);
    FromNatToNat(hi, w);
    ModOfSmaller(hi, p);
    FromNatToNat(prod, w);
    QuotientRemainder(prod, p);
  }

}
