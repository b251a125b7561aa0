/**
  The BMI1/BMI2 emulator of bmi.c. It starts from fields already decoded out
  of a VEX-encoded instruction (section 2.3 of Volume 2A of the Intel 64 and
  IA-32 Architectures Software Developer's Manual): the opcode byte, VEX.pp
  (the prefix class), VEX.mmmmm (the opcode map), ModRM and the VEX extension
  bits. It then
    - widens the ModRM register fields with the extension bits,
    - chooses one of the bit-manipulation operations from
      (opcode, prefix class, map, and ModRM.reg for opcode F3),
    - writes the result to ModRM.reg, or to VEX.vvvv for BLSR/BLSMSK/BLSI
      and for MULX's second result,
    - returns the instruction length so far plus the bytes consumed after
      the opcode (one more for RORX's imm8), or 0 for "not handled".
 */
module Bmi {
  import opened Bits
  import opened BitOps

  datatype Option<T> = None | Some(value: T)

  datatype Op = Rorx | Andn | Blsr | Blsmsk | Blsi | Bzhi | Pext | Pdep | Mulx | Bextr | Shlx | Sarx | Shrx

  // VEX.pp: the implied legacy prefix
  const PrefixNone: byte := 0
  const Prefix66: byte := 1
  const PrefixF3: byte := 2
  const PrefixF2: byte := 3

  // VEX.mmmmm: the implied leading opcode bytes
  const Map0F38: byte := 2
  const Map0F3A: byte := 3

  /** Register number of RDX/EDX, MULX's implied source. */
  const RDX: nat := 2

  const RegisterCount: nat := 16

  /**
    The instruction fields bmi_instruction receives from the decoder. Some of
    them (highIndex, modbyte) are only passed on to the operand fetch, which
    is not part of this model.
   */
  datatype Fields = Fields(
    vexreg: nat,        // VEX.vvvv, already inverted: a register number
    opcode: byte,
    modrm: byte,
    highReg: byte,      // VEX.R extension of ModRM.reg (non-zero: set)
    highIndex: byte,    // VEX.X extension of SIB.index
    highBase: byte,     // VEX.B extension of ModRM.rm / SIB.base
    operandSize: byte,  // operand size chosen by VEX.W in 64-bit mode
    leadingOpcode: byte,
    simdPrefix: byte,
    modbyte: byte)

  // ---------------------------------------------------------------------
  // Register-index widening

  /** ModRM.reg, bits 5..3 of the ModRM byte. */
  function ModReg(modrm: byte): (r: nat)
    ensures r < 8
    ensures modrm == (modrm / 64) * 64 + r * 8 + modrm % 8
  {
    (modrm / 8) % 8
  }

  /** The destination register: ModRM.reg, plus 8 when the high-reg bit is set. */
  function DstIndex(modrm: byte, highReg: byte): (r: nat)
    ensures r < RegisterCount
    ensures r % 8 == ModReg(modrm)
    ensures r >= 8 <==> highReg != 0
  {
    ModReg(modrm) + (if highReg != 0 then 8 else 0)
  }

  /** The register-direct source: ModRM.rm (bits 2..0), plus 8 when the high-base bit is set. */
  function SrcIndex(modrm: byte, highBase: byte): (r: nat)
    ensures r < RegisterCount
    ensures r % 8 == modrm % 8
    ensures r >= 8 <==> highBase != 0
  {
    modrm % 8 + (if highBase != 0 then 8 else 0)
  }

  // ---------------------------------------------------------------------
  // Dispatch table

  /** The six opcode bytes the switch has a case for; every other byte returns 0 at once. */
  predicate KnownOpcode(opcode: byte)
  {
    opcode == 0xF0 || opcode == 0xF2 || opcode == 0xF3 ||
    opcode == 0xF5 || opcode == 0xF6 || opcode == 0xF7
  }

  /**
    A row of the manual's opcode tables: opcode byte, VEX.pp, VEX.mmmmm and,
    for the group opcode F3, the /digit held in ModRM.reg.
   */
  datatype Encoding = Encoding(opcode: byte, prefix: byte, opcodeMap: byte, digit: Option<nat>)

  /** Each operation's encoding, as its instruction page in the manual lists it. */
  function EncodingOf(op: Op): Encoding
  {
    match op
    case Rorx => Encoding(0xF0, PrefixF2, Map0F3A, None)      // VEX.LZ.F2.0F3A F0 /r ib
    case Andn => Encoding(0xF2, PrefixNone, Map0F38, None)    // VEX.LZ.0F38 F2 /r
    case Blsr => Encoding(0xF3, PrefixNone, Map0F38, Some(1)) // VEX.LZ.0F38 F3 /1
    case Blsmsk => Encoding(0xF3, PrefixNone, Map0F38, Some(2)) // VEX.LZ.0F38 F3 /2
    case Blsi => Encoding(0xF3, PrefixNone, Map0F38, Some(3)) // VEX.LZ.0F38 F3 /3
    case Bzhi => Encoding(0xF5, PrefixNone, Map0F38, None)    // VEX.LZ.0F38 F5 /r
    case Pext => Encoding(0xF5, PrefixF3, Map0F38, None)      // VEX.LZ.F3.0F38 F5 /r
    case Pdep => Encoding(0xF5, PrefixF2, Map0F38, None)      // VEX.LZ.F2.0F38 F5 /r
    case Mulx => Encoding(0xF6, PrefixF2, Map0F38, None)      // VEX.LZ.F2.0F38 F6 /r
    case Bextr => Encoding(0xF7, PrefixNone, Map0F38, None)   // VEX.LZ.0F38 F7 /r
    case Shlx => Encoding(0xF7, Prefix66, Map0F38, None)      // VEX.LZ.66.0F38 F7 /r
    case Sarx => Encoding(0xF7, PrefixF3, Map0F38, None)      // VEX.LZ.F3.0F38 F7 /r
    case Shrx => Encoding(0xF7, PrefixF2, Map0F38, None)      // VEX.LZ.F2.0F38 F7 /r
  }

  predicate Matches(e: Encoding, opcode: byte, prefix: byte, opcodeMap: byte, modreg: nat)
  {
    e.opcode == opcode && e.prefix == prefix && e.opcodeMap == opcodeMap &&
    (e.digit.Some? ==> e.digit.value == modreg)
  }

  /**
    The switch of bmi_instruction: the operation chosen for an opcode byte,
    prefix class, opcode map and ModRM.reg, or None when no branch matches.
    It chooses an operation exactly when the key is that operation's row of
    the manual's opcode tables.
   */
  function Select(opcode: byte, prefix: byte, opcodeMap: byte, modreg: nat): (r: Option<Op>)
    ensures forall op :: r == Some(op) <==> Matches(EncodingOf(op), opcode, prefix, opcodeMap, modreg)
    ensures !KnownOpcode(opcode) ==> r == None
  {
    if opcode == 0xF0 then
      if prefix == PrefixF2 && opcodeMap == Map0F3A then Some(Rorx) else None
    else if opcode == 0xF2 then
      if prefix == PrefixNone && opcodeMap == Map0F38 then Some(Andn) else None
    else if opcode == 0xF3 then
      if prefix == PrefixNone && opcodeMap == Map0F38 then
        if modreg == 1 then Some(Blsr)
        else if modreg == 2 then Some(Blsmsk)
        else if modreg == 3 then Some(Blsi)
        else None
      else None
    else if opcode == 0xF5 then
      if opcodeMap != Map0F38 then None
      else if prefix == PrefixNone then Some(Bzhi)
      else if prefix == PrefixF3 then Some(Pext)
      else if prefix == PrefixF2 then Some(Pdep)
      else None
    else if opcode == 0xF6 then
      if prefix == PrefixF2 && opcodeMap == Map0F38 then Some(Mulx) else None
    else if opcode == 0xF7 then
      if opcodeMap != Map0F38 then None
      else if prefix == PrefixNone then Some(Bextr)
      else if prefix == Prefix66 then Some(Shlx)
      else if prefix == PrefixF3 then Some(Sarx)
      else if prefix == PrefixF2 then Some(Shrx)
      else None
    else
      None
  }

  /**
    The operand-encoding forms of the manual's instruction pages, which say
    where operand 1 (the destination) is encoded: ModRM.reg for RMI, RVM and
    RMV, VEX.vvvv for VM.
   */
  datatype Form = RMI | RVM | RMV | VM

  function FormOf(op: Op): Form
  {
    match op
    case Rorx => RMI
    case Andn | Pext | Pdep | Mulx => RVM
    case Blsr | Blsmsk | Blsi => VM
    case Bzhi | Bextr | Shlx | Sarx | Shrx => RMV
  }

  /**
    The registers the chosen operation is written to, in the order of the
    writes: operand 1 as the manual's operand encoding places it, and for
    MULX also operand 2, VEX.vvvv.
   */
  function Destinations(op: Op, numDst: nat, vexreg: nat): (r: seq<nat>)
    ensures |r| == if op == Mulx then 2 else 1
    ensures r[0] == if FormOf(op) == VM then vexreg else numDst
    ensures op == Mulx ==> r[1] == vexreg
  {
    match op
    case Blsr | Blsmsk | Blsi => [vexreg]
    case Mulx => [numDst, vexreg]
    case _ => [numDst]
  }

  // ---------------------------------------------------------------------
  // Operation semantics and operand width

  /** 64 bits in 64-bit mode with a 64-bit operand size, 32 bits otherwise. */
  function OperandWidth(mode64: bool, operandSize: byte): (w: nat)
    ensures w == 32 || w == 64
    ensures w == 64 <==> mode64 && operandSize == 64
  {
    if mode64 && operandSize == 64 then 64 else 32
  }

  /**
    The result(s) of an operation on the r/m operand `src`, the VEX.vvvv
    register `vsrc`, RDX/EDX and the imm8, each operand taken at the width;
    operand order as on each operation's page of the manual.
   */
  function Emulate(op: Op, src: Bits, vsrc: Bits, rdx: Bits, imm: byte): (r: seq<Bits>)
    requires |src| >= 16 && |vsrc| == |src| && |rdx| == |src|
    ensures |r| == if op == Mulx then 2 else 1
    ensures forall i :: 0 <= i < |r| ==> |r[i]| == |src|
  {
    match op
    case Rorx => [BitOps.Rorx(src, imm)]
    case Andn => [BitOps.Andn(vsrc, src)]
    case Blsr => [BitOps.Blsr(src)]
    case Blsmsk => [BitOps.Blsmsk(src)]
    case Blsi => [BitOps.Blsi(src)]
    case Bzhi => [BitOps.Bzhi(src, vsrc)]
    case Pext => [BitOps.Pext(vsrc, src)]
    case Pdep => [BitOps.Pdep(vsrc, src)]
    case Mulx => [MulxHigh(rdx, src), MulxLow(rdx, src)]
    case Bextr => [BitOps.Bextr(src, vsrc)]
    case Shlx => [BitOps.Shlx(src, vsrc)]
    case Sarx => [BitOps.Sarx(src, vsrc)]
    case Shrx => [BitOps.Shrx(src, vsrc)]
  }

  // ---------------------------------------------------------------------
  // Registers and writeback

  /** Width of a general-purpose register. */
  const WordSize: nat := 64

  /** Every register of a snapshot holds 64 bits. */
  predicate Words(regs: seq<Bits>)
  {
    forall i :: 0 <= i < |regs| ==> |regs[i]| == WordSize
  }

  /**
    A result of at most 64 bits as written to a 64-bit register: the bits
    above it cleared, so the register reads back the same value.
   */
  function ZeroExtend(r: Bits): (v: Bits)
    requires |r| <= WordSize
    ensures |v| == WordSize && v[..|r|] == r
    ensures forall i :: |r| <= i < WordSize ==> !v[i]
    ensures ToNat(v) == ToNat(r)
  {
    ToNatPadded(r, WordSize - |r|);
    assert (r + Zeros(WordSize - |r|))[..|r|] == r;
    r + Zeros(WordSize - |r|)
  }

  datatype Write = Write(reg: nat, value: Bits)

  /** Registers after a sequence of writes, applied in order. */
  function Apply(regs: seq<Bits>, ws: seq<Write>): (r: seq<Bits>)
    requires forall i :: 0 <= i < |ws| ==> ws[i].reg < |regs|
    ensures |r| == |regs|
    ensures forall k :: 0 <= k < |regs| && (forall i :: 0 <= i < |ws| ==> ws[i].reg != k) ==> r[k] == regs[k]
    ensures |ws| > 0 ==> r[ws[|ws| - 1].reg] == ws[|ws| - 1].value
    ensures |ws| == 2 && ws[0].reg != ws[1].reg ==> r[ws[0].reg] == ws[0].value
    decreases |ws|
  {
    if ws == [] then regs else Apply(regs[ws[0].reg := ws[0].value], ws[1..])
  }

  /**
    The result(s) an operation computes from the register snapshot `regs`,
    the 64-bit r/m operand `rm` and the imm8: every operand is read at the
    operand width, and every result is zero-extended to a register.
   */
  function Values(op: Op, regs: seq<Bits>, f: Fields, mode64: bool, imm: byte, rm: Bits): (vs: seq<Bits>)
    requires |regs| == RegisterCount && Words(regs) && f.vexreg < RegisterCount && |rm| == WordSize
    ensures |vs| == if op == Mulx then 2 else 1
    ensures Words(vs)
    ensures forall i, k :: 0 <= i < |vs| && OperandWidth(mode64, f.operandSize) <= k < WordSize ==> !vs[i][k]
  {
    var w := OperandWidth(mode64, f.operandSize);
    var results := Emulate(op, rm[..w], regs[f.vexreg][..w], regs[RDX][..w], imm);
    seq(|results|, i requires 0 <= i < |results| => ZeroExtend(results[i]))
  }

  /**
    The register writes bmi_instruction performs on the register snapshot
    `regs`, with `imm` the byte after the ModRM-consumed bytes and `rm` the
    r/m operand the operand fetch produced: each destination receives the
    matching value, in the order of Destinations.
   */
  function Plan(regs: seq<Bits>, f: Fields, mode64: bool, imm: byte, rm: Bits): (ws: seq<Write>)
    requires |regs| == RegisterCount && Words(regs) && f.vexreg < RegisterCount && |rm| == WordSize
    ensures !KnownOpcode(f.opcode) ==> ws == []
    ensures |ws| == match Select(f.opcode, f.simdPrefix, f.leadingOpcode, ModReg(f.modrm))
                    case None => 0
                    case Some(op) => if op == Mulx then 2 else 1
    ensures forall i :: 0 <= i < |ws| ==> ws[i].reg < RegisterCount && |ws[i].value| == WordSize
  {
    match Select(f.opcode, f.simdPrefix, f.leadingOpcode, ModReg(f.modrm))
    case None => []
    case Some(op) =>
      Writes(Destinations(op, DstIndex(f.modrm, f.highReg), f.vexreg), Values(op, regs, f, mode64, imm, rm))
  }

  lemma PlanSelected(regs: seq<Bits>, f: Fields, mode64: bool, imm: byte, rm: Bits, op: Op)
    requires |regs| == RegisterCount && Words(regs) && f.vexreg < RegisterCount && |rm| == WordSize
    requires Select(f.opcode, f.simdPrefix, f.leadingOpcode, ModReg(f.modrm)) == Some(op)
    ensures Plan(regs, f, mode64, imm, rm) ==
            Writes(Destinations(op, DstIndex(f.modrm, f.highReg), f.vexreg), Values(op, regs, f, mode64, imm, rm))
  {
  }

  /** Each destination paired with its value. */
  function Writes(dests: seq<nat>, values: seq<Bits>): (ws: seq<Write>)
    requires |dests| == |values|
    ensures |ws| == |dests|
    ensures forall i :: 0 <= i < |ws| ==> ws[i].reg == dests[i] && ws[i].value == values[i]
  {
    seq(|dests|, i requires 0 <= i < |dests| => Write(dests[i], values[i]))
  }

  /** One write, or two in order, applied to the registers. */
  lemma ApplyShort(regs: seq<Bits>, dests: seq<nat>, values: seq<Bits>)
    requires 1 <= |dests| <= 2 && |values| == |dests|
    requires forall i :: 0 <= i < |dests| ==> dests[i] < |regs|
    ensures |dests| == 1 ==> Apply(regs, Writes(dests, values)) == regs[dests[0] := values[0]]
    ensures |dests| == 2 ==> Apply(regs, Writes(dests, values)) == regs[dests[0] := values[0]][dests[1] := values[1]]
  {
    var ws := Writes(dests, values);
    var r1 := regs[ws[0].reg := ws[0].value];
    assert Apply(regs, ws) == Apply(r1, ws[1..]);
    if |ws| == 2 {
      assert Apply(r1, ws[1..]) == Apply(r1[ws[1].reg := ws[1].value], ws[2..]);
    }
  }

  /** Adding to a uint8_t length: the sum modulo 256. */
  function Advance(length: byte, n: nat): (r: byte)
    ensures length + n < 256 ==> r == length + n
    ensures (r - length - n) % 256 == 0
  {
    (length + n) % 256
  }

  /**
    The value bmi_instruction returns. The length is a uint8_t: it grows by
    the bytes consumed after the opcode and, for RORX, by one more for the
    imm8, each step wrapping modulo 256; an opcode byte without a case
    returns 0.
   */
  function Size(opcode: byte, prefix: byte, opcodeMap: byte, modreg: nat, insSize: byte, consumed: nat): (r: byte)
    ensures !KnownOpcode(opcode) ==> r == 0
    ensures KnownOpcode(opcode) && insSize + consumed < 255 ==>
              r == insSize + consumed + (if Select(opcode, prefix, opcodeMap, modreg) == Some(Rorx) then 1 else 0)
  {
    if !KnownOpcode(opcode) then 0
    else
      var afterModrm := Advance(insSize, consumed);
      if Select(opcode, prefix, opcodeMap, modreg) == Some(Rorx) then Advance(afterModrm, 1) else afterModrm
  }

  // ---------------------------------------------------------------------
  // Properties of the dispatch and writeback

  /**
    The registers after bmi_instruction, case by case: nothing changes when
    no branch matches; otherwise the result goes to ModRM.reg (VEX.vvvv for
    BLSR/BLSMSK/BLSI), and MULX writes its high half to ModRM.reg and then
    its low half to VEX.vvvv, so the low half stays when both name the same
    register. No other register changes.
   */
  lemma {:induction false} Effect(regs: seq<Bits>, f: Fields, mode64: bool, imm: byte, rm: Bits)
    requires |regs| == RegisterCount && Words(regs) && f.vexreg < RegisterCount && |rm| == WordSize
    ensures var after := Apply(regs, Plan(regs, f, mode64, imm, rm));
            var w := OperandWidth(mode64, f.operandSize);
            var dst := DstIndex(f.modrm, f.highReg);
            match Select(f.opcode, f.simdPrefix, f.leadingOpcode, ModReg(f.modrm))
            case None => after == regs
            case Some(op) =>
              var res := Emulate(op, rm[..w], regs[f.vexreg][..w], regs[RDX][..w], imm);
              if op == Mulx then
                after == regs[dst := ZeroExtend(MulxHigh(regs[RDX][..w], rm[..w]))]
                             [f.vexreg := ZeroExtend(MulxLow(regs[RDX][..w], rm[..w]))]
              else if op == Blsr || op == Blsmsk || op == Blsi then
                after == regs[f.vexreg := ZeroExtend(res[0])]
              else
                after == regs[dst := ZeroExtend(res[0])]
  {
    match Select(f.opcode, f.simdPrefix, f.leadingOpcode, ModReg(f.modrm)) {
      case None =>
      case Some(op) =>
        var dests := Destinations(op, DstIndex(f.modrm, f.highReg), f.vexreg);
        var values := Values(op, regs, f, mode64, imm, rm);
        PlanSelected(regs, f, mode64, imm, rm, op);
        ApplyShort(regs, dests, values);
    }
  }

  /**
    An opcode byte without a case returns 0 and writes nothing; a known
    opcode byte whose prefix, map or ModRM.reg matches no branch also writes
    nothing but still returns the grown length, which is not 0 unless the
    uint8_t wraps.
   */
  lemma NotHandled(regs: seq<Bits>, f: Fields, mode64: bool, imm: byte, rm: Bits, insSize: byte, consumed: nat)
    requires |regs| == RegisterCount && Words(regs) && f.vexreg < RegisterCount && |rm| == WordSize
    requires Select(f.opcode, f.simdPrefix, f.leadingOpcode, ModReg(f.modrm)) == None
    ensures Apply(regs, Plan(regs, f, mode64, imm, rm)) == regs
    ensures var size := Size(f.opcode, f.simdPrefix, f.leadingOpcode, ModReg(f.modrm), insSize, consumed);
            (!KnownOpcode(f.opcode) ==> size == 0) &&
            (KnownOpcode(f.opcode) && 0 < insSize + consumed < 256 ==> size == insSize + consumed && size != 0)
  {
    Effect(regs, f, mode64, imm, rm);
  }

  /**
    RORX: the r/m operand rotated right by the imm8 taken modulo the width
    goes to ModRM.reg, and the length grows by one byte more than for the
    other operations.
   */
  lemma RorxEffect(regs: seq<Bits>, f: Fields, mode64: bool, imm: byte, rm: Bits, insSize: byte, consumed: nat)
    requires |regs| == RegisterCount && Words(regs) && f.vexreg < RegisterCount && |rm| == WordSize
    requires Select(f.opcode, f.simdPrefix, f.leadingOpcode, ModReg(f.modrm)) == Some(Rorx)
    ensures f.simdPrefix == PrefixF2 && f.leadingOpcode == Map0F3A
    ensures var w := OperandWidth(mode64, f.operandSize);
            Apply(regs, Plan(regs, f, mode64, imm, rm)) ==
              regs[DstIndex(f.modrm, f.highReg) := ZeroExtend(RotateRight(rm[..w], imm % w))]
    ensures insSize + consumed + 1 < 256 ==>
              Size(f.opcode, f.simdPrefix, f.leadingOpcode, ModReg(f.modrm), insSize, consumed) == insSize + consumed + 1
  {
    assert Matches(EncodingOf(Rorx), f.opcode, f.simdPrefix, f.leadingOpcode, ModReg(f.modrm));
    Effect(regs, f, mode64, imm, rm);
  }

  /**
    MULX: the two registers it writes hold the high and low halves of
    RDX/EDX times the r/m operand at the operand width; when ModRM.reg and
    VEX.vvvv differ, together they hold the whole product.
   */
  lemma MulxEffect(regs: seq<Bits>, f: Fields, mode64: bool, imm: byte, rm: Bits)
    requires |regs| == RegisterCount && Words(regs) && f.vexreg < RegisterCount && |rm| == WordSize
    requires Select(f.opcode, f.simdPrefix, f.leadingOpcode, ModReg(f.modrm)) == Some(Mulx)
    ensures var after := Apply(regs, Plan(regs, f, mode64, imm, rm));
            var w := OperandWidth(mode64, f.operandSize);
            var dst := DstIndex(f.modrm, f.highReg);
            (dst != f.vexreg ==>
               ToNat(after[dst]) * Pow2(w) + ToNat(after[f.vexreg]) == ToNat(regs[RDX][..w]) * ToNat(rm[..w])) &&
            ToNat(after[f.vexreg]) == (ToNat(regs[RDX][..w]) * ToNat(rm[..w])) % Pow2(w) &&
            forall k :: 0 <= k < RegisterCount && k != dst && k != f.vexreg ==> after[k] == regs[k]
  {
    var w := OperandWidth(mode64, f.operandSize);
    MulxWrites(regs, f, mode64, imm, rm);
    MulxHalves(regs, DstIndex(f.modrm, f.highReg), f.vexreg, regs[RDX][..w], rm[..w]);
  }

  /** Writing MULX's halves to two registers, high first. */
  lemma MulxHalves(regs: seq<Bits>, dst: nat, vvvv: nat, a: Bits, b: Bits)
    requires dst < |regs| && vvvv < |regs| && |a| == |b| <= WordSize
    ensures var after := regs[dst := ZeroExtend(MulxHigh(a, b))][vvvv := ZeroExtend(MulxLow(a, b))];
            (dst != vvvv ==> ToNat(after[dst]) * Pow2(|a|) + ToNat(after[vvvv]) == ToNat(a) * ToNat(b)) &&
            ToNat(after[vvvv]) == (ToNat(a) * ToNat(b)) % Pow2(|a|) &&
            forall k :: 0 <= k < |regs| && k != dst && k != vvvv ==> after[k] == regs[k]
  {
    MulxProduct(a, b);
  }

  /** MULX's two writes, in order: the high half to ModRM.reg, then the low half to VEX.vvvv. */
  lemma MulxWrites(regs: seq<Bits>, f: Fields, mode64: bool, imm: byte, rm: Bits)
    requires |regs| == RegisterCount && Words(regs) && f.vexreg < RegisterCount && |rm| == WordSize
    requires Select(f.opcode, f.simdPrefix, f.leadingOpcode, ModReg(f.modrm)) == Some(Mulx)
    ensures var w := OperandWidth(mode64, f.operandSize);
            Apply(regs, Plan(regs, f, mode64, imm, rm)) ==
              regs[DstIndex(f.modrm, f.highReg) := ZeroExtend(MulxHigh(regs[RDX][..w], rm[..w]))]
                  [f.vexreg := ZeroExtend(MulxLow(regs[RDX][..w], rm[..w]))]
  {
    PlanSelected(regs, f, mode64, imm, rm, Mulx);
    ApplyShort(regs, Destinations(Mulx, DstIndex(f.modrm, f.highReg), f.vexreg), Values(Mulx, regs, f, mode64, imm, rm));
  }

  /**
    As written, when ModRM.reg and VEX.vvvv name the same register, the second
    store wins and that register ends with the LOW half of the product; the
    manual's MULX leaves the high half there.
   */
  lemma MulxSameRegisterKeepsLow(regs: seq<Bits>, f: Fields, mode64: bool, imm: byte, rm: Bits)
    requires |regs| == RegisterCount && Words(regs) && f.vexreg < RegisterCount && |rm| == WordSize
    requires Select(f.opcode, f.simdPrefix, f.leadingOpcode, ModReg(f.modrm)) == Some(Mulx)
    requires DstIndex(f.modrm, f.highReg) == f.vexreg
    ensures var w := OperandWidth(mode64, f.operandSize);
            var after := Apply(regs, Plan(regs, f, mode64, imm, rm));
            ToNat(after[f.vexreg]) == (ToNat(regs[RDX][..w]) * ToNat(rm[..w])) % Pow2(w)
  {
    MulxEffect(regs, f, mode64, imm, rm);
  }

  /**
    The stores the manual's MULX makes: the low half to VEX.vvvv first, then
    the high half to ModRM.reg, so that the high half is what stays when both
    name the same register.
   */
  function MulxStores(regs: seq<Bits>, dst: nat, vvvv: nat, a: Bits, b: Bits): (r: seq<Bits>)
    requires dst < |regs| && vvvv < |regs| && |a| == |b| <= WordSize
    ensures |r| == |regs|
    ensures ToNat(r[dst]) == (ToNat(a) * ToNat(b)) / Pow2(|a|)
    ensures dst != vvvv ==> ToNat(r[dst]) * Pow2(|a|) + ToNat(r[vvvv]) == ToNat(a) * ToNat(b)
    ensures forall k :: 0 <= k < |regs| && k != dst && k != vvvv ==> r[k] == regs[k]
  {
    MulxProduct(a, b);
    ToNatBound(MulxLow(a, b));
    DivModUnique(ToNat(a) * ToNat(b), Pow2(|a|), ToNat(MulxHigh(a, b)), ToNat(MulxLow(a, b)));
    regs[vvvv := ZeroExtend(MulxLow(a, b))][dst := ZeroExtend(MulxHigh(a, b))]
  }

  /** The stores as written and the manual's stores agree whenever the two destinations differ. */
  lemma MulxStoresAgree(regs: seq<Bits>, f: Fields, mode64: bool, imm: byte, rm: Bits)
    requires |regs| == RegisterCount && Words(regs) && f.vexreg < RegisterCount && |rm| == WordSize
    requires Select(f.opcode, f.simdPrefix, f.leadingOpcode, ModReg(f.modrm)) == Some(Mulx)
    requires DstIndex(f.modrm, f.highReg) != f.vexreg
    ensures var w := OperandWidth(mode64, f.operandSize);
            Apply(regs, Plan(regs, f, mode64, imm, rm)) ==
              MulxStores(regs, DstIndex(f.modrm, f.highReg), f.vexreg, regs[RDX][..w], rm[..w])
  {
    MulxWrites(regs, f, mode64, imm, rm);
  }

  /**
    The 64-bit and the 32-bit path share one table: whatever the mode, the
    same instruction writes the same registers in the same order. The two
    switches of bmi.c agree case by case, so one table serves both.
   */
  lemma SameTableBothModes(regs: seq<Bits>, f: Fields, imm: byte, rm: Bits)
    requires |regs| == RegisterCount && Words(regs) && f.vexreg < RegisterCount && |rm| == WordSize
    ensures var p64, p32 := Plan(regs, f, true, imm, rm), Plan(regs, f, false, imm, rm);
            |p64| == |p32| && forall i :: 0 <= i < |p64| ==> p64[i].reg == p32[i].reg
  {
    match Select(f.opcode, f.simdPrefix, f.leadingOpcode, ModReg(f.modrm)) {
      case None =>
      case Some(op) =>
        PlanSelected(regs, f, true, imm, rm, op);
        PlanSelected(regs, f, false, imm, rm, op);
    }
  }

  /** Outside 64-bit operand size every register written has its upper 32 bits clear. */
  lemma NarrowResultsZeroExtended(regs: seq<Bits>, f: Fields, mode64: bool, imm: byte, rm: Bits)
    requires |regs| == RegisterCount && Words(regs) && f.vexreg < RegisterCount && |rm| == WordSize
    requires !(mode64 && f.operandSize == 64)
    ensures var ws := Plan(regs, f, mode64, imm, rm);
            forall i, k :: 0 <= i < |ws| && 32 <= k < WordSize ==> !ws[i].value[k]
  {
    match Select(f.opcode, f.simdPrefix, f.leadingOpcode, ModReg(f.modrm)) {
      case None =>
      case Some(op) =>
        PlanSelected(regs, f, mode64, imm, rm, op);
    }
  }

  // ---------------------------------------------------------------------
  // The register snapshot

  /** The general-purpose registers of the faulting thread, by x86 register number. */
  class RegisterFile {
    var gpr: array<Bits>

    ghost predicate Valid()
      reads this, gpr
    {
      gpr.Length == RegisterCount && Words(gpr[..])
    }

    constructor (init: seq<Bits>)
      requires |init| == RegisterCount && Words(init)
      ensures Valid() && fresh(gpr) && gpr[..] == init
    {
      gpr := new Bits[RegisterCount](i requires 0 <= i < RegisterCount => init[i]);
    }

    /** _load_m64 / _load_m32: store a zero-extended result into one register. */
    method Load(index: nat, value: Bits)
      requires Valid() && index < RegisterCount && |value| == WordSize
      modifies gpr
      ensures Valid()
      ensures gpr[..] == old(gpr[..])[index := value]
    {
      gpr[index] := value;
    }

    /**
      The body of one case of the switch: compute the operation on the
      current registers and store each result in its destination, in order.
     */
    method Writeback(op: Op, f: Fields, mode64: bool, imm: byte, rm: Bits)
      requires Valid() && f.vexreg < RegisterCount && |rm| == WordSize
      modifies gpr
      ensures Valid()
      ensures gpr[..] == Apply(old(gpr[..]),
                Writes(Destinations(op, DstIndex(f.modrm, f.highReg), f.vexreg), Values(op, old(gpr[..]), f, mode64, imm, rm)))
    {
      var values := Values(op, gpr[..], f, mode64, imm, rm);
      var dests := Destinations(op, DstIndex(f.modrm, f.highReg), f.vexreg);
      ApplyShort(gpr[..], dests, values);
      Load(dests[0], values[0]);
      if op == Mulx {
        Load(dests[1], values[1]);
      }
    }

    /**
      bmi_instruction. `mode64` is the saved state's mode, `consumed` the
      count get_consumed returns for the ModRM byte, `bytes` the instruction
      bytes from ModRM on, and `rm` the 64-bit r/m operand the operand fetch
      read (from a register or from user memory).
     */
    method Execute(f: Fields, mode64: bool, bytes: seq<byte>, insSize: byte, consumed: nat, rm: Bits)
        returns (size: byte)
      requires Valid() && f.vexreg < RegisterCount && |rm| == WordSize
      requires consumed < |bytes|
      modifies gpr
      ensures Valid()
      ensures size == Size(f.opcode, f.simdPrefix, f.leadingOpcode, ModReg(f.modrm), insSize, consumed)
      ensures gpr[..] == Apply(old(gpr[..]), Plan(old(gpr[..]), f, mode64, bytes[consumed], rm))
    {
      var modreg := ModReg(f.modrm);
      var imm := bytes[consumed];
      var ins := Advance(insSize, consumed);
      if !KnownOpcode(f.opcode) {
        return 0;
      }
      var selected := Select(f.opcode, f.simdPrefix, f.leadingOpcode, modreg);
      if selected.Some? {
        var op := selected.value;
        if op == Rorx {
          ins := Advance(ins, 1);
        }
        PlanSelected(gpr[..], f, mode64, imm, rm, op);
        Writeback(op, f, mode64, imm, rm);
      }
      size := ins;
    }
  }
}
