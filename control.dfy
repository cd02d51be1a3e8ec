/**
 * The combinational helpers of the pipeline stages: PC selection and
 * prediction, control-signal generation, immediate extraction and the
 * choice of ALU operation. Each only writes results through out-pointers in
 * the simulator, so each is a function here.
 */
module Control {
  import opened Bits
  import opened Isa

  /** Control signals consumed by decode. */
  datatype DSigs = DSigs(src1Is31SP: bool, src2Sel: bool, src2Is31SP: bool)
  /** Control signals buffered for execute. */
  datatype XSigs = XSigs(valbSel: bool, setCC: bool)
  /** Control signals buffered for memory. */
  datatype MSigs = MSigs(dmemRead: bool, dmemWrite: bool)
  /** Control signals buffered for write-back. */
  datatype WSigs = WSigs(dst31IsSP: bool, dstSel: bool, wvalSel: bool, wEnable: bool)
  datatype CtlSigs = CtlSigs(d: DSigs, x: XSigs, m: MSigs, w: WSigs)

  /**
   * `select_PC`: a conditional branch resolved in the stage given as "X"
   * overrides everything (taken: the predicted PC; not taken: the
   * sequential successor); otherwise a return in the stage given as "D"
   * supplies its register operand; otherwise the prediction stands.
   */
  function SelectPC(predPC: u64, xOpcode: Opcode, xCondVal: bool, seqSucc: u64,
                    dOpcode: Opcode, valA: u64): (pc: u64)
    ensures xOpcode == BCond && xCondVal ==> pc == predPC
    ensures xOpcode == BCond && !xCondVal ==> pc == seqSucc
    ensures xOpcode != BCond && dOpcode == Ret ==> pc == valA
    ensures xOpcode != BCond && dOpcode != Ret ==> pc == predPC
    ensures pc == predPC || pc == seqSucc || pc == valA
  {
    if xOpcode == BCond then
      (if xCondVal then predPC else seqSucc)
    else if dOpcode != Ret then predPC
    else valA
  }

  /** The result pair of `predict_PC`. */
  datatype Prediction = Prediction(predictedPC: u64, seqSucc: u64)

  /**
   * `predict_PC`: branches (B, BL, B.cond) are predicted taken, to the PC
   * plus four times the sign-extended offset field (imm19 at bit 5 for
   * B.cond, imm26 at bit 0 for B and BL); everything else is predicted
   * sequential. The sequential successor is always PC + 4.
   */
  function PredictPC(currentPC: u64, insnbits: u32, op: Opcode): (r: Prediction)
    ensures r.seqSucc == Wrap64(currentPC + 4)
    ensures op == BCond ==> r.predictedPC == Wrap64(currentPC + GetBOffset(insnbits, 5, 19) * 4)
    ensures (op == B || op == Bl) ==> r.predictedPC == Wrap64(currentPC + GetBOffset(insnbits, 0, 26) * 4)
    ensures op != B && op != Bl && op != BCond ==> r.predictedPC == r.seqSucc
  {
    var pcInc := Wrap64(currentPC + 4);
    if op == B || op == Bl || op == BCond then
      if op == BCond then Prediction(Wrap64(currentPC + GetBOffset(insnbits, 5, 19) * 4), pcInc)
      else Prediction(Wrap64(currentPC + GetBOffset(insnbits, 0, 26) * 4), pcInc)
    else Prediction(pcInc, pcInc)
  }

  lemma Wrap64Mod4(x: int)
    ensures Wrap64(x) % 4 == x % 4
  {
    var q := x / TWO64;
    assert x == q * TWO64 + Wrap64(x);
    DivModUnique(Wrap64(x), 4, x / 4 - q * (TWO64 / 4), x % 4);
  }

  /** Predictions keep instruction alignment: a word-aligned PC yields word-aligned successors. */
  lemma PredictionAligned(currentPC: u64, insnbits: u32, op: Opcode)
    requires currentPC % 4 == 0
    ensures PredictPC(currentPC, insnbits, op).predictedPC % 4 == 0
    ensures PredictPC(currentPC, insnbits, op).seqSucc % 4 == 0
  {
    AlignedStep(currentPC, 1);
    if op == BCond {
      CondTargetAligned(currentPC, insnbits);
    } else if op == B || op == Bl {
      JumpTargetAligned(currentPC, insnbits);
    }
  }

  lemma CondTargetAligned(currentPC: u64, insnbits: u32)
    requires currentPC % 4 == 0
    ensures Wrap64(currentPC + GetBOffset(insnbits, 5, 19) * 4) % 4 == 0
  {
    AlignedStep(currentPC, GetBOffset(insnbits, 5, 19));
  }

  lemma JumpTargetAligned(currentPC: u64, insnbits: u32)
    requires currentPC % 4 == 0
    ensures Wrap64(currentPC + GetBOffset(insnbits, 0, 26) * 4) % 4 == 0
  {
    AlignedStep(currentPC, GetBOffset(insnbits, 0, 26));
  }

  /** Moving an aligned PC by a whole number of instructions keeps it aligned. */
  lemma AlignedStep(pc: u64, off: int)
    requires pc % 4 == 0
    ensures Wrap64(pc + off * 4) % 4 == 0
  {
    Wrap64Mod4(pc + off * 4);
    DivModUnique(pc + off * 4, 4, pc / 4 + off, 0);
  }



  /**
   * `valb_sel`, computed in the source by comparing enumeration values
   * (`op <= OP_ADD_RI`, `OP_LSL <= op <= OP_ASR`): the classes whose second
   * ALU operand is the immediate rather than a register.
   */
  function ValbSel(op: Opcode): (sel: bool)
    ensures sel <==> op in {Error, Ldurb, Ldur, Sturb, Stur, Movk, Movz, AddRI, Mvn, Lsl, Lsr, Ubfm, Asr}
  {
    op == Mvn || Ord(op) <= Ord(AddRI) || (Ord(op) >= Ord(Lsl) && Ord(op) <= Ord(Asr))
  }

  /** `generate_DXMW_control`: the control signals of an opcode class. */
  function GenerateControl(op: Opcode): (c: CtlSigs)
    ensures c.m.dmemRead <==> IsLoad(op)
    ensures c.m.dmemWrite <==> IsStore(op)
    ensures !(c.m.dmemRead && c.m.dmemWrite)
    ensures c.w.wvalSel <==> IsLoad(op)
    ensures c.w.dstSel <==> op == Bl
    ensures !c.w.dst31IsSP
    ensures c.x.setCC <==> op in {AddsRR, SubsRR, AndsRR}
    ensures c.w.wEnable <==>
              op in {Movz, Movk, AddRI, Ldur, Ldurb, Ubfm, Asr, AddsRR, SubsRR, Mvn, OrrRR, EorRR, AndsRR}
    ensures op in {Sturb, Stur, B, BCond, Bl, Ret, Nop, Hlt} ==> !c.w.wEnable
    ensures c.x.valbSel <==>
              op in {Error, Ldurb, Ldur, Sturb, Stur, Movk, Movz, AddRI, Mvn, Lsl, Lsr, Ubfm, Asr}
    ensures c.d.src1Is31SP <==> IsLoad(op) || IsStore(op)
    ensures c.d.src2Sel <==> IsStore(op)
    ensures !c.d.src2Is31SP
  {
    var opLoad := op == Ldur || op == Ldurb;
    var opStore := op == Sturb || op == Stur;
    var opMov := op == Movz || op == Movk;
    CtlSigs(
      DSigs(opStore || opLoad, opStore, false),
      XSigs(ValbSel(op), op == AddsRR || op == SubsRR || op == AndsRR),
      MSigs(opLoad, opStore),
      WSigs(false, op == Bl, opLoad,
            opMov || op == AddRI || opLoad || op == Ubfm || op == Asr || op == AddsRR ||
            op == SubsRR || op == Mvn || op == OrrRR || op == EorRR || op == AndsRR))
  }

  /**
   * `extract_immval`: the immediate field of the instruction's class, as
   * looked up in the opcode table from the instruction word itself. Shift
   * instructions take the 12 bits at bit 10, loads and stores the 9 bits at
   * bit 12 (zero-extended), moves the 16 bits at bit 5; any other class
   * leaves the previous immediate in place.
   */
  function ExtractImmval(insnbits: u32, imm: i64): (r: i64)
    ensures var op := ItableSpec(GetBF(insnbits, 21, 11));
            && (op in {Ubfm, Asr} ==> r == GetBF(insnbits, 10, 12) && 0 <= r < 4096)
            && (IsLoad(op) || IsStore(op) ==> r == GetBF(insnbits, 12, 9) && 0 <= r < 512)
            && (IsMov(op) ==> r == GetBF(insnbits, 5, 16) && 0 <= r < 65536)
            && (op !in {Ubfm, Asr, Ldur, Ldurb, Stur, Sturb, Movz, Movk} ==> r == imm)
  {
    var op := ItableSpec(GetBF(insnbits, 21, 11));
    assert Pow2(12) == 4096 && Pow2(9) == 512 && Pow2(16) == 65536 by {
      Pow2Add(8, 4); Pow2Add(8, 1); Pow2Add(8, 8);
      assert Pow2(8) == 256 by { Pow2Add(4, 4); }
    }
    if op == Ubfm || op == Asr then GetBF(insnbits, 10, 12)
    else if op == Stur || op == Sturb || op == Ldurb || op == Ldur then GetBF(insnbits, 12, 9)
    else if op == Movz || op == Movk then GetBF(insnbits, 5, 16)
    else imm
  }

  /** `decide_alu_op`: the ALU operation of an opcode class. */
  function DecideAluOp(op: Opcode): (a: AluOp)
    ensures IsLoad(op) || IsStore(op) || op == AddRI || op == AddsRR ==> a == PlusOp
    ensures IsMov(op) <==> a == MovOp
    ensures op == SubsRR <==> a == MinusOp
    ensures op == Mvn <==> a == NegOp
    ensures op == EorRR <==> a == EorOp
    ensures op == OrrRR <==> a == OrOp
    ensures op == AndsRR <==> a == AndOp
    ensures op == Lsr <==> a == LsrOp
    ensures op == Asr <==> a == AsrOp
    ensures a != LslOp && a != PassBOp
    ensures a == PassAOp <==>
              op in {Error, Lsl, Ubfm, B, BCond, Bl, Ret, Nop, Hlt}
  {
    if op == Ldurb || op == Ldur then PlusOp
    else if op == Sturb || op == Stur then PlusOp
    else if op == Movk || op == Movz then MovOp
    else if op == AddsRR || op == AddRI then PlusOp
    else if op == SubsRR then MinusOp
    else if op == Mvn then NegOp
    else if op == EorRR then EorOp
    else if op == OrrRR then OrOp
    else if op == AndsRR then AndOp
    else if op == Lsr then LsrOp
    else if op == Asr then AsrOp
    else PassAOp
  }

  /**
   * Consequence of the opcode table: no fetched instruction selects a shift
   * by `LSR_OP`; `LSL`/`LSR` instructions decode as `Ubfm` and reach the ALU
   * with `PASS_A_OP`.
   */
  lemma FetchedNeverShifts(key: nat)
    ensures DecideAluOp(ItableSpec(key)) != LsrOp
    ensures ItableSpec(key) == Ubfm ==> DecideAluOp(ItableSpec(key)) == PassAOp
  {
    NoShiftKeys(key);
  }
}
