/**
 * The five stage functions of `instr.c`. Each reads the input snapshot of
 * its own pipeline register (and, where the simulator does, the input
 * snapshot of another register and the global signals) and writes some of
 * the fields of its output snapshot; the fields it does not write keep
 * their previous values. Each is a function from the register and the
 * signals it reads to the new output snapshot and the signals it writes.
 *
 * The instruction memory, the register file, the ALU and the data memory
 * are outside this model: they are the arbitrary functions of `Units`,
 * each receiving its arguments, the previous contents of the places it
 * writes, and the architectural state, and returning its results and the
 * new architectural state.
 */
module Stages {
  import opened Bits
  import opened Isa
  import opened Control
  import opened Pipe
  import Memory

  /** The condition flags of the processor status register. */
  datatype Nzcv = Nzcv(n: bool, z: bool, c: bool, v: bool)

  /**
   * Architectural state reached only through the external units: the
   * general-purpose registers, the stack pointer, the condition flags and
   * the byte store.
   */
  datatype Arch = Arch(gpr: map<nat, u64>, sp: u64, nzcv: Nzcv, mem: Memory.Store)

  datatype ImemReply = ImemReply(insnbits: u32, arch: Arch)

  datatype RegfileRequest = RegfileRequest(
    src1: Byte, src2: Byte, dst: Byte, wval: u64,
    src1Is31SP: bool, src2Is31SP: bool, dst31IsSP: bool, wEnable: bool,
    priorValA: u64, priorValB: u64)
  datatype RegfileReply = RegfileReply(valA: u64, valB: u64, arch: Arch)

  datatype AluRequest = AluRequest(
    valA: u64, valB: u64, valHw: Byte, aluOp: AluOp, setCC: bool, cond: nat,
    priorValEx: u64, priorCondval: bool)
  datatype AluReply = AluReply(valEx: u64, condval: bool, arch: Arch)

  datatype DmemRequest = DmemRequest(addr: u64, wval: u64, read: bool, write: bool, priorValMem: u64)
  datatype DmemReply = DmemReply(valMem: u64, arch: Arch)

  /** The external units `imem`, `regfile`, `alu` and `dmem`. */
  datatype Units = Units(
    imem: (u64, u32, Arch) -> ImemReply,
    regfile: (RegfileRequest, Arch) -> RegfileReply,
    alu: (AluRequest, Arch) -> AluReply,
    dmem: (DmemRequest, Arch) -> DmemReply)

  datatype FetchResult = FetchResult(out: Insn, currentPC: u64, predPC: u64, arch: Arch)

  /**
   * `fetch_instr`. The PC is chosen by `select_PC`, which is handed the
   * opcode, condition outcome and sequential successor of the instruction
   * entering memory in the places meant for the instruction in execute,
   * and the opcode and first operand of the instruction entering execute in
   * the places meant for decode. The fetched word's opcode comes from the
   * opcode table and its successor and prediction from `predict_PC`.
   */
  function FetchStage(f: PipeReg, mIn: Insn, xIn: Insn, arch: Arch, u: Units): FetchResult
  {
    var pc := SelectPC(f.inp.predPC, mIn.op, mIn.condHolds, mIn.seqSuccPC, xIn.op, xIn.valA);
    var fetched := u.imem(pc, f.out.insnbits, arch);
    var op := ItableSpec(GetBF(fetched.insnbits, 21, 11));
    var p := PredictPC(pc, fetched.insnbits, op);
    FetchResult(f.out.(insnbits := fetched.insnbits, seqSuccPC := p.seqSucc, op := op),
                pc, p.predictedPC, fetched.arch)
  }

  /**
   * The address fetch reads: the fall-through of a conditional branch in
   * memory that failed, else the target of a return entering execute, else
   * the predicted PC latched into fetch.
   */
  lemma FetchAddressSpec(f: PipeReg, mIn: Insn, xIn: Insn, arch: Arch, u: Units)
    ensures var r := FetchStage(f, mIn, xIn, arch, u);
            && (mIn.op == BCond && mIn.condHolds ==> r.currentPC == f.inp.predPC)
            && (mIn.op == BCond && !mIn.condHolds ==> r.currentPC == mIn.seqSuccPC)
            && (mIn.op != BCond && xIn.op == Ret ==> r.currentPC == xIn.valA)
            && (mIn.op != BCond && xIn.op != Ret ==> r.currentPC == f.inp.predPC)
  {
  }

  /**
   * What fetch writes: the word the instruction memory returns for the
   * fetch address, its opcode from the opcode table, the sequential
   * successor, and the next prediction; nothing else in its output changes.
   */
  lemma FetchStageSpec(f: PipeReg, mIn: Insn, xIn: Insn, arch: Arch, u: Units)
    ensures var r := FetchStage(f, mIn, xIn, arch, u);
            && (r.out.insnbits == u.imem(r.currentPC, f.out.insnbits, arch).insnbits)
            && (r.out.op == ItableSpec(GetBF(r.out.insnbits, 21, 11)))
            && (r.out.seqSuccPC == Wrap64(r.currentPC + 4))
            && (r.predPC == PredictPC(r.currentPC, r.out.insnbits, r.out.op).predictedPC)
            && (r.out == f.out.(insnbits := r.out.insnbits, op := r.out.op, seqSuccPC := r.out.seqSuccPC))
  {
  }

  /** The register read by decode as its first source: 31 for `MOVZ`, else bits [5, 10). */
  function DecodeSrc1(inp: Insn): (src: Byte)
    ensures src < 32
    ensures inp.op == Movz ==> src == 31
    ensures inp.op != Movz ==> src == GetBF(inp.insnbits, 5, 5)
  {
    if inp.op != Movz then GetBF(inp.insnbits, 5, 5) else 31
  }

  /** The register read by decode as its second source: bits [0, 5) for stores, else bits [16, 21). */
  function DecodeSrc2(inp: Insn): (src: Byte)
    ensures src < 32
    ensures IsStore(inp.op) ==> src == GetBF(inp.insnbits, 0, 5)
    ensures !IsStore(inp.op) ==> src == GetBF(inp.insnbits, 16, 5)
  {
    if !GenerateControl(inp.op).d.src2Sel then GetBF(inp.insnbits, 16, 5)
    else GetBF(inp.insnbits, 0, 5)
  }

  /**
   * The register-file access of decode: it reads the two sources and,
   * with the write-back value of this cycle and the write enable of the
   * register entering write-back, names as destination X30 for `BL` and
   * otherwise the destination of the register entering write-back.
   */
  function DecodeRequest(d: PipeReg, wIn: Insn, wWval: u64): (q: RegfileRequest)
    ensures q.src1 == DecodeSrc1(d.inp) && q.src2 == DecodeSrc2(d.inp)
    ensures q.dst == (if d.inp.op == Bl then 30 else wIn.dst)
    ensures q.wval == wWval && q.wEnable == wIn.wSigs.wEnable && q.dst31IsSP == wIn.wSigs.dst31IsSP
    ensures q.src1Is31SP == (IsLoad(d.inp.op) || IsStore(d.inp.op)) && !q.src2Is31SP
  {
    var c := GenerateControl(d.inp.op);
    RegfileRequest(DecodeSrc1(d.inp), DecodeSrc2(d.inp), if c.w.dstSel then 30 else wIn.dst,
                   wWval, c.d.src1Is31SP, c.d.src2Is31SP, wIn.wSigs.dst31IsSP, wIn.wSigs.wEnable,
                   d.out.valA, d.out.valB)
  }

  datatype DecodeResult = DecodeResult(out: Insn, arch: Arch)

  /**
   * `decode_instr`. Besides the control signals, ALU operation, operands
   * and immediate, two assignments of the simulator shape the result: the
   * destination finally written is bits [0, 5) of the word, replacing the
   * one computed for the register-file access, and a `MOVZ` leaves decode
   * with opcode value 0, which is `OP_ERROR`. The condition field is written
   * only for `B.cond`.
   */
  function DecodeStage(d: PipeReg, wIn: Insn, wWval: u64, arch: Arch, u: Units): DecodeResult
  {
    var c := GenerateControl(d.inp.op);
    var reply := u.regfile(DecodeRequest(d, wIn, wWval), arch);
    var hw: Byte := if d.inp.op == Movz || d.inp.op == Movk then GetBF(d.inp.insnbits, 21, 2) * 16 else 0;
    var out := d.out.(
      seqSuccPC := d.inp.seqSuccPC,
      xSigs := c.x, mSigs := c.m, wSigs := c.w,
      aluOp := DecideAluOp(d.inp.op),
      valA := reply.valA, valB := reply.valB,
      cond := if d.inp.op == BCond then GetBF(d.inp.insnbits, 0, 4) else d.out.cond,
      valImm := ExtractImmval(d.inp.insnbits, d.out.valImm),
      dst := GetBF(d.inp.insnbits, 0, 5),
      valHw := hw,
      op := if d.inp.op == Movz then Error else d.inp.op);
    DecodeResult(out, reply.arch)
  }

  /** The fields `DecodeStage` writes, and what it writes into them. */
  lemma DecodeStageSpec(d: PipeReg, wIn: Insn, wWval: u64, arch: Arch, u: Units)
    ensures var r := DecodeStage(d, wIn, wWval, arch, u);
            && (r.out.op == (if d.inp.op == Movz then Error else d.inp.op))
            && (r.out.dst == GetBF(d.inp.insnbits, 0, 5))
            && (r.out.seqSuccPC == d.inp.seqSuccPC)
            && (var c := GenerateControl(d.inp.op);
                 r.out.xSigs == c.x && r.out.mSigs == c.m && r.out.wSigs == c.w)
            && (r.out.aluOp == DecideAluOp(d.inp.op))
            && (var reply := u.regfile(DecodeRequest(d, wIn, wWval), arch);
                 r.out.valA == reply.valA && r.out.valB == reply.valB && r.arch == reply.arch)
            && (r.out.cond == (if d.inp.op == BCond then GetBF(d.inp.insnbits, 0, 4) else d.out.cond))
            && (r.out.valImm == ExtractImmval(d.inp.insnbits, d.out.valImm))
            && (IsMov(d.inp.op) ==> r.out.valHw == 16 * GetBF(d.inp.insnbits, 21, 2) <= 48)
            && (!IsMov(d.inp.op) ==> r.out.valHw == 0)
            && (r.out.insnbits == d.out.insnbits && r.out.predPC == d.out.predPC)
            && (r.out.stall == d.out.stall && r.out.bubble == d.out.bubble)
            && (r.out.valEx == d.out.valEx && r.out.valMem == d.out.valMem)
            && (r.out.condHolds == d.out.condHolds)
  {
  }

  /** The second ALU operand: the immediate, converted to 64 unsigned bits, when `valb_sel` says so. */
  function AluB(inp: Insn): (b: u64)
    ensures inp.xSigs.valbSel ==> b == Wrap64(inp.valImm) && (inp.valImm >= 0 ==> b == inp.valImm)
    ensures !inp.xSigs.valbSel ==> b == inp.valB
  {
    if inp.xSigs.valbSel then Wrap64(inp.valImm) else inp.valB
  }

  function ExecuteRequest(x: PipeReg, xCondval: bool): AluRequest
  {
    AluRequest(x.inp.valA, AluB(x.inp), x.inp.valHw, x.inp.aluOp, x.inp.xSigs.setCC, x.inp.cond,
               x.out.valEx, xCondval)
  }

  datatype ExecuteResult = ExecuteResult(out: Insn, condval: bool, arch: Arch)

  /**
   * `execute_instr`: the ALU result and condition outcome, which is also
   * the global `X_condval`, together with the destination, second operand,
   * opcode and the memory and write-back control signals of the input.
   */
  function ExecuteStage(x: PipeReg, xCondval: bool, arch: Arch, u: Units): ExecuteResult
  {
    var reply := u.alu(ExecuteRequest(x, xCondval), arch);
    var out := x.out.(mSigs := x.inp.mSigs, wSigs := x.inp.wSigs);
    var out := out.(valEx := reply.valEx, condHolds := reply.condval, dst := x.inp.dst,
                    valB := x.inp.valB, op := x.inp.op);
    ExecuteResult(out, reply.condval, reply.arch)
  }

  /** The fields `ExecuteStage` writes, and what it writes into them. */
  lemma ExecuteStageSpec(x: PipeReg, xCondval: bool, arch: Arch, u: Units)
    ensures var r := ExecuteStage(x, xCondval, arch, u);
            && (var reply := u.alu(ExecuteRequest(x, xCondval), arch);
                 r.out.valEx == reply.valEx && r.condval == reply.condval && r.arch == reply.arch)
            && (r.out.condHolds == r.condval)
            && (r.out == x.out.(valEx := r.out.valEx, condHolds := r.condval, dst := x.inp.dst,
                                 valB := x.inp.valB, op := x.inp.op, mSigs := x.inp.mSigs,
                                 wSigs := x.inp.wSigs))
  {
  }

  datatype MemoryResult = MemoryResult(out: Insn, arch: Arch)

  /**
   * `memory_instr`: the data memory is accessed at the ALU result, storing
   * the second operand, as the input's memory signals say.
   */
  function MemoryStage(m: PipeReg, arch: Arch, u: Units): MemoryResult
  {
    var reply := u.dmem(DmemRequest(m.inp.valEx, m.inp.valB, m.inp.mSigs.dmemRead,
                                    m.inp.mSigs.dmemWrite, m.out.valMem), arch);
    var out := m.out.(valEx := m.inp.valEx, mSigs := m.inp.mSigs, wSigs := m.inp.wSigs);
    MemoryResult(out.(valMem := reply.valMem, dst := m.inp.dst, op := m.inp.op), reply.arch)
  }

  /** The fields `MemoryStage` writes, and what it writes into them. */
  lemma MemoryStageSpec(m: PipeReg, arch: Arch, u: Units)
    ensures var r := MemoryStage(m, arch, u);
            && (var reply := u.dmem(DmemRequest(m.inp.valEx, m.inp.valB, m.inp.mSigs.dmemRead,
                                                 m.inp.mSigs.dmemWrite, m.out.valMem), arch);
                 r.out.valMem == reply.valMem && r.arch == reply.arch)
            && (r.out == m.out.(valEx := m.inp.valEx, mSigs := m.inp.mSigs, wSigs := m.inp.wSigs,
                                 valMem := r.out.valMem, dst := m.inp.dst, op := m.inp.op))
  {
  }

  datatype WbackResult = WbackResult(out: Insn, wval: u64)

  /**
   * `wback_instr`: the write-back value `W_wval`, taken from memory for
   * loads and from the ALU otherwise. The register file is written later,
   * by the register-file access of decode.
   */
  function WbackStage(w: PipeReg): WbackResult
  {
    var out := w.out.(wSigs := w.inp.wSigs);
    WbackResult(out.(valEx := w.inp.valEx, op := w.inp.op),
                if w.inp.wSigs.wvalSel then w.inp.valMem else w.inp.valEx)
  }

  /** The fields `WbackStage` writes, and what it writes into them. */
  lemma WbackStageSpec(w: PipeReg)
    ensures var r := WbackStage(w);
            && (w.inp.wSigs.wvalSel ==> r.wval == w.inp.valMem)
            && (!w.inp.wSigs.wvalSel ==> r.wval == w.inp.valEx)
            && (r.out == w.out.(wSigs := w.inp.wSigs, valEx := w.inp.valEx, op := w.inp.op))
  {
  }

  /**
   * The five stage functions as values: the driver calls them and needs
   * nothing of them but their types. `Logic` gives the simulator's own.
   */
  datatype StageLogic = StageLogic(
    wback: PipeReg -> WbackResult,
    memory: (PipeReg, Arch) -> MemoryResult,
    execute: (PipeReg, bool, Arch) -> ExecuteResult,
    decode: (PipeReg, Insn, u64, Arch) -> DecodeResult,
    fetch: (PipeReg, Insn, Insn, Arch) -> FetchResult)

  /** The stage logic of the simulator, over the external units `u`. */
  function Logic(u: Units): StageLogic
  {
    StageLogic(
      (w: PipeReg) => WbackStage(w),
      (m: PipeReg, arch: Arch) => MemoryStage(m, arch, u),
      (x: PipeReg, xCondval: bool, arch: Arch) => ExecuteStage(x, xCondval, arch, u),
      (d: PipeReg, wIn: Insn, wWval: u64, arch: Arch) => DecodeStage(d, wIn, wWval, arch, u),
      (f: PipeReg, mIn: Insn, xIn: Insn, arch: Arch) => FetchStage(f, mIn, xIn, arch, u))
  }

  /**
   * An instruction's passage from decode to write-back, through the stage
   * logic of the simulator: the opcode and destination decode writes reach
   * memory and write-back unchanged, and so do the memory and write-back
   * signals of its opcode; the data memory is read exactly for a load and
   * written exactly for a store, at the ALU result and with the second
   * register operand; and the write-back value is the data memory's reply
   * exactly for a load, the ALU result otherwise.
   */
  lemma InstructionFlow(u: Units, d: PipeReg, wIn: Insn, wWval: u64, xOut: Insn, mOut: Insn, wOut: Insn,
                        xCondval: bool, a0: Arch, a1: Arch, a2: Arch)
    ensures
      var dr := Logic(u).decode(d, wIn, wWval, a0);
      var xr := Logic(u).execute(PipeReg(dr.out, xOut), xCondval, a1);
      var mr := Logic(u).memory(PipeReg(xr.out, mOut), a2);
      var wr := Logic(u).wback(PipeReg(mr.out, wOut));
      var op := if d.inp.op == Movz then Error else d.inp.op;
      && xr.out.op == op && mr.out.op == op && wr.out.op == op
      && xr.out.dst == GetBF(d.inp.insnbits, 0, 5) && mr.out.dst == GetBF(d.inp.insnbits, 0, 5)
      && mr.out.mSigs == GenerateControl(d.inp.op).m
      && mr.out.wSigs == GenerateControl(d.inp.op).w && wr.out.wSigs == GenerateControl(d.inp.op).w
      && xr.out.valEx == u.alu(ExecuteRequest(PipeReg(dr.out, xOut), xCondval), a1).valEx
      && dr.out.valB == u.regfile(DecodeRequest(d, wIn, wWval), a0).valB
      && (var q := DmemRequest(xr.out.valEx, dr.out.valB, IsLoad(d.inp.op), IsStore(d.inp.op), mOut.valMem);
          mr.out.valMem == u.dmem(q, a2).valMem && mr.arch == u.dmem(q, a2).arch)
      && wr.wval == (if IsLoad(d.inp.op) then mr.out.valMem else xr.out.valEx)
      && wr.out.valEx == xr.out.valEx
  {
    var dr := DecodeStage(d, wIn, wWval, a0, u);
    DecodeStageSpec(d, wIn, wWval, a0, u);
    var xr := ExecuteStage(PipeReg(dr.out, xOut), xCondval, a1, u);
    ExecuteStageSpec(PipeReg(dr.out, xOut), xCondval, a1, u);
    var mr := MemoryStage(PipeReg(xr.out, mOut), a2, u);
    MemoryStageSpec(PipeReg(xr.out, mOut), a2, u);
    WbackStageSpec(PipeReg(mr.out, wOut));
  }

  /**
   * Fetch keeps PCs word-aligned: when the three addresses `select_PC`
   * chooses from are multiples of four, so are the fetch address, the
   * sequential successor and the next prediction.
   */
  lemma FetchKeepsAlignment(u: Units, f: PipeReg, mIn: Insn, xIn: Insn, arch: Arch)
    requires f.inp.predPC % 4 == 0 && mIn.seqSuccPC % 4 == 0 && xIn.valA % 4 == 0
    ensures var r := Logic(u).fetch(f, mIn, xIn, arch);
            r.currentPC % 4 == 0 && r.predPC % 4 == 0 && r.out.seqSuccPC % 4 == 0
  {
    var r := FetchStage(f, mIn, xIn, arch, u);
    FetchStageSpec(f, mIn, xIn, arch, u);
    PredictionAligned(r.currentPC, r.out.insnbits, r.out.op);
  }
}
