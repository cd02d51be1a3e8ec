/**
 * The pipeline registers. Each of the five stage boundaries (fetch, decode,
 * execute, memory, write-back) holds an input snapshot, which the stage
 * reads, and an output snapshot, which the stage writes. A snapshot is a
 * plain record: the driver moves it between registers by copying it whole.
 */
module Pipe {
  import opened Bits
  import opened Isa
  import opened Control

  /** One in-flight instruction's decoded state, as stored in a snapshot. */
  datatype Insn = Insn(
    op: Opcode,
    insnbits: u32,
    seqSuccPC: u64,
    predPC: u64,
    stall: bool,
    bubble: bool,
    xSigs: XSigs,
    mSigs: MSigs,
    wSigs: WSigs,
    aluOp: AluOp,
    dst: Byte,
    valA: u64,
    valB: u64,
    valImm: i64,
    valHw: Byte,
    valEx: u64,
    valMem: u64,
    cond: nat,
    condHolds: bool)

  /** The encoding of the A64 `NOP` instruction. */
  const NOP_INSNBITS: u32 := 0xd503201f

  /**
   * The bubble record: every field zero (it is allocated zero-filled)
   * except the opcode class, `OP_NOP`, and the instruction word of `NOP`.
   */
  const Bubble: Insn := Insn(
    Nop, NOP_INSNBITS, 0, 0, false, false,
    XSigs(false, false), MSigs(false, false), WSigs(false, false, false, false),
    PlusOp, 0, 0, 0, 0, 0, 0, 0, 0, false)

  /** A pipeline register: the input and the output snapshot of one stage. */
  datatype PipeReg = PipeReg(inp: Insn, out: Insn)

  /** Positions of the five registers in the driver's register table. */
  const FETCH: nat := 0
  const DECODE: nat := 1
  const EXECUTE: nat := 2
  const MEMORY: nat := 3
  const WBACK: nat := 4
  const STAGES: nat := 5

  /** The driver's register table, in pipeline order. */
  type Table = r: seq<PipeReg> | |r| == STAGES
    witness [PipeReg(Bubble, Bubble), PipeReg(Bubble, Bubble), PipeReg(Bubble, Bubble),
             PipeReg(Bubble, Bubble), PipeReg(Bubble, Bubble)]

  /** A snapshot with its stall and bubble flags cleared. */
  function Unflagged(i: Insn): (r: Insn)
    ensures !r.stall && !r.bubble
  {
    i.(stall := false, bubble := false)
  }

  /** Both snapshots of a register with their flags cleared. */
  function UnflaggedReg(p: PipeReg): PipeReg
  {
    PipeReg(Unflagged(p.inp), Unflagged(p.out))
  }

  /** No output snapshot carries a stall or bubble flag. */
  predicate Quiet(regs: seq<PipeReg>)
  {
    forall i :: 0 <= i < |regs| ==> !regs[i].out.stall && !regs[i].out.bubble
  }
}
