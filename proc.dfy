/**
 * The processor driver of `proc.c`: the reset of the pipeline registers
 * and of the architectural registers at the start of a run, and the cycle
 * loop. A cycle latches the predicted PC into fetch, runs the five stages
 * from write-back back to fetch, lets the hazard unit flag the registers,
 * updates the PC, and then moves each stage's output into the next stage's
 * input, substituting the bubble record for a bubbled output and holding a
 * stalled one back.
 *
 * The hazard unit raises its flags on input snapshots while the driver
 * looks only at output snapshots, whose flags the unit has just cleared;
 * `HazardsInert` states the consequence: no hazard ever stalls or bubbles
 * anything.
 */
module Proc {
  import opened Bits
  import opened Isa
  import opened Pipe
  import opened Hazard
  import opened Stages
  import Memory

  /** The processor state one cycle reads and writes. */
  datatype State = State(
    regs: Table,
    pc: u64,
    arch: Arch,
    predPC: u64,
    currentPC: u64,
    xCondval: bool,
    wWval: u64)

  /** Fetch's input receives the predicted PC unless fetch's output is stalled. */
  function Latch(s: State): (t: State)
    ensures Quiet(s.regs) ==> t == s.(regs := s.regs[FETCH := s.regs[FETCH].(inp := t.regs[FETCH].inp)])
    ensures Quiet(s.regs) ==> t.regs[FETCH].inp == s.regs[FETCH].inp.(predPC := s.predPC)
  {
    if !s.regs[FETCH].out.stall then
      s.(regs := s.regs[FETCH := s.regs[FETCH].(inp := s.regs[FETCH].inp.(predPC := s.predPC))])
    else s
  }

  /**
   * The five stages, in the order write-back, memory, execute, decode,
   * fetch. Each stage writes only its own output snapshot, so every stage
   * sees the input snapshots as they were at the start of the cycle; the
   * globals are passed on in stage order, so decode uses the write-back
   * value computed in this very cycle and the units see the architectural
   * state the previous unit left.
   */
  function RunStages(s: State, g: StageLogic): State
  {
    var w := g.wback(s.regs[WBACK]);
    var m := g.memory(s.regs[MEMORY], s.arch);
    var x := g.execute(s.regs[EXECUTE], s.xCondval, m.arch);
    var d := g.decode(s.regs[DECODE], s.regs[WBACK].inp, w.wval, x.arch);
    var f := g.fetch(s.regs[FETCH], s.regs[MEMORY].inp, s.regs[EXECUTE].inp, d.arch);
    State([s.regs[FETCH].(out := f.out), s.regs[DECODE].(out := d.out),
           s.regs[EXECUTE].(out := x.out), s.regs[MEMORY].(out := m.out),
           s.regs[WBACK].(out := w.out)],
          s.pc, f.arch, f.predPC, f.currentPC, x.condval, w.wval)
  }

  /**
   * The stages write output snapshots only: every input snapshot, and the
   * PC, are as the cycle found them.
   */
  lemma RunStagesKeepsInputs(s: State, g: StageLogic)
    ensures forall k :: 0 <= k < STAGES ==> RunStages(s, g).regs[k].inp == s.regs[k].inp
    ensures RunStages(s, g).pc == s.pc
  {
  }

  /** `D_src1` as the driver computes it: 31 for `MOVZ`, else bits [5, 10). */
  function HazardSrc1(dIn: Insn): (src: Byte)
    ensures src == DecodeSrc1(dIn)
  {
    if dIn.op == Movz then 31 else GetBF(dIn.insnbits, 5, 5)
  }

  /** `D_src2` as the driver computes it: bits [0, 5) for `STUR` only, else bits [16, 21). */
  function HazardSrc2(dIn: Insn): (src: Byte)
    ensures src < 32
  {
    if dIn.op != Stur then GetBF(dIn.insnbits, 16, 5) else GetBF(dIn.insnbits, 0, 5)
  }

  /** `X_dst` as the driver computes it: X30 for `BL`, else the destination field. */
  function HazardDst(xIn: Insn): (dst: Byte)
    ensures xIn.wSigs.dstSel ==> dst == 30
    ensures !xIn.wSigs.dstSel ==> dst == xIn.dst
  {
    if xIn.wSigs.dstSel then 30 else xIn.dst
  }

  /**
   * The second source the hazard unit is told about differs from the one
   * decode reads exactly for a byte store whose two register fields differ:
   * the driver singles out `STUR`, decode selects by "is a store".
   */
  lemma HazardSourceMismatch(dIn: Insn)
    ensures HazardSrc2(dIn) != DecodeSrc2(dIn) <==>
              dIn.op == Sturb && GetBF(dIn.insnbits, 16, 5) != GetBF(dIn.insnbits, 0, 5)
  {
  }

  /**
   * The hazard unit's call: the opcode decode has just produced, the
   * sources of the instruction entering decode, and the opcode, destination
   * and condition outcome of the instruction entering execute.
   */
  function HazardDirective(s: State): Directive
  {
    Decide(s.regs[DECODE].out.op, HazardSrc1(s.regs[DECODE].inp), HazardSrc2(s.regs[DECODE].inp),
           s.regs[EXECUTE].inp.op, HazardDst(s.regs[EXECUTE].inp), s.xCondval)
  }

  /** The registers after `handle_hazards`. */
  function StampRegs(regs: seq<PipeReg>, dir: Directive): (r: seq<PipeReg>)
    requires |regs| == STAGES
    ensures |r| == STAGES
    ensures Quiet(r)
    ensures forall k :: 0 <= k < STAGES ==> r[k].out == Unflagged(regs[k].out)
  {
    [StampReg(regs[FETCH], dir.fStall, false),
     StampReg(regs[DECODE], dir.dStall, dir.dBubble),
     StampReg(regs[EXECUTE], false, dir.xBubble),
     StampReg(regs[MEMORY], false, false),
     StampReg(regs[WBACK], false, false)]
  }

  /** The architectural PC takes the predicted PC unless fetch's output is stalled. */
  function UpdatePC(s: State): (t: State)
    ensures t.regs == s.regs
    ensures Quiet(s.regs) ==> t == s.(pc := s.predPC)
  {
    if !s.regs[FETCH].out.stall then s.(pc := s.predPC) else s
  }

  /** What register `i` passes on: the bubble record if its output is bubbled, else its output. */
  function Forward(p: PipeReg): (o: Insn)
    ensures p.out.bubble ==> o == Bubble && !o.stall
    ensures !p.out.bubble ==> o == p.out
  {
    if p.out.bubble then Bubble else p.out
  }

  /** Iteration `i` of the copy loop. */
  function CopyOne(regs: seq<PipeReg>, i: nat): (r: seq<PipeReg>)
    requires |regs| == STAGES && i < WBACK
    ensures |r| == STAGES
  {
    var o := Forward(regs[i]);
    var regs' := regs[i := regs[i].(out := o)];
    if !o.stall then regs'[i + 1 := regs'[i + 1].(inp := o)] else regs'
  }

  /** The first `n` iterations of the copy loop. */
  function CopyUpTo(regs: seq<PipeReg>, n: nat): (r: seq<PipeReg>)
    requires |regs| == STAGES && n <= WBACK
    ensures |r| == STAGES
  {
    if n == 0 then regs else CopyOne(CopyUpTo(regs, n - 1), n - 1)
  }

  /** The whole copy loop, over the first four registers. */
  function Advance(regs: seq<PipeReg>): (r: seq<PipeReg>)
    requires |regs| == STAGES
    ensures |r| == STAGES
  {
    CopyUpTo(regs, WBACK)
  }

  /**
   * After `n` iterations, each of the first `n` registers holds what it
   * forwards, and each of the registers after them has received that in its
   * input unless it was stalled; the rest is as it was.
   */
  lemma {:induction false} CopyUpToSpec(regs: seq<PipeReg>, n: nat)
    requires |regs| == STAGES && n <= WBACK
    ensures forall k :: 0 <= k < n ==> CopyUpTo(regs, n)[k].out == Forward(regs[k])
    ensures forall k :: n <= k < STAGES ==> CopyUpTo(regs, n)[k].out == regs[k].out
    ensures CopyUpTo(regs, n)[FETCH].inp == regs[FETCH].inp
    ensures forall k :: 1 <= k <= n ==>
              CopyUpTo(regs, n)[k].inp ==
                (if Forward(regs[k - 1]).stall then regs[k].inp else Forward(regs[k - 1]))
    ensures forall k :: n < k < STAGES ==> CopyUpTo(regs, n)[k].inp == regs[k].inp
  {
    if n > 0 {
      CopyUpToSpec(regs, n - 1);
      var prev := CopyUpTo(regs, n - 1);
      assert prev[n - 1] == PipeReg(prev[n - 1].inp, regs[n - 1].out);
      assert Forward(prev[n - 1]) == Forward(regs[n - 1]);
    }
  }

  /**
   * The copy loop: each of the first four registers passes on the bubble
   * record if bubbled, otherwise its output; the next register takes what is
   * passed on unless it is stalled. Since the bubble record is not stalled,
   * a bubbled register always passes on a `NOP`. Write-back is never copied
   * anywhere, and fetch's input is never written.
   */
  lemma AdvanceSpec(regs: seq<PipeReg>, i: nat)
    requires |regs| == STAGES && i < WBACK
    ensures Advance(regs)[i].out == Forward(regs[i])
    ensures regs[i].out.bubble ==> Advance(regs)[i + 1].inp == Bubble
    ensures !regs[i].out.bubble && !regs[i].out.stall ==> Advance(regs)[i + 1].inp == regs[i].out
    ensures !regs[i].out.bubble && regs[i].out.stall ==> Advance(regs)[i + 1].inp == regs[i + 1].inp
    ensures Advance(regs)[WBACK].out == regs[WBACK].out
    ensures Advance(regs)[FETCH].inp == regs[FETCH].inp
  {
    CopyUpToSpec(regs, WBACK);
  }

  /** With no output flag set, the copy loop moves every output one register on, unchanged. */
  lemma AdvanceQuiet(regs: seq<PipeReg>)
    requires |regs| == STAGES && Quiet(regs)
    ensures forall k :: 0 <= k < STAGES ==> Advance(regs)[k].out == regs[k].out
    ensures forall k :: 0 <= k < WBACK ==> Advance(regs)[k + 1].inp == regs[k].out
    ensures Advance(regs)[FETCH].inp == regs[FETCH].inp
    ensures Quiet(Advance(regs))
  {
    CopyUpToSpec(regs, WBACK);
  }

  /** One iteration of the cycle loop. */
  function Step(s: State, g: StageLogic): State
  {
    var ran := RunStages(Latch(s), g);
    var flagged := ran.(regs := StampRegs(ran.regs, HazardDirective(ran)));
    var moved := UpdatePC(flagged);
    moved.(regs := Advance(moved.regs))
  }

  /**
   * The hazard unit has no effect on a cycle. Whatever hazard it detects,
   * the PC takes the predicted PC, every stage's output moves on into the
   * next register's input (its flags cleared), and the cycle ends with no
   * output flag set, so the next cycle latches the predicted PC as well.
   */
  lemma HazardsInert(s: State, g: StageLogic)
    ensures var ran := RunStages(Latch(s), g);
            && Step(s, g).pc == ran.predPC
            && (forall k :: 0 <= k < WBACK ==> Step(s, g).regs[k + 1].inp == Unflagged(ran.regs[k].out))
            && Step(s, g).regs[WBACK].out == Unflagged(ran.regs[WBACK].out)
            && Quiet(Step(s, g).regs)
  {
    var ran := RunStages(Latch(s), g);
    var flagged := StampRegs(ran.regs, HazardDirective(ran));
    AdvanceQuiet(flagged);
  }

  /** Starting from a state with no output flag, fetch's input receives the predicted PC. */
  lemma LatchQuiet(s: State)
    requires Quiet(s.regs)
    ensures Latch(s).regs[FETCH].inp.predPC == s.predPC
  {
  }

  /** `n` applications of `f`, starting from `s`. */
  function Iterate(s: State, n: nat, f: State -> State): State
  {
    if n == 0 then s else f(Iterate(s, n - 1, f))
  }

  /** Two register tables that agree register by register are equal. */
  lemma SameTable(a: Table, b: Table)
    requires a[FETCH] == b[FETCH] && a[DECODE] == b[DECODE] && a[EXECUTE] == b[EXECUTE]
    requires a[MEMORY] == b[MEMORY] && a[WBACK] == b[WBACK]
    ensures a == b
  {
  }

  /** The loop's halting condition: decode has produced a return to the sentinel address. */
  predicate Halted(s: State)
  {
    s.regs[DECODE].out.op == Ret && s.regs[DECODE].out.valA == Memory.RET_FROM_MAIN_ADDR
  }

  /** The flag value `PACK_CC(0, 1, 0, 0)`: only Z set. */
  const RESET_FLAGS: Nzcv := Nzcv(false, true, false, false)

  /**
   * The state at the start of a run: every snapshot is the bubble record,
   * the PC and the predicted PC are the entry point, the stack pointer is 8
   * below the kernel segment, the flags hold Z only, and X30 holds the
   * sentinel return address.
   */
  function ResetState(s: State, entry: u64, kernelStart: u64): (t: State)
    ensures Quiet(t.regs)
    ensures forall k :: 0 <= k < STAGES ==> t.regs[k] == PipeReg(Bubble, Bubble)
    ensures t.pc == entry && t.predPC == entry
    ensures t.arch.sp == Wrap64(kernelStart - 8) && t.arch.nzcv == RESET_FLAGS
    ensures t.arch.gpr == s.arch.gpr[30 := Memory.RET_FROM_MAIN_ADDR]
    ensures t.arch.mem == s.arch.mem
  {
    var r := PipeReg(Bubble, Bubble);
    s.(regs := [r, r, r, r, r], pc := entry, predPC := entry,
       arch := s.arch.(sp := Wrap64(kernelStart - 8), nzcv := RESET_FLAGS,
                       gpr := s.arch.gpr[30 := Memory.RET_FROM_MAIN_ADDR]))
  }

  /**
   * The copy loop of the driver, in place over the register table. A
   * register both stalled and bubbled is only reported in the simulator;
   * the report is not modelled.
   */
  method CopyStages(regs: array<PipeReg>)
    requires regs.Length == STAGES
    modifies regs
    ensures regs[..] == Advance(old(regs[..]))
  {
    for i := 0 to WBACK
      invariant regs[..] == CopyUpTo(old(regs[..]), i)
    {
      if regs[i].out.bubble {
        regs[i] := regs[i].(out := Bubble);
      }
      if !regs[i].out.stall {
        regs[i + 1] := regs[i + 1].(inp := regs[i].out);
      }
    }
  }

  /** The processor: the five pipeline registers, the PC and the globals of the stage logic. */
  class Processor {
    const regs: array<PipeReg>
    const logic: StageLogic
    var pc: u64
    var arch: Arch
    var predPC: u64
    var currentPC: u64
    var xCondval: bool
    var wWval: u64
    /** The cycle as a function on states: `Step` under this processor's stage logic. */
    ghost const next: State -> State

    ghost predicate Valid()
    {
      && regs.Length == STAGES
      && forall s {:trigger Step(s, logic)} :: next(s) == Step(s, logic)
    }

    function Snapshot(): (s: State)
      requires regs.Length == STAGES
      reads this`pc, this`arch, this`predPC, this`currentPC, this`xCondval, this`wWval, regs
    {
      State(regs[..], pc, arch, predPC, currentPC, xCondval, wWval)
    }

    constructor (units: Units, arch: Arch)
      ensures Valid() && fresh(regs)
      ensures logic == Logic(units) && this.arch == arch
      ensures Snapshot() == State([PipeReg(Bubble, Bubble), PipeReg(Bubble, Bubble),
                                   PipeReg(Bubble, Bubble), PipeReg(Bubble, Bubble),
                                   PipeReg(Bubble, Bubble)], 0, arch, 0, 0, false, 0)
    {
      logic := Logic(units);
      next := (s: State) => Step(s, Logic(units));
      this.arch := arch;
      regs := new PipeReg[STAGES](_ => PipeReg(Bubble, Bubble));
      pc, predPC, currentPC, xCondval, wWval := 0, 0, 0, false, 0;
    }

    /** The reset at the start of `runElf`. */
    method ResetRun(entry: u64, kernelStart: u64)
      requires Valid()
      modifies this, regs
      ensures Valid()
      ensures Snapshot() == ResetState(old(Snapshot()), entry, kernelStart)
    {
      pc := entry;
      arch := arch.(sp := Wrap64(kernelStart - 8));
      arch := arch.(nzcv := RESET_FLAGS);
      arch := arch.(gpr := arch.gpr[30 := Memory.RET_FROM_MAIN_ADDR]);
      for i := 0 to STAGES
        invariant forall k :: 0 <= k < i ==> regs[k] == PipeReg(Bubble, Bubble)
        modifies regs
      {
        regs[i] := PipeReg(Bubble, Bubble);
      }
      predPC := pc;
    }

    /** The five stages, run in place in reverse pipeline order. */
    method RunAllStages()
      requires Valid()
      modifies this, regs
      ensures Valid()
      ensures Snapshot() == RunStages(old(Snapshot()), logic)
    {
      ghost var s := Snapshot();
      var w := logic.wback(regs[WBACK]);
      regs[WBACK] := regs[WBACK].(out := w.out);
      wWval := w.wval;

      var m := logic.memory(regs[MEMORY], arch);
      regs[MEMORY] := regs[MEMORY].(out := m.out);
      arch := m.arch;

      var x := logic.execute(regs[EXECUTE], xCondval, arch);
      regs[EXECUTE] := regs[EXECUTE].(out := x.out);
      xCondval := x.condval;
      arch := x.arch;

      var d := logic.decode(regs[DECODE], regs[WBACK].inp, wWval, arch);
      regs[DECODE] := regs[DECODE].(out := d.out);
      arch := d.arch;

      var f := logic.fetch(regs[FETCH], regs[MEMORY].inp, regs[EXECUTE].inp, arch);
      regs[FETCH] := regs[FETCH].(out := f.out);
      currentPC := f.currentPC;
      predPC := f.predPC;
      arch := f.arch;
      SameTable(regs[..], RunStages(s, logic).regs);
    }

    /** Fetch's input takes the predicted PC unless fetch's output is stalled. */
    method LatchPredictedPC()
      requires Valid()
      modifies regs
      ensures Snapshot() == Latch(old(Snapshot()))
    {
      if !regs[FETCH].out.stall {
        regs[FETCH] := regs[FETCH].(inp := regs[FETCH].inp.(predPC := predPC));
      }
    }

    /** The hazard inputs computed from the registers, and the hazard unit's call. */
    method CheckHazards()
      requires Valid()
      modifies regs
      ensures Snapshot() == old(Snapshot()).(regs := StampRegs(old(regs[..]), HazardDirective(old(Snapshot()))))
    {
      ghost var s := Snapshot();
      var dSrc1 := HazardSrc1(regs[DECODE].inp);
      var dSrc2 := HazardSrc2(regs[DECODE].inp);
      var xDst := HazardDst(regs[EXECUTE].inp);
      ghost var dir := Decide(regs[DECODE].out.op, dSrc1, dSrc2, regs[EXECUTE].inp.op, xDst, xCondval);
      assert dir == HazardDirective(s);
      HandleHazards(regs, regs[DECODE].out.op, dSrc1, dSrc2, regs[EXECUTE].inp.op, xDst, xCondval);
      SameTable(regs[..], StampRegs(s.regs, dir));
    }

    /** One iteration of the cycle loop, without the instruction count. */
    method Cycle()
      requires Valid()
      modifies this, regs
      ensures Valid()
      ensures Snapshot() == next(old(Snapshot()))
    {
      ghost var s := Snapshot();
      LatchPredictedPC();
      RunAllStages();
      CheckHazards();
      if !regs[FETCH].out.stall {
        pc := predPC;
      }
      CopyStages(regs);
      assert Snapshot() == Step(s, logic);
    }

    /**
     * The cycle loop of `runElf`: it runs at least once and stops after the
     * first cycle that leaves decode with a return to the sentinel address,
     * or once `maxInstr` cycles have run. The count starts from zero.
     */
    method RunCycles(maxInstr: u32) returns (numInstr: nat)
      requires Valid()
      modifies this, regs
      ensures Valid()
      ensures 1 <= numInstr && (numInstr <= maxInstr || numInstr == 1)
      ensures Snapshot() == Iterate(old(Snapshot()), numInstr, next)
      ensures Halted(Snapshot()) || numInstr >= maxInstr
      ensures forall k :: 1 <= k < numInstr ==> !Halted(Iterate(old(Snapshot()), k, next))
    {
      ghost var s0 := Snapshot();
      numInstr := 0;
      var halted := false;
      while numInstr == 0 || (!halted && numInstr < maxInstr)
        invariant Valid()
        invariant numInstr <= maxInstr as nat + 1 && (numInstr <= maxInstr || numInstr == 1)
        invariant Snapshot() == Iterate(s0, numInstr, next)
        invariant halted == (numInstr > 0 && Halted(Snapshot()))
        invariant forall k :: 1 <= k < numInstr ==> !Halted(Iterate(s0, k, next))
        decreases maxInstr as nat + 1 - numInstr
      {
        ghost var before := Snapshot();
        Cycle();
        numInstr := numInstr + 1;
        assert Iterate(s0, numInstr, next) == next(before);
        forall k | 1 <= k < numInstr
          ensures !Halted(Iterate(s0, k, next))
        {
          if k == numInstr - 1 {
            assert Iterate(s0, k, next) == before;
          }
        }
        halted := regs[DECODE].out.op == Ret && regs[DECODE].out.valA == Memory.RET_FROM_MAIN_ADDR;
      }
    }

    /** `runElf`: the reset, then the cycle loop. */
    method RunElf(entry: u64, kernelStart: u64, maxInstr: u32) returns (numInstr: nat)
      requires Valid()
      modifies this, regs
      ensures Valid()
      ensures var s0 := ResetState(old(Snapshot()), entry, kernelStart);
              && 1 <= numInstr && (numInstr <= maxInstr || numInstr == 1)
              && Snapshot() == Iterate(s0, numInstr, next)
              && (Halted(Snapshot()) || numInstr >= maxInstr)
              && forall k :: 1 <= k < numInstr ==> !Halted(Iterate(s0, k, next))
    {
      ResetRun(entry, kernelStart);
      numInstr := RunCycles(maxInstr);
    }
  }
}
