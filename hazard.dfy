/**
 * The hazard unit of `hazard_control.c`: three hazard tests and the
 * dispatcher that clears every stall and bubble flag of the five pipeline
 * registers and then raises the flags of the first hazard that holds.
 *
 * The registers are the driver's register table, an array of five
 * registers in pipeline order; the unit updates their flags in place.
 */
module Hazard {
  import opened Bits
  import opened Isa
  import opened Pipe

  /**
   * `check_load_use_hazard`: the instruction in execute is a 64-bit load
   * whose destination is one of the sources of the instruction in decode.
   * The decode opcode is an argument but takes no part in the test.
   */
  predicate LoadUse(dOpcode: Opcode, dSrc1: Byte, dSrc2: Byte, xOpcode: Opcode, xDst: Byte)
  {
    xOpcode == Ldur && (xDst == dSrc1 || xDst == dSrc2)
  }

  /** `check_mispred_branch_hazard`: a conditional branch in execute whose condition failed. */
  predicate MispredBranch(xOpcode: Opcode, xCondval: bool)
  {
    xOpcode == BCond && !xCondval
  }

  /** `check_ret_hazard`: a return in decode. */
  predicate RetHazard(dOpcode: Opcode)
  {
    dOpcode == Ret
  }

  /** The flags `handle_hazards` raises, beyond clearing all of them. */
  datatype Directive = Directive(fStall: bool, dStall: bool, dBubble: bool, xBubble: bool)

  /**
   * The choice of `handle_hazards`: the tests are tried in the order
   * load-use, mispredicted branch, return, and only the first that holds
   * acts. A load-use hazard stalls fetch and decode and bubbles execute; a
   * mispredicted branch bubbles decode and execute; a return bubbles decode.
   */
  function Decide(dOpcode: Opcode, dSrc1: Byte, dSrc2: Byte, xOpcode: Opcode, xDst: Byte,
                  xCondval: bool): (r: Directive)
    ensures r.fStall == r.dStall
    ensures r.dStall <==> LoadUse(dOpcode, dSrc1, dSrc2, xOpcode, xDst)
    ensures r.xBubble <==>
              LoadUse(dOpcode, dSrc1, dSrc2, xOpcode, xDst) || MispredBranch(xOpcode, xCondval)
    ensures r.dBubble <==>
              !LoadUse(dOpcode, dSrc1, dSrc2, xOpcode, xDst)
              && (MispredBranch(xOpcode, xCondval) || RetHazard(dOpcode))
    ensures !(r.dStall && r.dBubble)
    ensures xOpcode != Ldur ==> !r.fStall && !r.dStall
    ensures r == Directive(false, false, false, false) <==>
              !LoadUse(dOpcode, dSrc1, dSrc2, xOpcode, xDst) && !MispredBranch(xOpcode, xCondval)
              && !RetHazard(dOpcode)
  {
    if LoadUse(dOpcode, dSrc1, dSrc2, xOpcode, xDst) then Directive(true, true, false, true)
    else if MispredBranch(xOpcode, xCondval) then Directive(false, false, true, true)
    else if RetHazard(dOpcode) then Directive(false, false, true, false)
    else Directive(false, false, false, false)
  }

  /**
   * One register after `handle_hazards`: both snapshots lose their flags,
   * then the input snapshot gets the flags the directive gives it.
   */
  function StampReg(p: PipeReg, stall: bool, bubble: bool): (r: PipeReg)
    ensures UnflaggedReg(r) == UnflaggedReg(p)
    ensures r.inp.stall == stall && r.inp.bubble == bubble
    ensures !r.out.stall && !r.out.bubble
  {
    PipeReg(Unflagged(p.inp).(stall := stall, bubble := bubble), Unflagged(p.out))
  }

  /** `reset_stall`: clears the stall flag of every snapshot. */
  method ResetStall(regs: array<PipeReg>)
    requires regs.Length == STAGES
    modifies regs
    ensures regs[FETCH] == NoStall(old(regs[FETCH]))
    ensures regs[DECODE] == NoStall(old(regs[DECODE]))
    ensures regs[EXECUTE] == NoStall(old(regs[EXECUTE]))
    ensures regs[MEMORY] == NoStall(old(regs[MEMORY]))
    ensures regs[WBACK] == NoStall(old(regs[WBACK]))
  {
    regs[WBACK] := regs[WBACK].(inp := regs[WBACK].inp.(stall := false));
    regs[MEMORY] := regs[MEMORY].(inp := regs[MEMORY].inp.(stall := false));
    regs[EXECUTE] := regs[EXECUTE].(inp := regs[EXECUTE].inp.(stall := false));
    regs[DECODE] := regs[DECODE].(inp := regs[DECODE].inp.(stall := false));
    regs[FETCH] := regs[FETCH].(inp := regs[FETCH].inp.(stall := false));

    regs[WBACK] := regs[WBACK].(out := regs[WBACK].out.(stall := false));
    regs[MEMORY] := regs[MEMORY].(out := regs[MEMORY].out.(stall := false));
    regs[EXECUTE] := regs[EXECUTE].(out := regs[EXECUTE].out.(stall := false));
    regs[DECODE] := regs[DECODE].(out := regs[DECODE].out.(stall := false));
    regs[FETCH] := regs[FETCH].(out := regs[FETCH].out.(stall := false));
  }

  function NoStall(p: PipeReg): PipeReg
  {
    PipeReg(p.inp.(stall := false), p.out.(stall := false))
  }

  /** `reset_bubble`: clears the bubble flag of every snapshot. */
  method ResetBubble(regs: array<PipeReg>)
    requires regs.Length == STAGES
    modifies regs
    ensures regs[FETCH] == NoBubble(old(regs[FETCH]))
    ensures regs[DECODE] == NoBubble(old(regs[DECODE]))
    ensures regs[EXECUTE] == NoBubble(old(regs[EXECUTE]))
    ensures regs[MEMORY] == NoBubble(old(regs[MEMORY]))
    ensures regs[WBACK] == NoBubble(old(regs[WBACK]))
  {
    regs[WBACK] := regs[WBACK].(inp := regs[WBACK].inp.(bubble := false));
    regs[MEMORY] := regs[MEMORY].(inp := regs[MEMORY].inp.(bubble := false));
    regs[EXECUTE] := regs[EXECUTE].(inp := regs[EXECUTE].inp.(bubble := false));
    regs[DECODE] := regs[DECODE].(inp := regs[DECODE].inp.(bubble := false));
    regs[FETCH] := regs[FETCH].(inp := regs[FETCH].inp.(bubble := false));

    regs[WBACK] := regs[WBACK].(out := regs[WBACK].out.(bubble := false));
    regs[MEMORY] := regs[MEMORY].(out := regs[MEMORY].out.(bubble := false));
    regs[EXECUTE] := regs[EXECUTE].(out := regs[EXECUTE].out.(bubble := false));
    regs[DECODE] := regs[DECODE].(out := regs[DECODE].out.(bubble := false));
    regs[FETCH] := regs[FETCH].(out := regs[FETCH].out.(bubble := false));
  }

  function NoBubble(p: PipeReg): PipeReg
  {
    PipeReg(p.inp.(bubble := false), p.out.(bubble := false))
  }

  /** `reset`: clears every flag, bubbles first, and changes nothing else. */
  method Reset(regs: array<PipeReg>)
    requires regs.Length == STAGES
    modifies regs
    ensures regs[FETCH] == UnflaggedReg(old(regs[FETCH]))
    ensures regs[DECODE] == UnflaggedReg(old(regs[DECODE]))
    ensures regs[EXECUTE] == UnflaggedReg(old(regs[EXECUTE]))
    ensures regs[MEMORY] == UnflaggedReg(old(regs[MEMORY]))
    ensures regs[WBACK] == UnflaggedReg(old(regs[WBACK]))
  {
    ResetBubble(regs);
    ResetStall(regs);
  }

  /**
   * `handle_hazards`: every flag is cleared, then the directive `Decide`
   * chooses is raised on the input snapshots of fetch, decode and execute.
   * Memory and write-back end with no flag at all, no output snapshot
   * carries a flag, and nothing but the flags changes.
   */
  method HandleHazards(regs: array<PipeReg>, dOpcode: Opcode, dSrc1: Byte, dSrc2: Byte,
                       xOpcode: Opcode, xDst: Byte, xCondval: bool)
    requires regs.Length == STAGES
    modifies regs
    ensures var dir := Decide(dOpcode, dSrc1, dSrc2, xOpcode, xDst, xCondval);
            && regs[FETCH] == StampReg(old(regs[FETCH]), dir.fStall, false)
            && regs[DECODE] == StampReg(old(regs[DECODE]), dir.dStall, dir.dBubble)
            && regs[EXECUTE] == StampReg(old(regs[EXECUTE]), false, dir.xBubble)
            && regs[MEMORY] == StampReg(old(regs[MEMORY]), false, false)
            && regs[WBACK] == StampReg(old(regs[WBACK]), false, false)
  {
    Reset(regs);
    ghost var dir := Decide(dOpcode, dSrc1, dSrc2, xOpcode, xDst, xCondval);
    if LoadUse(dOpcode, dSrc1, dSrc2, xOpcode, xDst) {
      regs[FETCH] := regs[FETCH].(inp := regs[FETCH].inp.(stall := true));
      regs[DECODE] := regs[DECODE].(inp := regs[DECODE].inp.(stall := true));
      regs[EXECUTE] := regs[EXECUTE].(inp := regs[EXECUTE].inp.(bubble := true));
      assert dir == Directive(true, true, false, true);
    } else if MispredBranch(xOpcode, xCondval) {
      regs[DECODE] := regs[DECODE].(inp := regs[DECODE].inp.(bubble := true));
      regs[EXECUTE] := regs[EXECUTE].(inp := regs[EXECUTE].inp.(bubble := true));
      assert dir == Directive(false, false, true, true);
    } else if RetHazard(dOpcode) {
      regs[DECODE] := regs[DECODE].(inp := regs[DECODE].inp.(bubble := true));
      assert dir == Directive(false, false, true, false);
    } else {
      assert dir == Directive(false, false, false, false);
    }
  }
}
