/**
 * The instruction set of the simulated A64 subset: opcode classes, ALU
 * operations, and the opcode table that maps the 11-bit key at bits
 * [21, 32) of an instruction word to its opcode class.
 */
module Isa {
  import opened Wrappers

  /** Opcode classes, in the order of the simulator's enumeration. */
  datatype Opcode =
    | Error | Ldurb | Ldur | Sturb | Stur | Movk | Movz | AddRI | AddsRR | SubsRR
    | Mvn | OrrRR | EorRR | AndsRR | Lsl | Lsr | Ubfm | Asr | B | BCond | Bl | Ret
    | Nop | Hlt

  /** The numeric value of each opcode class in the enumeration (`OP_ERROR` is 0). */
  function Ord(op: Opcode): (n: nat)
    ensures n < 24
    ensures n == 0 <==> op == Error
  {
    match op
    case Error => 0 case Ldurb => 1 case Ldur => 2 case Sturb => 3 case Stur => 4
    case Movk => 5 case Movz => 6 case AddRI => 7 case AddsRR => 8 case SubsRR => 9
    case Mvn => 10 case OrrRR => 11 case EorRR => 12 case AndsRR => 13 case Lsl => 14
    case Lsr => 15 case Ubfm => 16 case Asr => 17 case B => 18 case BCond => 19
    case Bl => 20 case Ret => 21 case Nop => 22 case Hlt => 23
  }

  /** ALU operation selectors, in enumeration order (`PLUS_OP` is 0). */
  datatype AluOp =
    | PlusOp | MinusOp | NegOp | OrOp | EorOp | AndOp | MovOp | LslOp | LsrOp
    | AsrOp | PassAOp | PassBOp

  predicate IsLoad(op: Opcode) { op == Ldur || op == Ldurb }
  predicate IsStore(op: Opcode) { op == Stur || op == Sturb }
  predicate IsMov(op: Opcode) { op == Movz || op == Movk }

  /** The table has `2 << 11` entries, although keys have only 11 bits. */
  const ITABLE_LENGTH: nat := 4096

  /**
   * The contents of the opcode table after initialisation: the keys of the
   * A64 encodings of each supported instruction class, every other entry
   * `Error`. Key ranges of different classes are disjoint, so the table is
   * stated in three groups: branches and system instructions here, then
   * data processing (`DataKeys`), then loads and stores (`MemoryKeys`).
   */
  function ItableSpec(key: nat): Opcode
  {
    if 0x0a0 <= key <= 0x0bf then B
    else if 0x2a0 <= key <= 0x2a7 then BCond
    else if 0x4a0 <= key <= 0x4bf then Bl
    else if key == 0x6b2 then Ret
    else if key == 0x6a8 then Nop
    else if key == 0x6a2 then Hlt
    else DataKeys(key)
  }

  /** The data-processing part of the table, falling back to `MemoryKeys`. */
  function DataKeys(key: nat): Opcode
  {
    if 0x794 <= key <= 0x797 then Movk
    else if 0x694 <= key <= 0x697 then Movz
    else if 0x488 <= key <= 0x48b then AddRI
    else if key == 0x558 then AddsRR
    else if key == 0x758 then SubsRR
    else if key == 0x551 then Mvn
    else if key == 0x550 then OrrRR
    else if key == 0x650 then EorRR
    else if key == 0x750 then AndsRR
    else if 0x69a <= key <= 0x69b then Ubfm
    else if 0x49a <= key <= 0x49b then Asr
    else MemoryKeys(key)
  }

  /** The load and store part of the table; every other key is `Error`. */
  function MemoryKeys(key: nat): Opcode
  {
    if key == 0x1c2 then Ldurb
    else if key == 0x7c2 then Ldur
    else if key == 0x1c0 then Sturb
    else if key == 0x7c0 then Stur
    else Error
  }

  /**
   * The inverse view of the table: for each opcode class, the inclusive
   * range of keys that encode it (none for `Error`, and none for `Lsl` and
   * `Lsr`, which are both encoded as `Ubfm`).
   */
  function KeyRange(op: Opcode): Option<(nat, nat)>
  {
    match op
    case Ldurb => Some((0x1c2, 0x1c2))
    case Ldur => Some((0x7c2, 0x7c2))
    case Sturb => Some((0x1c0, 0x1c0))
    case Stur => Some((0x7c0, 0x7c0))
    case Movk => Some((0x794, 0x797))
    case Movz => Some((0x694, 0x697))
    case AddRI => Some((0x488, 0x48b))
    case AddsRR => Some((0x558, 0x558))
    case SubsRR => Some((0x758, 0x758))
    case Mvn => Some((0x551, 0x551))
    case OrrRR => Some((0x550, 0x550))
    case EorRR => Some((0x650, 0x650))
    case AndsRR => Some((0x750, 0x750))
    case Ubfm => Some((0x69a, 0x69b))
    case Asr => Some((0x49a, 0x49b))
    case B => Some((0x0a0, 0x0bf))
    case BCond => Some((0x2a0, 0x2a7))
    case Bl => Some((0x4a0, 0x4bf))
    case Ret => Some((0x6b2, 0x6b2))
    case Nop => Some((0x6a8, 0x6a8))
    case Hlt => Some((0x6a2, 0x6a2))
    case _ => None
  }

  /** The table and its inverse agree, in both directions. */
  lemma ItableInverse(key: nat, op: Opcode)
    requires op != Error
    ensures ItableSpec(key) == op <==> KeyRange(op).Some? && KeyRange(op).value.0 <= key <= KeyRange(op).value.1
  {
  }

  /** No key decodes to `Lsl` or `Lsr`: those shifts reach the pipeline as `Ubfm`. */
  lemma NoShiftKeys(key: nat)
    ensures ItableSpec(key) != Lsl && ItableSpec(key) != Lsr
  {
  }

  /** `init_itable_range`: entries `idx1..idx2` (inclusive) become `op`. */
  method InitItableRange(itable: array<Opcode>, op: Opcode, idx1: nat, idx2: nat)
    requires idx2 < itable.Length
    modifies itable
    ensures forall k :: 0 <= k < itable.Length ==>
              itable[k] == if idx1 <= k <= idx2 then op else old(itable[k])
  {
    var i := idx1;
    while i <= idx2
      invariant idx1 <= i
      invariant forall k :: 0 <= k < itable.Length ==>
                  itable[k] == if idx1 <= k < i && k <= idx2 then op else old(itable[k])
      decreases idx2 + 1 - i
    {
      itable[i] := op;
      i := i + 1;
    }
  }

  /** `init_itable_entry`: entry `idx` becomes `op`. */
  method InitItableEntry(itable: array<Opcode>, op: Opcode, idx: nat)
    requires idx < itable.Length
    modifies itable
    ensures forall k :: 0 <= k < itable.Length ==> itable[k] == if k == idx then op else old(itable[k])
  {
    itable[idx] := op;
  }

  /** `init_itable`: after it, the table holds exactly `ItableSpec`. */
  method InitItable(itable: array<Opcode>)
    requires itable.Length == ITABLE_LENGTH
    modifies itable
    ensures forall k :: 0 <= k < itable.Length ==> itable[k] == ItableSpec(k)
  {
    for i := 0 to itable.Length
      invariant forall k :: 0 <= k < i ==> itable[k] == Error
    {
      itable[i] := Error;
    }
    InitItableEntry(itable, Ldurb, 0x1c2);
    InitItableEntry(itable, Ldur, 0x7c2);
    InitItableEntry(itable, Sturb, 0x1c0);
    InitItableEntry(itable, Stur, 0x7c0);
    assert forall k :: 0 <= k < itable.Length ==> itable[k] == MemoryKeys(k);
    InitItableRange(itable, Movk, 0x794, 0x797);
    InitItableRange(itable, Movz, 0x694, 0x697);
    InitItableRange(itable, AddRI, 0x488, 0x48b);
    InitItableEntry(itable, AddsRR, 0x558);
    InitItableEntry(itable, SubsRR, 0x758);
    InitItableEntry(itable, Mvn, 0x551);
    InitItableEntry(itable, OrrRR, 0x550);
    InitItableEntry(itable, EorRR, 0x650);
    InitItableEntry(itable, AndsRR, 0x750);
    InitItableRange(itable, Ubfm, 0x69a, 0x69b);
    InitItableRange(itable, Asr, 0x49a, 0x49b);
    assert forall k :: 0 <= k < itable.Length ==> itable[k] == DataKeys(k);
    InitItableRange(itable, B, 0x0a0, 0x0bf);
    InitItableRange(itable, BCond, 0x2a0, 0x2a7);
    InitItableRange(itable, Bl, 0x4a0, 0x4bf);
    InitItableEntry(itable, Ret, 0x6b2);
    InitItableEntry(itable, Nop, 0x6a8);
    InitItableEntry(itable, Hlt, 0x6a2);
  }
}
