# A model of a five-stage ARM pipeline simulator with a cache

The system is a cycle-level simulator of a small subset of the A64
instruction set. It has five parts:

- **Processor driver.** `runElf` resets the processor. It then runs a do-while cycle loop. Each cycle:
  - latches the predicted PC into fetch;
  - runs the write-back, memory, execute, decode and fetch stages, in that order;
  - asks the hazard unit to stall or bubble pipeline registers;
  - moves each stage's output snapshot into the next stage's input.
- **Stage logic.** `instr.c` builds the opcode table from the 11 top bits of an instruction word. It chooses and predicts the PC, generates control signals, extracts immediates and picks the ALU operation. It also implements the five stages.
- **Hazard unit.** `hazard_control.c` detects load-use hazards, mispredicted conditional branches and returns.
- **Memory layer.** `mem.c` has:
  - reserved addresses: null, console and return-from-main;
  - per-segment byte order and protection;
  - little- and big-endian reads and writes over a paged byte store;
  - a cached access path with an in-flight miss countdown.
- **Cache.** `cache.c` is a set-associative, write-back LRU cache. It keeps hit, miss and eviction counters.

## How the model is laid out

| module | file | contents |
|---|---|---|
| `Bits`, `Wrappers` | `bits.dfy` | Machine integers, powers of two, bit fields, byte orders, `Option` |
| `Isa` | `isa.dfy` | Opcode classes, the opcode table and its initialisation |
| `Control` | `control.dfy` | The combinational helpers of `instr.c`, as functions |
| `Pipe` | `pipe.dfy` | Instruction snapshots, pipeline registers, the bubble record |
| `Stages` | `stages.dfy` | The five stage functions over abstract external units |
| `Hazard` | `hazard.dfy` | The hazard tests and the in-place flag updates of the hazard unit |
| `Proc` | `proc.dfy` | One cycle as a function on states, and the `Processor` class that runs it in place |
| `CacheSpec` | `cache_spec.dfy` | The cache as values: lookup, victim choice, fill, word store, invariants |
| `Cache` | `cache.dfy` | The cache as a class whose methods are proved against `CacheSpec` |
| `Memory` | `memory.dfy` | The byte store, the endian reads and writes, the cached access path |

The source has several quirks. The model keeps each one as written and states it as a lemma:

- **Hazards have no effect.** The hazard unit raises its flags on the *input* snapshots. The driver tests only *output* snapshots, whose flags the unit has just cleared. So hazards never stall or bubble anything (`Proc.HazardsInert`).
- **The second hazard source differs from decode's.**
  - The driver computes the second source register for the hazard test by singling out `STUR`.
  - Decode selects it by "is a store".
  - The two differ exactly for `STURB` (`Proc.HazardSourceMismatch`).
- **Decode's odd outputs.** Decode writes bits [0, 5) as the destination, whatever the class. It turns `MOVZ` into opcode value 0, `OP_ERROR` (`Stages.DecodeStageSpec`).
- **Fetch's selection inputs.** Fetch hands `select_PC` the memory-stage instruction where the execute-stage one is meant (`Stages.FetchAddressSpec`).
- **`handle_miss` copies too little.** It copies `sizeof(8)`, four bytes, of the incoming block into the line. The rest of the line keeps the evicted line's bytes (`CacheSpec.FillLine`).
- **`handle_miss` records the wrong address.** It records the evicted address with a set field taken from the wrong bits (`CacheSpec.EvictedAddrWrongSet`).
- **Zero latency underflows.** With latency 0, the miss countdown wraps around (`Memory.ZeroLatencyUnderflows`).
- **A straddling read fills from the wrong block.** The read path fetches the block of `addr`, not of the byte being resolved. So when a read crosses into a second block, the at most four bytes `handle_miss` copies into that block's line come from the first block (`Memory.Memory.MemReadCache` passes `BlockAddress(addr)` as the fill base for every byte).
- **A write miss fills from the wrong bytes.** The write path reads its fill buffer from the B bytes starting at `addr` itself, not at a block base (`mem.c:263-266`). So the at most four bytes `handle_miss` copies into the line come from `addr + j` rather than from the line's block. `Memory.Memory.MemWriteCache` ensures that its state is `AccessBytes` with fill base `addr`, and `FillStep` fills the line with `Bytes(bytes, fillBase, B)`.

## Model

| member | source | states |
|---|---|---|
| Bits.GetBF | src/instr.c:32-34 | The field is below 2^width and is exactly the bits [frompos, frompos+width) of the word |
| Bits.GetBOffset | src/instr.c:36-41 | The sign-extended field lies in [-2^(w-1), 2^(w-1)), is congruent to the raw field modulo 2^w, and equals it when the top bit is clear |
| Isa.Ord | src/instr.c:447-472 | The enumeration value of a class is below 24, and is 0 exactly for `OP_ERROR` |
| Isa.ItableInverse | src/instr.c:54-77 | A key decodes to a class other than `OP_ERROR` if and only if it lies in that class's key range |
| Isa.ItableSpec | src/instr.c:54-77 | The class of every table key, as `init_itable` lays the table out; its key ranges are stated by `Isa.ItableInverse`, and the table built in place equals it (`Isa.InitItable`) |
| Isa.NoShiftKeys | src/instr.c:69 | No key decodes to `LSL` or `LSR`: both shifts share the `UBFM` keys |
| Isa.InitItableRange | src/instr.c:45-47 | Entries idx1..idx2 inclusive become the class; every other entry is unchanged |
| Isa.InitItableEntry | src/instr.c:43 | Entry idx becomes the class; every other entry is unchanged |
| Isa.InitItable | src/instr.c:54-77 | Every entry of the table of 2<<11 entries ends as the table's specification says: the listed keys map to their classes, all others to `OP_ERROR` |
| Control.SelectPC | src/instr.c:85-113 | A taken conditional branch keeps the prediction; a failed one falls through to its successor; otherwise a return uses its target; otherwise the prediction |
| Control.PredictPC | src/instr.c:122-143 | The successor is PC+4 modulo 2^64. Conditional branches predict PC + 4·imm19 and `B`/`BL` predict PC + 4·imm26 (both sign-extended). Every other class predicts the successor |
| Control.PredictionAligned | src/instr.c:122-143 | A word-aligned PC gives a word-aligned prediction and successor |
| Control.ValbSel | src/instr.c:173 | The ALU takes the immediate exactly for the listed immediate-operand classes |
| Control.GenerateControl | src/instr.c:155-179 | Memory is read exactly for loads and written exactly for stores, never both. Loads write back from memory. Only `BL` writes X30, and only flag-setting ALU ops set the flags. Stores, branches, `NOP` and `HLT` write no register. A store's second source comes from bits [0, 5) |
| Control.ExtractImmval | src/instr.c:188-205 | Shifts take the 12 bits at 10, loads and stores the 9 bits at 12, moves the 16 bits at 5 (each within its range); other classes leave the immediate unchanged |
| Control.DecideAluOp | src/instr.c:213-268 | Each class gets its ALU operation, each listed operation exactly for its class; `LSL` and pass-B never occur |
| Control.FetchedNeverShifts | src/instr.c:213-268 | A decoded word never selects the right-shift ALU operation, and `UBFM` passes its operand through |
| CacheSpec.SetIndex | src/cache/cache.c:131 | The set index is below the number of sets |
| CacheSpec.Tag | src/cache/cache.c:136 | The bits of the address above the set field; `CacheSpec.FieldsArithmetic` states it as the quotient by 2^(s+b) |
| CacheSpec.Offset | src/cache/cache.c:293 | The block offset is below the block size and at most the address |
| CacheSpec.FieldsArithmetic | src/cache/cache.c:131-136 | Set index, tag and offset are the quotient/remainder fields of the address by powers of two |
| CacheSpec.AddressFields | src/cache/cache.c:131-136 | The address is tag·2^(s+b) + set·2^b + offset |
| CacheSpec.SameFieldsSameAddress | src/cache/cache.c:131-136 | Two addresses with equal tag, set and offset are equal |
| CacheSpec.BlockAddress | src/mem.c:197 | `addr & ~(B-1)`: the address less its offset; `CacheSpec.BlockAddressFields` states that it keeps set and tag with offset 0 |
| CacheSpec.BlockAddressFields | src/mem.c:197 | The block address of an address has the same set and tag, and offset 0 |
| CacheSpec.FindLast | src/cache/cache.c:126-142 | The lookup finds the last line holding the tag, or none exactly when no line holds it |
| CacheSpec.FindLastMeta | src/cache/cache.c:126-142 | The lookup depends only on valid bits and tags |
| CacheSpec.FirstInvalid | src/cache/cache.c:156-163 | The first invalid line, or none exactly when all lines are valid |
| CacheSpec.MinLru | src/cache/cache.c:153-172 | The first line of least stamp among the first n |
| CacheSpec.Victim | src/cache/cache.c:148-192 | The chosen line is a line of the set; `CacheSpec.VictimIsLeastRecent` and `CacheSpec.VictimPrefersFree` state which one |
| CacheSpec.VictimIsLeastRecent | src/cache/cache.c:148-192 | In a full set with distinct stamps, the victim is strictly older than every other line |
| CacheSpec.VictimPrefersFree | src/cache/cache.c:156-163 | When a line is invalid, the victim is an invalid line no later than it |
| CacheSpec.Touch | src/cache/cache.c:215-226 | The hit update: new stamp, dirty on a store; `CacheSpec.HitKeepsCoherent` and `CacheSpec.HitKeepsLookups` state its effect on the cache |
| CacheSpec.FillLine | src/cache/cache.c:245-254 | The filled line is valid with the new tag, the new stamp, and dirty exactly for a store. Its first min(4, B) bytes come from the incoming block and the rest stay |
| CacheSpec.EvictedAddr | src/cache/cache.c:243 | The address `handle_miss` records; `CacheSpec.EvictedAddrFields`, `EvictedAddrAgrees` and `EvictedAddrWrongSet` state what it is |
| CacheSpec.EvictedAddrFields | src/cache/cache.c:243 | The recorded eviction address has offset 0. Its set field is the address's bits [2b, 2b+s) |
| CacheSpec.EvictedAddrAgrees | src/cache/cache.c:243 | When those bits agree with the address's real set field, the recorded address is the evicted block's own |
| CacheSpec.EvictedAddrWrongSet | src/cache/cache.c:243 | With two sets of two-byte blocks, a line evicted for address 2 (set 1) is recorded at address 0, in set 0 |
| CacheSpec.EvictedOf | src/cache/cache.c:236-243 | The eviction record carries the victim's dirty and valid bits, its first min(8, B) bytes and the recorded address |
| CacheSpec.EmptyCache | src/cache/cache.c:47-73 | The created cache has 2^s sets of E lines of 2^b bytes |
| CacheSpec.EmptyCacheHoldsNothing | src/cache/cache.c:47-73 | A new cache is coherent with the clock at 0 and holds no address |
| CacheSpec.Lookup | src/cache/cache.c:126-142 | A found line lies in the address's set and holds its tag; none is found exactly when no line of the set does |
| CacheSpec.LookupMeta | src/cache/cache.c:126-142 | States with the same line metadata agree on every lookup |
| CacheSpec.CoherentMeta | src/cache/cache.c:285-299 | Changing block contents alone keeps tags distinct and stamps coherent |
| CacheSpec.MetaFields | src/cache/cache.c:285-299 | States with equal metadata agree on every line's valid bit, tag, dirty bit and stamp |
| CacheSpec.HitKeepsCoherent | src/cache/cache.c:198-229 | A hit keeps the state well formed, the lookup and the cached byte unchanged, and coherence under the advanced clock |
| CacheSpec.HitKeepsLookups | src/cache/cache.c:215-226 | A hit keeps the state well formed and changes the lookup of no address |
| CacheSpec.HitState | src/cache/cache.c:198-229 | The cache after `check_hit` finds the address: its line touched; `CacheSpec.HitKeepsCoherent` and `CacheSpec.HitKeepsLookups` state its properties |
| CacheSpec.FillState | src/cache/cache.c:235-257 | The cache after `handle_miss`: the victim replaced by the filled line; `CacheSpec.FillMakesResident` states its properties |
| CacheSpec.FillMakesResident | src/cache/cache.c:235-257 | A fill makes the address resident. For an absent address, the victim is the line that holds it and the cache stays coherent |
| CacheSpec.WriteByte | src/cache/cache.c:293 | Storing a byte keeps the cache well formed |
| CacheSpec.WriteWordMeta | src/cache/cache.c:285-299 | A word store changes no valid bit, tag, dirty bit or stamp |
| CacheSpec.WriteByteEffect | src/cache/cache.c:293 | A byte store changes the stored byte only |
| CacheSpec.WrapDistinct | src/cache/cache.c:291 | The eight byte addresses of a word are distinct, even across wrap-around |
| CacheSpec.WriteWordLookup | src/cache/cache.c:285-299 | A word store changes no lookup |
| CacheSpec.WriteWordHits | src/cache/cache.c:285-299 | After a word store, byte k of the value is cached at addr + k |
| CacheSpec.WriteWordMisses | src/cache/cache.c:285-299 | A word store leaves every other cached byte unchanged |
| CacheSpec.CachedBytes | src/cache/cache.c:268-275 | The bytes read are the cached bytes at addr, addr+1, ... |
| CacheSpec.StoredBytesRoundTrip | src/cache/cache.c:285-299 | The first n stored bytes read back, little-endian, as the value modulo 256^n |
| CacheSpec.WriteWordRoundTrip | src/cache/cache.c:285-299 | A word stored into cached bytes reads back as the same word |
| Cache.Cache.constructor | src/cache/cache.c:47-73 | For every geometry the 32-bit masks can compute (s, b ≤ 30, s+b ≤ 31, E ≥ 1), the new cache has that geometry, all lines invalid with zero blocks, all counters and the clock at 0 |
| Cache.Cache.GetLine | src/cache/cache.c:126-142 | The loop returns the lookup's line: the last matching line of the set |
| Cache.Cache.SelectLine | src/cache/cache.c:148-192 | Returns the victim. It counts a dirty or clean eviction only when no line was free, by the victim's dirty bit |
| Cache.Cache.ScanSet | src/cache/cache.c:152-173 | The scan returns the victim, and reports it free exactly when some line is invalid |
| Cache.Cache.CheckHit | src/cache/cache.c:198-229 | A hit occurs exactly when the address is resident. It stamps the line, dirties it on a store, and advances the clock and the hit count. A miss changes only the miss count |
| Cache.Cache.HandleMiss | src/cache/cache.c:235-257 | The victim's record is returned and the victim is replaced by the fill. The clock advances, and evictions are counted as in `select_line` |
| Cache.Cache.SetWordCache | src/cache/cache.c:285-299 | The loop stores byte k of the value at addr + k, as the word store specifies |
| Cache.Cache.StoreByte | src/cache/cache.c:291-293 | Stores one byte in the line holding its address |
| Cache.Cache.HoldsWord | src/cache/cache.c:289-292 | True exactly when all eight byte addresses are cached |
| Cache.Cache.AccessData | src/cache/cache.c:310-313 | A hit exactly when the address was resident: then the hit state and one more hit; else the fill state (the block left as it was) and one more miss, evictions counted as in `select_line`. The clock advances once; the address is resident and coherence is kept |
| Memory.IsSpecialAddr | src/mem.c:36-40 | True exactly for the null, console and return-from-main addresses |
| Memory.GetByteOrder | src/mem.c:42-47 | The text segment has the code's byte order, every other address the data's; `Memory.Memory.MemRead` and `MemWrite` use it |
| Memory.FirstSegment | src/mem.c:50-54 | The first segment holding the address, or none exactly when no earlier segment holds it |
| Memory.GetProtBits | src/mem.c:49-56 | The protection of the first non-kernel segment holding the address, else the kernel segment's |
| Memory.Bytes | src/mem.c:69-77 | The n bytes read are those at addr, addr+1, ... modulo 2^64 |
| Memory.LEBytes | src/mem.c:130-136 | Byte k of a little-endian write is byte k of the value |
| Memory.BEBytes | src/mem.c:138-144 | Byte k of a big-endian write is byte width-1-k of the value |
| Memory.StoreSeqHits | src/mem.c:133-134 | A write of at most eight bytes leaves byte k at addr + k |
| Memory.StoreSeqMisses | src/mem.c:133-134 | A write leaves every other address unchanged |
| Memory.WriteThenRead | src/mem.c:67-79 | Reading back a write in the same byte order yields the value modulo 256^width |
| Memory.WordWriteThenRead | src/mem.c:67-79 | An eight-byte write reads back as the whole value |
| Memory.WriteElsewhere | src/mem.c:130-144 | A write changes no address outside its own bytes |
| Memory.StoreOne | src/mem.c:221-223 | A one-byte little-endian write stores that byte |
| Memory.WriteBacksElsewhere | src/mem.c:220-223 | A sequence of write-backs changes no address outside the records' bytes |
| Memory.Tick | src/mem.c:198-208 | After a miss the countdown is on the missed block, and it is active exactly while cycles remain |
| Memory.MissTakesD | src/mem.c:198-208 | With latency d ≥ 1, a fresh miss is filled on exactly the d-th consecutive miss on its block |
| Memory.OtherBlockRestarts | src/mem.c:198-204 | A miss on another block abandons the countdown in progress and restarts at d |
| Memory.ZeroLatencyUnderflows | src/mem.c:200-205 | With latency 0 the countdown wraps to 2^64-1 instead of filling |
| Memory.WriteBackAligned | src/mem.c:268-273 | The recorded eviction address is already block-aligned |
| Memory.HitStep | src/mem.c:196 | A hit, which touches the line of `cur`, keeps the lines well-formed |
| Memory.FillStep | src/mem.c:210-228 | A fill keeps the lines well-formed. It installs the block read from the store at the fill base, counts one miss and the eviction, advances the clock and applies the victim's write-back |
| Memory.AccessStep | src/mem.c:196-228 | One byte of an access: a hit, a miss still waiting on its countdown, or a fill. The lines stay well-formed |
| Memory.AccessStepHit | src/mem.c:196 | A resident byte is the hit, resolved |
| Memory.AccessStepWait | src/mem.c:198-208 | An absent byte whose countdown still runs counts a miss, ticks the countdown and is not resolved |
| Memory.AccessStepFill | src/mem.c:198-228 | An absent byte whose countdown runs out is the fill, resolved |
| Memory.FillStepOf | src/mem.c:210-228 | A state that agrees with a fill field by field (lines, counters, clock, countdown, write-back) is that fill |
| Memory.AccessStepCounts | src/mem.c:196-208 | Each step counts exactly one hit or one miss, and a step left unresolved leaves the countdown running |
| Memory.AccessStepResident | src/mem.c:196-217 | A resolved step leaves its byte resident |
| Memory.AccessStepCoherent | src/mem.c:196-217 | Each step keeps a coherent cache coherent |
| Memory.AccessBytes | src/mem.c:195-230 | The fold over the first n bytes keeps the lines well-formed |
| Memory.AccessByte | src/mem.c:195-230 | Byte k of the fold keeps the lines well-formed |
| Memory.AccessBytesNext | src/mem.c:195-230 | While every byte so far was resolved, one more byte is one more `AccessStep` |
| Memory.AccessBytesStops | src/mem.c:203-206 | Once a byte is left unresolved, the later bytes change nothing: the early return |
| Memory.AccessByteStopped | src/mem.c:203-206 | A byte after a stop changes nothing |
| Memory.AccessBytesCounts | src/mem.c:195-230 | A completed access counts exactly n hits and misses. A stopped one counts at least one and at most n |
| Memory.AccessBytesWaits | src/mem.c:203-206 | An access that stops leaves the countdown running |
| Memory.AccessBytesCoherent | src/mem.c:195-230 | The access keeps a coherent cache coherent |
| Memory.AccessBytesLast | src/mem.c:195-230 | A completed access leaves its last byte resident |
| Memory.AccessBytesAllHit | src/mem.c:196 | If every byte is resident from the start, all are hits. The store, the countdown and the miss count are unchanged, and the remaining bytes stay resident |
| Memory.AccessBytesSummary | src/mem.c:195-230 | Gathers what the loops promise about the fold: stalls, last byte resident, counts, all-hit accesses and coherence |
| Memory.Memory.constructor | src/mem.c:24-29 | The store is empty, nothing is in flight and the status is ready |
| Memory.Memory.ReadLE | src/mem.c:67-72 | The loop returns the little-endian value of the width bytes at addr |
| Memory.Memory.ReadBE | src/mem.c:74-79 | The loop returns the big-endian value of the width bytes at addr |
| Memory.Memory.WriteByte | src/mem.c:118-128 | The byte is stored and the write succeeds |
| Memory.Memory.WriteLE | src/mem.c:130-136 | Stores the little-endian bytes; fails exactly for width 0 |
| Memory.Memory.WriteBE | src/mem.c:138-144 | Stores the big-endian bytes; fails exactly for width 0 |
| Memory.SpecialRead | src/mem.c:81-101 | The reserved-address read: null is the outcome `NullRead`, the console a read without value, the sentinel zero; `Memory.Memory.MemRead` and `MemReadCache` return it unchanged |
| Memory.SpecialWrite | src/mem.c:146-167 | The reserved-address write: null and console succeed, the sentinel is the failed assertion; `Memory.Memory.MemWrite` and `MemWriteCache` return it with the store unchanged |
| Memory.Memory.MemRead | src/mem.c:103-116 | Reserved addresses go to the special read; others read their width in the segment's byte order |
| Memory.Memory.MemWrite | src/mem.c:169-182 | Reserved addresses go to the special write and leave the store unchanged. Others write in the segment's byte order |
| Memory.Memory.FetchBlock | src/mem.c:212-215 | The fill buffer holds the n bytes of the store at the base |
| Memory.Memory.WriteBack | src/mem.c:221-223 | The record's bytes are stored at the base, in order |
| Memory.Memory.Resolve | src/mem.c:196-217 | Hits exactly when resident: then the hit state, one more hit, nothing in flight changed. A miss counts a miss and ticks its block's countdown; once it runs out, the fill state with the store's block, the victim's record, one clock step and the eviction counted as in `select_line`; until then no line changes. A resolved byte is resident and coherence is kept |
| Memory.Memory.Miss | src/mem.c:198-217 | On an absent byte: the countdown ticks; when it runs out the victim's record is returned, the line filled from the store, the clock advanced and the eviction counted; the byte is then resident and coherence kept |
| Memory.Memory.Access | src/mem.c:196-228 | As `Resolve` for the cache and the counters. The store changes only by the write-back: exactly when a fill evicted a valid dirty line, its record is written at its block address (read path) or its recorded address (write path); otherwise the store is unchanged. If not ready, neither cache nor store changed |
| Memory.Memory.Step | src/mem.c:196-228 | One byte of the loop is exactly one `AccessStep` on the state. This implies: one hit or miss counted, at most one block-aligned write-back applied to the store, and none on a hit |
| Memory.Memory.NextAddress | src/mem.c:229 | `current_address++` moves the cursor from byte i to byte i+1 of the access, modulo 2^64 |
| Memory.Memory.ResolveNext | src/mem.c:195-229 | One turn of the byte loop takes `AccessBytes` from i bytes to i+1. The write-back log is extended, so the store is still the log applied to the original |
| Memory.Memory.ResolveLoop | src/mem.c:195-230 | The byte loop: the final state and readiness are `AccessBytes` over the width, stopping at the first byte left in flight. The store is the write-back log applied to the original, with at most one write-back per miss |
| Memory.Memory.ResolveBytes | src/mem.c:195-230 | The byte loop is `AccessBytes` over the width. The store changes only by block-aligned write-backs, at most one per miss. A completed loop counts one hit or miss per byte and leaves the last byte resident; a stalled one stops with the fill in flight. If every byte was resident, it completes with no write-back and no miss |
| Memory.Memory.StoreWord | src/mem.c:282 | Succeeds exactly when all eight bytes are cached. The word then reads back from the cache; otherwise nothing changes |
| Memory.Memory.MemReadCache | src/mem.c:185-235 | Reserved addresses go to the special read, changing nothing. Otherwise readiness and the final cache, counters, countdown and store are exactly `AccessBytes` over the width, filling from the block of `addr`. The result is in flight (status and countdown set) or complete (status ready, last byte resident, one hit or miss per byte). The store changes only by the write-backs; if every byte hit, it is unchanged and no miss is counted. Coherence is kept |
| Memory.Memory.FinishWrite | src/mem.c:282-284 | The final word store succeeds exactly when all eight bytes are cached. On success the lines are `WriteWord` of the old lines, the status is ready and the word reads back. Otherwise the result is `NullLineStore`, and the lines and the status are unchanged |
| Memory.Memory.MemWriteCache | src/mem.c:237-285 | Reserved addresses go to the special write. Otherwise the final state is `AccessBytes` over the width with fill base `addr`: on success followed by `WriteWord` of the data, and on `NullLineStore` left as is. The write fails exactly when that fold stops at a fill in flight. An unfinished fill fails with status in flight. Success leaves the status ready and all eight bytes of the value cached, reading back as the value. The store changes only by the write-backs, one hit or miss is counted per byte, and if every byte hit the store is unchanged. Coherence is kept |
| Hazard.Decide | src/pipe/hazard_control.c:65-87 | Load-use stalls fetch and decode and bubbles execute. Otherwise a mispredicted branch bubbles decode and execute, and otherwise a return bubbles decode. Decode is never both stalled and bubbled, and no hazard means no flag |
| Hazard.LoadUse | src/pipe/hazard_control.c:52-55 | A `LDUR` in execute whose destination is a source in decode; `Hazard.Decide` states the flags it raises |
| Hazard.MispredBranch | src/pipe/hazard_control.c:57-59 | A `B.cond` in execute whose condition failed; `Hazard.Decide` states the flags it raises |
| Hazard.RetHazard | src/pipe/hazard_control.c:61-63 | A `RET` in decode; `Hazard.Decide` states the flags it raises |
| Hazard.StampReg | src/pipe/hazard_control.c:65-87 | Only the flags change; the input snapshot gets the given flags, the output none |
| Hazard.ResetStall | src/pipe/hazard_control.c:16-29 | Every stall flag of the five registers is cleared and nothing else changes |
| Hazard.ResetBubble | src/pipe/hazard_control.c:31-44 | Every bubble flag of the five registers is cleared and nothing else changes |
| Hazard.Reset | src/pipe/hazard_control.c:46-50 | Every flag is cleared and nothing else changes |
| Hazard.HandleHazards | src/pipe/hazard_control.c:65-87 | After clearing, the decided flags are set on the input snapshots of fetch, decode and execute; nothing else changes |
| Stages.FetchAddressSpec | src/instr.c:302-304 | Fetch's address follows `select_PC` applied to the memory-stage and execute-stage inputs |
| Stages.FetchStage | src/instr.c:302-310 | Fetch; `Stages.FetchAddressSpec` states its address choice and `Stages.FetchKeepsAlignment` that it keeps PCs word-aligned |
| Stages.FetchKeepsAlignment | src/instr.c:302-310 | When the addresses `select_PC` chooses from are word-aligned, so are the fetch address, the successor and the prediction |
| Stages.DecodeSrc1 | src/instr.c:327-338 | The first source is 31 for `MOVZ`, else bits [5, 10) |
| Stages.DecodeSrc2 | src/instr.c:340-347 | The second source is bits [0, 5) for stores, else bits [16, 21) |
| Stages.DecodeRequest | src/instr.c:349-354 | The register file receives: both sources; X30 as destination for `BL`, else write-back's destination; the write-back value; the write-back enables |
| Stages.DecodeStageSpec | src/instr.c:323-371 | Decode writes the control signals, ALU op, operands, immediate and condition. It also writes bits [0, 5) as destination, the move shift, and `OP_ERROR` for `MOVZ`; nothing else changes |
| Stages.DecodeStage | src/instr.c:323-371 | Decode; `Stages.DecodeStageSpec` and `Stages.InstructionFlow` state its outputs |
| Stages.AluB | src/instr.c:387-391 | The second ALU operand is the immediate, as 64 bits, when selected, else the second operand |
| Stages.ExecuteStage | src/instr.c:383-400 | Execute; `Stages.InstructionFlow` states what it passes on |
| Stages.MemoryStage | src/instr.c:411-421 | Memory; `Stages.InstructionFlow` states its data-memory request and what it passes on |
| Stages.WbackStage | src/instr.c:432-444 | Write-back; `Stages.InstructionFlow` states its value |
| Stages.InstructionFlow | src/instr.c:323-444 | From decode to write-back under the simulator's units: opcode (`OP_ERROR` for `MOVZ`), destination and the memory and write-back signals reach memory and write-back unchanged. The data memory is read exactly for a load and written exactly for a store, at the ALU result with the second register operand. The write-back value is the loaded value exactly for a load, else the ALU result |
| Proc.Latch | src/proc.c:65-67 | Fetch's input takes the predicted PC, and nothing else changes, when no output is stalled |
| Proc.RunStages | src/proc.c:70-74 | The five stages in reverse order on the cycle's input snapshots; `Proc.RunStagesKeepsInputs` states what it leaves alone |
| Proc.RunStagesKeepsInputs | src/proc.c:70-74 | Running the stages changes no input snapshot and not the PC |
| Proc.HazardSrc1 | src/proc.c:77 | The driver's first hazard source is decode's first source |
| Proc.HazardSrc2 | src/proc.c:78 | The driver's second hazard source is a register number |
| Proc.HazardDst | src/proc.c:79 | X30 for `BL`, else the destination entering execute |
| Proc.HazardSourceMismatch | src/proc.c:77-78 | The second hazard source differs from decode's exactly for `STURB` with differing fields |
| Proc.HazardDirective | src/proc.c:77-81 | The hazard unit's decision on the driver's inputs; `Proc.HazardsInert` states that it has no effect |
| Proc.StampRegs | src/proc.c:81 | After the hazard unit no output snapshot is flagged, and every output is its old one with flags cleared |
| Proc.UpdatePC | src/proc.c:95-97 | The PC takes the prediction when fetch's output is not stalled |
| Proc.Forward | src/proc.c:107-109 | A bubbled register passes on the unstalled bubble record, any other its output |
| Proc.CopyOne | src/proc.c:101-113 | One iteration of the copy loop; `Proc.CopyUpToSpec` states its effect |
| Proc.CopyUpTo | src/proc.c:100-114 | The first n iterations; `Proc.CopyUpToSpec` states the table they leave |
| Proc.Advance | src/proc.c:100-114 | The whole copy loop; `Proc.AdvanceSpec` and `Proc.AdvanceQuiet` state its effect |
| Proc.CopyUpToSpec | src/proc.c:100-114 | After n copy iterations, the first n registers forward and the following inputs have received, unless stalled; the rest is unchanged |
| Proc.AdvanceSpec | src/proc.c:100-114 | A bubbled register sends a `NOP` on. An unstalled one sends its output; a stalled one leaves the next input. Write-back's output and fetch's input are untouched |
| Proc.AdvanceQuiet | src/proc.c:100-114 | With no output flagged, every output moves one register on unchanged |
| Proc.Step | src/proc.c:64-118 | One cycle: latch, stages, hazard unit, PC update, copy; `Proc.HazardsInert` states its effect |
| Proc.HazardsInert | src/proc.c:64-119 | Whatever hazard is detected, a cycle sets the PC to the prediction and moves every output on with its flags cleared, leaving no output flagged |
| Proc.LatchQuiet | src/proc.c:65-67 | With no output flagged, fetch's input receives the prediction |
| Proc.Halted | src/proc.c:119 | The loop condition: decode produced a `RET` to the sentinel; `Proc.Processor.RunCycles` stops at its first occurrence |
| Proc.ResetState | src/proc.c:35-57 | All snapshots are bubbles and PC and prediction are the entry. SP is 8 below the kernel segment, the flags hold Z only, and X30 holds the sentinel |
| Proc.CopyStages | src/proc.c:100-114 | The in-place copy loop leaves the table as the copy specification says |
| Proc.Processor.constructor | src/proc.c:48-54 | Five registers of bubble records, the simulator's stage logic, and zero globals |
| Proc.Processor.ResetRun | src/proc.c:35-57 | The processor is put in the reset state |
| Proc.Processor.RunAllStages | src/proc.c:70-74 | The stages, run in place, leave the state `RunStages` gives |
| Proc.Processor.LatchPredictedPC | src/proc.c:65-67 | The latch in place is `Latch` |
| Proc.Processor.CheckHazards | src/proc.c:77-81 | The hazard inputs and the hazard unit, in place, flag the registers as `StampRegs` says |
| Proc.Processor.Cycle | src/proc.c:64-118 | One cycle in place is one step of the cycle function |
| Proc.Processor.RunCycles | src/proc.c:63-119 | Runs at least one cycle and at most the limit. It stops at the first cycle that leaves decode returning to the sentinel, or at the limit. The state is the count-fold iteration of the cycle |
| Proc.Processor.RunElf | src/proc.c:33-121 | From the reset state, runs the cycle loop as `RunCycles` states |

## Left out

- Console I/O: `_mem_read_special` and `_mem_write_special` read and print numbers. A console read is an outcome without a value, and a console write succeeds.
- A null read exits the simulator; it is an outcome, `NullRead`.
- Reserved writes other than null and console are an `assert(false)`; they are an outcome too.
- Paging: `get_page` and `add_page` are not part of this model. The store is a map in which an address on no page reads as zero.
- The page protection passed to `add_page` is not modelled.
- `mem.h`, `cache.h`, `instr.h` and `machine.h` are not part of this model. The opcode order is taken from `opcode_names`.
- Memory.Memory.MemReadCache: returns no value for a completed read. `get_word_cache` writes through a NULL pointer and never delivers its word, and the read of the fill buffer at `mem.c:218` indexes by words, past the buffer.
- Memory.Memory.Access: writes back only the min(8, B) bytes the eviction record holds. For B > 8 the source reads past the record.
- Memory.Memory.WriteLE, Memory.Memory.WriteBE and Memory.Memory.MemWrite: "fails exactly for width 0" rests on `WRITE_FAILURE | WRITE_SUCCESS` being `WRITE_SUCCESS`. The codes are defined in `mem.h`, which is not part of this model.
- Cache.Cache.StoreByte and Cache.Cache.SetWordCache: a byte whose line is missing is skipped. `set_word_cache` dereferences the NULL line there.
- CacheSpec.FillLine: for B < 4 (b = 0 or 1), `handle_miss` still copies four bytes. That writes past the B-byte line and reads past the B-byte fill buffer, a heap overflow with no defined result. The model copies only the B bytes the line holds.
- Cache geometries with s > 30, b > 30 or s + b > 31 are not modelled: the C masks are then undefined signed shifts. A set has at least one line, because `select_line` reads line 0.
- Memory.Memory.MemWriteCache: a missing line in the final `set_word_cache` is reported as the outcome `NullLineStore` rather than a crash.
- Memory.Memory.MemRead: widths are limited to at most 8 bytes, the widths the simulator uses.
- Memory.Memory.MemWrite: widths are limited to at most 8 bytes, as in the read.
- The in-flight status is recorded but never consulted by the driver, as in the source.
- Byte order other than little/big, the `default` branches of the switches, cannot occur in the model's `ByteOrder` type.
- Cache counters and the LRU clock are unbounded naturals; the source's `int` and `uword_t` overflow is not modelled.
- `create_checkpoint`, `free_cache` and `display_set` are not modelled: copying, freeing and printing.
- `forward.c` is an empty stub and is not modelled.
- Debug printing and `show_instr` are not modelled.
- The copy loop's log message for a register both stalled and bubbled is not modelled.
- The instruction memory, register file, ALU and data memory are not modelled. They are arbitrary functions (`Stages.Units`), and their error outputs are ignored, as in the source.
- `PACK_CC(0, 1, 0, 0)` is taken to set only the Z flag, because its definition is not part of this model.
- `GETBF` in decode is taken to mean `safe_GETBF`.
- Proc.Processor.RunElf: returns the instruction count instead of `EXIT_SUCCESS`.
- Proc.Processor.RunElf: the limit `MAX_NUM_INSTR` is the parameter `maxInstr`.
- Proc.Processor.RunCycles: the count `num_instr` is an unbounded natural, as C's `unsigned` counter cannot wrap before reaching the limit.
- The driver is generic over the stage logic (`Stages.StageLogic`); `Stages.Logic` supplies the simulator's own.
- Proc.Processor.Cycle: its contract is stated through a ghost field `next` that stands for `Step` under the processor's stage logic.
- Concurrency and timing outside the cycle count are not modelled.
