/**
 * The memory access layer of `mem.c`: the reserved addresses, the byte
 * order and protection of segments, little- and big-endian reads and writes
 * over the byte store, and the cached access path with its in-flight miss
 * countdown.
 *
 * The paged store is a map from addresses to bytes; an address on no page
 * reads as zero, as a freshly added page does. Addresses wrap around at
 * 2^64, as the C `uint64_t` arithmetic does.
 */
module Memory {
  import opened Bits
  import opened Wrappers
  import opened CacheSpec
  import Cache

  const NULL_ADDR: u64 := 0
  const IO_CHAR_ADDR: u64 := 0xFFFF_FFFF_FFFF_FFFF
  const RET_FROM_MAIN_ADDR: u64 := IO_CHAR_ADDR - 4

  /** `is_special_addr`: the null guard, the console address and the return-from-main address. */
  function IsSpecialAddr(addr: u64): (r: bool)
    ensures r <==> addr == 0 || addr == 0xFFFF_FFFF_FFFF_FFFF || addr == 0xFFFF_FFFF_FFFF_FFFB
  {
    addr == NULL_ADDR || addr == IO_CHAR_ADDR || addr == RET_FROM_MAIN_ADDR
  }

  datatype ByteOrder = LittleEndianOrder | BigEndianOrder

  /** `get_byte_order`: the text segment `[textStart, dataStart)` has the code's order, the rest the data's. */
  function GetByteOrder(textStart: u64, dataStart: u64, codeOrder: ByteOrder, dataOrder: ByteOrder, addr: u64): ByteOrder
  {
    if textStart <= addr < dataStart then codeOrder else dataOrder
  }

  /*
   * Segment protection.
   */

  /** Segment `i` spans `[starts[i], starts[i + 1])`. */
  predicate InSegment(starts: seq<u64>, i: nat, addr: u64)
    requires i + 1 < |starts|
  {
    starts[i] <= addr < starts[i + 1]
  }

  /** The first of the segments `0 .. n - 1` that holds `addr`. */
  function FirstSegment(starts: seq<u64>, addr: u64, n: nat): (r: Option<nat>)
    requires n < |starts|
    ensures r.Some? ==> r.value < n && InSegment(starts, r.value, addr)
    ensures r.Some? ==> forall j :: 0 <= j < r.value ==> !InSegment(starts, j, addr)
    ensures r.None? <==> forall j :: 0 <= j < n ==> !InSegment(starts, j, addr)
  {
    if n == 0 then None
    else
      var r := FirstSegment(starts, addr, n - 1);
      if r.Some? then r
      else if InSegment(starts, n - 1, addr) then Some(n - 1)
      else None
  }

  /**
   * `get_prot_bits`: the protection of the first segment below the kernel
   * segment that holds `addr`, and otherwise the kernel segment's.
   */
  method GetProtBits(starts: seq<u64>, prot: seq<Byte>, kernel: nat, addr: u64) returns (p: Byte)
    requires kernel < |starts| && kernel < |prot|
    ensures p == match FirstSegment(starts, addr, kernel) case Some(i) => prot[i] case None => prot[kernel]
  {
    for i := 0 to kernel
      invariant FirstSegment(starts, addr, i).None?
    {
      if starts[i] <= addr && addr < starts[i + 1] {
        assert InSegment(starts, i, addr);
        return prot[i];
      }
    }
    return prot[kernel];
  }

  /*
   * The byte store.
   */

  type Store = map<u64, Byte>

  /** `_mem_read_byte`: the byte at `a`; an address on no page yet reads as zero. */
  function ByteAt(m: Store, a: u64): Byte
  {
    if a in m then m[a] else 0
  }

  /** The `n` bytes at `addr`, `addr + 1`, ... */
  function Bytes(m: Store, addr: u64, n: nat): (bs: seq<Byte>)
    ensures |bs| == n
    ensures forall k :: 0 <= k < n ==> bs[k] == ByteAt(m, Spot(addr, k))
  {
    seq(n, k requires 0 <= k < n => ByteAt(m, Spot(addr, k)))
  }

  /** The store after writing `bs[k]` at `addr + k`, for k = 0, 1, ... in turn. */
  function StoreSeq(m: Store, addr: u64, bs: seq<Byte>): Store
    decreases |bs|
  {
    if bs == [] then m
    else StoreSeq(m, addr, bs[..|bs| - 1])[Spot(addr, |bs| - 1) := bs[|bs| - 1]]
  }

  /** The bytes `_mem_write_LE` stores: byte k of `data` at `addr + k`. */
  function LEBytes(data: u64, w: nat): (bs: seq<Byte>)
    ensures |bs| == w && forall k :: 0 <= k < w ==> bs[k] == ByteOf(data, k)
  {
    seq(w, k requires 0 <= k < w => ByteOf(data, k))
  }

  /** The bytes `_mem_write_BE` stores: byte w - 1 - k of `data` at `addr + k`. */
  function BEBytes(data: u64, w: nat): (bs: seq<Byte>)
    ensures |bs| == w && forall k :: 0 <= k < w ==> bs[k] == ByteOf(data, w - 1 - k)
  {
    seq(w, k requires 0 <= k < w => ByteOf(data, w - 1 - k))
  }

  /** The store after a `width`-byte write of `data` at `addr` in the given order. */
  function Stored(m: Store, order: ByteOrder, addr: u64, data: u64, width: nat): Store
  {
    StoreSeq(m, addr, if order == LittleEndianOrder then LEBytes(data, width) else BEBytes(data, width))
  }

  /** The value of the `width` bytes at `addr` in the given order. */
  function Load(m: Store, order: ByteOrder, addr: u64, width: nat): (v: u64)
    requires width <= 8
  {
    var bs := Bytes(m, addr, width);
    LittleEndianBound(bs);
    BigEndianBound(bs);
    Pow256Mono(width, 8);
    Pow256Eight();
    if order == LittleEndianOrder then LittleEndian(bs) else BigEndian(bs)
  }

  /** A write of at most eight bytes puts byte k at `addr + k`... */
  lemma {:induction false} StoreSeqHits(m: Store, addr: u64, bs: seq<Byte>, k: nat)
    requires k < |bs| <= 8
    ensures ByteAt(StoreSeq(m, addr, bs), Spot(addr, k)) == bs[k]
  {
    var n := |bs| - 1;
    if k < n {
      StoreSeqHits(m, addr, bs[..n], k);
      WrapDistinct(addr, k, n);
    }
  }

  /** ... and leaves every other address as it was. */
  lemma {:induction false} StoreSeqMisses(m: Store, addr: u64, bs: seq<Byte>, a: u64)
    requires forall k :: 0 <= k < |bs| ==> a != Spot(addr, k)
    ensures ByteAt(StoreSeq(m, addr, bs), a) == ByteAt(m, a)
  {
    if bs != [] {
      StoreSeqMisses(m, addr, bs[..|bs| - 1], a);
    }
  }

  /** Reading back a write in the same byte order yields the low `width` bytes of the value. */
  lemma WriteThenRead(m: Store, order: ByteOrder, addr: u64, data: u64, width: nat)
    requires width <= 8
    ensures Load(Stored(m, order, addr, data, width), order, addr, width) == data % Pow256(width)
  {
    var bs := if order == LittleEndianOrder then LEBytes(data, width) else BEBytes(data, width);
    var got := Bytes(StoreSeq(m, addr, bs), addr, width);
    forall k | 0 <= k < width
      ensures got[k] == bs[k]
    {
      StoreSeqHits(m, addr, bs, k);
    }
    if order == LittleEndianOrder {
      LittleEndianOfBytes(got, data);
    } else {
      BigEndianOfBytes(got, data);
    }
  }

  /** A full eight-byte write reads back as the whole value. */
  lemma WordWriteThenRead(m: Store, order: ByteOrder, addr: u64, data: u64)
    ensures Load(Stored(m, order, addr, data, 8), order, addr, 8) == data
  {
    WriteThenRead(m, order, addr, data, 8);
    Pow256Eight();
  }

  /** A write changes nothing outside its own bytes. */
  lemma WriteElsewhere(m: Store, order: ByteOrder, addr: u64, data: u64, width: nat, a: u64)
    requires forall k :: 0 <= k < width ==> a != Spot(addr, k)
    ensures ByteAt(Stored(m, order, addr, data, width), a) == ByteAt(m, a)
  {
    var bs := if order == LittleEndianOrder then LEBytes(data, width) else BEBytes(data, width);
    StoreSeqMisses(m, addr, bs, a);
  }

  /** Writing a single byte `x` through `_mem_write_LE` stores `x` at `a`. */
  lemma StoreOne(m: Store, a: u64, x: Byte)
    ensures StoreSeq(m, a, LEBytes(x, 1)) == m[a := x]
  {
    var bs := LEBytes(x, 1);
    assert bs[..0] == [];
    assert bs[0] == x;
  }

  /*
   * The in-flight miss countdown.
   */

  /** `inflight`, `inflight_addr` and `inflight_cycles`. */
  datatype Inflight = Inflight(active: bool, addr: u64, cycles: u64)

  /**
   * One miss on `block`: a miss on another block, or with nothing in flight,
   * restarts the countdown at `d`; the countdown then drops by one, modulo
   * 2^64 as the `uint64_t` does, and the fill happens when it reaches zero.
   */
  function Tick(f: Inflight, block: u64, d: u64): (f': Inflight)
    ensures f'.addr == block
    ensures f'.active <==> f'.cycles > 0
  {
    var start := if f.addr != block || !f.active then Inflight(true, block, d) else f;
    var cycles := Wrap64(start.cycles - 1);
    Inflight(cycles > 0, block, cycles)
  }

  /** `k` consecutive misses on `block`. */
  function Ticks(f: Inflight, block: u64, d: u64, k: nat): Inflight
  {
    if k == 0 then f else Tick(Ticks(f, block, d, k - 1), block, d)
  }

  /**
   * With a latency `d >= 1`, a miss on a block that is not in flight is
   * filled on exactly the `d`-th consecutive miss: after k <= d misses the
   * fill is pending with d - k to go while k < d.
   */
  lemma {:induction false} MissTakesD(f: Inflight, block: u64, d: u64, k: nat)
    requires 1 <= k <= d
    requires f.addr != block || !f.active
    ensures Ticks(f, block, d, k) == Inflight(k < d, block, d - k)
  {
    if k > 1 {
      MissTakesD(f, block, d, k - 1);
    }
  }

  /** A miss on another block abandons the countdown in progress. */
  lemma OtherBlockRestarts(f: Inflight, block: u64, d: u64)
    requires f.active && f.addr != block && d >= 1
    ensures Tick(f, block, d) == Inflight(d > 1, block, d - 1)
  {
  }

  /**
   * With `d = 0` the countdown underflows: the first miss leaves 2^64 - 1
   * calls to go instead of filling at once.
   */
  lemma ZeroLatencyUnderflows(f: Inflight, block: u64)
    requires f.addr != block || !f.active
    ensures Tick(f, block, 0) == Inflight(true, block, TWO64 - 1)
  {
  }

  /*
   * Outcomes.
   */

  /** `dmem_status`. */
  datatype MemStatus = Ready | InFlight

  /** `write_ret_code_t`; `WRITE_FAILURE` is the value that `|=` with success turns into success. */
  datatype WriteCode = WriteFailure | WriteSuccess

  function Or(a: WriteCode, b: WriteCode): WriteCode
  {
    if a == WriteSuccess || b == WriteSuccess then WriteSuccess else WriteFailure
  }

  datatype ReadResult =
    | Value(v: u64)
      /** A null read: the simulator exits. */
    | NullRead
      /** A number read from the console; its value is not modelled. */
    | ConsoleRead
      /** The fill is still in flight; the access must be repeated. */
    | NotReady
      /** A completed cached read; the word `get_word_cache` would deliver is not modelled. */
    | CachedReadDone

  datatype WriteResult =
    | Written(code: WriteCode)
      /** `assert(false)`: a write to the return-from-main address. */
    | FailedAssertion
      /** `set_word_cache` reached a byte that no line holds and dereferenced NULL. */
    | NullLineStore

  /** `_mem_read_special`. */
  function SpecialRead(addr: u64): ReadResult
  {
    if addr == NULL_ADDR then NullRead
    else if addr == IO_CHAR_ADDR then ConsoleRead
    else Value(0)
  }

  /** `_mem_write_special`: a null write is a successful no-op, console output succeeds. */
  function SpecialWrite(addr: u64): WriteResult
  {
    if addr == NULL_ADDR || addr == IO_CHAR_ADDR then Written(WriteSuccess)
    else FailedAssertion
  }

  /** A write-back of an evicted dirty line: where its bytes went and what they were. */
  datatype WriteBackRec = WriteBackRec(base: u64, data: seq<Byte>)

  /** The store after the write-backs `wbs`, in order. */
  function WriteBacks(m: Store, wbs: seq<WriteBackRec>): Store
    decreases |wbs|
  {
    if wbs == [] then m
    else StoreSeq(WriteBacks(m, wbs[..|wbs| - 1]), wbs[|wbs| - 1].base, wbs[|wbs| - 1].data)
  }

  lemma WriteBacksAppend(m: Store, wbs: seq<WriteBackRec>, more: seq<WriteBackRec>)
    requires |more| <= 1
    ensures WriteBacks(WriteBacks(m, wbs), more) == WriteBacks(m, wbs + more)
  {
    if more == [] {
      assert wbs + more == wbs;
    } else {
      assert (wbs + more)[..|wbs + more| - 1] == wbs;
    }
  }

  /** Each record holds the first eight bytes of a block, or the whole of a smaller one, at a block base. */
  predicate BlockRecords(g: Geometry, wbs: seq<WriteBackRec>)
  {
    forall j :: 0 <= j < |wbs| ==> |wbs[j].data| == Min(8, Pow2(g.b)) && BlockAddress(g, wbs[j].base) == wbs[j].base
  }

  lemma BlockRecordsAppend(g: Geometry, wbs: seq<WriteBackRec>, more: seq<WriteBackRec>)
    requires BlockRecords(g, wbs) && BlockRecords(g, more)
    ensures BlockRecords(g, wbs + more)
  {
  }

  /** Bytes `from` to `width - 1` of the access at `addr` are all resident. */
  predicate ResidentFrom(g: Geometry, st: seq<seq<Line>>, addr: u64, from: nat, width: nat)
  {
    WellFormed(g, st) && forall k :: from <= k < width ==> Resident(g, st, Spot(addr, k))
  }

  lemma ResidentFirst(g: Geometry, st: seq<seq<Line>>, addr: u64, from: nat, width: nat)
    requires from < width && ResidentFrom(g, st, addr, from, width)
    ensures WellFormed(g, st) && Resident(g, st, Spot(addr, from))
  {
  }

  /** A hit leaves resident every byte of an access that was resident. */
  lemma HitKeepsResidents(g: Geometry, st: seq<seq<Line>>, cur: u64, op: Op, next: nat, addr: u64, from: nat, width: nat)
    requires WellFormed(g, st) && Resident(g, st, cur)
    requires ResidentFrom(g, st, addr, from, width)
    ensures WellFormed(g, HitState(g, st, cur, op, next))
    ensures ResidentFrom(g, HitState(g, st, cur, op, next), addr, from, width)
  {
    HitKeepsCoherent(g, st, cur, op, next);
    forall k | from <= k < width
      ensures Resident(g, HitState(g, st, cur, op, next), Spot(addr, k))
    {
      HitKeepsLookups(g, st, cur, op, next, Spot(addr, k));
    }
  }

  /** Stepping the access cursor: one past byte i is byte i + 1. */
  lemma SpotNext(addr: u64, i: nat)
    ensures Wrap64(Spot(addr, i) as int + 1) == Spot(addr, i + 1)
  {
    WrapAdd(addr + i, 1);
  }

  /** Write-backs change no byte outside the records they write. */
  lemma {:induction false} WriteBacksElsewhere(m: Store, wbs: seq<WriteBackRec>, a: u64)
    requires forall j, k :: 0 <= j < |wbs| && 0 <= k < |wbs[j].data| ==> a != Spot(wbs[j].base, k)
    ensures ByteAt(WriteBacks(m, wbs), a) == ByteAt(m, a)
    decreases |wbs|
  {
    if wbs != [] {
      var n := |wbs| - 1;
      WriteBacksElsewhere(m, wbs[..n], a);
      StoreSeqMisses(WriteBacks(m, wbs[..n]), wbs[n].base, wbs[n].data, a);
    }
  }

  /**
   * What the cached access path changes: the cache's lines, its hit, miss
   * and eviction counters and its clock, the miss countdown, and the store.
   */
  datatype Layer = Layer(sets: seq<seq<Line>>, hits: nat, misses: nat, dirtyEvictions: nat, cleanEvictions: nat,
                         nextLru: nat, inflight: Inflight, bytes: Store)

  /** `check_hit` finding `cur`: its line is touched and the hit counted. */
  function HitStep(g: Geometry, st: Layer, cur: u64, op: Op): (r: Layer)
    requires WellFormed(g, st.sets) && Resident(g, st.sets, cur)
    ensures WellFormed(g, r.sets)
  {
    HitKeepsCoherent(g, st.sets, cur, op, st.nextLru);
    st.(sets := HitState(g, st.sets, cur, op, st.nextLru), hits := st.hits + 1, nextLru := st.nextLru + 1)
  }

  /**
   * A miss on `cur` whose countdown, now `countdown`, has run out:
   * `handle_miss` fills `cur`'s block with the store's bytes at `fillBase`
   * and counts the eviction, and a valid dirty victim is written back at
   * its block base (`aligned`) or at its recorded address.
   */
  function FillStep(g: Geometry, st: Layer, cur: u64, op: Op, fillBase: u64, aligned: bool, countdown: Inflight): (r: Layer)
    requires WellFormed(g, st.sets)
    ensures WellFormed(g, r.sets)
  {
    var block := BlockAddress(g, cur);
    var lines := st.sets[SetIndex(g, block)];
    var victim := lines[Victim(lines)];
    var e := EvictedOf(g, victim, block);
    var full := FirstInvalid(lines, g.E).None?;
    var incoming := Bytes(st.bytes, fillBase, Pow2(g.b));
    var wb := if e.valid && e.dirty then [WriteBackRec(if aligned then BlockAddress(g, e.addr) else e.addr, e.data)] else [];
    BlockAddressFields(g, cur);
    FillMakesResident(g, st.sets, block, op, Some(incoming), st.nextLru);
    Layer(FillState(g, st.sets, block, op, Some(incoming), st.nextLru), st.hits, st.misses + 1,
          if full && victim.dirty then st.dirtyEvictions + 1 else st.dirtyEvictions,
          if full && !victim.dirty then st.cleanEvictions + 1 else st.cleanEvictions,
          st.nextLru + 1, countdown, WriteBacks(st.bytes, wb))
  }

  /**
   * One byte of a cached access, at `cur`: a hit touches its line. A miss
   * ticks the countdown of `cur`'s block, and once the countdown runs out
   * fills the block. Returns whether the byte was resolved, and the new
   * state.
   */
  function AccessStep(g: Geometry, d: u64, st: Layer, cur: u64, op: Op, fillBase: u64, aligned: bool): (r: (bool, Layer))
    requires WellFormed(g, st.sets)
    ensures WellFormed(g, r.1.sets)
  {
    if Resident(g, st.sets, cur) then (true, HitStep(g, st, cur, op))
    else
      var countdown := Tick(st.inflight, BlockAddress(g, cur), d);
      if countdown.active then (false, st.(misses := st.misses + 1, inflight := countdown))
      else (true, FillStep(g, st, cur, op, fillBase, aligned, countdown))
  }

  /** A step on a resident byte is the hit. */
  lemma AccessStepHit(g: Geometry, d: u64, st: Layer, cur: u64, op: Op, fillBase: u64, aligned: bool)
    requires WellFormed(g, st.sets) && Resident(g, st.sets, cur)
    ensures AccessStep(g, d, st, cur, op, fillBase, aligned) == (true, HitStep(g, st, cur, op))
  {
  }

  /** A step on an absent byte whose block's countdown is still running waits. */
  lemma AccessStepWait(g: Geometry, d: u64, st: Layer, cur: u64, op: Op, fillBase: u64, aligned: bool)
    requires WellFormed(g, st.sets) && !Resident(g, st.sets, cur)
    requires Tick(st.inflight, BlockAddress(g, cur), d).active
    ensures AccessStep(g, d, st, cur, op, fillBase, aligned)
      == (false, st.(misses := st.misses + 1, inflight := Tick(st.inflight, BlockAddress(g, cur), d)))
  {
  }

  /** A step on an absent byte whose block's countdown runs out is the fill. */
  lemma AccessStepFill(g: Geometry, d: u64, st: Layer, cur: u64, op: Op, fillBase: u64, aligned: bool)
    requires WellFormed(g, st.sets) && !Resident(g, st.sets, cur)
    requires !Tick(st.inflight, BlockAddress(g, cur), d).active
    ensures AccessStep(g, d, st, cur, op, fillBase, aligned)
      == (true, FillStep(g, st, cur, op, fillBase, aligned, Tick(st.inflight, BlockAddress(g, cur), d)))
  {
  }

  /** The fill of `cur`'s block, field by field as the cached paths observe it. */
  lemma FillStepOf(g: Geometry, st: Layer, after: Layer, cur: u64, op: Op, fillBase: u64, aligned: bool,
                   countdown: Inflight, wb: seq<WriteBackRec>)
    requires WellFormed(g, st.sets)
    requires var block := BlockAddress(g, cur);
      after.sets == FillState(g, st.sets, block, op, Some(Bytes(st.bytes, fillBase, Pow2(g.b))), st.nextLru)
    requires after.hits == st.hits && after.misses == st.misses + 1 && after.nextLru == st.nextLru + 1
    requires after.inflight == countdown
    requires var lines := st.sets[SetIndex(g, BlockAddress(g, cur))];
      if FirstInvalid(lines, g.E).Some? then
        after.dirtyEvictions == st.dirtyEvictions && after.cleanEvictions == st.cleanEvictions
      else if lines[Victim(lines)].dirty then
        after.dirtyEvictions == st.dirtyEvictions + 1 && after.cleanEvictions == st.cleanEvictions
      else
        after.dirtyEvictions == st.dirtyEvictions && after.cleanEvictions == st.cleanEvictions + 1
    requires var block := BlockAddress(g, cur);
      var lines := st.sets[SetIndex(g, block)];
      var e := EvictedOf(g, lines[Victim(lines)], block);
      wb == (if e.valid && e.dirty then [WriteBackRec(if aligned then BlockAddress(g, e.addr) else e.addr, e.data)] else [])
    requires after.bytes == WriteBacks(st.bytes, wb)
    ensures after == FillStep(g, st, cur, op, fillBase, aligned, countdown)
  {
  }

  /** Each step counts one hit or one miss, and a step left waiting leaves the countdown running. */
  lemma AccessStepCounts(g: Geometry, d: u64, st: Layer, cur: u64, op: Op, fillBase: u64, aligned: bool)
    requires WellFormed(g, st.sets)
    ensures var r := AccessStep(g, d, st, cur, op, fillBase, aligned);
      && r.1.hits + r.1.misses == st.hits + st.misses + 1
      && (!r.0 ==> r.1.inflight.active)
  {
  }

  /** A step that resolves its byte leaves it resident. */
  lemma AccessStepResident(g: Geometry, d: u64, st: Layer, cur: u64, op: Op, fillBase: u64, aligned: bool)
    requires WellFormed(g, st.sets)
    ensures var r := AccessStep(g, d, st, cur, op, fillBase, aligned);
      r.0 ==> Resident(g, r.1.sets, cur)
  {
    if Resident(g, st.sets, cur) {
      HitKeepsLookups(g, st.sets, cur, op, st.nextLru, cur);
    } else {
      var block := BlockAddress(g, cur);
      BlockAddressFields(g, cur);
      FillMakesResident(g, st.sets, block, op, Some(Bytes(st.bytes, fillBase, Pow2(g.b))), st.nextLru);
    }
  }

  /** Each step keeps a coherent cache coherent. */
  lemma AccessStepCoherent(g: Geometry, d: u64, st: Layer, cur: u64, op: Op, fillBase: u64, aligned: bool)
    requires Coherent(g, st.sets, st.nextLru)
    ensures var r := AccessStep(g, d, st, cur, op, fillBase, aligned);
      Coherent(g, r.1.sets, r.1.nextLru)
  {
    if Resident(g, st.sets, cur) {
      HitKeepsCoherent(g, st.sets, cur, op, st.nextLru);
    } else {
      var block := BlockAddress(g, cur);
      BlockAddressFields(g, cur);
      FillMakesResident(g, st.sets, block, op, Some(Bytes(st.bytes, fillBase, Pow2(g.b))), st.nextLru);
    }
  }

  /**
   * The first `n` bytes of a cached access at `addr` from the state `st`,
   * one `AccessStep` each, stopping at the first byte a fill in flight
   * leaves unresolved: whether all `n` were resolved, and the new state.
   */
  function AccessBytes(g: Geometry, d: u64, st: Layer, addr: u64, n: nat, op: Op, fillBase: u64, aligned: bool): (r: (bool, Layer))
    requires WellFormed(g, st.sets)
    ensures WellFormed(g, r.1.sets)
    decreases n, 0
  {
    if n == 0 then (true, st) else AccessByte(g, d, st, addr, n - 1, op, fillBase, aligned)
  }

  /** Byte `k` of the access: its step from the state the first `k` bytes left, unless they stopped. */
  function AccessByte(g: Geometry, d: u64, st: Layer, addr: u64, k: nat, op: Op, fillBase: u64, aligned: bool): (r: (bool, Layer))
    requires WellFormed(g, st.sets)
    ensures WellFormed(g, r.1.sets)
    decreases k, 1
  {
    var prev := AccessBytes(g, d, st, addr, k, op, fillBase, aligned);
    if !prev.0 then prev else AccessStep(g, d, prev.1, Spot(addr, k), op, fillBase, aligned)
  }

  /** After `i` resolved bytes, byte `i` is one more step. */
  lemma AccessBytesNext(g: Geometry, d: u64, st: Layer, addr: u64, i: nat, op: Op, fillBase: u64, aligned: bool)
    requires WellFormed(g, st.sets)
    requires AccessBytes(g, d, st, addr, i, op, fillBase, aligned).0
    ensures AccessBytes(g, d, st, addr, i + 1, op, fillBase, aligned)
      == AccessStep(g, d, AccessBytes(g, d, st, addr, i, op, fillBase, aligned).1, Spot(addr, i), op, fillBase, aligned)
  {
  }

  /** Once a byte is left unresolved, the later bytes change nothing. */
  lemma {:induction false} AccessBytesStops(g: Geometry, d: u64, st: Layer, addr: u64, k: nat, n: nat, op: Op, fillBase: u64, aligned: bool)
    requires WellFormed(g, st.sets) && k <= n
    requires !AccessBytes(g, d, st, addr, k, op, fillBase, aligned).0
    ensures AccessBytes(g, d, st, addr, n, op, fillBase, aligned) == AccessBytes(g, d, st, addr, k, op, fillBase, aligned)
    decreases n
  {
    if n > k {
      AccessBytesStops(g, d, st, addr, k, n - 1, op, fillBase, aligned);
      AccessByteStopped(g, d, st, addr, n - 1, op, fillBase, aligned, AccessBytes(g, d, st, addr, k, op, fillBase, aligned));
    }
  }

  /** Byte `k` of an access whose first `k` bytes stopped with result `prev` changes nothing. */
  lemma AccessByteStopped(g: Geometry, d: u64, st: Layer, addr: u64, k: nat, op: Op, fillBase: u64, aligned: bool,
                          prev: (bool, Layer))
    requires WellFormed(g, st.sets) && prev == AccessBytes(g, d, st, addr, k, op, fillBase, aligned) && !prev.0
    ensures AccessByte(g, d, st, addr, k, op, fillBase, aligned) == prev
  {
  }

  /**
   * What the `n` bytes of an access, with result `r`, count: one hit or one
   * miss each, so `n` of them when all are resolved, and at least one and
   * at most `n` when a fill in flight stops the access.
   */
  lemma {:induction false} AccessBytesCounts(g: Geometry, d: u64, st: Layer, addr: u64, n: nat, op: Op, fillBase: u64, aligned: bool,
                                             r: (bool, Layer))
    requires WellFormed(g, st.sets) && r == AccessBytes(g, d, st, addr, n, op, fillBase, aligned)
    ensures if r.0 then r.1.hits + r.1.misses == st.hits + st.misses + n
      else st.hits + st.misses < r.1.hits + r.1.misses <= st.hits + st.misses + n
    decreases n
  {
    if n > 0 {
      var prev := AccessBytes(g, d, st, addr, n - 1, op, fillBase, aligned);
      AccessBytesCounts(g, d, st, addr, n - 1, op, fillBase, aligned, prev);
      assert r == AccessByte(g, d, st, addr, n - 1, op, fillBase, aligned);
      if prev.0 {
        AccessStepCounts(g, d, prev.1, Spot(addr, n - 1), op, fillBase, aligned);
      }
    }
  }

  /** An access, with result `r`, that a fill in flight stops leaves the countdown running. */
  lemma {:induction false} AccessBytesWaits(g: Geometry, d: u64, st: Layer, addr: u64, n: nat, op: Op, fillBase: u64, aligned: bool,
                                            r: (bool, Layer))
    requires WellFormed(g, st.sets) && r == AccessBytes(g, d, st, addr, n, op, fillBase, aligned)
    ensures !r.0 ==> r.1.inflight.active
    decreases n
  {
    if n > 0 {
      var prev := AccessBytes(g, d, st, addr, n - 1, op, fillBase, aligned);
      AccessBytesWaits(g, d, st, addr, n - 1, op, fillBase, aligned, prev);
      assert r == AccessByte(g, d, st, addr, n - 1, op, fillBase, aligned);
      if prev.0 {
        AccessStepCounts(g, d, prev.1, Spot(addr, n - 1), op, fillBase, aligned);
      }
    }
  }

  /** The bytes of an access, with result `r`, keep a coherent cache coherent. */
  lemma {:induction false} AccessBytesCoherent(g: Geometry, d: u64, st: Layer, addr: u64, n: nat, op: Op, fillBase: u64, aligned: bool,
                                               r: (bool, Layer))
    requires Coherent(g, st.sets, st.nextLru) && r == AccessBytes(g, d, st, addr, n, op, fillBase, aligned)
    ensures Coherent(g, r.1.sets, r.1.nextLru)
    decreases n
  {
    if n > 0 {
      var prev := AccessBytes(g, d, st, addr, n - 1, op, fillBase, aligned);
      AccessBytesCoherent(g, d, st, addr, n - 1, op, fillBase, aligned, prev);
      assert r == AccessByte(g, d, st, addr, n - 1, op, fillBase, aligned);
      if prev.0 {
        AccessStepCoherent(g, d, prev.1, Spot(addr, n - 1), op, fillBase, aligned);
      }
    }
  }

  /** The last byte of an access resolved with result `r` is resident. */
  lemma AccessBytesLast(g: Geometry, d: u64, st: Layer, addr: u64, n: nat, op: Op, fillBase: u64, aligned: bool,
                        r: (bool, Layer))
    requires WellFormed(g, st.sets) && r == AccessBytes(g, d, st, addr, n, op, fillBase, aligned)
    requires r.0 && n > 0
    ensures Resident(g, r.1.sets, Spot(addr, n - 1))
  {
    var prev := AccessBytes(g, d, st, addr, n - 1, op, fillBase, aligned);
    assert r == AccessByte(g, d, st, addr, n - 1, op, fillBase, aligned);
    AccessStepResident(g, d, prev.1, Spot(addr, n - 1), op, fillBase, aligned);
  }

  /**
   * An access whose bytes are all resident hits on every byte: the first
   * `n` of them are resolved with `n` hits and no miss, the store and the
   * countdown stay as they were, and the bytes after them stay resident.
   */
  lemma {:induction false} AccessBytesAllHit(g: Geometry, d: u64, st: Layer, addr: u64, n: nat, width: nat,
                                             op: Op, fillBase: u64, aligned: bool, r: (bool, Layer))
    requires WellFormed(g, st.sets) && r == AccessBytes(g, d, st, addr, n, op, fillBase, aligned)
    requires n <= width && ResidentFrom(g, st.sets, addr, 0, width)
    ensures r.0 && ResidentFrom(g, r.1.sets, addr, n, width)
    ensures r.1.hits == st.hits + n && r.1.misses == st.misses
    ensures r.1.bytes == st.bytes && r.1.inflight == st.inflight
    decreases n
  {
    if n > 0 {
      var prev := AccessBytes(g, d, st, addr, n - 1, op, fillBase, aligned);
      AccessBytesAllHit(g, d, st, addr, n - 1, width, op, fillBase, aligned, prev);
      var cur := Spot(addr, n - 1);
      ResidentFirst(g, prev.1.sets, addr, n - 1, width);
      AccessStepHit(g, d, prev.1, cur, op, fillBase, aligned);
      HitKeepsResidents(g, prev.1.sets, cur, op, prev.1.nextLru, addr, n, width);
      assert r == AccessByte(g, d, st, addr, n - 1, op, fillBase, aligned);
    }
  }

  /**
   * An access of `width` bytes from `st`, with result `r`: when stopped
   * by a fill in flight it leaves the countdown running, when resolved
   * its last byte is resident, it counts one hit or miss per byte it
   * reaches, it keeps a coherent cache coherent, and when every byte was
   * resident it misses nothing and leaves the store as it was.
   */
  lemma AccessBytesSummary(g: Geometry, d: u64, st: Layer, addr: u64, width: nat, op: Op, fillBase: u64, aligned: bool,
                           r: (bool, Layer))
    requires WellFormed(g, st.sets) && r == AccessBytes(g, d, st, addr, width, op, fillBase, aligned)
    ensures !r.0 ==> r.1.inflight.active
    ensures r.0 && width > 0 ==> Resident(g, r.1.sets, Spot(addr, width - 1))
    ensures r.0 ==> r.1.hits + r.1.misses == st.hits + st.misses + width
    ensures !r.0 ==> st.hits + st.misses < r.1.hits + r.1.misses <= st.hits + st.misses + width
    ensures ResidentFrom(g, st.sets, addr, 0, width) ==> r.0 && r.1.misses == st.misses && r.1.bytes == st.bytes
    ensures Coherent(g, st.sets, st.nextLru) ==> Coherent(g, r.1.sets, r.1.nextLru)
  {
    AccessBytesWaits(g, d, st, addr, width, op, fillBase, aligned, r);
    AccessBytesCounts(g, d, st, addr, width, op, fillBase, aligned, r);
    if r.0 && width > 0 {
      AccessBytesLast(g, d, st, addr, width, op, fillBase, aligned, r);
    }
    if ResidentFrom(g, st.sets, addr, 0, width) {
      AccessBytesAllHit(g, d, st, addr, width, width, op, fillBase, aligned, r);
    }
    if Coherent(g, st.sets, st.nextLru) {
      AccessBytesCoherent(g, d, st, addr, width, op, fillBase, aligned, r);
    }
  }

  /** The layer's state: the byte store, the segment byte orders, the cache and the miss globals. */
  class Memory {
    var bytes: Store
    const textStart: u64
    const dataStart: u64
    const codeOrder: ByteOrder
    const dataOrder: ByteOrder
    const cache: Cache.Cache
    var inflight: Inflight
    var status: MemStatus

    /** An empty store; the miss globals start zeroed, as C globals do. */
    constructor (ts: u64, ds: u64, co: ByteOrder, dor: ByteOrder, c: Cache.Cache)
      ensures bytes == map[] && inflight == Inflight(false, 0, 0) && status == Ready
      ensures textStart == ts && dataStart == ds && codeOrder == co && dataOrder == dor && cache == c
    {
      bytes := map[];
      textStart, dataStart, codeOrder, dataOrder := ts, ds, co, dor;
      cache := c;
      inflight := Inflight(false, 0, 0);
      status := Ready;
    }

    /** The part of the state that the cached access path changes. */
    ghost function State(): Layer
      reads this, cache
    {
      Layer(cache.sets, cache.hitCount, cache.missCount, cache.dirtyEvictions, cache.cleanEvictions,
            cache.nextLru, inflight, bytes)
    }

    function Order(addr: u64): ByteOrder
    {
      GetByteOrder(textStart, dataStart, codeOrder, dataOrder, addr)
    }

    /** `_mem_read_LE`: the `width` bytes at `addr`, the first least significant. */
    method ReadLE(addr: u64, width: nat) returns (r: u64)
      requires width <= 8
      ensures r == LittleEndian(Bytes(bytes, addr, width))
    {
      ghost var bs := Bytes(bytes, addr, width);
      Pow256Eight();
      r := 0;
      var i: int := width - 1;
      while i >= 0
        invariant -1 <= i < width
        invariant r == LittleEndian(bs[i + 1..])
      {
        assert bs[i..][1..] == bs[i + 1..];
        LittleEndianBound(bs[i..]);
        Pow256Mono(width - i, 8);
        r := r * 256 + ByteAt(bytes, Spot(addr, i));
        i := i - 1;
      }
    }

    /** `_mem_read_BE`: the `width` bytes at `addr`, the first most significant. */
    method ReadBE(addr: u64, width: nat) returns (r: u64)
      requires width <= 8
      ensures r == BigEndian(Bytes(bytes, addr, width))
    {
      ghost var bs := Bytes(bytes, addr, width);
      Pow256Eight();
      r := 0;
      for i := 0 to width
        invariant r == BigEndian(bs[..i])
      {
        assert bs[..i + 1][..i] == bs[..i];
        BigEndianBound(bs[..i + 1]);
        Pow256Mono(i + 1, 8);
        r := r * 256 + ByteAt(bytes, Spot(addr, i));
      }
      assert bs[..width] == bs;
    }

    /** `_mem_write_byte`: the byte is stored and the write succeeds. */
    method WriteByte(a: u64, v: Byte) returns (code: WriteCode)
      modifies this`bytes
      ensures bytes == old(bytes)[a := v] && code == WriteSuccess
    {
      bytes := bytes[a := v];
      code := WriteSuccess;
    }

    /**
     * `_mem_write_LE`: byte k of `data` at `addr + k`. The code starts as
     * failure and becomes success with the first byte written.
     */
    method WriteLE(addr: u64, data: u64, width: nat) returns (code: WriteCode)
      requires width <= 8
      modifies this`bytes
      ensures bytes == StoreSeq(old(bytes), addr, LEBytes(data, width))
      ensures code == if width == 0 then WriteFailure else WriteSuccess
    {
      ghost var bs := LEBytes(data, width);
      code := WriteFailure;
      for i := 0 to width
        invariant bytes == StoreSeq(old(bytes), addr, bs[..i])
        invariant code == if i == 0 then WriteFailure else WriteSuccess
      {
        var c := WriteByte(Spot(addr, i), ByteOf(data, i));
        code := Or(code, c);
        assert bs[..i + 1][..i] == bs[..i];
      }
      assert bs[..width] == bs;
    }

    /** `_mem_write_BE`: byte width - 1 - k of `data` at `addr + k`. */
    method WriteBE(addr: u64, data: u64, width: nat) returns (code: WriteCode)
      requires width <= 8
      modifies this`bytes
      ensures bytes == StoreSeq(old(bytes), addr, BEBytes(data, width))
      ensures code == if width == 0 then WriteFailure else WriteSuccess
    {
      ghost var bs := BEBytes(data, width);
      code := WriteFailure;
      for i := 0 to width
        invariant bytes == StoreSeq(old(bytes), addr, bs[..i])
        invariant code == if i == 0 then WriteFailure else WriteSuccess
      {
        var c := WriteByte(Spot(addr, i), ByteOf(data, width - i - 1));
        code := Or(code, c);
        assert bs[..i + 1][..i] == bs[..i];
      }
      assert bs[..width] == bs;
    }

    /** `_mem_read`: reserved addresses are diverted; others are read in their segment's byte order. */
    method MemRead(addr: u64, width: nat) returns (r: ReadResult)
      requires width <= 8
      ensures IsSpecialAddr(addr) ==> r == SpecialRead(addr)
      ensures !IsSpecialAddr(addr) ==> r == Value(Load(bytes, Order(addr), addr, width))
    {
      if IsSpecialAddr(addr) {
        return SpecialRead(addr);
      }
      var v: u64;
      if Order(addr) == LittleEndianOrder {
        v := ReadLE(addr, width);
      } else {
        v := ReadBE(addr, width);
      }
      return Value(v);
    }

    /**
     * `_mem_write`: reserved addresses are diverted and leave the store as it
     * is; others are written in their segment's byte order.
     */
    method MemWrite(addr: u64, data: u64, width: nat) returns (r: WriteResult)
      requires width <= 8
      modifies this`bytes
      ensures IsSpecialAddr(addr) ==> r == SpecialWrite(addr) && bytes == old(bytes)
      ensures !IsSpecialAddr(addr) ==>
        bytes == Stored(old(bytes), Order(addr), addr, data, width)
        && r == Written(if width == 0 then WriteFailure else WriteSuccess)
    {
      if IsSpecialAddr(addr) {
        return SpecialWrite(addr);
      }
      var code: WriteCode;
      if Order(addr) == LittleEndianOrder {
        code := WriteLE(addr, data, width);
      } else {
        code := WriteBE(addr, data, width);
      }
      return Written(code);
    }

    /** The fill buffer: byte j read with `_mem_read_LE(base + j, 1)`. */
    method FetchBlock(base: u64, n: nat) returns (block: seq<Byte>)
      ensures block == Bytes(bytes, base, n)
    {
      block := [];
      for j := 0 to n
        invariant |block| == j
        invariant forall k :: 0 <= k < j ==> block[k] == ByteAt(bytes, Spot(base, k))
      {
        var v := ReadLE(Spot(base, j), 1);
        assert Spot(Spot(base, j), 0) == Spot(base, j);
        block := block + [v];
      }
    }

    /** The write-back: byte j of the record with `_mem_write_LE(base + j, data[j], 1)`. */
    method WriteBack(base: u64, data: seq<Byte>)
      modifies this`bytes
      ensures bytes == StoreSeq(old(bytes), base, data)
    {
      for j := 0 to |data|
        invariant bytes == StoreSeq(old(bytes), base, data[..j])
      {
        StoreOne(bytes, Spot(base, j), data[j]);
        var code := WriteLE(Spot(base, j), data[j], 1);
        assert data[..j + 1][..j] == data[..j];
      }
      assert data[..|data|] == data;
    }

    /**
     * One byte of the cached access loop: `check_hit` on `cur`; on a miss the
     * countdown for `cur`'s block, and when it runs out the fill of that
     * block with the bytes of the store at `fillBase`. Returns whether the
     * byte is resolved and, after a fill, the eviction record.
     */
    method Resolve(cur: u64, op: Op, fillBase: u64) returns (hit: bool, ready: bool, ev: Option<Evicted>)
      requires cache.Valid()
      modifies this`inflight, cache`hitCount, cache`missCount, cache`dirtyEvictions, cache`cleanEvictions
      modifies cache`nextLru, cache`sets
      ensures cache.Valid()
      ensures hit == old(Resident(cache.Geo(), cache.sets, cur))
      ensures hit ==>
        ready && ev.None? && inflight == old(inflight)
        && cache.sets == HitState(cache.Geo(), old(cache.sets), cur, op, old(cache.nextLru))
        && cache.hitCount == old(cache.hitCount) + 1 && cache.missCount == old(cache.missCount)
      ensures !hit ==>
        inflight == Tick(old(inflight), BlockAddress(cache.Geo(), cur), cache.d) && ready == !inflight.active
        && cache.hitCount == old(cache.hitCount) && cache.missCount == old(cache.missCount) + 1
      ensures !hit && !ready ==> ev.None? && cache.sets == old(cache.sets)
      ensures !hit && ready ==>
        var g, block := cache.Geo(), BlockAddress(cache.Geo(), cur);
        var lines := old(cache.sets)[SetIndex(g, block)];
        ev == Some(EvictedOf(g, lines[Victim(lines)], block))
        && cache.sets == FillState(g, old(cache.sets), block, op, Some(Bytes(bytes, fillBase, Pow2(cache.b))), old(cache.nextLru))
      ensures cache.nextLru == if ready then old(cache.nextLru) + 1 else old(cache.nextLru)
      ensures var lines := old(cache.sets)[SetIndex(cache.Geo(), BlockAddress(cache.Geo(), cur))];
        if hit || !ready || FirstInvalid(lines, cache.E).Some? then
          cache.dirtyEvictions == old(cache.dirtyEvictions) && cache.cleanEvictions == old(cache.cleanEvictions)
        else if lines[Victim(lines)].dirty then
          cache.dirtyEvictions == old(cache.dirtyEvictions) + 1 && cache.cleanEvictions == old(cache.cleanEvictions)
        else
          cache.dirtyEvictions == old(cache.dirtyEvictions) && cache.cleanEvictions == old(cache.cleanEvictions) + 1
      ensures ready ==> Resident(cache.Geo(), cache.sets, cur)
      ensures old(Coherent(cache.Geo(), cache.sets, cache.nextLru)) ==> Coherent(cache.Geo(), cache.sets, cache.nextLru)
    {
      var g := cache.Geo();
      ghost var st, next := cache.sets, cache.nextLru;
      hit := cache.CheckHit(cur, op);
      if hit {
        HitKeepsCoherent(g, st, cur, op, next);
        return hit, true, None;
      }
      ready, ev := Miss(cur, op, fillBase);
    }

    /**
     * The miss branch of the cached access loops, taken when `check_hit`
     * finds `cur` in no line: the countdown for `cur`'s
     * block restarts when another block, or none, was in flight; when it
     * runs out the block is filled from the store at `fillBase` by
     * `handle_miss`, which returns the eviction record.
     */
    method Miss(cur: u64, op: Op, fillBase: u64) returns (ready: bool, ev: Option<Evicted>)
      requires cache.Valid()
      requires !Resident(cache.Geo(), cache.sets, cur)
      modifies this`inflight, cache`dirtyEvictions, cache`cleanEvictions, cache`nextLru, cache`sets
      ensures cache.Valid()
      ensures inflight == Tick(old(inflight), BlockAddress(cache.Geo(), cur), cache.d) && ready == !inflight.active
      ensures !ready ==>
        ev.None? && cache.sets == old(cache.sets) && cache.nextLru == old(cache.nextLru)
        && cache.dirtyEvictions == old(cache.dirtyEvictions) && cache.cleanEvictions == old(cache.cleanEvictions)
      ensures ready ==>
        var g, block := cache.Geo(), BlockAddress(cache.Geo(), cur);
        var lines := old(cache.sets)[SetIndex(g, block)];
        ev == Some(EvictedOf(g, lines[Victim(lines)], block))
        && cache.sets == FillState(g, old(cache.sets), block, op, Some(Bytes(bytes, fillBase, Pow2(cache.b))), old(cache.nextLru))
        && cache.nextLru == old(cache.nextLru) + 1
        && Resident(g, cache.sets, cur)
      ensures ready ==>
        var lines := old(cache.sets)[SetIndex(cache.Geo(), BlockAddress(cache.Geo(), cur))];
        if FirstInvalid(lines, cache.E).Some? then
          cache.dirtyEvictions == old(cache.dirtyEvictions) && cache.cleanEvictions == old(cache.cleanEvictions)
        else if lines[Victim(lines)].dirty then
          cache.dirtyEvictions == old(cache.dirtyEvictions) + 1 && cache.cleanEvictions == old(cache.cleanEvictions)
        else
          cache.dirtyEvictions == old(cache.dirtyEvictions) && cache.cleanEvictions == old(cache.cleanEvictions) + 1
      ensures old(Coherent(cache.Geo(), cache.sets, cache.nextLru)) ==> Coherent(cache.Geo(), cache.sets, cache.nextLru)
    {
      var g := cache.Geo();
      ghost var st, next := cache.sets, cache.nextLru;
      var block := BlockAddress(g, cur);
      BlockAddressFields(g, cur);
      if inflight.addr != block || !inflight.active {
        inflight := Inflight(true, block, cache.d);
      }
      inflight := inflight.(cycles := Wrap64(inflight.cycles - 1));
      if inflight.cycles > 0 {
        return false, None;
      }
      inflight := inflight.(active := false);
      var incoming := FetchBlock(fillBase, Pow2(cache.b));
      var e := cache.HandleMiss(block, op, Some(incoming));
      FillMakesResident(g, st, block, op, Some(incoming), next);
      return true, Some(e);
    }

    /**
     * The body of the cached access loops for byte `cur`: `Resolve`, then,
     * after a fill that evicted a valid dirty line, the write-back of the
     * record's bytes at its block base (`aligned`, the read path) or at its
     * recorded address (the write path); `wb` lists that write-back, if any.
     * Both bases are the same block-aligned address.
     */
    method Access(cur: u64, op: Op, fillBase: u64, aligned: bool) returns (ready: bool, ghost wb: seq<WriteBackRec>)
      requires cache.Valid()
      modifies this`bytes, this`inflight
      modifies cache`hitCount, cache`missCount, cache`dirtyEvictions, cache`cleanEvictions, cache`nextLru, cache`sets
      ensures cache.Valid()
      ensures ready ==> Resident(cache.Geo(), cache.sets, cur)
      ensures old(Resident(cache.Geo(), cache.sets, cur)) ==>
        ready && inflight == old(inflight)
        && cache.sets == HitState(cache.Geo(), old(cache.sets), cur, op, old(cache.nextLru))
        && cache.hitCount == old(cache.hitCount) + 1 && cache.missCount == old(cache.missCount)
      ensures !old(Resident(cache.Geo(), cache.sets, cur)) ==>
        inflight == Tick(old(inflight), BlockAddress(cache.Geo(), cur), cache.d) && ready == !inflight.active
        && cache.hitCount == old(cache.hitCount) && cache.missCount == old(cache.missCount) + 1
      ensures !ready ==> inflight.active && cache.sets == old(cache.sets) && bytes == old(bytes)
      ensures !old(Resident(cache.Geo(), cache.sets, cur)) && ready ==>
        cache.sets == FillState(cache.Geo(), old(cache.sets), BlockAddress(cache.Geo(), cur), op,
          Some(Bytes(old(bytes), fillBase, Pow2(cache.b))), old(cache.nextLru))
      ensures cache.nextLru == if ready then old(cache.nextLru) + 1 else old(cache.nextLru)
      ensures var lines := old(cache.sets)[SetIndex(cache.Geo(), BlockAddress(cache.Geo(), cur))];
        if old(Resident(cache.Geo(), cache.sets, cur)) || !ready || FirstInvalid(lines, cache.E).Some? then
          cache.dirtyEvictions == old(cache.dirtyEvictions) && cache.cleanEvictions == old(cache.cleanEvictions)
        else if lines[Victim(lines)].dirty then
          cache.dirtyEvictions == old(cache.dirtyEvictions) + 1 && cache.cleanEvictions == old(cache.cleanEvictions)
        else
          cache.dirtyEvictions == old(cache.dirtyEvictions) && cache.cleanEvictions == old(cache.cleanEvictions) + 1
      ensures var g, block := cache.Geo(), BlockAddress(cache.Geo(), cur);
        var lines := old(cache.sets)[SetIndex(g, block)];
        var e := EvictedOf(g, lines[Victim(lines)], block);
        wb == if ready && !old(Resident(g, cache.sets, cur)) && e.valid && e.dirty
          then [WriteBackRec(if aligned then BlockAddress(g, e.addr) else e.addr, e.data)]
          else []
      ensures bytes == WriteBacks(old(bytes), wb)
      ensures BlockRecords(cache.Geo(), wb)
      ensures old(Coherent(cache.Geo(), cache.sets, cache.nextLru)) ==> Coherent(cache.Geo(), cache.sets, cache.nextLru)
    {
      var g := cache.Geo();
      ghost var lines := cache.sets[SetIndex(g, BlockAddress(g, cur))];
      var hit, ev;
      hit, ready, ev := Resolve(cur, op, fillBase);
      wb := [];
      if ev.Some? && ev.value.valid && ev.value.dirty {
        WriteBackAligned(g, lines[Victim(lines)], BlockAddress(g, cur));
        var base := if aligned then BlockAddress(g, ev.value.addr) else ev.value.addr;
        WriteBack(base, ev.value.data);
        wb := [WriteBackRec(base, ev.value.data)];
        assert wb[..0] == [];
      }
    }

    /**
     * `Access`, summarised to what the loops over the bytes of an access
     * keep track of: the hit and miss count grows by one, a resident byte is
     * a hit that writes nothing back, any write-back is counted as a miss,
     * and the store changes only by the write-back.
     */
    method Step(cur: u64, op: Op, fillBase: u64, aligned: bool) returns (ready: bool, ghost wb: seq<WriteBackRec>)
      requires cache.Valid()
      modifies this`bytes, this`inflight
      modifies cache`hitCount, cache`missCount, cache`dirtyEvictions, cache`cleanEvictions, cache`nextLru, cache`sets
      ensures cache.Valid()
      ensures ready ==> Resident(cache.Geo(), cache.sets, cur)
      ensures !ready ==> inflight.active && bytes == old(bytes) && wb == []
      ensures cache.hitCount + cache.missCount == old(cache.hitCount + cache.missCount) + 1
      ensures old(cache.missCount) + |wb| <= cache.missCount
      ensures old(Resident(cache.Geo(), cache.sets, cur)) ==>
        ready && wb == [] && cache.missCount == old(cache.missCount)
        && cache.sets == HitState(cache.Geo(), old(cache.sets), cur, op, old(cache.nextLru))
      ensures |wb| <= 1 && bytes == WriteBacks(old(bytes), wb) && BlockRecords(cache.Geo(), wb)
      ensures (ready, State()) == AccessStep(cache.Geo(), cache.d, old(State()), cur, op, fillBase, aligned)
      ensures old(Coherent(cache.Geo(), cache.sets, cache.nextLru)) ==> Coherent(cache.Geo(), cache.sets, cache.nextLru)
    {
      var g := cache.Geo();
      ghost var before := State();
      ready, wb := Access(cur, op, fillBase, aligned);
      ghost var after := State();
      ghost var countdown := Tick(before.inflight, BlockAddress(g, cur), cache.d);
      if Resident(g, before.sets, cur) {
        AccessStepHit(g, cache.d, before, cur, op, fillBase, aligned);
        assert after == HitStep(g, before, cur, op);
      } else if countdown.active {
        AccessStepWait(g, cache.d, before, cur, op, fillBase, aligned);
        assert after == before.(misses := before.misses + 1, inflight := countdown);
      } else {
        AccessStepFill(g, cache.d, before, cur, op, fillBase, aligned);
        FillStepOf(g, before, after, cur, op, fillBase, aligned, countdown, wb);
      }
    }

    /**
     * `set_word_cache` as the cached write path ends: when one of the eight
     * bytes is held by no line the store would dereference NULL, reported as
     * `false`; otherwise the word is stored and reads back from the cache.
     */
    method StoreWord(addr: u64, data: u64) returns (ok: bool)
      requires cache.Valid()
      modifies cache`sets
      ensures cache.Valid()
      ensures ok <==> forall k :: 0 <= k < WORD_BYTES ==> Resident(cache.Geo(), old(cache.sets), Spot(addr, k))
      ensures !ok ==> cache.sets == old(cache.sets)
      ensures ok ==> cache.sets == WriteWord(cache.Geo(), old(cache.sets), addr, data, WORD_BYTES)
      ensures ok ==>
        (forall k :: 0 <= k < WORD_BYTES ==> Resident(cache.Geo(), cache.sets, Spot(addr, k)))
        && CachedWord(cache.Geo(), cache.sets, addr) == data
      ensures old(Coherent(cache.Geo(), cache.sets, cache.nextLru)) ==> Coherent(cache.Geo(), cache.sets, cache.nextLru)
    {
      var g := cache.Geo();
      ok := cache.HoldsWord(addr);
      if !ok {
        return;
      }
      ghost var before := cache.sets;
      cache.SetWordCache(addr, data);
      WriteWordRoundTrip(g, before, addr, data);
      WriteWordMeta(g, before, addr, data, WORD_BYTES);
      if Coherent(g, before, cache.nextLru) {
        CoherentMeta(g, before, cache.sets, cache.nextLru);
      }
    }

    /** `current_address++`: the cursor at byte `i` of the access steps on to byte `i + 1`, wrapping at 2^64. */
    static method NextAddress(addr: u64, i: nat, cur: u64) returns (next: u64)
      requires cur == Spot(addr, i)
      ensures next == Spot(addr, i + 1)
    {
      SpotNext(addr, i);
      next := Wrap64(cur as int + 1);
    }

    /**
     * One turn of the loop over the bytes of a cached access: byte `i`, at
     * `cur`, is resolved, one more step of `AccessBytes` from the state
     * `st0` the access started in, and the cursor steps on to `next`
     * (wrapping at 2^64). The byte's write-back, if any, is added to the
     * log `wbs` of the write-backs since the store was `bytes0`.
     */
    method ResolveNext(addr: u64, cur: u64, i: nat, op: Op, fillBase: u64, aligned: bool,
                       ghost bytes0: Store, ghost wbs: seq<WriteBackRec>, ghost misses0: nat, ghost st0: Layer)
      returns (ready: bool, next: u64, ghost wbs': seq<WriteBackRec>)
      requires cur == Spot(addr, i) && cache.Valid() && WellFormed(cache.Geo(), st0.sets)
      requires AccessBytes(cache.Geo(), cache.d, st0, addr, i, op, fillBase, aligned) == (true, State())
      requires bytes == WriteBacks(bytes0, wbs) && BlockRecords(cache.Geo(), wbs)
      requires misses0 + |wbs| <= cache.missCount
      modifies this`bytes, this`inflight
      modifies cache`hitCount, cache`missCount, cache`dirtyEvictions, cache`cleanEvictions, cache`nextLru, cache`sets
      ensures cache.Valid()
      ensures AccessBytes(cache.Geo(), cache.d, st0, addr, i + 1, op, fillBase, aligned) == (ready, State())
      ensures next == Spot(addr, i + 1)
      ensures bytes == WriteBacks(bytes0, wbs') && BlockRecords(cache.Geo(), wbs')
      ensures misses0 + |wbs'| <= cache.missCount
    {
      var g := cache.Geo();
      ghost var wb;
      AccessBytesNext(g, cache.d, st0, addr, i, op, fillBase, aligned);
      ready, wb := Step(cur, op, fillBase, aligned);
      WriteBacksAppend(bytes0, wbs, wb);
      BlockRecordsAppend(g, wbs, wb);
      wbs' := wbs + wb;
      next := NextAddress(addr, i, cur);
    }

    /**
     * The loop over the bytes of a cached access, shared by the read and the
     * write path: the bytes are resolved in turn, `AccessBytes` from the
     * state the access starts in, and a fill still in flight ends the
     * access early. `wbs` lists the write-backs into the store, one at most
     * per miss.
     */
    method ResolveLoop(addr: u64, width: nat, op: Op, fillBase: u64, aligned: bool)
      returns (ready: bool, ghost wbs: seq<WriteBackRec>)
      requires cache.Valid()
      modifies this`bytes, this`inflight
      modifies cache`hitCount, cache`missCount, cache`dirtyEvictions, cache`cleanEvictions, cache`nextLru, cache`sets
      ensures cache.Valid()
      ensures (ready, State()) == AccessBytes(cache.Geo(), cache.d, old(State()), addr, width, op, fillBase, aligned)
      ensures bytes == WriteBacks(old(bytes), wbs) && BlockRecords(cache.Geo(), wbs)
      ensures old(cache.missCount) + |wbs| <= cache.missCount
    {
      var g := cache.Geo();
      ghost var bytes0, misses0 := bytes, cache.missCount;
      ghost var st0 := State();
      wbs := [];
      var cur := addr;
      var i := 0;
      ready := true;
      while i < width
        invariant 0 <= i <= width && cur == Spot(addr, i) && cache.Valid() && ready
        invariant AccessBytes(g, cache.d, st0, addr, i, op, fillBase, aligned) == (true, State())
        invariant bytes == WriteBacks(bytes0, wbs) && BlockRecords(g, wbs)
        invariant misses0 + |wbs| <= cache.missCount
      {
        ready, cur, wbs := ResolveNext(addr, cur, i, op, fillBase, aligned, bytes0, wbs, misses0, st0);
        if !ready {
          AccessBytesStops(g, cache.d, st0, addr, i + 1, width, op, fillBase, aligned);
          break;
        }
        i := i + 1;
      }
    }

    /**
     * `ResolveLoop`, with what the cached paths promise about it: a fill in
     * flight leaves the countdown running, a resolved access ends with its
     * last byte resident, each byte reached counts one hit or one miss, an
     * access whose bytes were all resident writes nothing back and misses
     * nothing, and the cache stays coherent.
     */
    method ResolveBytes(addr: u64, width: nat, op: Op, fillBase: u64, aligned: bool)
      returns (ready: bool, ghost wbs: seq<WriteBackRec>)
      requires cache.Valid()
      modifies this`bytes, this`inflight
      modifies cache`hitCount, cache`missCount, cache`dirtyEvictions, cache`cleanEvictions, cache`nextLru, cache`sets
      ensures cache.Valid()
      ensures (ready, State()) == AccessBytes(cache.Geo(), cache.d, old(State()), addr, width, op, fillBase, aligned)
      ensures !ready ==> inflight.active
      ensures ready && width > 0 ==> Resident(cache.Geo(), cache.sets, Spot(addr, width - 1))
      ensures bytes == WriteBacks(old(bytes), wbs) && BlockRecords(cache.Geo(), wbs)
      ensures old(cache.missCount) + |wbs| <= cache.missCount
      ensures ready ==> cache.hitCount + cache.missCount == old(cache.hitCount + cache.missCount) + width
      ensures !ready ==>
        old(cache.hitCount + cache.missCount) < cache.hitCount + cache.missCount <= old(cache.hitCount + cache.missCount) + width
      ensures old(ResidentFrom(cache.Geo(), cache.sets, addr, 0, width)) ==>
        ready && wbs == [] && cache.missCount == old(cache.missCount)
      ensures old(Coherent(cache.Geo(), cache.sets, cache.nextLru)) ==> Coherent(cache.Geo(), cache.sets, cache.nextLru)
    {
      ghost var st0 := State();
      ready, wbs := ResolveLoop(addr, width, op, fillBase, aligned);
      AccessBytesSummary(cache.Geo(), cache.d, st0, addr, width, op, fillBase, aligned, (ready, State()));
    }

    /**
     * `_mem_read_cache`: reserved addresses are diverted before the cache is
     * consulted. Otherwise the bytes are resolved in turn, each fill taking
     * the block at `addr`'s block base and each dirty victim written back at
     * its block base; a fill in flight aborts the access with `IN_FLIGHT`.
     * The store changes only by the write-backs `wbs`, one at most per miss,
     * and not at all when every byte is resident from the start.
     */
    method MemReadCache(addr: u64, width: nat) returns (r: ReadResult, ghost wbs: seq<WriteBackRec>)
      requires cache.Valid()
      modifies this`bytes, this`inflight, this`status
      modifies cache`hitCount, cache`missCount, cache`dirtyEvictions, cache`cleanEvictions, cache`nextLru, cache`sets
      ensures cache.Valid()
      ensures IsSpecialAddr(addr) ==> r == SpecialRead(addr) && wbs == [] && unchanged(this) && unchanged(cache)
      ensures !IsSpecialAddr(addr) ==> r == NotReady || r == CachedReadDone
      ensures !IsSpecialAddr(addr) ==>
        (r == CachedReadDone, State())
        == AccessBytes(cache.Geo(), cache.d, old(State()), addr, width, Read, BlockAddress(cache.Geo(), addr), true)
      ensures r == NotReady ==> status == InFlight && inflight.active
      ensures r == CachedReadDone ==> status == Ready
      ensures r == CachedReadDone && width > 0 ==> Resident(cache.Geo(), cache.sets, Spot(addr, width - 1))
      ensures bytes == WriteBacks(old(bytes), wbs) && BlockRecords(cache.Geo(), wbs)
      ensures old(cache.missCount) + |wbs| <= cache.missCount
      ensures r == CachedReadDone ==>
        cache.hitCount + cache.missCount == old(cache.hitCount + cache.missCount) + width
      ensures r == NotReady ==>
        old(cache.hitCount + cache.missCount) < cache.hitCount + cache.missCount <= old(cache.hitCount + cache.missCount) + width
      ensures !IsSpecialAddr(addr) && old(forall k :: 0 <= k < width ==> Resident(cache.Geo(), cache.sets, Spot(addr, k))) ==>
        r == CachedReadDone && wbs == [] && bytes == old(bytes)
        && cache.hitCount == old(cache.hitCount) + width && cache.missCount == old(cache.missCount)
      ensures old(Coherent(cache.Geo(), cache.sets, cache.nextLru)) ==> Coherent(cache.Geo(), cache.sets, cache.nextLru)
    {
      wbs := [];
      if IsSpecialAddr(addr) {
        return SpecialRead(addr), wbs;
      }
      var ready;
      ready, wbs := ResolveBytes(addr, width, Read, BlockAddress(cache.Geo(), addr), true);
      if !ready {
        status := InFlight;
        return NotReady, wbs;
      }
      status := Ready;
      return CachedReadDone, wbs;
    }

    /**
     * The end of `_mem_write_cache`: `set_word_cache` stores all eight bytes
     * of `data` whatever the width, then the status returns to `READY`. A
     * byte held by no line is the NULL dereference.
     */
    method FinishWrite(addr: u64, data: u64) returns (r: WriteResult)
      requires cache.Valid()
      modifies this`status, cache`sets
      ensures cache.Valid()
      ensures r == Written(WriteSuccess) || r == NullLineStore
      ensures r == NullLineStore <==> exists k :: 0 <= k < WORD_BYTES && !Resident(cache.Geo(), old(cache.sets), Spot(addr, k))
      ensures r == Written(WriteSuccess) ==>
        status == Ready
        && (forall k :: 0 <= k < WORD_BYTES ==> Resident(cache.Geo(), cache.sets, Spot(addr, k)))
        && CachedWord(cache.Geo(), cache.sets, addr) == data
      ensures r == Written(WriteSuccess) ==> cache.sets == WriteWord(cache.Geo(), old(cache.sets), addr, data, WORD_BYTES)
      ensures r == NullLineStore ==> cache.sets == old(cache.sets) && status == old(status)
      ensures old(Coherent(cache.Geo(), cache.sets, cache.nextLru)) ==> Coherent(cache.Geo(), cache.sets, cache.nextLru)
    {
      var ok := StoreWord(addr, data);
      if !ok {
        return NullLineStore;
      }
      status := Ready;
      return Written(WriteSuccess);
    }

    /**
     * `_mem_write_cache`: reserved addresses are diverted before the cache is
     * consulted. Otherwise the bytes are resolved as for the cached read, but
     * a fill takes the bytes at `addr + j` rather than at the block base and
     * a victim is written back at its recorded address (the same block
     * base); the access ends with `FinishWrite`. `wbs` lists the
     * write-backs, as for the read path.
     */
    method MemWriteCache(addr: u64, data: u64, width: nat) returns (r: WriteResult, ghost wbs: seq<WriteBackRec>)
      requires cache.Valid()
      modifies this`bytes, this`inflight, this`status
      modifies cache`hitCount, cache`missCount, cache`dirtyEvictions, cache`cleanEvictions, cache`nextLru, cache`sets
      ensures cache.Valid()
      ensures IsSpecialAddr(addr) ==> r == SpecialWrite(addr) && wbs == [] && unchanged(this) && unchanged(cache)
      ensures !IsSpecialAddr(addr) ==> r == Written(WriteFailure) || r == Written(WriteSuccess) || r == NullLineStore
      ensures !IsSpecialAddr(addr) ==>
        var fold := AccessBytes(cache.Geo(), cache.d, old(State()), addr, width, Write, addr, false);
        && (r == Written(WriteFailure) <==> !fold.0)
        && (r != Written(WriteSuccess) ==> State() == fold.1)
        && (r == Written(WriteSuccess) ==> State() == fold.1.(sets := WriteWord(cache.Geo(), fold.1.sets, addr, data, WORD_BYTES)))
      ensures r == Written(WriteFailure) ==> status == InFlight && inflight.active
      ensures !IsSpecialAddr(addr) && r == Written(WriteSuccess) ==>
        status == Ready
        && (forall k :: 0 <= k < WORD_BYTES ==> Resident(cache.Geo(), cache.sets, Spot(addr, k)))
        && CachedWord(cache.Geo(), cache.sets, addr) == data
      ensures bytes == WriteBacks(old(bytes), wbs) && BlockRecords(cache.Geo(), wbs)
      ensures old(cache.missCount) + |wbs| <= cache.missCount
      ensures !IsSpecialAddr(addr) && r != Written(WriteFailure) ==>
        cache.hitCount + cache.missCount == old(cache.hitCount + cache.missCount) + width
      ensures r == Written(WriteFailure) ==>
        old(cache.hitCount + cache.missCount) < cache.hitCount + cache.missCount <= old(cache.hitCount + cache.missCount) + width
      ensures !IsSpecialAddr(addr) && old(forall k :: 0 <= k < width ==> Resident(cache.Geo(), cache.sets, Spot(addr, k))) ==>
        r != Written(WriteFailure) && wbs == [] && bytes == old(bytes)
        && cache.hitCount == old(cache.hitCount) + width && cache.missCount == old(cache.missCount)
      ensures old(Coherent(cache.Geo(), cache.sets, cache.nextLru)) ==> Coherent(cache.Geo(), cache.sets, cache.nextLru)
    {
      wbs := [];
      if IsSpecialAddr(addr) {
        return SpecialWrite(addr), wbs;
      }
      var ready;
      ready, wbs := ResolveBytes(addr, width, Write, addr, false);
      if !ready {
        status := InFlight;
        return Written(WriteFailure), wbs;
      }
      r := FinishWrite(addr, data);
    }
  }

  /** The write-back address of the write path, `evicted->addr`, is already block-aligned. */
  lemma WriteBackAligned(g: Geometry, victim: Line, block: u64)
    requires GeometryOk(g)
    ensures BlockAddress(g, EvictedOf(g, victim, block).addr) == EvictedOf(g, victim, block).addr
  {
    EvictedAddrFields(g, victim.tag, block);
  }
}
