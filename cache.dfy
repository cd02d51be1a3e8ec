/**
 * The cache of `cache.c` as an object: an array of sets, each a sequence of
 * lines, updated in place, with the global hit/miss/eviction counters and the
 * LRU clock `next_lru` as fields. Every method is proved against the value
 * functions of `CacheSpec`.
 */
module Cache {
  import opened Bits
  import opened Wrappers
  import opened CacheSpec

  class Cache {
    const s: nat
    const b: nat
    const E: nat
    /** Latency, in memory-stage calls, of filling a block. */
    const d: u64
    var sets: seq<seq<Line>>
    var hitCount: nat
    var missCount: nat
    var dirtyEvictions: nat
    var cleanEvictions: nat
    var nextLru: nat

    function Geo(): Geometry
    {
      Geometry(s, b, E)
    }

    ghost predicate Valid()
      reads this
    {
      WellFormed(Geo(), sets)
    }

    /** `create_cache`: 2^s sets of E invalid lines, each with a zeroed block of 2^b bytes. */
    constructor (sIn: nat, bIn: nat, eIn: nat, dIn: u64)
      requires GeometryOk(Geometry(sIn, bIn, eIn))
      ensures s == sIn && b == bIn && E == eIn && d == dIn
      ensures Valid() && sets == EmptyCache(Geo())
      ensures hitCount == 0 && missCount == 0 && dirtyEvictions == 0 && cleanEvictions == 0
      ensures nextLru == 0
    {
      s, b, E, d := sIn, bIn, eIn, dIn;
      var g := Geometry(sIn, bIn, eIn);
      var empty := EmptyCache(g);
      sets := empty;
      hitCount, missCount, dirtyEvictions, cleanEvictions := 0, 0, 0, 0;
      nextLru := 0;
    }

    /** `get_line`: scans every line of the address's set and keeps the last match. */
    method GetLine(addr: u64) returns (line: Option<nat>)
      requires Valid()
      ensures line == Lookup(Geo(), sets, addr)
      ensures line.Some? ==> line.value < E && Holds(sets[SetIndex(Geo(), addr)][line.value], Tag(Geo(), addr))
    {
      var lines := sets[SetIndex(Geo(), addr)];
      var tag := Tag(Geo(), addr);
      line := None;
      var i := 0;
      while i < E
        invariant 0 <= i <= E
        invariant line == FindLast(lines, tag, i)
      {
        if lines[i].valid && lines[i].tag == tag {
          line := Some(i);
        }
        i := i + 1;
      }
    }

    /**
     * `select_line`: the first invalid line of the set, else the first line
     * of least `lru`, counting the eviction as dirty or clean only in the
     * second case.
     */
    method SelectLine(addr: u64) returns (line: nat)
      requires Valid()
      modifies this`dirtyEvictions, this`cleanEvictions
      ensures line == Victim(sets[SetIndex(Geo(), addr)])
      ensures var lines := sets[SetIndex(Geo(), addr)];
        if FirstInvalid(lines, E).Some? then
          dirtyEvictions == old(dirtyEvictions) && cleanEvictions == old(cleanEvictions)
        else if lines[line].dirty then
          dirtyEvictions == old(dirtyEvictions) + 1 && cleanEvictions == old(cleanEvictions)
        else
          dirtyEvictions == old(dirtyEvictions) && cleanEvictions == old(cleanEvictions) + 1
    {
      var lines := sets[SetIndex(Geo(), addr)];
      var free: bool;
      line, free := ScanSet(lines);
      if free {
        return;
      }
      if !lines[line].dirty {
        cleanEvictions := cleanEvictions + 1;
      } else {
        dirtyEvictions := dirtyEvictions + 1;
      }
    }

    /**
     * The scan of `select_line`: it returns at the first invalid line, and
     * otherwise keeps the first line of least `lru`.
     */
    static method ScanSet(lines: seq<Line>) returns (line: nat, free: bool)
      requires |lines| >= 1
      ensures line == Victim(lines)
      ensures free <==> FirstInvalid(lines, |lines|).Some?
    {
      line := 0;
      var lru := lines[0].lru;
      var i := 0;
      while i < |lines|
        invariant 0 <= i <= |lines|
        invariant FirstInvalid(lines, i).None?
        invariant line == if i == 0 then 0 else MinLru(lines, i)
        invariant lru == lines[line].lru
      {
        if !lines[i].valid {
          return i, true;
        } else if lines[i].lru < lru {
          line := i;
          lru := lines[i].lru;
        }
        i := i + 1;
      }
      free := false;
    }

    /**
     * `check_hit`: on a hit the line is stamped with the clock, which then
     * advances, and marked dirty by a store; on a miss only the miss counter
     * moves.
     */
    method CheckHit(addr: u64, op: Op) returns (hit: bool)
      requires Valid()
      modifies this`hitCount, this`missCount, this`nextLru, this`sets
      ensures Valid()
      ensures hit == Resident(Geo(), old(sets), addr)
      ensures hit ==> (sets == HitState(Geo(), old(sets), addr, op, old(nextLru))
        && nextLru == old(nextLru) + 1 && hitCount == old(hitCount) + 1 && missCount == old(missCount))
      ensures !hit ==> (sets == old(sets)
        && nextLru == old(nextLru) && hitCount == old(hitCount) && missCount == old(missCount) + 1)
    {
      var line := GetLine(addr);
      hit := line.Some?;
      if !hit {
        missCount := missCount + 1;
      } else {
        var i, j := SetIndex(Geo(), addr), line.value;
        sets := sets[i := sets[i][j := Touch(sets[i][j], op, nextLru)]];
        hitCount := hitCount + 1;
        nextLru := nextLru + 1;
        HitKeepsCoherent(Geo(), old(sets), addr, op, old(nextLru));
      }
    }

    /**
     * `handle_miss`: the selected line is recorded in an eviction record and
     * replaced by the block of `addr`, stamped with the clock.
     */
    method HandleMiss(addr: u64, op: Op, incoming: Option<seq<Byte>>) returns (ev: Evicted)
      requires Valid()
      requires incoming.Some? ==> |incoming.value| == Pow2(b)
      modifies this`dirtyEvictions, this`cleanEvictions, this`nextLru, this`sets
      ensures Valid()
      ensures ev == EvictedOf(Geo(), old(sets)[SetIndex(Geo(), addr)][Victim(old(sets)[SetIndex(Geo(), addr)])], addr)
      ensures sets == FillState(Geo(), old(sets), addr, op, incoming, old(nextLru))
      ensures nextLru == old(nextLru) + 1
      ensures var lines := old(sets[SetIndex(Geo(), addr)]);
        if FirstInvalid(lines, E).Some? then
          dirtyEvictions == old(dirtyEvictions) && cleanEvictions == old(cleanEvictions)
        else if ev.dirty then
          dirtyEvictions == old(dirtyEvictions) + 1 && cleanEvictions == old(cleanEvictions)
        else
          dirtyEvictions == old(dirtyEvictions) && cleanEvictions == old(cleanEvictions) + 1
    {
      var j := SelectLine(addr);
      var i := SetIndex(Geo(), addr);
      var victim := sets[i][j];
      ev := EvictedOf(Geo(), victim, addr);
      sets := sets[i := sets[i][j := FillLine(Geo(), victim, addr, op, incoming, nextLru)]];
      nextLru := nextLru + 1;
      FillMakesResident(Geo(), old(sets), addr, op, incoming, old(nextLru));
    }

    /**
     * `set_word_cache`: byte k of `val`, least significant first, goes to
     * offset `(addr + k) & (B - 1)` of the line holding `addr + k`. The caller
     * guarantees the eight bytes are cached.
     */
    method SetWordCache(addr: u64, val: u64)
      requires Valid()
      modifies this`sets
      ensures Valid()
      ensures sets == WriteWord(Geo(), old(sets), addr, val, WORD_BYTES)
    {
      var v := val;
      var byte := 0;
      while byte < WORD_BYTES
        invariant 0 <= byte <= WORD_BYTES
        invariant Valid()
        invariant sets == WriteWord(Geo(), old(sets), addr, val, byte)
        invariant v == ShiftBytes(val, byte)
      {
        var spot := Spot(addr, byte);
        ShiftBytesStep(val, byte);
        ghost var before := sets;
        StoreByte(spot, v % 256);
        WriteWordNext(Geo(), old(sets), addr, val, byte, before, sets);
        v := v / 256;
        byte := byte + 1;
      }
      assert sets == WriteWord(Geo(), old(sets), addr, val, WORD_BYTES) by {
        assert byte == WORD_BYTES;
      }
    }

    /**
     * One step of `set_word_cache`: `line->data[spot & (B - 1)] = v` on the
     * line holding `spot`. Where the source would dereference a NULL line the
     * model leaves the cache as it is; `set_word_cache`'s callers rule that out.
     */
    method StoreByte(spot: u64, v: Byte)
      requires Valid()
      modifies this`sets
      ensures Valid()
      ensures sets == WriteByte(Geo(), old(sets), spot, v)
    {
      var line := GetLine(spot);
      if line.Some? {
        var i, j := SetIndex(Geo(), spot), line.value;
        var l := sets[i][j];
        sets := sets[i := sets[i][j := l.(data := l.data[Offset(Geo(), spot) := v])]];
      }
    }

    /**
     * Whether the eight bytes `set_word_cache` is about to store are all
     * cached; when one is not, its `get_line` returns NULL and the store
     * dereferences it.
     */
    method HoldsWord(addr: u64) returns (ok: bool)
      requires Valid()
      ensures ok <==> forall k :: 0 <= k < WORD_BYTES ==> Resident(Geo(), sets, Spot(addr, k))
    {
      var byte := 0;
      while byte < WORD_BYTES
        invariant 0 <= byte <= WORD_BYTES
        invariant forall k :: 0 <= k < byte ==> Resident(Geo(), sets, Spot(addr, k))
      {
        var line := GetLine(Spot(addr, byte));
        if line.None? {
          return false;
        }
        byte := byte + 1;
      }
      return true;
    }

    /**
     * `access_data`: a lookup, followed on a miss by a fill without incoming
     * data. A resident address is a hit; any other is a miss, whose fill
     * evicts, and is counted, as in `handle_miss`.
     */
    method AccessData(addr: u64, op: Op)
      requires Valid()
      modifies this`hitCount, this`missCount, this`dirtyEvictions, this`cleanEvictions, this`nextLru, this`sets
      ensures Valid() && Resident(Geo(), sets, addr)
      ensures var hit := old(Resident(Geo(), sets, addr));
        && (hit ==> sets == HitState(Geo(), old(sets), addr, op, old(nextLru)))
        && (!hit ==> sets == FillState(Geo(), old(sets), addr, op, None, old(nextLru)))
        && (hit ==> hitCount == old(hitCount) + 1 && missCount == old(missCount))
        && (!hit ==> hitCount == old(hitCount) && missCount == old(missCount) + 1)
      ensures var lines := old(sets[SetIndex(Geo(), addr)]);
        if old(Resident(Geo(), sets, addr)) || FirstInvalid(lines, E).Some? then
          dirtyEvictions == old(dirtyEvictions) && cleanEvictions == old(cleanEvictions)
        else if lines[Victim(lines)].dirty then
          dirtyEvictions == old(dirtyEvictions) + 1 && cleanEvictions == old(cleanEvictions)
        else
          dirtyEvictions == old(dirtyEvictions) && cleanEvictions == old(cleanEvictions) + 1
      ensures nextLru == old(nextLru) + 1
      ensures old(Coherent(Geo(), sets, nextLru)) ==> Coherent(Geo(), sets, nextLru)
    {
      ghost var st, next := sets, nextLru;
      var hit := CheckHit(addr, op);
      if hit {
        HitKeepsCoherent(Geo(), st, addr, op, next);
      } else {
        var ev := HandleMiss(addr, op, None);
        FillMakesResident(Geo(), st, addr, op, None, next);
      }
    }
  }
}
