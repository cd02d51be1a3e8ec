/**
 * The cache as values: address decomposition, the lookup, victim choice,
 * hit and fill updates of a set, the eviction record and the word store,
 * together with the invariants these updates keep.
 *
 * A cache has 2^s sets of E lines; each line holds a block of 2^b bytes.
 * An address splits into (tag, set index, block offset), from the most
 * significant bits down.
 */
module CacheSpec {
  import opened Bits
  import opened Wrappers

  datatype Op = Read | Write

  /** The width of the words `set_word_cache` stores. */
  const WORD_BYTES: nat := 8

  datatype Line = Line(valid: bool, tag: nat, dirty: bool, lru: nat, data: seq<Byte>)

  /** What `handle_miss` reports about the line it replaced. */
  datatype Evicted = Evicted(addr: u64, data: seq<Byte>, dirty: bool, valid: bool)

  datatype Geometry = Geometry(s: nat, b: nat, E: nat)

  /**
   * The geometries the C code computes with defined behaviour: the masks
   * `(1 << s) - 1` and `(1 << b) - 1` and the shifted mask
   * `((1 << s) - 1) << b` are computed on a 32-bit `int`, so each of `s`
   * and `b` stays at most 30 and `s + b` at most 31; `select_line` reads
   * line 0 of a set, so a set has at least one line.
   */
  predicate GeometryOk(g: Geometry)
  {
    1 <= g.E && g.s <= 30 && g.b <= 30 && g.s + g.b <= 31
  }

  function SetIndex(g: Geometry, addr: u64): (i: nat)
    ensures i < Pow2(g.s)
  {
    LowBits(Shr(addr, g.b), g.s)
  }

  function Tag(g: Geometry, addr: u64): nat
  {
    Shr(addr, g.s + g.b)
  }

  function Offset(g: Geometry, addr: u64): (o: nat)
    ensures o < Pow2(g.b) && o <= addr
  {
    LowBits(addr, g.b)
  }

  /** `addr & ~(B - 1)`: the first address of the block holding `addr`. */
  function BlockAddress(g: Geometry, addr: u64): u64
  {
    addr - Offset(g, addr)
  }

  /** The fields as quotients and remainders by powers of two. */
  lemma FieldsArithmetic(g: Geometry, addr: u64)
    ensures SetIndex(g, addr) == addr / Pow2(g.b) % Pow2(g.s)
    ensures Tag(g, addr) == addr / Pow2(g.s + g.b)
    ensures Offset(g, addr) == addr % Pow2(g.b)
  {
    ShrDiv(addr, g.b);
    LowBitsMod(addr / Pow2(g.b), g.s);
    ShrDiv(addr, g.s + g.b);
    LowBitsMod(addr, g.b);
  }

  /** Tag, set index and offset are the fields of the address, high to low. */
  lemma AddressFields(g: Geometry, addr: u64)
    ensures addr == Tag(g, addr) * Pow2(g.s + g.b) + SetIndex(g, addr) * Pow2(g.b) + Offset(g, addr)
  {
    FieldsArithmetic(g, addr);
    Pow2Add(g.b, g.s);
    ThreeFields(addr, Pow2(g.b), Pow2(g.s));
  }

  /** Two addresses with the same tag, set and offset are the same address. */
  lemma SameFieldsSameAddress(g: Geometry, a1: u64, a2: u64)
    requires Tag(g, a1) == Tag(g, a2) && SetIndex(g, a1) == SetIndex(g, a2)
    requires Offset(g, a1) == Offset(g, a2)
    ensures a1 == a2
  {
    AddressFields(g, a1);
    AddressFields(g, a2);
  }

  /** The block address lies in the same set under the same tag, at offset 0. */
  lemma BlockAddressFields(g: Geometry, addr: u64)
    ensures SetIndex(g, BlockAddress(g, addr)) == SetIndex(g, addr)
    ensures Tag(g, BlockAddress(g, addr)) == Tag(g, addr)
    ensures Offset(g, BlockAddress(g, addr)) == 0
  {
    ClearLowBits(addr, g.b);
    ShrAdd(addr, g.b, g.s);
    ShrAdd(BlockAddress(g, addr), g.b, g.s);
  }

  /** A line holding the block with this tag. */
  predicate Holds(l: Line, tag: nat)
  {
    l.valid && l.tag == tag
  }

  /**
   * `get_line`'s scan of the first `n` lines: it does not stop at the first
   * match, so the result is the LAST valid line carrying the tag.
   */
  function FindLast(lines: seq<Line>, tag: nat, n: nat): (r: Option<nat>)
    requires n <= |lines|
    ensures r.Some? ==> r.value < n && Holds(lines[r.value], tag)
    ensures r.Some? ==> forall j :: r.value < j < n ==> !Holds(lines[j], tag)
    ensures r.None? <==> forall j :: 0 <= j < n ==> !Holds(lines[j], tag)
  {
    if n == 0 then None
    else if Holds(lines[n - 1], tag) then Some(n - 1)
    else FindLast(lines, tag, n - 1)
  }

  /** The lookup depends only on the valid bits and tags of the lines. */
  lemma {:induction false} FindLastMeta(s1: seq<Line>, s2: seq<Line>, tag: nat, n: nat)
    requires n <= |s1| && n <= |s2|
    requires forall j :: 0 <= j < n ==> s1[j].valid == s2[j].valid && s1[j].tag == s2[j].tag
    ensures FindLast(s1, tag, n) == FindLast(s2, tag, n)
  {
    if n > 0 {
      FindLastMeta(s1, s2, tag, n - 1);
    }
  }

  /** The first invalid line among the first `n`, if any. */
  function FirstInvalid(lines: seq<Line>, n: nat): (r: Option<nat>)
    requires n <= |lines|
    ensures r.Some? ==> r.value < n && !lines[r.value].valid
    ensures r.Some? ==> forall j :: 0 <= j < r.value ==> lines[j].valid
    ensures r.None? <==> forall j :: 0 <= j < n ==> lines[j].valid
  {
    if n == 0 then None
    else
      var r := FirstInvalid(lines, n - 1);
      if r.Some? then r
      else if !lines[n - 1].valid then Some(n - 1)
      else None
  }

  /** The first of the least recently used lines among the first `n`. */
  function MinLru(lines: seq<Line>, n: nat): (r: nat)
    requires 1 <= n <= |lines|
    ensures r < n
    ensures forall j :: 0 <= j < n ==> lines[r].lru <= lines[j].lru
    ensures forall j :: 0 <= j < r ==> lines[r].lru < lines[j].lru
  {
    if n == 1 then 0
    else
      var m := MinLru(lines, n - 1);
      if lines[n - 1].lru < lines[m].lru then n - 1 else m
  }

  /** `select_line`: the first invalid line, else the least recently used one. */
  function Victim(lines: seq<Line>): (r: nat)
    requires |lines| >= 1
    ensures r < |lines|
  {
    match FirstInvalid(lines, |lines|)
    case Some(j) => j
    case None => MinLru(lines, |lines|)
  }

  /** Valid lines carry distinct tags. */
  predicate UniqueTags(lines: seq<Line>)
  {
    forall j1, j2 ::
      (0 <= j1 < |lines| && 0 <= j2 < |lines| && lines[j1].valid && lines[j2].valid
       && lines[j1].tag == lines[j2].tag) ==> j1 == j2
  }

  /** Valid lines carry distinct access stamps, all below the next stamp. */
  predicate Stamped(lines: seq<Line>, next: nat)
  {
    (forall j :: 0 <= j < |lines| && lines[j].valid ==> lines[j].lru < next)
    && (forall j1, j2 ::
          (0 <= j1 < |lines| && 0 <= j2 < |lines| && lines[j1].valid && lines[j2].valid
           && j1 != j2) ==> lines[j1].lru != lines[j2].lru)
  }

  predicate SetCoherent(lines: seq<Line>, next: nat)
  {
    UniqueTags(lines) && Stamped(lines, next)
  }

  /**
   * Least-recently-used replacement: when every line is valid and the
   * stamps are coherent, the victim was touched strictly before every other
   * line of its set.
   */
  lemma VictimIsLeastRecent(lines: seq<Line>, next: nat)
    requires |lines| >= 1 && SetCoherent(lines, next)
    requires forall j :: 0 <= j < |lines| ==> lines[j].valid
    ensures forall j :: 0 <= j < |lines| && j != Victim(lines) ==> lines[Victim(lines)].lru < lines[j].lru
  {
  }

  /** A free line is always used before any valid line is evicted. */
  lemma VictimPrefersFree(lines: seq<Line>, j: nat)
    requires j < |lines| && !lines[j].valid
    ensures !lines[Victim(lines)].valid && Victim(lines) <= j
  {
  }

  /** The hit update: stamp the line, and mark it dirty on a store. */
  function Touch(l: Line, op: Op, stamp: nat): Line
  {
    l.(lru := stamp, dirty := l.dirty || op != Read)
  }

  /**
   * The line `handle_miss` installs over `victim`. The C code copies
   * `sizeof(8)` bytes, the size of an `int`, so only the first four bytes of
   * the incoming block arrive; the rest of the old block stays in place.
   * A line of fewer than four bytes takes only as many as it holds.
   */
  function FillLine(g: Geometry, victim: Line, addr: u64, op: Op, incoming: Option<seq<Byte>>, stamp: nat): (l: Line)
    requires incoming.Some? ==> |incoming.value| >= Min(4, |victim.data|)
    ensures Holds(l, Tag(g, addr)) && l.lru == stamp && l.dirty == (op == Write)
    ensures |l.data| == |victim.data|
    ensures incoming.Some? ==> l.data[..Min(4, |victim.data|)] == incoming.value[..Min(4, |victim.data|)]
    ensures l.data[Min(4, |victim.data|)..] == victim.data[Min(4, |victim.data|)..]
    ensures incoming.None? ==> l.data == victim.data
  {
    var k := Min(4, |victim.data|);
    var data := if incoming.Some? then incoming.value[..k] + victim.data[k..] else victim.data;
    Line(true, Tag(g, addr), op == Write, stamp, data)
  }

  /**
   * The address `handle_miss` records for the evicted line. C precedence
   * makes the set part `(addr >> b) & (((1 << s) - 1) << b)`, so it is the
   * field of `addr` at bits [2b, 2b + s), moved to bits [b, b + s).
   */
  function EvictedAddr(g: Geometry, tag: nat, addr: u64): u64
  {
    BlockAt(g, tag, LowBits(Shr(Shr(addr, g.b), g.b), g.s))
  }

  /** `(tag << (s + b)) | (index << b)`, reduced to 64 bits. */
  function BlockAt(g: Geometry, tag: nat, index: nat): u64
  {
    Wrap64(tag * Pow2(g.s + g.b) + index * Pow2(g.b))
  }

  /** The address the evicted block actually came from: its tag over `addr`'s set. */
  function IntendedEvictedAddr(g: Geometry, tag: nat, addr: u64): u64
  {
    BlockAt(g, tag, SetIndex(g, addr))
  }

  /**
   * The recorded address is block-aligned and its set index is the field of
   * `addr` at bits [2b, 2b + s).
   */
  lemma EvictedAddrFields(g: Geometry, tag: nat, addr: u64)
    requires GeometryOk(g)
    ensures Offset(g, EvictedAddr(g, tag, addr)) == 0
    ensures SetIndex(g, EvictedAddr(g, tag, addr)) == LowBits(Shr(Shr(addr, g.b), g.b), g.s)
  {
    BlockWrap(g, tag, LowBits(Shr(Shr(addr, g.b), g.b), g.s));
  }

  /** Reducing `tag` over a set field modulo 2^64 keeps the set field and a zero offset. */
  lemma BlockWrap(g: Geometry, tag: nat, f: nat)
    requires GeometryOk(g) && f < Pow2(g.s)
    ensures Offset(g, BlockAt(g, tag, f)) == 0
    ensures SetIndex(g, BlockAt(g, tag, f)) == f
  {
    var pb, ps := Pow2(g.b), Pow2(g.s);
    var hi := Pow2(64 - (g.s + g.b));
    Pow2Add(g.b, g.s);
    Pow2Add(g.s + g.b, 64 - (g.s + g.b));
    Pow2Sixty4();
    WrapField(tag, f, pb, ps, hi);
    FieldsArithmetic(g, BlockAt(g, tag, f));
  }

  /** The arithmetic of `BlockWrap`, over plain numbers. */
  lemma WrapField(tag: nat, f: nat, pb: nat, ps: nat, hi: nat)
    requires pb > 0 && ps > 0 && hi > 0 && f < ps
    ensures (tag * (pb * ps) + f * pb) % (pb * ps * hi) % pb == 0
    ensures (tag * (pb * ps) + f * pb) % (pb * ps * hi) / pb % ps == f
  {
    var x := tag * (pb * ps) + f * pb;
    var q, t := tag / hi, tag % hi;
    var u := t * ps + f;
    SplitHigh(tag, hi, pb * ps);
    FieldProduct(t, f, pb, ps, hi);
    assert x == q * (pb * ps * hi) + u * pb;
    DivModUnique(x, pb * ps * hi, q, u * pb);
    DivModUnique(u * pb, pb, u, 0);
    DivModUnique(u, ps, t, f);
  }

  /** `tag * p` is its part above `hi` times `p * hi`, plus the rest times `p`. */
  lemma SplitHigh(tag: nat, hi: nat, p: nat)
    requires hi > 0
    ensures tag * p == tag / hi * (p * hi) + tag % hi * p
  {
    var q, t := tag / hi, tag % hi;
    assert tag == q * hi + t;
    calc {
      tag * p;
      (q * hi + t) * p;
      q * hi * p + t * p;
      q * (p * hi) + t * p;
    }
  }

  /** The low part `t` over the field `f`, scaled by `pb`, stays below `pb * ps * hi`. */
  lemma FieldProduct(t: nat, f: nat, pb: nat, ps: nat, hi: nat)
    requires t < hi && f < ps && pb > 0
    ensures t * (pb * ps) + f * pb == (t * ps + f) * pb
    ensures 0 <= (t * ps + f) * pb < pb * ps * hi
  {
    var u := t * ps + f;
    assert t * (pb * ps) + f * pb == u * pb by {
      MulComm3(t, pb, ps);
    }
    assert u + 1 <= ps * hi by {
      MulMono(t + 1, hi, ps);
    }
    MulMono(u + 1, ps * hi, pb);
    MulComm3(hi, pb, ps);
  }

  /** The recorded address is the true one whenever bits [b, b + s) and [2b, 2b + s) agree. */
  lemma EvictedAddrAgrees(g: Geometry, tag: nat, addr: u64)
    requires LowBits(Shr(Shr(addr, g.b), g.b), g.s) == SetIndex(g, addr)
    ensures EvictedAddr(g, tag, addr) == IntendedEvictedAddr(g, tag, addr)
  {
  }

  /**
   * With two sets of two-byte blocks, the block at address 2 lives in set 1,
   * but a line evicted from set 1 on its behalf is recorded at address 0,
   * which belongs to set 0: the write-back goes to the wrong block.
   */
  lemma EvictedAddrWrongSet()
    ensures SetIndex(Geometry(1, 1, 1), 2) == 1
    ensures IntendedEvictedAddr(Geometry(1, 1, 1), 0, 2) == 2
    ensures EvictedAddr(Geometry(1, 1, 1), 0, 2) == 0
    ensures SetIndex(Geometry(1, 1, 1), 0) == 0
  {
    var g := Geometry(1, 1, 1);
    assert Pow2(1) == 2 && Pow2(2) == 4 && Pow2(g.s + g.b) == 4;
    assert SetIndex(g, 2) == 1;
    assert SetIndex(g, 0) == 0;
    assert IntendedEvictedAddr(g, 0, 2) == BlockAt(g, 0, 1) == Wrap64(0 * 4 + 1 * 2);
    assert EvictedAddr(g, 0, 2) == BlockAt(g, 0, 0) == Wrap64(0 * 4 + 0 * 2);
  }

  /** The eviction record: the recorded address, the first eight bytes, the flags. */
  function EvictedOf(g: Geometry, victim: Line, addr: u64): (e: Evicted)
    ensures e.dirty == victim.dirty && e.valid == victim.valid
    ensures e.data == victim.data[..Min(8, |victim.data|)]
    ensures e.addr == EvictedAddr(g, victim.tag, addr)
  {
    Evicted(EvictedAddr(g, victim.tag, addr), victim.data[..Min(8, |victim.data|)], victim.dirty, victim.valid)
  }

  /*
   * Whole-cache state: one sequence of lines per set.
   */

  predicate WellFormed(g: Geometry, st: seq<seq<Line>>)
  {
    GeometryOk(g) && |st| == Pow2(g.s)
    && (forall i :: 0 <= i < |st| ==> |st[i]| == g.E)
    && (forall i, j :: 0 <= i < |st| && 0 <= j < |st[i]| ==> |st[i][j].data| == Pow2(g.b))
  }

  predicate Coherent(g: Geometry, st: seq<seq<Line>>, next: nat)
  {
    WellFormed(g, st) && forall i :: 0 <= i < |st| ==> SetCoherent(st[i], next)
  }

  /** The state `create_cache` builds: every line invalid, every block zero. */
  function EmptyCache(g: Geometry): (st: seq<seq<Line>>)
    requires GeometryOk(g)
    ensures WellFormed(g, st)
  {
    var zeros: seq<Byte> := seq(Pow2(g.b), _ => 0);
    var lines := seq(g.E, _ => Line(false, 0, false, 0, zeros));
    seq(Pow2(g.s), _ => lines)
  }

  /** A new cache holds no address, and its (absent) stamps are coherent with the clock at 0. */
  lemma EmptyCacheHoldsNothing(g: Geometry, addr: u64)
    requires GeometryOk(g)
    ensures Coherent(g, EmptyCache(g), 0)
    ensures !Resident(g, EmptyCache(g), addr)
  {
  }

  /** The line that holds `addr`, if any. */
  function Lookup(g: Geometry, st: seq<seq<Line>>, addr: u64): (r: Option<nat>)
    requires WellFormed(g, st)
    ensures r.Some? ==> r.value < g.E && Holds(st[SetIndex(g, addr)][r.value], Tag(g, addr))
    ensures r.None? <==> forall j :: 0 <= j < g.E ==> !Holds(st[SetIndex(g, addr)][j], Tag(g, addr))
  {
    FindLast(st[SetIndex(g, addr)], Tag(g, addr), g.E)
  }

  predicate Resident(g: Geometry, st: seq<seq<Line>>, addr: u64)
    requires WellFormed(g, st)
  {
    Lookup(g, st, addr).Some?
  }

  /** The cached copy of the byte at `addr`. */
  function CachedByte(g: Geometry, st: seq<seq<Line>>, addr: u64): Byte
    requires WellFormed(g, st) && Resident(g, st, addr)
  {
    st[SetIndex(g, addr)][Lookup(g, st, addr).value].data[Offset(g, addr)]
  }

  /** A line without its block contents. */
  function Meta(l: Line): Line
  {
    l.(data := [])
  }

  /** The lines of a state without their block contents. */
  function MetaOf(st: seq<seq<Line>>): seq<seq<Line>>
  {
    seq(|st|, i requires 0 <= i < |st| => seq(|st[i]|, j requires 0 <= j < |st[i]| => Meta(st[i][j])))
  }

  /** Two states with the same lines apart from the block contents. */
  predicate SameMeta(st1: seq<seq<Line>>, st2: seq<seq<Line>>)
  {
    MetaOf(st1) == MetaOf(st2)
  }

  /** Lines of states with the same metadata agree on everything but their blocks. */
  lemma MetaFields(st1: seq<seq<Line>>, st2: seq<seq<Line>>, i: nat, j: nat)
    requires SameMeta(st1, st2) && i < |st1| && j < |st1[i]|
    ensures |st1| == |st2| && |st1[i]| == |st2[i]|
    ensures st1[i][j].valid == st2[i][j].valid && st1[i][j].tag == st2[i][j].tag
    ensures st1[i][j].dirty == st2[i][j].dirty && st1[i][j].lru == st2[i][j].lru
  {
    assert |MetaOf(st1)| == |st1| && |MetaOf(st2)| == |st2|;
    assert |MetaOf(st1)[i]| == |st1[i]| && |MetaOf(st2)[i]| == |st2[i]|;
    assert MetaOf(st1)[i][j] == Meta(st1[i][j]) && MetaOf(st2)[i][j] == Meta(st2[i][j]);
  }

  lemma LookupMeta(g: Geometry, st1: seq<seq<Line>>, st2: seq<seq<Line>>, addr: u64)
    requires WellFormed(g, st1) && WellFormed(g, st2) && SameMeta(st1, st2)
    ensures Lookup(g, st1, addr) == Lookup(g, st2, addr)
  {
    var i := SetIndex(g, addr);
    forall j | 0 <= j < g.E
      ensures st1[i][j].valid == st2[i][j].valid && st1[i][j].tag == st2[i][j].tag
    {
      MetaFields(st1, st2, i, j);
    }
    FindLastMeta(st1[i], st2[i], Tag(g, addr), g.E);
  }

  /** Coherence depends only on valid bits, tags and stamps, not on block contents. */
  lemma CoherentMeta(g: Geometry, st1: seq<seq<Line>>, st2: seq<seq<Line>>, next: nat)
    requires Coherent(g, st1, next) && WellFormed(g, st2) && SameMeta(st1, st2)
    ensures Coherent(g, st2, next)
  {
    forall i, j | 0 <= i < |st2| && 0 <= j < |st2[i]|
      ensures st1[i][j].valid == st2[i][j].valid && st1[i][j].tag == st2[i][j].tag && st1[i][j].lru == st2[i][j].lru
    {
      MetaFields(st1, st2, i, j);
    }
  }

  /** `check_hit` on a resident address. */
  function HitState(g: Geometry, st: seq<seq<Line>>, addr: u64, op: Op, stamp: nat): seq<seq<Line>>
    requires WellFormed(g, st) && Resident(g, st, addr)
  {
    var i, j := SetIndex(g, addr), Lookup(g, st, addr).value;
    st[i := st[i][j := Touch(st[i][j], op, stamp)]]
  }

  /** `handle_miss`: the victim of `addr`'s set is replaced by the new block. */
  function FillState(g: Geometry, st: seq<seq<Line>>, addr: u64, op: Op, incoming: Option<seq<Byte>>, stamp: nat): seq<seq<Line>>
    requires WellFormed(g, st)
    requires incoming.Some? ==> |incoming.value| >= Min(4, Pow2(g.b))
  {
    var i := SetIndex(g, addr);
    var v := Victim(st[i]);
    st[i := st[i][v := FillLine(g, st[i][v], addr, op, incoming, stamp)]]
  }

  lemma StampedLater(lines: seq<Line>, next: nat, later: nat)
    requires Stamped(lines, next) && next <= later
    ensures Stamped(lines, later)
  {
  }

  /**
   * A hit keeps the lines well formed, the lookup and the cached byte of the
   * address unchanged, and coherent stamps coherent under the advanced clock.
   */
  lemma HitKeepsCoherent(g: Geometry, st: seq<seq<Line>>, addr: u64, op: Op, next: nat)
    requires WellFormed(g, st) && Resident(g, st, addr)
    ensures WellFormed(g, HitState(g, st, addr, op, next))
    ensures Lookup(g, HitState(g, st, addr, op, next), addr) == Lookup(g, st, addr)
    ensures Resident(g, HitState(g, st, addr, op, next), addr)
      && CachedByte(g, HitState(g, st, addr, op, next), addr) == CachedByte(g, st, addr)
    ensures Coherent(g, st, next) ==> Coherent(g, HitState(g, st, addr, op, next), next + 1)
  {
    var st' := HitState(g, st, addr, op, next);
    var i, j := SetIndex(g, addr), Lookup(g, st, addr).value;
    FindLastMeta(st[i], st'[i], Tag(g, addr), g.E);
    if Coherent(g, st, next) {
      forall i' | 0 <= i' < |st'|
        ensures SetCoherent(st'[i'], next + 1)
      {
        if i' != i {
          StampedLater(st[i'], next, next + 1);
        }
      }
    }
  }

  /** A hit changes no valid bit or tag, so no lookup of any address changes. */
  lemma HitKeepsLookups(g: Geometry, st: seq<seq<Line>>, addr: u64, op: Op, stamp: nat, a: u64)
    requires WellFormed(g, st) && Resident(g, st, addr)
    ensures WellFormed(g, HitState(g, st, addr, op, stamp))
    ensures Lookup(g, HitState(g, st, addr, op, stamp), a) == Lookup(g, st, a)
  {
    var i := SetIndex(g, a);
    FindLastMeta(st[i], HitState(g, st, addr, op, stamp)[i], Tag(g, a), g.E);
  }

  /**
   * A fill makes the address resident. If the address was absent, the
   * filled line is the one that holds it and the state stays coherent.
   */
  lemma FillMakesResident(g: Geometry, st: seq<seq<Line>>, addr: u64, op: Op, incoming: Option<seq<Byte>>, next: nat)
    requires WellFormed(g, st)
    requires incoming.Some? ==> |incoming.value| >= Min(4, Pow2(g.b))
    ensures WellFormed(g, FillState(g, st, addr, op, incoming, next))
    ensures Resident(g, FillState(g, st, addr, op, incoming, next), addr)
    ensures Coherent(g, st, next) && !Resident(g, st, addr) ==>
      Coherent(g, FillState(g, st, addr, op, incoming, next), next + 1)
      && Lookup(g, FillState(g, st, addr, op, incoming, next), addr) == Some(Victim(st[SetIndex(g, addr)]))
  {
    var st' := FillState(g, st, addr, op, incoming, next);
    var i := SetIndex(g, addr);
    var v := Victim(st[i]);
    assert Holds(st'[i][v], Tag(g, addr));
    if Coherent(g, st, next) && !Resident(g, st, addr) {
      forall i' | 0 <= i' < |st'|
        ensures SetCoherent(st'[i'], next + 1)
      {
        if i' != i {
          StampedLater(st[i'], next, next + 1);
        }
      }
    }
  }

  /** Writing one cached byte: `line->data[offset] = v` (nothing when the byte is not cached). */
  function WriteByte(g: Geometry, st: seq<seq<Line>>, addr: u64, v: Byte): (st': seq<seq<Line>>)
    requires WellFormed(g, st)
    ensures WellFormed(g, st')
  {
    if !Resident(g, st, addr) then st
    else
      var i, j := SetIndex(g, addr), Lookup(g, st, addr).value;
      var l := st[i][j];
      st[i := st[i][j := l.(data := l.data[Offset(g, addr) := v])]]
  }

  /** `set_word_cache`: bytes 0 .. n-1 of `val`, least significant first, at addr, addr+1, ... */
  function WriteWord(g: Geometry, st: seq<seq<Line>>, addr: u64, val: u64, n: nat): (st': seq<seq<Line>>)
    requires WellFormed(g, st)
    ensures WellFormed(g, st')
  {
    if n == 0 then st
    else WriteByte(g, WriteWord(g, st, addr, val, n - 1), Spot(addr, n - 1), ByteOf(val, n - 1))
  }

  /** A word store of `n + 1` bytes is the store of `n` bytes followed by byte `n`. */
  lemma WriteWordNext(g: Geometry, st: seq<seq<Line>>, addr: u64, val: u64, n: nat, before: seq<seq<Line>>, after: seq<seq<Line>>)
    requires WellFormed(g, st) && before == WriteWord(g, st, addr, val, n)
    requires after == WriteByte(g, before, Spot(addr, n), ByteOf(val, n))
    ensures after == WriteWord(g, st, addr, val, n + 1)
  {
  }

  /** A byte write changes no valid bit, tag, dirty bit or stamp. */
  lemma WriteByteMeta(g: Geometry, st: seq<seq<Line>>, addr: u64, v: Byte)
    requires WellFormed(g, st)
    ensures SameMeta(st, WriteByte(g, st, addr, v))
  {
    var st' := WriteByte(g, st, addr, v);
    if Resident(g, st, addr) {
      var i := SetIndex(g, addr);
      assert MetaOf(st')[i] == MetaOf(st)[i];
      assert MetaOf(st') == MetaOf(st);
    }
  }

  /** Nor does a word store. */
  lemma {:induction false} WriteWordMeta(g: Geometry, st: seq<seq<Line>>, addr: u64, val: u64, n: nat)
    requires WellFormed(g, st)
    ensures SameMeta(st, WriteWord(g, st, addr, val, n))
  {
    if n > 0 {
      var mid := WriteWord(g, st, addr, val, n - 1);
      WriteWordMeta(g, st, addr, val, n - 1);
      WriteByteMeta(g, mid, Spot(addr, n - 1), ByteOf(val, n - 1));
    }
  }

  /** A byte write changes that byte only. */
  lemma WriteByteEffect(g: Geometry, st: seq<seq<Line>>, addr: u64, v: Byte, a: u64)
    requires WellFormed(g, st) && Resident(g, st, addr) && Resident(g, st, a)
    ensures Resident(g, WriteByte(g, st, addr, v), a)
    ensures CachedByte(g, WriteByte(g, st, addr, v), a) == if a == addr then v else CachedByte(g, st, a)
  {
    var st' := WriteByte(g, st, addr, v);
    WriteByteMeta(g, st, addr, v);
    LookupMeta(g, st, st', a);
    LookupMeta(g, st, st', addr);
    if a != addr && SetIndex(g, a) == SetIndex(g, addr) && Lookup(g, st, a) == Lookup(g, st, addr) {
      if Offset(g, a) == Offset(g, addr) {
        SameFieldsSameAddress(g, a, addr);
      }
    }
  }

  /** `spot = addr + byte`: the address of byte `k` of a word at `addr`. */
  function Spot(addr: u64, k: nat): u64
  {
    Wrap64(addr + k)
  }

  /** Distinct offsets below eight give distinct addresses. */
  lemma WrapDistinct(addr: u64, k1: nat, k2: nat)
    requires k1 < k2 < 8
    ensures Spot(addr, k1) != Spot(addr, k2)
  {
  }

  /** A word store changes no line's tag or valid bit, so no lookup changes. */
  lemma WriteWordLookup(g: Geometry, st: seq<seq<Line>>, addr: u64, val: u64, n: nat, a: u64)
    requires WellFormed(g, st)
    ensures Lookup(g, WriteWord(g, st, addr, val, n), a) == Lookup(g, st, a)
  {
    WriteWordMeta(g, st, addr, val, n);
    LookupMeta(g, st, WriteWord(g, st, addr, val, n), a);
  }

  /** One step of a word store: the last byte written, every other resident byte kept. */
  lemma WriteWordStep(g: Geometry, st: seq<seq<Line>>, addr: u64, val: u64, n: nat, a: u64)
    requires WellFormed(g, st) && 0 < n
    requires Resident(g, st, Spot(addr, n - 1)) && Resident(g, st, a)
    ensures Resident(g, WriteWord(g, st, addr, val, n), a)
    ensures CachedByte(g, WriteWord(g, st, addr, val, n), a)
      == if a == Spot(addr, n - 1) then ByteOf(val, n - 1) else CachedByte(g, WriteWord(g, st, addr, val, n - 1), a)
  {
    var mid, last, v := WriteWord(g, st, addr, val, n - 1), Spot(addr, n - 1), ByteOf(val, n - 1);
    WriteWordMeta(g, st, addr, val, n - 1);
    LookupMeta(g, st, mid, last);
    LookupMeta(g, st, mid, a);
    WriteByteEffect(g, mid, last, v, a);
  }

  /** After a word store, byte k of the word is cached at addr + k. */
  lemma {:induction false} WriteWordHits(g: Geometry, st: seq<seq<Line>>, addr: u64, val: u64, n: nat, i: nat)
    requires WellFormed(g, st) && i < n <= 8
    requires forall k :: 0 <= k < n ==> Resident(g, st, Spot(addr, k))
    ensures Resident(g, WriteWord(g, st, addr, val, n), Spot(addr, i))
    ensures CachedByte(g, WriteWord(g, st, addr, val, n), Spot(addr, i)) == ByteOf(val, i)
  {
    var spot, last := Spot(addr, i), Spot(addr, n - 1);
    if i < n - 1 {
      assert Resident(g, WriteWord(g, st, addr, val, n - 1), spot)
        && CachedByte(g, WriteWord(g, st, addr, val, n - 1), spot) == ByteOf(val, i) by {
        WriteWordHits(g, st, addr, val, n - 1, i);
      }
      assert spot != last by {
        WrapDistinct(addr, i, n - 1);
      }
      WriteWordStep(g, st, addr, val, n, spot);
    } else {
      assert spot == last;
      WriteWordStep(g, st, addr, val, n, spot);
    }
  }

  /** A word store leaves every other resident byte as it was. */
  lemma {:induction false} WriteWordMisses(g: Geometry, st: seq<seq<Line>>, addr: u64, val: u64, n: nat, a: u64)
    requires WellFormed(g, st) && n <= 8
    requires forall k :: 0 <= k < n ==> Resident(g, st, Spot(addr, k))
    requires Resident(g, st, a) && forall k :: 0 <= k < n ==> a != Spot(addr, k)
    ensures Resident(g, WriteWord(g, st, addr, val, n), a)
    ensures CachedByte(g, WriteWord(g, st, addr, val, n), a) == CachedByte(g, st, a)
  {
    if n > 0 {
      WriteWordStep(g, st, addr, val, n, a);
      WriteWordMisses(g, st, addr, val, n - 1, a);
    }
  }

  /** The cached bytes at addr .. addr+n-1. */
  function CachedBytes(g: Geometry, st: seq<seq<Line>>, addr: u64, n: nat): (bs: seq<Byte>)
    requires WellFormed(g, st)
    requires forall k :: 0 <= k < n ==> Resident(g, st, Spot(addr, k))
    ensures |bs| == n && forall k :: 0 <= k < n ==> bs[k] == CachedByte(g, st, Spot(addr, k))
  {
    if n == 0 then [] else CachedBytes(g, st, addr, n - 1) + [CachedByte(g, st, Spot(addr, n - 1))]
  }

  /** The eight cached bytes at addr .. addr+7, little-endian. */
  function CachedWord(g: Geometry, st: seq<seq<Line>>, addr: u64): nat
    requires WellFormed(g, st)
    requires forall k :: 0 <= k < WORD_BYTES ==> Resident(g, st, Spot(addr, k))
  {
    LittleEndian(CachedBytes(g, st, addr, WORD_BYTES))
  }

  /** The first `n` bytes of a stored word read back as its low `n` bytes. */
  lemma StoredBytesRoundTrip(g: Geometry, st: seq<seq<Line>>, addr: u64, val: u64, n: nat)
    requires WellFormed(g, st) && n <= 8
    requires forall k :: 0 <= k < n ==> Resident(g, st, Spot(addr, k))
    ensures var st' := WriteWord(g, st, addr, val, n);
      (forall k :: 0 <= k < n ==> Resident(g, st', Spot(addr, k)))
      && LittleEndian(CachedBytes(g, st', addr, n)) == val % Pow256(n)
  {
    var st' := WriteWord(g, st, addr, val, n);
    forall k | 0 <= k < n
      ensures Resident(g, st', Spot(addr, k)) && CachedByte(g, st', Spot(addr, k)) == ByteOf(val, k)
    {
      WriteWordHits(g, st, addr, val, n, k);
    }
    LittleEndianOfBytes(CachedBytes(g, st', addr, n), val);
  }

  /** A word stored in the cache reads back unchanged. */
  lemma WriteWordRoundTrip(g: Geometry, st: seq<seq<Line>>, addr: u64, val: u64)
    requires WellFormed(g, st)
    requires forall k :: 0 <= k < WORD_BYTES ==> Resident(g, st, Spot(addr, k))
    ensures var st' := WriteWord(g, st, addr, val, WORD_BYTES);
      (forall k :: 0 <= k < WORD_BYTES ==> Resident(g, st', Spot(addr, k))) && CachedWord(g, st', addr) == val
  {
    assert val % Pow256(WORD_BYTES) == val by {
      Pow256Eight();
    }
    StoredBytesRoundTrip(g, st, addr, val, WORD_BYTES);
  }

}
