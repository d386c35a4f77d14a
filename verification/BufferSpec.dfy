/** The buffer table above the page pools, on values: GET, FREE, LOCK, UNLOCK, closing a
    file and `freelock`.  A file's ownership flags are a sequence of booleans, one per slot. */
module BufferSpec {
  import opened Wrappers
  import opened Arithmetic
  import opened Ranges
  import opened PoolSpec

  const MAX_BUFFS := 1000
  const MAX_NUMA_ZONES := 4

  const TYPE_GFP := 1
  const TYPE_GFPBPA := 4
  const TYPE_NUMA := 5
  const TYPE_NUMABPA := 6

  predicate IsPoolKind(kind: nat) { kind == TYPE_GFPBPA || kind == TYPE_NUMABPA }

  predicate IsPageKind(kind: nat) { kind == TYPE_GFP || kind == TYPE_NUMA }

  /** The fields of a table entry that the operations depend on; `order` holds a page count
      for the pool types. */
  datatype Slot = Slot(used: bool, locked: bool, kind: nat, numa: nat, kaddr: int, order: nat)

  const EmptySlot := Slot(false, false, 0, 0, 0, 0)

  type Flags = seq<bool>

  datatype Driver = Driver(table: seq<Slot>, pools: seq<Pool>)

  datatype Error = Overflow | PageAllocation | Above4G | PoolAllocation | IllegalHandle

  /** What the kernel page allocator answers to a GFP or NUMA request. */
  datatype PageOutcome = Refused | TooHigh | Pages(kaddr: int)

  datatype Request = Request(kind: nat, numa: nat, bytes: nat, order: nat,
                             pages: PageOutcome, newOk: bool, alignOk: bool)

  /** `(size - 1) / PAGE_SIZE + 1` in 64-bit arithmetic, kept in 32 unsigned bits; this is what
      the table entry records. */
  function PageCount(bytes: nat): nat {
    (((bytes + 0xFFFF_FFFF_FFFF_FFFF) % 0x1_0000_0000_0000_0000) / PAGE_SIZE + 1) % 0x1_0000_0000
  }

  /** The count is the number of pages that hold the bytes, as far as 32 bits go; asking for no
      bytes asks for no pages. */
  lemma PageCountIsCeiling(bytes: nat, pages: nat)
    requires bytes <= 0x1_0000_0000_0000_0000 && pages * PAGE_SIZE - PAGE_SIZE < bytes <= pages * PAGE_SIZE
    ensures PageCount(bytes) == pages % 0x1_0000_0000
  {
    if bytes > 0 {
      ModShift(bytes + 0xFFFF_FFFF_FFFF_FFFF, 0x1_0000_0000_0000_0000);
      DivModIs(bytes - 1, PAGE_SIZE, pages - 1, bytes - 1 - (pages - 1) * PAGE_SIZE);
    }
  }

  /** Up to 2^32 - 1 pages the count is the least number of pages that hold the bytes. */
  lemma PageCountHolds(bytes: nat)
    requires 0 < bytes <= 0xFFFF_FFFF * PAGE_SIZE
    ensures bytes <= PageCount(bytes) * PAGE_SIZE < bytes + PAGE_SIZE
  {
    var pages := (bytes + PAGE_SIZE - 1) / PAGE_SIZE;
    PageCountIsCeiling(bytes, pages);
  }

  /** The page count as the allocator receives it, in a signed 32-bit parameter. */
  function Signed(count: nat): int {
    if count >= 0x8000_0000 then count - 0x1_0000_0000 else count
  }

  /** The zone a pool request allocates from. */
  function ZoneOf(req: Request): nat {
    if req.kind == TYPE_GFPBPA then 0 else req.numa
  }

  predicate ValidRequest(req: Request) {
    IsPoolKind(req.kind) ==> req.numa < MAX_NUMA_ZONES
  }

  /** First unused slot; the table length if there is none. */
  function FirstUnused(table: seq<Slot>): (k: nat)
    ensures k <= |table| && (k < |table| ==> !table[k].used)
    ensures forall i :: 0 <= i < k ==> table[i].used
  {
    if table == [] then 0
    else if !table[0].used then 0
    else FirstUnused(table[1..]) + 1
  }

  function Filled(s: Slot, req: Request, kaddr: int, order: nat): Slot {
    s.(used := true, locked := false, kind := req.kind, numa := req.numa, kaddr := kaddr, order := order)
  }

  function Get(d: Driver, flags: Flags, req: Request): (Driver, Flags, Result<nat, Error>)
    requires |flags| == |d.table| && |d.pools| == MAX_NUMA_ZONES && ValidRequest(req)
  {
    var k := FirstUnused(d.table);
    if k == |d.table| then (d, flags, Err(Overflow))
    else
      var s := d.table[k];
      if IsPageKind(req.kind) then
        match req.pages
        case Refused => (d, flags[k := false], Err(PageAllocation))
        case TooHigh => (d, flags[k := false], Err(Above4G))
        case Pages(kaddr) => (d.(table := d.table[k := Filled(s, req, kaddr, req.order)]), flags[k := true], Ok(k))
      else if IsPoolKind(req.kind) then
        var count := PageCount(req.bytes);
        var (pool, res) := Alloc(d.pools[ZoneOf(req)], Signed(count), 0, req.newOk, req.alignOk);
        match res
        case None => (d.(table := d.table[k := s.(order := count)]), flags[k := false], Err(PoolAllocation))
        case Some(kaddr) =>
          (Driver(d.table[k := Filled(s, req, kaddr, count)], d.pools[ZoneOf(req) := pool]), flags[k := true], Ok(k))
      else
        // an undefined type leaves the reservation in place and reports success
        (d.(table := d.table[k := s.(used := true)]), flags[k := true], Ok(k))
  }

  function Cleared(s: Slot, locked: bool): Slot {
    s.(used := false, locked := locked, kind := 0, kaddr := 0, order := 0)
  }

  /** Give the memory of a slot back; membpa_free_pages ignores every type but the pool ones. */
  function Returned(pools: seq<Pool>, s: Slot): (r: seq<Pool>)
    ensures |r| == |pools|
  {
    if IsPoolKind(s.kind) && s.numa < |pools| then pools[s.numa := PoolSpec.Free(pools[s.numa], s.kaddr)] else pools
  }

  /** Return the memory of slot `i` and clear the entry. */
  function Drop(d: Driver, i: nat, locked: bool): (r: Driver)
    requires i < |d.table|
    ensures |r.table| == |d.table| && |r.pools| == |d.pools|
  {
    Driver(d.table[i := Cleared(d.table[i], locked)], Returned(d.pools, d.table[i]))
  }

  /** Every pool buffer records a zone that exists. */
  predicate ZonesInRange(d: Driver) {
    |d.pools| == MAX_NUMA_ZONES
    && forall i :: 0 <= i < |d.table| && IsPoolKind(d.table[i].kind) ==> d.table[i].numa < MAX_NUMA_ZONES
  }

  function Free(d: Driver, flags: Flags, h: nat): (Driver, Flags, Result<(), Error>)
    requires |flags| == |d.table| && h < |d.table|
  {
    if !d.table[h].used then (d, flags, Err(IllegalHandle))
    else (Drop(d, h, false), flags[h := false], Ok(()))
  }

  function SetLocked(d: Driver, h: nat, locked: bool): (Driver, Result<(), Error>)
    requires h < |d.table|
  {
    if !d.table[h].used then (d, Err(IllegalHandle))
    else (d.(table := d.table[h := d.table[h].(locked := locked)]), Ok(()))
  }

  /** One step of the loop that runs when a file is closed. */
  function CloseSlot(d: Driver, flags: Flags, i: nat): (r: Driver)
    requires |flags| == |d.table| && i < |d.table|
    ensures |r.table| == |d.table| && |r.pools| == |d.pools|
  {
    if flags[i] && !d.table[i].locked then Drop(d, i, false) else d
  }

  /** The driver after the first `n` slots of the closing loop. */
  function CloseUpTo(d: Driver, flags: Flags, n: nat): (r: Driver)
    requires |flags| == |d.table| && n <= |d.table|
    ensures |r.table| == |d.table| && |r.pools| == |d.pools|
  {
    if n == 0 then d else CloseSlot(CloseUpTo(d, flags, n - 1), flags, n - 1)
  }

  function Close(d: Driver, flags: Flags): Driver
    requires |flags| == |d.table|
  {
    CloseUpTo(d, flags, |d.table|)
  }

  /** One step of `freelock`: the entry is cleared but its lock mark stays. */
  function FreeLockSlot(d: Driver, i: nat): (r: Driver)
    requires i < |d.table|
    ensures |r.table| == |d.table| && |r.pools| == |d.pools|
  {
    if d.table[i].used && d.table[i].locked then Drop(d, i, true) else d
  }

  function FreeLockUpTo(d: Driver, n: nat): (r: Driver)
    requires n <= |d.table|
    ensures |r.table| == |d.table| && |r.pools| == |d.pools|
  {
    if n == 0 then d else FreeLockSlot(FreeLockUpTo(d, n - 1), n - 1)
  }

  function FreeLock(d: Driver): Driver {
    FreeLockUpTo(d, |d.table|)
  }

  // ---------------------------------------------------------------- the invariant

  datatype Region = Region(lo: int, hi: int)

  /** The pools live in disjoint regions of the address space. */
  ghost predicate DisjointRegions(regions: seq<Region>) {
    |regions| == MAX_NUMA_ZONES
    && forall y, z :: 0 <= y < z < |regions| ==> regions[y].hi <= regions[z].lo || regions[z].hi <= regions[y].lo
  }

  function BlockOf(s: Slot): Range { Range(s.kaddr, s.order * PAGE_SIZE) }

  predicate InZone(s: Slot, z: nat) { IsPoolKind(s.kind) && s.numa == z }

  function BlockIn(s: Slot, z: nat): multiset<Range> {
    if InZone(s, z) then multiset{BlockOf(s)} else multiset{}
  }

  /** The blocks that the table entries of zone `z` stand for. */
  function Blocks(table: seq<Slot>, z: nat): multiset<Range> {
    if table == [] then multiset{} else BlockIn(table[0], z) + Blocks(table[1..], z)
  }

  /** An unused entry has no type, and a pool buffer records a zone that exists. */
  predicate SlotOk(s: Slot) {
    (!s.used ==> s.kind == 0) && (IsPoolKind(s.kind) ==> s.numa < MAX_NUMA_ZONES)
  }

  /** The pool of zone `z` is well formed, and the entries of the zone are in one-to-one
      correspondence with its used blocks. */
  ghost predicate ZoneOk(d: Driver, regions: seq<Region>, z: nat)
    requires z < |d.pools| && z < |regions|
  {
    WellFormed(d.pools[z], regions[z].lo, regions[z].hi) && Blocks(d.table, z) == multiset(d.pools[z].used)
  }

  /** The table and the pools agree. */
  ghost predicate Consistent(d: Driver, regions: seq<Region>) {
    && |d.table| == MAX_BUFFS && |d.pools| == MAX_NUMA_ZONES && |regions| == MAX_NUMA_ZONES
    && (forall i :: 0 <= i < MAX_BUFFS ==> SlotOk(d.table[i]))
    && (forall z :: 0 <= z < MAX_NUMA_ZONES ==> ZoneOk(d, regions, z))
  }

  lemma {:induction false} BlocksAppend(t: seq<Slot>, u: seq<Slot>, z: nat)
    ensures Blocks(t + u, z) == Blocks(t, z) + Blocks(u, z)
  {
    if t == [] {
      assert t + u == u;
    } else {
      assert (t + u)[1..] == t[1..] + u;
      BlocksAppend(t[1..], u, z);
    }
  }

  lemma BlocksSplit(table: seq<Slot>, i: nat, z: nat)
    requires i < |table|
    ensures Blocks(table, z) == Blocks(table[..i], z) + BlockIn(table[i], z) + Blocks(table[i + 1..], z)
  {
    assert table == table[..i] + table[i..];
    BlocksAppend(table[..i], table[i..], z);
    assert table[i..][1..] == table[i + 1..];
  }

  lemma BlocksUpdate(table: seq<Slot>, i: nat, s: Slot, z: nat)
    requires i < |table|
    ensures BlockIn(table[i], z) <= Blocks(table, z)
    ensures Blocks(table[i := s], z) == Blocks(table, z) - BlockIn(table[i], z) + BlockIn(s, z)
  {
    var table' := table[i := s];
    BlocksSplit(table, i, z);
    BlocksSplit(table', i, z);
    assert table'[..i] == table[..i] && table'[i + 1..] == table[i + 1..];
    SwapMiddle(Blocks(table[..i], z), BlockIn(table[i], z), BlockIn(s, z), Blocks(table[i + 1..], z));
  }

  lemma SwapMiddle<T>(a: multiset<T>, x: multiset<T>, y: multiset<T>, b: multiset<T>)
    ensures a + y + b == a + x + b - x + y && x <= a + x + b
  {
  }

  /** A zone in which slot `i` stands for a block loses exactly that block. */
  lemma DropInZone(d: Driver, regions: seq<Region>, i: nat, locked: bool, z: nat)
    requires i < |d.table| && z < |d.pools| && z < |regions| && ZoneOk(d, regions, z) && InZone(d.table[i], z)
    ensures WellFormed(PoolSpec.Free(d.pools[z], d.table[i].kaddr), regions[z].lo, regions[z].hi)
    ensures Blocks(d.table[i := Cleared(d.table[i], locked)], z)
            == multiset(PoolSpec.Free(d.pools[z], d.table[i].kaddr).used)
  {
    var block, pool := BlockOf(d.table[i]), d.pools[z];
    BlocksUpdate(d.table, i, Cleared(d.table[i], locked), z);
    assert block in Blocks(d.table, z);
    assert block in multiset(pool.used);
    FreeWellFormed(pool, regions[z].lo, regions[z].hi, block.base);
    var k := OneOf(pool.used, block);
    FreeTakesOne(pool, regions[z].lo, regions[z].hi, k);
  }

  lemma DropIs(d: Driver, i: nat, locked: bool, z: nat)
    requires i < |d.table| && z < |d.pools|
    ensures Drop(d, i, locked).table == d.table[i := Cleared(d.table[i], locked)]
    ensures Drop(d, i, locked).pools[z]
            == if InZone(d.table[i], z) then PoolSpec.Free(d.pools[z], d.table[i].kaddr) else d.pools[z]
  {
  }

  lemma DropZone(d: Driver, regions: seq<Region>, i: nat, locked: bool, z: nat)
    requires i < |d.table| && z < |d.pools| && z < |regions| && ZoneOk(d, regions, z)
    ensures ZoneOk(Drop(d, i, locked), regions, z)
  {
    DropIs(d, i, locked, z);
    if InZone(d.table[i], z) {
      DropInZone(d, regions, i, locked, z);
    } else {
      BlocksUpdate(d.table, i, Cleared(d.table[i], locked), z);
    }
  }

  lemma DropKeeps(d: Driver, regions: seq<Region>, i: nat, locked: bool)
    requires Consistent(d, regions) && i < MAX_BUFFS
    ensures Consistent(Drop(d, i, locked), regions)
  {
    var d' := Drop(d, i, locked);
    forall z | 0 <= z < MAX_NUMA_ZONES ensures ZoneOk(d', regions, z) {
      DropZone(d, regions, i, locked, z);
    }
  }

  /** Replacing an entry by one that stands for the same blocks keeps the agreement. */
  lemma RewriteKeeps(d: Driver, regions: seq<Region>, i: nat, s: Slot)
    requires Consistent(d, regions) && i < MAX_BUFFS
    requires s.kind == d.table[i].kind
    requires IsPoolKind(s.kind) ==> s.numa == d.table[i].numa && BlockOf(s) == BlockOf(d.table[i])
    requires SlotOk(s)
    ensures Consistent(d.(table := d.table[i := s]), regions)
  {
    var d' := d.(table := d.table[i := s]);
    forall z | 0 <= z < MAX_NUMA_ZONES ensures ZoneOk(d', regions, z) {
      assert ZoneOk(d, regions, z) && SlotOk(d.table[i]);
      BlocksUpdate(d.table, i, s, z);
    }
  }

  /** Placing a page-allocator buffer in an unused entry does not concern the pools. */
  lemma PageSlotKeeps(d: Driver, regions: seq<Region>, i: nat, s: Slot)
    requires Consistent(d, regions) && i < MAX_BUFFS && !d.table[i].used && !IsPoolKind(s.kind) && s.used && SlotOk(s)
    ensures Consistent(d.(table := d.table[i := s]), regions)
  {
    var d' := d.(table := d.table[i := s]);
    forall z | 0 <= z < MAX_NUMA_ZONES ensures ZoneOk(d', regions, z) {
      assert ZoneOk(d, regions, z) && SlotOk(d.table[i]);
      BlocksUpdate(d.table, i, s, z);
    }
  }

  /** A request that the library makes: at least one page, fewer pages than make the count
      negative, and GFPBPA with NUMA id 0. */
  predicate Proper(req: Request) {
    IsPoolKind(req.kind) ==> 1 <= PageCount(req.bytes) < 0x8000_0000 && req.numa == ZoneOf(req)
  }

  /** Recording a newly used block of pool `zone` in an entry that stood for nothing. */
  lemma PlaceBlock(d: Driver, k: nat, s: Slot, zone: nat, pool: Pool, z: nat)
    requires k < |d.table| && zone < |d.pools| && z < |d.pools|
    requires !IsPoolKind(d.table[k].kind) && InZone(s, zone)
    requires pool.used == [BlockOf(s)] + d.pools[zone].used
    requires Blocks(d.table, z) == multiset(d.pools[z].used)
    ensures Blocks(d.table[k := s], z) == multiset(d.pools[zone := pool][z].used)
  {
    BlocksUpdate(d.table, k, s, z);
  }

  lemma GrantKeeps(d: Driver, regions: seq<Region>, flags: Flags, req: Request)
    requires Consistent(d, regions) && |flags| == MAX_BUFFS && ValidRequest(req) && Proper(req)
    requires IsPoolKind(req.kind) && Get(d, flags, req).2.Ok?
    ensures Consistent(Get(d, flags, req).0, regions)
  {
    var k, zone, count := FirstUnused(d.table), ZoneOf(req), PageCount(req.bytes);
    var (pool, res) := Alloc(d.pools[zone], Signed(count), 0, req.newOk, req.alignOk);
    assert ZoneOk(d, regions, zone);
    AllocKeepsPool(d.pools[zone], regions[zone].lo, regions[zone].hi, count, 0, req.newOk, req.alignOk);
    AllocGrants(d.pools[zone], regions[zone].lo, regions[zone].hi, count, 0, req.newOk, req.alignOk);
    var s := Filled(d.table[k], req, res.value, count);
    assert Get(d, flags, req).0 == Driver(d.table[k := s], d.pools[zone := pool]);
    GrantedConsistent(d, regions, k, s, zone, pool);
  }

  lemma GrantedConsistent(d: Driver, regions: seq<Region>, k: nat, s: Slot, zone: nat, pool: Pool)
    requires Consistent(d, regions) && k < MAX_BUFFS && zone < MAX_NUMA_ZONES && !d.table[k].used
    requires InZone(s, zone) && s.used && WellFormed(pool, regions[zone].lo, regions[zone].hi)
    requires pool.used == [BlockOf(s)] + d.pools[zone].used
    ensures Consistent(Driver(d.table[k := s], d.pools[zone := pool]), regions)
  {
    var d' := Driver(d.table[k := s], d.pools[zone := pool]);
    forall z | 0 <= z < MAX_NUMA_ZONES ensures ZoneOk(d', regions, z) {
      assert ZoneOk(d, regions, z) && SlotOk(d.table[k]);
      PlaceBlock(d, k, s, zone, pool, z);
    }
  }

  /** A block granted from one zone but recorded in another has no entry in its own zone. */
  lemma RecordedElsewhere(d: Driver, regions: seq<Region>, k: nat, s: Slot, zone: nat, pool: Pool)
    requires k < |d.table| && zone < |d.pools| && zone < |regions| && ZoneOk(d, regions, zone)
    requires !IsPoolKind(d.table[k].kind) && !InZone(s, zone) && |pool.used| == |d.pools[zone].used| + 1
    ensures !ZoneOk(Driver(d.table[k := s], d.pools[zone := pool]), regions, zone)
  {
    BlocksUpdate(d.table, k, s, zone);
    assert Blocks(d.table[k := s], zone) == multiset(d.pools[zone].used);
    assert |multiset(pool.used)| == |pool.used| && |multiset(d.pools[zone].used)| == |d.pools[zone].used|;
  }

  lemma GrantElsewhere(d: Driver, regions: seq<Region>, flags: Flags, req: Request)
    requires Consistent(d, regions) && |flags| == MAX_BUFFS && ValidRequest(req) && req.numa != ZoneOf(req)
    requires IsPoolKind(req.kind) && Get(d, flags, req).2.Ok?
    ensures !Consistent(Get(d, flags, req).0, regions)
  {
    var k, zone, count := FirstUnused(d.table), ZoneOf(req), PageCount(req.bytes);
    var (pool, res) := Alloc(d.pools[zone], Signed(count), 0, req.newOk, req.alignOk);
    assert ZoneOk(d, regions, zone) && SlotOk(d.table[k]);
    assert |pool.used| == |d.pools[zone].used| + 1;
    RecordedElsewhere(d, regions, k, Filled(d.table[k], req, res.value, count), zone, pool);
    assert !ZoneOk(Get(d, flags, req).0, regions, zone);
  }

  /** An entry cannot stand for a block of more pages than a region has. */
  lemma GrantTooLarge(d: Driver, regions: seq<Region>, flags: Flags, req: Request)
    requires Consistent(d, regions) && |flags| == MAX_BUFFS && ValidRequest(req) && Bounded(regions)
    requires IsPoolKind(req.kind) && Get(d, flags, req).2.Ok? && PageCount(req.bytes) >= 0x8000_0000
    ensures !Consistent(Get(d, flags, req).0, regions)
  {
    var d', k := Get(d, flags, req).0, FirstUnused(d.table);
    assert BlockOf(d'.table[k]).size == PageCount(req.bytes) * PAGE_SIZE;
    if Consistent(d', regions) {
      HandleInRegion(d', regions, k);
    }
  }

  /** No region has 8 TiB; the chunk table of `gfpbpa_init` covers at most 2 TiB. */
  ghost predicate Bounded(regions: seq<Region>) {
    forall z :: 0 <= z < |regions| ==> regions[z].hi - regions[z].lo < 0x8000_0000 * PAGE_SIZE
  }

  /** A granted pool request keeps table and pools in agreement exactly when it is proper:
      a GFPBPA buffer with another NUMA id would be freed in the wrong zone, a request for no
      pages puts an empty block on the used list, and a page count that is negative as an int
      hands out a range that is not what the entry records. */
  lemma GrantKeepsIff(d: Driver, regions: seq<Region>, flags: Flags, req: Request)
    requires Consistent(d, regions) && |flags| == MAX_BUFFS && ValidRequest(req) && Bounded(regions)
    requires IsPoolKind(req.kind) && Get(d, flags, req).2.Ok?
    ensures Consistent(Get(d, flags, req).0, regions) <==> Proper(req)
  {
    if Proper(req) {
      GrantKeeps(d, regions, flags, req);
    } else if PageCount(req.bytes) == 0 {
      var zone := ZoneOf(req);
      assert ZoneOk(d, regions, zone);
      AllocKeepsPoolIff(d.pools[zone], regions[zone].lo, regions[zone].hi, 0, 0, req.newOk, req.alignOk);
      assert !ZoneOk(Get(d, flags, req).0, regions, zone);
    } else if PageCount(req.bytes) >= 0x8000_0000 {
      GrantTooLarge(d, regions, flags, req);
    } else {
      GrantElsewhere(d, regions, flags, req);
    }
  }

  /** GET keeps table and pools in agreement in every outcome of a proper request. */
  lemma GetKeeps(d: Driver, regions: seq<Region>, flags: Flags, req: Request)
    requires Consistent(d, regions) && |flags| == MAX_BUFFS && ValidRequest(req) && Proper(req)
    ensures Consistent(Get(d, flags, req).0, regions)
  {
    var k := FirstUnused(d.table);
    if k < MAX_BUFFS {
      var s := d.table[k];
      assert SlotOk(s);
      if IsPageKind(req.kind) {
        if req.pages.Pages? {
          PageSlotKeeps(d, regions, k, Filled(s, req, req.pages.kaddr, req.order));
        }
      } else if IsPoolKind(req.kind) {
        if Get(d, flags, req).2.Ok? {
          GrantKeeps(d, regions, flags, req);
        } else {
          RewriteKeeps(d, regions, k, s.(order := PageCount(req.bytes)));
        }
      } else {
        RewriteKeeps(d, regions, k, s.(used := true));
      }
    }
  }

  lemma CloseSlotKeeps(d: Driver, regions: seq<Region>, flags: Flags, i: nat)
    requires Consistent(d, regions) && |flags| == MAX_BUFFS && i < MAX_BUFFS
    ensures Consistent(CloseSlot(d, flags, i), regions)
  {
    if flags[i] && !d.table[i].locked {
      DropKeeps(d, regions, i, false);
    }
  }

  lemma {:induction false} CloseKeeps(d: Driver, regions: seq<Region>, flags: Flags, n: nat)
    requires Consistent(d, regions) && |flags| == MAX_BUFFS && n <= MAX_BUFFS
    ensures Consistent(CloseUpTo(d, flags, n), regions)
  {
    if n > 0 {
      var e := CloseUpTo(d, flags, n - 1);
      CloseKeeps(d, regions, flags, n - 1);
      CloseSlotKeeps(e, regions, flags, n - 1);
    }
  }

  lemma FreeLockSlotKeeps(d: Driver, regions: seq<Region>, i: nat)
    requires Consistent(d, regions) && i < MAX_BUFFS
    ensures Consistent(FreeLockSlot(d, i), regions)
  {
    if d.table[i].used && d.table[i].locked {
      DropKeeps(d, regions, i, true);
    }
  }

  lemma {:induction false} FreeLockKeeps(d: Driver, regions: seq<Region>, n: nat)
    requires Consistent(d, regions) && n <= MAX_BUFFS
    ensures Consistent(FreeLockUpTo(d, n), regions)
  {
    if n > 0 {
      var e := FreeLockUpTo(d, n - 1);
      FreeLockKeeps(d, regions, n - 1);
      FreeLockSlotKeeps(e, regions, n - 1);
    }
  }

  // ---------------------------------------------------------------- what agreement gives

  lemma {:induction false} TwoBlocks(table: seq<Slot>, i: nat, j: nat, z: nat)
    requires i < j < |table| && InZone(table[i], z) && InZone(table[j], z)
    ensures multiset{BlockOf(table[i]), BlockOf(table[j])} <= Blocks(table, z)
  {
    if i == 0 {
      BlocksUpdate(table[1..], j - 1, table[j], z);
    } else {
      TwoBlocks(table[1..], i - 1, j - 1, z);
    }
  }

  lemma OneOf(rs: seq<Range>, r: Range) returns (i: nat)
    requires r in multiset(rs)
    ensures i < |rs| && rs[i] == r
  {
    i :| 0 <= i < |rs| && rs[i] == r;
  }

  lemma TwoOf(rs: seq<Range>, r: Range, s: Range) returns (i: nat, j: nat)
    requires multiset{r, s} <= multiset(rs)
    ensures i < |rs| && j < |rs| && i != j && rs[i] == r && rs[j] == s
  {
    i := OneOf(rs, r);
    assert rs == rs[..i] + [rs[i]] + rs[i + 1..];
    var rest := rs[..i] + rs[i + 1..];
    assert multiset(rest) == multiset(rs) - multiset{r};
    j := OneOf(rest, s);
    j := if j < i then j else j + 1;
  }

  lemma SameZoneDisjoint(d: Driver, regions: seq<Region>, i: nat, j: nat, z: nat)
    requires Consistent(d, regions) && z < MAX_NUMA_ZONES
    requires i < j < MAX_BUFFS && InZone(d.table[i], z) && InZone(d.table[j], z)
    ensures Disjoint(BlockOf(d.table[i]), BlockOf(d.table[j]))
  {
    assert ZoneOk(d, regions, z);
    TwoBlocks(d.table, i, j, z);
    var x, y := TwoOf(d.pools[z].used, BlockOf(d.table[i]), BlockOf(d.table[j]));
    BlocksDisjoint(d.pools[z], regions[z].lo, regions[z].hi);
  }

  /** The buffer behind a pool handle lies in its zone's region and is not empty. */
  lemma HandleInRegion(d: Driver, regions: seq<Region>, i: nat)
    requires Consistent(d, regions) && i < MAX_BUFFS && IsPoolKind(d.table[i].kind)
    ensures var b, g := BlockOf(d.table[i]), regions[d.table[i].numa];
      g.lo <= b.base < b.End() <= g.hi
  {
    var z := d.table[i].numa;
    assert SlotOk(d.table[i]);
    assert ZoneOk(d, regions, z);
    BlocksUpdate(d.table, i, d.table[i], z);
    assert BlockOf(d.table[i]) in Blocks(d.table, z);
    var k := OneOf(d.pools[z].used, BlockOf(d.table[i]));
    RangeInPool(d.pools[z], regions[z].lo, regions[z].hi, d.pools[z].used[k]);
  }

  /** Buffers behind distinct live pool handles never overlap, in one zone or across zones. */
  lemma HandlesDisjoint(d: Driver, regions: seq<Region>, i: nat, j: nat)
    requires Consistent(d, regions) && DisjointRegions(regions)
    requires i < j < MAX_BUFFS && IsPoolKind(d.table[i].kind) && IsPoolKind(d.table[j].kind)
    ensures d.table[i].used && d.table[j].used
    ensures Disjoint(BlockOf(d.table[i]), BlockOf(d.table[j]))
  {
    assert SlotOk(d.table[i]) && SlotOk(d.table[j]);
    if d.table[i].numa == d.table[j].numa {
      SameZoneDisjoint(d, regions, i, j, d.table[i].numa);
    } else {
      HandleInRegion(d, regions, i);
      HandleInRegion(d, regions, j);
    }
  }
}
