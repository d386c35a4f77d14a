/** What each call of the contiguous-memory driver leaves behind, in terms of the table entries,
    the flags and the free addresses of the pools. */
module BufferOutcomes {
  import opened Wrappers
  import opened Ranges
  import opened PoolSpec
  import opened BufferSpec
  import opened BufferRuns

  /** The zone a request of type 4 or 6 names: zone 0 for the former. */
  function Zone(req: Request): nat { if req.kind == 4 then 0 else req.numa }

  /** Slot `h` is the first unused one. */
  predicate Takes(d: Driver, h: nat) {
    h < |d.table| && !d.table[h].used && forall i :: 0 <= i < h ==> d.table[i].used
  }

  lemma TakesFirst(d: Driver, h: nat)
    requires Takes(d, h)
    ensures FirstUnused(d.table) == h
  {
  }

  /** GET fails for want of a slot exactly when every slot is used, and then changes nothing. */
  lemma OverflowIff(d: Driver, flags: Flags, req: Request)
    requires |flags| == |d.table| && |d.pools| == MAX_NUMA_ZONES && ValidRequest(req)
    ensures var (d', flags', res) := Get(d, flags, req);
      && (res == Err(Overflow) <==> forall i :: 0 <= i < |d.table| ==> d.table[i].used)
      && (res == Err(Overflow) ==> d' == d && flags' == flags)
  {
  }

  /** What a granted pool buffer is. */
  ghost predicate Granted(d: Driver, d': Driver, req: Request, h: nat)
    requires h < |d'.table| && Zone(req) < |d.pools| == |d'.pools|
  {
    var s, z := d'.table[h], Zone(req);
    var block := Range(s.kaddr, s.order * 4096);
    && s == Slot(true, false, req.kind, req.numa, s.kaddr, s.order)
    && req.bytes <= block.size < req.bytes + 4096
    && LowestRun(d.pools[z].free, s.kaddr, s.order, 0)
    && d'.pools == d.pools[z := d'.pools[z]]
    && d'.pools[z].used == [block] + d.pools[z].used
    && forall a :: Cover(d'.pools[z].free, a) == Cover(d.pools[z].free, a) - if block.Has(a) then 1 else 0
  }

  /** A granted request of type 4 or 6: the first unused slot records a block of at least the
      bytes asked for and less than a page more.  The block lies at the lowest page of the zone
      from which on so many bytes were free, these bytes and no others stop being free, the
      caller owns the slot, and no other slot, flag or zone changes. */
  lemma PoolGrant(d: Driver, regions: seq<Region>, flags: Flags, req: Request, h: nat)
    requires Consistent(d, regions) && |flags| == MAX_BUFFS && (req.kind == 4 || (req.kind == 6 && req.numa < 4))
    requires ValidRequest(req) && 0 < req.bytes <= 0x7FFF_FFFF * 4096 && Get(d, flags, req).2 == Ok(h)
    ensures var (d', flags', _) := Get(d, flags, req);
      && Takes(d, h) && h < |d'.table| && |d'.pools| == |d.pools|
      && d'.table == d.table[h := d'.table[h]] && flags' == flags[h := true]
      && Granted(d, d', req, h)
  {
    var zone, count := ZoneOf(req), PageCount(req.bytes);
    assert ZoneOk(d, regions, zone);
    PageCountHolds(req.bytes);
    AllocGrants(d.pools[zone], regions[zone].lo, regions[zone].hi, count, 0, req.newOk, req.alignOk);
    GrantLowest(d.pools[zone], regions[zone], count, req.newOk, req.alignOk);
  }

  lemma GrantLowest(pool: Pool, region: Region, count: nat, newOk: bool, alignOk: bool)
    requires WellFormed(pool, region.lo, region.hi) && count >= 1 && Alloc(pool, count, 0, newOk, alignOk).1.Some?
    ensures LowestRun(pool.free, Alloc(pool, count, 0, newOk, alignOk).1.value, count, 0)
  {
    var p := Alloc(pool, count, 0, newOk, alignOk).1.value;
    AllocGrants(pool, region.lo, region.hi, count, 0, newOk, alignOk);
    forall q: nat | AlignedRun(pool.free, q, count, 0) ensures p <= q {
      FirstFitComplete(pool, region.lo, region.hi, count, 0, q);
    }
  }

  lemma GetAsksPool(d: Driver, flags: Flags, req: Request, h: nat, pages: nat)
    requires |flags| == |d.table| && |d.pools| == 4 && (req.kind == 4 || (req.kind == 6 && req.numa < 4))
    requires ValidRequest(req) && Takes(d, h)
    requires 1 <= pages <= 0x7FFF_FFFF && (pages - 1) * 4096 < req.bytes <= pages * 4096
    ensures var granted := Alloc(d.pools[Zone(req)], pages, 0, req.newOk, req.alignOk).1.Some?;
      Get(d, flags, req).2 == if granted then Ok(h) else Err(PoolAllocation)
  {
    CountSeen(req.bytes, pages);
    TakesFirst(d, h);
  }

  /** Below 2^31 pages the allocator sees the count as it is. */
  lemma CountSeen(bytes: nat, pages: nat)
    requires 1 <= pages <= 0x7FFF_FFFF && (pages - 1) * 4096 < bytes <= pages * 4096
    ensures Signed(PageCount(bytes)) == pages
  {
    PageCountIsCeiling(bytes, pages);
  }

  /** A request of type 4 or 6 for `pages` pages, once a slot is there, succeeds exactly when
      the zone has so many free pages in a row and kmalloc grants the list nodes the split
      needs: one if the memory behind the lowest such run is free, one if the memory before it
      is. */
  lemma PoolGrantIff(d: Driver, regions: seq<Region>, flags: Flags, req: Request, h: nat, pages: nat)
    requires Consistent(d, regions) && |flags| == MAX_BUFFS && (req.kind == 4 || (req.kind == 6 && req.numa < 4))
    requires ValidRequest(req) && Takes(d, h)
    requires 1 <= pages <= 0x7FFF_FFFF && (pages - 1) * 4096 < req.bytes <= pages * 4096
    ensures var (res, free, bytes) := (Get(d, flags, req).2, d.pools[Zone(req)].free, pages * 4096);
      && ((forall q: nat :: !AlignedRun(free, q, pages, 0)) ==> res == Err(PoolAllocation))
      && forall p: nat :: LowestRun(free, p, pages, 0) ==>
           res == if (Cover(free, p + bytes) > 0 ==> req.newOk) && (Cover(free, p - 1) > 0 ==> req.alignOk)
                  then Ok(h) else Err(PoolAllocation)
  {
    var zone := Zone(req);
    assert ZoneOk(d, regions, zone);
    GetAsksPool(d, flags, req, h, pages);
    AllocOutcome(d.pools[zone], regions[zone].lo, regions[zone].hi, pages, 0, req.newOk, req.alignOk);
  }

  /** A request whose page count does not fit an int is not refused: the first free range of
      the zone, if it starts on a page, is handed out whole, however small it is. */
  lemma HugeRequestTakesRange(d: Driver, flags: Flags, req: Request, h: nat, pages: nat)
    requires |flags| == |d.table| && |d.pools| == 4 && (req.kind == 4 || (req.kind == 6 && req.numa < 4))
    requires ValidRequest(req) && Takes(d, h)
    requires 0x8000_0000 <= pages <= 0xFFFF_FFFF && (pages - 1) * 4096 < req.bytes <= pages * 4096
    requires var free := d.pools[Zone(req)].free;
      free != [] && free[0].base % 4096 == 0 && 0 < free[0].size < 0x8000_0000_0000_0000
    ensures var ((d', _, res), pool) := (Get(d, flags, req), d.pools[Zone(req)]);
      && res == Ok(h) && |d'.pools| == 4 && |d'.table| == |d.table|
      && d'.table[h] == Slot(true, false, req.kind, req.numa, pool.free[0].base, pages)
      && d'.pools[Zone(req)] == Pool(pool.free[1..], [pool.free[0]] + pool.used)
  {
    HugeCountSeen(req.bytes, pages);
    TakesFirst(d, h);
    NegativeCountTakesRange(d.pools[Zone(req)], pages - 0x1_0000_0000, req.newOk, req.alignOk);
  }

  /** From 2^31 pages on the slot records the count and the allocator sees a negative one. */
  lemma HugeCountSeen(bytes: nat, pages: nat)
    requires 0x8000_0000 <= pages <= 0xFFFF_FFFF && (pages - 1) * 4096 < bytes <= pages * 4096
    ensures PageCount(bytes) == pages && Signed(PageCount(bytes)) == pages - 0x1_0000_0000
  {
    PageCountIsCeiling(bytes, pages);
  }

  /** A GET that fails takes no memory and leaves no slot used and no flag set. */
  lemma FailedGet(d: Driver, flags: Flags, req: Request)
    requires |flags| == |d.table| && |d.pools| == MAX_NUMA_ZONES && ValidRequest(req) && Get(d, flags, req).2.Err?
    ensures var (d', flags', _) := Get(d, flags, req);
      && d'.pools == d.pools && |d'.table| == |d.table| && |flags'| == |flags|
      && (forall i :: 0 <= i < |d.table| && d.table[i].used ==> d'.table[i] == d.table[i] && flags'[i] == flags[i])
      && (forall i :: 0 <= i < |d.table| && !d.table[i].used ==> !d'.table[i].used && (flags'[i] ==> flags[i]))
      && (forall i: nat :: Takes(d, i) ==> !flags'[i])
  {
    forall i: nat | Takes(d, i) ensures !Get(d, flags, req).1[i] {
      TakesFirst(d, i);
    }
  }

  /** The types 1 and 5 follow the kernel page allocator, and any other undefined type takes a
      slot without memory and reports success. */
  lemma OtherTypes(d: Driver, flags: Flags, req: Request, h: nat)
    requires |flags| == |d.table| && |d.pools| == MAX_NUMA_ZONES && ValidRequest(req) && Takes(d, h)
    requires req.kind != 4 && req.kind != 6
    ensures var ((d', flags', res), s) := (Get(d, flags, req), d.table[h]);
      var paged := req.kind == 1 || req.kind == 5;
      && d'.pools == d.pools
      && (res == Err(PageAllocation) <==> paged && req.pages == Refused)
      && (res == Err(Above4G) <==> paged && req.pages == TooHigh)
      && (res.Ok? ==> res == Ok(h) && flags' == flags[h := true])
      && (res.Ok? && paged ==>
            d'.table == d.table[h := Slot(true, false, req.kind, req.numa, req.pages.kaddr, req.order)])
      && (res.Ok? && !paged ==>
            d'.table == d.table[h := Slot(true, s.locked, s.kind, s.numa, s.kaddr, s.order)])
  {
  }

  // ---------------------------------------------------------------- giving back

  /** What an entry looks like once its buffer has been given back. */
  function Vacant(numa: nat, locked: bool): Slot { Slot(false, locked, 0, numa, 0, 0) }

  /** FREE refuses exactly an unused handle and then changes nothing.  Otherwise the entry is
      vacant and unlocked and the flag is gone, and no other entry or flag changes. */
  lemma FreeOutcome(d: Driver, flags: Flags, h: nat)
    requires |flags| == |d.table| && h < |d.table|
    ensures var (d', flags', res) := BufferSpec.Free(d, flags, h);
      && (res == Err(IllegalHandle) <==> !d.table[h].used)
      && (res.Err? ==> d' == d && flags' == flags)
      && (res.Ok? ==> d'.table == d.table[h := Vacant(d.table[h].numa, false)] && flags' == flags[h := false])
  {
  }

  /** FREE of a pool buffer takes its block, and no other, off the used list of its zone; its
      addresses are free again, and no other zone changes.  FREE of a page buffer leaves all
      zones alone. */
  lemma FreeReturnsBlock(d: Driver, regions: seq<Region>, flags: Flags, h: nat)
    requires Consistent(d, regions) && |flags| == MAX_BUFFS && h < MAX_BUFFS && d.table[h].used
    ensures var (d', s) := (BufferSpec.Free(d, flags, h).0, d.table[h]);
      var block := Range(s.kaddr, s.order * 4096);
      && |d'.pools| == |d.pools|
      && (s.kind != 4 && s.kind != 6 ==> d'.pools == d.pools)
      && (s.kind == 4 || s.kind == 6 ==>
            && s.numa < |d.pools| && d'.pools == d.pools[s.numa := d'.pools[s.numa]]
            && multiset(d'.pools[s.numa].used) == multiset(d.pools[s.numa].used) - multiset{block}
            && forall a :: Cover(d'.pools[s.numa].free, a)
                           == Cover(d.pools[s.numa].free, a) + if block.Has(a) then 1 else 0)
  {
    var s := d.table[h];
    assert SlotOk(s);
    if IsPoolKind(s.kind) {
      assert ZoneOk(d, regions, s.numa);
      BlocksUpdate(d.table, h, s, s.numa);
      assert BlockOf(s) in Blocks(d.table, s.numa);
      assert BlockOf(s) in multiset(d.pools[s.numa].used);
      FreeKeepsPool(d.pools[s.numa], regions[s.numa].lo, regions[s.numa].hi, s.kaddr);
    }
  }

  /** Closing a file makes exactly the entries vacant that it has flagged and that are not
      locked: locked buffers and those of other files stay as they were. */
  lemma CloseOutcome(s: System, f: nat, i: nat)
    requires Shaped(s) && Callable(s, CloseFile(f)) && i < MAX_BUFFS
    ensures var (t, slot) := (Step(s, CloseFile(f)), s.driver.table[i]);
      && |t.driver.table| == MAX_BUFFS && t.files == s.files - {f}
      && t.driver.table[i] == if s.files[f][i] && !slot.locked then Vacant(slot.numa, false) else slot
  {
    CloseTable(s.driver, s.files[f], MAX_BUFFS, i);
  }

  /** `freelock` makes exactly the used and locked entries vacant.  Their lock marks stay, and
      so do the flags of the files that hold them. */
  lemma FreeLockOutcome(s: System, i: nat)
    requires Shaped(s) && i < MAX_BUFFS
    ensures var (t, slot) := (Step(s, FreeLocked), s.driver.table[i]);
      && |t.driver.table| == MAX_BUFFS && t.files == s.files
      && t.driver.table[i] == if slot.used && slot.locked then Vacant(slot.numa, true) else slot
  {
    FreeLockTable(s.driver, MAX_BUFFS, i);
  }

  // ---------------------------------------------------------------- what the lock mark is for

  /** LOCK and UNLOCK refuse exactly an unused handle.  A buffer that was locked survives the
      close of its owner as it is; one that was unlocked does not. */
  lemma LockDecidesClose(s: System, f: nat, h: nat, locked: bool)
    requires Shaped(s) && f in s.files && h < MAX_BUFFS && s.files[f][h]
    ensures SetLocked(s.driver, h, locked).1.Err? <==> !s.driver.table[h].used
    ensures s.driver.table[h].used ==>
              var marked := Step(s, MarkLocked(h, locked));
              && Shaped(marked) && marked.files == s.files && marked.driver.pools == s.driver.pools
              && marked.driver.table == s.driver.table[h := s.driver.table[h].(locked := locked)]
              && Step(marked, CloseFile(f)).driver.table[h]
                 == if locked then s.driver.table[h].(locked := true) else Vacant(s.driver.table[h].numa, false)
  {
    if s.driver.table[h].used {
      var marked := Step(s, MarkLocked(h, locked));
      StepShape(s, MarkLocked(h, locked));
      CloseOutcome(marked, f, h);
    }
  }

  /** A buffer that has just been obtained and not been locked is gone once its file is
      closed, whatever its slot was before. */
  lemma FreshDoesNotSurvive(s: System, f: nat, req: Request, h: nat)
    requires Shaped(s) && f in s.files && ValidRequest(req) && req.kind in {1, 4, 5, 6}
    requires Get(s.driver, s.files[f], req).2 == Ok(h) && h < MAX_BUFFS
    ensures var got := Step(s, GetBuffer(f, req));
      Shaped(got) && f in got.files && got.files[f][h] && !got.driver.table[h].locked
      && Step(got, CloseFile(f)).driver.table[h] == Vacant(req.numa, false)
  {
    StepShape(s, GetBuffer(f, req));
    var got := Step(s, GetBuffer(f, req));
    CloseOutcome(got, f, h);
  }
}
