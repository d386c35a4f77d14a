/** Whole runs of the contiguous-memory driver: any number of files opening, allocating,
    freeing, locking and closing, with `freelock` at any time. */
module BufferRuns {
  import opened Ranges
  import opened PoolSpec
  import opened BufferSpec

  datatype System = System(driver: Driver, files: map<nat, Flags>)

  datatype Call =
    | OpenFile(f: nat)
    | GetBuffer(f: nat, req: Request)
    | FreeBuffer(f: nat, h: nat)
    | MarkLocked(h: nat, locked: bool)
    | CloseFile(f: nat)
    | FreeLocked

  /** The sizes of the tables; kept by every call. */
  ghost predicate Shaped(s: System) {
    |s.driver.table| == MAX_BUFFS && ZonesInRange(s.driver)
    && forall f :: f in s.files ==> |s.files[f]| == MAX_BUFFS
  }

  /** What a caller must supply: an open file, a handle within the table, a zone that exists. */
  predicate Callable(s: System, c: Call) {
    match c
    case OpenFile(f) => f !in s.files
    case GetBuffer(f, req) => f in s.files && ValidRequest(req)
    case FreeBuffer(f, h) => f in s.files && h < MAX_BUFFS
    case MarkLocked(h, _) => h < MAX_BUFFS
    case CloseFile(f) => f in s.files
    case FreeLocked => true
  }

  function NoFlags(): (r: Flags)
    ensures |r| == MAX_BUFFS && forall i :: 0 <= i < MAX_BUFFS ==> !r[i]
  {
    seq(MAX_BUFFS, _ => false)
  }

  function Step(s: System, c: Call): System
    requires Shaped(s) && Callable(s, c)
  {
    match c
    case OpenFile(f) => s.(files := s.files[f := NoFlags()])
    case GetBuffer(f, req) =>
      var (d, flags, _) := Get(s.driver, s.files[f], req);
      System(d, s.files[f := flags])
    case FreeBuffer(f, h) =>
      var (d, flags, _) := BufferSpec.Free(s.driver, s.files[f], h);
      System(d, s.files[f := flags])
    case MarkLocked(h, locked) => s.(driver := SetLocked(s.driver, h, locked).0)
    case CloseFile(f) => System(Close(s.driver, s.files[f]), s.files - {f})
    case FreeLocked => s.(driver := FreeLock(s.driver))
  }

  lemma GetShape(d: Driver, flags: Flags, req: Request)
    requires |d.table| == MAX_BUFFS && ZonesInRange(d) && |flags| == MAX_BUFFS && ValidRequest(req)
    ensures var (d', flags', _) := Get(d, flags, req);
      |d'.table| == MAX_BUFFS && ZonesInRange(d') && |flags'| == MAX_BUFFS
  {
  }

  lemma {:induction false} CloseShape(d: Driver, flags: Flags, n: nat)
    requires |flags| == |d.table| && n <= |d.table| && ZonesInRange(d)
    ensures ZonesInRange(CloseUpTo(d, flags, n))
  {
    if n > 0 {
      CloseShape(d, flags, n - 1);
    }
  }

  lemma {:induction false} FreeLockShape(d: Driver, n: nat)
    requires n <= |d.table| && ZonesInRange(d)
    ensures ZonesInRange(FreeLockUpTo(d, n))
  {
    if n > 0 {
      FreeLockShape(d, n - 1);
    }
  }

  lemma StepShape(s: System, c: Call)
    requires Shaped(s) && Callable(s, c)
    ensures Shaped(Step(s, c))
  {
    match c
    case GetBuffer(f, req) => GetShape(s.driver, s.files[f], req);
    case CloseFile(f) => CloseShape(s.driver, s.files[f], MAX_BUFFS);
    case FreeLocked => FreeLockShape(s.driver, MAX_BUFFS);
    case _ =>
  }

  /** Requests the library makes; see `Proper`. */
  predicate ProperCall(c: Call) {
    c.GetBuffer? ==> Proper(c.req)
  }

  lemma StepConsistent(s: System, regions: seq<Region>, c: Call)
    requires Shaped(s) && Callable(s, c) && ProperCall(c) && Consistent(s.driver, regions)
    ensures Consistent(Step(s, c).driver, regions)
  {
    match c
    case OpenFile(f) =>
    case GetBuffer(f, req) => GetKeeps(s.driver, regions, s.files[f], req);
    case FreeBuffer(f, h) => DropKeeps(s.driver, regions, h, false);
    case MarkLocked(h, locked) =>
      if s.driver.table[h].used {
        RewriteKeeps(s.driver, regions, h, s.driver.table[h].(locked := locked));
      }
    case CloseFile(f) => CloseKeeps(s.driver, regions, s.files[f], MAX_BUFFS);
    case FreeLocked => FreeLockKeeps(s.driver, regions, MAX_BUFFS);
  }

  /** The state after a run, or nothing when some call of it could not be made. */
  ghost predicate Reaches(s: System, calls: seq<Call>, t: System)
    requires Shaped(s)
    decreases |calls|
  {
    if calls == [] then t == s
    else
      Callable(s, calls[0]) && (StepShape(s, calls[0]); Reaches(Step(s, calls[0]), calls[1..], t))
  }

  /** In every run of proper calls the table and the pools stay in agreement: entries of a
      pool type correspond one to one to the used blocks of their zone. */
  lemma {:induction false} RunConsistent(s: System, regions: seq<Region>, calls: seq<Call>, t: System)
    requires Shaped(s) && Consistent(s.driver, regions) && Reaches(s, calls, t)
    requires forall c :: c in calls ==> ProperCall(c)
    ensures Consistent(t.driver, regions)
    decreases |calls|
  {
    if calls != [] {
      StepShape(s, calls[0]);
      StepConsistent(s, regions, calls[0]);
      RunConsistent(Step(s, calls[0]), regions, calls[1..], t);
    }
  }

  /** The driver after loading: an empty table above the pools of the zones that have one; a
      zone without a pool has an empty region. */
  function Loaded(regions: seq<Region>): Driver {
    Driver(seq(MAX_BUFFS, _ => EmptySlot),
           seq(|regions|, i requires 0 <= i < |regions| => Starting(regions[i].lo, regions[i].hi)))
  }

  lemma {:induction false} NoBlocks(table: seq<Slot>, z: nat)
    requires forall i :: 0 <= i < |table| ==> !IsPoolKind(table[i].kind)
    ensures Blocks(table, z) == multiset{}
  {
    if table != [] {
      NoBlocks(table[1..], z);
    }
  }

  lemma LoadedConsistent(regions: seq<Region>)
    requires |regions| == MAX_NUMA_ZONES && forall z :: 0 <= z < MAX_NUMA_ZONES ==> 0 <= regions[z].lo <= regions[z].hi
    ensures Consistent(Loaded(regions), regions)
  {
    var d := Loaded(regions);
    forall z | 0 <= z < MAX_NUMA_ZONES
      ensures ZoneOk(d, regions, z)
    {
      StartingWellFormed(regions[z].lo, regions[z].hi);
      NoBlocks(d.table, z);
    }
  }

  lemma LoadedShaped(regions: seq<Region>)
    requires |regions| == MAX_NUMA_ZONES
    ensures Shaped(System(Loaded(regions), map[]))
  {
  }

  /** A run since loading, with no file open at first. */
  ghost predicate ReachesFromLoaded(regions: seq<Region>, calls: seq<Call>, t: System) {
    |regions| == MAX_NUMA_ZONES && (LoadedShaped(regions); Reaches(System(Loaded(regions), map[]), calls, t))
  }

  /** Safety over whole runs: from a freshly loaded driver, buffers behind distinct live pool
      handles never overlap. */
  lemma RunHandlesDisjoint(regions: seq<Region>, calls: seq<Call>, t: System, i: nat, j: nat)
    requires DisjointRegions(regions) && forall z :: 0 <= z < MAX_NUMA_ZONES ==> 0 <= regions[z].lo <= regions[z].hi
    requires ReachesFromLoaded(regions, calls, t)
    requires forall c :: c in calls ==> ProperCall(c)
    requires i < j < |t.driver.table| == MAX_BUFFS
    requires IsPoolKind(t.driver.table[i].kind) && IsPoolKind(t.driver.table[j].kind)
    ensures Disjoint(BlockOf(t.driver.table[i]), BlockOf(t.driver.table[j]))
  {
    LoadedShaped(regions);
    LoadedConsistent(regions);
    RunConsistent(System(Loaded(regions), map[]), regions, calls, t);
    HandlesDisjoint(t.driver, regions, i, j);
  }

  // ---------------------------------------------------------------- ownership

  ghost predicate Flagged(s: System, f: nat, i: int) {
    f in s.files && 0 <= i < |s.files[f]| && s.files[f][i]
  }

  /** A flagged entry is in use, and no entry is flagged by two open files. */
  ghost predicate Owned(s: System) {
    && (forall f, i :: Flagged(s, f, i) ==> i < |s.driver.table| && s.driver.table[i].used)
    && (forall f, g, i :: Flagged(s, f, i) && Flagged(s, g, i) ==> f == g)
  }

  /** What the closing loop leaves of each entry. */
  lemma {:induction false} CloseTable(d: Driver, flags: Flags, n: nat, i: nat)
    requires |flags| == |d.table| && n <= |d.table| && i < |d.table|
    ensures CloseUpTo(d, flags, n).table[i] ==
            if i < n && flags[i] && !d.table[i].locked then Cleared(d.table[i], false) else d.table[i]
  {
    if n > 0 {
      CloseTable(d, flags, n - 1, i);
    }
  }

  lemma {:induction false} FreeLockTable(d: Driver, n: nat, i: nat)
    requires n <= |d.table| && i < |d.table|
    ensures FreeLockUpTo(d, n).table[i] ==
            if i < n && d.table[i].used && d.table[i].locked then Cleared(d.table[i], true) else d.table[i]
  {
    if n > 0 {
      FreeLockTable(d, n - 1, i);
    }
  }

  /** What a caller can check before freeing or before `freelock`. */
  ghost predicate Disciplined(s: System, c: Call) {
    match c
    case FreeBuffer(f, h) => forall g :: Flagged(s, g, h) ==> g == f
    case FreeLocked =>
      forall f, i :: Flagged(s, f, i) && i < |s.driver.table| ==> !s.driver.table[i].locked
    case _ => true
  }

  /** FREE keeps ownership exactly when no other open file has flagged the handle. */
  lemma FreeKeepsOwnershipIff(s: System, f: nat, h: nat)
    requires Shaped(s) && Owned(s) && f in s.files && h < MAX_BUFFS
    ensures Owned(Step(s, FreeBuffer(f, h))) <==> Disciplined(s, FreeBuffer(f, h))
  {
    var t := Step(s, FreeBuffer(f, h));
    forall g, i ensures Flagged(t, g, i) <==> Flagged(s, g, i) && !(g == f && i == h && s.driver.table[h].used) {}
    if !Disciplined(s, FreeBuffer(f, h)) {
      var g :| Flagged(s, g, h) && g != f;
      assert Flagged(t, g, h);
    }
  }

  /** `freelock` keeps ownership exactly when no locked buffer belongs to an open file. */
  lemma FreeLockKeepsOwnershipIff(s: System)
    requires Shaped(s) && Owned(s)
    ensures Owned(Step(s, FreeLocked)) <==> Disciplined(s, FreeLocked)
  {
    var t := Step(s, FreeLocked);
    forall i | 0 <= i < MAX_BUFFS
      ensures t.driver.table[i].used == (s.driver.table[i].used && !s.driver.table[i].locked)
    {
      FreeLockTable(s.driver, MAX_BUFFS, i);
    }
    forall g, i ensures Flagged(t, g, i) <==> Flagged(s, g, i) {}
  }

  lemma GetKeepsOwnership(s: System, f: nat, req: Request)
    requires Shaped(s) && Owned(s) && f in s.files && ValidRequest(req)
    ensures Owned(Step(s, GetBuffer(f, req)))
  {
    var t, k := Step(s, GetBuffer(f, req)), FirstUnused(s.driver.table);
    forall g, i
      ensures Flagged(t, g, i) ==> Flagged(s, g, i) || (g == f && i == k && k < MAX_BUFFS && t.driver.table[k].used) {}
    assert forall g :: !Flagged(s, g, k);
    forall i | 0 <= i < MAX_BUFFS ensures s.driver.table[i].used ==> t.driver.table[i].used {}
  }

  lemma CloseKeepsOwnership(s: System, f: nat)
    requires Shaped(s) && Owned(s) && f in s.files
    ensures Owned(Step(s, CloseFile(f)))
  {
    var t := Step(s, CloseFile(f));
    forall g, i | Flagged(t, g, i) ensures Flagged(s, g, i) && i < |t.driver.table| && t.driver.table[i].used {
      assert Flagged(s, g, i);
      CloseTable(s.driver, s.files[f], MAX_BUFFS, i);
      assert s.files[f][i] ==> Flagged(s, f, i);
    }
  }

  /** Over disciplined runs every buffer has at most one owner. */
  lemma {:induction false} RunOwned(s: System, calls: seq<Call>, t: System)
    requires Shaped(s) && Owned(s) && Reaches(s, calls, t) && DisciplinedRun(s, calls)
    ensures Owned(t)
    decreases |calls|
  {
    if calls != [] {
      StepShape(s, calls[0]);
      match calls[0] {
        case OpenFile(f) => forall g, i ensures Flagged(Step(s, calls[0]), g, i) ==> Flagged(s, g, i) {}
        case GetBuffer(f, req) => GetKeepsOwnership(s, f, req);
        case FreeBuffer(f, h) => FreeKeepsOwnershipIff(s, f, h);
        case MarkLocked(h, locked) => forall g, i ensures Flagged(Step(s, calls[0]), g, i) ==> Flagged(s, g, i) {}
        case CloseFile(f) => CloseKeepsOwnership(s, f);
        case FreeLocked => FreeLockKeepsOwnershipIff(s);
      }
      RunOwned(Step(s, calls[0]), calls[1..], t);
    }
  }

  ghost predicate DisciplinedRun(s: System, calls: seq<Call>)
    requires Shaped(s)
    decreases |calls|
  {
    calls == [] ||
    (Callable(s, calls[0]) && Disciplined(s, calls[0]) &&
     (StepShape(s, calls[0]); DisciplinedRun(Step(s, calls[0]), calls[1..])))
  }

  /** Closing a file reclaims exactly its unlocked buffers: their entries are cleared and
      their blocks leave the used lists; every other entry, and so every locked buffer and
      every buffer of another file, stays as it was. */
  lemma CloseReclaims(s: System, regions: seq<Region>, f: nat, i: nat, z: nat)
    requires Shaped(s) && Owned(s) && Consistent(s.driver, regions) && f in s.files
    requires i < MAX_BUFFS && z < MAX_NUMA_ZONES
    ensures var t := Step(s, CloseFile(f)).driver;
      && t.table[i] == (if Flagged(s, f, i) && !s.driver.table[i].locked then Cleared(s.driver.table[i], false)
                        else s.driver.table[i])
      && (forall g :: g != f && Flagged(s, g, i) ==> t.table[i] == s.driver.table[i])
      && |t.pools| == MAX_NUMA_ZONES && multiset(t.pools[z].used) == Blocks(t.table, z)
  {
    CloseTable(s.driver, s.files[f], MAX_BUFFS, i);
    CloseKeeps(s.driver, regions, s.files[f], MAX_BUFFS);
    assert ZoneOk(Close(s.driver, s.files[f]), regions, z);
    assert forall g :: g != f && Flagged(s, g, i) ==> !Flagged(s, f, i);
  }
}
