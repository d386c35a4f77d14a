/** The driver's mutable state: the pools of all NUMA zones, the buffer table and the flag
    array of each open file.  Each method is proved against the operation of `BufferSpec`. */
module BufferTable {
  import opened Wrappers
  import opened PoolSpec
  import opened PagePool
  import opened BufferSpec

  /** All objects of the pool `p` are among `objects`, and `p` is intact. */
  ghost predicate Kept(p: PagePool, objects: set<object>)
    reads objects
  {
    && p in objects && p.free in objects && p.used in objects
    && p.free.repr <= objects && p.used.repr <= objects && p.live <= objects
    && p.Valid()
  }

  ghost function Footprint(p: PagePool): set<object>
    reads p
  {
    {p, p.free, p.used} + p.live
  }

  ghost predicate Apart(p: PagePool, q: PagePool)
    reads p, q
  {
    p != q && {p.free, p.used} !! {q.free, q.used} && p.live !! q.live
  }

  /** One more pool, apart from those that exist. */
  method NewPool(ps: seq<PagePool>, ghost objects: set<object>, lo: int, hi: int)
    returns (p: PagePool, ghost grown: set<object>)
    requires forall y :: 0 <= y < |ps| ==> Kept(ps[y], objects)
    ensures objects <= grown && fresh(grown - objects)
    ensures Kept(p, grown) && p.State() == Starting(lo, hi)
    ensures forall y :: 0 <= y < |ps| ==> Apart(ps[y], p)
  {
    p := new PagePool(lo, hi);
    grown := objects + {p, p.free, p.used} + p.live;
    forall y | 0 <= y < |ps| ensures Apart(ps[y], p) {
      assert Kept(ps[y], objects);
    }
  }

  method NewPools(regions: seq<Region>) returns (ps: seq<PagePool>, ghost objects: set<object>)
    ensures |ps| == |regions| && fresh(objects)
    ensures forall z :: 0 <= z < |ps| ==>
            Kept(ps[z], objects) && ps[z].State() == Starting(regions[z].lo, regions[z].hi)
    ensures forall y, z :: 0 <= y < z < |ps| ==> Apart(ps[y], ps[z])
  {
    ps, objects := [], {};
    for z := 0 to |regions|
      invariant |ps| == z && fresh(objects)
      invariant forall y :: 0 <= y < z ==>
                Kept(ps[y], objects) && ps[y].State() == Starting(regions[y].lo, regions[y].hi)
      invariant forall x, y :: 0 <= x < y < z ==> Apart(ps[x], ps[y])
    {
      var p, grown := NewPool(ps, objects, regions[z].lo, regions[z].hi);
      forall y | 0 <= y < z ensures Kept(ps[y], grown) {
        assert Kept(ps[y], objects);
      }
      objects, ps := grown, ps + [p];
    }
  }

  /** One pool per zone, with disjoint nodes. */
  class PoolBank {
    const pools: seq<PagePool>
    ghost var repr: set<object>
    ghost var states: seq<Pool>

    ghost predicate Valid()
      reads this, repr
    {
      && this in repr && |states| == |pools|
      && (forall z :: 0 <= z < |pools| ==> Holds(z))
      && (forall y, z :: 0 <= y < z < |pools| ==>
            pools[y] in repr && pools[z] in repr && Apart(pools[y], pools[z]))
    }

    ghost predicate Holds(z: nat)
      requires z < |pools| == |states|
      reads this, repr
    {
      Kept(pools[z], repr) && pools[z].State() == states[z]
    }

    /** The pools of all zones, set up as membpa_init2 does when kmalloc never fails. */
    constructor (regions: seq<Region>)
      ensures Valid() && fresh(repr) && |pools| == |regions|
      ensures states == seq(|regions|, i requires 0 <= i < |regions| => Starting(regions[i].lo, regions[i].hi))
    {
      var ps, objects := NewPools(regions);
      pools := ps;
      states := seq(|regions|, i requires 0 <= i < |regions| => Starting(regions[i].lo, regions[i].hi));
      repr := {this} + objects;
      new;
      forall z | 0 <= z < |pools| ensures Holds(z) {
        assert Kept(ps[z], objects);
      }
    }

    twostate predicate Untouched(p: PagePool)
      reads p, p.free, p.used, p.free.repr, p.used.repr
    {
      unchanged(p) && unchanged(p.free) && unchanged(p.used) && unchanged(p.free.repr) && unchanged(p.used.repr)
    }

    /** What changes only objects of pool `z` leaves the other pools alone. */
    twostate lemma OthersUntouched(z: nat)
      requires old(Valid()) && z < |pools|
      requires forall o: object :: o in old(repr) && o !in old(Footprint(pools[z])) ==> unchanged(o)
      ensures forall y :: 0 <= y < |pools| && y != z ==> Untouched(pools[y])
    {
      forall y | 0 <= y < |pools| && y != z ensures Untouched(pools[y]) {
        assert old(Apart(pools[if y < z then y else z], pools[if y < z then z else y]) && Holds(y));
      }
    }

    /** Only pool `z` has been worked on, and it gained no node of another pool. */
    twostate lemma StillValid(z: nat)
      requires old(Valid()) && z < |pools| == |states| && this in repr && old(repr) <= repr
      requires forall y :: 0 <= y < |pools| && y != z ==> Untouched(pools[y]) && states[y] == old(states)[y]
      requires Holds(z) && fresh(pools[z].live - old(pools[z].live))
      ensures Valid()
    {
      forall y | 0 <= y < |pools| ensures Holds(y) {
        assert y != z ==> old(Holds(y)) && Untouched(pools[y]);
      }
      forall x, y | 0 <= x < y < |pools| ensures Apart(pools[x], pools[y]) {
        assert old(Apart(pools[x], pools[y]));
        assert (x != z ==> Untouched(pools[x])) && (y != z ==> Untouched(pools[y]));
      }
    }

    method Alloc(z: nat, count: int, newOk: bool, alignOk: bool) returns (res: Option<int>)
      requires Valid() && z < |pools|
      modifies repr
      ensures Valid() && fresh(repr - old(repr))
      ensures |old(states)| == |pools|
      ensures states == old(states)[z := PoolSpec.Alloc(old(states)[z], count, 0, newOk, alignOk).0]
      ensures res == PoolSpec.Alloc(old(states)[z], count, 0, newOk, alignOk).1
    {
      var p := pools[z];
      assert Holds(z);
      res := p.AllocPages(count, 0, newOk, alignOk);
      OthersUntouched(z);
      repr := repr + p.live;
      states := states[z := p.State()];
      assert Kept(p, repr);
      StillValid(z);
    }

    method Free(z: nat, base: int)
      requires Valid() && z < |pools|
      modifies repr
      ensures Valid() && repr == old(repr)
      ensures |old(states)| == |pools|
      ensures states == old(states)[z := PoolSpec.Free(old(states)[z], base)]
    {
      var p := pools[z];
      assert Holds(z);
      p.FreePages(base);
      OthersUntouched(z);
      states := states[z := p.State()];
      StillValid(z);
    }
  }

  /** The private data of an open file: which buffers it has obtained. */
  class OpenFile {
    const buffer: array<bool>

    constructor ()
      ensures fresh(buffer) && buffer.Length == MAX_BUFFS
      ensures forall i :: 0 <= i < MAX_BUFFS ==> !buffer[i]
    {
      buffer := new bool[MAX_BUFFS](_ => false);
    }
  }

  class BufferTable {
    const bank: PoolBank
    const slots: array<Slot>

    ghost predicate Valid()
      reads this, bank, bank.repr, slots
    {
      && bank.Valid() && slots !in bank.repr
      && slots.Length == MAX_BUFFS && ZonesInRange(State())
    }

    /** The table part of cmem_rcc_init. */
    constructor (bank: PoolBank)
      requires bank.Valid() && |bank.pools| == MAX_NUMA_ZONES
      ensures Valid() && this.bank == bank && fresh(slots)
      ensures State() == Driver(seq(MAX_BUFFS, _ => EmptySlot), bank.states)
    {
      this.bank := bank;
      slots := new Slot[MAX_BUFFS](_ => EmptySlot);
      new;
      assert slots[..] == seq(MAX_BUFFS, _ => EmptySlot);
    }

    ghost function State(): Driver
      reads bank, slots
    {
      Driver(slots[..], bank.states)
    }

    /** Flags of `file`, whose array is none of the driver's objects. */
    ghost predicate Separate(file: OpenFile)
      reads bank
    {
      file.buffer.Length == MAX_BUFFS && file.buffer !in bank.repr
    }

    /** CMEM_RCC_GET: reserve a slot, obtain the memory, complete or give back the slot. */
    method GetBuffer(file: OpenFile, req: Request) returns (res: Result<nat, Error>)
      requires Valid() && Separate(file) && ValidRequest(req)
      modifies bank.repr, slots, file.buffer
      ensures Valid() && Separate(file)
      ensures (State(), file.buffer[..], res) == Get(old(State()), old(file.buffer[..]), req)
    {
      var k := Reserve(file);
      if k == MAX_BUFFS {
        return Err(Overflow);
      }
      if IsPageKind(req.kind) {
        res := CompletePages(file, k, req);
        PageSteps(old(State()), old(file.buffer[..]), req);
      } else if IsPoolKind(req.kind) {
        res := CompletePool(file, k, req);
        PoolSteps(old(State()), old(file.buffer[..]), req);
      } else {
        res := Ok(k);
      }
    }

    method Reserve(file: OpenFile) returns (k: nat)
      requires Valid() && Separate(file)
      modifies slots, file.buffer
      ensures k == FirstUnused(old(slots[..])) && Valid()
      ensures slots[..] == if k == MAX_BUFFS then old(slots[..]) else old(slots[..])[k := old(slots[k]).(used := true)]
      ensures file.buffer[..] == if k == MAX_BUFFS then old(file.buffer[..]) else old(file.buffer[..])[k := true]
    {
      k := 0;
      while k < MAX_BUFFS && slots[k].used
        invariant k <= MAX_BUFFS && forall i :: 0 <= i < k ==> slots[i].used
      {
        k := k + 1;
      }
      FirstUnusedUnique(slots[..], k);
      if k < MAX_BUFFS {
        slots[k] := slots[k].(used := true);
        file.buffer[k] := true;
      }
    }

    /** Give the memory of slot `i` back and clear the entry. */
    method DropSlot(i: nat, locked: bool)
      requires Valid() && i < MAX_BUFFS
      modifies bank.repr, slots
      ensures Valid() && bank.repr == old(bank.repr)
      ensures State() == Drop(old(State()), i, locked)
    {
      var s := slots[i];
      if IsPoolKind(s.kind) {
        bank.Free(s.numa, s.kaddr);
      }
      slots[i] := Cleared(s, locked);
      assert slots[..] == old(slots[..])[i := Cleared(s, locked)];
    }

    /** CMEM_RCC_FREE. */
    method FreeBuffer(file: OpenFile, h: nat) returns (res: Result<(), Error>)
      requires Valid() && Separate(file) && h < MAX_BUFFS
      modifies bank.repr, slots, file.buffer
      ensures Valid() && Separate(file)
      ensures (State(), file.buffer[..], res) == BufferSpec.Free(old(State()), old(file.buffer[..]), h)
    {
      if !slots[h].used {
        return Err(IllegalHandle);
      }
      DropSlot(h, false);
      file.buffer[h] := false;
      res := Ok(());
    }

    /** CMEM_RCC_LOCK and CMEM_RCC_UNLOCK. */
    method SetBufferLock(h: nat, locked: bool) returns (res: Result<(), Error>)
      requires Valid() && h < MAX_BUFFS
      modifies slots
      ensures Valid() && (State(), res) == SetLocked(old(State()), h, locked)
    {
      if !slots[h].used {
        return Err(IllegalHandle);
      }
      slots[h] := slots[h].(locked := locked);
      assert slots[..] == old(slots[..])[h := old(slots[h]).(locked := locked)];
      res := Ok(());
    }

    /** cmem_rcc_release: give back what the closing file still holds and has not locked. */
    method CloseFile(file: OpenFile)
      requires Valid() && Separate(file)
      modifies bank.repr, slots, file.buffer
      ensures Valid() && State() == Close(old(State()), old(file.buffer[..]))
    {
      ghost var flags := file.buffer[..];
      for i := 0 to MAX_BUFFS
        invariant Valid() && bank.repr == old(bank.repr)
        invariant State() == CloseUpTo(old(State()), flags, i)
        invariant file.buffer[i..] == flags[i..]
      {
        assert file.buffer[i] == file.buffer[i..][0] == flags[i..][0] == flags[i];
        if file.buffer[i] && !slots[i].locked {
          DropSlot(i, false);
          file.buffer[i] := false;
        }
      }
    }

    /** The `freelock` command: give back every locked buffer. */
    method FreeLockedBuffers()
      requires Valid()
      modifies bank.repr, slots
      ensures Valid() && State() == FreeLock(old(State()))
    {
      for i := 0 to MAX_BUFFS
        invariant Valid() && bank.repr == old(bank.repr)
        invariant State() == FreeLockUpTo(old(State()), i)
      {
        if slots[i].used && slots[i].locked {
          DropSlot(i, true);
        }
      }
    }

    /** The GFP and NUMA types, after the kernel page allocator has answered. */
    method CompletePages(file: OpenFile, k: nat, req: Request) returns (res: Result<nat, Error>)
      requires slots.Length == MAX_BUFFS && file.buffer.Length == MAX_BUFFS && k < MAX_BUFFS
      modifies slots, file.buffer
      ensures res == match req.pages
                     case Refused => Err(PageAllocation)
                     case TooHigh => Err(Above4G)
                     case Pages(_) => Ok(k)
      ensures slots[..] == old(slots[..])[k := if res.Ok? then Filled(old(slots[k]), req, req.pages.kaddr, req.order)
                                             else old(slots[k]).(used := false)]
      ensures file.buffer[..] == if res.Ok? then old(file.buffer[..]) else old(file.buffer[..])[k := false]
    {
      match req.pages
      case Refused =>
        Withdraw(file, k);
        res := Err(PageAllocation);
      case TooHigh =>
        Withdraw(file, k);
        res := Err(Above4G);
      case Pages(kaddr) =>
        slots[k] := Filled(slots[k], req, kaddr, req.order);
        res := Ok(k);
    }

    /** The GFPBPA and NUMABPA types. */
    method CompletePool(file: OpenFile, k: nat, req: Request) returns (res: Result<nat, Error>)
      requires Valid() && Separate(file) && k < MAX_BUFFS && IsPoolKind(req.kind) && ValidRequest(req)
      modifies bank.repr, slots, file.buffer
      ensures bank.Valid() && fresh(bank.repr - old(bank.repr))
      ensures |old(bank.states)| == MAX_NUMA_ZONES
      ensures var zone, count := ZoneOf(req), PageCount(req.bytes);
        var (pool, got) := PoolSpec.Alloc(old(bank.states)[zone], Signed(count), 0, req.newOk, req.alignOk);
        && bank.states == (if got.Some? then old(bank.states)[zone := pool] else old(bank.states))
        && res == (if got.Some? then Ok(k) else Err(PoolAllocation))
        && slots[..] == old(slots[..])[k := if got.Some? then Filled(old(slots[k]), req, got.value, count)
                                            else old(slots[k]).(used := false, order := count)]
        && file.buffer[..] == if got.Some? then old(file.buffer[..]) else old(file.buffer[..])[k := false]
    {
      var count := PageCount(req.bytes);
      slots[k] := slots[k].(order := count);
      var got := bank.Alloc(ZoneOf(req), Signed(count), req.newOk, req.alignOk);
      if got.None? {
        NullChangesNothing(old(bank.states)[ZoneOf(req)], Signed(count), 0, req.newOk, req.alignOk);
        Withdraw(file, k);
        res := Err(PoolAllocation);
      } else {
        slots[k] := Filled(slots[k], req, got.value, count);
        res := Ok(k);
      }
    }

    /** Undo a reservation. */
    method Withdraw(file: OpenFile, k: nat)
      requires slots.Length == MAX_BUFFS && file.buffer.Length == MAX_BUFFS && k < MAX_BUFFS
      modifies slots, file.buffer
      ensures slots[..] == old(slots[..])[k := old(slots[k]).(used := false)]
      ensures file.buffer[..] == old(file.buffer[..])[k := false]
    {
      slots[k] := slots[k].(used := false);
      file.buffer[k] := false;
    }
  }

  /** Reserving a slot and then completing or withdrawing it is what `Get` says, for the page
      types and for the pool types. */
  lemma PageSteps(d: Driver, flags: Flags, req: Request)
    requires |flags| == |d.table| && |d.pools| == MAX_NUMA_ZONES && ValidRequest(req)
    requires FirstUnused(d.table) < |d.table| && IsPageKind(req.kind)
    ensures var k := FirstUnused(d.table);
      var kept, taken := d.table[k := d.table[k].(used := true)], flags[k := true];
      Get(d, flags, req) ==
        match req.pages
        case Refused => (d.(table := kept[k := kept[k].(used := false)]), taken[k := false], Err(PageAllocation))
        case TooHigh => (d.(table := kept[k := kept[k].(used := false)]), taken[k := false], Err(Above4G))
        case Pages(kaddr) => (d.(table := kept[k := Filled(kept[k], req, kaddr, req.order)]), taken, Ok(k))
  {
    var k := FirstUnused(d.table);
    var s := d.table[k];
    Overwritten(d.table, k, s.(used := true), s);
    Overwritten(flags, k, true, false);
    assert s.(used := true).(used := false) == s && d.table[k := s] == d.table;
    match req.pages
    case Pages(kaddr) => Overwritten(d.table, k, s.(used := true), Filled(s, req, kaddr, req.order));
    case _ =>
  }

  lemma Overwritten<T>(xs: seq<T>, k: nat, x: T, y: T)
    requires k < |xs|
    ensures xs[k := x][k := y] == xs[k := y]
  {
  }

  lemma PoolSteps(d: Driver, flags: Flags, req: Request)
    requires |flags| == |d.table| && |d.pools| == MAX_NUMA_ZONES && ValidRequest(req)
    requires FirstUnused(d.table) < |d.table| && IsPoolKind(req.kind)
    ensures var k, zone, count := FirstUnused(d.table), ZoneOf(req), PageCount(req.bytes);
      var (pool, got) := PoolSpec.Alloc(d.pools[zone], Signed(count), 0, req.newOk, req.alignOk);
      var kept, taken := d.table[k := d.table[k].(used := true)], flags[k := true];
      Get(d, flags, req) ==
        match got
        case None =>
          (d.(table := kept[k := kept[k].(used := false, order := count)]), taken[k := false], Err(PoolAllocation))
        case Some(p) => (Driver(kept[k := Filled(kept[k], req, p, count)], d.pools[zone := pool]), taken, Ok(k))
  {
    var k, zone, count := FirstUnused(d.table), ZoneOf(req), PageCount(req.bytes);
    var s := d.table[k];
    var got := PoolSpec.Alloc(d.pools[zone], Signed(count), 0, req.newOk, req.alignOk).1;
    Overwritten(d.table, k, s.(used := true), s.(order := count));
    Overwritten(flags, k, true, false);
    assert s.(used := true).(used := false, order := count) == s.(order := count);
    if got.Some? {
      Overwritten(d.table, k, s.(used := true), Filled(s, req, got.value, count));
    }
  }

  lemma {:induction false} FirstUnusedUnique(table: seq<Slot>, k: nat)
    requires k <= |table| && (k < |table| ==> !table[k].used)
    requires forall i :: 0 <= i < k ==> table[i].used
    ensures k == FirstUnused(table)
  {
    if k > 0 {
      FirstUnusedUnique(table[1..], k - 1);
    }
  }
}
