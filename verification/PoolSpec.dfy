/** What one NUMA zone of the page pool does, on values: the free list ordered by
    address, the used list in order of allocation, first-fit allocation with alignment
    and coalescing release.  `PagePool` proves that the linked lists compute this. */
module PoolSpec {
  import opened Arithmetic
  import opened Wrappers
  import opened Ranges

  const PAGE_SIZE := 4096

  datatype Pool = Pool(free: seq<Range>, used: seq<Range>)

  /** The pool right after its single node has been created. */
  function Initial(lo: int, hi: int): Pool {
    Pool([Range(lo, hi - lo)], [])
  }

  /** A zone after loading: a single range, or two empty lists where no pool was set up. */
  function Starting(lo: int, hi: int): Pool {
    if lo < hi then Initial(lo, hi) else Pool([], [])
  }

  function AlignUp(a: int, align: nat): int
    requires align > 0
  {
    ((a + align - 1) / align) * align
  }

  /** The alignment in bytes; an alignment of 0 pages means one page. */
  function AlignBytes(align: nat): (r: nat)
    ensures r > 0 && r % PAGE_SIZE == 0
  {
    if align == 0 then PAGE_SIZE else align * PAGE_SIZE
  }

  predicate Fits(r: Range, n: int, align: nat)
    requires align > 0
  {
    AlignUp(r.base, align) + n <= r.End()
  }

  /** Position of the first range that can hold `n` aligned bytes; the length if there is none. */
  function FirstFit(rs: seq<Range>, n: int, align: nat): (k: nat)
    requires align > 0
    ensures k <= |rs| && (k < |rs| ==> Fits(rs[k], n, align))
    ensures forall i :: 0 <= i < k ==> !Fits(rs[i], n, align)
  {
    if rs == [] then 0
    else if Fits(rs[0], n, align) then 0
    else FirstFit(rs[1..], n, align) + 1
  }

  /** A difference as the source compares it, in unsigned 64-bit arithmetic. */
  function Unsigned(x: int): int {
    if x < 0 then x + 0x1_0000_0000_0000_0000 else x
  }

  /** Whether the range is larger than needed and the block gets a node of its own. */
  predicate NeedsNew(r: Range, p: int, n: int) {
    Unsigned(p - r.base + n) < r.size
  }

  /** The pieces that stay free when `n` bytes from `p` are cut out of `r`. */
  function Remainder(r: Range, p: int, n: int): seq<Range> {
    (if p != r.base then [Range(r.base, p - r.base)] else []) +
    (if NeedsNew(r, p, n) then [Range(p + n, r.End() - (p + n))] else [])
  }

  /** The block that is cut out: `n` bytes, or what is left of the range behind `p`. */
  function CutBlock(r: Range, p: int, n: int): Range {
    Range(p, if NeedsNew(r, p, n) then n else r.End() - p)
  }

  /** Whether the split at the chosen range gets the list nodes it asks kmalloc for. */
  predicate NodesGranted(r: Range, p: int, n: int, newOk: bool, alignOk: bool) {
    (NeedsNew(r, p, n) ==> newOk) && (p != r.base ==> alignOk)
  }

  function Carve(pool: Pool, k: nat, p: int, n: int): Pool
    requires k < |pool.free|
  {
    Pool(pool.free[..k] + Remainder(pool.free[k], p, n) + pool.free[k + 1..],
         [CutBlock(pool.free[k], p, n)] + pool.used)
  }

  /** membpa_alloc_pages: `newOk` and `alignOk` are the outcomes of its two kmalloc calls.
      The count is a signed integer that nobody checks. */
  function Alloc(pool: Pool, count: int, align: nat, newOk: bool, alignOk: bool): (Pool, Option<int>) {
    var n, al := count * PAGE_SIZE, AlignBytes(align);
    var k := FirstFit(pool.free, n, al);
    if k == |pool.free| then (pool, None)
    else
      var p := AlignUp(pool.free[k].base, al);
      if NodesGranted(pool.free[k], p, n, newOk, alignOk) then (Carve(pool, k, p, n), Some(p))
      else (pool, None)
  }

  /** Position of the first used block at `base`; the length if there is none. */
  function FindBase(rs: seq<Range>, base: int): (k: nat)
    ensures k <= |rs| && (k < |rs| ==> rs[k].base == base)
    ensures forall i :: 0 <= i < k ==> rs[i].base != base
  {
    if rs == [] then 0
    else if rs[0].base == base then 0
    else FindBase(rs[1..], base) + 1
  }

  /** Position of the first range that does not start below `base`. */
  function InsertAt(rs: seq<Range>, base: int): (k: nat)
    ensures k <= |rs| && (k < |rs| ==> rs[k].base >= base)
    ensures forall i :: 0 <= i < k ==> rs[i].base < base
  {
    if rs == [] then 0
    else if rs[0].base >= base then 0
    else InsertAt(rs[1..], base) + 1
  }

  /** Join the range at `k` with its successor if they touch. */
  function MergeAt(rs: seq<Range>, k: nat): seq<Range> {
    if k + 1 < |rs| && rs[k].End() == rs[k + 1].base
    then rs[..k] + [Range(rs[k].base, rs[k].size + rs[k + 1].size)] + rs[k + 2..]
    else rs
  }

  /** Insert by address, then join with the upper and with the lower neighbour. */
  function Release(rs: seq<Range>, r: Range): seq<Range> {
    var k := InsertAt(rs, r.base);
    var up := MergeAt(rs[..k] + [r] + rs[k..], k);
    if k > 0 then MergeAt(up, k - 1) else up
  }

  /** membpa_free_pages: a base that is not allocated changes nothing. */
  function Free(pool: Pool, base: int): Pool {
    var k := FindBase(pool.used, base);
    if k == |pool.used| then pool
    else Pool(Release(pool.free, pool.used[k]), pool.used[..k] + pool.used[k + 1..])
  }

  // ---------------------------------------------------------------- the invariant

  /** Every address of `[lo, hi)` lies in exactly one free or used range, none outside
      does, and the free list is in canonical form. */
  ghost predicate WellFormed(pool: Pool, lo: int, hi: int) {
    && 0 <= lo <= hi
    && Canonical(pool.free)
    && AllPositive(pool.used)
    && forall a :: Cover(pool.free, a) + Cover(pool.used, a) == if lo <= a < hi then 1 else 0
  }

  ghost predicate FreeRun(rs: seq<Range>, p: int, n: int) {
    forall a :: p <= a < p + n ==> Cover(rs, a) >= 1
  }

  lemma InitialWellFormed(lo: int, hi: int)
    requires 0 <= lo < hi
    ensures WellFormed(Initial(lo, hi), lo, hi)
  {
    forall a ensures Cover(Initial(lo, hi).free, a) == if lo <= a < hi then 1 else 0 {
      CoverOne(Range(lo, hi - lo), a);
    }
  }

  lemma StartingWellFormed(lo: int, hi: int)
    requires 0 <= lo <= hi
    ensures WellFormed(Starting(lo, hi), lo, hi)
  {
    if lo < hi {
      InitialWellFormed(lo, hi);
    }
  }

  lemma RangeInPool(pool: Pool, lo: int, hi: int, r: Range)
    requires WellFormed(pool, lo, hi) && (r in pool.free || r in pool.used)
    ensures lo <= r.base && r.End() <= hi
  {
    var rs := if r in pool.free then pool.free else pool.used;
    var k :| 0 <= k < |rs| && rs[k] == r;
    CoverAtLeast(rs, k, r.base);
    CoverAtLeast(rs, k, r.End() - 1);
  }

  /** No two used blocks overlap, and no used block overlaps a free range. */
  lemma BlocksDisjoint(pool: Pool, lo: int, hi: int)
    requires WellFormed(pool, lo, hi)
    ensures PairwiseDisjoint(pool.used)
    ensures forall i, j :: 0 <= i < |pool.free| && 0 <= j < |pool.used| ==> Disjoint(pool.free[i], pool.used[j])
  {
    var all := pool.free + pool.used;
    forall a ensures Cover(all, a) <= 1 {
      CoverAppend(pool.free, pool.used, a);
    }
    forall i, j | 0 <= i < j < |pool.used| ensures Disjoint(pool.used[i], pool.used[j]) {
      var x, y := |pool.free| + i, |pool.free| + j;
      CoverOnceDisjoint(all, x, y);
      assert all[x] == pool.used[i] && all[y] == pool.used[j];
    }
    forall i, j | 0 <= i < |pool.free| && 0 <= j < |pool.used| ensures Disjoint(pool.free[i], pool.used[j]) {
      CoverOnceDisjoint(all, i, |pool.free| + j);
    }
  }

  /** The free list is a function of the used blocks alone. */
  lemma FreeListDetermined(p: Pool, q: Pool, lo: int, hi: int)
    requires WellFormed(p, lo, hi) && WellFormed(q, lo, hi) && multiset(p.used) == multiset(q.used)
    ensures p.free == q.free
  {
    forall a ensures Cover(p.free, a) == Cover(q.free, a) {
      CoverPermutation(p.used, q.used, a);
      assert Cover(p.free, a) + Cover(p.used, a) == Cover(q.free, a) + Cover(q.used, a);
    }
    CanonicalUnique(p.free, q.free);
  }

  lemma TakenOut(ss: seq<Range>, k: nat)
    requires k < |ss|
    ensures multiset(ss[..k] + ss[k + 1..]) == multiset(ss) - multiset{ss[k]}
  {
    assert ss == ss[..k] + [ss[k]] + ss[k + 1..];
  }

  /** A permutation has the head of the list somewhere, and the rest around it. */
  lemma MatchHead(rs: seq<Range>, ss: seq<Range>) returns (k: nat)
    requires rs != [] && multiset(rs) == multiset(ss)
    ensures k < |ss| && ss[k] == rs[0] && multiset(rs[1..]) == multiset(ss[..k] + ss[k + 1..])
  {
    TakenOut(rs, 0);
    assert rs[..0] + rs[1..] == rs[1..];
    assert rs[0] in multiset(ss);
    k :| k < |ss| && ss[k] == rs[0];
    TakenOut(ss, k);
  }

  lemma {:induction false} CoverPermutation(rs: seq<Range>, ss: seq<Range>, a: int)
    requires multiset(rs) == multiset(ss)
    ensures Cover(rs, a) == Cover(ss, a)
  {
    if rs == [] {
      assert ss == [] by { assert |multiset(ss)| == |ss|; }
    } else {
      var k := MatchHead(rs, ss);
      CoverPermutation(rs[1..], ss[..k] + ss[k + 1..], a);
      CoverSplit(ss, k, a);
      CoverAppend(ss[..k], ss[k + 1..], a);
    }
  }

  // ---------------------------------------------------------------- allocation

  lemma AlignUpIsLeast(a: int, align: nat, p: int)
    requires align > 0 && p % align == 0 && a <= p
    ensures AlignUp(a, align) <= p
  {
    var q, c := p / align, (a + align - 1) / align;
    assert c * align < (q + 1) * align;
    MulCancel(c, q + 1, align);
    MulMono(c, q, align);
  }

  lemma AlignUpBounds(a: int, align: nat)
    requires align > 0
    ensures a <= AlignUp(a, align) && AlignUp(a, align) % align == 0
  {
    var c := (a + align - 1) / align;
    assert a + align - 1 == c * align + (a + align - 1) % align;
    DivModIs(c * align, align, c, 0);
  }

  lemma CoverRemainder(r: Range, p: int, n: nat, a: int)
    requires r.base <= p && p + n <= r.End()
    ensures Cover(Remainder(r, p, n), a) == if r.Has(a) && !(p <= a < p + n) then 1 else 0
  {
    var front := if p != r.base then [Range(r.base, p - r.base)] else [];
    var back := if p + n < r.End() then [Range(p + n, r.End() - (p + n))] else [];
    CoverAppend(front, back, a);
    CoverOne(Range(r.base, p - r.base), a);
    CoverOne(Range(p + n, r.End() - (p + n)), a);
  }

  /** Cutting a run out of free range `k` moves exactly its addresses from free to used. */
  lemma CarveCover(pool: Pool, k: nat, p: int, n: nat, a: int)
    requires k < |pool.free| && pool.free[k].base <= p && p + n <= pool.free[k].End()
    ensures Cover(Carve(pool, k, p, n).free, a) == Cover(pool.free, a) - if p <= a < p + n then 1 else 0
    ensures Cover(Carve(pool, k, p, n).used, a) == Cover(pool.used, a) + if p <= a < p + n then 1 else 0
  {
    var pre, mid, post := pool.free[..k], Remainder(pool.free[k], p, n), pool.free[k + 1..];
    CoverSplit(pool.free, k, a);
    CoverRemainder(pool.free[k], p, n, a);
    CoverAppend(pre + mid, post, a);
    CoverAppend(pre, mid, a);
    assert CutBlock(pool.free[k], p, n) == Range(p, n);
    CoverAppend([Range(p, n)], pool.used, a);
    CoverOne(Range(p, n), a);
  }

  lemma CanonicalReplace(rs: seq<Range>, k: nat, p: int, n: nat)
    requires Canonical(rs) && k < |rs| && n > 0 && rs[k].base <= p && p + n <= rs[k].End()
    ensures Canonical(rs[..k] + Remainder(rs[k], p, n) + rs[k + 1..])
  {
    var mid := Remainder(rs[k], p, n);
    assert Canonical(mid);
    assert forall r :: r in mid ==> rs[k].base <= r.base && r.End() <= rs[k].End();
    CanonicalConcat(rs[..k], mid);
    CanonicalConcat(rs[..k] + mid, rs[k + 1..]);
  }

  lemma CanonicalConcat(rs: seq<Range>, ss: seq<Range>)
    requires Canonical(rs) && Canonical(ss)
    requires forall r, s :: r in rs && s in ss ==> r.End() < s.base
    ensures Canonical(rs + ss)
  {
    var all := rs + ss;
    forall i, j | 0 <= i < j < |all| ensures all[i].End() < all[j].base {
      if i < |rs| && j >= |rs| {
        assert all[i] in rs && all[j] in ss;
      }
    }
  }

  lemma CarveWellFormed(pool: Pool, lo: int, hi: int, k: nat, p: int, n: nat)
    requires WellFormed(pool, lo, hi) && k < |pool.free| && n > 0
    requires pool.free[k].base <= p && p + n <= pool.free[k].End()
    ensures WellFormed(Carve(pool, k, p, n), lo, hi)
  {
    CanonicalReplace(pool.free, k, p, n);
    forall a ensures
      Cover(Carve(pool, k, p, n).free, a) + Cover(Carve(pool, k, p, n).used, a) == if lo <= a < hi then 1 else 0
    {
      CarveCover(pool, k, p, n, a);
      assert Cover(pool.free, a) + Cover(pool.used, a) == if lo <= a < hi then 1 else 0;
    }
  }

  /** What every successful allocation guarantees: the block is aligned, was entirely free,
      and is the new head of the used list. */
  lemma AllocGrants(pool: Pool, lo: int, hi: int, count: nat, align: nat, newOk: bool, alignOk: bool)
    requires WellFormed(pool, lo, hi)
    ensures var (pool', res) := Alloc(pool, count, align, newOk, alignOk);
      match res
      case None => pool' == pool
      case Some(p) =>
        && p % AlignBytes(align) == 0
        && lo <= p && p + count * PAGE_SIZE <= hi
        && FreeRun(pool.free, p, count * PAGE_SIZE)
        && pool'.used == [Range(p, count * PAGE_SIZE)] + pool.used
        && forall a :: Cover(pool'.free, a) == Cover(pool.free, a) - if p <= a < p + count * PAGE_SIZE then 1 else 0
  {
    var n, al := count * PAGE_SIZE, AlignBytes(align);
    var k := FirstFit(pool.free, n, al);
    if k < |pool.free| {
      var r := pool.free[k];
      RangeInPool(pool, lo, hi, r);
      AlignUpBounds(r.base, al);
      var p := AlignUp(r.base, al);
      forall a | p <= a < p + n ensures Cover(pool.free, a) >= 1 {
        CoverAtLeast(pool.free, k, a);
      }
      forall a ensures
        Cover(Carve(pool, k, p, n).free, a) == Cover(pool.free, a) - if p <= a < p + n then 1 else 0
      {
        CarveCover(pool, k, p, n, a);
      }
    }
  }

  /** An allocation of at least one page keeps the pool well formed, whatever kmalloc does. */
  lemma AllocKeepsPool(pool: Pool, lo: int, hi: int, count: nat, align: nat, newOk: bool, alignOk: bool)
    requires WellFormed(pool, lo, hi) && count >= 1
    ensures WellFormed(Alloc(pool, count, align, newOk, alignOk).0, lo, hi)
  {
    var n, al := count * PAGE_SIZE, AlignBytes(align);
    var k := FirstFit(pool.free, n, al);
    if k < |pool.free| {
      AlignUpBounds(pool.free[k].base, al);
      CarveWellFormed(pool, lo, hi, k, AlignUp(pool.free[k].base, al), n);
    }
  }

  /** A successful allocation with a count that is not negative keeps the pool well formed exactly
      when it asks for a page. */
  lemma AllocKeepsPoolIff(pool: Pool, lo: int, hi: int, count: nat, align: nat, newOk: bool, alignOk: bool)
    requires WellFormed(pool, lo, hi) && Alloc(pool, count, align, newOk, alignOk).1.Some?
    ensures WellFormed(Alloc(pool, count, align, newOk, alignOk).0, lo, hi) <==> count >= 1
  {
    if count >= 1 {
      AllocKeepsPool(pool, lo, hi, count, align, newOk, alignOk);
    } else {
      var pool' := Alloc(pool, count, align, newOk, alignOk).0;
      assert pool'.used[0].size == 0;
    }
  }

  /** A negative count passes the fit test at the first range, and what is handed out is that
      whole range, however small, without any node being asked for. */
  lemma NegativeCountTakesRange(pool: Pool, count: int, newOk: bool, alignOk: bool)
    requires -0x8000_0000 <= count < 0 && pool.free != []
    requires pool.free[0].base % PAGE_SIZE == 0 && 0 < pool.free[0].size < 0x8000_0000_0000_0000
    ensures Alloc(pool, count, 0, newOk, alignOk)
            == (Pool(pool.free[1..], [pool.free[0]] + pool.used), Some(pool.free[0].base))
  {
    var r, n := pool.free[0], count * PAGE_SIZE;
    AlignUpIsLeast(r.base, PAGE_SIZE, r.base);
    AlignUpBounds(r.base, PAGE_SIZE);
    assert AlignUp(r.base, PAGE_SIZE) == r.base;
    assert Fits(r, n, PAGE_SIZE) && !NeedsNew(r, r.base, n);
    assert Remainder(r, r.base, n) == [] && CutBlock(r, r.base, n) == r;
    assert pool.free[..0] + [] + pool.free[1..] == pool.free[1..];
  }

  /** For any int as the count, in a pool whose free ranges start on a page: the pool stays well
      formed exactly when the count is not 0.  What a negative count breaks is not the pool but
      what the caller believes to have got. */
  lemma SignedKeepsPoolIff(pool: Pool, lo: int, hi: int, count: int, newOk: bool, alignOk: bool)
    requires WellFormed(pool, lo, hi) && hi - lo < 0x8000_0000_0000_0000 && -0x8000_0000 <= count
    requires forall i :: 0 <= i < |pool.free| ==> pool.free[i].base % PAGE_SIZE == 0
    requires Alloc(pool, count, 0, newOk, alignOk).1.Some?
    ensures WellFormed(Alloc(pool, count, 0, newOk, alignOk).0, lo, hi) <==> count != 0
  {
    if count >= 0 {
      AllocKeepsPoolIff(pool, lo, hi, count, 0, newOk, alignOk);
    } else {
      var r := pool.free[0];
      RangeInPool(pool, lo, hi, r);
      NegativeCountTakesRange(pool, count, newOk, alignOk);
      CarveWellFormed(pool, lo, hi, 0, r.base, r.size);
      assert Remainder(r, r.base, r.size) == [] && CutBlock(r, r.base, r.size) == r;
      assert pool.free[..0] + [] + pool.free[1..] == pool.free[1..];
    }
  }

  /** First fit is complete and picks the lowest address: the allocator fails only when no
      aligned free run exists or a node it needs is refused, and otherwise returns the
      lowest aligned address at which the run is free. */
  lemma FirstFitComplete(pool: Pool, lo: int, hi: int, count: nat, align: nat, q: nat)
    requires WellFormed(pool, lo, hi) && count >= 1
    requires q % AlignBytes(align) == 0 && FreeRun(pool.free, q, count * PAGE_SIZE)
    ensures var k := FirstFit(pool.free, count * PAGE_SIZE, AlignBytes(align));
      k < |pool.free| && AlignUp(pool.free[k].base, AlignBytes(align)) <= q
  {
    var n, al := count * PAGE_SIZE, AlignBytes(align);
    var k := FirstFit(pool.free, n, al);
    var j := RunInOneRange(pool.free, q, n);
    RangeInPool(pool, lo, hi, pool.free[j]);
    AlignUpIsLeast(pool.free[j].base, al, q);
    assert Fits(pool.free[j], n, al);
    if k < j {
      assert pool.free[k].End() < pool.free[j].base;
    }
  }

  /** With both nodes available, allocation returns null if and only if the pool holds no
      aligned run of free pages, and otherwise the lowest such address. */
  lemma AllocLowestOrNone(pool: Pool, lo: int, hi: int, count: nat, align: nat)
    requires WellFormed(pool, lo, hi) && count >= 1
    ensures var res := Alloc(pool, count, align, true, true).1;
      && (res.None? <==> forall q: nat :: q % AlignBytes(align) == 0 ==> !FreeRun(pool.free, q, count * PAGE_SIZE))
      && (res.Some? ==> forall q: nat :: q % AlignBytes(align) == 0 && FreeRun(pool.free, q, count * PAGE_SIZE)
                                     ==> res.value <= q)
  {
    AllocGrants(pool, lo, hi, count, align, true, true);
    forall q: nat | q % AlignBytes(align) == 0 && FreeRun(pool.free, q, count * PAGE_SIZE)
      ensures Alloc(pool, count, align, true, true).1.Some?
      ensures Alloc(pool, count, align, true, true).1.value <= q
    {
      FirstFitComplete(pool, lo, hi, count, align, q);
    }
  }

  /** `p` is the lowest address on the asked-for boundary at which `pages` pages are free; an
      alignment of 0 pages means one page. */
  ghost predicate LowestRun(rs: seq<Range>, p: int, pages: nat, align: nat) {
    && AlignedRun(rs, p, pages, align)
    && forall q: nat :: AlignedRun(rs, q, pages, align) ==> p <= q
  }

  ghost predicate AlignedRun(rs: seq<Range>, p: int, pages: nat, align: nat) {
    p % ((if align == 0 then 1 else align) * PAGE_SIZE) == 0 && FreeRun(rs, p, pages * PAGE_SIZE)
  }

  /** The outcome of every request for at least one page, in terms of the free addresses alone.
      Without an aligned free run it is null.  Otherwise it is the lowest one, unless a node is
      refused that is needed because the memory right behind or right before it is free. */
  lemma AllocOutcome(pool: Pool, lo: int, hi: int, count: nat, align: nat, newOk: bool, alignOk: bool)
    requires WellFormed(pool, lo, hi) && count >= 1
    ensures var (res, free) := (Alloc(pool, count, align, newOk, alignOk).1, pool.free);
      && ((forall q: nat :: !AlignedRun(free, q, count, align)) ==> res == None)
      && forall p: nat :: LowestRun(free, p, count, align) ==>
           res == if (!newOk && Cover(free, p + count * PAGE_SIZE) > 0) || (!alignOk && Cover(free, p - 1) > 0)
                  then None else Some(p)
  {
    AllocGrants(pool, lo, hi, count, align, true, true);
    var n, al := count * PAGE_SIZE, AlignBytes(align);
    var k := FirstFit(pool.free, n, al);
    if k < |pool.free| {
      FitIsRun(pool, lo, hi, k, count, align);
    }
    forall p: nat | LowestRun(pool.free, p, count, align)
      ensures k < |pool.free| && AlignUp(pool.free[k].base, al) == p
    {
      FirstFitComplete(pool, lo, hi, count, align, p);
      assert AlignedRun(pool.free, AlignUp(pool.free[k].base, al), count, align);
    }
  }

  /** The chosen place is a run, and what lies right behind and right before it decides which
      nodes the split asks for. */
  lemma FitIsRun(pool: Pool, lo: int, hi: int, k: nat, count: nat, align: nat)
    requires WellFormed(pool, lo, hi) && count >= 1 && k < |pool.free|
    requires Fits(pool.free[k], count * PAGE_SIZE, AlignBytes(align))
    ensures var r, n := pool.free[k], count * PAGE_SIZE;
      var p := AlignUp(r.base, AlignBytes(align));
      && p >= 0 && AlignedRun(pool.free, p, count, align)
      && (NeedsNew(r, p, n) <==> Cover(pool.free, p + n) > 0)
      && (p != r.base <==> Cover(pool.free, p - 1) > 0)
  {
    var r, n := pool.free[k], count * PAGE_SIZE;
    var p := AlignUp(r.base, AlignBytes(align));
    AlignUpBounds(r.base, AlignBytes(align));
    RangeInPool(pool, lo, hi, r);
    forall a | p <= a < p + n ensures Cover(pool.free, a) >= 1 {
      CoverAtLeast(pool.free, k, a);
    }
    EndUncovered(pool.free, k);
    StartUncovered(pool.free, k);
    if p + n < r.End() {
      CoverAtLeast(pool.free, k, p + n);
    }
    if p != r.base {
      CoverAtLeast(pool.free, k, p - 1);
    }
  }

  /** A refused node changes nothing: every null return leaves both lists as they were. */
  lemma NullChangesNothing(pool: Pool, count: int, align: nat, newOk: bool, alignOk: bool)
    requires Alloc(pool, count, align, newOk, alignOk).1.None?
    ensures Alloc(pool, count, align, newOk, alignOk).0 == pool
  {
  }

  // ---------------------------------------------------------------- release

  lemma MergeCover(rs: seq<Range>, k: nat, a: int)
    requires k + 1 < |rs| ==> rs[k].size >= 0 && rs[k + 1].size >= 0
    ensures Cover(MergeAt(rs, k), a) == Cover(rs, a)
  {
    if k + 1 < |rs| && rs[k].End() == rs[k + 1].base {
      var m := Range(rs[k].base, rs[k].size + rs[k + 1].size);
      assert rs[..k] + [m] + rs[k + 2..] == rs[..k] + ([m] + rs[k + 2..]);
      CoverAppend(rs[..k], [m] + rs[k + 2..], a);
      CoverAppend([m], rs[k + 2..], a);
      CoverOne(m, a);
      CoverSplit(rs, k, a);
      CoverSplit(rs[k + 1..], 0, a);
      assert rs[k + 1..][1..] == rs[k + 2..];
    }
  }

  lemma InsertCover(rs: seq<Range>, k: nat, r: Range, a: int)
    requires k <= |rs|
    ensures Cover(rs[..k] + [r] + rs[k..], a) == Cover(rs, a) + if r.Has(a) then 1 else 0
  {
    CoverAppend(rs[..k] + [r], rs[k..], a);
    CoverAppend(rs[..k], [r], a);
    CoverOne(r, a);
    assert rs == rs[..k] + rs[k..];
    CoverAppend(rs[..k], rs[k..], a);
  }

  /** Neighbours `i` and `i + 1` are apart, or at most touch when `i` is a seam. */
  predicate Gap(rs: seq<Range>, i: int, seam: set<int>) {
    0 <= i < |rs| - 1 ==>
      if i in seam then rs[i].End() <= rs[i + 1].base else rs[i].End() < rs[i + 1].base
  }

  /** Like `Canonical`, except that the pairs at the positions in `seam` may touch. */
  ghost predicate CanonicalBut(rs: seq<Range>, seam: set<int>) {
    AllPositive(rs) && forall i :: Gap(rs, i, seam)
  }

  lemma {:induction false} CanonicalFromSteps(rs: seq<Range>, i: nat, j: nat)
    requires CanonicalBut(rs, {}) && i < j < |rs|
    ensures rs[i].End() < rs[j].base
    decreases j
  {
    if i + 1 < j {
      CanonicalFromSteps(rs, i, j - 1);
    }
    assert Gap(rs, j - 1, {});
  }

  lemma CanonicalSteps(rs: seq<Range>)
    requires CanonicalBut(rs, {})
    ensures Canonical(rs)
  {
    forall i, j | 0 <= i < j < |rs| ensures rs[i].End() < rs[j].base {
      CanonicalFromSteps(rs, i, j);
    }
  }

  lemma MergeSeam(rs: seq<Range>, k: nat, seam: set<int>)
    requires k < |rs| && k in seam && (forall i :: i in seam ==> i <= k)
    requires CanonicalBut(rs, seam)
    ensures CanonicalBut(MergeAt(rs, k), seam - {k})
    ensures |MergeAt(rs, k)| > k
  {
    var ss := MergeAt(rs, k);
    forall i ensures Gap(ss, i, seam - {k}) {
      assert Gap(rs, i, seam) && Gap(rs, i + 1, seam);
    }
  }

  lemma InsertGap(rs: seq<Range>, r: Range, k: int, seam: set<int>, i: int)
    requires 0 <= k <= |rs| && 0 <= i < |rs| && seam == {k - 1, k}
    requires r.size > 0 && rs[i].size > 0 && Disjoint(rs[i], r)
    requires i < k ==> rs[i].base < r.base
    requires i >= k ==> rs[i].base >= r.base
    requires 0 < i ==> rs[i - 1].End() < rs[i].base
    requires i + 1 < |rs| ==> rs[i].End() < rs[i + 1].base
    ensures Gap(rs[..k] + [r] + rs[k..], i, seam)
  {
    var ss := rs[..k] + [r] + rs[k..];
    assert ss[i] == if i < k then rs[i] else if i == k then r else rs[i - 1];
    assert ss[i + 1] == if i + 1 < k then rs[i + 1] else if i + 1 == k then r else rs[i];
  }

  lemma InsertSeam(rs: seq<Range>, r: Range, k: int, seam: set<int>)
    requires Canonical(rs) && r.size > 0 && k == InsertAt(rs, r.base) && seam == {k - 1, k}
    requires forall i :: 0 <= i < |rs| ==> Disjoint(rs[i], r)
    ensures CanonicalBut(rs[..k] + [r] + rs[k..], seam)
  {
    var ss := rs[..k] + [r] + rs[k..];
    forall i ensures Gap(ss, i, seam) {
      if 0 <= i < |rs| {
        InsertGap(rs, r, k, seam, i);
      }
    }
    InsertPositive(rs, r, k);
  }

  lemma InsertPositive(rs: seq<Range>, r: Range, k: int)
    requires AllPositive(rs) && r.size > 0 && 0 <= k <= |rs|
    ensures AllPositive(rs[..k] + [r] + rs[k..])
  {
    var ss := rs[..k] + [r] + rs[k..];
    forall i | 0 <= i < |ss| ensures ss[i].size > 0 {
      assert ss[i] == if i < k then rs[i] else if i == k then r else rs[i - 1];
    }
  }

  /** Releasing a block that overlaps no free range leaves the list canonical. */
  lemma ReleaseCanonical(rs: seq<Range>, r: Range)
    requires Canonical(rs) && r.size > 0
    requires forall i :: 0 <= i < |rs| ==> Disjoint(rs[i], r)
    ensures Canonical(Release(rs, r))
  {
    var k: int := InsertAt(rs, r.base);
    var ss := rs[..k] + [r] + rs[k..];
    var seam := {k - 1, k};
    InsertSeam(rs, r, k, seam);
    MergeSeam(ss, k, seam);
    var up := MergeAt(ss, k);
    assert seam - {k} == {k - 1};
    if k > 0 {
      MergeSeam(up, k - 1, {k - 1});
      assert {k - 1} - {k - 1} == {};
      CanonicalSteps(Release(rs, r));
    } else {
      forall i ensures Gap(up, i, {}) {
        assert Gap(up, i, {k - 1});
      }
      CanonicalSteps(up);
    }
  }

  /** Release adds exactly the addresses of the released block. */
  lemma ReleaseCover(rs: seq<Range>, r: Range, a: int)
    requires AllPositive(rs) && r.size > 0
    ensures Cover(Release(rs, r), a) == Cover(rs, a) + if r.Has(a) then 1 else 0
  {
    var k := InsertAt(rs, r.base);
    var ss := rs[..k] + [r] + rs[k..];
    InsertCover(rs, k, r, a);
    assert AllPositive(ss);
    MergeCover(ss, k, a);
    var up := MergeAt(ss, k);
    if k > 0 {
      assert AllPositive(up);
      MergeCover(up, k - 1, a);
    }
  }

  lemma BaseIndex(pool: Pool, lo: int, hi: int, k: nat)
    requires WellFormed(pool, lo, hi) && k < |pool.used|
    ensures FindBase(pool.used, pool.used[k].base) == k
  {
    var j := FindBase(pool.used, pool.used[k].base);
    BlocksDisjoint(pool, lo, hi);
    assert j < k ==> Disjoint(pool.used[j], pool.used[k]);
  }

  /** Freeing the address of a used block takes exactly this block off the used list. */
  lemma FreeTakesOne(pool: Pool, lo: int, hi: int, k: nat)
    requires WellFormed(pool, lo, hi) && k < |pool.used|
    ensures multiset(Free(pool, pool.used[k].base).used) == multiset(pool.used) - multiset{pool.used[k]}
  {
    BaseIndex(pool, lo, hi, k);
    TakenOut(pool.used, k);
  }

  /** Freeing the block `r` makes exactly its addresses free. */
  lemma FreeCover(pool: Pool, k: nat, a: int)
    requires k < |pool.used| && k == FindBase(pool.used, pool.used[k].base)
    requires AllPositive(pool.free) && AllPositive(pool.used)
    ensures var r, pool' := pool.used[k], Free(pool, pool.used[k].base);
      var one := if r.Has(a) then 1 else 0;
      && Cover(pool'.free, a) == Cover(pool.free, a) + one
      && Cover(pool'.used, a) == Cover(pool.used, a) - one
  {
    ReleaseCover(pool.free, pool.used[k], a);
    CoverSplit(pool.used, k, a);
    CoverAppend(pool.used[..k], pool.used[k + 1..], a);
  }

  lemma FreeWellFormed(pool: Pool, lo: int, hi: int, base: int)
    requires WellFormed(pool, lo, hi)
    ensures WellFormed(Free(pool, base), lo, hi)
  {
    var k := FindBase(pool.used, base);
    if k < |pool.used| {
      BlocksDisjoint(pool, lo, hi);
      ReleaseCanonical(pool.free, pool.used[k]);
      var pool' := Free(pool, base);
      forall a ensures Cover(pool'.free, a) + Cover(pool'.used, a) == if lo <= a < hi then 1 else 0 {
        FreeCover(pool, k, a);
        assert Cover(pool.free, a) + Cover(pool.used, a) == if lo <= a < hi then 1 else 0;
      }
    }
  }

  /** Freeing keeps the pool well formed.  A base in use gives up exactly the one block that
      starts there, whose addresses become free; any other base changes nothing. */
  lemma FreeKeepsPool(pool: Pool, lo: int, hi: int, base: int)
    requires WellFormed(pool, lo, hi)
    ensures var pool' := Free(pool, base);
      && WellFormed(pool', lo, hi)
      && ((forall r :: r in pool.used ==> r.base != base) ==> pool' == pool)
      && forall r :: r in pool.used && r.base == base ==>
           && multiset(pool'.used) == multiset(pool.used) - multiset{r}
           && forall a :: Cover(pool'.free, a) == Cover(pool.free, a) + if r.Has(a) then 1 else 0
  {
    FreeWellFormed(pool, lo, hi, base);
    forall r | r in pool.used && r.base == base
      ensures multiset(Free(pool, base).used) == multiset(pool.used) - multiset{r}
      ensures forall a :: Cover(Free(pool, base).free, a) == Cover(pool.free, a) + if r.Has(a) then 1 else 0
    {
      var k: nat :| k < |pool.used| && pool.used[k] == r;
      FreeTakesOne(pool, lo, hi, k);
      BaseIndex(pool, lo, hi, k);
      forall a ensures Cover(Free(pool, base).free, a) == Cover(pool.free, a) + if r.Has(a) then 1 else 0 {
        FreeCover(pool, k, a);
      }
    }
  }

  /** Freeing the block an allocation has just returned restores both lists exactly. */
  lemma AllocThenFree(pool: Pool, lo: int, hi: int, count: nat, align: nat, newOk: bool, alignOk: bool)
    requires WellFormed(pool, lo, hi) && count >= 1
    ensures var (pool', res) := Alloc(pool, count, align, newOk, alignOk);
      res.Some? ==> Free(pool', res.value) == pool
  {
    var (pool', res) := Alloc(pool, count, align, newOk, alignOk);
    if res.Some? {
      AllocKeepsPool(pool, lo, hi, count, align, newOk, alignOk);
      AllocGrants(pool, lo, hi, count, align, newOk, alignOk);
      FreeWellFormed(pool', lo, hi, res.value);
      assert FindBase(pool'.used, res.value) == 0;
      assert Free(pool', res.value).used == pool.used;
      FreeListDetermined(Free(pool', res.value), pool, lo, hi);
    }
  }

  // ---------------------------------------------------------------- whole runs

  function FreeEach(pool: Pool, bases: seq<int>): Pool
    decreases |bases|
  {
    if bases == [] then pool else FreeEach(Free(pool, bases[0]), bases[1..])
  }

  function Bases(rs: seq<Range>): (bs: seq<int>)
    ensures |bs| == |rs| && forall i :: 0 <= i < |rs| ==> bs[i] == rs[i].base
  {
    seq(|rs|, i requires 0 <= i < |rs| => rs[i].base)
  }

  lemma BasesRemove(rs: seq<Range>, k: nat)
    requires k < |rs|
    ensures multiset(Bases(rs[..k] + rs[k + 1..])) == multiset(Bases(rs)) - multiset{rs[k].base}
  {
    var bs := Bases(rs);
    assert bs == bs[..k] + [bs[k]] + bs[k + 1..];
    assert Bases(rs[..k] + rs[k + 1..]) == bs[..k] + bs[k + 1..];
  }

  /** Freeing all live blocks, in any order, ends where the zone started. */
  lemma {:induction false} FreeAllRestores(pool: Pool, lo: int, hi: int, bases: seq<int>)
    requires WellFormed(pool, lo, hi)
    requires multiset(bases) == multiset(Bases(pool.used))
    ensures FreeEach(pool, bases) == Starting(lo, hi)
    decreases |bases|
  {
    if bases == [] {
      assert pool.used == [] by { assert |multiset(Bases(pool.used))| == |pool.used|; }
      StartingWellFormed(lo, hi);
      FreeListDetermined(pool, Starting(lo, hi), lo, hi);
    } else {
      var k := FindBase(pool.used, bases[0]);
      assert bases[0] in multiset(Bases(pool.used));
      assert bases[0] in Bases(pool.used);
      assert k < |pool.used|;
      FreeWellFormed(pool, lo, hi, bases[0]);
      BasesRemove(pool.used, k);
      assert bases == [bases[0]] + bases[1..];
      FreeAllRestores(Free(pool, bases[0]), lo, hi, bases[1..]);
    }
  }

  datatype Op =
    | AllocOp(count: int, align: nat, newOk: bool, alignOk: bool)
    | FreeOp(base: int)

  function Apply(pool: Pool, op: Op): Pool {
    match op
    case AllocOp(count, align, newOk, alignOk) => Alloc(pool, count, align, newOk, alignOk).0
    case FreeOp(base) => Free(pool, base)
  }

  function Run(pool: Pool, ops: seq<Op>): Pool {
    if ops == [] then pool else Apply(Run(pool, ops[..|ops| - 1]), ops[|ops| - 1])
  }

  /** A run applies its operations one after the other, the first one first. */
  lemma {:induction false} RunFromFront(pool: Pool, op: Op, ops: seq<Op>)
    ensures Run(pool, []) == pool && Run(pool, [op] + ops) == Run(Apply(pool, op), ops)
  {
    var all := [op] + ops;
    if ops == [] {
      assert all[..0] == [] && Run(pool, []) == pool;
    } else {
      var front := ops[..|ops| - 1];
      RunFromFront(pool, op, front);
      assert all[..|all| - 1] == [op] + front;
    }
  }

  /** Every reachable pool is well formed: its free list is sorted and coalesced, and the
      free and used ranges tile the region exactly. */
  lemma {:induction false} RunKeepsPool(lo: int, hi: int, ops: seq<Op>)
    requires 0 <= lo <= hi
    requires forall op :: op in ops && op.AllocOp? ==> op.count >= 1
    ensures WellFormed(Run(Starting(lo, hi), ops), lo, hi)
  {
    if ops == [] {
      StartingWellFormed(lo, hi);
    } else {
      var pre, op := ops[..|ops| - 1], ops[|ops| - 1];
      assert op in ops;
      RunKeepsPool(lo, hi, pre);
      var pool := Run(Starting(lo, hi), pre);
      match op
      case AllocOp(count, align, newOk, alignOk) => AllocKeepsPool(pool, lo, hi, count, align, newOk, alignOk);
      case FreeOp(base) => FreeWellFormed(pool, lo, hi, base);
    }
  }

  /** A request for no pages breaks the pool: after it, the next request is handed the same
      address while both blocks are live. */
  lemma ZeroPagesAliases(pool: Pool)
    requires pool.free != [] && pool.free[0].base % PAGE_SIZE == 0 && pool.free[0].size >= PAGE_SIZE
    ensures var base := pool.free[0].base;
      var (pool1, first) := Alloc(pool, 0, 0, true, true);
      var (pool2, second) := Alloc(pool1, 1, 0, true, true);
      first == second == Some(base) && pool2.used == [Range(base, PAGE_SIZE), Range(base, 0)] + pool.used
  {
    var r := pool.free[0];
    var pool1 := Pool(pool.free, [Range(r.base, 0)] + pool.used);
    AlignedBase(pool, 0);
    AlignedBase(pool1, 1);
    assert Remainder(r, r.base, 0) == [r] && CutBlock(r, r.base, 0) == Range(r.base, 0);
    assert pool.free[..0] + [r] + pool.free[1..] == pool.free;
    assert [Range(r.base, PAGE_SIZE)] + pool1.used == [Range(r.base, PAGE_SIZE), Range(r.base, 0)] + pool.used;
  }

  /** At most a page is cut from the front of the first free range if it starts on a page. */
  lemma AlignedBase(pool: Pool, count: nat)
    requires pool.free != [] && pool.free[0].base % PAGE_SIZE == 0 && pool.free[0].size >= PAGE_SIZE && count <= 1
    ensures Alloc(pool, count, 0, true, true)
            == (Carve(pool, 0, pool.free[0].base, count * PAGE_SIZE), Some(pool.free[0].base))
    ensures CutBlock(pool.free[0], pool.free[0].base, count * PAGE_SIZE) == Range(pool.free[0].base, count * PAGE_SIZE)
  {
    var r := pool.free[0];
    AlignUpIsLeast(r.base, PAGE_SIZE, r.base);
    AlignUpBounds(r.base, PAGE_SIZE);
    assert Fits(r, count * PAGE_SIZE, PAGE_SIZE);
  }
}
