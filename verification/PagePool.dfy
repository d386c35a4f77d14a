/** The page pool as the driver keeps it: linked `range_t` nodes that are relinked in place.
    Every method is proved to compute the value-level operation of `PoolSpec`, and the
    ghost set `live` (nodes obtained from kmalloc and not yet given to kfree) is proved to
    be exactly the nodes of the two lists: none leaks, none is freed while reachable. */
module PagePool {
  import opened Wrappers
  import opened Ranges
  import opened PoolSpec

  class RangeNode {
    var next: RangeNode?
    var base: int
    var size: int

    constructor (next: RangeNode?, base: int, size: int)
      ensures this.next == next && this.base == base && this.size == size
    {
      this.next, this.base, this.size := next, base, size;
    }

    function Block(): Range
      reads this
    {
      Range(base, size)
    }
  }

  ghost function At(nodes: seq<RangeNode>, i: int): RangeNode? {
    if 0 <= i < |nodes| then nodes[i] else null
  }

  ghost predicate Distinct(nodes: seq<RangeNode>) {
    forall i, j :: 0 <= i < j < |nodes| ==> nodes[i] != nodes[j]
  }

  ghost function Inserted<T>(s: seq<T>, k: nat, x: T): seq<T>
    requires k <= |s|
  {
    s[..k] + [x] + s[k..]
  }

  ghost function Removed<T>(s: seq<T>, k: nat): seq<T>
    requires k < |s|
  {
    s[..k] + s[k + 1..]
  }

  lemma InsertedAt(nodes: seq<RangeNode>, k: nat, node: RangeNode, i: int)
    requires k <= |nodes|
    ensures At(Inserted(nodes, k, node), i) == if i < k then At(nodes, i) else if i == k then node else At(nodes, i - 1)
  {
  }

  lemma InsertedIndex<T>(s: seq<T>, k: nat, x: T, i: nat)
    requires k <= |s| && i <= |s|
    ensures Inserted(s, k, x)[i] == if i < k then s[i] else if i == k then x else s[i - 1]
  {
  }

  lemma InsertedContains<T>(s: seq<T>, k: nat, x: T, n: T)
    requires k <= |s| && (n in s || n == x)
    ensures n in Inserted(s, k, x)
  {
    assert s == s[..k] + s[k..];
  }

  lemma RemovedContains<T>(s: seq<T>, k: nat, n: T)
    requires k < |s| && n in s && n != s[k]
    ensures n in Removed(s, k)
  {
    assert s == s[..k] + [s[k]] + s[k + 1..];
  }

  lemma RemovedDistinct(nodes: seq<RangeNode>, k: nat)
    requires k < |nodes| && Distinct(nodes)
    ensures Distinct(Removed(nodes, k)) && forall i :: 0 <= i < |nodes| - 1 ==> Removed(nodes, k)[i] != nodes[k]
  {
    var ns := Removed(nodes, k);
    assert forall i :: 0 <= i < |ns| ==> ns[i] == nodes[if i < k then i else i + 1];
  }

  lemma InsertedDistinct(nodes: seq<RangeNode>, k: nat, node: RangeNode)
    requires k <= |nodes| && Distinct(nodes) && node !in nodes
    ensures Distinct(Inserted(nodes, k, node))
  {
    var ns := Inserted(nodes, k, node);
    forall i, j | 0 <= i < j < |ns| ensures ns[i] != ns[j] {
      InsertedAt(nodes, k, node, i);
      InsertedAt(nodes, k, node, j);
    }
  }

  /** A list head and the chain of nodes that hangs off it.  `ranges` is the value the list
      stands for; `repr` is the set of its nodes. */
  class RangeList {
    var head: RangeNode?
    ghost var nodes: seq<RangeNode>
    ghost var repr: set<RangeNode>
    ghost var ranges: seq<Range>

    ghost predicate Valid()
      reads this, repr
    {
      && Distinct(nodes) && |ranges| == |nodes|
      && (forall i :: 0 <= i < |nodes| ==> nodes[i] in repr)
      && (forall n :: n in repr ==> n in nodes)
      && head == At(nodes, 0)
      && (forall i {:trigger nodes[i].next} :: 0 <= i < |nodes| ==> nodes[i].next == At(nodes, i + 1))
      && (forall i {:trigger ranges[i]} :: 0 <= i < |nodes| ==> ranges[i] == nodes[i].Block())
    }

    constructor ()
      ensures Valid() && nodes == [] && repr == {} && ranges == []
    {
      head, nodes, repr, ranges := null, [], {}, [];
    }

    /** Walk to the first range that can hold `n` aligned bytes. */
    method FindFit(n: int, align: nat) returns (prev: RangeNode?, range: RangeNode?, ghost k: nat)
      requires Valid() && align > 0
      ensures k == FirstFit(ranges, n, align)
      ensures prev == At(nodes, k - 1) && range == At(nodes, k)
    {
      prev, range, k := null, head, 0;
      while range != null
        invariant k <= |nodes| && range == At(nodes, k) && prev == At(nodes, k - 1)
        invariant forall i :: 0 <= i < k ==> !Fits(ranges[i], n, align)
        decreases |nodes| - k
      {
        assert ranges[k] == range.Block();
        if AlignUp(range.base, align) + n <= range.base + range.size {
          break;
        }
        prev, range, k := range, range.next, k + 1;
      }
      FirstFitUnique(ranges, n, align, k);
    }

    /** Walk to the block that starts at `base`. */
    method Find(base: int) returns (prev: RangeNode?, range: RangeNode?, ghost k: nat)
      requires Valid()
      ensures k == FindBase(ranges, base)
      ensures prev == At(nodes, k - 1) && range == At(nodes, k)
    {
      prev, range, k := null, head, 0;
      while range != null && range.base != base
        invariant k <= |nodes| && range == At(nodes, k) && prev == At(nodes, k - 1)
        invariant forall i :: 0 <= i < k ==> ranges[i].base != base
        decreases |nodes| - k
      {
        prev, range, k := range, range.next, k + 1;
      }
      FindBaseUnique(ranges, base, k);
    }

    /** Walk to the insertion point of a block that starts at `base`. */
    method FindInsertionPoint(base: int) returns (prev: RangeNode?, range: RangeNode?, ghost k: nat)
      requires Valid()
      ensures k == InsertAt(ranges, base)
      ensures prev == At(nodes, k - 1) && range == At(nodes, k)
    {
      prev, range, k := null, head, 0;
      while range != null && range.base < base
        invariant k <= |nodes| && range == At(nodes, k) && prev == At(nodes, k - 1)
        invariant forall i :: 0 <= i < k ==> ranges[i].base < base
        decreases |nodes| - k
      {
        prev, range, k := range, range.next, k + 1;
      }
      InsertAtUnique(ranges, base, k);
    }

    method Push(node: RangeNode)
      requires Valid() && node !in repr
      modifies this, node`next
      ensures Valid() && repr == old(repr) + {node}
      ensures nodes == [node] + old(nodes) && ranges == [node.Block()] + old(ranges)
    {
      node.next := head;
      head := node;
      nodes, ranges, repr := [node] + nodes, [node.Block()] + ranges, repr + {node};
    }

    method LinkAfter(prev: RangeNode, node: RangeNode, ghost k: nat)
      requires Valid() && 0 < k <= |nodes| && prev == nodes[k - 1] && node !in repr
      modifies this, node`next, prev`next
      ensures Valid() && repr == old(repr) + {node}
      ensures nodes == Inserted(old(nodes), k, node)
      ensures ranges == Inserted(old(ranges), k, node.Block())
    {
      node.next := prev.next;
      prev.next := node;
      ghost var was, blocks := nodes, ranges;
      nodes, ranges, repr := Inserted(was, k, node), Inserted(blocks, k, node.Block()), repr + {node};
      InsertedDistinct(was, k, node);
      forall i | 0 <= i < |nodes|
        ensures nodes[i] in repr && nodes[i].next == At(nodes, i + 1) && ranges[i] == nodes[i].Block()
      {
        InsertedAt(was, k, node, i);
        InsertedAt(was, k, node, i + 1);
        InsertedIndex(blocks, k, node.Block(), i);
        assert i != k ==> At(nodes, i) == was[if i < k then i else i - 1];
      }
      forall n | n in repr ensures n in nodes {
        InsertedContains(was, k, node, n);
      }
    }

    /** Store `node` through the pointer-to-pointer that follows `prev` (the head if null). */
    method Link(prev: RangeNode?, node: RangeNode, ghost k: nat)
      requires Valid() && k <= |nodes| && prev == At(nodes, k - 1) && node !in repr
      modifies this, node`next, repr`next
      ensures Valid() && repr == old(repr) + {node}
      ensures nodes == Inserted(old(nodes), k, node)
      ensures ranges == Inserted(old(ranges), k, node.Block())
    {
      if prev == null {
        Push(node);
      } else {
        LinkAfter(prev, node, k);
      }
    }

    method UnlinkAfter(prev: RangeNode, node: RangeNode, ghost k: nat)
      requires Valid() && 0 < k < |nodes| && prev == nodes[k - 1] && node == nodes[k]
      modifies this, prev`next
      ensures Valid() && repr == old(repr) - {node}
      ensures nodes == Removed(old(nodes), k) && ranges == Removed(old(ranges), k)
    {
      prev.next := node.next;
      ghost var was, blocks := nodes, ranges;
      nodes, ranges, repr := Removed(was, k), Removed(blocks, k), repr - {node};
      RemovedDistinct(was, k);
      forall i | 0 <= i < |nodes|
        ensures nodes[i] in repr && nodes[i].next == At(nodes, i + 1) && ranges[i] == nodes[i].Block()
      {
        var j := if i < k then i else i + 1;
        assert nodes[i] == was[j] && ranges[i] == blocks[j];
        assert At(nodes, i + 1) == At(was, if i + 1 < k then i + 1 else i + 2);
      }
      forall n | n in repr ensures n in nodes {
        RemovedContains(was, k, n);
      }
    }

    /** Cut `node` out by storing its successor through the pointer that follows `prev`. */
    method Unlink(prev: RangeNode?, node: RangeNode, ghost k: nat)
      requires Valid() && k < |nodes| && prev == At(nodes, k - 1) && node == nodes[k]
      modifies this, repr`next
      ensures Valid() && repr == old(repr) - {node}
      ensures nodes == Removed(old(nodes), k) && ranges == Removed(old(ranges), k)
    {
      if prev == null {
        head := node.next;
        nodes, ranges, repr := nodes[1..], ranges[1..], repr - {node};
      } else {
        UnlinkAfter(prev, node, k);
      }
    }

    /** Move the bounds of the range that `node` describes. */
    method Resize(node: RangeNode, ghost k: nat, base: int, size: int)
      requires Valid() && k < |nodes| && node == nodes[k]
      modifies this`ranges, node`base, node`size
      ensures Valid() && ranges == old(ranges)[k := Range(base, size)]
    {
      node.base := base;
      node.size := size;
      ranges := ranges[k := Range(base, size)];
    }

    /** Give the part of `range` below `p` to `front` and put it ahead of `range`. */
    method SplitFront(prev: RangeNode?, range: RangeNode, front: RangeNode, ghost k: nat, p: int)
      requires Valid() && front !in repr
      requires k < |nodes| && range == nodes[k] && prev == At(nodes, k - 1)
      modifies this, front, range`base, range`size, repr`next
      ensures Valid() && repr == old(repr) + {front}
      ensures nodes == Inserted(old(nodes), k, front) && ranges == FrontSplit(old(ranges), k, p)
    {
      ghost var rs := ranges;
      front.base := range.base;
      front.size := p - range.base;
      Resize(range, k, p, range.size - front.size);
      Link(prev, front, k);
      FrontSplitSteps(rs, k, p);
    }

    /** Give the first `n` bytes of `range` to `block`, which no list holds yet. */
    method SplitBack(range: RangeNode, block: RangeNode, ghost k: nat, n: int)
      requires Valid() && block !in repr && k < |nodes| && range == nodes[k]
      modifies this`ranges, block, range`base, range`size
      ensures Valid() && ranges == BackSplit(old(ranges), k, n)
      ensures block.Block() == Range(old(ranges[k].base), n)
    {
      block.base := range.base;
      block.size := n;
      Resize(range, k, block.base + block.size, range.size - block.size);
    }

    /** Cut out the first block that starts at `base`, if there is one. */
    method Extract(base: int) returns (range: RangeNode?, ghost k: nat)
      requires Valid()
      modifies this, repr`next
      ensures Valid() && k == FindBase(old(ranges), base) && repr == old(repr) - Given(range)
      ensures range == null ==> k == |old(ranges)| && ranges == old(ranges)
      ensures range != null ==> k < |old(ranges)| && range in old(repr) && range.Block() == old(ranges)[k]
      ensures range != null ==> ranges == Removed(old(ranges), k)
    {
      var prev;
      prev, range, k := Find(base);
      if range != null {
        assert ranges[k] == range.Block();
        Unlink(prev, range, k);
      }
    }

    /** Put `range` in its place by address; `prev` is the node before it. */
    method Insert(range: RangeNode) returns (prev: RangeNode?, ghost k: nat)
      requires Valid() && range !in repr
      modifies this, range`next, repr`next
      ensures Valid() && repr == old(repr) + {range}
      ensures k == InsertAt(old(ranges), range.base) && ranges == Inserted(old(ranges), k, range.Block())
      ensures k < |nodes| && nodes[k] == range
      ensures if prev == null then k == 0 else k > 0 && nodes[k - 1] == prev
    {
      var next;
      prev, next, k := FindInsertionPoint(range.base);
      ghost var was := nodes;
      Link(prev, range, k);
      InsertedIndex(was, k, range, k);
      if k > 0 {
        InsertedIndex(was, k, range, k - 1);
      }
    }

    /** If `node` touches its successor, swallow it; `gone` is the node cut out. */
    method MergeNext(node: RangeNode, ghost k: nat) returns (gone: RangeNode?)
      requires Valid() && k < |nodes| && node == nodes[k]
      modifies this, node
      ensures Valid() && ranges == MergeAt(old(ranges), k)
      ensures gone != null ==> gone in old(repr)
      ensures repr == old(repr) - Given(gone)
      ensures k < |nodes| && nodes[k] == node && (k > 0 ==> nodes[k - 1] == old(nodes)[k - 1])
    {
      gone := null;
      assert node.next != null ==> k + 1 < |nodes| && node.next == nodes[k + 1] && ranges[k + 1] == node.next.Block();
      assert ranges[k] == node.Block();
      if node.next != null && node.base + node.size == node.next.base {
        gone := node.next;
        Resize(node, k, node.base, node.size + gone.size);
        UnlinkAfter(node, gone, k + 1);
      }
    }
  }

  lemma {:induction false} FirstFitUnique(rs: seq<Range>, n: int, align: nat, k: nat)
    requires align > 0 && k <= |rs| && (k < |rs| ==> Fits(rs[k], n, align))
    requires forall i :: 0 <= i < k ==> !Fits(rs[i], n, align)
    ensures k == FirstFit(rs, n, align)
  {
  }

  lemma {:induction false} FindBaseUnique(rs: seq<Range>, base: int, k: nat)
    requires k <= |rs| && (k < |rs| ==> rs[k].base == base)
    requires forall i :: 0 <= i < k ==> rs[i].base != base
    ensures k == FindBase(rs, base)
  {
  }

  lemma {:induction false} InsertAtUnique(rs: seq<Range>, base: int, k: nat)
    requires k <= |rs| && (k < |rs| ==> rs[k].base >= base)
    requires forall i :: 0 <= i < k ==> rs[i].base < base
    ensures k == InsertAt(rs, base)
  {
  }

  class PagePool {
    const free: RangeList
    const used: RangeList
    ghost var live: set<RangeNode>

    /** Both lists are intact and share no node, and the nodes obtained from kmalloc are
        those of the two lists plus `spare`, which no list reaches. */
    ghost predicate Owns(spare: set<RangeNode>)
      reads this, free, used, free.repr, used.repr
    {
      && free != used
      && free.Valid() && used.Valid()
      && free.repr !! used.repr && spare !! free.repr && spare !! used.repr
      && live == free.repr + used.repr + spare
    }

    ghost predicate Valid()
      reads this, free, used, free.repr, used.repr
    {
      Owns({})
    }

    ghost function State(): Pool
      reads free, used
    {
      Pool(free.ranges, used.ranges)
    }

    /** membpa_init2 for one zone: a node for its region if it has one, otherwise two empty
        lists. */
    constructor (lo: int, hi: int)
      ensures Valid() && State() == Starting(lo, hi)
      ensures fresh(free) && fresh(used) && fresh(live) && live == free.repr + used.repr
    {
      free := new RangeList();
      used := new RangeList();
      live := {};
      new;
      if lo < hi {
        AddRegion(lo, hi);
      }
    }

    method AddRegion(lo: int, hi: int)
      requires Valid() && State() == Pool([], [])
      modifies this`live, free
      ensures Valid() && State() == Initial(lo, hi) && fresh(live - old(live))
    {
      var node := new RangeNode(null, lo, hi - lo);
      free.Push(node);
      live := live + {node};
    }

    /** A node from kmalloc, or null when the request is refused. */
    method Kmalloc(ok: bool, ghost spare: set<RangeNode>) returns (node: RangeNode?)
      requires Owns(spare)
      modifies this`live
      ensures (node != null) == ok && (ok ==> fresh(node))
      ensures live == old(live) + Given(node) && Owns(spare + Given(node))
    {
      node := null;
      if ok {
        node := new RangeNode(null, 0, 0);
        live := live + {node};
      }
    }

    /** The nodes a split needs, obtained up front; a node is kfreed again if the other is refused. */
    method KmallocNodes(needNew: bool, needAlign: bool, newOk: bool, alignOk: bool)
      returns (ok: bool, newRange: RangeNode?, alignRange: RangeNode?)
      requires Valid()
      modifies this`live
      ensures ok == ((needNew ==> newOk) && (needAlign ==> alignOk))
      ensures !ok ==> Valid() && live == old(live)
      ensures ok ==> (newRange != null) == needNew && (alignRange != null) == needAlign
      ensures ok ==> (needNew ==> newRange != alignRange) && Owns(Given(newRange) + Given(alignRange))
      ensures fresh(live - old(live))
    {
      ok, newRange, alignRange := false, null, null;
      if needNew {
        newRange := Kmalloc(newOk, {});
        if newRange == null {
          return;
        }
      }
      if needAlign {
        alignRange := Kmalloc(alignOk, Given(newRange));
        if alignRange == null {
          live := live - Given(newRange);  // kfree
          return;
        }
      }
      ok := true;
    }

    /** membpa_alloc_pages once the pool is initialised; null is `None`. */
    method AllocPages(count: int, align: nat, newOk: bool, alignOk: bool) returns (res: Option<int>)
      requires Valid()
      modifies this, free, used, live
      ensures Valid() && fresh(live - old(live))
      ensures (State(), res) == Alloc(old(State()), count, align, newOk, alignOk)
    {
      var n, al := count * PAGE_SIZE, AlignBytes(align);
      var prev, range, k := free.FindFit(n, al);
      if range == null {
        return None;
      }
      var p := AlignUp(range.base, al);
      var needNew := Unsigned(p - range.base + n) < range.size;
      var ok, newRange, alignRange := KmallocNodes(needNew, p != range.base, newOk, alignOk);
      if !ok {
        return None;
      }
      CarveNodes(prev, range, k, p, n, newRange, alignRange);
      res := Some(p);
    }

    /** The pointer surgery of an allocation, with the nodes it has been granted. */
    method CarveNodes(prev: RangeNode?, range: RangeNode, ghost k: nat, p: int, n: int,
                      newRange: RangeNode?, alignRange: RangeNode?)
      requires Owns(Given(newRange) + Given(alignRange)) && (newRange != null ==> newRange != alignRange)
      requires k < |free.nodes| && range == free.nodes[k] && prev == At(free.nodes, k - 1)
      requires newRange != null <==> NeedsNew(free.ranges[k], p, n)
      requires alignRange != null <==> p != free.ranges[k].base
      modifies this, free, used, live
      ensures Valid() && live == old(live)
      ensures State() == Carve(old(State()), k, p, n)
    {
      ghost var pool := State();
      var before: RangeNode?, j := PutBackFront(prev, range, k, p, newRange, alignRange);
      ghost var split := free.ranges;
      Take(before, range, j, n, newRange);
      CarveSteps(pool, k, p, n, split, free.ranges);
    }

    /** Return the pages in front of `p` to the free list, if there are any. */
    method PutBackFront(prev: RangeNode?, range: RangeNode, ghost k: nat, p: int,
                        ghost newRange: RangeNode?, alignRange: RangeNode?)
      returns (before: RangeNode?, ghost j: nat)
      requires Owns(Given(newRange) + Given(alignRange)) && (newRange != null ==> newRange != alignRange)
      requires k < |free.nodes| && range == free.nodes[k] && prev == At(free.nodes, k - 1)
      requires alignRange != null <==> p != free.ranges[k].base
      modifies free, live
      ensures Owns(Given(newRange)) && j == (if alignRange != null then k + 1 else k)
      ensures j < |free.nodes| && range == free.nodes[j] && before == At(free.nodes, j - 1)
      ensures free.ranges == if alignRange != null then FrontSplit(old(free.ranges), k, p) else old(free.ranges)
    {
      before, j := prev, k;
      if alignRange != null {
        SplitFront(prev, range, alignRange, k, p, Given(newRange));
        before, j := alignRange, k + 1;
        InsertedIndex(old(free.nodes), k, alignRange, k);
        InsertedIndex(old(free.nodes), k, alignRange, k + 1);
      }
    }

    /** Move the first `n` bytes of `range` to the used list, or all of it if no node was asked
        for. */
    method Take(prev: RangeNode?, range: RangeNode, ghost k: nat, n: int, newRange: RangeNode?)
      requires Owns(Given(newRange))
      requires k < |free.nodes| && range == free.nodes[k] && prev == At(free.nodes, k - 1)
      modifies free, used, live
      ensures Valid()
      ensures free.ranges == if newRange != null then BackSplit(old(free.ranges), k, n)
              else Removed(old(free.ranges), k)
      ensures used.ranges == [if newRange != null then Range(old(free.ranges[k].base), n) else old(free.ranges[k])]
                             + old(used.ranges)
    {
      if newRange != null {
        SplitBack(range, newRange, k, n);
      } else {
        MoveToUsed(prev, range, k);
      }
    }

    /** The pages in front of `p` get a node of their own, ahead of `range`. */
    method SplitFront(prev: RangeNode?, range: RangeNode, front: RangeNode, ghost k: nat, p: int,
                      ghost spare: set<RangeNode>)
      requires Owns(spare + {front}) && front !in spare
      requires k < |free.nodes| && range == free.nodes[k] && prev == At(free.nodes, k - 1)
      modifies free, front, range`base, range`size, free.repr`next
      ensures Owns(spare)
      ensures free.nodes == Inserted(old(free.nodes), k, front)
      ensures free.ranges == FrontSplit(old(free.ranges), k, p)
    {
      free.SplitFront(prev, range, front, k, p);
    }

    /** `n` bytes at the start of `range` become `block`, the new head of the used list. */
    method SplitBack(range: RangeNode, block: RangeNode, ghost k: nat, n: int)
      requires Owns({block})
      requires k < |free.nodes| && range == free.nodes[k]
      modifies free`ranges, used, block, range`base, range`size
      ensures Valid()
      ensures free.ranges == BackSplit(old(free.ranges), k, n)
      ensures used.ranges == [Range(old(free.ranges[k].base), n)] + old(used.ranges)
    {
      free.SplitBack(range, block, k, n);
      used.Push(block);
    }

    /** The range fits exactly: its node itself moves to the used list. */
    method MoveToUsed(prev: RangeNode?, range: RangeNode, ghost k: nat)
      requires Valid()
      requires k < |free.nodes| && range == free.nodes[k] && prev == At(free.nodes, k - 1)
      modifies free, used, free.repr`next
      ensures Valid()
      ensures free.ranges == Removed(old(free.ranges), k)
      ensures used.ranges == [old(free.ranges[k])] + old(used.ranges)
    {
      free.Unlink(prev, range, k);
      used.Push(range);
    }

    /** membpa_free_pages for the two pool types. */
    method FreePages(base: int)
      requires Valid()
      modifies this, free, used, live
      ensures Valid() && live <= old(live)
      ensures State() == Free(old(State()), base)
    {
      var range, k := used.Extract(base);
      if range != null {
        ReleaseNode(range);
      }
    }

    /** Insert an unlinked node into the free list and join it with its neighbours. */
    method ReleaseNode(range: RangeNode)
      requires Owns({range})
      modifies this`live, free, free.repr, range
      ensures Valid() && live <= old(live)
      ensures free.ranges == Release(old(free.ranges), old(range.Block()))
    {
      var prev, k := free.Insert(range);
      Join(range, k);
      if prev != null {
        Join(prev, k - 1);
      }
    }

    /** Join `node` with its successor when they touch; the successor's node is kfreed. */
    method Join(node: RangeNode, ghost k: nat)
      requires Valid() && k < |free.nodes| && free.nodes[k] == node
      modifies this`live, free, node
      ensures Valid() && live <= old(live)
      ensures free.ranges == MergeAt(old(free.ranges), k)
      ensures k < |free.nodes| && free.nodes[k] == node && (k > 0 ==> free.nodes[k - 1] == old(free.nodes)[k - 1])
    {
      var gone := free.MergeNext(node, k);
      live := live - Given(gone);  // kfree
    }
  }

  ghost function Given(node: RangeNode?): set<RangeNode> {
    if node == null then {} else {node}
  }

  ghost function FrontSplit(rs: seq<Range>, k: nat, p: int): seq<Range>
    requires k < |rs|
  {
    rs[..k] + [Range(rs[k].base, p - rs[k].base), Range(p, rs[k].End() - p)] + rs[k + 1..]
  }

  lemma FrontSplitSteps(rs: seq<Range>, k: nat, p: int)
    requires k < |rs|
    ensures Inserted(rs[k := Range(p, rs[k].End() - p)], k, Range(rs[k].base, p - rs[k].base)) == FrontSplit(rs, k, p)
  {
  }

  ghost function BackSplit(rs: seq<Range>, k: nat, n: int): seq<Range>
    requires k < |rs|
  {
    rs[k := Range(rs[k].base + n, rs[k].size - n)]
  }

  /** The two splitting steps together cut `n` bytes from `p` out of range `k`. */
  lemma CarveSteps(pool: Pool, k: nat, p: int, n: int, split: seq<Range>, rest: seq<Range>)
    requires k < |pool.free|
    requires var r := pool.free[k];
      var j := if p != r.base then k + 1 else k;
      && split == (if p != r.base then FrontSplit(pool.free, k, p) else pool.free)
      && rest == (if NeedsNew(r, p, n) then BackSplit(split, j, n) else Removed(split, j))
    ensures rest == Carve(pool, k, p, n).free
    ensures var r := pool.free[k];
      var j := if p != r.base then k + 1 else k;
      CutBlock(r, p, n) == if NeedsNew(r, p, n) then Range(split[j].base, n) else split[j]
  {
  }
}
