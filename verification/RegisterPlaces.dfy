/** The generated tree described by itself: what its nodes are, at which addresses they stand,
    and which groups of the configuration it reaches. */
module RegisterPlaces {
  import opened Arithmetic
  import opened Wrappers
  import opened RegisterTree
  import opened SequenceList

  /** The address at which a node ends: that of its last child, or where the first would go. */
  ghost function EndOf(config: Config, node: Node): nat
    decreases node
  {
    match node
    case RegisterNode(_, address, step) => address + step
    case GroupNode(g, _, address, nodes) => EndOfLast(config, address + Lead(config, g), nodes)
  }

  ghost function EndOfLast(config: Config, start: nat, nodes: seq<Node>): nat
    decreases nodes
  {
    if nodes == [] then start else EndOf(config, nodes[|nodes| - 1])
  }

  /** The offset of a group. */
  ghost function Lead(config: Config, g: string): nat { if g in config then config[g].offset else 0 }

  /** Where child `i` goes unless its entry has an offset: where the child before it ended. */
  ghost function Behind(config: Config, start: nat, nodes: seq<Node>, i: nat): nat
    requires i <= |nodes|
  {
    EndOfLast(config, start, nodes[..i])
  }

  /** `node` is what entry `e` makes in a group at address `base`, if the child before it ended
      at `behind`: an offset counts from the group. */
  ghost predicate Child(config: Config, e: Entry, base: nat, behind: nat, node: Node)
    decreases node, 1
  {
    && Expands(config, e, node) && Described(config, node)
    && match e.offset
       case Some(o) => node.address == base + o
       case None => node.address == behind
  }

  /** The children of a group at `base` follow its entries, over and over. */
  ghost predicate Children(config: Config, es: seq<Entry>, base: nat, start: nat, nodes: seq<Node>)
    decreases nodes
  {
    forall i :: 0 <= i < |nodes| ==>
      es != [] && Child(config, es[i % |es|], base, Behind(config, start, nodes, i), nodes[i])
  }

  /** A group node repeats the entries of its group as often as the configuration says, each
      child being what its entry asks for at the address it asks for. */
  ghost predicate Described(config: Config, node: Node)
    decreases node, 0
  {
    match node
    case RegisterNode(_, _, _) => true
    case GroupNode(g, number, address, nodes) =>
      && g in config && number == config[g].number && |nodes| == number * |config[g].entries|
      && Children(config, config[g].entries, address, address + config[g].offset, nodes)
  }

  // ---------------------------------------------------------------- what is generated is described

  /** One pass: child `i` comes from entry `i`. */
  ghost predicate OnePass(config: Config, es: seq<Entry>, base: nat, start: nat, nodes: seq<Node>) {
    && |nodes| == |es|
    && forall i :: 0 <= i < |nodes| ==> Child(config, es[i], base, Behind(config, start, nodes, i), nodes[i])
  }

  lemma BehindCons(config: Config, start: nat, node: Node, more: seq<Node>, i: nat)
    requires i <= |more|
    ensures Behind(config, start, [node] + more, i + 1) == Behind(config, EndOf(config, node), more, i)
  {
    assert ([node] + more)[..i + 1] == [node] + more[..i];
  }

  lemma PassCons(config: Config, es: seq<Entry>, base: nat, start: nat, node: Node, more: seq<Node>)
    requires es != [] && Child(config, es[0], base, start, node)
    requires OnePass(config, es[1..], base, EndOf(config, node), more)
    ensures OnePass(config, es, base, start, [node] + more)
  {
    var nodes := [node] + more;
    forall i | 0 <= i < |nodes| ensures Child(config, es[i], base, Behind(config, start, nodes, i), nodes[i]) {
      if i > 0 {
        BehindCons(config, start, node, more, i - 1);
        assert es[i] == es[1..][i - 1] && nodes[i] == more[i - 1];
      }
    }
  }

  lemma BehindJoin(config: Config, start: nat, first: seq<Node>, more: seq<Node>, i: nat)
    requires i <= |more|
    ensures Behind(config, start, first + more, |first| + i)
            == Behind(config, EndOfLast(config, start, first), more, i)
  {
    assert (first + more)[..|first| + i] == first + more[..i];
  }

  lemma EndJoin(config: Config, start: nat, first: seq<Node>, more: seq<Node>)
    ensures EndOfLast(config, start, first + more) == EndOfLast(config, EndOfLast(config, start, first), more)
  {
  }

  lemma PassJoin(config: Config, es: seq<Entry>, base: nat, start: nat, first: seq<Node>, more: seq<Node>)
    requires OnePass(config, es, base, start, first)
    requires Children(config, es, base, EndOfLast(config, start, first), more)
    ensures Children(config, es, base, start, first + more)
  {
    var all := first + more;
    forall i | 0 <= i < |all|
      ensures es != [] && Child(config, es[i % |es|], base, Behind(config, start, all, i), all[i])
    {
      if i < |first| {
        DivModIs(i, |es|, 0, i);
        assert all[i] == first[i] && all[..i] == first[..i];
      } else {
        var j := i - |first|;
        assert all[i] == more[j];
        BehindJoin(config, start, first, more, j);
        ModShift(i, |es|);
      }
    }
  }

  lemma PassCount(n: nat, m: nat)
    requires n > 0
    ensures n * m == m + (n - 1) * m
  {
  }

  lemma {:induction false} NodeDescribed(config: Config, rank: map<string, nat>, g: string, address: nat)
    requires Acyclic(config, rank)
    ensures GenNode(config, rank, g, address).Ok? ==>
      var (node, end) := GenNode(config, rank, g, address).value;
      && node.GroupNode? && node.name == g && node.address == address
      && Described(config, node) && end == EndOf(config, node)
    decreases Rank(rank, g), 2, 0
  {
    if g in config {
      RepeatDescribed(config, rank, g, address, address + config[g].offset, config[g].number);
    }
  }

  lemma {:induction false} RepeatDescribed(config: Config, rank: map<string, nat>, g: string, base: nat, address: nat,
                                           n: nat)
    requires Acyclic(config, rank) && g in config
    ensures GenRepeat(config, rank, g, base, address, n).Ok? ==>
      var (nodes, end) := GenRepeat(config, rank, g, base, address, n).value;
      && |nodes| == n * |config[g].entries| && end == EndOfLast(config, address, nodes)
      && Children(config, config[g].entries, base, address, nodes)
    decreases Rank(rank, g), 1, n
  {
    var es := config[g].entries;
    if n > 0 && GenRepeat(config, rank, g, base, address, n).Ok? {
      EntriesDescribed(config, rank, g, es, base, address);
      var (nodes, next) := GenEntries(config, rank, g, es, base, address).value;
      RepeatDescribed(config, rank, g, base, next, n - 1);
      var more := GenRepeat(config, rank, g, base, next, n - 1).value.0;
      PassJoin(config, es, base, address, nodes, more);
      EndJoin(config, address, nodes, more);
      PassCount(n, |es|);
    }
  }

  lemma {:induction false} EntriesDescribed(config: Config, rank: map<string, nat>, g: string, entries: seq<Entry>,
                                            base: nat, address: nat)
    requires Acyclic(config, rank) && g in config && forall e :: e in entries ==> e in config[g].entries
    ensures GenEntries(config, rank, g, entries, base, address).Ok? ==>
      var (nodes, end) := GenEntries(config, rank, g, entries, base, address).value;
      OnePass(config, entries, base, address, nodes) && end == EndOfLast(config, address, nodes)
    decreases Rank(rank, g), 0, |entries|
  {
    if entries != [] && GenEntries(config, rank, g, entries, base, address).Ok? {
      var at := Place(entries[0], base, address);
      EntryDescribed(config, rank, g, entries[0], at);
      EntryExpands(config, rank, g, entries[0], at);
      var (node, next) := GenEntry(config, rank, g, entries[0], at).value;
      EntriesDescribed(config, rank, g, entries[1..], base, next);
      var more := GenEntries(config, rank, g, entries[1..], base, next).value.0;
      PassCons(config, entries, base, address, node, more);
      EndJoin(config, address, [node], more);
    }
  }

  lemma {:induction false} EntryDescribed(config: Config, rank: map<string, nat>, g: string, e: Entry, at: nat)
    requires Acyclic(config, rank) && g in config && e in config[g].entries
    ensures GenEntry(config, rank, g, e, at).Ok? ==>
      var (node, next) := GenEntry(config, rank, g, e, at).value;
      Described(config, node) && node.address == at && next == EndOf(config, node)
    decreases Rank(rank, g), 0, 0
  {
    if e.Ref? && e.name in config {
      NodeDescribed(config, rank, e.name, at);
    }
  }

  // ---------------------------------------------------------------- which groups are reached

  /** A group that is repeated at least once refers to `h`. */
  ghost predicate Leads(config: Config, g: string, h: string) {
    g in config && config[g].number > 0 && exists e :: e in config[g].entries && e.Ref? && e.name == h
  }

  ghost predicate Path(config: Config, p: seq<string>) {
    p != [] && forall i :: 0 <= i < |p| - 1 ==> Leads(config, p[i], p[i + 1])
  }

  ghost predicate Reached(config: Config, g: string, h: string) {
    exists p :: Path(config, p) && p[0] == g && p[|p| - 1] == h
  }

  lemma ReachedSelf(config: Config, g: string)
    ensures Reached(config, g, g)
  {
    assert Path(config, [g]);
  }

  lemma ReachedBy(config: Config, g: string, e: Entry, h: string)
    requires g in config && config[g].number > 0 && e in config[g].entries && e.Ref? && Reached(config, e.name, h)
    ensures Reached(config, g, h)
  {
    var p :| Path(config, p) && p[0] == e.name && p[|p| - 1] == h;
    var q := [g] + p;
    assert Leads(config, g, e.name);
    assert forall i :: 0 <= i < |q| - 1 ==> Leads(config, q[i], q[i + 1]) by {
      assert forall i :: 1 <= i < |q| ==> q[i] == p[i - 1];
    }
    assert Path(config, q) && q[|q| - 1] == h;
  }

  /** An error names a group that is reached and missing. */
  lemma {:induction false} MissingReached(config: Config, rank: map<string, nat>, g: string, address: nat)
    requires Acyclic(config, rank) && GenNode(config, rank, g, address).Err?
    ensures var h := GenNode(config, rank, g, address).error; Reached(config, g, h) && h !in config
    decreases Rank(rank, g), 2, 0
  {
    if g in config {
      MissingInRepeat(config, rank, g, address, address + config[g].offset, config[g].number);
    } else {
      ReachedSelf(config, g);
    }
  }

  lemma {:induction false} MissingInRepeat(config: Config, rank: map<string, nat>, g: string, base: nat, address: nat,
                                           n: nat)
    requires Acyclic(config, rank) && g in config && n <= config[g].number
    requires GenRepeat(config, rank, g, base, address, n).Err?
    ensures var h := GenRepeat(config, rank, g, base, address, n).error; Reached(config, g, h) && h !in config
    decreases Rank(rank, g), 1, n
  {
    if n > 0 {
      var pass := GenEntries(config, rank, g, config[g].entries, base, address);
      if pass.Err? {
        MissingInEntries(config, rank, g, config[g].entries, base, address);
      } else {
        MissingInRepeat(config, rank, g, base, pass.value.1, n - 1);
      }
    }
  }

  lemma {:induction false} MissingInEntries(config: Config, rank: map<string, nat>, g: string, entries: seq<Entry>,
                                            base: nat, address: nat)
    requires Acyclic(config, rank) && g in config && config[g].number > 0
    requires forall e :: e in entries ==> e in config[g].entries
    requires GenEntries(config, rank, g, entries, base, address).Err?
    ensures var h := GenEntries(config, rank, g, entries, base, address).error; Reached(config, g, h) && h !in config
    decreases Rank(rank, g), 0, |entries|
  {
    var at := Place(entries[0], base, address);
    var one := GenEntry(config, rank, g, entries[0], at);
    if one.Ok? {
      MissingInEntries(config, rank, g, entries[1..], base, one.value.1);
    } else if entries[0].name in config {
      MissingReached(config, rank, entries[0].name, at);
      ReachedBy(config, g, entries[0], one.error);
    } else {
      ReachedSelf(config, entries[0].name);
      ReachedBy(config, g, entries[0], one.error);
    }
  }

  /** A described group node that is repeated has a child for each of its entries. */
  lemma HasChild(config: Config, node: Node, h: string) returns (i: nat)
    requires node.GroupNode? && Described(config, node) && Leads(config, node.name, h)
    ensures i < |node.nodes| && node.nodes[i].GroupNode? && node.nodes[i].name == h && Described(config, node.nodes[i])
  {
    var es := config[node.name].entries;
    var e :| e in es && e.Ref? && e.name == h;
    i :| 0 <= i < |es| && es[i] == e;
    MulMono(1, node.number, |es|);
    DivModIs(i, |es|, 0, i);
    assert Child(config, es[i % |es|], node.address,
                 Behind(config, node.address + config[node.name].offset, node.nodes, i), node.nodes[i]);
  }

  /** Along every path from its group a described tree has a group node that the configuration
      defines. */
  lemma {:induction false} FollowPath(config: Config, node: Node, p: seq<string>) returns (last: Node)
    requires node.GroupNode? && Described(config, node) && Path(config, p) && p[0] == node.name
    ensures last.GroupNode? && last.name == p[|p| - 1] && last.name in config && last.number == config[last.name].number
    ensures last.IsSequence() ==> last in Sequences(node)
    decreases |p|
  {
    if |p| == 1 {
      last := node;
    } else {
      assert Leads(config, p[0], p[1]);
      var i := HasChild(config, node, p[1]);
      assert Path(config, p[1..]);
      last := FollowPath(config, node.nodes[i], p[1..]);
      SequencesOfChild(node.nodes, i);
    }
  }

  lemma {:induction false} SequencesOfChild(nodes: seq<Node>, i: nat)
    requires i < |nodes|
    ensures forall s :: s in Sequences(nodes[i]) ==> s in SequencesOf(nodes)
  {
    if i > 0 {
      SequencesOfChild(nodes[1..], i - 1);
    }
  }

  /** Generation succeeds exactly when every group that is reached is defined; otherwise the
      error names one that is reached and not defined. */
  lemma GeneratesIff(config: Config, rank: map<string, nat>, g: string, address: nat)
    requires Acyclic(config, rank)
    ensures GenNode(config, rank, g, address).Ok? <==> forall h :: Reached(config, g, h) ==> h in config
    ensures var res := GenNode(config, rank, g, address);
      res.Err? ==> Reached(config, g, res.error) && res.error !in config
  {
    if GenNode(config, rank, g, address).Ok? {
      NodeDescribed(config, rank, g, address);
      var node := GenNode(config, rank, g, address).value.0;
      forall h | Reached(config, g, h) ensures h in config {
        var p :| Path(config, p) && p[0] == g && p[|p| - 1] == h;
        var last := FollowPath(config, node, p);
      }
    } else {
      MissingReached(config, rank, g, address);
    }
  }

  // ---------------------------------------------------------------- the description is exact

  lemma {:induction false} DescribedOnce(config: Config, x: Node, y: Node)
    requires x.GroupNode? && y.GroupNode? && x.name == y.name && x.address == y.address
    requires Described(config, x) && Described(config, y)
    ensures x == y
    decreases x, 1, 0
  {
    ChildrenOnce(config, config[x.name].entries, x.address, x.address + config[x.name].offset, x.nodes, y.nodes,
                 |x.nodes|);
    assert x.nodes[..|x.nodes|] == x.nodes && y.nodes[..|x.nodes|] == y.nodes;
  }

  lemma {:induction false} ChildrenOnce(config: Config, es: seq<Entry>, base: nat, start: nat, xs: seq<Node>,
                                        ys: seq<Node>, n: nat)
    requires n <= |xs| == |ys| && Children(config, es, base, start, xs) && Children(config, es, base, start, ys)
    ensures xs[..n] == ys[..n]
    decreases xs, 0, n
  {
    if n > 0 {
      var i := n - 1;
      ChildrenOnce(config, es, base, start, xs, ys, i);
      ChildrenAlike(config, es, base, start, xs, ys, i);
      if xs[i].GroupNode? {
        DescribedOnce(config, xs[i], ys[i]);
      }
      assert xs[..n] == xs[..i] + [xs[i]] && ys[..n] == ys[..i] + [ys[i]];
    }
  }

  /** Behind the same children stand registers that are equal, or groups of one name at one
      address. */
  lemma ChildrenAlike(config: Config, es: seq<Entry>, base: nat, start: nat, xs: seq<Node>, ys: seq<Node>, i: nat)
    requires i < |xs| == |ys| && Children(config, es, base, start, xs) && Children(config, es, base, start, ys)
    requires xs[..i] == ys[..i]
    ensures var x, y := xs[i], ys[i];
      if x.GroupNode?
      then y.GroupNode? && x.name == y.name && x.address == y.address && Described(config, x) && Described(config, y)
      else x == y
  {
    var x, y := xs[i], ys[i];
    var behind := Behind(config, start, xs, i);
    assert es != [] && Child(config, es[i % |es|], base, behind, x);
    assert behind == Behind(config, start, ys, i);
    assert Child(config, es[i % |es|], base, behind, y);
  }

  /** generate_node returns exactly the tree that is described: every group node repeats the
      entries of its group as often as the configuration says; an entry with an offset stands
      at that distance from its group, in every pass, and any other where the entry before it
      ended, the very first behind the offset of the group; and the address handed back is
      where the last one ended. */
  lemma TreeIff(config: Config, rank: map<string, nat>, g: string, address: nat, node: Node, end: nat)
    requires Acyclic(config, rank)
    ensures GenNode(config, rank, g, address) == Ok((node, end)) <==>
      && node.GroupNode? && node.name == g && node.address == address && Described(config, node)
      && end == EndOf(config, node)
  {
    NodeDescribed(config, rank, g, address);
    if node.GroupNode? && node.name == g && node.address == address && Described(config, node) {
      var res := GenNode(config, rank, g, address);
      if res.Err? {
        MissingReached(config, rank, g, address);
        var p :| Path(config, p) && p[0] == g && p[|p| - 1] == res.error;
        var last := FollowPath(config, node, p);
        assert false;
      }
      DescribedOnce(config, node, res.value.0);
    }
  }

  /** The tree of the sample configuration: an offset counts from the group, not from the entry
      before. */
  lemma OffsetExample(config: Config, rank: map<string, nat>)
    requires Acyclic(config, rank) && "Registers" in config
    requires config["Registers"] == GroupDef(1, 0, [Register("A", 16, None), Register("B", 16, Some(0x100))])
    ensures GenNode(config, rank, "Registers", 0)
            == Ok((GroupNode("Registers", 1, 0, [RegisterNode("A", 0, 16), RegisterNode("B", 0x100, 16)]), 0x110))
  {
    var nodes := [RegisterNode("A", 0, 16), RegisterNode("B", 0x100, 16)];
    var node := GroupNode("Registers", 1, 0, nodes);
    var es := config["Registers"].entries;
    assert nodes[..0] == [] && nodes[..1] == [RegisterNode("A", 0, 16)];
    assert Child(config, es[0], 0, Behind(config, 0, nodes, 0), nodes[0]);
    assert Child(config, es[1], 0, Behind(config, 0, nodes, 1), nodes[1]);
    TreeIff(config, rank, "Registers", 0, node, 0x110);
  }

  // ---------------------------------------------------------------- which groups get a struct

  lemma {:induction false} SequencesReached(config: Config, node: Node)
    requires node.GroupNode? && Described(config, node)
    ensures forall s :: s in Sequences(node) ==> IsReachedSequence(config, node.name, s)
    decreases node, 1
  {
    ReachedSelf(config, node.name);
    forall i | 0 <= i < |node.nodes|
      ensures forall s :: s in Sequences(node.nodes[i]) ==> IsReachedSequence(config, node.name, s)
    {
      ChildReached(config, node, i);
    }
    SequencesFrom(config, node.name, node.nodes);
  }

  ghost predicate IsReachedSequence(config: Config, g: string, s: Node) {
    s.GroupNode? && s.name in config && s.number == config[s.name].number != 1 && Reached(config, g, s.name)
  }

  lemma {:induction false} ChildReached(config: Config, node: Node, i: nat)
    requires node.GroupNode? && Described(config, node) && i < |node.nodes|
    ensures forall s :: s in Sequences(node.nodes[i]) ==> IsReachedSequence(config, node.name, s)
    decreases node, 0
  {
    var es, child := config[node.name].entries, node.nodes[i];
    assert Child(config, es[i % |es|], node.address,
                 Behind(config, node.address + config[node.name].offset, node.nodes, i), child);
    if child.GroupNode? {
      SequencesReached(config, child);
      forall s | s in Sequences(child) ensures IsReachedSequence(config, node.name, s) {
        ReachedBy(config, node.name, es[i % |es|], s.name);
      }
    }
  }

  lemma {:induction false} SequencesFrom(config: Config, g: string, nodes: seq<Node>)
    requires forall i, s :: 0 <= i < |nodes| && s in Sequences(nodes[i]) ==> IsReachedSequence(config, g, s)
    ensures forall s :: s in SequencesOf(nodes) ==> IsReachedSequence(config, g, s)
    decreases |nodes|
  {
    if nodes != [] {
      assert forall i :: 0 <= i < |nodes[1..]| ==> nodes[1..][i] == nodes[i + 1];
      SequencesFrom(config, g, nodes[1..]);
    }
  }

  /** A generated tree has a sequence of some name exactly when the configuration reaches a
      group of that name whose number is not 1. */
  lemma SequenceIff(config: Config, rank: map<string, nat>, g: string, address: nat, name: string)
    requires Acyclic(config, rank) && GenNode(config, rank, g, address).Ok?
    ensures name in Names(Sequences(GenNode(config, rank, g, address).value.0)) <==>
      Reached(config, g, name) && name in config && config[name].number != 1
  {
    NodeDescribed(config, rank, g, address);
    var node := GenNode(config, rank, g, address).value.0;
    SequencesReached(config, node);
    if Reached(config, g, name) && name in config && config[name].number != 1 {
      var p :| Path(config, p) && p[0] == g && p[|p| - 1] == name;
      var last := FollowPath(config, node, p);
      assert last.IsSequence();
    }
  }

  /** list_sequences can list a generated tree exactly when no group that is reached has the
      number 0. */
  lemma ListableIff(config: Config, rank: map<string, nat>, g: string, address: nat)
    requires Acyclic(config, rank) && GenNode(config, rank, g, address).Ok?
    ensures AllSequences(Sequences(GenNode(config, rank, g, address).value.0)) <==>
      forall h :: Reached(config, g, h) && h in config ==> config[h].number > 0
  {
    NodeDescribed(config, rank, g, address);
    var node := GenNode(config, rank, g, address).value.0;
    SequencesReached(config, node);
    var ss := Sequences(node);
    if AllSequences(ss) {
      forall h | Reached(config, g, h) && h in config ensures config[h].number > 0 {
        var p :| Path(config, p) && p[0] == g && p[|p| - 1] == h;
        var last := FollowPath(config, node, p);
        assert config[h].number != 1 ==> last in ss;
      }
    } else {
      var i :| 0 <= i < |ss| && !(ss[i].GroupNode? && ss[i].number > 0);
      assert ss[i] in ss;
      assert IsReachedSequence(config, g, ss[i]);
    }
  }

  /** The groups that get a struct are the ones that are reached and have a number other
      than 1, each exactly one. */
  lemma StructIff(config: Config, rank: map<string, nat>, g: string, address: nat, name: string)
    requires Acyclic(config, rank) && GenNode(config, rank, g, address).Ok?
    requires forall h :: Reached(config, g, h) && h in config ==> config[h].number > 0
    ensures var root := GenNode(config, rank, g, address).value.0;
      && AllSequences(Sequences(root))
      && ((Reached(config, g, name) && name in config && config[name].number != 1)
          <==> exists q :: Defines(Emitted(root), q, name))
      && forall q, r :: Defines(Emitted(root), q, name) && Defines(Emitted(root), r, name) ==> q == r
  {
    ListableIff(config, rank, g, address);
    SequenceIff(config, rank, g, address, name);
    OneStructPerName(GenNode(config, rank, g, address).value.0, name);
  }

  /** What an entry becomes in a struct: a register or a single group stands there itself, a
      repeated group as a reference with its count. */
  ghost predicate Listed(config: Config, e: Entry, node: Node, item: Item) {
    match e
    case Register(name, step, _) =>
      item == Member(node) && node.RegisterNode? && node.name == name && node.step == step
    case Ref(name, _) =>
      && name in config
      && if config[name].number == 1 then item == Member(node) && node.GroupNode? && node.name == name
         else item == Nested(name, config[name].number)
  }

  lemma ItemListed(config: Config, list: seq<Item>, q: nat, s: Node, i: nat)
    requires CopiesGroup(config, s) && PrecededByCopy(list, q, s) && i < |OneCopy(s)|
    ensures Listed(config, config[s.name].entries[i], s.nodes[i], list[q - |OneCopy(s)| + i])
  {
    var n := |OneCopy(s)|;
    assert list[q - n + i] == list[q - n..q][i] == ItemOf(OneCopy(s)[i]);
    assert Expands(config, config[s.name].entries[i], OneCopy(s)[i]);
  }

  /** In the list of a generated tree, the struct of a group directly follows one item for each
      of the group's entries, in their order, and these follow another struct or nothing. */
  lemma StructBody(config: Config, rank: map<string, nat>, root: Node, g: string, address: nat, q: nat)
    requires Acyclic(config, rank) && Yields(config, rank, g, address, root) && AllSequences(Sequences(root))
    requires q < |Emitted(root)| && Emitted(root)[q].Struct?
    ensures var (list, s) := (Emitted(root), Emitted(root)[q].sequence);
      && s.GroupNode? && s.name in config
      && var es := config[s.name].entries;
        && |es| <= |s.nodes| && |es| <= q && (q == |es| || list[q - |es| - 1].Struct?)
        && forall i :: 0 <= i < |es| ==> Listed(config, es[i], s.nodes[i], list[q - |es| + i])
  {
    StructFollowsOneCopy(config, rank, root, g, address, q);
    var list, s := Emitted(root), Emitted(root)[q].sequence;
    var es := config[s.name].entries;
    forall i | 0 <= i < |es| ensures Listed(config, es[i], s.nodes[i], list[q - |es| + i]) {
      ItemListed(config, list, q, s, i);
    }
  }
}
