/** The order in which the structs of a register tree are emitted (list_sequences): every
    sequence once, after everything it refers to. */
module SequenceList {
  import opened Arithmetic
  import opened RegisterTree

  /** What the list contains: a member of a struct, a reference to a nested sequence in a
      struct, or the struct itself. */
  datatype Item = Member(node: Node) | Nested(name: string, number: nat) | Struct(sequence: Node)

  /** All sequences of a tree, each before what it contains. */
  function Sequences(node: Node): seq<Node> {
    (if node.IsSequence() then [node] else []) + (if node.GroupNode? then SequencesOf(node.nodes) else [])
  }

  function SequencesOf(nodes: seq<Node>): seq<Node> {
    if nodes == [] then [] else Sequences(nodes[0]) + SequencesOf(nodes[1..])
  }

  /** The sequences below a node, without the node itself. */
  function Below(node: Node): seq<Node> {
    if node.GroupNode? then SequencesOf(node.nodes) else []
  }

  function Names(ss: seq<Node>): set<string> {
    set s | s in ss :: s.name
  }

  /** Walking the sequences from the last to the first and keeping each new name. */
  function Chosen(ss: seq<Node>): seq<Node> {
    if ss == [] then []
    else Chosen(ss[1..]) + (if ss[0].name in Names(ss[1..]) then [] else [ss[0]])
  }

  /** How many nodes one pass over the entries of a sequence has made. */
  function CopyLength(s: Node): (n: nat)
    requires s.GroupNode? && s.number > 0
    ensures n <= |s.nodes|
  {
    QuotientAtMost(|s.nodes|, s.number);
    |s.nodes| / s.number
  }

  /** One pass over the entries of a sequence. */
  function OneCopy(s: Node): seq<Node>
    requires s.GroupNode? && s.number > 0
  {
    s.nodes[..CopyLength(s)]
  }

  function ItemOf(node: Node): Item {
    if node.IsSequence() then Nested(node.name, node.number) else Member(node)
  }

  function Items(nodes: seq<Node>): (items: seq<Item>)
    ensures |items| == |nodes| && forall i :: 0 <= i < |nodes| ==> items[i] == ItemOf(nodes[i])
  {
    seq(|nodes|, i requires 0 <= i < |nodes| => ItemOf(nodes[i]))
  }

  /** What is emitted for one sequence: its members, then the struct. */
  function Block(s: Node): seq<Item>
    requires s.GroupNode? && s.number > 0
  {
    Items(OneCopy(s)) + [Struct(s)]
  }

  predicate AllSequences(ss: seq<Node>) {
    forall i :: 0 <= i < |ss| ==> ss[i].GroupNode? && ss[i].number > 0
  }

  function Blocks(ss: seq<Node>): seq<Item>
    requires AllSequences(ss)
  {
    if ss == [] then [] else Block(ss[0]) + Blocks(ss[1..])
  }

  // ---------------------------------------------------------------- what is chosen

  lemma {:induction false} ChosenNames(ss: seq<Node>)
    ensures Names(Chosen(ss)) == Names(ss)
  {
    if ss != [] {
      ChosenNames(ss[1..]);
      NamesSplit(ss[0], ss[1..]);
      NamesAppend(Chosen(ss[1..]), if ss[0].name in Names(ss[1..]) then [] else [ss[0]]);
      assert ss == [ss[0]] + ss[1..];
    }
  }

  lemma NamesSplit(s: Node, ss: seq<Node>)
    ensures Names([s] + ss) == {s.name} + Names(ss)
  {
    NamesAppend([s], ss);
    assert Names([s]) == {s.name} by { assert s in [s]; }
  }

  lemma NamesAppend(ss: seq<Node>, ts: seq<Node>)
    ensures Names(ss + ts) == Names(ss) + Names(ts)
  {
    forall n ensures n in Names(ss + ts) <==> n in Names(ss) || n in Names(ts) {
      if n in Names(ss + ts) {
        var s :| s in ss + ts && s.name == n;
        assert s in ss || s in ts;
      }
      if n in Names(ss) {
        var s :| s in ss && s.name == n;
        assert s in ss + ts;
      }
      if n in Names(ts) {
        var s :| s in ts && s.name == n;
        assert s in ss + ts;
      }
    }
  }

  /** Every name is chosen once. */
  lemma {:induction false} ChosenOnce(ss: seq<Node>, i: nat, j: nat)
    requires i < j < |Chosen(ss)|
    ensures Chosen(ss)[i].name != Chosen(ss)[j].name
  {
    var rest := Chosen(ss[1..]);
    ChosenNames(ss[1..]);
    if j < |rest| {
      ChosenOnce(ss[1..], i, j);
    } else {
      assert rest[i] in rest;
      assert Chosen(ss)[i] == rest[i] && Chosen(ss)[j] == ss[0];
      assert rest[i].name in Names(rest);
    }
  }

  /** A chosen sequence comes from a position of the list after which its name does not
      occur, and everything whose name occurs later in the list is chosen before it. */
  lemma {:induction false} ChosenAfter(ss: seq<Node>, i: nat, name: string) returns (k: nat)
    requires i < |Chosen(ss)|
    ensures k < |ss| && Chosen(ss)[i] == ss[k]
    ensures name in Names(ss[k + 1..]) ==> exists j :: 0 <= j < i && Chosen(ss)[j].name == name
  {
    var rest := Chosen(ss[1..]);
    if i < |rest| {
      var k' := ChosenAfter(ss[1..], i, name);
      k := k' + 1;
      assert ss[1..][k' + 1..] == ss[k + 1..];
      assert forall j :: 0 <= j < i ==> Chosen(ss)[j] == rest[j];
    } else {
      k := 0;
      ChosenNames(ss[1..]);
      if name in Names(ss[1..]) {
        var s :| s in rest && s.name == name;
        var j :| 0 <= j < |rest| && rest[j] == s;
        assert Chosen(ss)[j].name == name;
      }
    }
  }

  /** The names of the sequences below entry `k` occur after it. */
  ghost predicate Follows(ss: seq<Node>, k: nat)
    requires k < |ss|
  {
    Names(Below(ss[k])) <= Names(ss[k + 1..])
  }

  lemma FollowsInFront(ss: seq<Node>, ts: seq<Node>, k: nat)
    requires k < |ss| && Follows(ss, k)
    ensures Follows(ss + ts, k)
  {
    assert (ss + ts)[k + 1..] == ss[k + 1..] + ts;
    NamesAppend(ss[k + 1..], ts);
  }

  lemma FollowsBehind(ss: seq<Node>, ts: seq<Node>, k: nat)
    requires k < |ts| && Follows(ts, k)
    ensures Follows(ss + ts, |ss| + k)
  {
    assert (ss + ts)[|ss| + k + 1..] == ts[k + 1..];
  }

  /** Behind a sequence in the walk come the sequences below it. */
  lemma {:induction false} BelowFollows(node: Node, k: nat)
    requires k < |Sequences(node)|
    ensures Follows(Sequences(node), k)
    decreases node, 1
  {
    if node.IsSequence() && k == 0 {
      assert Sequences(node)[1..] == Below(node);
    } else {
      var head: seq<Node> := if node.IsSequence() then [node] else [];
      assert Sequences(node) == head + Below(node);
      BelowFollowsIn(node.nodes, k - |head|);
      FollowsBehind(head, Below(node), k - |head|);
    }
  }

  lemma {:induction false} BelowFollowsIn(nodes: seq<Node>, k: nat)
    requires k < |SequencesOf(nodes)|
    ensures Follows(SequencesOf(nodes), k)
    decreases nodes, 0
  {
    var first, rest := Sequences(nodes[0]), SequencesOf(nodes[1..]);
    if k < |first| {
      BelowFollows(nodes[0], k);
      FollowsInFront(first, rest, k);
    } else {
      BelowFollowsIn(nodes[1..], k - |first|);
      FollowsBehind(first, rest, k - |first|);
    }
  }

  /** In the chosen order each sequence name occurs once, every sequence of the tree is there,
      and a sequence below another one, at any depth, comes earlier. */
  lemma ChosenOrder(root: Node, i: nat, j: nat, name: string)
    requires i < |Chosen(Sequences(root))|
    ensures Names(Chosen(Sequences(root))) == Names(Sequences(root))
    ensures j < i ==> Chosen(Sequences(root))[j].name != Chosen(Sequences(root))[i].name
    ensures name in Names(Below(Chosen(Sequences(root))[i])) ==>
      exists h :: 0 <= h < i && Chosen(Sequences(root))[h].name == name
  {
    var ss := Sequences(root);
    ChosenNames(ss);
    if j < i {
      ChosenOnce(ss, j, i);
    }
    var k := ChosenAfter(ss, i, name);
    BelowFollows(root, k);
  }

  /** A nested reference in a block names a sequence below its struct. */
  lemma NestedIsBelow(s: Node, i: nat)
    requires s.GroupNode? && s.number > 0 && i < |Block(s)| - 1 && Block(s)[i].Nested?
    ensures Block(s)[i].name in Names(Below(s))
  {
    MemberSequences(s.nodes, i);
    assert s.nodes[i] in Below(s);
  }

  lemma {:induction false} MemberSequences(nodes: seq<Node>, i: nat)
    requires i < |nodes| && nodes[i].IsSequence()
    ensures nodes[i] in SequencesOf(nodes)
  {
    if i > 0 {
      MemberSequences(nodes[1..], i - 1);
    }
  }

  // ---------------------------------------------------------------- the emitted list

  lemma {:induction false} ChosenAll(ss: seq<Node>)
    requires AllSequences(ss)
    ensures AllSequences(Chosen(ss))
  {
    if ss != [] {
      ChosenAll(ss[1..]);
    }
  }

  /** The whole list. */
  function Emitted(root: Node): seq<Item>
    requires AllSequences(Sequences(root))
  {
    ChosenAll(Sequences(root));
    Blocks(Chosen(Sequences(root)))
  }

  /** Where the block of `ss[i]` starts, and where its struct stands. */
  function Start(ss: seq<Node>, i: nat): nat
    requires AllSequences(ss) && i <= |ss|
  {
    if i == 0 then 0 else |Block(ss[0])| + Start(ss[1..], i - 1)
  }

  function StructAt(ss: seq<Node>, i: nat): nat
    requires AllSequences(ss) && i < |ss|
  {
    Start(ss, i) + |Block(ss[i])| - 1
  }

  lemma {:induction false} BlockStands(ss: seq<Node>, i: nat, o: nat)
    requires AllSequences(ss) && i < |ss| && o < |Block(ss[i])|
    ensures Start(ss, i) + |Block(ss[i])| <= |Blocks(ss)|
    ensures Blocks(ss)[Start(ss, i) + o] == Block(ss[i])[o]
  {
    if i > 0 {
      BlockStands(ss[1..], i - 1, o);
    }
  }

  /** Every position of the list lies in one block. */
  lemma {:induction false} Locate(ss: seq<Node>, p: nat) returns (i: nat, o: nat)
    requires AllSequences(ss) && p < |Blocks(ss)|
    ensures i < |ss| && o < |Block(ss[i])| && p == Start(ss, i) + o && Blocks(ss)[p] == Block(ss[i])[o]
  {
    var n := |Block(ss[0])|;
    if p < n {
      i, o := 0, p;
    } else {
      i, o := Locate(ss[1..], p - n);
      i := i + 1;
    }
  }

  lemma {:induction false} StructsAscend(ss: seq<Node>, h: nat, i: nat)
    requires AllSequences(ss) && h < i < |ss|
    ensures StructAt(ss, h) < Start(ss, i)
    decreases h
  {
    if h > 0 {
      StructsAscend(ss[1..], h - 1, i - 1);
    } else {
      assert Start(ss, i) >= |Block(ss[0])|;
    }
  }

  /** The struct named `name` stands at position `q`. */
  predicate Defines(list: seq<Item>, q: int, name: string) {
    0 <= q < |list| && list[q].Struct? && list[q].sequence.name == name
  }

  lemma StructStands(ss: seq<Node>, i: nat)
    requires AllSequences(ss) && i < |ss|
    ensures StructAt(ss, i) < |Blocks(ss)| && Blocks(ss)[StructAt(ss, i)] == Struct(ss[i])
  {
    BlockStands(ss, i, |Block(ss[i])| - 1);
  }

  /** A struct stands only at the end of its block. */
  lemma LocateStruct(ss: seq<Node>, q: nat) returns (i: nat)
    requires AllSequences(ss) && q < |Blocks(ss)| && Blocks(ss)[q].Struct?
    ensures i < |ss| && q == StructAt(ss, i) && Blocks(ss)[q] == Struct(ss[i])
  {
    var o;
    i, o := Locate(ss, q);
  }

  /** A nested sequence is referred to only after its struct has been emitted. */
  lemma NestedAfterStruct(root: Node, p: nat)
    requires AllSequences(Sequences(root)) && p < |Emitted(root)| && Emitted(root)[p].Nested?
    ensures exists q :: q < p && Defines(Emitted(root), q, Emitted(root)[p].name)
  {
    ChosenAll(Sequences(root));
    var ss, name := Chosen(Sequences(root)), Emitted(root)[p].name;
    var i, o := Locate(ss, p);
    NestedIsBelow(ss[i], o);
    ChosenOrder(root, i, i, name);
    var h: nat :| h < i && ss[h].name == name;
    StructsAscend(ss, h, i);
    StructStands(ss, h);
    assert Defines(Emitted(root), StructAt(ss, h), name);
  }

  /** The names of the tree's sequences, and no others, have a struct in the list, each at
      exactly one position. */
  lemma OneStructPerName(root: Node, name: string)
    requires AllSequences(Sequences(root))
    ensures name in Names(Sequences(root)) <==> exists q :: Defines(Emitted(root), q, name)
    ensures forall q, r :: Defines(Emitted(root), q, name) && Defines(Emitted(root), r, name) ==> q == r
  {
    ChosenAll(Sequences(root));
    ChosenNames(Sequences(root));
    var ss := Chosen(Sequences(root));
    if name in Names(ss) {
      var s :| s in ss && s.name == name;
      var i: nat :| i < |ss| && ss[i] == s;
      StructStands(ss, i);
      assert Defines(Emitted(root), StructAt(ss, i), name);
    }
    forall q | Defines(Emitted(root), q, name) ensures name in Names(ss) {
      var i := LocateStruct(ss, q);
      assert ss[i] in ss;
    }
    forall q, r | Defines(Emitted(root), q, name) && Defines(Emitted(root), r, name) ensures q == r {
      var i := LocateStruct(ss, q);
      var j := LocateStruct(ss, r);
      if i != j {
        ChosenOnce(Sequences(root), if i < j then i else j, if i < j then j else i);
      }
    }
  }

  // ---------------------------------------------------------------- generated trees

  /** The node that an entry of a configuration expands to. */
  ghost predicate Expands(config: Config, e: Entry, node: Node) {
    match e
    case Register(name, step, _) => node.RegisterNode? && node.name == name && node.step == step
    case Ref(name, _) => node.GroupNode? && node.name == name && name in config && node.number == config[name].number
  }

  /** A sequence holds `number` copies of its group's entries, one after the other. */
  ghost predicate Copies(config: Config, g: string, nodes: seq<Node>, n: nat)
    requires g in config
  {
    var es := config[g].entries;
    |nodes| == n * |es| && forall i :: 0 <= i < |nodes| ==> Expands(config, es[i % |es|], nodes[i])
  }

  lemma EntryExpands(config: Config, rank: map<string, nat>, g: string, e: Entry, at: nat)
    requires Acyclic(config, rank) && g in config && e in config[g].entries
    ensures GenEntry(config, rank, g, e, at).Ok? ==> Expands(config, e, GenEntry(config, rank, g, e, at).value.0)
  {
    if e.Ref? && e.name in config {
      assert GenEntry(config, rank, g, e, at) == GenNode(config, rank, e.name, at);
    }
  }

  lemma {:induction false} EntriesExpand(config: Config, rank: map<string, nat>, g: string, entries: seq<Entry>,
                                         base: nat, address: nat)
    requires Acyclic(config, rank) && g in config && forall e :: e in entries ==> e in config[g].entries
    ensures GenEntries(config, rank, g, entries, base, address).Ok? ==>
      var nodes := GenEntries(config, rank, g, entries, base, address).value.0;
      |nodes| == |entries| && forall i :: 0 <= i < |nodes| ==> Expands(config, entries[i], nodes[i])
    decreases |entries|
  {
    if entries != [] && GenEntries(config, rank, g, entries, base, address).Ok? {
      var (node, next) := GenEntry(config, rank, g, entries[0], Place(entries[0], base, address)).value;
      EntriesExpand(config, rank, g, entries[1..], base, next);
      var nodes := GenEntries(config, rank, g, entries, base, address).value.0;
      var more := GenEntries(config, rank, g, entries[1..], base, next).value.0;
      assert nodes == [node] + more;
      EntryExpands(config, rank, g, entries[0], Place(entries[0], base, address));
      forall i | 0 <= i < |nodes| ensures Expands(config, entries[i], nodes[i]) {
        assert i > 0 ==> entries[i] == entries[1..][i - 1] && nodes[i] == more[i - 1];
      }
    }
  }

  lemma SingleCopy(config: Config, g: string, nodes: seq<Node>)
    requires g in config && |nodes| == |config[g].entries|
    requires forall i :: 0 <= i < |nodes| ==> Expands(config, config[g].entries[i], nodes[i])
    ensures Copies(config, g, nodes, 1)
  {
    var es := config[g].entries;
    forall i | 0 <= i < |nodes| ensures Expands(config, es[i % |es|], nodes[i]) {
      DivModIs(i, |es|, 0, i);
    }
  }

  lemma CopiesJoin(config: Config, g: string, first: seq<Node>, more: seq<Node>, n: nat)
    requires g in config && Copies(config, g, first, 1) && Copies(config, g, more, n)
    ensures Copies(config, g, first + more, n + 1)
  {
    var es, all := config[g].entries, first + more;
    assert 1 * |es| == |es| && (n + 1) * |es| == n * |es| + |es|;
    forall i | 0 <= i < |all| ensures Expands(config, es[i % |es|], all[i]) {
      if i >= |es| {
        ModShift(i, |es|);
        assert all[i] == more[i - |es|];
      } else {
        DivModIs(i, |es|, 0, i);
        assert all[i] == first[i];
      }
    }
  }

  lemma {:induction false} RepeatCopies(config: Config, rank: map<string, nat>, g: string, base: nat, address: nat,
                                        n: nat)
    requires Acyclic(config, rank) && g in config
    ensures GenRepeat(config, rank, g, base, address, n).Ok? ==>
      Copies(config, g, GenRepeat(config, rank, g, base, address, n).value.0, n)
    decreases n
  {
    if n > 0 && GenRepeat(config, rank, g, base, address, n).Ok? {
      EntriesExpand(config, rank, g, config[g].entries, base, address);
      var (nodes, next) := GenEntries(config, rank, g, config[g].entries, base, address).value;
      SingleCopy(config, g, nodes);
      RepeatCopies(config, rank, g, base, next, n - 1);
      CopiesJoin(config, g, nodes, GenRepeat(config, rank, g, base, next, n - 1).value.0, n - 1);
    }
  }

  lemma NodeCopies(config: Config, rank: map<string, nat>, g: string, address: nat)
    requires Acyclic(config, rank) && GenNode(config, rank, g, address).Ok?
    ensures var s := GenNode(config, rank, g, address).value.0;
      s.GroupNode? && s.number == config[g].number && Copies(config, g, s.nodes, config[g].number)
  {
    RepeatCopies(config, rank, g, address, address + config[g].offset, config[g].number);
  }

  /** What is listed for a generated sequence is exactly one copy of its group's entries, in
      their order: a nested sequence as a reference with its count, anything else itself. */
  lemma BlockIsOneCopy(config: Config, rank: map<string, nat>, g: string, address: nat)
    requires Acyclic(config, rank) && GenNode(config, rank, g, address).Ok? && config[g].number > 0
    ensures var s, es := GenNode(config, rank, g, address).value.0, config[g].entries;
      && |OneCopy(s)| == |es| && |Block(s)| == |es| + 1
      && forall i :: 0 <= i < |es| ==> Expands(config, es[i], OneCopy(s)[i]) && Block(s)[i] == ItemOf(OneCopy(s)[i])
  {
    NodeCopies(config, rank, g, address);
    BlockOfCopies(config, g, GenNode(config, rank, g, address).value.0);
  }

  lemma BlockOfCopies(config: Config, g: string, s: Node)
    requires g in config && s.GroupNode? && s.number == config[g].number > 0 && Copies(config, g, s.nodes, s.number)
    ensures var es := config[g].entries;
      && |OneCopy(s)| == |es| && |Block(s)| == |es| + 1
      && forall i :: 0 <= i < |es| ==> Expands(config, es[i], OneCopy(s)[i]) && Block(s)[i] == ItemOf(OneCopy(s)[i])
  {
    FirstCopy(config, g, s.nodes, s.number);
    assert CopyLength(s) == |config[g].entries|;
  }

  lemma {:induction false} SequencesAppend(xs: seq<Node>, ys: seq<Node>)
    ensures SequencesOf(xs + ys) == SequencesOf(xs) + SequencesOf(ys)
  {
    if xs == [] {
      assert xs + ys == ys;
    } else {
      assert (xs + ys)[1..] == xs[1..] + ys;
      SequencesAppend(xs[1..], ys);
    }
  }

  ghost predicate Yields(config: Config, rank: map<string, nat>, g: string, address: nat, s: Node)
    requires Acyclic(config, rank)
  {
    GenNode(config, rank, g, address).Ok? && GenNode(config, rank, g, address).value.0 == s
  }

  /** Each of these nodes is what its group generates somewhere. */
  ghost predicate AllGenerated(config: Config, rank: map<string, nat>, ss: seq<Node>)
    requires Acyclic(config, rank)
  {
    forall s :: s in ss ==> exists a: nat :: Yields(config, rank, s.name, a, s)
  }

  /** Every sequence inside a generated tree is itself a generated node of its group. */
  lemma {:induction false} SequencesGenerated(config: Config, rank: map<string, nat>, g: string, address: nat)
    requires Acyclic(config, rank)
    ensures GenNode(config, rank, g, address).Ok? ==>
      AllGenerated(config, rank, Sequences(GenNode(config, rank, g, address).value.0))
    decreases Rank(rank, g), 2, 0
  {
    if GenNode(config, rank, g, address).Ok? {
      var node := GenNode(config, rank, g, address).value.0;
      RepeatGenerated(config, rank, g, address, address + config[g].offset, config[g].number);
      assert Yields(config, rank, node.name, address, node);
    }
  }

  lemma {:induction false} RepeatGenerated(config: Config, rank: map<string, nat>, g: string, base: nat, address: nat,
                                           n: nat)
    requires Acyclic(config, rank) && g in config
    ensures GenRepeat(config, rank, g, base, address, n).Ok? ==>
      AllGenerated(config, rank, SequencesOf(GenRepeat(config, rank, g, base, address, n).value.0))
    decreases Rank(rank, g), 1, n
  {
    if n > 0 && GenRepeat(config, rank, g, base, address, n).Ok? {
      EntriesGenerated(config, rank, g, config[g].entries, base, address);
      var (nodes, next) := GenEntries(config, rank, g, config[g].entries, base, address).value;
      RepeatGenerated(config, rank, g, base, next, n - 1);
      SequencesAppend(nodes, GenRepeat(config, rank, g, base, next, n - 1).value.0);
    }
  }

  lemma {:induction false} EntriesGenerated(config: Config, rank: map<string, nat>, g: string, entries: seq<Entry>,
                                            base: nat, address: nat)
    requires Acyclic(config, rank) && g in config && forall e :: e in entries ==> e in config[g].entries
    ensures GenEntries(config, rank, g, entries, base, address).Ok? ==>
      AllGenerated(config, rank, SequencesOf(GenEntries(config, rank, g, entries, base, address).value.0))
    decreases Rank(rank, g), 0, |entries|
  {
    if entries != [] && GenEntries(config, rank, g, entries, base, address).Ok? {
      var at := Place(entries[0], base, address);
      var (node, next) := GenEntry(config, rank, g, entries[0], at).value;
      EntryGenerated(config, rank, g, entries[0], at);
      EntriesGenerated(config, rank, g, entries[1..], base, next);
      var more := GenEntries(config, rank, g, entries[1..], base, next).value.0;
      assert ([node] + more)[1..] == more;
    }
  }

  lemma {:induction false} EntryGenerated(config: Config, rank: map<string, nat>, g: string, e: Entry, at: nat)
    requires Acyclic(config, rank) && g in config && e in config[g].entries
    ensures GenEntry(config, rank, g, e, at).Ok? ==>
      AllGenerated(config, rank, Sequences(GenEntry(config, rank, g, e, at).value.0))
    decreases Rank(rank, g), 0, 0
  {
    if e.Ref? && e.name in config {
      SequencesGenerated(config, rank, e.name, at);
    }
  }

  /** `s` has exactly one copy of its own group's entries, in their order. */
  ghost predicate CopiesGroup(config: Config, s: Node) {
    && s.GroupNode? && s.number > 0 && s.name in config
    && |OneCopy(s)| == |config[s.name].entries|
    && forall i :: 0 <= i < |OneCopy(s)| ==> Expands(config, config[s.name].entries[i], OneCopy(s)[i])
  }

  /** Directly before position `q` of the list stands the copy of `s`, and before that either
      nothing or another struct. */
  ghost predicate PrecededByCopy(list: seq<Item>, q: nat, s: Node)
    requires s.GroupNode? && s.number > 0
  {
    var n := |OneCopy(s)|;
    n <= q < |list| && (q == n || list[q - n - 1].Struct?) && list[q - n..q] == Items(OneCopy(s))
  }

  /** Every sequence of a generated tree holds copies of its own group. */
  lemma SequenceCopiesGroup(config: Config, rank: map<string, nat>, root: Node, g: string, address: nat, s: Node)
    requires Acyclic(config, rank) && Yields(config, rank, g, address, root)
    requires s in Sequences(root) && s.GroupNode? && s.number > 0
    ensures CopiesGroup(config, s)
  {
    SequencesGenerated(config, rank, g, address);
    var a: nat :| Yields(config, rank, s.name, a, s);
    BlockIsOneCopy(config, rank, s.name, a);
  }

  lemma {:induction false} BlockInList(ss: seq<Node>, i: nat)
    requires AllSequences(ss) && i < |ss|
    ensures PrecededByCopy(Blocks(ss), StructAt(ss, i), ss[i])
  {
    if i == 0 {
      var copy := Items(OneCopy(ss[0]));
      assert (copy + [Struct(ss[0])] + Blocks(ss[1..]))[0..|copy|] == copy;
    } else {
      BlockInList(ss[1..], i - 1);
      PrecededBehind(Block(ss[0]), Blocks(ss[1..]), StructAt(ss[1..], i - 1), ss[i]);
    }
  }

  lemma PrecededBehind(first: seq<Item>, rest: seq<Item>, q: nat, s: Node)
    requires s.GroupNode? && s.number > 0 && PrecededByCopy(rest, q, s)
    requires first != [] && first[|first| - 1].Struct?
    ensures PrecededByCopy(first + rest, |first| + q, s)
  {
    var n := |OneCopy(s)|;
    assert (first + rest)[|first| + q - n..|first| + q] == rest[q - n..q];
  }

  lemma StructInList(root: Node, q: nat)
    requires AllSequences(Sequences(root)) && q < |Emitted(root)| && Emitted(root)[q].Struct?
    ensures var s := Emitted(root)[q].sequence;
      s in Sequences(root) && s.GroupNode? && s.number > 0 && PrecededByCopy(Emitted(root), q, s)
  {
    ChosenAll(Sequences(root));
    var i := LocateStruct(Chosen(Sequences(root)), q);
    ChosenIsWalked(Sequences(root), i);
    BlockInList(Chosen(Sequences(root)), i);
  }

  /** In the list emitted for a generated tree each struct is directly preceded by exactly one
      copy of its own group's entries, in their order. */
  lemma StructFollowsOneCopy(config: Config, rank: map<string, nat>, root: Node, g: string, address: nat, q: nat)
    requires Acyclic(config, rank) && Yields(config, rank, g, address, root) && AllSequences(Sequences(root))
    requires q < |Emitted(root)| && Emitted(root)[q].Struct?
    ensures CopiesGroup(config, Emitted(root)[q].sequence)
    ensures PrecededByCopy(Emitted(root), q, Emitted(root)[q].sequence)
  {
    StructInList(root, q);
    SequenceCopiesGroup(config, rank, root, g, address, Emitted(root)[q].sequence);
  }

  lemma {:induction false} ChosenIsWalked(ss: seq<Node>, i: nat)
    requires i < |Chosen(ss)|
    ensures Chosen(ss)[i] in ss
  {
    if i < |Chosen(ss[1..])| {
      ChosenIsWalked(ss[1..], i);
    }
  }

  lemma FirstCopy(config: Config, g: string, nodes: seq<Node>, n: nat)
    requires g in config && n > 0 && Copies(config, g, nodes, n)
    ensures |config[g].entries| <= |nodes| && |nodes| / n == |config[g].entries|
    ensures forall i :: 0 <= i < |config[g].entries| ==> Expands(config, config[g].entries[i], nodes[i])
  {
    var es := config[g].entries;
    DivModIs(n * |es|, n, |es|, 0);
    MulMono(1, n, |es|);
    forall i | 0 <= i < |es| ensures Expands(config, es[i], nodes[i]) {
      DivModIs(i, |es|, 0, i);
      assert Expands(config, es[i % |es|], nodes[i]);
    }
  }

  // ---------------------------------------------------------------- the loop

  lemma {:induction false} BlocksSnoc(ss: seq<Node>, s: Node)
    requires AllSequences(ss) && s.GroupNode? && s.number > 0
    ensures AllSequences(ss + [s]) && Blocks(ss + [s]) == Blocks(ss) + Block(s)
  {
    if ss == [] {
      assert [s][1..] == [];
    } else {
      assert (ss + [s])[1..] == ss[1..] + [s];
      BlocksSnoc(ss[1..], s);
    }
  }

  /** list_sequences; a sequence with number 0 would divide by zero and is not accepted. */
  method ListSequences(root: Node) returns (list: seq<Item>)
    requires AllSequences(Sequences(root))
    ensures list == Emitted(root)
  {
    var sequences := Sequences(root);
    var names: set<string> := {};
    list := [];
    var k := |sequences|;
    while k > 0
      invariant 0 <= k <= |sequences|
      invariant names == Names(sequences[k..])
      invariant AllSequences(Chosen(sequences[k..])) && list == Blocks(Chosen(sequences[k..]))
    {
      k := k - 1;
      var s := sequences[k];
      ChosenStep(sequences, k);
      if s.name !in names {
        names := names + {s.name};
        var items := Entries(s);
        list := list + items;
      }
    }
    assert sequences[0..] == sequences;
  }

  /** One turn of the loop, on the part of the walk that it has seen. */
  lemma ChosenStep(ss: seq<Node>, k: nat)
    requires k < |ss| && AllSequences(ss) && AllSequences(Chosen(ss[k + 1..]))
    ensures Names(ss[k..]) == Names(ss[k + 1..]) + {ss[k].name}
    ensures AllSequences(Chosen(ss[k..]))
    ensures Blocks(Chosen(ss[k..]))
            == Blocks(Chosen(ss[k + 1..])) + if ss[k].name in Names(ss[k + 1..]) then [] else Block(ss[k])
  {
    var s, rest := ss[k], ss[k + 1..];
    assert ss[k..] == [s] + rest;
    assert ([s] + rest)[1..] == rest;
    NamesSplit(s, rest);
    if s.name !in Names(rest) {
      BlocksSnoc(Chosen(rest), s);
    } else {
      assert Names(rest) + {s.name} == Names(rest);
      assert Chosen(rest) + [] == Chosen(rest);
    }
  }

  method Entries(s: Node) returns (items: seq<Item>)
    requires s.GroupNode? && s.number > 0
    ensures items == Block(s)
  {
    items := [];
    for index := 0 to CopyLength(s)
      invariant items == Block(s)[..index]
    {
      var item := s.nodes[index];
      if item.IsSequence() {
        items := items + [Nested(item.name, item.number)];
      } else {
        items := items + [Member(item)];
      }
    }
    items := items + [Struct(s)];
  }
}
