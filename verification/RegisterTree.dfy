/** The register map compiler: from the group definitions of a configuration to a tree of
    registers with addresses, and from the tree to the order of the generated structs. */
module RegisterTree {
  import opened Wrappers

  /** An entry of a group: a register with its address step, or a reference to a group. */
  datatype Entry =
    | Register(name: string, step: nat, offset: Option<nat>)
    | Ref(name: string, offset: Option<nat>)

  datatype GroupDef = GroupDef(number: nat, offset: nat, entries: seq<Entry>)

  type Config = map<string, GroupDef>

  /** A generated node; a group with a number other than 1 is a sequence. */
  datatype Node =
    | RegisterNode(name: string, address: nat, step: nat)
    | GroupNode(name: string, number: nat, address: nat, nodes: seq<Node>)
  {
    predicate IsSequence() { GroupNode? && number != 1 }
  }

  /** References lead to groups of lower rank, so expansion ends. */
  ghost predicate Acyclic(config: Config, rank: map<string, nat>) {
    && rank.Keys == config.Keys
    && forall g, e :: g in config && e in config[g].entries && e.Ref? && e.name in config ==> rank[e.name] < rank[g]
  }

  ghost function Rank(rank: map<string, nat>, g: string): nat {
    if g in rank then rank[g] else 0
  }

  /** Where an entry goes: its offset counts from the start of the group. */
  function Place(e: Entry, base: nat, address: nat): nat {
    match e.offset
    case None => address
    case Some(o) => base + o
  }

  /** generate_node: the node and the address behind it; a missing group is an error. */
  function GenNode(config: Config, ghost rank: map<string, nat>, g: string, address: nat): Result<(Node, nat), string>
    requires Acyclic(config, rank)
    decreases Rank(rank, g), 2, 0
  {
    if g !in config then Err(g)
    else
      match GenRepeat(config, rank, g, address, address + config[g].offset, config[g].number)
      case Err(e) => Err(e)
      case Ok((nodes, end)) => Ok((GroupNode(g, config[g].number, address, nodes), end))
  }

  /** `n` passes over the entries of group `g`. */
  function GenRepeat(config: Config, ghost rank: map<string, nat>, g: string, base: nat, address: nat, n: nat)
    : Result<(seq<Node>, nat), string>
    requires Acyclic(config, rank) && g in config
    decreases Rank(rank, g), 1, n
  {
    if n == 0 then Ok(([], address))
    else
      match GenEntries(config, rank, g, config[g].entries, base, address)
      case Err(e) => Err(e)
      case Ok((nodes, next)) =>
        match GenRepeat(config, rank, g, base, next, n - 1)
        case Err(e) => Err(e)
        case Ok((more, end)) => Ok((nodes + more, end))
  }

  function GenEntries(config: Config, ghost rank: map<string, nat>, g: string, entries: seq<Entry>, base: nat,
                      address: nat)
    : Result<(seq<Node>, nat), string>
    requires Acyclic(config, rank) && g in config && forall e :: e in entries ==> e in config[g].entries
    decreases Rank(rank, g), 0, |entries|
  {
    if entries == [] then Ok(([], address))
    else
      match GenEntry(config, rank, g, entries[0], Place(entries[0], base, address))
      case Err(e) => Err(e)
      case Ok((node, next)) =>
        match GenEntries(config, rank, g, entries[1..], base, next)
        case Err(e) => Err(e)
        case Ok((more, end)) => Ok(([node] + more, end))
  }

  function GenEntry(config: Config, ghost rank: map<string, nat>, g: string, e: Entry, at: nat)
    : Result<(Node, nat), string>
    requires Acyclic(config, rank) && g in config && e in config[g].entries
    decreases Rank(rank, g), 0, 0
  {
    match e
    case Register(name, step, _) => Ok((RegisterNode(name, at, step), at + step))
    case Ref(name, _) => if name !in config then Err(name) else GenNode(config, rank, name, at)
  }

  // ---------------------------------------------------------------- addresses

  /** The registers of a node in the order in which they are generated. */
  function Registers(node: Node): seq<Node> {
    match node
    case RegisterNode(_, _, _) => [node]
    case GroupNode(_, _, _, nodes) => RegistersOf(nodes)
  }

  function RegistersOf(nodes: seq<Node>): seq<Node> {
    if nodes == [] then [] else Registers(nodes[0]) + RegistersOf(nodes[1..])
  }

  ghost predicate Within(node: Node, r: Node) {
    node == r || (node.GroupNode? && exists i :: 0 <= i < |node.nodes| && Within(node.nodes[i], r))
  }

  /** The list has the registers of the tree, all of them and nothing else. */
  lemma {:induction false} RegistersExact(node: Node, r: Node)
    ensures r in Registers(node) <==> r.RegisterNode? && Within(node, r)
    decreases node, 0
  {
    if node.GroupNode? {
      RegistersOfExact(node.nodes, r);
    }
  }

  lemma {:induction false} RegistersOfExact(nodes: seq<Node>, r: Node)
    ensures r in RegistersOf(nodes) <==> r.RegisterNode? && exists i :: 0 <= i < |nodes| && Within(nodes[i], r)
    decreases nodes
  {
    if nodes != [] {
      RegistersExact(nodes[0], r);
      RegistersOfExact(nodes[1..], r);
      forall i | 0 < i < |nodes| ensures Within(nodes[i], r) <==> Within(nodes[1..][i - 1], r) {}
    }
  }

  /** Ascending registers that fill disjoint spans within `[lo, hi]`. */
  ghost predicate Laid(rs: seq<Node>, lo: nat, hi: nat) {
    && lo <= hi
    && (forall i :: 0 <= i < |rs| ==> rs[i].RegisterNode? && lo <= rs[i].address && rs[i].address + rs[i].step <= hi)
    && (forall i, j :: 0 <= i < j < |rs| ==>
          rs[i].RegisterNode? && rs[j].RegisterNode? && rs[i].address + rs[i].step <= rs[j].address)
  }

  ghost predicate PositiveSteps(config: Config) {
    forall g, e :: g in config && e in config[g].entries && e.Register? ==> e.step > 0
  }

  /** Laid out, and if all steps are positive, at strictly increasing addresses. */
  ghost predicate LaidBy(config: Config, rs: seq<Node>, lo: nat, hi: nat) {
    && Laid(rs, lo, hi)
    && (PositiveSteps(config) ==> forall i :: 0 <= i < |rs| ==> rs[i].step > 0)
    && (PositiveSteps(config) ==> forall i, j :: 0 <= i < j < |rs| ==> rs[i].address < rs[j].address)
  }

  /** No entry met while expanding `g` at `address` is placed before what precedes it. */
  ghost predicate ForwardNode(config: Config, rank: map<string, nat>, g: string, address: nat)
    requires Acyclic(config, rank)
    decreases Rank(rank, g), 2, 0
  {
    g in config ==> ForwardRepeat(config, rank, g, address, address + config[g].offset, config[g].number)
  }

  ghost predicate ForwardRepeat(config: Config, rank: map<string, nat>, g: string, base: nat, address: nat, n: nat)
    requires Acyclic(config, rank) && g in config
    decreases Rank(rank, g), 1, n
  {
    n > 0 ==>
      && ForwardEntries(config, rank, g, config[g].entries, base, address)
      && match GenEntries(config, rank, g, config[g].entries, base, address)
         case Err(_) => true
         case Ok((_, next)) => ForwardRepeat(config, rank, g, base, next, n - 1)
  }

  ghost predicate ForwardEntries(config: Config, rank: map<string, nat>, g: string, entries: seq<Entry>, base: nat,
                                 address: nat)
    requires Acyclic(config, rank) && g in config && forall e :: e in entries ==> e in config[g].entries
    decreases Rank(rank, g), 0, |entries|
  {
    entries != [] ==>
      var at := Place(entries[0], base, address);
      && at >= address
      && ForwardEntry(config, rank, g, entries[0], at)
      && match GenEntry(config, rank, g, entries[0], at)
         case Err(_) => true
         case Ok((_, next)) => ForwardEntries(config, rank, g, entries[1..], base, next)
  }

  ghost predicate ForwardEntry(config: Config, rank: map<string, nat>, g: string, e: Entry, at: nat)
    requires Acyclic(config, rank) && g in config && e in config[g].entries
    decreases Rank(rank, g), 0, 0
  {
    e.Ref? && e.name in config ==> ForwardNode(config, rank, e.name, at)
  }

  lemma {:induction false} RegistersAppend(xs: seq<Node>, ys: seq<Node>)
    ensures RegistersOf(xs + ys) == RegistersOf(xs) + RegistersOf(ys)
  {
    if xs == [] {
      assert xs + ys == ys;
    } else {
      assert (xs + ys)[1..] == xs[1..] + ys;
      RegistersAppend(xs[1..], ys);
    }
  }

  lemma RegistersCons(x: Node, ys: seq<Node>)
    ensures RegistersOf([x] + ys) == Registers(x) + RegistersOf(ys)
  {
    assert ([x] + ys)[1..] == ys;
  }

  lemma LaidJoin(config: Config, rs: seq<Node>, ss: seq<Node>, lo: nat, mid: nat, next: nat, hi: nat)
    requires LaidBy(config, rs, lo, mid) && LaidBy(config, ss, next, hi) && mid <= next
    ensures LaidBy(config, rs + ss, lo, hi)
  {
    var all := rs + ss;
    forall i, j | 0 <= i < j < |all|
      ensures all[i].RegisterNode? && all[j].RegisterNode? && all[i].address + all[i].step <= all[j].address
    {
      if i < |rs| && j >= |rs| {
        assert all[i] == rs[i] && all[j] == ss[j - |rs|];
      }
    }
  }

  /** If no offset goes back, the registers of a node are laid out in order, without overlap,
      between the address it starts at and the address it returns; with positive steps their
      addresses strictly increase. */
  lemma {:induction false} NodeLaid(config: Config, rank: map<string, nat>, g: string, address: nat)
    requires Acyclic(config, rank) && ForwardNode(config, rank, g, address)
    ensures GenNode(config, rank, g, address).Ok? ==>
      var (node, end) := GenNode(config, rank, g, address).value;
      LaidBy(config, Registers(node), address, end)
    decreases Rank(rank, g), 2, 0
  {
    if g in config {
      RepeatLaid(config, rank, g, address, address + config[g].offset, config[g].number);
    }
  }

  lemma {:induction false} RepeatLaid(config: Config, rank: map<string, nat>, g: string, base: nat, address: nat,
                                      n: nat)
    requires Acyclic(config, rank) && g in config && ForwardRepeat(config, rank, g, base, address, n)
    ensures GenRepeat(config, rank, g, base, address, n).Ok? ==>
      var (nodes, end) := GenRepeat(config, rank, g, base, address, n).value;
      LaidBy(config, RegistersOf(nodes), address, end)
    decreases Rank(rank, g), 1, n
  {
    if n > 0 && GenRepeat(config, rank, g, base, address, n).Ok? {
      EntriesLaid(config, rank, g, config[g].entries, base, address);
      var (nodes, next) := GenEntries(config, rank, g, config[g].entries, base, address).value;
      RepeatLaid(config, rank, g, base, next, n - 1);
      var (more, end) := GenRepeat(config, rank, g, base, next, n - 1).value;
      RegistersAppend(nodes, more);
      LaidJoin(config, RegistersOf(nodes), RegistersOf(more), address, next, next, end);
    }
  }

  lemma {:induction false} EntriesLaid(config: Config, rank: map<string, nat>, g: string, entries: seq<Entry>,
                                       base: nat, address: nat)
    requires Acyclic(config, rank) && g in config && forall e :: e in entries ==> e in config[g].entries
    requires ForwardEntries(config, rank, g, entries, base, address)
    ensures GenEntries(config, rank, g, entries, base, address).Ok? ==>
      var (nodes, end) := GenEntries(config, rank, g, entries, base, address).value;
      LaidBy(config, RegistersOf(nodes), address, end)
    decreases Rank(rank, g), 0, |entries|
  {
    if entries != [] && GenEntries(config, rank, g, entries, base, address).Ok? {
      var at := Place(entries[0], base, address);
      EntryLaid(config, rank, g, entries[0], at);
      var (node, next) := GenEntry(config, rank, g, entries[0], at).value;
      EntriesLaid(config, rank, g, entries[1..], base, next);
      var (more, end) := GenEntries(config, rank, g, entries[1..], base, next).value;
      RegistersCons(node, more);
      LaidJoin(config, Registers(node), RegistersOf(more), at, next, next, end);
      assert LaidBy(config, RegistersOf([node] + more), address, end);
    }
  }

  lemma {:induction false} EntryLaid(config: Config, rank: map<string, nat>, g: string, e: Entry, at: nat)
    requires Acyclic(config, rank) && g in config && e in config[g].entries && ForwardEntry(config, rank, g, e, at)
    ensures GenEntry(config, rank, g, e, at).Ok? ==>
      var (node, next) := GenEntry(config, rank, g, e, at).value;
      LaidBy(config, Registers(node), at, next)
    decreases Rank(rank, g), 0, 0
  {
    if e.Ref? && e.name in config {
      NodeLaid(config, rank, e.name, at);
    }
  }

  // ---------------------------------------------------------------- sizes

  /** Register.size and Group.size. */
  function Size(node: Node): nat {
    match node
    case RegisterNode(_, _, _) => 16
    case GroupNode(_, _, _, nodes) => SizeOf(nodes)
  }

  function SizeOf(nodes: seq<Node>): nat {
    if nodes == [] then 0 else Size(nodes[0]) + SizeOf(nodes[1..])
  }

  /** The reported size counts the registers of the tree, 16 bytes each. */
  lemma {:induction false} SizeCounts(node: Node)
    ensures Size(node) == 16 * |Registers(node)|
    decreases node, 0
  {
    if node.GroupNode? {
      SizeOfCounts(node.nodes);
    }
  }

  lemma {:induction false} SizeOfCounts(nodes: seq<Node>)
    ensures SizeOf(nodes) == 16 * |RegistersOf(nodes)|
    decreases nodes
  {
    if nodes != [] {
      SizeCounts(nodes[0]);
      SizeOfCounts(nodes[1..]);
    }
  }

  /** Default steps and no offsets anywhere. */
  ghost predicate Compact(config: Config) {
    forall g :: g in config ==>
      config[g].offset == 0
      && forall e :: e in config[g].entries ==> e.offset == None && (e.Register? ==> e.step == 0x010)
  }

  lemma {:induction false} SizeAppend(xs: seq<Node>, ys: seq<Node>)
    ensures SizeOf(xs + ys) == SizeOf(xs) + SizeOf(ys)
  {
    if xs == [] {
      assert xs + ys == ys;
    } else {
      assert (xs + ys)[1..] == xs[1..] + ys;
      SizeAppend(xs[1..], ys);
    }
  }

  /** With default steps and no offsets the generator advances the address by exactly the
      size that the tree reports. */
  lemma {:induction false} NodeSize(config: Config, rank: map<string, nat>, g: string, address: nat)
    requires Acyclic(config, rank) && Compact(config)
    ensures GenNode(config, rank, g, address).Ok? ==>
      var (node, end) := GenNode(config, rank, g, address).value; end == address + Size(node)
    decreases Rank(rank, g), 2, 0
  {
    if g in config {
      RepeatSize(config, rank, g, address, address, config[g].number);
    }
  }

  lemma {:induction false} RepeatSize(config: Config, rank: map<string, nat>, g: string, base: nat, address: nat,
                                      n: nat)
    requires Acyclic(config, rank) && g in config && Compact(config)
    ensures GenRepeat(config, rank, g, base, address, n).Ok? ==>
      var (nodes, end) := GenRepeat(config, rank, g, base, address, n).value; end == address + SizeOf(nodes)
    decreases Rank(rank, g), 1, n
  {
    if n > 0 && GenRepeat(config, rank, g, base, address, n).Ok? {
      EntriesSize(config, rank, g, config[g].entries, base, address);
      var (nodes, next) := GenEntries(config, rank, g, config[g].entries, base, address).value;
      RepeatSize(config, rank, g, base, next, n - 1);
      SizeAppend(nodes, GenRepeat(config, rank, g, base, next, n - 1).value.0);
    }
  }

  lemma {:induction false} EntriesSize(config: Config, rank: map<string, nat>, g: string, entries: seq<Entry>,
                                       base: nat, address: nat)
    requires Acyclic(config, rank) && g in config && Compact(config)
    requires forall e :: e in entries ==> e in config[g].entries
    ensures GenEntries(config, rank, g, entries, base, address).Ok? ==>
      var (nodes, end) := GenEntries(config, rank, g, entries, base, address).value; end == address + SizeOf(nodes)
    decreases Rank(rank, g), 0, |entries|
  {
    if entries != [] && GenEntries(config, rank, g, entries, base, address).Ok? {
      var e := entries[0];
      if e.Ref? && e.name in config {
        NodeSize(config, rank, e.name, address);
      }
      var (node, next) := GenEntry(config, rank, g, e, address).value;
      EntriesSize(config, rank, g, entries[1..], base, next);
      SizeAppend([node], GenEntries(config, rank, g, entries[1..], base, next).value.0);
      assert SizeOf([node]) == Size(node) by { assert [node][1..] == []; }
    }
  }
}
